/** The scrypt parameter object: its default value, its serialization as
    `key=value` entries joined by `,` (serializeHashParams), and the parsing
    of that text back into an object (the parameter part of deserializeHash,
    which builds the object with `Object.fromEntries`). */
module Params {
  import opened JsNumber
  import opened Text

  /** One property of the parameter object. */
  datatype Entry = Entry(key: string, value: Num)

  /** A JavaScript object lists its properties in insertion order, each key once. */
  predicate DistinctKeys(ps: seq<Entry>) {
    forall i, j :: 0 <= i < j < |ps| ==> ps[i].key != ps[j].key
  }

  function Keys(ps: seq<Entry>): (ks: set<string>) {
    set i | 0 <= i < |ps| :: ps[i].key
  }

  lemma {:induction false} KeysCons(e: Entry, rest: seq<Entry>)
    ensures Keys([e] + rest) == {e.key} + Keys(rest)
  {
    var ps := [e] + rest;
    forall k | k in Keys(ps) ensures k in {e.key} + Keys(rest) {
      var i :| 0 <= i < |ps| && ps[i].key == k;
      if i > 0 {
        assert rest[i - 1].key == k;
      }
    }
    forall k | k in Keys(rest) ensures k in Keys(ps) {
      var i :| 0 <= i < |rest| && rest[i].key == k;
      assert ps[i + 1].key == k;
    }
    assert ps[0].key == e.key;
  }

  lemma {:induction false} KeysSnoc(init: seq<Entry>, e: Entry)
    ensures Keys(init + [e]) == Keys(init) + {e.key}
  {
    var ps := init + [e];
    forall k | k in Keys(ps) ensures k in Keys(init) + {e.key} {
      var i :| 0 <= i < |ps| && ps[i].key == k;
      if i < |init| {
        assert init[i].key == k;
      }
    }
    forall k | k in Keys(init) ensures k in Keys(ps) {
      var i :| 0 <= i < |init| && init[i].key == k;
      assert ps[i].key == k;
    }
    assert ps[|init|].key == e.key;
  }

  /** SCRYPT_PARAMS: N = 32768, r = 8, p = 1, maxmem = 64 MiB, in this order. */
  const DefaultParams: seq<Entry> := [
    Entry("N", Int(32768)),
    Entry("r", Int(8)),
    Entry("p", Int(1)),
    Entry("maxmem", Int(64 * 1024 * 1024))
  ]

  /** `${key}=${value}` */
  function EntryString(e: Entry): (s: string) {
    e.key + "=" + ToString(e.value)
  }

  function EntryStrings(ps: seq<Entry>): (r: seq<string>)
    ensures |r| == |ps|
    ensures forall i :: 0 <= i < |ps| ==> r[i] == EntryString(ps[i])
  {
    if |ps| == 0 then [] else [EntryString(ps[0])] + EntryStrings(ps[1..])
  }

  /** serializeHashParams: the entries in the object's order, joined by `,`.
      The text has no `$` unless a key has one, so it stays one field of the
      verifier string. */
  function Serialize(ps: seq<Entry>): (s: string)
    ensures (forall i :: 0 <= i < |ps| ==> '$' !in ps[i].key) ==> '$' !in s
  {
    var pieces := EntryStrings(ps);
    assert forall i :: 0 <= i < |pieces| ==> pieces[i] == ps[i].key + "=" + ToString(ps[i].value);
    Join(pieces, ',')
  }

  /** One `key=value` piece: the key is the text before the first `=` and the
      value is `parseInt` of the text between the first and second `=`;
      a piece without `=` has an undefined value, which parses to NaN. */
  function ParseEntry(piece: string): (e: Entry)
    ensures e.key <= piece && '=' !in e.key
    ensures '=' !in piece ==> e == Entry(piece, NaN)
    ensures '=' in piece ==>
      && |e.key| < |piece| && piece[|e.key|] == '='
      && e.value == ParseInt(Split(piece[|e.key| + 1..], '=')[0])
  {
    var parts := Split(piece, '=');
    JoinSplit(piece, '=');
    if |parts| >= 2 then
      assert piece == parts[0] + ['='] + Join(parts[1..], '=');
      assert piece[|parts[0]| + 1..] == Join(parts[1..], '=');
      SplitJoin(parts[1..], '=');
      Entry(parts[0], ParseInt(parts[1]))
    else
      Entry(parts[0], NaN)
  }

  function ParseEntries(pieces: seq<string>): (es: seq<Entry>)
    ensures |es| == |pieces|
    ensures forall i :: 0 <= i < |pieces| ==> es[i] == ParseEntry(pieces[i])
  {
    if |pieces| == 0 then [] else [ParseEntry(pieces[0])] + ParseEntries(pieces[1..])
  }

  /** Property assignment `obj[e.key] = e.value`: an existing key keeps its
      position and takes the new value; a new key goes last. Every other
      entry keeps its value and its position. */
  function Assign(obj: seq<Entry>, e: Entry): (r: seq<Entry>)
    requires DistinctKeys(obj)
    ensures DistinctKeys(r)
    ensures Keys(r) == Keys(obj) + {e.key}
    ensures e in r
    ensures e.key !in Keys(obj) ==> r == obj + [e]
    ensures e.key in Keys(obj) ==>
      && |r| == |obj|
      && forall i :: 0 <= i < |obj| ==> r[i] == (if obj[i].key == e.key then e else obj[i])
  {
    if |obj| == 0 then
      KeysCons(e, obj);
      assert [e] + obj == [e];
      [e]
    else
      assert obj == [obj[0]] + obj[1..];
      KeysCons(obj[0], obj[1..]);
      if obj[0].key == e.key then
        KeysCons(e, obj[1..]);
        [e] + obj[1..]
      else
        var rest := Assign(obj[1..], e);
        KeysCons(obj[0], rest);
        [obj[0]] + rest
  }

  /** Entry `i` is the last one in `es` with its key. */
  predicate LastOfKey(es: seq<Entry>, i: int) {
    0 <= i < |es| && forall j :: i < j < |es| ==> es[j].key != es[i].key
  }

  /** An entry of `obj` whose key is not assigned survives the assignment. */
  lemma {:induction false} AssignKeeps(obj: seq<Entry>, e: Entry, x: Entry)
    requires DistinctKeys(obj) && x in obj && x.key != e.key
    ensures x in Assign(obj, e)
  {
    var k :| 0 <= k < |obj| && obj[k] == x;
    if e.key in Keys(obj) {
      assert Assign(obj, e)[k] == x;
    } else {
      assert (obj + [e])[k] == x;
    }
  }

  /** `Object.fromEntries`: assign every entry in order, so a later
      duplicate key overwrites an earlier one. The object has each key of
      the input once, holding the value of the key's last entry. */
  function FromEntries(es: seq<Entry>): (obj: seq<Entry>)
    ensures DistinctKeys(obj)
    ensures Keys(obj) == Keys(es)
    ensures forall i :: 0 <= i < |es| && LastOfKey(es, i) ==> es[i] in obj
  {
    if |es| == 0 then []
    else
      var init := es[..|es| - 1];
      assert es == init + [es[|es| - 1]];
      KeysSnoc(init, es[|es| - 1]);
      var prev := FromEntries(init);
      FromEntriesStep(es, prev);
      Assign(prev, es[|es| - 1])
  }

  /** Assigning the last entry keeps every entry that was already the last
      of its key, and adds the new one. */
  lemma {:induction false} FromEntriesStep(es: seq<Entry>, prev: seq<Entry>)
    requires |es| >= 1 && DistinctKeys(prev)
    requires forall i :: 0 <= i < |es| - 1 && LastOfKey(es[..|es| - 1], i) ==> es[i] in prev
    ensures forall i :: 0 <= i < |es| && LastOfKey(es, i) ==> es[i] in Assign(prev, es[|es| - 1])
  {
    var init, last := es[..|es| - 1], es[|es| - 1];
    forall i | 0 <= i < |es| && LastOfKey(es, i) ensures es[i] in Assign(prev, last) {
      if i < |es| - 1 {
        assert LastOfKey(init, i);
        AssignKeeps(prev, last, es[i]);
      }
    }
  }

  /** The parameter part of deserializeHash: split on `,`, split each piece
      on `=`, and build an object from the pairs. The object is never empty,
      and no key contains `,` or `=`. */
  function Parse(text: string): (r: seq<Entry>)
    ensures |r| >= 1 && DistinctKeys(r)
    ensures forall i :: 0 <= i < |r| ==> ',' !in r[i].key && '=' !in r[i].key
  {
    var pieces := Split(text, ',');
    var es := ParseEntries(pieces);
    var obj := FromEntries(es);
    ParseKeys(pieces, obj);
    obj
  }

  /** The keys an object built from `,`-free pieces holds. */
  lemma {:induction false} ParseKeys(pieces: seq<string>, obj: seq<Entry>)
    requires |pieces| >= 1 && forall i :: 0 <= i < |pieces| ==> ',' !in pieces[i]
    requires Keys(obj) == Keys(ParseEntries(pieces))
    ensures |obj| >= 1
    ensures forall i :: 0 <= i < |obj| ==> ',' !in obj[i].key && '=' !in obj[i].key
  {
    var es := ParseEntries(pieces);
    assert es[0].key in Keys(es);
    forall i | 0 <= i < |obj| ensures ',' !in obj[i].key && '=' !in obj[i].key {
      assert obj[i].key in Keys(obj);
      var j :| 0 <= j < |es| && es[j].key == obj[i].key;
    }
  }

  /** A value that Number-to-String and `parseInt` carry through unchanged. */
  predicate IsSafeValue(v: Num) {
    v.Int? ==> -MaxSafeInteger <= v.i <= MaxSafeInteger
  }

  /** What the codec needs of a parameter object to read it back: at least
      one entry, no delimiter inside a key, and exactly representable values. */
  predicate RoundTrips(ps: seq<Entry>) {
    && |ps| >= 1
    && DistinctKeys(ps)
    && forall i :: 0 <= i < |ps| ==>
         && ',' !in ps[i].key && '=' !in ps[i].key && '$' !in ps[i].key
         && IsSafeValue(ps[i].value)
  }

  /** One serialized entry reads back as itself. */
  lemma {:induction false} ParseEntryString(e: Entry)
    requires '=' !in e.key && IsSafeValue(e.value)
    ensures ParseEntry(EntryString(e)) == e
  {
    var v := ToString(e.value);
    assert EntryString(e) == e.key + ['='] + v;
    SplitAfterField(e.key, '=', v);
    SplitNoSeparator(v, '=');
    ParseIntToString(e.value);
  }

  /** Text after a second `=` in a piece is ignored, not rejected. */
  lemma {:induction false} ParseEntryIgnoresSecondEquals(key: string, value: string, extra: string)
    requires '=' !in key && '=' !in value
    ensures ParseEntry(key + "=" + value + "=" + extra) == ParseEntry(key + "=" + value)
  {
    var long, short := key + "=" + value + "=" + extra, key + "=" + value;
    assert long == key + ['='] + (value + ['='] + extra);
    assert short == key + ['='] + value;
    SplitAfterField(key, '=', value + ['='] + extra);
    SplitAfterField(value, '=', extra);
    SplitAfterField(key, '=', value);
    SplitNoSeparator(value, '=');
    assert Split(long, '=')[1] == value == Split(short, '=')[1];
  }

  /** An entry list with distinct keys is already an object: fromEntries
      keeps it, in order. */
  lemma {:induction false} FromEntriesDistinct(es: seq<Entry>)
    requires DistinctKeys(es)
    ensures FromEntries(es) == es
  {
    if |es| > 0 {
      var init := es[..|es| - 1];
      var last := es[|es| - 1];
      assert DistinctKeys(init);
      FromEntriesDistinct(init);
      forall i | 0 <= i < |init| ensures init[i].key != last.key {
        assert es[i].key != es[|es| - 1].key;
      }
      assert last.key !in Keys(init);
      assert init + [last] == es;
    }
  }

  /** Each serialized entry reads back as itself. */
  lemma {:induction false} ParseEntriesOfStrings(ps: seq<Entry>)
    requires forall i :: 0 <= i < |ps| ==> '=' !in ps[i].key && IsSafeValue(ps[i].value)
    ensures ParseEntries(EntryStrings(ps)) == ps
  {
    var es := ParseEntries(EntryStrings(ps));
    forall i | 0 <= i < |ps| ensures es[i] == ps[i] {
      ParseEntryString(ps[i]);
    }
  }

  /** Parsing undoes serializing for every parameter object that round-trips. */
  lemma {:induction false} ParseSerialize(ps: seq<Entry>)
    requires RoundTrips(ps)
    ensures Parse(Serialize(ps)) == ps
  {
    var pieces := EntryStrings(ps);
    forall i | 0 <= i < |pieces| ensures ',' !in pieces[i] {
      assert pieces[i] == ps[i].key + "=" + ToString(ps[i].value);
    }
    SplitJoin(pieces, ',');
    ParseEntriesOfStrings(ps);
    FromEntriesDistinct(ps);
  }

  /** An empty object does not round-trip: it serializes to the empty
      string, which parses as one entry with empty key and NaN value. */
  lemma {:induction false} EmptyParams()
    ensures Serialize([]) == ""
    ensures Parse("") == [Entry("", NaN)]
  {
    assert Split("", ',') == [""];
    assert Split("", '=') == [""];
    assert ParseEntries([""]) == [Entry("", NaN)];
    assert DistinctKeys([Entry("", NaN)]);
    FromEntriesDistinct([Entry("", NaN)]);
  }

  lemma {:induction false} DecimalLiterals()
    ensures ToString(Int(32768)) == "32768"
    ensures ToString(Int(8)) == "8"
    ensures ToString(Int(1)) == "1"
    ensures ToString(Int(67108864)) == "67108864"
  {
    assert Decimal(3) == "3";
    assert Decimal(32) == "32";
    assert Decimal(327) == "327";
    assert Decimal(3276) == "3276";
    assert Decimal(32768) == "32768";
    assert Decimal(6) == "6";
    assert Decimal(67) == "67";
    assert Decimal(671) == "671";
    assert Decimal(6710) == "6710";
    assert Decimal(67108) == "67108";
    assert Decimal(671088) == "671088";
    assert Decimal(6710886) == "6710886";
    assert Decimal(67108864) == "67108864";
  }

  /** The default parameters satisfy what the round trip needs. */
  lemma {:induction false} DefaultParamsRoundTrip()
    ensures RoundTrips(DefaultParams)
    ensures Parse(Serialize(DefaultParams)) == DefaultParams
  {
    var ks := ["N", "r", "p", "maxmem"];
    assert forall i :: 0 <= i < 4 ==> DefaultParams[i].key == ks[i];
    assert forall i :: 0 <= i < 4 ==> ',' !in ks[i] && '=' !in ks[i] && '$' !in ks[i];
    assert forall i, j :: 0 <= i < j < 4 ==> ks[i] != ks[j];
    ParseSerialize(DefaultParams);
  }

  /** The default parameters serialize to `N=32768,r=8,p=1,maxmem=67108864`. */
  lemma {:induction false} DefaultParamsText()
    ensures Serialize(DefaultParams) == "N=32768,r=8,p=1,maxmem=67108864"
  {
    DefaultEntryStrings();
    JoinDefaultPieces();
  }

  lemma DefaultEntryStrings()
    ensures EntryStrings(DefaultParams) == ["N=32768", "r=8", "p=1", "maxmem=67108864"]
  {
    DecimalLiterals();
    var es := EntryStrings(DefaultParams);
    EntryStringOf("N", 32768, "32768", "N=32768");
    EntryStringOf("r", 8, "8", "r=8");
    EntryStringOf("p", 1, "1", "p=1");
    EntryStringOf("maxmem", 67108864, "67108864", "maxmem=67108864");
    assert |es| == 4;
  }

  /** The text of one entry whose value prints as `digits`. */
  lemma EntryStringOf(key: string, n: int, digits: string, text: string)
    requires ToString(Int(n)) == digits && text == key + "=" + digits
    ensures EntryString(Entry(key, Int(n))) == text
  {
  }

  lemma JoinDefaultPieces()
    ensures Join(["N=32768", "r=8", "p=1", "maxmem=67108864"], ',') == "N=32768,r=8,p=1,maxmem=67108864"
  {
    var pieces := ["N=32768", "r=8", "p=1", "maxmem=67108864"];
    assert pieces[1..] == ["r=8", "p=1", "maxmem=67108864"];
    assert pieces[1..][1..] == ["p=1", "maxmem=67108864"];
    assert pieces[1..][1..][1..] == ["maxmem=67108864"];
  }

  /** A value that is not a number is kept as NaN rather than rejected:
      `N=abc` parses to the entry N = NaN. */
  lemma {:induction false} NonNumericValue(key: string, value: string)
    requires ',' !in key && '=' !in key && ',' !in value && '=' !in value
    requires |value| > 0 && !IsStrWhiteSpace(value[0]) && !IsDigit(value[0])
    requires value[0] != '-' && value[0] != '+'
    ensures Parse(key + "=" + value) == [Entry(key, NaN)]
  {
    var piece := key + "=" + value;
    assert piece == key + ['='] + value;
    assert ',' !in piece;
    SplitNoSeparator(piece, ',');
    SplitAfterField(key, '=', value);
    SplitNoSeparator(value, '=');
    ParseIntNotANumber(value);
    assert ParseEntries([piece]) == [Entry(key, NaN)];
    FromEntriesDistinct([Entry(key, NaN)]);
  }

  /** A key given twice keeps its first position and its last value. */
  lemma {:induction false} DuplicateKeyLastWins(key: string, first: Num, second: Num)
    requires ',' !in key && '=' !in key && IsSafeValue(first) && IsSafeValue(second)
    ensures Parse(EntryString(Entry(key, first)) + "," + EntryString(Entry(key, second)))
         == [Entry(key, second)]
  {
    var a, b := EntryString(Entry(key, first)), EntryString(Entry(key, second));
    assert ',' !in a && ',' !in b;
    ParsePair(a, b);
    ParseEntryString(Entry(key, first));
    ParseEntryString(Entry(key, second));
    FromEntriesSameKey(Entry(key, first), Entry(key, second));
  }

  /** Two `,`-free pieces joined by `,` parse entry by entry. */
  lemma {:induction false} ParsePair(a: string, b: string)
    requires ',' !in a && ',' !in b
    ensures Parse(a + "," + b) == FromEntries([ParseEntry(a), ParseEntry(b)])
  {
    assert a + "," + b == a + [','] + b;
    SplitAfterField(a, ',', b);
    SplitNoSeparator(b, ',');
    assert ParseEntries([a, b]) == [ParseEntry(a), ParseEntry(b)];
  }

  lemma FromEntriesSameKey(e1: Entry, e2: Entry)
    requires e1.key == e2.key
    ensures FromEntries([e1, e2]) == [e2]
  {
    var es := [e1, e2];
    assert es[..1] == [e1];
    FromEntriesDistinct([e1]);
  }
}
