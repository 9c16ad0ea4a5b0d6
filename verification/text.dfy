/** JavaScript's `String.prototype.split` and `Array.prototype.join` for a
    one-character separator, and the facts that make them inverses. */
module Text {

  /** `s.split(sep)`: the maximal separator-free pieces of `s`, in order.
      There is always one more field than there are separators. */
  function Split(s: string, sep: char): (fields: seq<string>)
    ensures |fields| >= 1
    ensures forall i :: 0 <= i < |fields| ==> sep !in fields[i]
    decreases |s|
  {
    if |s| == 0 then [""]
    else
      var rest := Split(s[1..], sep);
      if s[0] == sep then [""] + rest
      else [[s[0]] + rest[0]] + rest[1..]
  }

  /** `fields.join(sep)`: every character of the result that is not the
      separator comes from one of the fields. */
  function Join(fields: seq<string>, sep: char): (s: string)
    ensures forall c :: c in s && c != sep ==> exists i :: 0 <= i < |fields| && c in fields[i]
  {
    if |fields| == 0 then ""
    else if |fields| == 1 then fields[0]
    else fields[0] + [sep] + Join(fields[1..], sep)
  }

  /** There is one more field than there are separators. */
  lemma {:induction false} SplitCount(s: string, sep: char)
    ensures |Split(s, sep)| == multiset(s)[sep] + 1
    decreases |s|
  {
    if |s| > 0 {
      SplitCount(s[1..], sep);
      assert s == [s[0]] + s[1..];
    }
  }

  /** Splitting a string with no separator in it yields the string itself. */
  lemma {:induction false} SplitNoSeparator(a: string, sep: char)
    requires sep !in a
    ensures Split(a, sep) == [a]
  {
    if |a| > 0 {
      SplitNoSeparator(a[1..], sep);
      assert [a[0]] + a[1..] == a;
    }
  }

  /** A separator-free prefix followed by a separator becomes the first field. */
  lemma {:induction false} SplitAfterField(a: string, sep: char, b: string)
    requires sep !in a
    ensures Split(a + [sep] + b, sep) == [a] + Split(b, sep)
  {
    var s := a + [sep] + b;
    if |a| == 0 {
      assert s == [sep] + b;
      assert s[1..] == b;
    } else {
      assert s[0] == a[0];
      assert s[1..] == a[1..] + [sep] + b;
      SplitAfterField(a[1..], sep, b);
      assert [a[0]] + a[1..] == a;
    }
  }

  /** The first field of `a + rest` is `a` when `a` has no separator and
      `rest` is empty or starts with one: the `.split(sep)[0]` idiom. */
  lemma {:induction false} FirstField(a: string, sep: char, rest: string)
    requires sep !in a
    requires |rest| == 0 || rest[0] == sep
    ensures Split(a + rest, sep)[0] == a
  {
    if |rest| == 0 {
      assert a + rest == a;
      SplitNoSeparator(a, sep);
    } else {
      assert a + rest == a + [sep] + rest[1..];
      SplitAfterField(a, sep, rest[1..]);
    }
  }

  /** Splitting undoes joining fields that contain no separator. */
  lemma {:induction false} SplitJoin(fields: seq<string>, sep: char)
    requires |fields| >= 1
    requires forall i :: 0 <= i < |fields| ==> sep !in fields[i]
    ensures Split(Join(fields, sep), sep) == fields
    decreases |fields|
  {
    if |fields| == 1 {
      SplitNoSeparator(fields[0], sep);
    } else {
      SplitJoin(fields[1..], sep);
      SplitAfterField(fields[0], sep, Join(fields[1..], sep));
      assert [fields[0]] + fields[1..] == fields;
    }
  }

  /** Joining a leading field onto a non-empty list puts one separator between. */
  lemma {:induction false} JoinCons(x: string, fields: seq<string>, sep: char)
    requires |fields| >= 1
    ensures Join([x] + fields, sep) == x + [sep] + Join(fields, sep)
  {
    assert ([x] + fields)[1..] == fields;
  }

  /** Prepending a non-separator character extends the first field. */
  lemma {:induction false} PrependToFirst(c: char, fields: seq<string>, sep: char)
    requires |fields| >= 1
    ensures Join([[c] + fields[0]] + fields[1..], sep) == [c] + Join(fields, sep)
  {
    if |fields| > 1 {
      JoinCons([c] + fields[0], fields[1..], sep);
      JoinCons(fields[0], fields[1..], sep);
      assert [fields[0]] + fields[1..] == fields;
    } else {
      assert [[c] + fields[0]] + fields[1..] == [[c] + fields[0]];
    }
  }

  /** Joining undoes splitting, for every string. */
  lemma {:induction false} JoinSplit(s: string, sep: char)
    ensures Join(Split(s, sep), sep) == s
    decreases |s|
  {
    if |s| > 0 {
      var rest := Split(s[1..], sep);
      JoinSplit(s[1..], sep);
      assert s == [s[0]] + s[1..];
      if s[0] == sep {
        JoinCons("", rest, sep);
      } else {
        PrependToFirst(s[0], rest, sep);
      }
    }
  }

  /** One step of `Split`, stated for a string built from its first character. */
  lemma SplitCons(c: char, rest: string, sep: char)
    ensures Split([c] + rest, sep)
         == if c == sep then [""] + Split(rest, sep)
            else [[c] + Split(rest, sep)[0]] + Split(rest, sep)[1..]
  {
    assert ([c] + rest)[1..] == rest;
  }

  /** Splitting two strings glued by a separator concatenates their fields. */
  lemma {:induction false} SplitConcat(a: string, sep: char, b: string)
    ensures Split(a + [sep] + b, sep) == Split(a, sep) + Split(b, sep)
    decreases |a|
  {
    if |a| == 0 {
      assert a + [sep] + b == [sep] + b;
      SplitCons(sep, b, sep);
    } else {
      var c, a' := a[0], a[1..];
      assert a == [c] + a';
      assert a + [sep] + b == [c] + (a' + [sep] + b);
      SplitConcat(a', sep, b);
      SplitConsConcat(c, a', sep, b);
    }
  }

  /** The inductive step of `SplitConcat`. */
  lemma SplitConsConcat(c: char, a: string, sep: char, b: string)
    requires Split(a + [sep] + b, sep) == Split(a, sep) + Split(b, sep)
    ensures Split([c] + (a + [sep] + b), sep) == Split([c] + a, sep) + Split(b, sep)
  {
    SplitCons(c, a + [sep] + b, sep);
    SplitCons(c, a, sep);
    if c != sep {
      PrependFirstConcat([c], Split(a, sep), Split(b, sep));
    } else {
      PrependEmptyConcat(Split(a, sep), Split(b, sep));
    }
  }

  lemma PrependEmptyConcat(ra: seq<string>, rb: seq<string>)
    ensures [""] + (ra + rb) == ([""] + ra) + rb
  {
  }

  /** Extending the first field of a concatenation of field lists. */
  lemma PrependFirstConcat(p: string, ra: seq<string>, rb: seq<string>)
    requires |ra| >= 1
    ensures [p + (ra + rb)[0]] + (ra + rb)[1..] == ([p + ra[0]] + ra[1..]) + rb
  {
    assert (ra + rb)[0] == ra[0];
    assert (ra + rb)[1..] == ra[1..] + rb;
  }
}
