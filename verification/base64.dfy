/** Standard base64 (section 4 of RFC 4648): the padded encoding that
    `Buffer.prototype.toString('base64')` produces, the unpadded form the
    verifier string stores, and a decoder for the unpadded form. */
module Base64 {
  import opened Wrappers
  import Text

  type byte = b: int | 0 <= b < 256
  type Bytes = seq<byte>

  predicate IsBase64Char(c: char) {
    || 'A' <= c <= 'Z'
    || 'a' <= c <= 'z'
    || '0' <= c <= '9'
    || c == '+'
    || c == '/'
  }

  /** The character of the base64 alphabet with index `i`. */
  function CharOf(i: int): (c: char)
    requires 0 <= i < 64
    ensures IsBase64Char(c)
  {
    if i < 26 then ('A' as int + i) as char
    else if i < 52 then ('a' as int + (i - 26)) as char
    else if i < 62 then ('0' as int + (i - 52)) as char
    else if i == 62 then '+'
    else '/'
  }

  /** The index of an alphabet character. */
  function IndexOf(c: char): (i: int)
    requires IsBase64Char(c)
    ensures 0 <= i < 64
  {
    if 'A' <= c <= 'Z' then c as int - 'A' as int
    else if 'a' <= c <= 'z' then c as int - 'a' as int + 26
    else if '0' <= c <= '9' then c as int - '0' as int + 52
    else if c == '+' then 62
    else 63
  }

  lemma {:induction false} IndexOfCharOf(i: int)
    requires 0 <= i < 64
    ensures IndexOf(CharOf(i)) == i
  {
  }

  /** Three bytes become four characters, six bits each. */
  function EncodeGroup(a: byte, b: byte, c: byte): (s: string)
    ensures |s| == 4 && IsUnpaddedBase64(s)
  {
    [CharOf(a / 4), CharOf((a % 4) * 16 + b / 16), CharOf((b % 16) * 4 + c / 64), CharOf(c % 64)]
  }

  /** A final pair of bytes becomes three characters, the last with two zero bits. */
  function EncodeTail2(a: byte, b: byte): (s: string)
    ensures |s| == 3 && IsUnpaddedBase64(s)
  {
    [CharOf(a / 4), CharOf((a % 4) * 16 + b / 16), CharOf((b % 16) * 4)]
  }

  /** A final single byte becomes two characters, the last with four zero bits. */
  function EncodeTail1(a: byte): (s: string)
    ensures |s| == 2 && IsUnpaddedBase64(s)
  {
    [CharOf(a / 4), CharOf((a % 4) * 16)]
  }

  /** `Buffer.prototype.toString('base64')`: padded with `=` to a multiple of four. */
  function Encode(bs: Bytes): (s: string)
    ensures |s| == 4 * ((|bs| + 2) / 3)
    decreases |bs|
  {
    if |bs| == 0 then ""
    else if |bs| == 1 then EncodeTail1(bs[0]) + "=="
    else if |bs| == 2 then EncodeTail2(bs[0], bs[1]) + "="
    else EncodeGroup(bs[0], bs[1], bs[2]) + Encode(bs[3..])
  }

  /** The encoding without padding characters. */
  function EncodeUnpadded(bs: Bytes): (s: string)
    ensures forall k :: 0 <= k < |s| ==> IsBase64Char(s[k])
    ensures '=' !in s && '$' !in s
    decreases |bs|
  {
    if |bs| == 0 then ""
    else if |bs| == 1 then EncodeTail1(bs[0])
    else if |bs| == 2 then EncodeTail2(bs[0], bs[1])
    else EncodeGroup(bs[0], bs[1], bs[2]) + EncodeUnpadded(bs[3..])
  }

  /** The `=` characters that pad an encoding of `n` bytes. */
  function Padding(n: nat): (p: string)
  {
    if n % 3 == 1 then "==" else if n % 3 == 2 then "=" else ""
  }

  /** Well-formed unpadded base64: alphabet characters only, and a length
      that a whole number of bytes can produce. */
  predicate IsUnpaddedBase64(s: string) {
    && |s| % 4 != 1
    && forall k :: 0 <= k < |s| ==> IsBase64Char(s[k])
  }

  /** Decoding of well-formed unpadded base64. Leftover low bits of a final
      partial group are ignored. */
  function DecodeValid(s: string): (bs: Bytes)
    requires IsUnpaddedBase64(s)
    ensures |bs| == 3 * |s| / 4
    decreases |s|
  {
    if |s| == 0 then []
    else if |s| == 2 then
      [IndexOf(s[0]) * 4 + IndexOf(s[1]) / 16]
    else if |s| == 3 then
      [IndexOf(s[0]) * 4 + IndexOf(s[1]) / 16,
       (IndexOf(s[1]) % 16) * 16 + IndexOf(s[2]) / 4]
    else
      [IndexOf(s[0]) * 4 + IndexOf(s[1]) / 16,
       (IndexOf(s[1]) % 16) * 16 + IndexOf(s[2]) / 4,
       (IndexOf(s[2]) % 4) * 64 + IndexOf(s[3])] + DecodeValid(s[4..])
  }

  /** `Buffer.from(s, 'base64')` on its well-formed unpadded domain; `None`
      outside it. */
  function Decode(s: string): (r: Option<Bytes>)
    ensures r.Some? <==> IsUnpaddedBase64(s)
    ensures r.Some? ==> |r.value| == 3 * |s| / 4
  {
    if IsUnpaddedBase64(s) then Some(DecodeValid(s)) else None
  }

  /** The padded encoding is the unpadded one followed by its padding. */
  lemma {:induction false} EncodeIsUnpaddedPlusPadding(bs: Bytes)
    ensures Encode(bs) == EncodeUnpadded(bs) + Padding(|bs|)
    decreases |bs|
  {
    if |bs| >= 3 {
      var g := EncodeGroup(bs[0], bs[1], bs[2]);
      EncodeIsUnpaddedPlusPadding(bs[3..]);
      assert Padding(|bs[3..]|) == Padding(|bs|);
      calc {
        Encode(bs);
        g + Encode(bs[3..]);
        g + (EncodeUnpadded(bs[3..]) + Padding(|bs|));
        (g + EncodeUnpadded(bs[3..])) + Padding(|bs|);
        EncodeUnpadded(bs) + Padding(|bs|);
      }
    }
  }

  /** `toString('base64').split('=')[0]`: the part before the first `=` of
      the padded encoding is exactly the unpadded encoding. */
  lemma {:induction false} StripPadding(bs: Bytes)
    ensures Text.Split(Encode(bs), '=')[0] == EncodeUnpadded(bs)
  {
    EncodeIsUnpaddedPlusPadding(bs);
    Text.FirstField(EncodeUnpadded(bs), '=', Padding(|bs|));
  }

  lemma {:induction false} DecodeGroup(a: byte, b: byte, c: byte)
    ensures var g := EncodeGroup(a, b, c);
      && IndexOf(g[0]) * 4 + IndexOf(g[1]) / 16 == a
      && (IndexOf(g[1]) % 16) * 16 + IndexOf(g[2]) / 4 == b
      && (IndexOf(g[2]) % 4) * 64 + IndexOf(g[3]) == c
  {
    IndexOfCharOf(a / 4);
    IndexOfCharOf((a % 4) * 16 + b / 16);
    IndexOfCharOf((b % 16) * 4 + c / 64);
    IndexOfCharOf(c % 64);
  }

  lemma {:induction false} DecodeTail2(a: byte, b: byte)
    ensures var g := EncodeTail2(a, b);
      && IndexOf(g[0]) * 4 + IndexOf(g[1]) / 16 == a
      && (IndexOf(g[1]) % 16) * 16 + IndexOf(g[2]) / 4 == b
  {
    IndexOfCharOf(a / 4);
    IndexOfCharOf((a % 4) * 16 + b / 16);
    IndexOfCharOf((b % 16) * 4);
  }

  lemma {:induction false} DecodeTail1(a: byte)
    ensures var g := EncodeTail1(a);
      IndexOf(g[0]) * 4 + IndexOf(g[1]) / 16 == a
  {
    IndexOfCharOf(a / 4);
    IndexOfCharOf((a % 4) * 16);
  }

  /** An unpadded encoding has ceil(4n/3) characters: 43 for 32 bytes and
      86 for 64 bytes. */
  lemma {:induction false} EncodedLength(bs: Bytes)
    ensures |EncodeUnpadded(bs)| == (4 * |bs| + 2) / 3
    decreases |bs|
  {
    if |bs| >= 3 {
      EncodedLength(bs[3..]);
      assert |EncodeUnpadded(bs)| == 4 + |EncodeUnpadded(bs[3..])|;
    }
  }

  /** Decoding a string that starts with a full group of four characters. */
  lemma {:induction false} DecodeFullGroup(g: string, t: string)
    requires |g| == 4 && IsUnpaddedBase64(g) && IsUnpaddedBase64(t)
    ensures IsUnpaddedBase64(g + t)
    ensures DecodeValid(g + t)
         == [IndexOf(g[0]) * 4 + IndexOf(g[1]) / 16,
             (IndexOf(g[1]) % 16) * 16 + IndexOf(g[2]) / 4,
             (IndexOf(g[2]) % 4) * 64 + IndexOf(g[3])] + DecodeValid(t)
  {
    var s := g + t;
    assert s[4..] == t;
    assert s[..4] == g;
  }

  /** Decoding the unpadded encoding of any byte sequence returns it. */
  lemma {:induction false} DecodeEncode(bs: Bytes)
    ensures IsUnpaddedBase64(EncodeUnpadded(bs))
    ensures DecodeValid(EncodeUnpadded(bs)) == bs
    decreases |bs|
  {
    if |bs| == 1 {
      DecodeTail1(bs[0]);
    } else if |bs| == 2 {
      DecodeTail2(bs[0], bs[1]);
    } else if |bs| >= 3 {
      DecodeEncode(bs[3..]);
      DecodeEncodeStep(bs);
    }
  }

  /** Decoding the encoding of a group of three bytes, followed by more. */
  lemma {:induction false} DecodeGroupThen(a: byte, b: byte, c: byte, t: string)
    requires IsUnpaddedBase64(t)
    ensures IsUnpaddedBase64(EncodeGroup(a, b, c) + t)
    ensures DecodeValid(EncodeGroup(a, b, c) + t) == [a, b, c] + DecodeValid(t)
  {
    DecodeFullGroup(EncodeGroup(a, b, c), t);
    DecodeGroup(a, b, c);
  }

  lemma {:induction false} LeadingThree(bs: Bytes)
    requires |bs| >= 3
    ensures [bs[0], bs[1], bs[2]] + bs[3..] == bs
  {
  }

  /** One step of `DecodeEncode`: a leading group of three bytes. */
  lemma {:induction false} DecodeEncodeStep(bs: Bytes)
    requires |bs| >= 3
    requires IsUnpaddedBase64(EncodeUnpadded(bs[3..]))
    requires DecodeValid(EncodeUnpadded(bs[3..])) == bs[3..]
    ensures IsUnpaddedBase64(EncodeUnpadded(bs))
    ensures DecodeValid(EncodeUnpadded(bs)) == bs
  {
    LeadingThree(bs);
    var t := EncodeUnpadded(bs[3..]);
    assert EncodeUnpadded(bs) == EncodeGroup(bs[0], bs[1], bs[2]) + t;
    DecodeGroupThen(bs[0], bs[1], bs[2], t);
  }

  /** The decoder accepts every unpadded encoding and returns its bytes. */
  lemma {:induction false} RoundTrip(bs: Bytes)
    ensures Decode(EncodeUnpadded(bs)) == Some(bs)
  {
    DecodeEncode(bs);
  }
}
