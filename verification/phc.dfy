/** The verifier string `$scrypt$<params>$<salt>$<hash>` in the PHC string
    format: serializeHash writes it and deserializeHash reads it back. */
module Phc {
  import opened Wrappers
  import opened Errors
  import opened Text
  import opened Base64
  import Params

  /** The only algorithm tag this module reads or writes. */
  const Algorithm: string := "scrypt"

  /** The object deserializeHash returns. */
  datatype VerifierRecord = VerifierRecord(
    algorithm: string,
    params: seq<Params.Entry>,
    salt: Bytes,
    hash: Bytes)

  /** serializeHash: the parameters as `key=value` pairs, then the salt and
      the hash in base64 with everything from the first `=` cut off. */
  function SerializeHash(hash: Bytes, salt: Bytes, params: seq<Params.Entry>): (phc: string)
    ensures |phc| == 10 + |Params.Serialize(params)| + (4 * |salt| + 2) / 3 + (4 * |hash| + 2) / 3
  {
    var paramsString := Params.Serialize(params);
    var saltString := Split(Encode(salt), '=')[0];
    var hashString := Split(Encode(hash), '=')[0];
    StripPadding(salt);
    StripPadding(hash);
    EncodedLength(salt);
    EncodedLength(hash);
    "$" + Algorithm + "$" + paramsString + "$" + saltString + "$" + hashString
  }

  /** `Buffer.from(field, 'base64')` on well-formed unpadded base64. The model
      fails with InvalidBase64 on any other text; Node decodes it leniently
      and never fails on a string. */
  function DecodeField(field: string): (r: Result<Bytes, Error>)
    ensures r.Success? <==> IsUnpaddedBase64(field)
    ensures r.Failure? ==> r.error == InvalidBase64
  {
    match Decode(field)
    case Some(bs) => Success(bs)
    case None => Failure(InvalidBase64)
  }

  /** deserializeHash: split on `$` and read the second to fifth fields; the
      first field and any field after the fifth are never looked at. An
      algorithm other than `scrypt` throws before anything else is read; a
      `scrypt` string with fewer than five fields throws next. The model then
      requires the salt and hash to be well-formed unpadded base64; the
      source accepts any text there. */
  function DeserializeHash(phc: string): (r: Result<VerifierRecord, Error>)
    ensures r.Success? ==> r.value.algorithm == Algorithm
    ensures r.Failure? ==> r.error in {UnsupportedAlgorithm, MissingField, InvalidBase64}
    ensures var fields := Split(phc, '$');
      r == Failure(UnsupportedAlgorithm) <==> |fields| < 2 || fields[1] != Algorithm
    ensures var fields := Split(phc, '$');
      r == Failure(MissingField) <==> |fields| >= 2 && fields[1] == Algorithm && |fields| < 5
    ensures var fields := Split(phc, '$');
      r.Success? <==>
        |fields| >= 5 && fields[1] == Algorithm && IsUnpaddedBase64(fields[3]) && IsUnpaddedBase64(fields[4])
  {
    var fields := Split(phc, '$');
    if |fields| < 2 || fields[1] != Algorithm then Failure(UnsupportedAlgorithm)
    else if |fields| < 5 then Failure(MissingField)
    else
      var params := Params.Parse(fields[2]);
      var salt :- DecodeField(fields[3]);
      var hash :- DecodeField(fields[4]);
      Success(VerifierRecord(fields[1], params, salt, hash))
  }

  lemma JoinFive(fields: seq<string>, sep: char)
    requires |fields| == 5
    ensures Join(fields, sep)
         == fields[0] + [sep] + fields[1] + [sep] + fields[2] + [sep] + fields[3] + [sep] + fields[4]
  {
    assert fields[1..][1..] == fields[2..];
    assert fields[2..][1..] == fields[3..];
    assert fields[3..][1..] == fields[4..];
    assert Join(fields[3..], sep) == fields[3] + [sep] + fields[4];
    assert Join(fields[2..], sep) == fields[2] + [sep] + fields[3] + [sep] + fields[4];
    assert Join(fields[1..], sep) == fields[1] + [sep] + fields[2] + [sep] + fields[3] + [sep] + fields[4];
  }

  /** The fields of the verifier string: an empty first field, the tag, the
      parameters, and the unpadded salt and hash, which contain no `=`. */
  lemma {:induction false} SerializedFields(hash: Bytes, salt: Bytes, params: seq<Params.Entry>)
    requires forall i :: 0 <= i < |params| ==> '$' !in params[i].key
    ensures Split(SerializeHash(hash, salt, params), '$')
         == ["", Algorithm, Params.Serialize(params), EncodeUnpadded(salt), EncodeUnpadded(hash)]
    ensures '=' !in EncodeUnpadded(salt) && '=' !in EncodeUnpadded(hash)
  {
    var fields := ["", Algorithm, Params.Serialize(params), EncodeUnpadded(salt), EncodeUnpadded(hash)];
    StripPadding(salt);
    StripPadding(hash);
    JoinFive(fields, '$');
    assert SerializeHash(hash, salt, params) == Join(fields, '$') by {
      assert "$" == ['$'];
      assert fields[0] + ['$'] == "$";
    }
    SplitJoin(fields, '$');
  }

  /** Reading back a serialized verifier returns the tag `scrypt`, the same
      parameter object, and the same salt and hash bytes. */
  lemma {:induction false} RoundTrip(hash: Bytes, salt: Bytes, params: seq<Params.Entry>)
    requires Params.RoundTrips(params)
    ensures DeserializeHash(SerializeHash(hash, salt, params))
         == Success(VerifierRecord(Algorithm, params, salt, hash))
  {
    SerializedFields(hash, salt, params);
    Base64.RoundTrip(salt);
    Base64.RoundTrip(hash);
    ReadFields(SerializeHash(hash, salt, params), Params.Serialize(params),
               EncodeUnpadded(salt), EncodeUnpadded(hash), salt, hash);
    Params.ParseSerialize(params);
  }

  /** A string whose fields are an empty one, the tag, a parameter text and
      two decodable base64 fields parses to those parameters and bytes. */
  lemma {:induction false} ReadFields(phc: string, paramsText: string, saltText: string,
                                      hashText: string, salt: Bytes, hash: Bytes)
    requires Split(phc, '$') == ["", Algorithm, paramsText, saltText, hashText]
    requires Decode(saltText) == Some(salt) && Decode(hashText) == Some(hash)
    ensures DeserializeHash(phc)
         == Success(VerifierRecord(Algorithm, Params.Parse(paramsText), salt, hash))
  {
  }

  /** Replacing the tag of a verifier string by any other `$`-free string
      makes parsing fail with UnsupportedAlgorithm. */
  lemma {:induction false} ReplacedAlgorithm(phc: string, tag: string)
    requires |Split(phc, '$')| >= 2
    requires tag != Algorithm && '$' !in tag
    ensures DeserializeHash(Join(Split(phc, '$')[1 := tag], '$')) == Failure(UnsupportedAlgorithm)
  {
    var fields := Split(phc, '$')[1 := tag];
    SplitJoin(fields, '$');
  }

  /** Anything after a fifth field is ignored rather than rejected. */
  lemma {:induction false} ExtraFieldsIgnored(phc: string, extra: string)
    requires |Split(phc, '$')| >= 5
    ensures DeserializeHash(phc + "$" + extra) == DeserializeHash(phc)
  {
    SplitConcat(phc, '$', extra);
    assert phc + "$" + extra == phc + ['$'] + extra;
  }

  /** The first field is never checked to be empty. */
  lemma {:induction false} LeadingFieldIgnored(prefix: string, phc: string)
    requires '$' !in prefix
    requires |phc| > 0 && phc[0] == '$'
    ensures DeserializeHash(prefix + phc) == DeserializeHash(phc)
  {
    SplitAfterField(prefix, '$', phc[1..]);
    SplitAfterField("", '$', phc[1..]);
    assert prefix + phc == prefix + ['$'] + phc[1..];
    assert phc == "" + ['$'] + phc[1..];
  }
}
