/** The hash-and-verify protocol of utils/hash.js: hashPassword derives a key
    from a fresh salt and serializes it; validatePassword parses a verifier
    string, derives a key of the stored length and compares. The key
    derivation (scrypt) and the random salt come from outside the module:
    the first is a function parameter, the second an argument. */
module Hash {
  import opened Wrappers
  import opened Errors
  import opened Base64
  import Params
  import opened Phc
  import Text
  import JsNumber

  /** SALT_LEN: bytes of fresh salt per hash. */
  const SaltLen: nat := 32

  /** KEY_LEN: bytes of derived key per new hash. */
  const KeyLen: nat := 64

  /** scrypt(password, salt, keylen, options): a pure function of its inputs;
      `None` when it throws (for example when maxmem is exceeded). */
  type Kdf = (string, Bytes, nat, seq<Params.Entry>) -> Option<Bytes>

  /** The KDF honours the requested output length whenever it succeeds. */
  ghost predicate ReturnsRequestedLength(kdf: Kdf) {
    forall password, salt, len, params ::
      kdf(password, salt, len, params).Some? ==> |kdf(password, salt, len, params).value| == len
  }

  /** timingSafeEqual: throws on buffers of different lengths, otherwise
      tells whether every byte agrees. */
  function TimingSafeEqual(a: Bytes, b: Bytes): (r: Result<bool, Error>)
    ensures r.Success? <==> |a| == |b|
    ensures r.Failure? ==> r.error == LengthMismatch
    ensures r.Success? ==> (r.value <==> forall i :: 0 <= i < |a| ==> a[i] == b[i])
  {
    if |a| != |b| then Failure(LengthMismatch) else Success(a == b)
  }

  /** hashPassword with `salt` as the bytes randomBytes(SALT_LEN) delivered. */
  function HashPassword(kdf: Kdf, password: string, salt: Bytes): (r: Result<string, Error>)
    ensures r.Failure? <==> kdf(password, salt, KeyLen, Params.DefaultParams).None?
    ensures r.Failure? ==> r.error == KdfFailure
    ensures r.Success? ==>
      DeserializeHash(r.value)
        == Success(VerifierRecord(Algorithm, Params.DefaultParams, salt,
                                  kdf(password, salt, KeyLen, Params.DefaultParams).value))
  {
    match kdf(password, salt, KeyLen, Params.DefaultParams)
    case None => Failure(KdfFailure)
    case Some(hash) =>
      Params.DefaultParamsRoundTrip();
      Phc.RoundTrip(hash, salt, Params.DefaultParams);
      Success(SerializeHash(hash, salt, Params.DefaultParams))
  }

  /** validatePassword: parse errors and KDF errors propagate; otherwise the
      result says whether the re-derived key equals the stored one. */
  function ValidatePassword(kdf: Kdf, password: string, phc: string): (r: Result<bool, Error>)
    ensures DeserializeHash(phc).Failure? ==> r == Failure(DeserializeHash(phc).error)
    ensures r.Success? ==> DeserializeHash(phc).Success?
    ensures r == Success(true) <==>
      && DeserializeHash(phc).Success?
      && var data := DeserializeHash(phc).value;
         kdf(password, data.salt, |data.hash|, data.params) == Some(data.hash)
    ensures DeserializeHash(phc).Success? ==>
      var data := DeserializeHash(phc).value;
      var derived := kdf(password, data.salt, |data.hash|, data.params);
      && (r == Failure(KdfFailure) <==> derived.None?)
      && (r == Failure(LengthMismatch) <==> derived.Some? && |derived.value| != |data.hash|)
      && (derived.Some? && |derived.value| == |data.hash| ==> r == Success(derived.value == data.hash))
    ensures ReturnsRequestedLength(kdf) ==> r != Failure(LengthMismatch)
  {
    var data :- DeserializeHash(phc);
    var length := |data.hash|;
    match kdf(password, data.salt, length, data.params)
    case None => Failure(KdfFailure)
    case Some(hash) => TimingSafeEqual(hash, data.hash)
  }

  /** A password validates against its own hash, whatever the salt. */
  lemma {:induction false} HashThenValidate(kdf: Kdf, password: string, salt: Bytes)
    requires ReturnsRequestedLength(kdf)
    requires kdf(password, salt, KeyLen, Params.DefaultParams).Some?
    ensures ValidatePassword(kdf, password, HashPassword(kdf, password, salt).value) == Success(true)
  {
    var hash := kdf(password, salt, KeyLen, Params.DefaultParams).value;
    assert |hash| == KeyLen;
  }

  /** A password whose derived key differs from the stored one (the wrong
      password) yields `false`, not an error. */
  lemma {:induction false} WrongPasswordFails(kdf: Kdf, password: string, other: string, salt: Bytes)
    requires ReturnsRequestedLength(kdf)
    requires kdf(password, salt, KeyLen, Params.DefaultParams).Some?
    requires kdf(other, salt, KeyLen, Params.DefaultParams).Some?
    requires kdf(other, salt, KeyLen, Params.DefaultParams) != kdf(password, salt, KeyLen, Params.DefaultParams)
    ensures ValidatePassword(kdf, other, HashPassword(kdf, password, salt).value) == Success(false)
  {
    var hash := kdf(password, salt, KeyLen, Params.DefaultParams).value;
    assert |hash| == KeyLen;
    assert |kdf(other, salt, KeyLen, Params.DefaultParams).value| == KeyLen;
  }

  /** The fields of a verifier string written with the default parameters. */
  lemma DefaultFields(hash: Bytes, salt: Bytes)
    ensures Text.Split(SerializeHash(hash, salt, Params.DefaultParams), '$')
         == ["", Algorithm, "N=32768,r=8,p=1,maxmem=67108864", EncodeUnpadded(salt), EncodeUnpadded(hash)]
  {
    Params.DefaultParamsRoundTrip();
    Params.DefaultParamsText();
    SerializedFields(hash, salt, Params.DefaultParams);
  }

  /** A new verifier string has five `$`-fields: an empty one, `scrypt`, the
      default parameters, 43 characters of salt and 86 of key, with no `=`. */
  lemma {:induction false} HashShape(kdf: Kdf, password: string, salt: Bytes)
    requires ReturnsRequestedLength(kdf)
    requires |salt| == SaltLen
    requires kdf(password, salt, KeyLen, Params.DefaultParams).Some?
    ensures var fields := Text.Split(HashPassword(kdf, password, salt).value, '$');
      && |fields| == 5
      && fields[0] == ""
      && fields[1] == "scrypt"
      && fields[2] == "N=32768,r=8,p=1,maxmem=67108864"
      && fields[3] == EncodeUnpadded(salt) && |fields[3]| == 43 && '=' !in fields[3]
      && |fields[4]| == 86 && '=' !in fields[4]
  {
    var hash := kdf(password, salt, KeyLen, Params.DefaultParams).value;
    assert |hash| == KeyLen;
    assert HashPassword(kdf, password, salt).value == SerializeHash(hash, salt, Params.DefaultParams);
    SerializedShape(hash, salt);
  }

  /** The fields of a verifier string for a 32-byte salt and a 64-byte key. */
  lemma {:induction false} SerializedShape(hash: Bytes, salt: Bytes)
    requires |salt| == SaltLen && |hash| == KeyLen
    ensures var fields := Text.Split(SerializeHash(hash, salt, Params.DefaultParams), '$');
      && |fields| == 5
      && fields[0] == ""
      && fields[1] == "scrypt"
      && fields[2] == "N=32768,r=8,p=1,maxmem=67108864"
      && fields[3] == EncodeUnpadded(salt) && |fields[3]| == 43 && '=' !in fields[3]
      && |fields[4]| == 86 && '=' !in fields[4]
  {
    DefaultFields(hash, salt);
    EncodedLength(salt);
    EncodedLength(hash);
  }

  /** Two hashes of one password under different salts are different
      strings, and both validate. */
  lemma {:induction false} DistinctSaltsDistinctStrings(kdf: Kdf, password: string, salt1: Bytes, salt2: Bytes)
    requires ReturnsRequestedLength(kdf)
    requires salt1 != salt2
    requires kdf(password, salt1, KeyLen, Params.DefaultParams).Some?
    requires kdf(password, salt2, KeyLen, Params.DefaultParams).Some?
    ensures HashPassword(kdf, password, salt1).value != HashPassword(kdf, password, salt2).value
    ensures ValidatePassword(kdf, password, HashPassword(kdf, password, salt1).value) == Success(true)
    ensures ValidatePassword(kdf, password, HashPassword(kdf, password, salt2).value) == Success(true)
  {
    HashThenValidate(kdf, password, salt1);
    HashThenValidate(kdf, password, salt2);
  }

  /** Replacing the algorithm tag of a new verifier string by anything else
      makes validatePassword throw UnsupportedAlgorithm instead of returning
      `false`. */
  lemma {:induction false} WrongAlgorithmFails(kdf: Kdf, password: string, salt: Bytes, tag: string)
    requires ReturnsRequestedLength(kdf)
    requires |salt| == SaltLen
    requires kdf(password, salt, KeyLen, Params.DefaultParams).Some?
    requires tag != Algorithm && '$' !in tag
    ensures var phc := HashPassword(kdf, password, salt).value;
      ValidatePassword(kdf, password, Text.Join(Text.Split(phc, '$')[1 := tag], '$'))
        == Failure(UnsupportedAlgorithm)
  {
    HashShape(kdf, password, salt);
    ReplacedAlgorithm(HashPassword(kdf, password, salt).value, tag);
  }

  /** A verifier string with empty salt and hash fields accepts every
      password: the stored hash has length 0, so the KDF is asked for no
      bytes and the comparison is between two empty buffers. */
  lemma {:induction false} EmptyHashAcceptsAll(kdf: Kdf, password: string)
    requires ReturnsRequestedLength(kdf)
    requires kdf(password, [], 0, [Params.Entry("", JsNumber.NaN)]).Some?
    ensures ValidatePassword(kdf, password, "$scrypt$$$") == Success(true)
  {
    var fields := ["", Algorithm, "", "", ""];
    JoinFive(fields, '$');
    assert Text.Join(fields, '$') == "$scrypt$$$";
    Text.SplitJoin(fields, '$');
    Base64.RoundTrip([]);
    ReadFields("$scrypt$$$", "", "", "", [], []);
    Params.EmptyParams();
  }
}
