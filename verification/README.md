# scrypt password verifier strings, in Dafny

This project models `utils/hash.js` of node-native-hash. The module stores
scrypt password hashes as PHC-style verifier strings:

    $scrypt$N=32768,r=8,p=1,maxmem=67108864$<salt>$<hash>

The salt and the hash are written in standard base64 (section 4 of RFC 4648)
with the `=` padding removed. The model covers:

- the serializer (`serializeHash`, `serializeHashParams`);
- the parser (`deserializeHash`);
- the two protocols built on them: `hashPassword` (salt, derive, serialize)
  and `validatePassword` (parse, re-derive at the stored length, compare).

The JavaScript built-ins the code relies on are modelled as well, because
the codec's facts depend on them:

- `String.prototype.split` and `Array.prototype.join` (`Text`);
- Number-to-String conversion and `parseInt(…, 10)` (`JsNumber`);
- `Buffer` base64 encoding and decoding (`Base64`);
- `Object.fromEntries` (`Params`).

Modules follow the code's structure:

| module | file | models |
|---|---|---|
| `Wrappers` | wrappers.dfy | `Option`, and `Result` for code that throws |
| `Errors` | errors.dfy | the exceptions that can reach the caller |
| `Text` | text.dfy | `split` / `join` on one separator character |
| `JsNumber` | jsnumber.dfy | `${value}` for integers and NaN, `parseInt(s, 10)` |
| `Base64` | base64.dfy | `toString('base64')`, the unpadded form, `Buffer.from(s, 'base64')` |
| `Params` | params.dfy | `SCRYPT_PARAMS`, `serializeHashParams`, the parameter half of `deserializeHash` |
| `Phc` | phc.dfy | `serializeHash`, `deserializeHash` |
| `Hash` | hash.dfy | `SALT_LEN`, `KEY_LEN`, `hashPassword`, `validatePassword`, `timingSafeEqual` |

scrypt itself is a function parameter `kdf: Kdf` that returns `None` when it
throws. Being a Dafny function, it is deterministic. Where a property needs
the KDF to return the requested number of bytes, the lemma assumes
`ReturnsRequestedLength(kdf)`. The random salt is an argument of
`HashPassword`.

The parser is lenient in these ways, and the model keeps that behaviour:

- The parser does not check that there are exactly five `$`-fields. The
  first field is never read (`Phc.LeadingFieldIgnored`), and fields after the
  fifth are ignored (`Phc.ExtraFieldsIgnored`). So appending `$…` to a
  verifier string is not rejected.
- A parameter value is read by `parseInt`, never rejected. A value with no
  digits after optional white space and sign becomes NaN
  (`Params.NonNumericValue`). A value that starts with digits keeps only
  those digits: `8abc` gives 8, `1e3` gives 1 and `32768.9` gives 32768
  (`JsNumber.ParseInt`). A piece without `=` also gets the value NaN.
  A piece with a second `=` keeps only the text before it
  (`Params.ParseEntryIgnoresSecondEquals`). A repeated key keeps its last
  value (`Params.DuplicateKeyLastWins`).
- Parameters are an ordered JavaScript object, not a fixed record. An empty
  object does not round-trip: it serializes to the empty string, which
  parses as `{"": NaN}` (`Params.EmptyParams`).
- Nothing checks that the salt or hash field is non-empty. `$scrypt$$$`
  validates every password for which the KDF succeeds: the stored hash has
  length 0, so a zero-byte key is derived and two empty buffers compare
  equal (`Hash.EmptyHashAcceptsAll`).
- The algorithm check comes first. Every tag other than `scrypt`, and a
  missing tag, throws the "only supports scrypt" error
  (`UnsupportedAlgorithm`). A string with tag `scrypt` and fewer than five
  fields throws a TypeError (`MissingField`). With two fields, the code calls
  `split` on the undefined parameter string (utils/hash.js:60). With three or
  four fields, `Buffer.from` rejects the undefined salt or hash
  (utils/hash.js:66-67).

## Model

| member | source | states |
|---|---|---|
| Text.Split | utils/hash.js:54 | `split('$')` always yields at least one field, and no field contains the separator |
| Text.SplitCount | utils/hash.js:54 | there is exactly one more field than there are separators in the string |
| Text.SplitJoin | utils/hash.js:54 | splitting undoes joining, for separator-free fields |
| Text.Join | utils/hash.js:49 | every character of `join(',')` that is not the separator comes from one of the joined pieces |
| Text.JoinSplit | utils/hash.js:49 | joining the pieces of a split gives back the original string |
| Text.SplitConcat | utils/hash.js:54 | the fields of `a + sep + b` are the fields of `a` followed by the fields of `b` |
| JsNumber.ToString | utils/hash.js:47 | an interpolated parameter value is non-empty and contains no `,`, `=` or `$` |
| JsNumber.ParseInt | utils/hash.js:62 | `parseInt(s, 10)` of a string without any decimal digit is NaN, of a non-empty run of digits is their decimal value, and of a string that starts with a digit, or with `+` and a digit, is the value of those leading digits, whatever follows them |
| JsNumber.ParseIntSkipsWhiteSpace | utils/hash.js:62 | leading white space does not change what `parseInt` reads |
| JsNumber.ParseIntToString | utils/hash.js:62 | `parseInt(String(v), 10)` gives back `v`, for NaN and for every safe integer, negative ones included |
| JsNumber.ParseIntNotANumber | utils/hash.js:62 | a value whose first character is not white space, a sign or a digit (such as `abc`) parses to NaN |
| Base64.Encode | utils/hash.js:39-40 | `toString('base64')` of n bytes has 4⌈n/3⌉ characters, padding included |
| Base64.EncodeUnpadded | utils/hash.js:39-40 | the unpadded salt and hash use only the base64 alphabet, so they contain no `=` and no `$` |
| Base64.StripPadding | utils/hash.js:39-40 | the text of `toString('base64')` before its first `=` is exactly the unpadded encoding |
| Base64.EncodeIsUnpaddedPlusPadding | utils/hash.js:39-40 | the padded encoding is the unpadded one followed by zero, one or two `=` |
| Base64.EncodedLength | utils/hash.js:4-5 | n bytes encode to ⌈4n/3⌉ characters: 43 for the 32-byte salt, 86 for the 64-byte key |
| Base64.Decode | utils/hash.js:66-67 | decoding succeeds exactly on well-formed unpadded base64, and k characters give ⌊3k/4⌋ bytes |
| Base64.RoundTrip | utils/hash.js:66-67 | decoding the unpadded encoding of any byte sequence returns those bytes |
| Params.ParseEntry | utils/hash.js:61-62 | the key is all the text before the first `=`; the value is `parseInt` of the text between the first `=` and the next `=` or the end; a piece without `=` becomes the whole piece as key with value NaN |
| Params.ParseEntryIgnoresSecondEquals | utils/hash.js:61 | text after a second `=` in a piece is dropped, not rejected |
| Params.Assign | utils/hash.js:65 | assigning a property keeps the keys distinct and stores the entry; an existing key keeps its position and takes the new value, a new key goes last, and every other entry keeps its value and position |
| Params.FromEntries | utils/hash.js:65 | `Object.fromEntries` gives an object with distinct keys and the same key set as its input, and for every key it holds the value of that key's last entry |
| Params.FromEntriesDistinct | utils/hash.js:65 | a list with distinct keys passes through `Object.fromEntries` unchanged and in order |
| Params.DuplicateKeyLastWins | utils/hash.js:65 | with a key given twice, the object keeps the key once, with the later value |
| Params.Serialize | utils/hash.js:45-50 | `serializeHashParams` output contains no `$` when no key does, so the text stays one field of the verifier string |
| Params.Parse | utils/hash.js:60-65 | the parsed parameter object is never empty, its keys are distinct, and no key contains `,` or `=` |
| Params.ParseSerialize | utils/hash.js:45-50 | parsing the serialized parameters gives back the same entries, in order, if the object is non-empty, its keys contain no `,` `=` `$`, and its values are safe integers or NaN |
| Params.EmptyParams | utils/hash.js:60-63 | an empty parameter object serializes to `""`, which parses back as the single entry `"" = NaN` |
| Params.NonNumericValue | utils/hash.js:60-63 | `N=abc` parses to the entry N = NaN instead of failing |
| Params.DefaultParamsText | utils/hash.js:7-12 | the default parameters serialize to exactly `N=32768,r=8,p=1,maxmem=67108864` |
| Params.DefaultParamsRoundTrip | utils/hash.js:7-12 | the default parameters meet the round-trip conditions and parse back to themselves |
| Phc.SerializeHash | utils/hash.js:36-43 | the string is 10 characters longer than the serialized parameters plus the unpadded salt and hash |
| Phc.SerializedFields | utils/hash.js:36-43 | splitting the string on `$` yields exactly `""`, `scrypt`, the parameters, the unpadded salt and the unpadded hash |
| Phc.DecodeField | utils/hash.js:66-67 | a salt or hash field decodes exactly when it is well-formed unpadded base64; otherwise the error is InvalidBase64 |
| Phc.DeserializeHash | utils/hash.js:53-70 | a parsed record always has algorithm `scrypt`; the only errors are UnsupportedAlgorithm, MissingField and InvalidBase64; UnsupportedAlgorithm occurs exactly when the second field is missing or is not `scrypt`; MissingField occurs exactly when the tag is `scrypt` and there are fewer than five fields; parsing succeeds exactly when there are at least five fields, the tag is `scrypt`, and the salt and hash fields are well-formed unpadded base64 |
| Phc.ReplacedAlgorithm | utils/hash.js:54-58 | putting any other `$`-free tag in the second field makes parsing fail with UnsupportedAlgorithm |
| Phc.RoundTrip | utils/hash.js:36-70 | parsing a serialized verifier returns `scrypt`, the same parameters, the same salt bytes and the same hash bytes, for every non-empty parameter object whose keys contain no `,` `=` `$` and whose values are safe integers or NaN |
| Phc.ExtraFieldsIgnored | utils/hash.js:54 | appending `$` and any text to a string with five fields does not change the parse |
| Phc.LeadingFieldIgnored | utils/hash.js:54 | text before the first `$` does not change the parse |
| Hash.TimingSafeEqual | utils/hash.js:32 | the comparison throws exactly when the lengths differ; otherwise it is true iff the buffers agree at every index |
| Hash.HashPassword | utils/hash.js:19-24 | hashing fails only when the KDF fails, and a produced string parses back to `scrypt`, the defaults, the salt and the derived key |
| Hash.ValidatePassword | utils/hash.js:26-33 | parse errors propagate unchanged; after a successful parse, the KDF error is the result exactly when the KDF at the stored salt, parameters and length fails, the length error exactly when it returns a key of another length, and otherwise the result is whether the derived key equals the stored hash, so a mismatch is `false`, never an error; a length-honouring KDF never makes the comparison throw |
| Hash.HashThenValidate | utils/hash.test.js:9-14 | a password validates against its own hash, for every salt |
| Hash.WrongPasswordFails | utils/hash.test.js:16-25 | a password whose derived key differs from the stored one gives `false`, not an error |
| Hash.HashShape | utils/hash.js:19-24 | a new string has five fields: empty, `scrypt`, the default parameters, a 43-character salt and an 86-character hash, with no `=` |
| Hash.DistinctSaltsDistinctStrings | utils/hash.js:19-24 | two hashes of one password under different salts are different strings, and both validate |
| Hash.EmptyHashAcceptsAll | utils/hash.js:26-33 | the verifier `$scrypt$$$` validates every password, given a length-honouring KDF that succeeds for a zero-byte key |
| Hash.WrongAlgorithmFails | utils/hash.test.js:27-40 | after the tag of a new string is replaced, validation throws UnsupportedAlgorithm instead of returning `false` |

## Left out

- scrypt internals, including its `maxmem` check, are a foreign Node crypto call. They are the abstract `Kdf` parameter: any error is `None`, which becomes `KdfFailure`. How the KDF encodes the password string is part of that parameter.
- `randomBytes` is I/O. The salt is an argument, so entropy failure is not modelled. Nothing forces the salt to be fresh; `Hash.DistinctSaltsDistinctStrings` states what follows when two salts differ.
- The constant-time behaviour of `timingSafeEqual` cannot be stated in this model; only its result and its length error are modelled.
- `async`, `promisify` and Promise plumbing carry no meaning here; functions return directly.
- `index.js` is a console demo and is not part of this model.
- JsNumber.Num: integers are exact. JavaScript Numbers round above 2^53, print in exponent form from 10^21, and have non-integral values and `-0`. None of that is modelled. The parameter round trip therefore requires safe integers.
- JsNumber.IsStrWhiteSpace: lists the Unicode space separators as of current Unicode. JavaScript strings are UTF-16 code units while Dafny characters are scalar values, so lone surrogates are not modelled.
- Phc.DecodeField: the `InvalidBase64` failure is the model's. `Buffer.from(field, 'base64')` never fails on a string, so in JavaScript every field decodes to some bytes.
- Phc.DeserializeHash: in JavaScript, parsing succeeds whenever there are at least five fields and the tag is `scrypt`. The base64 clause of the model's success condition, and the `InvalidBase64` outcome, are the model's.
- Base64.Decode: Node's decoder is lenient. It also accepts padding, the URL-safe alphabet and stray characters, and it never throws. The model decodes only well-formed unpadded base64 and fails with `InvalidBase64` elsewhere. That error exists only in the model.
- Params.Serialize: JavaScript lists integer-like keys (`"0"`, `"1"`, …) before all other keys. The model keeps insertion order for every key.
- Params.Assign: a new integer-like key goes among the integer-like keys in numeric order in JavaScript, not last. The model appends every new key.
- Params.FromEntries: for the same reason, `Object.fromEntries([["b", 1], ["1", 2]])` lists `"1"` first in JavaScript. The model lists keys in order of first assignment.
- Params.FromEntriesDistinct: "unchanged and in order" holds in JavaScript only when no key is integer-like or the integer-like keys already come first in ascending order.
- Params.Parse: the order of the parsed object differs from JavaScript's in the same way when a key is integer-like. Its key set and values are as in JavaScript.
