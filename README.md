# argon2id password records, modelled in Dafny

`synacor/argon2id` is a small Go library for storing passwords. It
hashes a password with Argon2id and writes the result as one line of
text:

    $argon2id<version>$<time>,<memory>,<threads>$<salt>$<hash>

The salt and the derived key are written in an unpadded base64 over the
alphabet `./A-Za-z0-9`, in that order. The library later checks a password
against such a line. It parses the line, derives the key again with the
parameters stored in the line, and compares the result with the stored
hash.

This project is a pure functional model of that package: its error
values, the record grammar and a recogniser for it, the parser-validator,
the codec, the decimal numerals, and the hasher and verifier. The
properties the library promises are proved as contracts and lemmas. The
derivation (`argon2.IDKey`) and the operating-system randomness enter the
model as parameters.

Modules, one concept each:

- `errors.dfy`, module `Argon2Errors`. Holds the package's error values
  and those of its collaborators: the base64 `CorruptInputError` and the
  reader errors `io.EOF` and `io.ErrUnexpectedEOF`. Also holds Go's
  `(value, error)` and bare `error` returns, as `Result` and `Outcome`.
- `decimal.dfy`, module `Decimal`. Models `%d` for writing a number and
  `strconv.Atoi` for reading a run of digits back.
- `codec.dfy`, module `CryptBase64`. The encoder packs each 3-byte group
  into a 24-bit value and writes four sextets. The decoder is Go's
  non-strict decoder: it skips line breaks, ignores unused tail bits and
  reports the offset of the first bad character.
- `record.dfy`, module `HashRecord`, covering three things:
  - the grammar, given as the set of texts `Record(f)` over well-formed
    captured groups `f`;
  - a left-to-right scanner `Match` that decides membership in it;
  - the writer, and the parser `Parse` (`newHashedFromHashedPassword`).
- `argon2id.dfy`, module `Argon2id`. Models salt generation, defaulting,
  `HashPassword`, `DefaultHashPassword` and `Compare`.

The parser checks things in the order the code checks them:

1. the pattern;
2. the version;
3. decoding the hash segment;
4. decoding the salt segment;
5. the complexity bounds.

The lemmas `ParseVersionFirst`, `ParseHashBeforeSalt` and
`ParseSaltAfterHash` pin that order down.

## Model

| member | source | states |
|---|---|---|
| Decimal.FormatDecimal | argon2id.go:108 | `%d` writes only digits, at least one, with no leading zero unless the number is zero |
| Decimal.ParseDecimal | argon2id.go:132-136 | `Atoi` of `k` digits is below `10^k`, so a run of at most ten digits cannot overflow |
| Decimal.ParseFormat | argon2id.go:133-136 | reading back a written number gives the number |
| Decimal.FormatLength | argon2id.go:108 | a number below `10^k` is written with at most `k` digits |
| Decimal.LeadingZero | argon2id.go:133-136 | leading zeros, which the grammar admits, do not change the value read |
| CryptBase64.CharOf | argon2id.go:48 | every sextet maps to a character of the alphabet, and each block of sextets to its block of characters: 0-1 to `.` and `/`, 2-27 to `A-Z`, 28-53 to `a-z`, 54-63 to `0-9` |
| CryptBase64.AlphabetOrder | argon2id.go:48 | the table's order: sextets 0 and 1 are `.` and `/`, the blocks `A-Z`, `a-z`, `0-9` start at sextets 2, 28 and 54 and end at 27, 53 and 63, and inside each block a larger sextet has a larger character |
| CryptBase64.SextetOf | argon2id.go:48 | the decoder's lookup inverts the alphabet: the looked-up sextet's character is the input character |
| CryptBase64.SextetOfCharOf | argon2id.go:48 | looking up the character of a sextet gives the sextet back |
| CryptBase64.EncodeQuantum | argon2id.go:48 | a group of 1 to 3 bytes is written as one sextet more than it has bytes (2, 3 or 4); `QuantumRoundTrip` and `QuantumReencode` are its partners |
| CryptBase64.DecodeQuantum | argon2id.go:48 | a quantum of 2 to 4 sextets yields one byte fewer than it has sextets; `QuantumRoundTrip` and `QuantumReencode` relate it to `EncodeQuantum` |
| CryptBase64.QuantumRoundTrip | argon2id.go:48 | a 1-, 2- or 3-byte group encoded to 2, 3 or 4 sextets decodes back to the group |
| CryptBase64.EncodeSextets | argon2id.go:48 | the sextet count is Go's unpadded `EncodedLen`: 4 per full group plus `r + 1` for an `r`-byte tail |
| CryptBase64.DecodeSextets | argon2id.go:48 | a sextet sequence with no lone trailing sextet (length not 1 mod 4) decodes to `length * 6 / 8` bytes, rounded down |
| CryptBase64.SextetsRoundTrip | argon2id.go:48 | decoding the sextets of any byte sequence gives the sequence back |
| CryptBase64.Chars | argon2id.go:48 | the text has one alphabet character per sextet, each the character of that sextet |
| CryptBase64.Encode | argon2id.go:108 | `EncodeToString` writes only alphabet characters, with no padding, and `ceil(8n/6)` of them |
| CryptBase64.EncodedLength | argon2id.go:48 | Go's unpadded `EncodedLen` equals `ceil(8n/6)` |
| CryptBase64.FirstCorrupt | argon2id.go:143-151 | finds the first character, at or after a position, that the decoder rejects; everything before it is accepted |
| CryptBase64.SextetsOf | argon2id.go:48 | accepted text yields at most one sextet per character, since line breaks are skipped |
| CryptBase64.Decode | argon2id.go:143-151 | `DecodeString` fails only with `CorruptInput`, at an offset inside the text |
| CryptBase64.SextetsOfCrypt | argon2id.go:48 | alphabet text yields exactly one sextet per character, the lookup of that character |
| CryptBase64.DecodeEncode | argon2id.go:143-151 | decoding the encoding of any byte sequence returns that sequence |
| CryptBase64.DecodeCrypt | argon2id.go:143-151 | alphabet text whose length is not 1 mod 4 always decodes, to `6/8` of its length in bytes |
| CryptBase64.DecodeLoneSextet | argon2id_test.go:89-90 | alphabet text whose length is 1 mod 4 fails with `CorruptInput` at its last offset; for the one-character salt or hash "a" that offset is 0 |
| CryptBase64.DecodeFirstCorrupt | argon2id.go:143-146 | the first character that is neither in the alphabet nor a line break is reported at its offset, whatever follows it |
| CryptBase64.QuantumReencode | argon2id.go:48 | a quantum whose unused tail bits are zero is what the encoder writes for the bytes it decodes to |
| CryptBase64.SextetsReencode | argon2id.go:48 | a sextet sequence with no lone trailing sextet (length not 1 mod 4) and a canonical tail is reproduced by decoding and then encoding |
| CryptBase64.EncodeDecodeCanonical | argon2id.go:143-151 | alphabet text of a decodable length with a canonical last character is reproduced by decoding and then re-encoding |
| CryptBase64.NonCanonicalAlias | argon2id.go:143-151 | the decoder accepts "./" as the byte 0 although its last sextet has a set unused bit, so decoding is not injective |
| HashRecord.Record | argon2id.go:72 | the text of six captured groups has the fixed 14 characters of layout plus the groups' lengths |
| HashRecord.RunLength | argon2id.go:72 | the run is the longest prefix inside the character class |
| HashRecord.Field | argon2id.go:72 | a found field lies inside its class and length bounds, and is followed by its separator |
| HashRecord.Match | argon2id.go:72 | every text the scanner accepts is the record of the well-formed groups it returns |
| HashRecord.MatchComplete | argon2id.go:72-77 | every record of well-formed groups is accepted, with exactly those groups |
| HashRecord.IsHashedPassword | argon2id.go:75-77 | every text it accepts is a record of well-formed groups (soundness); `IsHashedPasswordIff` adds the converse |
| HashRecord.IsHashedPasswordIff | argon2id.go:75-77 | `IsHashedPassword` holds exactly for texts in the language of the anchored pattern |
| HashRecord.RecordInjective | argon2id.go:127-137 | the captured groups of a record are determined by its text |
| HashRecord.FormatRecord | argon2id.go:108 | a record written with a non-empty salt and hash is in the language of the pattern; `FormatRecordLength`, `FormatRecordHead` and `ParseFormatRecord` give its length, its head and its round trip |
| HashRecord.FormattedFields | argon2id.go:108 | the version, time, memory and threads numerals are digits that read back as 19 and as the values written |
| HashRecord.FormattedWellFormed | argon2id.go:108 | every value of the hasher's parameter types is written within the pattern's digit bounds |
| HashRecord.FormatRecordLength | argon2id.go:108 | the written record is 16 characters of layout, the three numerals, and the two encoded segments |
| HashRecord.VersionNumeral | argon2id.go:108 | the version 0x13 is written as `19` |
| HashRecord.FormatRecordHead | argon2id.go:108 | a written record starts with `$argon2id19$`, the three numerals separated by commas, and `$` |
| HashRecord.ComplexityOk | argon2id.go:154 | the bounds fail exactly when the code's guard fires: time 0 or above `MaxUint32`, memory above `MaxUint32`, threads 0 or above `MaxUint8`; `ParseAccepts` and `ParseRejectsComplexity` tie it to the parser |
| HashRecord.ComplexityBoundaries | argon2id_test.go:93-97 | time 0, time 2^32, memory 2^32, threads 0 and threads 256 are each out of bounds; memory 0 and the largest values are in bounds |
| HashRecord.Parse | argon2id.go:126-165 | a successful parse comes from a text the recogniser accepts, and has a non-empty hash and salt |
| HashRecord.ParseFields | argon2id.go:132-164 | the checks after the pattern never report `InvalidHash`, and on success give a non-empty hash and salt |
| HashRecord.DecodedNonEmpty | argon2id.go:143-151 | a non-empty alphabet segment that decodes yields at least one byte |
| HashRecord.ParseInvalidHashIff | argon2id.go:127-130 | the parser reports `InvalidHash` exactly when `IsHashedPassword` is false |
| HashRecord.ParseRecord | argon2id.go:127-137 | on a well-formed record the parser goes straight to the field checks |
| HashRecord.ParseVersionFirst | argon2id.go:139-141 | a version other than 19 gives `InvalidArgon2Version`, however corrupt the segments and whatever the numbers |
| HashRecord.ParseHashBeforeSalt | argon2id.go:143-146 | with version 19, a hash segment that does not decode gives its decode error, whatever the salt and numbers |
| HashRecord.ParseSaltAfterHash | argon2id.go:148-151 | with version 19 and a decodable hash, a salt segment that does not decode gives its decode error, whatever the numbers |
| HashRecord.ParseAccepts | argon2id.go:153-164 | after both decodes, numbers within the bounds give the numbers and the decoded hash and salt |
| HashRecord.ParseRejectsComplexity | argon2id.go:153-156 | after both decodes, numbers outside the bounds give `InvalidComplexity` |
| HashRecord.ParseFormatRecord | argon2id.go:126-165 | a record written from in-bounds parameters and a non-empty salt and hash is accepted, and parses back to them |
| HashRecord.MalformedExamples | argon2id_test.go:82-87 | "bad-hash" gives `InvalidHash`, and "$argon2id,2,32768,2$bad" is not a hashed password |
| Argon2id.GenerateSalt | argon2id.go:167-175 | succeeds exactly when the source holds at least 16 bytes, and returns the first 16; a short source gives `UnexpectedEOF`, an empty one `EOF`; every failure is the reader's |
| Argon2id.WithDefaults | argon2id.go:86-100 | each zero argument becomes its default (1, 65536, 4, 32), each non-zero argument is kept, and no result is zero |
| Argon2id.HashPassword | argon2id.go:102-105 | hashing fails exactly when the salt source fails, and then with that same error |
| Argon2id.HashPasswordSaltFailure | argon2id.go:102-105 | when the salt source fails, the result does not depend on the derivation |
| Argon2id.IncompleteSaltSource | argon2id_test.go:70-75 | a source holding only the ten bytes of "incomplete" makes the default hasher fail with `UnexpectedEOF` |
| Argon2id.HashPasswordRoundTrip | argon2id.go:107-108 | a produced record is a hashed password, and parses back to the defaulted parameters, the 16-byte salt and the `keyLen`-byte hash |
| Argon2id.HashPasswordLength | argon2id.go:108 | a produced record has 16 characters of layout, the 22-character encoded salt, the three numerals and `ceil(8 * keyLen / 6)` hash characters |
| Argon2id.DefaultHashPassword | argon2id.go:80-82 | fails exactly when the salt source fails, with its error; a produced record parses back to time 1, memory 65536, threads 4, a 32-byte hash and a 16-byte salt; `DefaultHashLength` and `DefaultHashPrefix` give its length and head |
| Argon2id.DefaultHashLength | argon2id_test.go:44 | with every parameter defaulted the record is 88 characters long |
| Argon2id.DefaultHashPrefix | argon2id_test.go:43 | with every parameter defaulted the record starts `$argon2id19$1,65536,4$` |
| Argon2id.ChosenHashLength | argon2id_test.go:63 | with parameters (2, 32768, 2, 17) the record is 68 characters long |
| Argon2id.ChosenHashPrefix | argon2id_test.go:62 | with parameters (2, 32768, 2, 17) the record starts `$argon2id19$2,32768,2$` |
| Argon2id.DistinctSaltsDistinctRecords | argon2id_test.go:34-39 | two hashes of one password drawn with different salts are different texts |
| Argon2id.ConstantTimeCompare | argon2id.go:119 | the result is 1 exactly when both byte sequences are equal, and 0 otherwise |
| Argon2id.Compare | argon2id.go:112-124 | any parse error is returned unchanged; after a parse, the result passes exactly when the key derived at the stored hash's length (taken modulo 2^32) equals the stored hash, and any other result is `MismatchedHashAndPassword`; `HashThenCompare` and `CompareOtherPassword` relate it to the hasher |
| Argon2id.Verdict | argon2id.go:118-123 | the same verdict, stated on the parse result rather than the text |
| Argon2id.HashThenCompare | argon2id_test.go:40 | a record made by the hasher verifies against the password it was made from |
| Argon2id.CompareOtherPassword | argon2id_test.go:41-42 | against a produced record, another password passes exactly when it derives the same key under the record's salt and parameters, and otherwise gets `MismatchedHashAndPassword` |

## Left out

- `argon2.IDKey` is a parameter of type `Kdf`. It is any deterministic
  function returning exactly `keyLen` bytes. The memory-hard algorithm
  itself is not part of this model.
- `crypto/rand` is a parameter of type `RandomSource`: either the bytes a
  source holds before it ends, or a failure code. `rand.Read` fills the
  buffer with `io.ReadFull` semantics. No randomness is modelled.
- `subtle.ConstantTimeCompare` is modelled by its result only. Its timing
  behaviour cannot be stated here.
- Error message texts are not modelled. Each error value is its own
  constructor.
- Go returns the empty string, or `nil`, alongside an error. The
  model returns `Err` with no value.
- The password string is converted to bytes with `[]byte(password)`.
  This UTF-8 conversion is not modelled: passwords enter as byte
  sequences.
- Records are sequences of characters, and Go strings are bytes. The
  grammar admits only ASCII, so every `CorruptInput` offset inside a
  matched segment is also its byte offset.
- The regular-expression engine is not modelled. The grammar is given as
  the set of texts `Record(f)` over well-formed groups. The hand-written
  scanner `Match` is proved to accept exactly that set.
- Re-encoding decoded text is not claimed to reproduce it in general.
  The decoder accepts non-zero unused bits (`NonCanonicalAlias`), and
  only canonical text round-trips (`EncodeDecodeCanonical`).
- The decoder skips `\r` and `\n`. This is modelled, but the record
  grammar never lets either reach the decoder.
- The command-line tool under `cmd/argon2id` is not part of this model.
  It handles flags, the terminal prompt, output and exit codes.
