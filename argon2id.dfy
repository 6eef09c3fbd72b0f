/** The package's entry points: hashing a password into a record, and
    comparing a password against a record. The Argon2id derivation
    (`argon2.IDKey`) and the randomness source (`crypto/rand`) are outside
    the model and enter as parameters. */
module Argon2id {
  import opened Argon2Errors
  import opened Decimal
  import opened CryptBase64
  import opened HashRecord

  /** Salt length in bytes. */
  const SaltLen: nat := 16

  const DefaultTime: uint32 := 1
  const DefaultMemory: uint32 := 64 * 1024  // KiB, 64 MiB
  const DefaultThreads: uint8 := 4
  const DefaultKeyLen: uint32 := 32

  /** `argon2.IDKey(password, salt, time, memory, threads, keyLen)`: any
      deterministic function that returns exactly `keyLen` bytes. */
  type Kdf = f: (seq<byte>, seq<byte>, uint32, uint32, uint8, uint32) -> seq<byte>
    | forall p, s, t, m, th, k :: |f(p, s, t, m, th, k)| == k
    witness ZeroKey

  /** The all-zero key of the requested length; it shows that `Kdf` is
      inhabited and plays no part in the model. */
  function ZeroKey(password: seq<byte>, salt: seq<byte>, time: uint32, memory: uint32, threads: uint8,
                   keyLen: uint32): (key: seq<byte>)
    ensures |key| == keyLen
  {
    seq(keyLen, _ => 0)
  }

  /** What `rand.Read` draws from: a source holding some bytes and then
      reaching its end, or a source that fails outright. */
  datatype RandomSource = Stream(available: seq<byte>) | Broken(code: nat)

  /** `generateSalt`: fill a `SaltLen`-byte buffer completely (`io.ReadFull`
      semantics), or fail with the reader's error. */
  function GenerateSalt(src: RandomSource): (r: Result<seq<byte>>)
    ensures r.Ok? <==> src.Stream? && |src.available| >= SaltLen
    ensures r.Ok? ==> r.value == src.available[..SaltLen]
    ensures src.Stream? && 0 < |src.available| < SaltLen ==> r == Err(ReadFailed(UnexpectedEOF))
    ensures src.Stream? && |src.available| == 0 ==> r == Err(ReadFailed(EOF))
    ensures r.Err? ==> r.error.ReadFailed?
  {
    match src
    case Broken(code) => Err(ReadFailed(SourceFailure(code)))
    case Stream(bytes) =>
      if |bytes| >= SaltLen then Ok(bytes[..SaltLen])
      else if |bytes| == 0 then Err(ReadFailed(EOF))
      else Err(ReadFailed(UnexpectedEOF))
  }

  /** The cost parameters after defaulting. */
  datatype Params = Params(time: uint32, memory: uint32, threads: uint8, keyLen: uint32)

  /** Each zero argument is replaced by its default; each non-zero argument
      is kept. No parameter of the result is zero. */
  function WithDefaults(time: uint32, memory: uint32, threads: uint8, keyLen: uint32): (p: Params)
    ensures p.time != 0 && p.memory != 0 && p.threads != 0 && p.keyLen != 0
    ensures time != 0 ==> p.time == time
    ensures memory != 0 ==> p.memory == memory
    ensures threads != 0 ==> p.threads == threads
    ensures keyLen != 0 ==> p.keyLen == keyLen
    ensures time == 0 ==> p.time == 1
    ensures memory == 0 ==> p.memory == 65536
    ensures threads == 0 ==> p.threads == 4
    ensures keyLen == 0 ==> p.keyLen == 32
  {
    Params(if time == 0 then DefaultTime else time,
           if memory == 0 then DefaultMemory else memory,
           if threads == 0 then DefaultThreads else threads,
           if keyLen == 0 then DefaultKeyLen else keyLen)
  }

  /** `HashPassword`: default the parameters, draw the salt (failing with
      the source's error before any derivation), derive `keyLen` bytes and
      write the record with the defaulted values. */
  function HashPassword(password: seq<byte>, time: uint32, memory: uint32, threads: uint8, keyLen: uint32,
                        src: RandomSource, kdf: Kdf): (r: Result<string>)
    ensures r.Err? <==> GenerateSalt(src).Err?
    ensures r.Err? ==> r.error == GenerateSalt(src).error
  {
    var p := WithDefaults(time, memory, threads, keyLen);
    match GenerateSalt(src)
    case Err(e) => Err(e)
    case Ok(salt) =>
      var hash := kdf(password, salt, p.time, p.memory, p.threads, p.keyLen);
      Ok(FormatRecord(p.time, p.memory, p.threads, salt, hash))
  }

  /** A parsed record carries the default time, memory and threads, a
      default-length hash and a full-length salt. */
  predicate DefaultParams(h: Hashed) {
    h.time == DefaultTime && h.memory == DefaultMemory && h.threads == DefaultThreads
    && |h.hash| == DefaultKeyLen as nat && |h.salt| == SaltLen
  }

  /** `DefaultHashPassword`: `HashPassword` with every parameter zero; a
      successful result parses back to the default parameters. */
  function DefaultHashPassword(password: seq<byte>, src: RandomSource, kdf: Kdf): (r: Result<string>)
    ensures r.Err? <==> GenerateSalt(src).Err?
    ensures r.Err? ==> r.error == GenerateSalt(src).error
    ensures r.Ok? ==> Parse(r.value).Ok?
    ensures r.Ok? ==> DefaultParams(Parse(r.value).value)
  {
    var r := HashPassword(password, 0, 0, 0, 0, src, kdf);
    assert r.Ok? ==> Parse(r.value).Ok? && DefaultParams(Parse(r.value).value) by {
      if r.Ok? {
        HashPasswordRoundTrip(password, 0, 0, 0, 0, src, kdf);
      }
    }
    r
  }

  /** `subtle.ConstantTimeCompare`, by its result only: 1 when both inputs
      have the same length and the same bytes, 0 otherwise. */
  function ConstantTimeCompare(x: seq<byte>, y: seq<byte>): (r: int)
    ensures r == 0 || r == 1
    ensures r == 1 <==> x == y
  {
    if |x| == |y| && x == y then 1 else 0
  }

  /** `Compare`: parse the record, derive with the record's parameters and
      an output length equal to the stored hash's length (converted to
      `uint32`, so modulo 2^32), and compare with the stored hash. */
  function Compare(hashedPassword: string, password: seq<byte>, kdf: Kdf): (r: Outcome)
    ensures Parse(hashedPassword).Err? ==> r == Fail(Parse(hashedPassword).error)
    ensures Parse(hashedPassword).Ok? ==>
              var h := Parse(hashedPassword).value;
              && (r == Pass <==> kdf(password, h.salt, h.time, h.memory, h.threads, |h.hash| % 0x1_0000_0000) == h.hash)
              && (r != Pass ==> r == Fail(MismatchedHashAndPassword))
  {
    Verdict(Parse(hashedPassword), password, kdf)
  }

  /** The outcome of `Compare` once the record has been parsed: the parse
      error, or the comparison of the stored hash with the derived key. */
  function Verdict(parsed: Result<Hashed>, password: seq<byte>, kdf: Kdf): (r: Outcome)
    ensures parsed.Err? ==> r == Fail(parsed.error)
    ensures parsed.Ok? ==>
              var h := parsed.value;
              && (r == Pass <==> kdf(password, h.salt, h.time, h.memory, h.threads, |h.hash| % 0x1_0000_0000) == h.hash)
              && (r != Pass ==> r == Fail(MismatchedHashAndPassword))
  {
    match parsed
    case Err(e) => Fail(e)
    case Ok(h) =>
      var compareHash := kdf(password, h.salt, h.time, h.memory, h.threads, |h.hash| % 0x1_0000_0000);
      if ConstantTimeCompare(h.hash, compareHash) == 1 then Pass
      else Fail(MismatchedHashAndPassword)
  }

  // ---------------------------------------------------------------------
  // Hashing

  /** When the source cannot supply the salt, its error is returned, and
      the derivation plays no part: any other derivation gives the same
      result. */
  lemma HashPasswordSaltFailure(password: seq<byte>, time: uint32, memory: uint32, threads: uint8,
                                keyLen: uint32, src: RandomSource, kdf: Kdf, other: Kdf)
    requires GenerateSalt(src).Err?
    ensures HashPassword(password, time, memory, threads, keyLen, src, kdf) == Err(GenerateSalt(src).error)
    ensures HashPassword(password, time, memory, threads, keyLen, src, other)
         == HashPassword(password, time, memory, threads, keyLen, src, kdf)
  {
  }

  /** A source that holds only the ten bytes of "incomplete" makes the
      default hasher fail with `io.ErrUnexpectedEOF`. */
  lemma IncompleteSaltSource(password: seq<byte>, kdf: Kdf)
    ensures DefaultHashPassword(password, Stream([105, 110, 99, 111, 109, 112, 108, 101, 116, 101]), kdf)
         == Err(ReadFailed(UnexpectedEOF))
  {
  }

  /** A successful hash is a record that the recogniser accepts and that
      parses back to the defaulted time, memory and threads, the 16-byte
      salt drawn from the source, and the `keyLen`-byte derived hash. */
  lemma HashPasswordRoundTrip(password: seq<byte>, time: uint32, memory: uint32, threads: uint8,
                              keyLen: uint32, src: RandomSource, kdf: Kdf)
    requires src.Stream? && |src.available| >= SaltLen
    ensures var text := HashPassword(password, time, memory, threads, keyLen, src, kdf).value;
            var p := WithDefaults(time, memory, threads, keyLen);
            var salt := src.available[..SaltLen];
            var hash := kdf(password, salt, p.time, p.memory, p.threads, p.keyLen);
            && |salt| == SaltLen && |hash| == p.keyLen
            && IsHashedPassword(text)
            && Parse(text) == Ok(Hashed(p.time, p.memory, p.threads, hash, salt))
  {
    var p := WithDefaults(time, memory, threads, keyLen);
    var salt := src.available[..SaltLen];
    var hash := kdf(password, salt, p.time, p.memory, p.threads, p.keyLen);
    ParseFormatRecord(p.time, p.memory, p.threads, salt, hash);
  }

  /** The length of a successful hash: 16 characters of layout, the
      22-character encoded salt, the three numerals, and
      `ceil(8 * keyLen / 6)` characters of encoded hash. */
  lemma HashPasswordLength(password: seq<byte>, time: uint32, memory: uint32, threads: uint8,
                           keyLen: uint32, src: RandomSource, kdf: Kdf)
    requires src.Stream? && |src.available| >= SaltLen
    ensures var p := WithDefaults(time, memory, threads, keyLen);
            |HashPassword(password, time, memory, threads, keyLen, src, kdf).value|
            == 38 + |FormatDecimal(p.time)| + |FormatDecimal(p.memory)| + |FormatDecimal(p.threads)|
               + (8 * p.keyLen + 5) / 6
  {
    var p := WithDefaults(time, memory, threads, keyLen);
    var salt := src.available[..SaltLen];
    var hash := kdf(password, salt, p.time, p.memory, p.threads, p.keyLen);
    assert |salt| == SaltLen && |hash| == p.keyLen as nat;
    assert (8 * |salt| + 5) / 6 == 22;
    FormatRecordLength(p.time, p.memory, p.threads, salt, hash);
  }

  /** The numerals of the parameters used below. */
  lemma Numerals()
    ensures FormatDecimal(1) == "1" && FormatDecimal(2) == "2" && FormatDecimal(4) == "4"
    ensures FormatDecimal(32768) == "32768" && FormatDecimal(65536) == "65536"
  {
  }

  /** The head of a record written with the default parameters. */
  lemma DefaultHead()
    ensures "$argon2id19$" + FormatDecimal(1) + "," + FormatDecimal(65536) + "," + FormatDecimal(4) + "$"
         == "$argon2id19$1,65536,4$"
  {
    Numerals();
  }

  /** The head of a record written with time 2, memory 32768, threads 2. */
  lemma ChosenHead()
    ensures "$argon2id19$" + FormatDecimal(2) + "," + FormatDecimal(32768) + "," + FormatDecimal(2) + "$"
         == "$argon2id19$2,32768,2$"
  {
    Numerals();
  }

  /** With every parameter defaulted, the record is 88 characters long. */
  lemma DefaultHashLength(password: seq<byte>, src: RandomSource, kdf: Kdf)
    requires src.Stream? && |src.available| >= SaltLen
    ensures |DefaultHashPassword(password, src, kdf).value| == 88
  {
    Numerals();
    HashPasswordLength(password, 0, 0, 0, 0, src, kdf);
  }

  /** With every parameter defaulted, the record starts
      `$argon2id19$1,65536,4$`. */
  lemma DefaultHashPrefix(password: seq<byte>, src: RandomSource, kdf: Kdf)
    requires src.Stream? && |src.available| >= SaltLen
    ensures |DefaultHashPassword(password, src, kdf).value| >= 22
    ensures DefaultHashPassword(password, src, kdf).value[..22] == "$argon2id19$1,65536,4$"
  {
    var salt := src.available[..SaltLen];
    var hash := kdf(password, salt, 1, 65536, 4, 32);
    var text := FormatRecord(1, 65536, 4, salt, hash);
    assert DefaultHashPassword(password, src, kdf).value == text;
    FormatRecordHead(1, 65536, 4, salt, hash);
    DefaultHead();
  }

  /** With time 2, memory 32768, threads 2 and keyLen 17, the record is 68
      characters long. */
  lemma ChosenHashLength(password: seq<byte>, src: RandomSource, kdf: Kdf)
    requires src.Stream? && |src.available| >= SaltLen
    ensures |HashPassword(password, 2, 32768, 2, 17, src, kdf).value| == 68
  {
    Numerals();
    HashPasswordLength(password, 2, 32768, 2, 17, src, kdf);
  }

  /** With time 2, memory 32768, threads 2 and keyLen 17, the record starts
      `$argon2id19$2,32768,2$`. */
  lemma ChosenHashPrefix(password: seq<byte>, src: RandomSource, kdf: Kdf)
    requires src.Stream? && |src.available| >= SaltLen
    ensures |HashPassword(password, 2, 32768, 2, 17, src, kdf).value| >= 22
    ensures HashPassword(password, 2, 32768, 2, 17, src, kdf).value[..22] == "$argon2id19$2,32768,2$"
  {
    var salt := src.available[..SaltLen];
    var hash := kdf(password, salt, 2, 32768, 2, 17);
    var text := FormatRecord(2, 32768, 2, salt, hash);
    assert HashPassword(password, 2, 32768, 2, 17, src, kdf).value == text;
    FormatRecordHead(2, 32768, 2, salt, hash);
    ChosenHead();
  }

  /** Two hashes drawn with different salts are different texts. */
  lemma DistinctSaltsDistinctRecords(password: seq<byte>, time: uint32, memory: uint32, threads: uint8,
                                     keyLen: uint32, src1: RandomSource, src2: RandomSource, kdf: Kdf)
    requires src1.Stream? && |src1.available| >= SaltLen
    requires src2.Stream? && |src2.available| >= SaltLen
    requires src1.available[..SaltLen] != src2.available[..SaltLen]
    ensures HashPassword(password, time, memory, threads, keyLen, src1, kdf).value
         != HashPassword(password, time, memory, threads, keyLen, src2, kdf).value
  {
    HashPasswordRoundTrip(password, time, memory, threads, keyLen, src1, kdf);
    HashPasswordRoundTrip(password, time, memory, threads, keyLen, src2, kdf);
  }

  // ---------------------------------------------------------------------
  // Comparing

  /** Converting a length below 2^32 to `uint32` keeps it. */
  lemma Uint32Identity(n: nat)
    requires n < 0x1_0000_0000
    ensures n % 0x1_0000_0000 == n
  {
  }

  /** A record made by the hasher verifies against the password it was made
      from. */
  lemma HashThenCompare(password: seq<byte>, time: uint32, memory: uint32, threads: uint8,
                        keyLen: uint32, src: RandomSource, kdf: Kdf)
    requires src.Stream? && |src.available| >= SaltLen
    ensures Compare(HashPassword(password, time, memory, threads, keyLen, src, kdf).value, password, kdf) == Pass
  {
    CompareOtherPassword(password, password, time, memory, threads, keyLen, src, kdf);
  }

  /** Against a record made by the hasher, another password is accepted
      exactly when it derives the same key under the record's salt and
      parameters, and is otherwise refused with `MismatchedHashAndPassword`. */
  lemma CompareOtherPassword(password: seq<byte>, candidate: seq<byte>, time: uint32, memory: uint32,
                             threads: uint8, keyLen: uint32, src: RandomSource, kdf: Kdf)
    requires src.Stream? && |src.available| >= SaltLen
    ensures var text := HashPassword(password, time, memory, threads, keyLen, src, kdf).value;
            var p := WithDefaults(time, memory, threads, keyLen);
            var salt := src.available[..SaltLen];
            var same := kdf(candidate, salt, p.time, p.memory, p.threads, p.keyLen)
                     == kdf(password, salt, p.time, p.memory, p.threads, p.keyLen);
            && (same ==> Compare(text, candidate, kdf) == Pass)
            && (!same ==> Compare(text, candidate, kdf) == Fail(MismatchedHashAndPassword))
  {
    var text := HashPassword(password, time, memory, threads, keyLen, src, kdf).value;
    var p := WithDefaults(time, memory, threads, keyLen);
    var salt := src.available[..SaltLen];
    var hash := kdf(password, salt, p.time, p.memory, p.threads, p.keyLen);
    HashPasswordRoundTrip(password, time, memory, threads, keyLen, src, kdf);
    assert Parse(text) == Ok(Hashed(p.time, p.memory, p.threads, hash, salt));
    Uint32Identity(|hash|);
  }
}
