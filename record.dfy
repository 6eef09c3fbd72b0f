/** The textual hash record
      `$argon2id<version>$<time>,<memory>,<threads>$<salt>$<hash>`
    (this package's own layout, not the PHC string format): its grammar, a
    hand-written recogniser for it, the writer used by the hasher and the
    parser-validator used by the verifier. */
module HashRecord {
  import opened Argon2Errors
  import opened Decimal
  import opened CryptBase64

  type uint32 = n: nat | n < 0x1_0000_0000
  type uint8 = n: nat | n < 0x100

  const MaxUint32: nat := 0xFFFF_FFFF
  const MaxUint8: nat := 0xFF

  /** `argon2.Version`, 0x13 (section 3.1 of RFC 9106). */
  const Version: nat := 0x13

  const Prefix: string := "$argon2id"

  // ---------------------------------------------------------------------
  // Grammar

  /** The six captured groups of the pattern, as text. */
  datatype Fields = Fields(version: string, time: string, memory: string,
                           threads: string, salt: string, hash: string)

  /** The field constraints of the pattern: 1-4, 1-10, 1-10 and 1-3 digits,
      then two non-empty runs over `[./a-zA-Z0-9]`. */
  predicate WellFormed(f: Fields) {
    && AllDigits(f.version) && 1 <= |f.version| <= 4
    && AllDigits(f.time) && 1 <= |f.time| <= 10
    && AllDigits(f.memory) && 1 <= |f.memory| <= 10
    && AllDigits(f.threads) && 1 <= |f.threads| <= 3
    && AllCrypt(f.salt) && |f.salt| >= 1
    && AllCrypt(f.hash) && |f.hash| >= 1
  }

  /** The text whose captured groups are `f`. */
  function Record(f: Fields): (s: string)
    ensures |s| == 14 + |f.version| + |f.time| + |f.memory| + |f.threads| + |f.salt| + |f.hash|
  {
    Prefix + (f.version + ("$" + AfterVersion(f)))
  }

  // The suffixes of a record that follow each separator.

  function AfterVersion(f: Fields): string {
    f.time + ("," + AfterTime(f))
  }

  function AfterTime(f: Fields): string {
    f.memory + ("," + AfterMemory(f))
  }

  function AfterMemory(f: Fields): string {
    f.threads + ("$" + AfterThreads(f))
  }

  function AfterThreads(f: Fields): string {
    f.salt + ("$" + f.hash)
  }

  /** The part of a record before the salt. */
  function Head(f: Fields): string {
    Prefix + f.version + "$" + f.time + "," + f.memory + "," + f.threads + "$"
  }

  /** A record is its head followed by the salt, `$` and the hash. */
  lemma RecordHead(f: Fields)
    ensures Record(f) == Head(f) + (f.salt + ("$" + f.hash))
  {
  }

  /** The language of the anchored pattern: the texts that are the record of
      some well-formed fields. Go's `$` without the multi-line flag matches
      only at the end of the text, so nothing may follow the hash. */
  ghost predicate Matches(s: string) {
    exists f :: WellFormed(f) && Record(f) == s
  }

  // ---------------------------------------------------------------------
  // Recogniser

  datatype CharClass = DigitClass | CryptClass

  predicate InClass(c: char, cls: CharClass) {
    match cls
    case DigitClass => IsDigit(c)
    case CryptClass => IsCryptChar(c)
  }

  /** Length of the longest prefix of `s` inside the class. */
  function RunLength(s: string, cls: CharClass): (n: nat)
    ensures n <= |s|
    ensures forall i :: 0 <= i < n ==> InClass(s[i], cls)
    ensures n < |s| ==> !InClass(s[n], cls)
  {
    if |s| == 0 || !InClass(s[0], cls) then 0
    else 1 + RunLength(s[1..], cls)
  }

  predicate AllIn(s: string, cls: CharClass) {
    forall i :: 0 <= i < |s| ==> InClass(s[i], cls)
  }

  /** One field of the pattern: a maximal run of `cls` characters whose
      length lies in `lo..hi`, followed by the separator `sep`. Yields the
      field and the text after the separator. */
  function Field(s: string, cls: CharClass, lo: nat, hi: nat, sep: char): (r: Option<(string, string)>)
    ensures r.Some? ==> s == r.value.0 + ([sep] + r.value.1)
    ensures r.Some? ==> AllIn(r.value.0, cls) && lo <= |r.value.0| <= hi
  {
    var n := RunLength(s, cls);
    if lo <= n <= hi && n < |s| && s[n] == sep then
      assert s == s[..n] + ([sep] + s[n + 1..]);
      Some((s[..n], s[n + 1..]))
    else None
  }

  /** Scans the record left to right, one field at a time. A maximal run
      suffices because no separator is a digit or an alphabet character. */
  function Match(s: string): (r: Option<Fields>)
    ensures r.Some? ==> WellFormed(r.value) && Record(r.value) == s
  {
    if |s| < |Prefix| || s[..|Prefix|] != Prefix then None
    else
      var r := MatchVersion(s[|Prefix|..]);
      assert r.Some? ==> s == Prefix + s[|Prefix|..];
      r
  }

  /** The version field, then the rest of the record. */
  function MatchVersion(r0: string): (r: Option<Fields>)
    ensures r.Some? ==> WellFormed(r.value) && r0 == r.value.version + ("$" + AfterVersion(r.value))
  {
    match Field(r0, DigitClass, 1, 4, '$')
    case None => None
    case Some((version, r1)) => MatchTime(version, r1)
  }

  /** The time field, then the rest. */
  function MatchTime(version: string, r1: string): (r: Option<Fields>)
    ensures r.Some? ==> r.value.version == version && r1 == AfterVersion(r.value)
    ensures r.Some? ==> AllIn(r.value.time, DigitClass) && 1 <= |r.value.time| <= 10
    ensures r.Some? ==> AllIn(r.value.memory, DigitClass) && 1 <= |r.value.memory| <= 10
    ensures r.Some? ==> AllIn(r.value.threads, DigitClass) && 1 <= |r.value.threads| <= 3
    ensures r.Some? ==> AllCrypt(r.value.salt) && |r.value.salt| >= 1
    ensures r.Some? ==> AllCrypt(r.value.hash) && |r.value.hash| >= 1
  {
    match Field(r1, DigitClass, 1, 10, ',')
    case None => None
    case Some((time, r2)) => MatchMemory(version, time, r2)
  }

  /** The memory field, then the rest. */
  function MatchMemory(version: string, time: string, r2: string): (r: Option<Fields>)
    ensures r.Some? ==> r.value.version == version && r.value.time == time && r2 == AfterTime(r.value)
    ensures r.Some? ==> AllIn(r.value.memory, DigitClass) && 1 <= |r.value.memory| <= 10
    ensures r.Some? ==> AllIn(r.value.threads, DigitClass) && 1 <= |r.value.threads| <= 3
    ensures r.Some? ==> AllCrypt(r.value.salt) && |r.value.salt| >= 1
    ensures r.Some? ==> AllCrypt(r.value.hash) && |r.value.hash| >= 1
  {
    match Field(r2, DigitClass, 1, 10, ',')
    case None => None
    case Some((memory, r3)) => MatchThreads(version, time, memory, r3)
  }

  /** The threads field, then the salt and hash. */
  function MatchThreads(version: string, time: string, memory: string, r3: string): (r: Option<Fields>)
    ensures r.Some? ==> r.value.version == version && r.value.time == time && r.value.memory == memory
    ensures r.Some? ==> r3 == AfterMemory(r.value)
    ensures r.Some? ==> AllIn(r.value.threads, DigitClass) && 1 <= |r.value.threads| <= 3
    ensures r.Some? ==> AllCrypt(r.value.salt) && |r.value.salt| >= 1
    ensures r.Some? ==> AllCrypt(r.value.hash) && |r.value.hash| >= 1
  {
    match Field(r3, DigitClass, 1, 3, '$')
    case None => None
    case Some((threads, r4)) => MatchHash(version, time, memory, threads, r4)
  }

  /** The salt, `$`, and a hash that runs to the end of the text. */
  function MatchHash(version: string, time: string, memory: string, threads: string, r4: string): (r: Option<Fields>)
    ensures r.Some? ==> r.value.version == version && r.value.time == time
    ensures r.Some? ==> r.value.memory == memory && r.value.threads == threads
    ensures r.Some? ==> r4 == AfterThreads(r.value)
    ensures r.Some? ==> AllCrypt(r.value.salt) && |r.value.salt| >= 1
    ensures r.Some? ==> AllCrypt(r.value.hash) && |r.value.hash| >= 1
  {
    match Field(r4, CryptClass, 1, |r4|, '$')
    case None => None
    case Some((salt, hash)) =>
      if 1 <= |hash| && AllIn(hash, CryptClass) then
        Some(Fields(version, time, memory, threads, salt, hash))
      else None
  }

  /** `IsHashedPassword`: a membership test for the record language; every
      text it accepts is a well-formed record. */
  predicate IsHashedPassword(s: string): (b: bool)
    ensures b ==> Matches(s)
  {
    Match(s).Some?
  }

  // ---------------------------------------------------------------------
  // The recogniser decides the grammar

  /** The run stops exactly at the end of an in-class prefix followed by an
      out-of-class character or by the end of the text. */
  lemma {:induction false} RunLengthOf(a: string, b: string, cls: CharClass)
    requires AllIn(a, cls) && (|b| == 0 || !InClass(b[0], cls))
    ensures RunLength(a + b, cls) == |a|
  {
    if |a| > 0 {
      assert (a + b)[1..] == a[1..] + b;
      RunLengthOf(a[1..], b, cls);
    }
  }

  /** A field followed by a separator outside its class is found whole. */
  lemma FieldOf(a: string, sep: char, rest: string, cls: CharClass, lo: nat, hi: nat)
    requires AllIn(a, cls) && lo <= |a| <= hi && !InClass(sep, cls)
    ensures Field(a + ([sep] + rest), cls, lo, hi, sep) == Some((a, rest))
  {
    var s := a + ([sep] + rest);
    RunLengthOf(a, [sep] + rest, cls);
    var n := RunLength(s, cls);
    assert s[..n] == a && s[n + 1..] == rest;
  }

  lemma MatchHashOf(f: Fields)
    requires WellFormed(f)
    ensures MatchHash(f.version, f.time, f.memory, f.threads, AfterThreads(f)) == Some(f)
  {
    FieldOf(f.salt, '$', f.hash, CryptClass, 1, |AfterThreads(f)|);
  }

  lemma MatchThreadsOf(f: Fields)
    requires WellFormed(f)
    ensures MatchThreads(f.version, f.time, f.memory, AfterMemory(f)) == Some(f)
  {
    FieldOf(f.threads, '$', AfterThreads(f), DigitClass, 1, 3);
    MatchHashOf(f);
  }

  lemma MatchMemoryOf(f: Fields)
    requires WellFormed(f)
    ensures MatchMemory(f.version, f.time, AfterTime(f)) == Some(f)
  {
    FieldOf(f.memory, ',', AfterMemory(f), DigitClass, 1, 10);
    MatchThreadsOf(f);
  }

  lemma MatchTimeOf(f: Fields)
    requires WellFormed(f)
    ensures MatchTime(f.version, AfterVersion(f)) == Some(f)
  {
    FieldOf(f.time, ',', AfterTime(f), DigitClass, 1, 10);
    MatchMemoryOf(f);
  }

  /** Every well-formed record is recognised, with exactly its own fields. */
  lemma MatchComplete(f: Fields)
    requires WellFormed(f)
    ensures Match(Record(f)) == Some(f)
  {
    var s := Record(f);
    var r0 := f.version + ("$" + AfterVersion(f));
    assert s[..|Prefix|] == Prefix && s[|Prefix|..] == r0;
    FieldOf(f.version, '$', AfterVersion(f), DigitClass, 1, 4);
    MatchTimeOf(f);
  }

  /** `IsHashedPassword(s)` holds exactly when `s` is in the language of the
      anchored pattern. */
  lemma IsHashedPasswordIff(s: string)
    ensures IsHashedPassword(s) <==> Matches(s)
  {
    if Matches(s) {
      var f :| WellFormed(f) && Record(f) == s;
      MatchComplete(f);
    }
  }

  /** The fields of a record are determined by its text. */
  lemma RecordInjective(f: Fields, g: Fields)
    requires WellFormed(f) && WellFormed(g) && Record(f) == Record(g)
    ensures f == g
  {
    MatchComplete(f);
    MatchComplete(g);
  }

  // ---------------------------------------------------------------------
  // Writing a record

  /** The hasher's `fmt.Sprintf`: version, the three numbers in decimal,
      then the encoded salt and hash. */
  function FormatRecord(time: uint32, memory: uint32, threads: uint8, salt: seq<byte>, hash: seq<byte>): (r: string)
    ensures |salt| >= 1 && |hash| >= 1 ==> Matches(r)
  {
    var f := FormattedFields(time, memory, threads, salt, hash);
    assert |salt| >= 1 && |hash| >= 1 ==> WellFormed(f) by {
      if |salt| >= 1 && |hash| >= 1 {
        FormattedWellFormed(time, memory, threads, salt, hash);
      }
    }
    Record(f)
  }

  /** The fields the hasher writes; each numeral reads back as the value
      it was written from. */
  function FormattedFields(time: uint32, memory: uint32, threads: uint8, salt: seq<byte>, hash: seq<byte>): (f: Fields)
    ensures AllDigits(f.version) && AllDigits(f.time) && AllDigits(f.memory) && AllDigits(f.threads)
    ensures ParseDecimal(f.version) == Version
    ensures ParseDecimal(f.time) == time && ParseDecimal(f.memory) == memory
    ensures ParseDecimal(f.threads) == threads
  {
    ParseFormat(Version);
    ParseFormat(time);
    ParseFormat(memory);
    ParseFormat(threads);
    Fields(FormatDecimal(Version), FormatDecimal(time), FormatDecimal(memory),
           FormatDecimal(threads), Encode(salt), Encode(hash))
  }

  /** Every value of the hasher's parameter types fits the pattern's digit
      bounds, so a record with a non-empty salt and hash is well formed. */
  lemma FormattedWellFormed(time: uint32, memory: uint32, threads: uint8, salt: seq<byte>, hash: seq<byte>)
    requires |salt| >= 1 && |hash| >= 1
    ensures WellFormed(FormattedFields(time, memory, threads, salt, hash))
  {
    assert Pow10(2) == 100 && Pow10(3) == 1000;
    assert Pow10(10) == 10_000_000_000;
    FormatLength(Version, 2);
    FormatLength(time, 10);
    FormatLength(memory, 10);
    FormatLength(threads, 3);
  }

  /** The length of a written record: `$argon2id19$`, the three numerals
      and two commas, `$`, the encoded salt, `$`, the encoded hash. */
  lemma FormatRecordLength(time: uint32, memory: uint32, threads: uint8, salt: seq<byte>, hash: seq<byte>)
    ensures |FormatRecord(time, memory, threads, salt, hash)|
         == 16 + |FormatDecimal(time)| + |FormatDecimal(memory)| + |FormatDecimal(threads)|
            + (8 * |salt| + 5) / 6 + (8 * |hash| + 5) / 6
  {
    VersionNumeral();
  }

  /** The version is written as `19`. */
  lemma VersionNumeral()
    ensures FormatDecimal(Version) == "19"
  {
    assert FormatDecimal(19) == FormatDecimal(1) + ['9'];
  }

  /** A written record starts with `$argon2id19$` and the three numerals. */
  lemma FormatRecordHead(time: uint32, memory: uint32, threads: uint8, salt: seq<byte>, hash: seq<byte>)
    ensures var h := "$argon2id19$" + FormatDecimal(time) + "," + FormatDecimal(memory) + ","
                     + FormatDecimal(threads) + "$";
            |h| <= |FormatRecord(time, memory, threads, salt, hash)|
            && FormatRecord(time, memory, threads, salt, hash)[..|h|] == h
  {
    var f := FormattedFields(time, memory, threads, salt, hash);
    var h := Head(f);
    var t := f.salt + ("$" + f.hash);
    RecordHead(f);
    assert (h + t)[..|h|] == h;
    VersionNumeral();
    assert Prefix + "19" + "$" == "$argon2id19$";
  }

  // ---------------------------------------------------------------------
  // Parsing and validating a record

  /** The parameters recovered from a record (`hashed`). */
  datatype Hashed = Hashed(time: uint32, memory: uint32, threads: uint8,
                           hash: seq<byte>, salt: seq<byte>)

  /** The complexity bounds: time and threads at least 1, time and memory
      within 32 bits, threads within 8 bits; memory 0 is allowed. */
  predicate ComplexityOk(time: nat, memory: nat, threads: nat): (b: bool)
    ensures !b <==> time == 0 || time > MaxUint32 || memory > MaxUint32 || threads == 0 || threads > MaxUint8
  {
    1 <= time <= MaxUint32 && memory <= MaxUint32 && 1 <= threads <= MaxUint8
  }

  /** The bounds are tight: each value just outside them is refused, and
      the extreme values inside them, memory 0 among them, are accepted. */
  lemma ComplexityBoundaries()
    ensures !ComplexityOk(0, 65536, 4) && !ComplexityOk(0x1_0000_0000, 65536, 4)
    ensures !ComplexityOk(1, 0x1_0000_0000, 4)
    ensures !ComplexityOk(1, 65536, 0) && !ComplexityOk(1, 65536, 256)
    ensures ComplexityOk(1, 0, 1) && ComplexityOk(MaxUint32, MaxUint32, MaxUint8)
  {
  }

  /** `newHashedFromHashedPassword`. Checks, in order: the pattern, the
      version, decoding the hash, decoding the salt, the complexity bounds.
      A successful parse has a non-empty hash and salt. */
  function Parse(s: string): (r: Result<Hashed>)
    ensures r.Ok? ==> IsHashedPassword(s) && |r.value.hash| >= 1 && |r.value.salt| >= 1
  {
    match Match(s)
    case None => Err(InvalidHash)
    case Some(f) => ParseFields(f)
  }

  /** The checks after the pattern, on the captured groups: version, hash,
      salt, complexity. None of them reports `InvalidHash`. */
  function ParseFields(f: Fields): (r: Result<Hashed>)
    requires WellFormed(f)
    ensures r.Ok? ==> |r.value.hash| >= 1 && |r.value.salt| >= 1
    ensures r.Err? ==> r.error != InvalidHash
  {
    var version := ParseDecimal(f.version);
    var time := ParseDecimal(f.time);
    var memory := ParseDecimal(f.memory);
    var threads := ParseDecimal(f.threads);
    if version != Version then Err(InvalidArgon2Version)
    else
      var rawHash := Decode(f.hash);
      if rawHash.Err? then Err(rawHash.error)
      else
        var rawSalt := Decode(f.salt);
        if rawSalt.Err? then Err(rawSalt.error)
        else if time == 0 || time > MaxUint32 || memory > MaxUint32 || threads == 0 || threads > MaxUint8 then
          Err(InvalidComplexity)
        else
          DecodedNonEmpty(f.hash);
          DecodedNonEmpty(f.salt);
          Ok(Hashed(time, memory, threads, rawHash.value, rawSalt.value))
  }

  /** A non-empty alphabet segment that decodes yields at least one byte. */
  lemma DecodedNonEmpty(s: string)
    requires AllCrypt(s) && |s| >= 1 && Decode(s).Ok?
    ensures |Decode(s).value| >= 1
  {
    SextetsOfCrypt(s);
    DecodeCrypt(s);
  }

  // ---------------------------------------------------------------------
  // Properties of the parser

  /** The parser reports `InvalidHash` exactly for texts outside the record
      language; every later failure carries another error. */
  lemma ParseInvalidHashIff(s: string)
    ensures Parse(s) == Err(InvalidHash) <==> !IsHashedPassword(s)
  {
  }

  /** On a well-formed record, the parser goes straight to the checks on
      its fields. */
  lemma ParseRecord(f: Fields)
    requires WellFormed(f)
    ensures Parse(Record(f)) == ParseFields(f)
  {
    MatchComplete(f);
  }

  /** A record with a version other than 19 is refused as such before
      either segment is decoded, however corrupt the segments are and
      whatever the numbers. */
  lemma ParseVersionFirst(f: Fields)
    requires WellFormed(f) && ParseDecimal(f.version) != Version
    ensures Parse(Record(f)) == Err(InvalidArgon2Version)
  {
    ParseRecord(f);
  }

  /** With the right version, a hash segment that does not decode is
      reported, whatever the salt segment and the numbers hold. */
  lemma ParseHashBeforeSalt(f: Fields)
    requires WellFormed(f) && ParseDecimal(f.version) == Version
    requires Decode(f.hash).Err?
    ensures Parse(Record(f)) == Err(Decode(f.hash).error)
  {
    ParseRecord(f);
  }

  /** With the right version and a decodable hash, a salt segment that does
      not decode is reported, whatever the numbers. */
  lemma ParseSaltAfterHash(f: Fields)
    requires WellFormed(f) && ParseDecimal(f.version) == Version
    requires Decode(f.hash).Ok? && Decode(f.salt).Err?
    ensures Parse(Record(f)) == Err(Decode(f.salt).error)
  {
    ParseRecord(f);
  }

  /** Once both segments decode, a record within the complexity bounds
      parses to its numbers and decoded bytes. */
  lemma ParseAccepts(f: Fields)
    requires WellFormed(f) && ParseDecimal(f.version) == Version
    requires Decode(f.hash).Ok? && Decode(f.salt).Ok?
    requires ComplexityOk(ParseDecimal(f.time), ParseDecimal(f.memory), ParseDecimal(f.threads))
    ensures Parse(Record(f)) == Ok(Hashed(ParseDecimal(f.time), ParseDecimal(f.memory),
                                          ParseDecimal(f.threads), Decode(f.hash).value, Decode(f.salt).value))
  {
    assert ParseFields(f) == Ok(Hashed(ParseDecimal(f.time), ParseDecimal(f.memory), ParseDecimal(f.threads),
                                       Decode(f.hash).value, Decode(f.salt).value));
    ParseRecord(f);
  }

  /** Once both segments decode, a record outside the complexity bounds is
      refused with `InvalidComplexity`. */
  lemma ParseRejectsComplexity(f: Fields)
    requires WellFormed(f) && ParseDecimal(f.version) == Version
    requires Decode(f.hash).Ok? && Decode(f.salt).Ok?
    requires !ComplexityOk(ParseDecimal(f.time), ParseDecimal(f.memory), ParseDecimal(f.threads))
    ensures Parse(Record(f)) == Err(InvalidComplexity)
  {
    assert ParseFields(f) == Err(InvalidComplexity);
    ParseRecord(f);
  }

  /** A written record parses back to the numbers, salt and hash it was
      written from, provided the parameters are within the complexity
      bounds and the salt and hash are non-empty. */
  lemma ParseFormatRecord(time: uint32, memory: uint32, threads: uint8, salt: seq<byte>, hash: seq<byte>)
    requires time >= 1 && threads >= 1 && |salt| >= 1 && |hash| >= 1
    ensures IsHashedPassword(FormatRecord(time, memory, threads, salt, hash))
    ensures Parse(FormatRecord(time, memory, threads, salt, hash)) == Ok(Hashed(time, memory, threads, hash, salt))
  {
    var f := FormattedFields(time, memory, threads, salt, hash);
    FormattedWellFormed(time, memory, threads, salt, hash);
    MatchComplete(f);
    DecodeEncode(salt);
    DecodeEncode(hash);
    ParseAccepts(f);
  }

  /** The two malformed texts of the package's tests are refused as
      `InvalidHash`: one lacks the prefix, the other the version digits. */
  lemma MalformedExamples()
    ensures Parse("bad-hash") == Err(InvalidHash)
    ensures !IsHashedPassword("$argon2id,2,32768,2$bad")
  {
    var s := "$argon2id,2,32768,2$bad";
    assert s[..|Prefix|] == Prefix;
    assert s[|Prefix|..][0] == ',';
  }
}
