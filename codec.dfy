/** The package's text encoding of salts and hashes: base64 as in section 4
    of RFC 4648, with the alphabet replaced by `./A-Za-z0-9`, in that
    order, and the padding omitted (section 3.2 of RFC 4648). The
    encoder packs each 3-byte group into a 24-bit value and emits its four
    sextets; an unpadded tail of 1 or 2 bytes yields 2 or 3 characters. The
    decoder is Go's non-strict decoder: it ignores the unused low bits of a
    tail, skips '\r' and '\n', and reports the first offending offset. */
module CryptBase64 {
  import opened Argon2Errors

  /** An octet, Go's `byte`. */
  type byte = n: int | 0 <= n < 256

  /** A 6-bit value: the index of one alphabet character. */
  type sextet = n: int | 0 <= n < 64

  /** Membership in the alphabet, the character class `[./a-zA-Z0-9]`. */
  predicate IsCryptChar(c: char) {
    ('.' <= c <= '9') || ('A' <= c <= 'Z') || ('a' <= c <= 'z')
  }

  /** Line breaks, which the decoder skips. */
  predicate IsNewline(c: char) {
    c == '\r' || c == '\n'
  }

  predicate AllCrypt(s: string) {
    forall i :: 0 <= i < |s| ==> IsCryptChar(s[i])
  }

  /** The alphabet character of a sextet. The alphabet, in index order, is
      `./ABCDEFGHIJKLMNOPQRSTUVWXYZabcdefghijklmnopqrstuvwxyz0123456789`:
      two punctuation marks, the upper-case letters, the lower-case letters,
      then the digits. */
  function CharOf(v: sextet): (c: char)
    ensures IsCryptChar(c)
    ensures v < 2 <==> c == '.' || c == '/'
    ensures 2 <= v < 28 <==> 'A' <= c <= 'Z'
    ensures 28 <= v < 54 <==> 'a' <= c <= 'z'
    ensures 54 <= v <==> '0' <= c <= '9'
  {
    if v < 2 then ('.' as int + v) as char
    else if v < 28 then ('A' as int + v - 2) as char
    else if v < 54 then ('a' as int + v - 28) as char
    else ('0' as int + v - 54) as char
  }

  /** The decoder's table lookup: the index of alphabet character `c`. */
  function SextetOf(c: char): (v: sextet)
    requires IsCryptChar(c)
    ensures CharOf(v) == c
  {
    if c <= '/' then c as int - '.' as int
    else if c <= '9' then c as int - '0' as int + 54
    else if c <= 'Z' then c as int - 'A' as int + 2
    else c as int - 'a' as int + 28
  }

  /** The table order: each block of the alphabet starts and ends at the
      sextets the encoding assigns to it, and runs in character order in
      between, so the whole table is fixed. */
  lemma AlphabetOrder()
    ensures CharOf(0) == '.' && CharOf(1) == '/'
    ensures CharOf(2) == 'A' && CharOf(27) == 'Z'
    ensures CharOf(28) == 'a' && CharOf(53) == 'z'
    ensures CharOf(54) == '0' && CharOf(63) == '9'
    ensures forall v: sextet, w: sextet :: 2 <= v < w < 28 ==> CharOf(v) < CharOf(w)
    ensures forall v: sextet, w: sextet :: 28 <= v < w < 54 ==> CharOf(v) < CharOf(w)
    ensures forall v: sextet, w: sextet :: 54 <= v < w ==> CharOf(v) < CharOf(w)
  {
  }

  lemma SextetOfCharOf(v: sextet)
    ensures SextetOf(CharOf(v)) == v
  {
  }

  // ---------------------------------------------------------------------
  // One quantum: three bytes as a 24-bit value, read as four sextets

  /** The 24-bit value of three bytes, the first byte most significant. */
  function GroupValue(b0: byte, b1: byte, b2: byte): (n: nat)
    ensures n < 0x100_0000
  {
    b0 * 0x1_0000 + b1 * 0x100 + b2
  }

  /** The 24-bit value of four sextets, the first sextet most significant. */
  function QuadValue(s0: sextet, s1: sextet, s2: sextet, s3: sextet): (n: nat)
    ensures n < 0x100_0000
  {
    s0 * 0x4_0000 + s1 * 0x1000 + s2 * 0x40 + s3
  }

  /** The four sextets of a 24-bit value recombine to that value. */
  lemma SextetsOfValue(n: nat)
    requires n < 0x100_0000
    ensures n / 0x4_0000 < 0x40
    ensures QuadValue(n / 0x4_0000, n / 0x1000 % 0x40, n / 0x40 % 0x40, n % 0x40) == n
  {
    assert n / 0x1000 == n / 0x4_0000 * 0x40 + n / 0x1000 % 0x40;
    assert n / 0x40 == n / 0x1000 * 0x40 + n / 0x40 % 0x40;
  }

  /** The three bytes of a 24-bit group are recovered from its value. */
  lemma BytesOfValue(b0: byte, b1: byte, b2: byte)
    ensures GroupValue(b0, b1, b2) / 0x1_0000 == b0
    ensures GroupValue(b0, b1, b2) / 0x100 % 0x100 == b1
    ensures GroupValue(b0, b1, b2) % 0x100 == b2
  {
    var n := GroupValue(b0, b1, b2);
    assert n / 0x100 == b0 * 0x100 + b1;
  }

  /** The encoder's quantum: `b` (1 to 3 bytes) padded with zero bytes to a
      24-bit value, of which the first `|b| + 1` sextets are emitted. */
  function EncodeQuantum(b: seq<byte>): (q: seq<sextet>)
    requires 1 <= |b| <= 3
    ensures |q| == |b| + 1
  {
    var val := GroupValue(b[0], if |b| > 1 then b[1] else 0, if |b| > 2 then b[2] else 0);
    var s0, s1, s2, s3 := val / 0x4_0000, val / 0x1000 % 0x40, val / 0x40 % 0x40, val % 0x40;
    if |b| == 1 then [s0, s1] else if |b| == 2 then [s0, s1, s2] else [s0, s1, s2, s3]
  }

  /** The decoder's quantum: 2 to 4 sextets, missing ones taken as zero,
      form a 24-bit value whose first `|q| - 1` bytes are kept; the unused
      low bits of a short quantum are ignored. */
  function DecodeQuantum(q: seq<sextet>): (b: seq<byte>)
    requires 2 <= |q| <= 4
    ensures |b| == |q| - 1
  {
    var val := QuadValue(q[0], q[1], if |q| > 2 then q[2] else 0, if |q| > 3 then q[3] else 0);
    var b0, b1, b2 := val / 0x1_0000, val / 0x100 % 0x100, val % 0x100;
    if |q| == 2 then [b0] else if |q| == 3 then [b0, b1] else [b0, b1, b2]
  }

  /** A short group's value has zero low sextets, so the sextets the encoder
      drops are exactly the ones the decoder takes as zero. */
  lemma ShortGroupLowSextets(b0: byte, b1: byte)
    ensures GroupValue(b0, b1, 0) % 0x40 == 0
    ensures GroupValue(b0, 0, 0) / 0x40 % 0x40 == 0
    ensures GroupValue(b0, 0, 0) % 0x40 == 0
  {
    assert GroupValue(b0, b1, 0) == 0x40 * (b0 * 0x400 + b1 * 4);
    assert GroupValue(b0, 0, 0) / 0x40 == 0x40 * (b0 * 0x10);
  }

  lemma QuantumRoundTrip(b: seq<byte>)
    requires 1 <= |b| <= 3
    ensures DecodeQuantum(EncodeQuantum(b)) == b
  {
    var b1: byte := if |b| > 1 then b[1] else 0;
    var b2: byte := if |b| > 2 then b[2] else 0;
    var val := GroupValue(b[0], b1, b2);
    SextetsOfValue(val);
    BytesOfValue(b[0], b1, b2);
    ShortGroupLowSextets(b[0], b1);
    var q := EncodeQuantum(b);
    var q2: sextet := if |q| > 2 then q[2] else 0;
    var q3: sextet := if |q| > 3 then q[3] else 0;
    assert q2 == val / 0x40 % 0x40 && q3 == val % 0x40;
    assert QuadValue(q[0], q[1], q2, q3) == val;
  }

  // ---------------------------------------------------------------------
  // Whole buffers

  /** Sextets of a byte buffer: full 3-byte groups, then a 1- or 2-byte tail. */
  function EncodeSextets(b: seq<byte>): (q: seq<sextet>)
    ensures |q| == |b| / 3 * 4 + (if |b| % 3 == 0 then 0 else |b| % 3 + 1)
    decreases |b|
  {
    if |b| == 0 then []
    else if |b| <= 3 then EncodeQuantum(b)
    else EncodeQuantum(b[..3]) + EncodeSextets(b[3..])
  }

  /** Bytes of a sextet sequence with no lone trailing sextet (length not
      1 mod 4). */
  function DecodeSextets(q: seq<sextet>): (b: seq<byte>)
    requires |q| % 4 != 1
    ensures |b| == |q| * 6 / 8
    decreases |q|
  {
    if |q| == 0 then []
    else if |q| <= 4 then DecodeQuantum(q)
    else DecodeQuantum(q[..4]) + DecodeSextets(q[4..])
  }

  /** Decoding proceeds one full quantum at a time. */
  lemma DecodeSextetsAppend(head: seq<sextet>, tail: seq<sextet>)
    requires |head| == 4 && |tail| % 4 != 1
    ensures |head + tail| % 4 != 1
    ensures DecodeSextets(head + tail) == DecodeQuantum(head) + DecodeSextets(tail)
  {
    var q := head + tail;
    if |tail| > 0 {
      assert q[..4] == head && q[4..] == tail;
    }
  }

  lemma {:induction false} SextetsRoundTrip(b: seq<byte>)
    ensures |EncodeSextets(b)| % 4 != 1
    ensures DecodeSextets(EncodeSextets(b)) == b
    decreases |b|
  {
    if |b| == 0 {
    } else if |b| <= 3 {
      QuantumRoundTrip(b);
    } else {
      var head := EncodeQuantum(b[..3]);
      var tail := EncodeSextets(b[3..]);
      assert EncodeSextets(b) == head + tail;
      SextetsRoundTrip(b[3..]);
      QuantumRoundTrip(b[..3]);
      DecodeSextetsAppend(head, tail);
      assert b == b[..3] + b[3..];
    }
  }

  /** The characters of a sextet sequence. */
  function Chars(q: seq<sextet>): (s: string)
    ensures |s| == |q|
    ensures AllCrypt(s)
    ensures forall i :: 0 <= i < |q| ==> s[i] == CharOf(q[i])
  {
    seq(|q|, i requires 0 <= i < |q| => CharOf(q[i]))
  }

  /** Go's `EncodeToString`: alphabet characters only, no padding, and
      `ceil(8 * |b| / 6)` of them. */
  function Encode(b: seq<byte>): (s: string)
    ensures |s| == (8 * |b| + 5) / 6
    ensures AllCrypt(s)
  {
    var q := EncodeSextets(b);
    assert |q| == (8 * |b| + 5) / 6 by { EncodedLength(|b|); }
    Chars(q)
  }

  /** Go's `EncodedLen` without padding equals `ceil(8 * n / 6)`. */
  lemma EncodedLength(n: nat)
    ensures n / 3 * 4 + (if n % 3 == 0 then 0 else n % 3 + 1) == (8 * n + 5) / 6
  {
    var k, r := n / 3, n % 3;
    assert n == 3 * k + r;
    assert 8 * n + 5 == 6 * (4 * k) + (8 * r + 5);
  }

  // ---------------------------------------------------------------------
  // Decoding text

  /** Characters the decoder accepts: the alphabet, and line breaks it skips. */
  predicate Acceptable(c: char) {
    IsCryptChar(c) || IsNewline(c)
  }

  /** The offset of the first character at or after `i` that the decoder
      rejects, if any. */
  function FirstCorrupt(s: string, i: nat): (r: Option<nat>)
    requires i <= |s|
    ensures r.None? ==> forall j :: i <= j < |s| ==> Acceptable(s[j])
    ensures r.Some? ==> i <= r.value < |s| && !Acceptable(s[r.value])
    ensures r.Some? ==> forall j :: i <= j < r.value ==> Acceptable(s[j])
    decreases |s| - i
  {
    if i == |s| then None
    else if !Acceptable(s[i]) then Some(i)
    else FirstCorrupt(s, i + 1)
  }

  /** The sextets of accepted text, line breaks skipped. */
  function SextetsOf(s: string): (q: seq<sextet>)
    requires forall j :: 0 <= j < |s| ==> Acceptable(s[j])
    ensures |q| <= |s|
  {
    if |s| == 0 then []
    else
      assert Acceptable(s[0]);
      (if IsNewline(s[0]) then [] else [SextetOf(s[0])]) + SextetsOf(s[1..])
  }

  /** Go's `DecodeString` for this encoding. A rejected character yields
      `CorruptInput` at its offset; otherwise a lone trailing sextet (a
      sextet count of 1 modulo 4) yields `CorruptInput` at the last offset;
      otherwise the bytes of the sextets. */
  function Decode(s: string): (r: Result<seq<byte>>)
    ensures r.Err? ==> r.error.CorruptInput? && r.error.offset < |s|
  {
    match FirstCorrupt(s, 0)
    case Some(k) => Err(CorruptInput(k))
    case None =>
      var q := SextetsOf(s);
      if |q| % 4 == 1 then Err(CorruptInput(|s| - 1))
      else Ok(DecodeSextets(q))
  }

  // ---------------------------------------------------------------------
  // Properties of the codec

  /** Text without line breaks yields one sextet per character. */
  lemma {:induction false} SextetsOfCrypt(s: string)
    requires AllCrypt(s)
    ensures forall j :: 0 <= j < |s| ==> Acceptable(s[j])
    ensures |SextetsOf(s)| == |s|
    ensures forall j :: 0 <= j < |s| ==> SextetsOf(s)[j] == SextetOf(s[j])
  {
    if |s| > 0 {
      SextetsOfCrypt(s[1..]);
    }
  }

  /** Reading back the characters of a sextet sequence gives the sextets. */
  lemma SextetsOfChars(q: seq<sextet>)
    ensures AllCrypt(Chars(q))
    ensures forall j :: 0 <= j < |Chars(q)| ==> Acceptable(Chars(q)[j])
    ensures SextetsOf(Chars(q)) == q
  {
    var s := Chars(q);
    SextetsOfCrypt(s);
    forall j | 0 <= j < |q|
      ensures SextetsOf(s)[j] == q[j]
    {
      SextetOfCharOf(q[j]);
    }
  }

  /** Decoding the encoding of any byte sequence returns that sequence. */
  lemma DecodeEncode(b: seq<byte>)
    ensures Decode(Encode(b)) == Ok(b)
  {
    var q := EncodeSextets(b);
    SextetsOfChars(q);
    SextetsRoundTrip(b);
    assert FirstCorrupt(Encode(b), 0) == None;
  }

  /** Alphabet text whose length is not 1 modulo 4 always decodes, to
      `|s| * 6 / 8` bytes (Go's `DecodedLen` without padding). */
  lemma DecodeCrypt(s: string)
    requires AllCrypt(s) && |s| % 4 != 1
    ensures Decode(s).Ok?
    ensures |Decode(s).value| == |s| * 6 / 8
  {
    SextetsOfCrypt(s);
    assert FirstCorrupt(s, 0) == None;
  }

  /** Alphabet text of length 1 modulo 4 is rejected at its last offset:
      a lone sextet cannot hold a byte. */
  lemma DecodeLoneSextet(s: string)
    requires AllCrypt(s) && |s| % 4 == 1
    ensures Decode(s) == Err(CorruptInput(|s| - 1))
  {
    SextetsOfCrypt(s);
    assert FirstCorrupt(s, 0) == None;
  }

  /** The first character outside the alphabet (other than a line break) is
      reported at its offset, whatever follows it. */
  lemma DecodeFirstCorrupt(s: string, k: nat)
    requires k < |s| && !Acceptable(s[k])
    requires forall j :: 0 <= j < k ==> Acceptable(s[j])
    ensures Decode(s) == Err(CorruptInput(k))
  {
  }

  // ---------------------------------------------------------------------
  // Re-encoding decoded text

  /** Sextets whose unused low bits are zero: in a 2-sextet tail the last
      sextet's low 4 bits, in a 3-sextet tail the last sextet's low 2 bits.
      This is the text the encoder itself produces. */
  predicate CanonicalTail(q: seq<sextet>) {
    && (|q| % 4 == 2 ==> q[|q| - 1] % 0x10 == 0)
    && (|q| % 4 == 3 ==> q[|q| - 1] % 4 == 0)
  }

  /** The four sextets of a 24-bit value are recovered from it. */
  lemma QuadDigits(s0: sextet, s1: sextet, s2: sextet, s3: sextet)
    ensures QuadValue(s0, s1, s2, s3) / 0x4_0000 == s0
    ensures QuadValue(s0, s1, s2, s3) / 0x1000 % 0x40 == s1
    ensures QuadValue(s0, s1, s2, s3) / 0x40 % 0x40 == s2
    ensures QuadValue(s0, s1, s2, s3) % 0x40 == s3
  {
    var n := QuadValue(s0, s1, s2, s3);
    assert n / 0x40 == s0 * 0x1000 + s1 * 0x40 + s2;
    assert n / 0x1000 == s0 * 0x40 + s1;
  }

  /** A 24-bit value is the group value of its three bytes. */
  lemma GroupOfValue(n: nat)
    requires n < 0x100_0000
    ensures n / 0x1_0000 < 0x100
    ensures GroupValue(n / 0x1_0000, n / 0x100 % 0x100, n % 0x100) == n
  {
  }

  /** Two sextets decode to one byte; the last sextet's low four bits are
      dropped. */
  lemma TwoSextetQuantum(s0: sextet, s1: sextet)
    ensures s0 * 4 + s1 / 0x10 < 0x100
    ensures DecodeQuantum([s0, s1]) == [s0 * 4 + s1 / 0x10]
  {
    var val := QuadValue(s0, s1, 0, 0);
    assert val / 0x1_0000 == s0 * 4 + s1 / 0x10;
  }

  lemma ReencodeTwo(s0: sextet, s1: sextet)
    requires s1 % 0x10 == 0
    ensures EncodeQuantum(DecodeQuantum([s0, s1])) == [s0, s1]
  {
    var val := QuadValue(s0, s1, 0, 0);
    QuadDigits(s0, s1, 0, 0);
    var m := s0 * 4 + s1 / 0x10;
    assert val == 0x1_0000 * m;
    assert val / 0x1_0000 == m;
    var b := DecodeQuantum([s0, s1]);
    assert b == [m];
    assert GroupValue(b[0], 0, 0) == val;
  }

  lemma ReencodeThree(s0: sextet, s1: sextet, s2: sextet)
    requires s2 % 4 == 0
    ensures EncodeQuantum(DecodeQuantum([s0, s1, s2])) == [s0, s1, s2]
  {
    var val := QuadValue(s0, s1, s2, 0);
    QuadDigits(s0, s1, s2, 0);
    GroupOfValue(val);
    var m := s0 * 0x400 + s1 * 0x10 + s2 / 4;
    assert val == 0x100 * m;
    assert val / 0x100 == m;
    var b := DecodeQuantum([s0, s1, s2]);
    assert b == [val / 0x1_0000, val / 0x100 % 0x100];
    assert GroupValue(b[0], b[1], 0) == val;
  }

  lemma ReencodeFour(s0: sextet, s1: sextet, s2: sextet, s3: sextet)
    ensures EncodeQuantum(DecodeQuantum([s0, s1, s2, s3])) == [s0, s1, s2, s3]
  {
    var val := QuadValue(s0, s1, s2, s3);
    QuadDigits(s0, s1, s2, s3);
    GroupOfValue(val);
    var b := DecodeQuantum([s0, s1, s2, s3]);
    assert b == [val / 0x1_0000, val / 0x100 % 0x100, val % 0x100];
    assert GroupValue(b[0], b[1], b[2]) == val;
  }

  /** A canonical quantum is what the encoder writes for the bytes it
      decodes to. */
  lemma QuantumReencode(q: seq<sextet>)
    requires 2 <= |q| <= 4 && CanonicalTail(q)
    ensures EncodeQuantum(DecodeQuantum(q)) == q
  {
    if |q| == 2 {
      assert q == [q[0], q[1]];
      ReencodeTwo(q[0], q[1]);
    } else if |q| == 3 {
      assert q == [q[0], q[1], q[2]];
      ReencodeThree(q[0], q[1], q[2]);
    } else {
      assert q == [q[0], q[1], q[2], q[3]];
      ReencodeFour(q[0], q[1], q[2], q[3]);
    }
  }

  /** Encoding proceeds one full 3-byte group at a time. */
  lemma EncodeSextetsAppend(head: seq<byte>, tail: seq<byte>)
    requires |head| == 3 && |tail| >= 1
    ensures EncodeSextets(head + tail) == EncodeQuantum(head) + EncodeSextets(tail)
  {
    var b := head + tail;
    assert b[..3] == head && b[3..] == tail;
  }

  lemma {:induction false} SextetsReencode(q: seq<sextet>)
    requires |q| % 4 != 1 && CanonicalTail(q)
    ensures EncodeSextets(DecodeSextets(q)) == q
    decreases |q|
  {
    if 0 < |q| <= 4 {
      QuantumReencode(q);
    } else if |q| > 4 {
      var head, tail := q[..4], q[4..];
      assert q == head + tail;
      assert |tail| % 4 == |q| % 4 && tail[|tail| - 1] == q[|q| - 1];
      SextetsReencode(tail);
      QuantumReencode(head);
      DecodeSextetsAppend(head, tail);
      var bh, bt := DecodeQuantum(head), DecodeSextets(tail);
      assert DecodeSextets(q) == bh + bt;
      assert |bt| >= 1;
      EncodeSextetsAppend(bh, bt);
    }
  }

  /** Decoding is exact on canonical text: alphabet text of a decodable
      length whose last character carries no unused set bits is reproduced
      by encoding what it decodes to. */
  lemma EncodeDecodeCanonical(s: string)
    requires AllCrypt(s) && |s| % 4 != 1
    requires CanonicalTail(SextetsOf(s))
    ensures Decode(s).Ok? && Encode(Decode(s).value) == s
  {
    SextetsOfCrypt(s);
    DecodeCrypt(s);
    var q := SextetsOf(s);
    SextetsReencode(q);
    assert Chars(q) == s;
  }

  /** The decoder ignores unused low bits, so it is not injective: "./"
      decodes to the single byte 0, yet its last sextet carries a set bit
      the encoder never writes, so re-encoding that byte cannot give "./"
      back. */
  lemma NonCanonicalAlias()
    ensures Decode("./") == Ok([0]) && !CanonicalTail(SextetsOf("./"))
  {
    TwoSextetQuantum(0, 1);
    SextetsOfCrypt("./");
    assert SextetsOf("./") == [0, 1];
    assert FirstCorrupt("./", 0) == None;
  }
}
