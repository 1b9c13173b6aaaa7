/** Bytes and the little-endian fixed-width integers of the DPAK layout.
    The packer and the extractor move integers with native reads and writes
    on x86, so every u16 and u32 in an archive is little-endian. */
module LittleEndian {

  type byte = x: int | 0 <= x < 256

  const TwoTo16: nat := 0x1_0000
  const TwoTo32: nat := 0x1_0000_0000

  /** The two bytes a `uint16_t` write emits; the value is reduced modulo 2^16
      as the C++ cast to `uint16_t` does. */
  function U16Bytes(x: nat): (r: seq<byte>)
    ensures |r| == 2
  {
    [x % 256, x / 0x100 % 256]
  }

  /** The four bytes a 32-bit write emits (low 32 bits of x). */
  function U32Bytes(x: nat): (r: seq<byte>)
    ensures |r| == 4
  {
    [x % 256, x / 0x100 % 256, x / 0x1_0000 % 256, x / 0x100_0000 % 256]
  }

  /** The `uint16_t` read from two bytes at position p. */
  function U16At(s: seq<byte>, p: nat): (r: nat)
    requires p + 2 <= |s|
    ensures r < TwoTo16
  {
    s[p] as int + 0x100 * s[p + 1] as int
  }

  /** The `uint32_t` read from four bytes at position p. */
  function U32At(s: seq<byte>, p: nat): (r: nat)
    requires p + 4 <= |s|
    ensures r < TwoTo32
  {
    s[p] as int + 0x100 * (s[p + 1] as int + 0x100 * (s[p + 2] as int + 0x100 * s[p + 3] as int))
  }

  /** The two bytes written for x read back as x. */
  lemma U16AtOfBytes(s: seq<byte>, p: nat, x: nat)
    requires p + 2 <= |s| && x < TwoTo16 && s[p..p + 2] == U16Bytes(x)
    ensures U16At(s, p) == x
  {
    assert s[p] == x % 256 && s[p + 1] == x / 0x100 % 256;
  }

  /** Two bytes are the bytes written for the value read from them. */
  lemma U16BytesOfAt(s: seq<byte>, p: nat)
    requires p + 2 <= |s|
    ensures s[p..p + 2] == U16Bytes(U16At(s, p))
  {
    assert s[p..p + 2] == [s[p], s[p + 1]];
  }

  /** Reading two bytes yields x exactly when they are the bytes written for x. */
  lemma U16AtIff(s: seq<byte>, p: nat, x: nat)
    requires p + 2 <= |s| && x < TwoTo16
    ensures U16At(s, p) == x <==> s[p..p + 2] == U16Bytes(x)
  {
    if s[p..p + 2] == U16Bytes(x) {
      U16AtOfBytes(s, p, x);
    }
    if U16At(s, p) == x {
      U16BytesOfAt(s, p);
    }
  }

  /** Splitting a number into its low byte and the rest. */
  lemma ByteSplit(lo: int, hi: nat)
    requires 0 <= lo < 256
    ensures (lo + 0x100 * hi) % 256 == lo && (lo + 0x100 * hi) / 0x100 == hi
  {
  }

  /** The four bytes of a u32 and the shifts that recover them. */
  lemma U32Digits(s: seq<byte>, p: nat)
    requires p + 4 <= |s|
    ensures var v := U32At(s, p);
      v % 256 == s[p] && v / 0x100 % 256 == s[p + 1] &&
      v / 0x1_0000 % 256 == s[p + 2] && v / 0x100_0000 % 256 == s[p + 3]
  {
    var b0, b1, b2, b3 := s[p] as int, s[p + 1] as int, s[p + 2] as int, s[p + 3] as int;
    var h2 := b2 + 0x100 * b3;
    var h1 := b1 + 0x100 * h2;
    var v := b0 + 0x100 * h1;
    ByteSplit(b0, h1);
    ByteSplit(b1, h2);
    ByteSplit(b2, b3);
    assert v == U32At(s, p);
    assert v / 0x1_0000 == h2 && v / 0x100_0000 == b3;
  }

  /** Dividing by 2^16 is dividing by 2^8 twice. */
  lemma DivTwice(x: nat)
    ensures x / 0x1_0000 == x / 0x100 / 0x100
  {
    var q := x / 0x100;
    var r := q / 0x100;
    assert x == 0x100 * q + x % 0x100;
    assert q == 0x100 * r + q % 0x100;
    assert x == 0x1_0000 * r + (0x100 * (q % 0x100) + x % 0x100);
  }

  /** The four bytes written for x read back as x. */
  lemma U32AtOfBytes(s: seq<byte>, p: nat, x: nat)
    requires p + 4 <= |s| && x < TwoTo32 && s[p..p + 4] == U32Bytes(x)
    ensures U32At(s, p) == x
  {
    var q1 := x / 0x100;
    var q2 := q1 / 0x100;
    var q3 := q2 / 0x100;
    DivTwice(x);
    DivTwice(q1);
    assert x / 0x100_0000 == q3 by {
      DivTwice(x / 0x100);
      assert x / 0x100_0000 == x / 0x1_0000 / 0x100;
    }
    assert s[p] == x % 0x100 && s[p + 1] == q1 % 0x100;
    assert s[p + 2] == q2 % 0x100 && s[p + 3] == q3 % 0x100 && q3 < 0x100;
    assert s[p + 2] as int + 0x100 * s[p + 3] as int == q2;
    assert s[p + 1] as int + 0x100 * q2 == q1;
  }

  /** Four bytes are the bytes written for the value read from them. */
  lemma U32BytesOfAt(s: seq<byte>, p: nat)
    requires p + 4 <= |s|
    ensures s[p..p + 4] == U32Bytes(U32At(s, p))
  {
    U32Digits(s, p);
    assert s[p..p + 4] == [s[p], s[p + 1], s[p + 2], s[p + 3]];
  }

  /** Reading four bytes yields x exactly when they are the bytes written for x. */
  lemma U32AtIff(s: seq<byte>, p: nat, x: nat)
    requires p + 4 <= |s| && x < TwoTo32
    ensures U32At(s, p) == x <==> s[p..p + 4] == U32Bytes(x)
  {
    if s[p..p + 4] == U32Bytes(x) {
      U32AtOfBytes(s, p, x);
    }
    if U32At(s, p) == x {
      U32BytesOfAt(s, p);
    }
  }
}
