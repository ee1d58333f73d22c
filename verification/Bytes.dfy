/** Bytes as integers, little-endian words, and in-place copies. */
module Bytes {

  type byte = x: int | 0 <= x < 256

  /** A 16-bit word as the processor stores it, low byte first; wider values are truncated. */
  function Le2(v: nat): (b: seq<byte>)
    ensures |b| == 2
  {
    [v % 256, v / 256 % 256]
  }

  /** A 32-bit word as the processor stores it, low byte first; wider values are truncated. */
  function Le4(v: nat): (b: seq<byte>)
    ensures |b| == 4
  {
    [v % 256, v / 256 % 256, v / 65536 % 256, v / 16777216 % 256]
  }

  function FromLe2(b: seq<byte>): (v: nat)
    requires |b| == 2
    ensures v < 0x1_0000
  {
    b[0] as int + 256 * b[1] as int
  }

  function FromLe4(b: seq<byte>): (v: nat)
    requires |b| == 4
    ensures v < 0x1_0000_0000
  {
    b[0] as int + 256 * b[1] as int + 65536 * b[2] as int + 16777216 * b[3] as int
  }

  lemma Le2RoundTrip(v: nat)
    requires v < 0x1_0000
    ensures FromLe2(Le2(v)) == v
  {
  }

  lemma Le4RoundTrip(v: nat)
    requires v < 0x1_0000_0000
    ensures FromLe4(Le4(v)) == v
  {
    DigitByDigit(v);
    var v1 := v / 256;
    var v2 := v1 / 256;
    LowDigits(v, v1, v2, v2 / 256);
  }

  lemma LowDigits(v: nat, v1: nat, v2: nat, v3: nat)
    requires v < 0x1_0000_0000 && v1 == v / 256 && v2 == v1 / 256 && v3 == v2 / 256
    ensures v3 % 256 == v3 && v == v % 256 + 256 * (v1 % 256) + 65536 * (v2 % 256) + 16777216 * v3
  {
  }

  lemma LowDigit(low: nat, high: nat)
    requires low < 256
    ensures (low + 256 * high) % 256 == low && (low + 256 * high) / 256 == high
  {
  }

  lemma DigitByDigit(v: nat)
    ensures v / 65536 == v / 256 / 256 && v / 16777216 == v / 256 / 256 / 256
  {
  }

  lemma Le4Back(b: seq<byte>)
    requires |b| == 4
    ensures Le4(FromLe4(b)) == b
  {
    var n3: nat := b[3];
    var n2 := b[2] as int + 256 * n3;
    var n1 := b[1] as int + 256 * n2;
    LowDigit(b[3], 0);
    LowDigit(b[2], n3);
    LowDigit(b[1], n2);
    LowDigit(b[0], n1);
    DigitByDigit(FromLe4(b));
    assert FromLe4(b) == b[0] as int + 256 * n1;
  }

  function Zeros(n: nat): (b: seq<byte>)
    ensures |b| == n
  {
    seq(n, _ => 0)
  }

  /** `b` with the bytes from `at` on replaced by `src`. */
  function Put(b: seq<byte>, at: nat, src: seq<byte>): (r: seq<byte>)
    requires at + |src| <= |b|
    ensures |r| == |b|
  {
    b[..at] + src + b[at + |src|..]
  }

  /** Two writes that follow one another are one longer write. */
  lemma PutAdjacent(b: seq<byte>, at: nat, x: seq<byte>, y: seq<byte>)
    requires at + |x| + |y| <= |b|
    ensures Put(Put(b, at, x), at + |x|, y) == Put(b, at, x + y)
  {
  }

  /** Replacing the middle of three pieces. */
  lemma PutMiddle(a: seq<byte>, x: seq<byte>, c: seq<byte>, y: seq<byte>)
    requires |x| == |y|
    ensures Put(a + x + c, |a|, y) == a + y + c
  {
    assert (a + x + c)[..|a|] == a;
    assert (a + x + c)[|a| + |y|..] == c;
  }

  lemma PutNothing(b: seq<byte>, at: nat)
    requires at <= |b|
    ensures Put(b, at, []) == b
  {
  }

  lemma PutFront(b: seq<byte>, at: nat, src: seq<byte>)
    requires at + |src| <= |b|
    ensures Put(b, at, src)[..at + |src|] == b[..at] + src
  {
  }

  /** A write into the first of two pieces. */
  lemma PutFirst(a: seq<byte>, b: seq<byte>, at: nat, src: seq<byte>)
    requires at + |src| <= |a|
    ensures Put(a + b, at, src) == Put(a, at, src) + b
  {
  }

  /** memcpy into an array. */
  method MemCpy(dst: array<byte>, at: nat, src: seq<byte>)
    requires at + |src| <= dst.Length
    modifies dst
    ensures dst[..] == Put(old(dst[..]), at, src)
  {
    forall i | 0 <= i < |src| {
      dst[at + i] := src[i];
    }
  }
}
