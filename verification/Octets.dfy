/** Bytes as the flash stores them, and the numbers and words they hold, lowest byte first. */
module Octets {
  import opened Arithmetic

  // The number in a byte is its bits added up. The conversions between int and bit-vectors would say the same at a
  // far higher price.

  function Bit(b: bv8, place: bv8): nat {
    if b & place != 0 then 1 else 0
  }

  function Value(b: bv8): nat {
    Bit(b, 1) + 2 * Bit(b, 2) + 4 * Bit(b, 4) + 8 * Bit(b, 8)
    + 16 * Bit(b, 16) + 32 * Bit(b, 32) + 64 * Bit(b, 64) + 128 * Bit(b, 128)
  }

  function Only(on: bool, place: bv8): bv8 {
    if on then place else 0
  }

  function Packed(b0: bool, b1: bool, b2: bool, b3: bool, b4: bool, b5: bool, b6: bool, b7: bool): bv8 {
    Only(b0, 1) | Only(b1, 2) | Only(b2, 4) | Only(b3, 8) | Only(b4, 16) | Only(b5, 32) | Only(b6, 64) | Only(b7, 128)
  }

  function Half(n: nat): nat {
    n / 2
  }

  predicate Odd(n: nat) {
    n % 2 == 1
  }

  function One(b: bool): nat {
    if b then 1 else 0
  }

  /** The low eight bits of a number, as a C conversion to uint8_t keeps them. */
  function Byte(n: nat): bv8 {
    var n1 := Half(n);
    var n2 := Half(n1);
    var n3 := Half(n2);
    var n4 := Half(n3);
    var n5 := Half(n4);
    var n6 := Half(n5);
    var n7 := Half(n6);
    Packed(Odd(n), Odd(n1), Odd(n2), Odd(n3), Odd(n4), Odd(n5), Odd(n6), Odd(n7))
  }

  lemma PackedValue(b0: bool, b1: bool, b2: bool, b3: bool, b4: bool, b5: bool, b6: bool, b7: bool)
    ensures Value(Packed(b0, b1, b2, b3, b4, b5, b6, b7))
         == One(b0) + 2 * One(b1) + 4 * One(b2) + 8 * One(b3)
             + 16 * One(b4) + 32 * One(b5) + 64 * One(b6) + 128 * One(b7)
  {
  }

  lemma Halves(n: nat)
    ensures n == 2 * Half(n) + One(Odd(n))
  {
  }

  lemma ByteValue(n: nat)
    ensures Value(Byte(n)) == n % 256
  {
    hide Packed, Value, Half, Odd;
    var n1 := Half(n);
    var n2 := Half(n1);
    var n3 := Half(n2);
    var n4 := Half(n3);
    var n5 := Half(n4);
    var n6 := Half(n5);
    var n7 := Half(n6);
    PackedValue(Odd(n), Odd(n1), Odd(n2), Odd(n3), Odd(n4), Odd(n5), Odd(n6), Odd(n7));
    Halves(n);
    Halves(n1);
    Halves(n2);
    Halves(n3);
    Halves(n4);
    Halves(n5);
    Halves(n6);
    Halves(n7);
    assert n == 256 * Half(n7) + Value(Byte(n));
    OneQuotient(n, 256, Half(n7), Value(Byte(n)));
  }

  // ----- Four bytes as a number -----

  function Number(s: seq<bv8>): nat
    requires |s| == 4
  {
    Value(s[0]) + 256 * Value(s[1]) + 65536 * Value(s[2]) + 0x100_0000 * Value(s[3])
  }

  function NumberBytes(n: nat): (s: seq<bv8>)
    ensures |s| == 4
  {
    [Byte(n), Byte(n / 256), Byte(n / 65536), Byte(n / 0x100_0000)]
  }

  lemma ThreeBytes(offset: nat)
    ensures offset / 65536 % 256 * 65536 + offset / 256 % 256 * 256 + offset % 256 == offset % 0x100_0000
  {
    var low, rest := offset % 256, offset / 256;
    var mid, high := rest % 256, rest / 256;
    OneQuotient(offset, 65536, high, mid * 256 + low);
    OneQuotient(offset, 0x100_0000, high / 256, high % 256 * 65536 + mid * 256 + low);
  }

  lemma FourBytes(n: nat)
    ensures n % 256 + 256 * (n / 256 % 256) + 65536 * (n / 65536 % 256) + 0x100_0000 * (n / 0x100_0000 % 256)
         == n % 0x1_0000_0000
  {
    var m := n / 256;
    ThreeBytes(m);
    Shifted(n);
    LowByte(n, m, m % 0x100_0000);
  }

  lemma Shifted(n: nat)
    ensures n / 256 / 65536 == n / 0x100_0000 && n / 256 / 256 == n / 65536
  {
  }

  lemma LowByte(n: nat, m: nat, low: nat)
    requires m == n / 256 && low == m % 0x100_0000
    ensures n % 0x1_0000_0000 == 256 * low + n % 256
  {
    assert n == 0x1_0000_0000 * (m / 0x100_0000) + (256 * low + n % 256);
  }

  lemma NumberBack(n: nat)
    ensures Number(NumberBytes(n)) == n % 0x1_0000_0000
  {
    hide Byte, Value;
    ByteValue(n);
    ByteValue(n / 256);
    ByteValue(n / 65536);
    ByteValue(n / 0x100_0000);
    FourBytes(n);
  }

  // ----- Four bytes as a 32-bit word -----

  function Word(s: seq<bv8>): bv32
    requires |s| == 4
  {
    (s[0] as bv32) | ((s[1] as bv32) << 8) | ((s[2] as bv32) << 16) | ((s[3] as bv32) << 24)
  }

  function WordBytes(w: bv32): (s: seq<bv8>)
    ensures |s| == 4
  {
    [(w & 0xFF) as bv8, ((w >> 8) & 0xFF) as bv8, ((w >> 16) & 0xFF) as bv8, ((w >> 24) & 0xFF) as bv8]
  }

  lemma WordBack(w: bv32)
    ensures Word(WordBytes(w)) == w
  {
  }
}
