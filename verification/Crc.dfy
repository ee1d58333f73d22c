/** The boot image's checksum (spi_update/update.c) and what it detects. */
module Crc {

  const POLY: bv32 := 0x04C1_1DB7

  /** One turn of the loop in get_fcs: the polynomial is added before the shift. */
  function Step(fcs: bv32): bv32 {
    (if fcs & 1 == 1 then fcs ^ POLY else fcs) >> 1
  }

  function Steps(fcs: bv32, n: nat): bv32 {
    if n == 0 then fcs else Step(Steps(fcs, n - 1))
  }

  /** Addition over GF(2); a function of its own so that proofs can treat it as one. */
  function Xor(a: bv32, b: bv32): bv32 {
    a ^ b
  }

  function Word(data: bv8): bv32 {
    data as bv32
  }

  function Fcs(fcs: bv32, data: bv8): bv32 {
    Steps(Xor(fcs, Word(data)), 8)
  }

  /** The checksum of an image. */
  function Crc(image: seq<bv8>): bv32 {
    Fold(0, image)
  }

  function Fold(fcs: bv32, image: seq<bv8>): bv32 {
    if image == [] then fcs else Fcs(Fold(fcs, image[..|image| - 1]), image[|image| - 1])
  }

  method Turn(fcs: bv32) returns (r: bv32)
    ensures r == Step(fcs)
  {
    hide Step;
    r := fcs;
    LowBits(fcs, fcs);
    if r & 1 == 1 {
      StepOdd(fcs);
      r := r ^ POLY;
    } else {
      StepEven(fcs);
    }
    r := r >> 1;
  }

  method GetFcs(fcs: bv32, data: bv8) returns (r: bv32)
    ensures r == Fcs(fcs, data)
  {
    hide Step;
    r := fcs ^ (data as bv32);
    ghost var start := r;
    for i := 0 to 8
      invariant r == Steps(start, i)
    {
      r := Turn(r);
    }
  }

  // ----- The step is a bijection of the 26-bit states, and linear -----

  ghost predicate Reduced(fcs: bv32) {
    fcs < 0x0400_0000
  }

  lemma StepReduced(a: bv32)
    requires Reduced(a)
    ensures Reduced(Step(a))
  {
  }

  lemma StepInjective(a: bv32, b: bv32)
    requires Reduced(a) && Reduced(b) && Step(a) == Step(b)
    ensures a == b
  {
  }

  lemma StepEven(a: bv32)
    requires a & 1 == 0
    ensures Step(a) == a >> 1
  {
  }

  lemma StepOdd(a: bv32)
    requires a & 1 == 1
    ensures Step(a) == (a ^ POLY) >> 1
  {
  }

  lemma LowBits(a: bv32, b: bv32)
    ensures a & 1 == 0 || a & 1 == 1
    ensures (a ^ b) & 1 == if a & 1 == b & 1 then 0 else 1
  {
  }

  lemma LowBitOfSum(a: bv32, y: bv32)
    ensures (a ^ (y << 1)) & 1 == a & 1
  {
  }

  lemma ShiftedSum(a: bv32, y: bv32)
    requires y < 0x8000_0000
    ensures (a ^ (y << 1)) >> 1 == (a >> 1) ^ y
    ensures ((a ^ (y << 1)) ^ POLY) >> 1 == ((a ^ POLY) >> 1) ^ y
  {
  }

  lemma StepShiftOdd(a: bv32, y: bv32)
    requires y < 0x8000_0000 && a & 1 == 1
    ensures Step(a ^ (y << 1)) == Step(a) ^ y
  {
    hide Step;
    calc {
      Step(a ^ (y << 1));
    == { LowBitOfSum(a, y); StepOdd(a ^ (y << 1)); }
      ((a ^ (y << 1)) ^ POLY) >> 1;
    == { ShiftedSum(a, y); }
      ((a ^ POLY) >> 1) ^ y;
    == { StepOdd(a); }
      Step(a) ^ y;
    }
  }

  lemma StepShiftEven(a: bv32, y: bv32)
    requires y < 0x8000_0000 && a & 1 == 0
    ensures Step(a ^ (y << 1)) == Step(a) ^ y
  {
    hide Step;
    calc {
      Step(a ^ (y << 1));
    == { LowBitOfSum(a, y); StepEven(a ^ (y << 1)); }
      (a ^ (y << 1)) >> 1;
    == { ShiftedSum(a, y); }
      (a >> 1) ^ y;
    == { StepEven(a); }
      Step(a) ^ y;
    }
  }

  /** Low zero bits are shifted out untouched. */
  lemma StepShift(a: bv32, y: bv32)
    requires Clear(y)
    ensures Step(Xor(a, Twice(y))) == Xor(Step(a), y)
  {
    hide Step;
    LowBits(a, a);
    if a & 1 == 1 {
      StepShiftOdd(a, y);
    } else {
      StepShiftEven(a, y);
    }
  }

  lemma LinearEvenEven(a: bv32, b: bv32)
    requires a & 1 == 0 && b & 1 == 0
    ensures Step(a ^ b) == Step(a) ^ Step(b)
  {
  }

  lemma XorPolyBoth(a: bv32, b: bv32)
    ensures (a ^ b) >> 1 == ((a ^ POLY) >> 1) ^ ((b ^ POLY) >> 1)
  {
  }

  lemma LinearOddOdd(a: bv32, b: bv32)
    requires a & 1 == 1 && b & 1 == 1
    ensures Step(a ^ b) == Step(a) ^ Step(b)
  {
    hide Step;
    calc {
      Step(a ^ b);
    == { LowBits(a, b); StepEven(a ^ b); }
      (a ^ b) >> 1;
    == { XorPolyBoth(a, b); }
      ((a ^ POLY) >> 1) ^ ((b ^ POLY) >> 1);
    == { StepOdd(a); StepOdd(b); }
      Step(a) ^ Step(b);
    }
  }

  lemma XorPolyOne(a: bv32, b: bv32)
    ensures ((a ^ b) ^ POLY) >> 1 == ((a ^ POLY) >> 1) ^ (b >> 1)
  {
  }

  lemma LinearOddEven(a: bv32, b: bv32)
    requires a & 1 == 1 && b & 1 == 0
    ensures Step(a ^ b) == Step(a) ^ Step(b)
  {
    hide Step;
    calc {
      Step(a ^ b);
    == { LowBits(a, b); StepOdd(a ^ b); }
      ((a ^ b) ^ POLY) >> 1;
    == { XorPolyOne(a, b); }
      ((a ^ POLY) >> 1) ^ (b >> 1);
    == { StepOdd(a); StepEven(b); }
      Step(a) ^ Step(b);
    }
  }

  lemma XorCommutes(a: bv32, b: bv32)
    ensures a ^ b == b ^ a
  {
  }

  lemma StepLinear(a: bv32, b: bv32)
    ensures Step(Xor(a, b)) == Xor(Step(a), Step(b))
  {
    hide Step;
    LowBits(a, b);
    LowBits(b, a);
    if a & 1 == 0 && b & 1 == 0 {
      LinearEvenEven(a, b);
    } else if a & 1 == 1 && b & 1 == 1 {
      LinearOddOdd(a, b);
    } else if a & 1 == 1 {
      LinearOddEven(a, b);
    } else {
      LinearOddEven(b, a);
      XorCommutes(a, b);
      XorCommutes(Step(a), Step(b));
    }
  }

  lemma {:induction false} StepsLinear(a: bv32, b: bv32, n: nat)
    ensures Steps(Xor(a, b), n) == Xor(Steps(a, n), Steps(b, n))
  {
    hide Step, Xor;
    if n > 0 {
      StepsLinear(a, b, n - 1);
      StepLinear(Steps(a, n - 1), Steps(b, n - 1));
    }
  }

  lemma {:induction false} StepsReduced(a: bv32, n: nat)
    requires Reduced(a)
    ensures Reduced(Steps(a, n))
  {
    hide Step;
    if n > 0 {
      StepsReduced(a, n - 1);
      StepReduced(Steps(a, n - 1));
    }
  }

  lemma {:induction false} StepsInjective(a: bv32, b: bv32, n: nat)
    requires Reduced(a) && Reduced(b) && Steps(a, n) == Steps(b, n)
    ensures a == b
  {
    hide Step, Reduced;
    if n > 0 {
      StepsReduced(a, n - 1);
      StepsReduced(b, n - 1);
      StepInjective(Steps(a, n - 1), Steps(b, n - 1));
      StepsInjective(a, b, n - 1);
    }
  }

  lemma {:induction false} StepsSplit(a: bv32, m: nat, n: nat)
    ensures Steps(Steps(a, m), n) == Steps(a, m + n)
  {
    hide Step;
    if n > 0 {
      StepsSplit(a, m, n - 1);
    }
  }

  // ----- Whole images -----

  lemma DataReduced(fcs: bv32, data: bv8)
    requires Reduced(fcs)
    ensures Reduced(Xor(fcs, Word(data)))
  {
  }

  /** The checksum keeps to 26 bits. */
  lemma {:induction false} FoldReduced(fcs: bv32, image: seq<bv8>)
    requires Reduced(fcs)
    ensures Reduced(Fold(fcs, image))
  {
    hide Reduced, Steps, Xor, Word;
    if image != [] {
      var before, last := Fold(fcs, image[..|image| - 1]), image[|image| - 1];
      FoldReduced(fcs, image[..|image| - 1]);
      DataReduced(before, last);
      StepsReduced(Xor(before, Word(last)), 8);
    }
  }

  lemma XorCancels(a: bv32, b: bv32, x: bv32)
    requires Xor(a, x) == Xor(b, x)
    ensures a == b
  {
  }

  lemma FcsInjective(a: bv32, b: bv32, data: bv8)
    requires Reduced(a) && Reduced(b) && Fcs(a, data) == Fcs(b, data)
    ensures a == b
  {
    hide Steps, Reduced, Xor, Word;
    DataReduced(a, data);
    DataReduced(b, data);
    StepsInjective(Xor(a, Word(data)), Xor(b, Word(data)), 8);
    XorCancels(a, b, Word(data));
  }

  /** No two states meet again, whatever image follows. */
  lemma {:induction false} FoldInjective(a: bv32, b: bv32, image: seq<bv8>)
    requires Reduced(a) && Reduced(b) && Fold(a, image) == Fold(b, image)
    ensures a == b
  {
    hide Reduced, Fcs;
    if image != [] {
      var front, last := image[..|image| - 1], image[|image| - 1];
      FoldReduced(a, front);
      FoldReduced(b, front);
      FcsInjective(Fold(a, front), Fold(b, front), last);
      FoldInjective(a, b, front);
    }
  }

  lemma {:induction false} FoldAppend(fcs: bv32, x: seq<bv8>, y: seq<bv8>)
    ensures Fold(fcs, x + y) == Fold(Fold(fcs, x), y)
  {
    if y == [] {
      assert x + y == x;
    } else {
      assert (x + y)[..|x + y| - 1] == x + y[..|y| - 1];
      FoldAppend(fcs, x, y[..|y| - 1]);
    }
  }

  /** The images added byte by byte. */
  function Sum(x: seq<bv8>, y: seq<bv8>): (s: seq<bv8>)
    requires |x| == |y|
    ensures |s| == |x|
  {
    if x == [] then [] else Sum(x[..|x| - 1], y[..|y| - 1]) + [x[|x| - 1] ^ y[|y| - 1]]
  }

  lemma Interchange(a: bv32, b: bv32, x: bv8, y: bv8)
    ensures Xor(Xor(a, b), Word(x ^ y)) == Xor(Xor(a, Word(x)), Xor(b, Word(y)))
  {
  }

  lemma FcsLinear(a: bv32, b: bv32, x: bv8, y: bv8)
    ensures Fcs(Xor(a, b), x ^ y) == Xor(Fcs(a, x), Fcs(b, y))
  {
    hide Steps, Xor, Word;
    Interchange(a, b, x, y);
    StepsLinear(Xor(a, Word(x)), Xor(b, Word(y)), 8);
  }

  /** The checksum of a sum is the sum of the checksums. */
  lemma {:induction false} CrcLinear(x: seq<bv8>, y: seq<bv8>)
    requires |x| == |y|
    ensures Crc(Sum(x, y)) == Xor(Crc(x), Crc(y))
  {
    hide Fcs, Xor;
    if x == [] {
      assert Xor(0, 0) == 0 by {
        XorZero(0);
      }
    } else {
      var fx, fy, n := x[..|x| - 1], y[..|y| - 1], |x| - 1;
      assert Sum(x, y)[..n] == Sum(fx, fy);
      CrcLinear(fx, fy);
      FcsLinear(Crc(fx), Crc(fy), x[n], y[n]);
    }
  }

  lemma XorZero(a: bv32)
    ensures Xor(a, 0) == a
  {
  }

  // ----- Bit by bit -----

  function Twice(y: bv32): bv32 {
    y << 1
  }

  ghost predicate Clear(y: bv32) {
    y < 0x8000_0000
  }

  function One(b: bool): bv32 {
    if b then 1 else 0
  }

  /** The bits of a byte, lowest first. */
  function ByteBits(data: bv8): (b: seq<bool>)
    ensures |b| == 8
  {
    [data & 1 != 0, data & 2 != 0, data & 4 != 0, data & 8 != 0,
     data & 16 != 0, data & 32 != 0, data & 64 != 0, data & 128 != 0]
  }

  /** The bits of an image in the order in which the register takes them. */
  function Bits(image: seq<bv8>): (b: seq<bool>)
    ensures |b| == 8 * |image|
  {
    if image == [] then [] else Bits(image[..|image| - 1]) + ByteBits(image[|image| - 1])
  }

  function BitFold(fcs: bv32, bits: seq<bool>): bv32
    decreases |bits|
  {
    if bits == [] then fcs else BitFold(Step(Xor(fcs, One(bits[0]))), bits[1..])
  }

  /** Bits as a number, the first lowest. */
  function BitWord(bits: seq<bool>): bv32 {
    if bits == [] then 0 else Xor(One(bits[0]), Twice(BitWord(bits[1..])))
  }

  lemma XorAssociates(a: bv32, b: bv32, c: bv32)
    ensures Xor(Xor(a, b), c) == Xor(a, Xor(b, c))
  {
  }

  lemma XorCancelsLeft(a: bv32, x: bv32, y: bv32)
    requires Xor(a, x) == Xor(a, y)
    ensures x == y
  {
  }

  lemma StepsUnder(a: bv32, n: nat)
    requires n > 0
    ensures Steps(a, n) == Steps(Step(a), n - 1)
  {
    hide Step;
    StepsSplit(a, 1, n - 1);
    assert Steps(a, 1) == Step(Steps(a, 0));
  }

  ghost predicate Below(y: bv32, bound: bv32) {
    y < bound
  }

  lemma Doubled(y: bv32, bound: bv32, b: bool)
    requires Below(y, bound) && Clear(bound)
    ensures Below(Xor(One(b), Twice(y)), Twice(bound))
  {
  }

  /** Words of so many bits are below it. */
  function Limit(n: nat): bv32 {
    if n == 0 then 1 else Twice(Limit(n - 1))
  }

  lemma LimitAt(n: nat)
    requires n <= 26
    ensures Limit(n) <= 0x0400_0000
  {
    assert Limit(0) == 1 && Limit(1) == 2 && Limit(2) == 4 && Limit(3) == 8 && Limit(4) == 0x10;
    assert Limit(5) == 0x20 && Limit(6) == 0x40 && Limit(7) == 0x80 && Limit(8) == 0x100 && Limit(9) == 0x200;
    assert Limit(10) == 0x400 && Limit(11) == 0x800 && Limit(12) == 0x1000 && Limit(13) == 0x2000;
    assert Limit(14) == 0x4000 && Limit(15) == 0x8000 && Limit(16) == 0x1_0000 && Limit(17) == 0x2_0000;
    assert Limit(18) == 0x4_0000 && Limit(19) == 0x8_0000 && Limit(20) == 0x10_0000 && Limit(21) == 0x20_0000;
    assert Limit(22) == 0x40_0000 && Limit(23) == 0x80_0000 && Limit(24) == 0x100_0000 && Limit(25) == 0x200_0000;
    assert Limit(26) == 0x400_0000;
  }

  lemma LimitClear(n: nat)
    requires n < 26
    ensures Clear(Limit(n))
  {
    LimitAt(n);
  }

  lemma LimitReduces(n: nat, y: bv32)
    requires n <= 26 && Below(y, Limit(n))
    ensures Reduced(y) && Clear(y)
  {
    LimitAt(n);
  }

  lemma {:induction false} WordLimited(bits: seq<bool>)
    requires |bits| <= 26
    ensures Below(BitWord(bits), Limit(|bits|))
  {
    hide Twice, Xor, One, Clear;
    if bits == [] {
      assert BitWord(bits) == 0 && Limit(0) == 1;
    } else {
      hide Below;
      WordLimited(bits[1..]);
      LimitClear(|bits| - 1);
      Doubled(BitWord(bits[1..]), Limit(|bits| - 1), bits[0]);
    }
  }

  lemma WordReduced(bits: seq<bool>)
    requires |bits| <= 26
    ensures Reduced(BitWord(bits)) && Clear(BitWord(bits))
  {
    WordLimited(bits);
    LimitReduces(|bits|, BitWord(bits));
  }

  /** Up to 26 bits taken one by one are their word taken at once. */
  lemma {:induction false} BitsAtOnce(a: bv32, bits: seq<bool>)
    requires |bits| <= 26
    ensures BitFold(a, bits) == Steps(Xor(a, BitWord(bits)), |bits|)
    decreases |bits|
  {
    hide Step, Xor, Twice, Clear;
    if bits == [] {
      XorZero(a);
    } else {
      var first, rest := One(bits[0]), bits[1..];
      BitsAtOnce(Step(Xor(a, first)), rest);
      WordReduced(rest);
      StepShift(Xor(a, first), BitWord(rest));
      XorAssociates(a, first, Twice(BitWord(rest)));
      StepsUnder(Xor(a, BitWord(bits)), |bits|);
    }
  }

  lemma FirstBit(b: bool, y: bv32, b': bool, y': bv32)
    requires Clear(y) && Clear(y') && Xor(One(b), Twice(y)) == Xor(One(b'), Twice(y'))
    ensures b == b' && y == y'
  {
  }

  lemma {:induction false} BitWordInjective(x: seq<bool>, y: seq<bool>)
    requires |x| == |y| <= 26 && BitWord(x) == BitWord(y)
    ensures x == y
  {
    hide Xor, Twice, Clear, One;
    if x != [] {
      WordReduced(x[1..]);
      WordReduced(y[1..]);
      FirstBit(x[0], BitWord(x[1..]), y[0], BitWord(y[1..]));
      BitWordInjective(x[1..], y[1..]);
      assert x == [x[0]] + x[1..] && y == [y[0]] + y[1..];
    }
  }

  lemma BitReduced(a: bv32, b: bool)
    requires Reduced(a)
    ensures Reduced(Xor(a, One(b)))
  {
  }

  lemma {:induction false} BitFoldReduced(a: bv32, bits: seq<bool>)
    requires Reduced(a)
    ensures Reduced(BitFold(a, bits))
    decreases |bits|
  {
    hide Reduced, Xor, Step, One;
    if bits != [] {
      BitReduced(a, bits[0]);
      StepReduced(Xor(a, One(bits[0])));
      BitFoldReduced(Step(Xor(a, One(bits[0]))), bits[1..]);
    }
  }

  lemma {:induction false} BitFoldInjective(a: bv32, b: bv32, bits: seq<bool>)
    requires Reduced(a) && Reduced(b) && BitFold(a, bits) == BitFold(b, bits)
    ensures a == b
    decreases |bits|
  {
    hide Reduced, Xor, Step, One;
    if bits != [] {
      var x, y := Xor(a, One(bits[0])), Xor(b, One(bits[0]));
      BitReduced(a, bits[0]);
      BitReduced(b, bits[0]);
      StepReduced(x);
      StepReduced(y);
      BitFoldInjective(Step(x), Step(y), bits[1..]);
      StepInjective(x, y);
      XorCancels(a, b, One(bits[0]));
    }
  }

  lemma {:induction false} BitFoldAppend(a: bv32, x: seq<bool>, y: seq<bool>)
    ensures BitFold(a, x + y) == BitFold(BitFold(a, x), y)
    decreases |x|
  {
    hide Step, Xor, One;
    if x == [] {
      assert x + y == y;
    } else {
      assert (x + y)[0] == x[0] && (x + y)[1..] == x[1..] + y;
      BitFoldAppend(Step(Xor(a, One(x[0]))), x[1..], y);
    }
  }

  lemma ByteWord(data: bv8)
    ensures BitWord(ByteBits(data)) == Word(data)
  {
    hide Xor, Twice, One, ByteBits;
    var b := ByteBits(data);
    WordTail(b, 0);
    WordTail(b, 1);
    WordTail(b, 2);
    WordTail(b, 3);
    WordTail(b, 4);
    WordTail(b, 5);
    WordTail(b, 6);
    WordTail(b, 7);
    ByteSum(data);
  }

  lemma WordTail(b: seq<bool>, i: nat)
    requires i < |b|
    ensures BitWord(b[i..]) == Xor(One(b[i]), Twice(BitWord(b[i + 1..])))
    ensures b[0..] == b && BitWord(b[|b|..]) == 0
  {
    assert b[i..][1..] == b[i + 1..];
  }

  /** A byte is its bits, each shifted to its place. */
  lemma ByteSum(data: bv8)
    ensures var b := ByteBits(data);
            Xor(One(b[0]), Twice(Xor(One(b[1]), Twice(Xor(One(b[2]), Twice(Xor(One(b[3]),
              Twice(Xor(One(b[4]), Twice(Xor(One(b[5]), Twice(Xor(One(b[6]),
                Twice(Xor(One(b[7]), Twice(0))))))))))))))))
            == Word(data)
  {
  }

  /** The register takes the bits of an image one by one. */
  lemma {:induction false} FoldBits(a: bv32, image: seq<bv8>)
    ensures Fold(a, image) == BitFold(a, Bits(image))
  {
    hide Steps, Xor, BitFold, BitWord, ByteBits, Word;
    if image == [] {
      BitFoldNone(a);
    } else {
      var front, last := image[..|image| - 1], image[|image| - 1];
      FoldBits(a, front);
      BitFoldAppend(a, Bits(front), ByteBits(last));
      BitsAtOnce(Fold(a, front), ByteBits(last));
      ByteWord(last);
    }
  }

  lemma BitFoldNone(a: bv32)
    ensures BitFold(a, []) == a
  {
  }

  lemma ByteBitsInjective(x: bv8, y: bv8)
    requires ByteBits(x) == ByteBits(y)
    ensures x == y
  {
    hide BitWord, ByteBits;
    ByteWord(x);
    ByteWord(y);
  }

  lemma {:induction false} BitsInjective(x: seq<bv8>, y: seq<bv8>)
    requires |x| == |y| && Bits(x) == Bits(y)
    ensures x == y
  {
    hide ByteBits;
    if x != [] {
      var n := |x| - 1;
      assert Bits(x)[..8 * n] == Bits(x[..n]) && Bits(y)[..8 * n] == Bits(y[..n]);
      assert Bits(x)[8 * n..] == ByteBits(x[n]) && Bits(y)[8 * n..] == ByteBits(y[n]);
      BitsInjective(x[..n], y[..n]);
      ByteBitsInjective(x[n], y[n]);
      assert x == x[..n] + [x[n]] && y == y[..n] + [y[n]];
    }
  }

  // ----- Error detection -----

  /** Two streams of bits that differ only within a burst leave the same state only if they are the same. */
  lemma BurstInside(front: seq<bool>, x: seq<bool>, y: seq<bool>, rest: seq<bool>)
    requires |x| == |y| <= 26 && BitFold(0, front + x + rest) == BitFold(0, front + y + rest)
    ensures x == y
  {
    hide BitFold, Reduced, Steps, Xor, BitWord;
    var s := BitFold(0, front);
    BitFoldAppend(0, front + x, rest);
    BitFoldAppend(0, front + y, rest);
    BitFoldAppend(0, front, x);
    BitFoldAppend(0, front, y);
    ReducedZero();
    BitFoldReduced(0, front);
    BitFoldReduced(s, x);
    BitFoldReduced(s, y);
    BitFoldInjective(BitFold(s, x), BitFold(s, y), rest);
    BitsAtOnce(s, x);
    BitsAtOnce(s, y);
    WordReduced(x);
    WordReduced(y);
    SumReduced(s, BitWord(x));
    SumReduced(s, BitWord(y));
    StepsInjective(Xor(s, BitWord(x)), Xor(s, BitWord(y)), |x|);
    XorCancelsLeft(s, BitWord(x), BitWord(y));
    BitWordInjective(x, y);
  }

  lemma AgreeOutside(x: seq<bool>, y: seq<bool>, at: nat, to: nat)
    requires |x| == |y| && at <= to <= |x| && forall i | 0 <= i < |x| && x[i] != y[i] :: at <= i < to
    ensures x == x[..at] + x[at..to] + x[to..] && y == x[..at] + y[at..to] + x[to..]
  {
    assert x[..at] == y[..at] && x[to..] == y[to..];
  }

  lemma SumReduced(a: bv32, b: bv32)
    requires Reduced(a) && Reduced(b)
    ensures Reduced(Xor(a, b))
  {
  }

  lemma ReducedZero()
    ensures Reduced(0)
  {
  }

  /** The images differ only within so many consecutive bits. */
  ghost predicate Burst(image: seq<bv8>, other: seq<bv8>, from: nat, width: nat) {
    && |image| == |other|
    && forall i | 0 <= i < 8 * |image| && Bits(image)[i] != Bits(other)[i] :: from <= i < from + width
  }

  /** Two images of the same length that differ, but only within 26 consecutive bits, never have the same checksum. */
  lemma DetectsBurst(image: seq<bv8>, other: seq<bv8>, from: nat)
    requires Burst(image, other, from, 26)
    ensures Crc(image) == Crc(other) <==> image == other
  {
    hide Fold, BitFold, Bits;
    var x, y := Bits(image), Bits(other);
    if Crc(image) == Crc(other) {
      FoldBits(0, image);
      FoldBits(0, other);
      var at := if from < |x| then from else |x|;
      var to := if from + 26 < |x| then from + 26 else |x|;
      AgreeOutside(x, y, at, to);
      BurstInside(x[..at], x[at..to], y[at..to], x[to..]);
      BitsInjective(image, other);
    }
  }

  lemma Chain(x0: bv32, x1: bv32, x2: bv32, x3: bv32, x4: bv32, x5: bv32, x6: bv32, x7: bv32, x8: bv32)
    requires Step(x0) == x1 && Step(x1) == x2 && Step(x2) == x3 && Step(x3) == x4
    requires Step(x4) == x5 && Step(x5) == x6 && Step(x6) == x7 && Step(x7) == x8
    ensures Steps(x0, 8) == x8
  {
    hide Step;
    assert Steps(x0, 1) == x1 && Steps(x0, 2) == x2;
    assert Steps(x0, 3) == x3 && Steps(x0, 4) == x4;
    assert Steps(x0, 5) == x5 && Steps(x0, 6) == x6;
    assert Steps(x0, 7) == x7;
  }

  lemma FirstByte()
    ensures Fcs(0x0, 0xB7) == 0x4C11D
  {
    Chain(0xB7, 0x2608E80, 0x1304740, 0x9823A0, 0x4C11D0,
          0x2608E8, 0x130474, 0x9823A, 0x4C11D);
    hide Step, Steps;
    assert Xor(0x0, Word(0xB7)) == 0xB7;
  }

  lemma SecondByte()
    ensures Fcs(0x4C11D, 0x1D) == 0x4C1
  {
    Chain(0x4C100, 0x26080, 0x13040, 0x9820, 0x4C10,
          0x2608, 0x1304, 0x982, 0x4C1);
    hide Step, Steps;
    assert Xor(0x4C11D, Word(0x1D)) == 0x4C100;
  }

  lemma ThirdByte()
    ensures Fcs(0x4C1, 0xC1) == 0x4
  {
    Chain(0x400, 0x200, 0x100, 0x80, 0x40,
          0x20, 0x10, 0x8, 0x4);
    hide Step, Steps;
    assert Xor(0x4C1, Word(0xC1)) == 0x400;
  }

  lemma FourthByte()
    ensures Fcs(0x4, 0x04) == 0x0
  {
    Chain(0x0, 0x0, 0x0, 0x0, 0x0,
          0x0, 0x0, 0x0, 0x0);
    hide Step, Steps;
    assert Xor(0x4, Word(0x04)) == 0x0;
  }

  lemma ZeroByte()
    ensures Fcs(0, 0) == 0
  {
    Chain(0, 0, 0, 0, 0, 0, 0, 0, 0);
    hide Step, Steps;
    assert Xor(0, Word(0)) == 0;
  }

  lemma FoldFour(a: bv8, b: bv8, c: bv8, d: bv8)
    ensures Fold(0, [a, b, c, d]) == Fcs(Fcs(Fcs(Fcs(0, a), b), c), d)
    ensures Bits([a, b, c, d]) == ByteBits(a) + ByteBits(b) + ByteBits(c) + ByteBits(d)
  {
    hide Fcs, ByteBits;
    assert [a, b, c, d][..3] == [a, b, c] && [a, b, c][..2] == [a, b] && [a, b][..1] == [a];
    assert Fold(0, [a]) == Fcs(0, a);
    assert Fold(0, [a, b]) == Fcs(Fcs(0, a), b);
    assert Bits([]) + ByteBits(a) == ByteBits(a);
    assert Bits([a, b]) == Bits([a]) + ByteBits(b);
  }

  lemma TopBits()
    ensures ByteBits(0x04)[3..] == ByteBits(0)[3..]
  {
  }

  /** The polynomial itself is a burst of 27 bits, and goes unnoticed. */
  lemma Unnoticed()
    ensures Crc([0xB7, 0x1D, 0xC1, 0x04]) == Crc([0, 0, 0, 0])
    ensures Burst([0xB7, 0x1D, 0xC1, 0x04], [0, 0, 0, 0], 0, 27)
  {
    FoldFour(0xB7, 0x1D, 0xC1, 0x04);
    FoldFour(0, 0, 0, 0);
    TopBits();
    hide Fcs, Bits, Fold, ByteBits;
    FirstByte();
    SecondByte();
    ThirdByte();
    FourthByte();
    ZeroByte();
  }

  /** So the checksum notices every burst of up to so many bits exactly if these are 26 at most. */
  lemma BurstExact(width: nat)
    ensures (forall image, other, from | Burst(image, other, from, width) && Crc(image) == Crc(other) :: image == other)
            <==> width <= 26
  {
    hide Crc, Bits;
    if width <= 26 {
      forall image, other, from | Burst(image, other, from, width) && Crc(image) == Crc(other) ensures image == other {
        assert Burst(image, other, from, 26);
        DetectsBurst(image, other, from);
      }
    } else {
      Unnoticed();
      assert Burst([0xB7, 0x1D, 0xC1, 0x04], [0, 0, 0, 0], 0, width);
    }
  }
}
