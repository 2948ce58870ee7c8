/** CRC-32 (section 8 of RFC 1952): the table-driven loop against bit-at-a-time division by the
    reflected polynomial, and the errors that the checksum is sure to detect. */
module Crc32 {
  import opened Sequences

  const POLYNOMIAL: bv32 := 0xEDB8_8320
  const ONES: bv32 := 0xFFFF_FFFF

  // ---------------------------------------------------------------- words

  // The operators on words have names, so that proofs about sequences of steps can hide them.
  function Xor(x: bv32, y: bv32): bv32 { x ^ y }

  function Half(x: bv32): bv32 { x >> 1 }

  predicate Odd(x: bv32) { x & 1 == 1 }

  function Double(x: bv32): bv32 { x << 1 }

  function And(x: bv32, y: bv32): bv32 { x & y }

  predicate Top(x: bv32) { And(x, 0x8000_0000) != 0 }

  function Flip(x: bv32, bit: bool): bv32 { if bit then Xor(x, 1) else x }

  lemma XorTwice(x: bv32, y: bv32)
    ensures Xor(Xor(x, y), y) == x
  {
  }

  lemma XorZero(x: bv32)
    ensures Xor(x, 0) == x
  {
  }

  // ---------------------------------------------------------------- division, bit by bit

  /** The register moves on by one bit; a bit shifted out subtracts the polynomial. */
  function Shift(c: bv32): bv32 {
    if Odd(c) then Xor(POLYNOMIAL, Half(c)) else Half(c)
  }

  function Step(c: bv32, bit: bool): bv32 {
    Shift(Flip(c, bit))
  }

  function Feed(c: bv32, bits: seq<bool>): bv32
    decreases |bits|
  {
    if bits == [] then c else Feed(Step(c, bits[0]), bits[1..])
  }

  /** The n lowest bits of a word, least significant first. */
  function LowBits(x: bv32, n: nat): (bits: seq<bool>)
    ensures |bits| == n
    decreases n, x
  {
    if n == 0 then [] else [Odd(x)] + LowBits(Half(x), n - 1)
  }

  function MessageBits(data: seq<bv8>): (bits: seq<bool>)
    ensures |bits| == 8 * |data|
  {
    if data == [] then [] else LowBits(data[0] as bv32, 8) + MessageBits(data[1..])
  }

  function Crc(start: bv32, data: seq<bv8>): bv32 {
    Xor(Feed(Xor(start, ONES), MessageBits(data)), ONES)
  }

  lemma {:induction false} FeedConcat(c: bv32, a: seq<bool>, b: seq<bool>)
    ensures Feed(c, a + b) == Feed(Feed(c, a), b)
    decreases |a|
  {
    hide Step;
    if a == [] {
      assert a + b == b;
    } else {
      FeedConcat(Step(c, a[0]), a[1..], b);
      assert (a + b)[1..] == a[1..] + b;
    }
  }

  lemma {:induction false} MessageBitsConcat(a: seq<bv8>, b: seq<bv8>)
    ensures MessageBits(a + b) == MessageBits(a) + MessageBits(b)
  {
    hide LowBits;
    if a == [] {
      assert a + b == b;
    } else {
      MessageBitsConcat(a[1..], b);
      assert (a + b)[1..] == a[1..] + b;
      Assoc(LowBits(a[0] as bv32, 8), MessageBits(a[1..]), MessageBits(b));
    }
  }

  /** A message may be checked in pieces. */
  lemma CrcConcat(start: bv32, a: seq<bv8>, b: seq<bv8>)
    ensures Crc(Crc(start, a), b) == Crc(start, a + b)
  {
    hide Xor, Feed, MessageBits;
    MessageBitsConcat(a, b);
    FeedConcat(Xor(start, ONES), MessageBits(a), MessageBits(b));
    XorTwice(Feed(Xor(start, ONES), MessageBits(a)), ONES);
  }

  // ---------------------------------------------------------------- eight bits at a time

  function Shifts(c: bv32, n: nat): bv32
    decreases n, c
  {
    if n == 0 then c else Shifts(Shift(c), n - 1)
  }

  function Halves(x: bv32, n: nat): bv32
    decreases n, x
  {
    if n == 0 then x else Halves(Half(x), n - 1)
  }

  /** Bits that are not shifted out yet only move. */
  lemma ShiftPending(x: bv32, y: bv32)
    requires !Odd(y)
    ensures Shift(Xor(x, y)) == Xor(Shift(x), Half(y))
  {
    hide Xor, Half, Odd;
    XorHalf(x, y);
    XorAssoc(POLYNOMIAL, Half(x), Half(y));
  }

  lemma XorHalf(x: bv32, y: bv32)
    ensures Half(Xor(x, y)) == Xor(Half(x), Half(y))
    ensures !Odd(y) ==> Odd(Xor(x, y)) == Odd(x)
  {
  }

  lemma XorAssoc(x: bv32, y: bv32, z: bv32)
    ensures Xor(x, Xor(y, z)) == Xor(Xor(x, y), z)
  {
  }

  lemma WithoutLowest(c: bv32, y: bv32)
    requires Odd(y)
    ensures Xor(Xor(c, 1), Xor(y, 1)) == Xor(c, y) && !Odd(Xor(y, 1)) && Half(Xor(y, 1)) == Half(y)
  {
  }

  /** One bit of input now comes to the same as all the input bits in the register already. */
  lemma StepPending(c: bv32, pending: bv32)
    ensures Shift(Xor(c, pending)) == Xor(Step(c, Odd(pending)), Half(pending))
  {
    hide Xor, Half, Odd, Shift;
    if Odd(pending) {
      WithoutLowest(c, pending);
      ShiftPending(Xor(c, 1), Xor(pending, 1));
    } else {
      ShiftPending(c, pending);
    }
  }

  lemma {:induction false} FeedPending(c: bv32, pending: bv32, n: nat)
    ensures Shifts(Xor(c, pending), n) == Xor(Feed(c, LowBits(pending, n)), Halves(pending, n))
    decreases n
  {
    hide Xor, Half, Odd, Shift, Step;
    if n > 0 {
      StepPending(c, pending);
      FeedPending(Step(c, Odd(pending)), Half(pending), n - 1);
      assert LowBits(pending, n)[1..] == LowBits(Half(pending), n - 1);
    }
  }

  lemma HalvesIs(x: bv32)
    ensures Halves(x, 8) == x >> 8
  {
    assert Halves(x >> 8, 0) == x >> 8;
    assert Halves(x >> 7, 1) == x >> 8;
    assert Halves(x >> 6, 2) == x >> 8;
    assert Halves(x >> 5, 3) == x >> 8;
    assert Halves(x >> 4, 4) == x >> 8;
    assert Halves(x >> 3, 5) == x >> 8;
    assert Halves(x >> 2, 6) == x >> 8;
    assert Halves(x >> 1, 7) == x >> 8;
  }

  lemma ByteFits(c: bv32, u: bv8)
    ensures (u as bv32) >> 8 == 0 && Xor(c, u as bv32) >> 8 == c >> 8
  {
  }

  /** Feeding a byte is shifting eight times with the byte in the register. */
  lemma FeedByte(c: bv32, u: bv8)
    ensures Feed(c, LowBits(u as bv32, 8)) == Shifts(Xor(c, u as bv32), 8)
  {
    hide Xor, Feed, LowBits, Shifts, Halves;
    FeedPending(c, u as bv32, 8);
    HalvesIs(u as bv32);
    ByteFits(c, u);
    XorZero(Feed(c, LowBits(u as bv32, 8)));
  }

  function LowByte(x: bv32): bv32 { x & 0xFF }

  lemma SplitWord(x: bv32)
    ensures Xor(LowByte(x), x & 0xFFFF_FF00) == x && (x & 0xFFFF_FF00) >> 8 == x >> 8
  {
  }

  predicate Clear(x: bv32, n: nat)
    decreases n, x
  {
    n == 0 || (!Odd(x) && Clear(Half(x), n - 1))
  }

  lemma {:induction false} ClearBits(x: bv32, n: nat)
    requires Clear(x, n)
    ensures LowBits(x, n) == LowBits(0, n)
    decreases n
  {
    if n > 0 {
      ClearBits(Half(x), n - 1);
      assert !Odd(0) && Half(0) == 0;
    }
  }

  lemma NoLowBits(x: bv32)
    ensures Clear(x & 0xFFFF_FF00, 8)
  {
    var y := x & 0xFFFF_FF00;
    assert Clear(y >> 8, 0);
    assert Clear(y >> 7, 1);
    assert Clear(y >> 6, 2);
    assert Clear(y >> 5, 3);
    assert Clear(y >> 4, 4);
    assert Clear(y >> 3, 5);
    assert Clear(y >> 2, 6);
    assert Clear(y >> 1, 7);
  }

  lemma {:induction false} FeedNothing(c: bv32, n: nat)
    ensures Feed(c, LowBits(0, n)) == Shifts(c, n)
    decreases n
  {
    hide Shift, Xor;
    if n > 0 {
      assert !Odd(0) && Half(0) == 0;
      FeedNothing(Shift(c), n - 1);
      assert LowBits(0, n)[1..] == LowBits(0, n - 1);
    }
  }

  /** What the table holds, and why it is enough: the other bits of the register only move. */
  function Entry(k: bv32): bv32 { Shifts(k, 8) }

  lemma TableStep(c: bv32, u: bv8)
    ensures Xor(Entry(LowByte(Xor(c, u as bv32))), c >> 8) == Feed(c, LowBits(u as bv32, 8))
  {
    hide Xor, Feed, LowBits, Shifts, Halves, LowByte;
    var x := Xor(c, u as bv32);
    FeedByte(c, u);
    SplitWord(x);
    FeedPending(LowByte(x), x & 0xFFFF_FF00, 8);
    NoLowBits(x);
    ClearBits(x & 0xFFFF_FF00, 8);
    FeedNothing(LowByte(x), 8);
    HalvesIs(x & 0xFFFF_FF00);
    ByteFits(c, u);
  }

  // ---------------------------------------------------------------- the check value

  const DIGITS: seq<bv8> := [0x31, 0x32, 0x33, 0x34, 0x35, 0x36, 0x37, 0x38, 0x39]

  lemma FourShifts(c: bv32, n: nat)
    ensures Shifts(c, n + 4) == Shifts(Shift(Shift(Shift(Shift(c)))), n)
    ensures Shifts(c, 0) == c
  {
    hide Shift;
    assert Shifts(c, n + 4) == Shifts(Shift(c), n + 3) == Shifts(Shift(Shift(c)), n + 2);
    assert Shifts(Shift(Shift(c)), n + 2) == Shifts(Shift(Shift(Shift(c))), n + 1);
  }

  lemma EightShifts(c: bv32)
    ensures Entry(c) == Shift(Shift(Shift(Shift(Shift(Shift(Shift(Shift(c))))))))
  {
    hide Shift, Shifts;
    var d := Shift(Shift(Shift(Shift(c))));
    FourShifts(c, 4);
    FourShifts(d, 0);
    FourShifts(Shift(Shift(Shift(Shift(d)))), 0);
  }

  lemma CheckEntries()
    ensures Entry(0xCE) == 0x7CDC_EFB7
    ensures Entry(0x7A) == 0xB0D0_9822
    ensures Entry(0x01) == 0x7707_3096
    ensures Entry(0x19) == 0x646B_A8C0
    ensures Entry(0xD5) == 0xF6B9_265B
    ensures Entry(0xA9) == 0xAF0A_1B4C
    ensures Entry(0x58) == 0x65B0_D9C6
    ensures Entry(0x69) == 0x346E_D9FC
  {
    EightShifts(0xCE);
    EightShifts(0x7A);
    EightShifts(0x01);
    EightShifts(0x19);
    EightShifts(0xD5);
    EightShifts(0xA9);
    EightShifts(0x58);
    EightShifts(0x69);
  }

  lemma NextByte(c: bv32, u: bv8, rest: seq<bv8>, k: bv32, next: bv32)
    requires LowByte(Xor(c, u as bv32)) == k && next == Xor(Entry(k), c >> 8)
    ensures Feed(c, MessageBits([u] + rest)) == Feed(next, MessageBits(rest))
  {
    TableStep(c, u);
    assert ([u] + rest)[1..] == rest;
    FeedConcat(c, LowBits(u as bv32, 8), MessageBits(rest));
  }

  lemma DigitsFrom(n: nat)
    requires n < 9
    ensures DIGITS[n..] == [DIGITS[n]] + DIGITS[n + 1..]
  {
  }

  /** The check value of this checksum: that of the digits from 1 to 9. */
  lemma CheckValue()
    ensures Crc(0, DIGITS) == 0xCBF4_3926
  {
    hide Feed, Entry, MessageBits;
    CheckEntries();
    DigitsFrom(0);
    NextByte(0xFFFF_FFFF, 0x31, DIGITS[1..], 0xCE, 0x7C23_1048);
    DigitsFrom(1);
    NextByte(0x7C23_1048, 0x32, DIGITS[2..], 0x7A, 0xB0AC_BB32);
    DigitsFrom(2);
    NextByte(0xB0AC_BB32, 0x33, DIGITS[3..], 0x01, 0x77B7_9C2D);
    DigitsFrom(3);
    NextByte(0x77B7_9C2D, 0x34, DIGITS[4..], 0x19, 0x641C_1F5C);
    DigitsFrom(4);
    NextByte(0x641C_1F5C, 0x35, DIGITS[5..], 0x69, 0x340A_C5E3);
    DigitsFrom(5);
    NextByte(0x340A_C5E3, 0x36, DIGITS[6..], 0xD5, 0xF68D_2C9E);
    DigitsFrom(6);
    NextByte(0xF68D_2C9E, 0x37, DIGITS[7..], 0xA9, 0xAFFC_9660);
    DigitsFrom(7);
    NextByte(0xAFFC_9660, 0x38, DIGITS[8..], 0x58, 0x651F_2550);
    DigitsFrom(8);
    NextByte(0x651F_2550, 0x39, DIGITS[9..], 0x69, 0x340B_C6D9);
    assert DIGITS[0..] == DIGITS && DIGITS[9..] == [];
    FeedEmpty(0x340B_C6D9, []);
  }

  // ---------------------------------------------------------------- what the checksum detects

  /** A step can be undone: the highest bit tells whether the polynomial was subtracted. */
  function Unshift(c: bv32): bv32 {
    if Top(c) then Xor(Double(Xor(c, POLYNOMIAL)), 1) else Double(c)
  }

  lemma UnshiftShift(c: bv32)
    ensures Unshift(Shift(c)) == c
  {
  }

  lemma FlipTwice(x: bv32, bit: bool)
    ensures Flip(Flip(x, bit), bit) == x
  {
  }

  lemma StepInjective(c: bv32, d: bv32, bit: bool)
    requires Step(c, bit) == Step(d, bit)
    ensures c == d
  {
    hide Shift, Unshift, Flip;
    UnshiftShift(Flip(c, bit));
    UnshiftShift(Flip(d, bit));
    FlipTwice(c, bit);
    FlipTwice(d, bit);
  }

  lemma {:induction false} FeedInjective(c: bv32, d: bv32, bits: seq<bool>)
    requires Feed(c, bits) == Feed(d, bits)
    ensures c == d
    decreases |bits|
  {
    hide Step;
    if bits != [] {
      FeedInjective(Step(c, bits[0]), Step(d, bits[0]), bits[1..]);
      StepInjective(c, d, bits[0]);
    }
  }

  /** The bits in which two sequences differ, the first one lowest. */
  function Difference(v: seq<bool>, w: seq<bool>): bv32
    requires |v| == |w|
    decreases |v|
  {
    if v == [] then 0 else Flip(Double(Difference(v[1..], w[1..])), v[0] != w[0])
  }

  // ------------------------------------------------------------ words with few bits

  /** The mask of the bits at position n and above, and the words without any of them. */
  function Above(n: nat): bv32 {
    if n == 0 then ONES else Double(Above(n - 1))
  }

  predicate Below(x: bv32, n: nat) { And(x, Above(n)) == 0 }

  lemma MaskDouble(x: bv32, mask: bv32, bit: bool)
    requires And(x, mask) == 0
    ensures And(Flip(Double(x), bit), Double(mask)) == 0
  {
    hide And, Double, Xor;
    AndDouble(x, mask);
    AndLowest(Double(x), mask);
  }

  lemma AndDouble(x: bv32, y: bv32)
    ensures And(Double(x), Double(y)) == Double(And(x, y))
    ensures Double(0) == 0
  {
  }

  lemma AndLowest(x: bv32, y: bv32)
    ensures And(Xor(x, 1), Double(y)) == And(x, Double(y))
  {
  }

  lemma DoubleNested(x: bv32, y: bv32)
    requires And(x, y) == x
    ensures And(Double(x), Double(y)) == Double(x)
  {
  }

  lemma MaskNested(x: bv32, mask: bv32, smaller: bv32)
    requires And(x, mask) == 0 && And(smaller, mask) == smaller
    ensures And(x, smaller) == 0
  {
  }

  lemma OnesIsAll(x: bv32)
    ensures And(x, ONES) == x
  {
  }

  lemma {:induction false} AboveNested(n: nat)
    ensures And(Above(n + 1), Above(n)) == Above(n + 1)
  {
    hide And, Double;
    if n == 0 {
      OnesIsAll(Above(1));
    } else {
      AboveNested(n - 1);
      DoubleNested(Above(n), Above(n - 1));
    }
  }

  lemma {:induction false} BelowMono(x: bv32, n: nat, m: nat)
    requires Below(x, n) && n <= m
    ensures Below(x, m)
    decreases m - n
  {
    hide And, Double, Above;
    if n < m {
      AboveNested(n);
      MaskNested(x, Above(n), Above(n + 1));
      BelowMono(x, n + 1, m);
    }
  }

  lemma AboveBy4(n: nat, mask: bv32)
    requires Above(n) == mask
    ensures Above(n + 4) == mask << 4
  {
    assert Above(n + 2) == Double(Above(n + 1));
    assert Above(n + 4) == Double(Above(n + 3));
    Double4(mask);
  }

  lemma Double4(x: bv32)
    ensures Double(Double(Double(Double(x)))) == x << 4
  {
  }

  lemma TopBit(x: bv32)
    requires Below(x, 31)
    ensures !Top(x)
  {
    AboveBy4(0, ONES);
    AboveBy4(4, 0xFFFF_FFF0);
    AboveBy4(8, 0xFFFF_FF00);
    AboveBy4(12, 0xFFFF_F000);
    AboveBy4(16, 0xFFFF_0000);
    AboveBy4(20, 0xFFF0_0000);
    AboveBy4(24, 0xFF00_0000);
    assert Above(29) == 0xE000_0000;
    assert Above(30) == 0xC000_0000;
  }

  lemma {:induction false} DifferenceBelow(v: seq<bool>, w: seq<bool>)
    requires |v| == |w|
    ensures Below(Difference(v, w), |v|)
  {
    hide And, Double, Flip;
    if v == [] {
      OnesIsAll(0);
    } else {
      DifferenceBelow(v[1..], w[1..]);
      MaskDouble(Difference(v[1..], w[1..]), Above(|v| - 1), v[0] != w[0]);
    }
  }

  lemma DifferenceHasNoTop(v: seq<bool>, w: seq<bool>)
    requires |v| == |w| <= 31
    ensures !Top(Difference(v, w))
  {
    hide Below, Top, Difference;
    DifferenceBelow(v, w);
    BelowMono(Difference(v, w), |v|, 31);
    TopBit(Difference(v, w));
  }

  lemma DoubleZero(x: bv32, bit: bool)
    requires !Top(x) && Flip(Double(x), bit) == 0
    ensures x == 0 && !bit
  {
  }

  lemma {:induction false} NoDifference(v: seq<bool>, w: seq<bool>)
    requires |v| == |w| <= 32 && Difference(v, w) == 0
    ensures v == w
    decreases |v|
  {
    hide Top, Flip, Double;
    if v != [] {
      DifferenceHasNoTop(v[1..], w[1..]);
      DoubleZero(Difference(v[1..], w[1..]), v[0] != w[0]);
      NoDifference(v[1..], w[1..]);
      assert v == [v[0]] + v[1..] && w == [w[0]] + w[1..];
    }
  }

  // ------------------------------------------------------------ stepping back

  lemma XorCancel(x: bv32, y: bv32, z: bv32)
    ensures Xor(Xor(x, z), Xor(y, z)) == Xor(x, y)
  {
    hide Xor;
    XorCommutes(y, z);
    XorAssoc(Xor(x, z), z, y);
    XorTwice(x, z);
  }

  lemma XorCommutes(x: bv32, y: bv32)
    ensures Xor(x, y) == Xor(y, x)
  {
  }

  lemma XorSwap(x: bv32, y: bv32, z: bv32)
    ensures Xor(Xor(x, z), y) == Xor(Xor(x, y), z)
  {
    hide Xor;
    XorAssoc(x, z, y);
    XorAssoc(x, y, z);
    XorCommutes(y, z);
  }

  lemma DoubleXor(x: bv32, y: bv32)
    ensures Double(Xor(x, y)) == Xor(Double(x), Double(y))
  {
  }

  lemma TopXor(x: bv32, y: bv32)
    requires !Top(Xor(x, y))
    ensures Top(x) == Top(y)
  {
  }

  /** Undoing one step from registers whose difference has no highest bit. */
  lemma UnshiftXor(c: bv32, d: bv32)
    requires !Top(Xor(c, d))
    ensures Xor(Unshift(c), Unshift(d)) == Double(Xor(c, d))
  {
    hide Xor, Top, Double;
    TopXor(c, d);
    DoubleXor(c, d);
    if Top(c) {
      var c', d' := Xor(c, POLYNOMIAL), Xor(d, POLYNOMIAL);
      XorCancel(c, d, POLYNOMIAL);
      DoubleXor(c', d');
      XorCancel(Double(c'), Double(d'), 1);
    }
  }

  lemma FlipXor(x: bv32, y: bv32, v: bool, w: bool)
    ensures Xor(Flip(x, v), Flip(y, w)) == Flip(Xor(x, y), v != w)
  {
    hide Xor;
    XorCancel(x, y, 1);
    XorSwap(x, y, 1);
    XorAssoc(x, y, 1);
  }

  lemma XorSelf(x: bv32, y: bv32)
    ensures Xor(x, y) == 0 <==> x == y
  {
  }

  /** Registers that agree after at most 32 bits differed before by just the bits that differ. */
  lemma {:induction false} WindowDifference(c: bv32, v: seq<bool>, d: bv32, w: seq<bool>)
    requires |v| == |w| <= 32 && Feed(c, v) == Feed(d, w)
    ensures Xor(c, d) == Difference(v, w)
    decreases |v|
  {
    hide Xor, Top, Double, Flip, Shift, Unshift;
    if v == [] {
      XorSelf(c, d);
    } else {
      var x, y := Flip(c, v[0]), Flip(d, w[0]);
      WindowDifference(Shift(x), v[1..], Shift(y), w[1..]);
      DifferenceHasNoTop(v[1..], w[1..]);
      UnshiftXor(Shift(x), Shift(y));
      UnshiftShift(x);
      UnshiftShift(y);
      FlipTwice(c, v[0]);
      FlipTwice(d, w[0]);
      FlipXor(x, y, v[0], w[0]);
    }
  }

  /** Any change confined to 32 consecutive bits changes the register. */
  lemma BurstChangesRegister(c: bv32, before: seq<bool>, v: seq<bool>, w: seq<bool>, after: seq<bool>)
    requires |v| == |w| <= 32 && v != w
    ensures Feed(c, before + v + after) != Feed(c, before + w + after)
  {
    hide Xor, Feed, Difference;
    FeedConcat(c, before, v);
    FeedConcat(c, before, w);
    FeedConcat(c, before + v, after);
    FeedConcat(c, before + w, after);
    var r := Feed(c, before);
    if Feed(Feed(r, v), after) == Feed(Feed(r, w), after) {
      FeedInjective(Feed(r, v), Feed(r, w), after);
      WindowDifference(r, v, r, w);
      XorSelf(r, r);
      NoDifference(v, w);
    }
  }

  /** Messages of one length that differ, and only within 32 consecutive bits, have different
      checksums. */
  lemma BurstsAreDetected(start: bv32, a: seq<bv8>, b: seq<bv8>, from: nat, to: nat)
    requires |a| == |b| && from <= to <= 8 * |a| && to - from <= 32
    requires MessageBits(a)[..from] == MessageBits(b)[..from] && MessageBits(a)[to..] == MessageBits(b)[to..]
    requires a != b
    ensures Crc(start, a) != Crc(start, b)
  {
    hide Xor, Feed, MessageBits;
    var v, w := MessageBits(a)[from..to], MessageBits(b)[from..to];
    var before, after := MessageBits(a)[..from], MessageBits(a)[to..];
    var c := Xor(start, ONES);
    assert MessageBits(a) == before + v + after && MessageBits(b) == before + w + after;
    if v == w {
      SameBits(a, b);
    }
    BurstChangesRegister(c, before, v, w, after);
    XorTwice(Feed(c, MessageBits(a)), ONES);
    XorTwice(Feed(c, MessageBits(b)), ONES);
  }

  /** The bits of a message determine it. */
  lemma {:induction false} SameBits(a: seq<bv8>, b: seq<bv8>)
    requires |a| == |b| && MessageBits(a) == MessageBits(b)
    ensures a == b
  {
    if a != [] {
      var x, y := LowBits(a[0] as bv32, 8), LowBits(b[0] as bv32, 8);
      assert x == MessageBits(a)[..8] == MessageBits(b)[..8] == y;
      assert MessageBits(a)[8..] == MessageBits(a[1..]) && MessageBits(b)[8..] == MessageBits(b[1..]);
      SameBits(a[1..], b[1..]);
      SameByte(a[0], b[0]);
      assert a == [a[0]] + a[1..] && b == [b[0]] + b[1..];
    }
  }

  lemma SameByte(u: bv8, v: bv8)
    requires LowBits(u as bv32, 8) == LowBits(v as bv32, 8)
    ensures u == v
  {
    hide LowBits, Halves;
    HalvesIs(u as bv32);
    HalvesIs(v as bv32);
    ByteFits(0, u);
    ByteFits(0, v);
    SameWord(u as bv32, v as bv32, 8);
  }

  lemma {:induction false} SameWord(x: bv32, y: bv32, n: nat)
    requires LowBits(x, n) == LowBits(y, n) && Halves(x, n) == Halves(y, n)
    ensures x == y
    decreases n
  {
    hide Odd, Half;
    if n > 0 {
      assert LowBits(x, n)[1..] == LowBits(Half(x), n - 1);
      assert LowBits(y, n)[1..] == LowBits(Half(y), n - 1);
      assert Odd(x) == LowBits(x, n)[0] == LowBits(y, n)[0] == Odd(y);
      SameWord(Half(x), Half(y), n - 1);
      HalfAndOdd(x, y);
    }
  }

  lemma HalfAndOdd(x: bv32, y: bv32)
    requires Half(x) == Half(y) && Odd(x) == Odd(y)
    ensures x == y
  {
  }

  // ---------------------------------------------------------------- the table and the loop

  /** The table, filled on first use. */
  class Crc32Table {
    const table: array<bv32>

    ghost predicate Valid()
      reads table
    {
      table.Length == 256 && (table[255] != 0 ==> Filled())
    }

    ghost predicate Filled()
      requires table.Length == 256
      reads table
    {
      forall k | 0 <= k < 256 :: table[k] == Entry(k as bv32)
    }

    constructor ()
      ensures Valid() && fresh(table)
    {
      table := new bv32[256](_ => 0);
    }

    method EnsureInited()
      requires Valid()
      modifies table
      ensures Valid() && Filled()
    {
      hide Entry;
      if table[255] != 0 {
        return;
      }
      for i := 0 to 256
        invariant forall k | 0 <= k < i :: table[k] == Entry(k as bv32)
      {
        var c := ComputeEntry(i as bv32);
        table[i] := c;
      }
    }

    /** The inner loop of the table's initialisation. */
    static method ComputeEntry(i: bv32) returns (c: bv32)
      ensures c == Entry(i)
    {
      c := i;
      for j := 0 to 8
        invariant Shifts(c, 8 - j) == Entry(i)
      {
        assert Shifts(c, 8 - j) == Shifts(Shift(c), 8 - (j + 1));
        if c & 1 != 0 {
          c := POLYNOMIAL ^ (c >> 1);
        } else {
          c := c >> 1;
        }
      }
    }

    method Lookup(k: bv32) returns (entry: bv32)
      requires Valid() && Filled() && k == LowByte(k)
      ensures entry == Entry(k)
    {
      hide Entry;
      IndexOf(k);
      entry := table[k as int];
    }

    method UpdateCrc32(start: bv32, buf: seq<bv8>) returns (crc: bv32)
      requires Valid()
      modifies table
      ensures Valid() && crc == Crc(start, buf)
    {
      hide Xor, Feed, MessageBits, Entry, LowByte, LowBits;
      EnsureInited();
      var c := Xor(start, ONES);
      for i := 0 to |buf|
        invariant Filled()
        invariant Feed(c, MessageBits(buf[i..])) == Feed(Xor(start, ONES), MessageBits(buf))
      {
        var k := LowByte(Xor(c, buf[i] as bv32));
        LowByteIs(Xor(c, buf[i] as bv32));
        TableStep(c, buf[i]);
        MessageStep(buf, i);
        FeedConcat(c, LowBits(buf[i] as bv32, 8), MessageBits(buf[i + 1..]));
        var entry := Lookup(k);
        c := Xor(entry, c >> 8);
      }
      FeedEmpty(c, buf[|buf|..]);
      crc := Xor(c, ONES);
    }
  }

  lemma FeedEmpty(c: bv32, data: seq<bv8>)
    requires data == []
    ensures Feed(c, MessageBits(data)) == c
  {
  }

  lemma MessageStep(buf: seq<bv8>, i: nat)
    requires i < |buf|
    ensures MessageBits(buf[i..]) == LowBits(buf[i] as bv32, 8) + MessageBits(buf[i + 1..])
  {
    assert buf[i..][1..] == buf[i + 1..];
  }

  lemma IndexOf(k: bv32)
    requires k == LowByte(k)
    ensures k as int < 256 && (k as int) as bv32 == k
  {
  }

  lemma LowByteIs(x: bv32)
    ensures LowByte(LowByte(x)) == LowByte(x)
  {
  }
}
