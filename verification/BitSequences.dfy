/** Unsigned machine words as numbers, their bits as sequences with the most significant one first,
    and what the shifts and bitwise operators of C do to those bits.  Shifts are repeated doubling
    and halving, so that no proof multiplies two unknowns. */
module BitSequences {
  import opened ByteOrder

  type Bits = seq<bool>

  function Zeros(n: nat): Bits { seq(n, _ => false) }

  function Ones(n: nat): Bits { seq(n, _ => true) }

  function Pow2(n: nat): (p: nat)
    ensures p >= 1
  {
    if n == 0 then 1 else 2 * Pow2(n - 1)
  }

  /** Bit j of a number, counted from the least significant one. */
  function Bit(v: nat, j: nat): bool
    decreases j, v
  {
    if j == 0 then v % 2 == 1 else Bit(v / 2, j - 1)
  }

  /** The n lowest bits of a number. */
  function LowBits(v: nat, n: nat): (bits: Bits)
    ensures |bits| == n
  {
    seq(n, i requires 0 <= i < n => Bit(v, n - 1 - i))
  }

  /** The number that a sequence of bits denotes. */
  function ValueOf(bits: Bits): nat { PrefixValue(bits, |bits|) }

  function PrefixValue(bits: Bits, n: nat): nat
    requires n <= |bits|
    decreases n, bits
  {
    if n == 0 then 0 else 2 * PrefixValue(bits, n - 1) + (if bits[n - 1] then 1 else 0)
  }

  /** The number in the bits from one position up to another. */
  function Field(bits: Bits, from: nat, to: nat): nat
    requires from <= to <= |bits|
  {
    ValueOf(bits[from..to])
  }

  function ByteBits(b: byte): (bits: Bits)
    ensures |bits| == 8
  {
    LowBits(b, 8)
  }

  /** The bits of a byte buffer. */
  function BitsOf(bytes: seq<byte>): (bits: Bits)
    ensures |bits| == 8 * |bytes|
  {
    seq(8 * |bytes|, k requires 0 <= k < 8 * |bytes| => ByteBits(bytes[k / 8])[k % 8])
  }

  // ---------------------------------------------------------------- machine words

  /** v * 2^k. */
  function Scale(v: nat, k: nat): nat
    decreases k, v
  {
    if k == 0 then v else 2 * Scale(v, k - 1)
  }

  /** v modulo 2^w. */
  function Truncate(v: nat, w: nat): nat
    decreases w, v
  {
    if w == 0 then 0 else 2 * Truncate(v / 2, w - 1) + v % 2
  }

  /** x << k in an unsigned word of w bits. */
  function Shl(x: nat, k: nat, w: nat): nat { Truncate(Scale(x, k), w) }

  /** x >> k. */
  function Shr(x: nat, k: nat): nat
    decreases k, x
  {
    if k == 0 then x else Shr(x / 2, k - 1)
  }

  /** The bitwise operators of C on unsigned words of w bits. */
  function And(x: nat, y: nat, w: nat): nat { ValueOf(BothBits(LowBits(x, w), LowBits(y, w))) }

  function Or(x: nat, y: nat, w: nat): nat { ValueOf(EitherBits(LowBits(x, w), LowBits(y, w))) }

  function Not(x: nat, w: nat): nat { ValueOf(OtherBits(LowBits(x, w))) }

  function BothBits(a: Bits, b: Bits): Bits
    requires |a| == |b|
  {
    seq(|a|, i requires 0 <= i < |a| => a[i] && b[i])
  }

  function EitherBits(a: Bits, b: Bits): Bits
    requires |a| == |b|
  {
    seq(|a|, i requires 0 <= i < |a| => a[i] || b[i])
  }

  function OtherBits(a: Bits): Bits {
    seq(|a|, i requires 0 <= i < |a| => !a[i])
  }

  // ---------------------------------------------------------------- powers of two

  lemma {:induction false} ScalePlus(v: nat, a: nat, b: nat)
    ensures Scale(Scale(v, a), b) == Scale(v, a + b)
    decreases b
  {
    if b > 0 {
      ScalePlus(v, a, b - 1);
    }
  }

  lemma {:induction false} ScaleIsProduct(v: nat, k: nat)
    ensures Scale(v, k) == v * Pow2(k)
  {
    if k > 0 {
      ScaleIsProduct(v, k - 1);
      assert v * (2 * Pow2(k - 1)) == 2 * (v * Pow2(k - 1));
    }
  }

  lemma {:induction false} Pow2Mono(a: nat, b: nat)
    requires a <= b
    ensures Pow2(a) <= Pow2(b)
    decreases b - a
  {
    if a < b {
      Pow2Mono(a + 1, b);
    }
  }

  lemma Pow2Times(a: nat, b: nat, x: nat, y: nat)
    requires Pow2(a) == x && Pow2(b) == y
    ensures Pow2(a + b) == x * y
  {
    ScaleIsProduct(1, a);
    ScaleIsProduct(1, a + b);
    ScalePlus(1, a, b);
    ScaleIsProduct(x, b);
  }

  lemma WordSizes()
    ensures Pow2(8) == 0x100
    ensures Pow2(32) == 0x1_0000_0000
    ensures Pow2(64) == 0x1_0000_0000_0000_0000
  {
    assert Pow2(2) == 4;
    Pow2Times(2, 2, 4, 4);
    Pow2Times(4, 4, 16, 16);
    Pow2Times(8, 8, 0x100, 0x100);
    Pow2Times(16, 16, 0x1_0000, 0x1_0000);
    Pow2Times(32, 32, 0x1_0000_0000, 0x1_0000_0000);
  }

  /** Truncation is the remainder modulo a power of two. */
  lemma {:induction false} TruncateIsRemainder(v: nat, w: nat)
    ensures Truncate(v, w) < Pow2(w)
    ensures Truncate(v, w) == v % Pow2(w)
    decreases w
  {
    if w > 0 {
      TruncateIsRemainder(v / 2, w - 1);
      RemainderOfHalf(v, Pow2(w - 1));
    }
  }

  lemma RemainderOfHalf(v: nat, p: nat)
    requires p >= 1
    ensures v % (2 * p) == 2 * ((v / 2) % p) + v % 2
  {
    var q, r := (v / 2) / p, (v / 2) % p;
    assert v / 2 == p * q + r;
    assert (2 * p) * q == 2 * (p * q);
    RemainderUnique(v, 2 * p, q, 2 * r + v % 2);
  }

  lemma RemainderUnique(v: nat, d: nat, q: nat, r: nat)
    requires v == d * q + r && r < d
    ensures v % d == r
  {
    var q', r' := v / d, v % d;
    assert v == d * q' + r';
    if q' > q {
      assert d * q' == d * q + d * (q' - q);
      AtLeastOnce(d, q' - q);
    } else if q' < q {
      assert d * q == d * q' + d * (q - q');
      AtLeastOnce(d, q - q');
    }
  }

  lemma AtLeastOnce(d: nat, n: nat)
    requires n >= 1
    ensures d * n >= d
  {
    assert d * n == d * (n - 1) + d;
  }

  // ---------------------------------------------------------------- bits of numbers

  lemma LowBitsStep(v: nat, n: nat)
    requires n > 0
    ensures LowBits(v, n) == LowBits(v / 2, n - 1) + [v % 2 == 1]
  {
    var bits, halved := LowBits(v, n), LowBits(v / 2, n - 1) + [v % 2 == 1];
    forall i | 0 <= i < n ensures bits[i] == halved[i] {
      assert Bit(v, n - 1 - i) == if i == n - 1 then v % 2 == 1 else Bit(v / 2, n - 2 - i);
    }
  }

  lemma LowBitsSuffix(v: nat, a: nat, b: nat)
    ensures LowBits(v, a + b)[a..] == LowBits(v, b)
  {
  }

  lemma {:induction false} BitShr(v: nat, k: nat, j: nat)
    ensures Bit(Shr(v, k), j) == Bit(v, k + j)
    decreases k
  {
    if k > 0 {
      BitShr(v / 2, k - 1, j);
    }
  }

  lemma {:induction false} BitTruncated(v: nat, w: nat, j: nat)
    requires j < w
    ensures Bit(Truncate(v, w), j) == Bit(v, j)
    decreases j
  {
    if j > 0 {
      assert Truncate(v, w) / 2 == Truncate(v / 2, w - 1);
      BitTruncated(v / 2, w - 1, j - 1);
    }
  }

  lemma {:induction false} BitScaled(v: nat, k: nat, j: nat)
    ensures Bit(Scale(v, k), j) == (j >= k && Bit(v, j - k))
    decreases k
  {
    if k > 0 {
      if j > 0 {
        assert Scale(v, k) / 2 == Scale(v, k - 1);
        BitScaled(v, k - 1, j - 1);
      }
    }
  }

  lemma {:induction false} BitOfSmall(v: nat, w: nat, j: nat)
    requires v < Pow2(w) && j >= w
    ensures !Bit(v, j)
    decreases j
  {
    if w > 0 {
      BitOfSmall(v / 2, w - 1, j - 1);
    } else if j > 0 {
      BitOfSmall(0, 0, j - 1);
    }
  }

  lemma {:induction false} BitOfOnes(n: nat, j: nat)
    requires j < n
    ensures Bit(Pow2(n) - 1, j)
    decreases j
  {
    if j > 0 {
      assert (Pow2(n) - 1) / 2 == Pow2(n - 1) - 1;
      BitOfOnes(n - 1, j - 1);
    }
  }

  lemma LowBitsTruncated(v: nat, n: nat, m: nat)
    requires n <= m
    ensures LowBits(Truncate(v, m), n) == LowBits(v, n)
  {
    forall i | 0 <= i < n ensures LowBits(Truncate(v, m), n)[i] == LowBits(v, n)[i] {
      BitTruncated(v, m, n - 1 - i);
    }
  }

  lemma LowBitsOfOnes(n: nat)
    ensures LowBits(Pow2(n) - 1, n) == Ones(n)
  {
    var bits := LowBits(Pow2(n) - 1, n);
    forall i | 0 <= i < n ensures bits[i] {
      BitOfOnes(n, n - 1 - i);
    }
  }

  /** Above its w bits a number has only zeros. */
  lemma LowBitsOfSmall(x: nat, k: nat, w: nat)
    requires x < Pow2(w)
    ensures LowBits(x, k + w) == Zeros(k) + LowBits(x, w)
  {
    var bits := LowBits(x, k + w);
    forall i | 0 <= i < k ensures !bits[i] {
      BitOfSmall(x, w, k + w - 1 - i);
    }
  }

  lemma LowBitsOfZero(n: nat)
    ensures LowBits(0, n) == Zeros(n)
  {
    LowBitsOfSmall(0, n, 0);
  }

  // ---------------------------------------------------------------- values of bits

  lemma {:induction false} PrefixValueIs(bits: Bits, more: Bits, n: nat)
    requires n <= |bits|
    ensures PrefixValue(bits + more, n) == PrefixValue(bits, n)
  {
    if n > 0 {
      PrefixValueIs(bits, more, n - 1);
    }
  }

  lemma ValueOfAppend(bits: Bits, b: bool)
    ensures ValueOf(bits + [b]) == 2 * ValueOf(bits) + (if b then 1 else 0)
  {
    PrefixValueIs(bits, [b], |bits|);
  }

  lemma ValueOfLast(bits: Bits)
    requires bits != []
    ensures ValueOf(bits) == 2 * ValueOf(bits[..|bits| - 1]) + (if bits[|bits| - 1] then 1 else 0)
  {
    ValueOfAppend(bits[..|bits| - 1], bits[|bits| - 1]);
    assert bits[..|bits| - 1] + [bits[|bits| - 1]] == bits;
  }

  lemma {:induction false} ValueOfConcat(a: Bits, b: Bits)
    ensures ValueOf(a + b) == Scale(ValueOf(a), |b|) + ValueOf(b)
    decreases |b|
  {
    if b == [] {
      assert a + b == a;
    } else {
      var b', last := b[..|b| - 1], b[|b| - 1];
      ValueOfConcat(a, b');
      assert a + b == (a + b') + [last];
      ValueOfAppend(a + b', last);
      ValueOfLast(b);
    }
  }

  lemma {:induction false} ValueOfBound(bits: Bits)
    ensures ValueOf(bits) < Pow2(|bits|)
  {
    if bits != [] {
      ValueOfBound(bits[..|bits| - 1]);
      ValueOfLast(bits);
    }
  }

  /** A number below 2^n is the value of its n lowest bits. */
  lemma {:induction false} ValueOfLowBits(v: nat, n: nat)
    requires v < Pow2(n)
    ensures ValueOf(LowBits(v, n)) == v
    decreases n
  {
    if n > 0 {
      ValueOfLowBits(v / 2, n - 1);
      LowBitsStep(v, n);
      ValueOfAppend(LowBits(v / 2, n - 1), v % 2 == 1);
    }
  }

  /** Sequences of bits of one length are determined by their values. */
  lemma {:induction false} LowBitsOfValue(bits: Bits)
    ensures LowBits(ValueOf(bits), |bits|) == bits
  {
    if bits != [] {
      var init := bits[..|bits| - 1];
      LowBitsOfValue(init);
      ValueOfLast(bits);
      assert ValueOf(bits) / 2 == ValueOf(init);
      LowBitsStep(ValueOf(bits), |bits|);
      assert bits == init + [bits[|bits| - 1]];
    }
  }

  lemma {:induction false} ValueAfterZeros(n: nat, bits: Bits)
    ensures ValueOf(Zeros(n) + bits) == ValueOf(bits)
    decreases |bits|, n
  {
    if bits != [] {
      var init, last := bits[..|bits| - 1], bits[|bits| - 1];
      ValueAfterZeros(n, init);
      ValueOfLast(bits);
      assert Zeros(n) + bits == (Zeros(n) + init) + [last];
      ValueOfAppend(Zeros(n) + init, last);
    } else if n > 0 {
      ValueAfterZeros(n - 1, []);
      assert Zeros(n) + [] == (Zeros(n - 1) + []) + [false];
      ValueOfAppend(Zeros(n - 1) + [], false);
    }
  }

  // ---------------------------------------------------------------- bits of machine words

  lemma ShlBits(x: nat, k: nat, w: nat)
    requires k <= w
    ensures Shl(x, k, w) < Pow2(w)
    ensures LowBits(Shl(x, k, w), w) == LowBits(x, w)[k..] + Zeros(k)
  {
    TruncateIsRemainder(Scale(x, k), w);
    LowBitsTruncated(Scale(x, k), w, w);
    forall i | 0 <= i < w
      ensures LowBits(Scale(x, k), w)[i] == (LowBits(x, w)[k..] + Zeros(k))[i]
    {
      BitScaled(x, k, w - 1 - i);
    }
  }

  lemma {:induction false} ShrShrinks(x: nat, k: nat)
    ensures Shr(x, k) <= x
    decreases k
  {
    if k > 0 {
      ShrShrinks(x / 2, k - 1);
    }
  }

  lemma ShrBits(x: nat, k: nat, w: nat)
    requires k <= w && x < Pow2(w)
    ensures Shr(x, k) < Pow2(w)
    ensures LowBits(Shr(x, k), w) == Zeros(k) + LowBits(x, w)[..w - k]
  {
    ShrShrinks(x, k);
    forall i | 0 <= i < w
      ensures LowBits(Shr(x, k), w)[i] == (Zeros(k) + LowBits(x, w)[..w - k])[i]
    {
      BitShr(x, k, w - 1 - i);
      if i < k {
        BitOfSmall(x, w, k + (w - 1 - i));
      }
    }
  }

  lemma AndBits(x: nat, y: nat, w: nat)
    ensures And(x, y, w) < Pow2(w)
    ensures LowBits(And(x, y, w), w) == BothBits(LowBits(x, w), LowBits(y, w))
  {
    LowBitsOfValue(BothBits(LowBits(x, w), LowBits(y, w)));
    ValueOfBound(BothBits(LowBits(x, w), LowBits(y, w)));
  }

  lemma OrBits(x: nat, y: nat, w: nat)
    ensures Or(x, y, w) < Pow2(w)
    ensures LowBits(Or(x, y, w), w) == EitherBits(LowBits(x, w), LowBits(y, w))
  {
    LowBitsOfValue(EitherBits(LowBits(x, w), LowBits(y, w)));
    ValueOfBound(EitherBits(LowBits(x, w), LowBits(y, w)));
  }

  lemma NotBits(x: nat, w: nat)
    ensures Not(x, w) < Pow2(w)
    ensures LowBits(Not(x, w), w) == OtherBits(LowBits(x, w))
  {
    LowBitsOfValue(OtherBits(LowBits(x, w)));
    ValueOfBound(OtherBits(LowBits(x, w)));
  }

  // ---------------------------------------------------------------- slices of a byte buffer

  lemma ByteSlice(bytes: seq<byte>, i: nat)
    requires i < |bytes|
    ensures BitsOf(bytes)[8 * i..8 * i + 8] == ByteBits(bytes[i])
  {
  }

  lemma ByteUpdate(bytes: seq<byte>, i: nat, b: byte)
    requires i < |bytes|
    ensures BitsOf(bytes[i := b]) == BitsOf(bytes)[..8 * i] + ByteBits(b) + BitsOf(bytes)[8 * i + 8..]
  {
  }
}
