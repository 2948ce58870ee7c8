/** Exp-Golomb codes (section 9.1 of ITU-T H.264) as sequences of bits: encoding, decoding, lists of
    values written at an offset, and the round trips between them. */
module ExpGolomb {
  import opened BitSequences
  import opened Options

  const UINT32_MAX: nat := 0xFFFF_FFFF
  const INT32_MAX: int := 0x7FFF_FFFF

  /** The number of bits in the binary representation. */
  function BitLength(v: nat): nat {
    if v == 0 then 0 else 1 + BitLength(v / 2)
  }

  /** The code of v: as many zeros as v + 1 has bits after its first one, then v + 1. */
  function Encode(v: nat): Bits {
    LowBits(v + 1, 2 * BitLength(v + 1) - 1)
  }

  function LeadingZeros(bits: Bits): nat {
    if bits == [] || bits[0] then 0 else 1 + LeadingZeros(bits[1..])
  }

  /** The value read at an offset and the offset after it; values of more than 32 bits and codes
      cut off by the end of the buffer are rejected. */
  function Decode(bits: Bits, off: nat): (r: Option<(nat, nat)>)
    requires off <= |bits|
    ensures r.Some? ==> off < r.value.1 <= |bits| && r.value.0 < UINT32_MAX
  {
    var z := LeadingZeros(bits[off..]);
    var n := z + 1;
    if n > 32 || off + z + n > |bits| then None
    else
      LeadingZerosAt(bits[off..]);
      StartsWithOne(bits[off + z..off + z + n]);
      Some((ValueOf(bits[off + z..off + z + n]) - 1, off + z + n))
  }

  lemma {:induction false} LeadingZerosAt(bits: Bits)
    ensures var z := LeadingZeros(bits);
            && z <= |bits|
            && bits[..z] == Zeros(z)
            && (z < |bits| ==> bits[z])
  {
    if bits == [] || bits[0] {
    } else {
      LeadingZerosAt(bits[1..]);
      var z := LeadingZeros(bits[1..]);
      assert bits[..z + 1] == [bits[0]] + bits[1..][..z];
    }
  }

  lemma {:induction false} LeadingZerosOf(z: nat, rest: Bits)
    requires rest == [] || rest[0]
    ensures LeadingZeros(Zeros(z) + rest) == z
  {
    if z == 0 {
      assert Zeros(0) + rest == rest;
    } else {
      LeadingZerosOf(z - 1, rest);
      assert (Zeros(z) + rest)[1..] == Zeros(z - 1) + rest;
    }
  }

  /** A number whose first bit is set lies between two powers of two. */
  lemma StartsWithOne(bits: Bits)
    requires 0 < |bits| <= 32 && bits[0]
    ensures Pow2(|bits| - 1) <= ValueOf(bits) <= UINT32_MAX
  {
    var rest := bits[1..];
    assert bits == [true] + rest;
    ValueOfConcat([true], rest);
    ScaleIsProduct(1, |rest|);
    ValueOfAppend([], true);
    assert [] + [true] == [true];
    ValueOfBound(bits);
    Pow2Mono(|bits|, 32);
    WordSizes();
  }

  lemma {:induction false} BitLengthBounds(v: nat)
    requires v > 0
    ensures BitLength(v) > 0 && Pow2(BitLength(v) - 1) <= v < Pow2(BitLength(v))
  {
    if v > 1 {
      BitLengthBounds(v / 2);
    }
  }

  lemma BitLengthIs(v: nat, n: nat)
    requires n > 0 && Pow2(n - 1) <= v < Pow2(n)
    ensures BitLength(v) == n
  {
    BitLengthBounds(v);
    if BitLength(v) < n {
      Pow2Mono(BitLength(v), n - 1);
    } else if BitLength(v) > n {
      Pow2Mono(n, BitLength(v) - 1);
    }
  }

  lemma LengthWithin32(v: nat)
    requires 0 < v <= UINT32_MAX
    ensures 1 <= BitLength(v) <= 32
  {
    BitLengthBounds(v);
    if BitLength(v) > 32 {
      Pow2Mono(32, BitLength(v) - 1);
      WordSizes();
    }
  }

  /** Beyond its length a number has only zeros, and its first bit is set. */
  lemma {:induction false} LowBitsLeading(v: nat, k: nat)
    requires v > 0
    ensures LowBits(v, k + BitLength(v)) == Zeros(k) + LowBits(v, BitLength(v))
    ensures LowBits(v, BitLength(v))[0]
    decreases v
  {
    if v == 1 {
      LowBitsOfZero(k);
      LowBitsStep(1, k + 1);
      LowBitsStep(1, 1);
    } else {
      var c := BitLength(v / 2);
      LowBitsLeading(v / 2, k);
      LowBitsStep(v, k + c + 1);
      LowBitsStep(v, c + 1);
    }
  }

  lemma EncodeShape(v: nat)
    ensures var c := BitLength(v + 1);
            c > 0 && Encode(v) == Zeros(c - 1) + LowBits(v + 1, c) && LowBits(v + 1, c)[0]
  {
    BitLengthBounds(v + 1);
    LowBitsLeading(v + 1, BitLength(v + 1) - 1);
  }

  /** Decoding, when the position and the bits of the value are known. */
  lemma DecodeAt(bits: Bits, off: nat, z: nat, code: Bits)
    requires off + z + (z + 1) <= |bits| && z < 32
    requires LeadingZeros(bits[off..]) == z
    requires bits[off + z..off + z + (z + 1)] == code && ValueOf(code) > 0
    ensures Decode(bits, off) == Some((ValueOf(code) - 1, off + z + (z + 1)))
  {
  }

  lemma Slices(a: Bits, b: Bits, c: Bits, d: Bits)
    ensures (a + (b + c) + d)[|a|..] == b + (c + d)
    ensures (a + (b + c) + d)[|a| + |b|..|a| + |b| + |c|] == c
  {
  }

  lemma DecodeShape(bits: Bits, before: Bits, z: nat, code: Bits, after: Bits)
    requires |code| == z + 1 <= 32 && code[0]
    requires bits == before + (Zeros(z) + code) + after
    ensures Decode(bits, |before|) == Some((ValueOf(code) - 1, |before| + z + (z + 1)))
  {
    StartsWithOne(code);
    LeadingZerosOf(z, code + after);
    Slices(before, Zeros(z), code, after);
    DecodeAt(bits, |before|, z, code);
  }

  /** Reading where a code starts returns the value and stops right after the code. */
  lemma DecodeEncode(before: Bits, v: nat, after: Bits)
    requires v < UINT32_MAX
    ensures Decode(before + Encode(v) + after, |before|) == Some((v, |before| + |Encode(v)|))
  {
    hide Decode, LowBits;
    EncodeShape(v);
    LengthWithin32(v + 1);
    BitLengthBounds(v + 1);
    ValueOfLowBits(v + 1, BitLength(v + 1));
    DecodeShape(before + Encode(v) + after, before, BitLength(v + 1) - 1, LowBits(v + 1, BitLength(v + 1)), after);
  }

  /** Every accepted piece of input is exactly the code of the value read. */
  lemma EncodeDecode(bits: Bits, off: nat)
    requires off <= |bits| && Decode(bits, off).Some?
    ensures var (v, end) := Decode(bits, off).value;
            off < end <= |bits| && bits[off..end] == Encode(v)
  {
    var (v, end) := Decode(bits, off).value;
    var z := LeadingZeros(bits[off..]);
    var code := bits[off + z..off + z + (z + 1)];
    LeadingZerosAt(bits[off..]);
    StartsWithOne(code);
    ValueOfBound(code);
    BitLengthIs(v + 1, z + 1);
    LowBitsOfValue(code);
    EncodeShape(v);
    assert bits[off..end] == bits[off..][..z] + code;
  }

  /** The first codes of table 9-2 of ITU-T H.264: 1, 010, 011, 00100. */
  lemma FirstCodes()
    ensures Encode(0) == [true] && Encode(1) == [false, true, false] && Encode(2) == [false, true, true]
    ensures Encode(3) == [false, false, true, false, false]
  {
    hide Encode, LowBits, BitLength, Zeros;
    SmallNumbers();
    EncodeShape(0);
    EncodeShape(1);
    EncodeShape(2);
    EncodeShape(3);
  }

  lemma SmallNumbers()
    ensures BitLength(1) == 1 && BitLength(2) == 2 && BitLength(3) == 2 && BitLength(4) == 3
    ensures LowBits(1, 1) == [true] && LowBits(2, 2) == [true, false] && LowBits(3, 2) == [true, true]
    ensures LowBits(4, 3) == [true, false, false]
    ensures Zeros(0) == [] && Zeros(1) == [false] && Zeros(2) == [false, false]
  {
    hide LowBits;
    LowBitsStep(1, 1);
    assert LowBits(0, 0) == [] by { NoBits(0); }
    LowBitsStep(2, 2);
    LowBitsStep(3, 2);
    LowBitsStep(4, 3);
  }

  lemma NoBits(v: nat)
    ensures LowBits(v, 0) == []
  {
  }

  // ---------------------------------------------------------------- signed values

  /** Section 9.1.1 of ITU-T H.264: positive s is 2s - 1, the others are -2s. */
  function SignedToUnsigned(s: int): nat {
    if s > 0 then 2 * s - 1 else -2 * s
  }

  function UnsignedToSigned(u: nat): int {
    if u % 2 == 0 then -(u / 2) else (u + 1) / 2
  }

  lemma SignedMapping(s: int, u: nat)
    ensures UnsignedToSigned(SignedToUnsigned(s)) == s
    ensures SignedToUnsigned(UnsignedToSigned(u)) == u
    ensures -INT32_MAX <= s <= INT32_MAX <==> SignedToUnsigned(s) < UINT32_MAX
    ensures SignedToUnsigned(s) % 2 == 1 <==> s > 0
    ensures (SignedToUnsigned(s) + 1) / 2 == if s < 0 then -s else s
  {
  }

  // ---------------------------------------------------------------- lists

  /** Replacing the bits at an offset. */
  function Overwrite(bits: Bits, off: nat, code: Bits): (r: Bits)
    requires off + |code| <= |bits|
    ensures |r| == |bits|
  {
    bits[..off] + code + bits[off + |code|..]
  }

  function EncodeAll(vs: seq<nat>): Bits {
    if vs == [] then [] else Encode(vs[0]) + EncodeAll(vs[1..])
  }

  /** The buffer after writing the values one after the other. */
  function WriteAll(bits: Bits, off: nat, vs: seq<nat>): (r: Bits)
    requires off + |EncodeAll(vs)| <= |bits|
    ensures |r| == |bits|
    decreases vs
  {
    if vs == [] then bits
    else WriteAll(Overwrite(bits, off, Encode(vs[0])), off + |Encode(vs[0])|, vs[1..])
  }

  /** Reading n values one after the other. */
  function DecodeAll(bits: Bits, off: nat, n: nat): Option<(seq<nat>, nat)>
    requires off <= |bits|
    decreases n
  {
    if n == 0 then Some(([], off))
    else
      var first := Decode(bits, off);
      if first.None? then None
      else
        var rest := DecodeAll(bits, first.value.1, n - 1);
        if rest.None? then None else Some(([first.value.0] + rest.value.0, rest.value.1))
  }

  lemma {:induction false} WriteAllIsOverwrite(bits: Bits, off: nat, vs: seq<nat>)
    requires off + |EncodeAll(vs)| <= |bits|
    ensures WriteAll(bits, off, vs) == Overwrite(bits, off, EncodeAll(vs))
    decreases vs
  {
    if vs == [] {
      assert bits[..off] + [] + bits[off..] == bits;
    } else {
      var code := Encode(vs[0]);
      var next := Overwrite(bits, off, code);
      WriteAllIsOverwrite(next, off + |code|, vs[1..]);
      OverwriteAgain(bits, off, code, EncodeAll(vs[1..]));
    }
  }

  lemma OverwriteAgain(bits: Bits, off: nat, a: Bits, b: Bits)
    requires off + |a| + |b| <= |bits|
    ensures Overwrite(Overwrite(bits, off, a), off + |a|, b) == Overwrite(bits, off, a + b)
  {
    var next := Overwrite(bits, off, a);
    assert next[..off + |a|] == bits[..off] + a;
    assert next[off + |a| + |b|..] == bits[off + |a| + |b|..];
  }

  lemma DecodeAllStep(bits: Bits, off: nat, vs: seq<nat>, next: nat, end: nat)
    requires off <= |bits| && next <= |bits| && vs != []
    requires Decode(bits, off) == Some((vs[0], next))
    requires DecodeAll(bits, next, |vs| - 1) == Some((vs[1..], end))
    ensures DecodeAll(bits, off, |vs|) == Some((vs, end))
  {
    assert [vs[0]] + vs[1..] == vs;
  }

  lemma Regroup(a: Bits, b: Bits, c: Bits, d: Bits)
    ensures a + (b + c) + d == a + b + (c + d) == (a + b) + c + d
  {
  }

  lemma {:induction false} DecodeAllEncodeAll(bits: Bits, before: Bits, vs: seq<nat>, after: Bits)
    requires forall i | 0 <= i < |vs| :: vs[i] < UINT32_MAX
    requires bits == before + EncodeAll(vs) + after
    ensures DecodeAll(bits, |before|, |vs|) == Some((vs, |before| + |EncodeAll(vs)|))
    decreases vs
  {
    hide Encode, Decode;
    if vs == [] {
      assert DecodeAll(bits, |before|, 0) == Some(([], |before|));
    } else {
      var code, rest := Encode(vs[0]), EncodeAll(vs[1..]);
      Regroup(before, code, rest, after);
      DecodeEncode(before, vs[0], rest + after);
      DecodeAllEncodeAll(bits, before + code, vs[1..], after);
      DecodeAllStep(bits, |before|, vs, |before| + |code|, |before| + |code| + |rest|);
    }
  }

  /** Round trip: whatever was in the buffer and wherever the list starts, writing a list of
      values, seeking back and reading as many values returns the list and the same offset. */
  lemma RoundTrip(bits: Bits, off: nat, vs: seq<nat>)
    requires off + |EncodeAll(vs)| <= |bits|
    requires forall i | 0 <= i < |vs| :: vs[i] < UINT32_MAX
    ensures DecodeAll(WriteAll(bits, off, vs), off, |vs|) == Some((vs, off + |EncodeAll(vs)|))
  {
    WriteAllIsOverwrite(bits, off, vs);
    DecodeAllEncodeAll(WriteAll(bits, off, vs), bits[..off], vs, bits[off + |EncodeAll(vs)|..]);
  }

  function Unsigned(ss: seq<int>): seq<nat> { seq(|ss|, i requires 0 <= i < |ss| => SignedToUnsigned(ss[i])) }

  function Signed(us: seq<nat>): seq<int> { seq(|us|, i requires 0 <= i < |us| => UnsignedToSigned(us[i])) }

  /** The same for signed values other than INT_MIN. */
  lemma SignedRoundTrip(bits: Bits, off: nat, ss: seq<int>)
    requires off + |EncodeAll(Unsigned(ss))| <= |bits|
    requires forall i | 0 <= i < |ss| :: -INT32_MAX <= ss[i] <= INT32_MAX
    ensures var r := DecodeAll(WriteAll(bits, off, Unsigned(ss)), off, |ss|);
            r.Some? && Signed(r.value.0) == ss && r.value.1 == off + |EncodeAll(Unsigned(ss))|
  {
    RoundTrip(bits, off, Unsigned(ss));
    forall i | 0 <= i < |ss| ensures UnsignedToSigned(SignedToUnsigned(ss[i])) == ss[i] {
      SignedMapping(ss[i], 0);
    }
  }

  /** The value 2^32 - 1 is the first that would not come back. */
  lemma LargestValueIsLost(before: Bits, after: Bits)
    ensures Decode(before + Encode(UINT32_MAX) + after, |before|) == None
  {
    var v := UINT32_MAX;
    WordSizes();
    BitLengthIs(v + 1, 33);
    EncodeShape(v);
    var code := LowBits(v + 1, 33);
    LeadingZerosOf(32, code + after);
    assert (before + Encode(v) + after)[|before|..] == Zeros(32) + (code + after);
  }

  // ---------------------------------------------------------------- plain fields

  /** Reads invert writes: the value of n bits just written is the value modulo 2^n. */
  lemma ReadBackBits(bits: Bits, off: nat, v: nat, n: nat)
    requires off + n <= |bits|
    ensures ValueOf(Overwrite(bits, off, LowBits(v, n))[off..off + n]) == v % Pow2(n)
  {
    assert Overwrite(bits, off, LowBits(v, n))[off..off + n] == LowBits(v, n);
    TruncateIsRemainder(v, n);
    LowBitsTruncated(v, n, n);
    ValueOfLowBits(Truncate(v, n), n);
  }
}
