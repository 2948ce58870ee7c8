/** The bit-level reader and writer: masks and shifts over an array of bytes with one offset. */
module BitBuffer {
  import opened BitSequences
  import opened ByteOrder
  import opened ExpGolomb
  import opened Options

  // ---------------------------------------------------------------- parts of a byte

  /** The lowest bits of a word, in a word of w bits (a byte has 8). */
  function LowestBits(x: nat, count: nat, w: nat): nat {
    And(x, Pow2(count) - 1, w)
  }

  /** The highest bits of a word, shifted down. */
  function HighestBits(x: nat, count: nat, w: nat): nat
    requires count <= w
  {
    var mask := Shl(Pow2(w) - 1, w - count, w);
    Shr(And(x, mask, w), w - count)
  }

  /** `target` with `count` bits at `offset` replaced by the highest bits of `source`. */
  function WritePartial(source: nat, count: nat, target: nat, offset: nat, w: nat): nat
    requires count <= w
  {
    var mask := Shr(Shl(Pow2(w) - 1, w - count, w), offset);
    Or(And(target, Not(mask, w), w), Shr(source, offset), w)
  }

  lemma LowestBitsAre(x: nat, count: nat, w: nat)
    requires count <= w
    ensures LowestBits(x, count, w) < Pow2(w)
    ensures LowBits(LowestBits(x, count, w), w) == Zeros(w - count) + LowBits(x, w)[w - count..]
  {
    var k, mask := w - count, Pow2(count) - 1;
    AndBits(x, mask, w);
    LowBitsOfOnes(count);
    LowBitsOfSmall(mask, k, count);
    assert k + count == w;
    Masked(LowBits(x, w), k);
  }

  lemma Masked(bits: Bits, k: nat)
    requires k <= |bits|
    ensures BothBits(bits, Zeros(k) + Ones(|bits| - k)) == Zeros(k) + bits[k..]
  {
  }

  lemma HighMask(count: nat, w: nat)
    requires count <= w
    ensures Shl(Pow2(w) - 1, w - count, w) < Pow2(w)
    ensures LowBits(Shl(Pow2(w) - 1, w - count, w), w) == Ones(count) + Zeros(w - count)
  {
    ShlBits(Pow2(w) - 1, w - count, w);
    LowBitsOfOnes(w);
    assert Ones(w)[w - count..] == Ones(count);
  }

  lemma HighestBitsAre(x: nat, count: nat, w: nat)
    requires count <= w
    ensures HighestBits(x, count, w) < Pow2(w)
    ensures LowBits(HighestBits(x, count, w), w) == Zeros(w - count) + LowBits(x, w)[..count]
  {
    var mask := Shl(Pow2(w) - 1, w - count, w);
    HighMask(count, w);
    AndBits(x, mask, w);
    ShrBits(And(x, mask, w), w - count, w);
    assert LowBits(And(x, mask, w), w)[..count] == LowBits(x, w)[..count];
  }

  /** The bits written are the first of the source, provided that the others are zero or fall out
      of the word; the other bits of the target stay. */
  lemma WritePartialBits(source: nat, count: nat, target: nat, offset: nat, w: nat)
    requires count + offset <= w && source < Pow2(w)
    requires count + offset == w || LowBits(source, w)[count..] == Zeros(w - count)
    ensures WritePartial(source, count, target, offset, w) < Pow2(w)
    ensures LowBits(WritePartial(source, count, target, offset, w), w)
         == LowBits(target, w)[..offset] + LowBits(source, w)[..count] + LowBits(target, w)[offset + count..]
  {
    hide LowBits, Shl, Shr, And, Or, Not;
    var high := Shl(Pow2(w) - 1, w - count, w);
    var mask := Shr(high, offset);
    HighMask(count, w);
    ShrBits(high, offset, w);
    NotBits(mask, w);
    AndBits(target, Not(mask, w), w);
    ShrBits(source, offset, w);
    OrBits(And(target, Not(mask, w), w), Shr(source, offset), w);
    Blend(LowBits(source, w), count, LowBits(target, w), offset,
          LowBits(WritePartial(source, count, target, offset, w), w));
  }

  // The same on sequences of bits.
  lemma Blend(source: Bits, count: nat, target: Bits, offset: nat, result: Bits)
    requires |source| == |target| && count + offset <= |target|
    requires count + offset == |target| || source[count..] == Zeros(|target| - count)
    requires var w := |target|;
             var mask := Zeros(offset) + (Ones(count) + Zeros(w - count))[..w - offset];
             result == EitherBits(BothBits(target, OtherBits(mask)), Zeros(offset) + source[..w - offset])
    ensures result == target[..offset] + source[..count] + target[offset + count..]
  {
    var w := |target|;
    assert forall i | count <= i < w - offset :: source[i] == source[count..][i - count];
  }

  // ---------------------------------------------------------------- values read in pieces

  lemma BitsOfValue(bits: Bits, w: nat)
    requires |bits| <= w
    ensures LowBits(ValueOf(bits), w) == Zeros(w - |bits|) + bits
  {
    ValueOfBound(bits);
    LowBitsOfSmall(ValueOf(bits), w - |bits|, |bits|);
    LowBitsOfValue(bits);
  }

  lemma DropZeros(a: nat, k: nat, bits: Bits)
    ensures (Zeros(a + k) + bits)[k..] == Zeros(a) + bits
  {
  }

  lemma BitsOfShiftedValue(bits: Bits, k: nat, w: nat)
    requires |bits| + k <= w
    ensures LowBits(Shl(ValueOf(bits), k, w), w) == Zeros(w - |bits| - k) + bits + Zeros(k)
  {
    BitsOfValue(bits, w);
    ShlBits(ValueOf(bits), k, w);
    DropZeros(w - |bits| - k, k, bits);
  }

  /** Appending bits to a value, as long as all of them fit in the word. */
  lemma ReadMore(read: Bits, more: Bits, w: nat)
    requires |read| + |more| <= w
    ensures Or(Shl(ValueOf(read), |more|, w), ValueOf(more), w) == ValueOf(read + more)
  {
    var blank := Zeros(w - |read| - |more|);
    BitsOfShiftedValue(read, |more|, w);
    BitsOfValue(more, w);
    Merge(blank + read, more, w);
    OrIsValue(Shl(ValueOf(read), |more|, w), ValueOf(more), w, blank + read + more);
    Appended(blank, read, more);
  }

  lemma Appended(blank: Bits, read: Bits, more: Bits)
    requires blank == Zeros(|blank|)
    ensures ValueOf(blank + read + more) == ValueOf(read + more)
  {
    assert blank + read + more == blank + (read + more);
    ValueAfterZeros(|blank|, read + more);
  }

  lemma OrIsValue(x: nat, y: nat, w: nat, bits: Bits)
    requires EitherBits(LowBits(x, w), LowBits(y, w)) == bits
    ensures Or(x, y, w) == ValueOf(bits)
  {
  }

  lemma Merge(high: Bits, low: Bits, w: nat)
    requires |high| + |low| == w
    ensures EitherBits(high + Zeros(|low|), Zeros(w - |low|) + low) == high + low
  {
  }

  // ---------------------------------------------------------------- partly read bytes

  lemma ValueOfByte(b: byte)
    ensures ValueOf(ByteBits(b)) == b
  {
    WordSizes();
    ValueOfLowBits(b, 8);
  }

  lemma ValueIsTail(bits: Bits, k: nat, x: nat)
    requires k <= |bits| && x < Pow2(|bits|)
    requires LowBits(x, |bits|) == Zeros(k) + bits[k..]
    ensures x == ValueOf(bits[k..])
  {
    ValueOfLowBits(x, |bits|);
    ValueAfterZeros(k, bits[k..]);
  }

  lemma ValueIsHead(bits: Bits, n: nat, x: nat)
    requires n <= |bits| && x < Pow2(|bits|)
    requires LowBits(x, |bits|) == Zeros(|bits| - n) + bits[..n]
    ensures x == ValueOf(bits[..n])
  {
    ValueOfLowBits(x, |bits|);
    ValueAfterZeros(|bits| - n, bits[..n]);
  }

  lemma HeadOfTail(bits: Bits, k: nat, n: nat, x: nat)
    requires k + n <= |bits| && x < Pow2(|bits|)
    requires LowBits(x, |bits|) == Zeros(k) + bits[k..]
    ensures LowBits(x, |bits|)[..k + n] == Zeros(k) + bits[k..k + n]
  {
  }

  lemma FirstByteOnly(bits: Bits, k: nat, n: nat, x: nat)
    requires k + n <= |bits| && x < Pow2(|bits|)
    requires LowBits(x, |bits|) == Zeros(k) + bits[k..]
    ensures HighestBits(x, k + n, |bits|) == ValueOf(bits[k..k + n])
  {
    var w := |bits|;
    HighestBitsAre(x, k + n, w);
    ValueIsHead(LowBits(x, w), k + n, HighestBits(x, k + n, w));
    HeadOfTail(bits, k, n, x);
    ValueAfterZeros(k, bits[k..k + n]);
  }

  /** What is left of the current byte, and the first n bits of that. */
  lemma FirstByte(bits: Bits, at: nat, b: byte, k: nat, n: nat, off: nat)
    requires at + 8 <= |bits| && bits[at..at + 8] == ByteBits(b) && k + n <= 8 && off == at + k
    ensures var x := LowestBits(b, 8 - k, 8);
            && x == Field(bits, off, at + 8)
            && HighestBits(x, k + n, 8) == Field(bits, off, off + n)
  {
    var x, piece := LowestBits(b, 8 - k, 8), ByteBits(b);
    WordSizes();
    LowestBitsAre(b, 8 - k, 8);
    ValueIsTail(piece, k, x);
    FirstByteOnly(piece, k, n, x);
    Inside(bits, at, piece, k, 8);
    Inside(bits, at, piece, k, k + n);
    assert piece[k..8] == piece[k..];
  }

  lemma Inside(bits: Bits, at: nat, piece: Bits, a: nat, b: nat)
    requires at + |piece| <= |bits| && bits[at..at + |piece|] == piece && a <= b <= |piece|
    ensures bits[at + a..at + b] == piece[a..b]
  {
    forall k | 0 <= k < b - a ensures bits[at + a..at + b][k] == piece[a..b][k] {
      assert bits[at..at + |piece|][a + k] == bits[at + a + k];
    }
  }

  lemma Extend(bits: Bits, off: nat, m: nat, n: nat, val: nat, more: nat)
    requires off <= m && m + n <= |bits| && m + n - off <= 32
    requires val == Field(bits, off, m) && more == Field(bits, m, m + n)
    ensures Or(Shl(val, n, 32), more, 32) == Field(bits, off, m + n)
  {
    ReadMore(bits[off..m], bits[m..m + n], 32);
    assert bits[off..m] + bits[m..m + n] == bits[off..m + n];
  }

  /** One more whole byte. */
  lemma NextByte(bits: Bits, off: nat, at: nat, b: byte, val: nat)
    requires off <= at && at + 8 <= |bits| && at + 8 - off <= 32 && bits[at..at + 8] == ByteBits(b)
    requires val == Field(bits, off, at)
    ensures Or(Shl(val, 8, 32), b, 32) == Field(bits, off, at + 8)
  {
    ValueOfByte(b);
    Extend(bits, off, at, 8, val, b);
  }

  lemma HeadOfByte(bits: Bits, at: nat, b: byte, n: nat)
    requires at + 8 <= |bits| && bits[at..at + 8] == ByteBits(b) && n <= 8
    ensures HighestBits(b, n, 8) == Field(bits, at, at + n)
  {
    WordSizes();
    HighestBitsAre(b, n, 8);
    ValueIsHead(ByteBits(b), n, HighestBits(b, n, 8));
    Inside(bits, at, ByteBits(b), 0, n);
    assert ByteBits(b)[0..n] == ByteBits(b)[..n];
  }

  /** The first n bits of the last byte. */
  lemma LastByte(bits: Bits, off: nat, at: nat, b: byte, n: nat, val: nat, end: nat)
    requires off <= at && at + 8 <= |bits| && n < 8 && at + n == end && end - off <= 32
    requires bits[at..at + 8] == ByteBits(b) && val == Field(bits, off, at)
    ensures Or(Shl(val, n, 32), HighestBits(b, n, 8), 32) == Field(bits, off, end)
  {
    HeadOfByte(bits, at, b, n);
    Extend(bits, off, at, n, val, HighestBits(b, n, 8));
  }

  // ---------------------------------------------------------------- bits on their way out

  const WORD: nat := 64

  /** The bits still to be written stand at the top of the uint64 value, with zeros below. */
  ghost predicate Pending(val: nat, rest: Bits) {
    && val < Pow2(WORD) && |rest| <= WORD
    && LowBits(val, WORD) == rest + Zeros(WORD - |rest|)
  }

  function HighestByte(val: nat): nat { Shr(val, WORD - 8) }

  lemma PendingInit(v: nat, n: nat)
    requires n <= WORD
    ensures Pending(Shl(v, WORD - n, WORD), LowBits(v, n))
  {
    ShlBits(v, WORD - n, WORD);
    LowBitsSuffix(v, WORD - n, n);
  }

  lemma PendingShift(val: nat, rest: Bits, k: nat)
    requires Pending(val, rest) && k <= |rest|
    ensures Pending(Shl(val, k, WORD), rest[k..])
  {
    ShlBits(val, k, WORD);
    assert (rest + Zeros(WORD - |rest|))[k..] + Zeros(k) == rest[k..] + Zeros(WORD - |rest[k..]|);
  }

  lemma HighestByteIs(val: nat)
    requires val < Pow2(WORD)
    ensures HighestByte(val) < 256
    ensures LowBits(HighestByte(val), 8) == LowBits(val, WORD)[..8]
  {
    var h := HighestByte(val);
    ShrBits(val, WORD - 8, WORD);
    LowBitsSuffix(h, WORD - 8, 8);
    ValueOfLowBits(h, WORD);
    ValueAfterZeros(WORD - 8, LowBits(val, WORD)[..8]);
    ValueOfBound(LowBits(val, WORD)[..8]);
    WordSizes();
  }

  lemma PendingByte(val: nat, rest: Bits, c: nat)
    requires Pending(val, rest) && c <= 8 && c <= |rest|
    ensures HighestByte(val) < 256
    ensures LowBits(HighestByte(val), 8)[..c] == rest[..c]
    ensures c == |rest| ==> LowBits(HighestByte(val), 8)[c..] == Zeros(8 - c)
  {
    HighestByteIs(val);
    assert (rest + Zeros(WORD - |rest|))[..8][..c] == rest[..c];
    assert c == |rest| ==> (rest + Zeros(WORD - |rest|))[..8][c..] == Zeros(8 - c);
  }

  /** How far a write has come: `done` of its bits are in the buffer, which is otherwise as before. */
  datatype Progress = Progress(before: Bits, at: nat, bits: Bits, done: nat) {

    ghost predicate Holds(now: Bits, val: nat) {
      && done <= |bits| && at + |bits| <= |before| == |now|
      && now == Overwrite(before, at, bits[..done])
      && Pending(val, bits[done..])
    }

    function More(c: nat): Progress { this.(done := done + c) }

    lemma Start(v: nat, n: nat)
      requires done == 0 && bits == LowBits(v, n) && n <= WORD && at + n <= |before|
      ensures Holds(before, Shl(v, WORD - n, WORD))
    {
      PendingInit(v, n);
      assert bits[0..] == bits;
      assert Overwrite(before, at, bits[..0]) == before;
    }

    lemma Advance(now: Bits, c: nat, val: nat)
      requires Holds(now, val) && done + c <= |bits|
      ensures More(c).Holds(Overwrite(now, at + done, bits[done..][..c]), Shl(val, c, WORD))
    {
      PendingShift(val, bits[done..], c);
      OverwriteAgain(before, at, bits[..done], bits[done..][..c]);
      assert bits[done..][c..] == bits[done + c..];
      assert bits[..done] + bits[done..][..c] == bits[..done + c];
    }

    lemma AdvanceByte(bytes: seq<byte>, i: nat, k: nat, c: nat, val: nat)
      requires Holds(BitsOf(bytes), val) && c <= |bits| - done
      requires i < |bytes| && 0 < c && k + c <= 8 && 8 * i + k == at + done
      requires k + c == 8 || c == |bits| - done
      ensures var b := WritePartial(HighestByte(val), c, bytes[i], k, 8);
              b < 256 && More(c).Holds(BitsOf(bytes[i := b]), Shl(val, c, WORD))
    {
      hide BitsOf, LowBits, Shl, WritePartial;
      PendingByte(val, bits[done..], c);
      ByteSlice(bytes, i);
      StorePart(BitsOf(bytes), 8 * i, bytes[i], k, c, HighestByte(val));
      Advance(BitsOf(bytes), c, val);
      ByteUpdate(bytes, i, WritePartial(HighestByte(val), c, bytes[i], k, 8));
    }

    lemma AdvanceWhole(bytes: seq<byte>, i: nat, val: nat)
      requires Holds(BitsOf(bytes), val) && 8 <= |bits| - done
      requires i < |bytes| && 8 * i == at + done
      ensures HighestByte(val) < 256
      ensures More(8).Holds(BitsOf(bytes[i := HighestByte(val)]), Shl(val, 8, WORD))
    {
      hide BitsOf, LowBits, Shl;
      PendingByte(val, bits[done..], 8);
      ByteUpdate(bytes, i, HighestByte(val));
      Advance(BitsOf(bytes), 8, val);
      assert ByteBits(HighestByte(val))[..8] == ByteBits(HighestByte(val));
    }

    lemma End(now: Bits)
      requires done == |bits| && exists val :: Holds(now, val)
      ensures now == Overwrite(before, at, bits)
    {
      assert bits[..done] == bits;
    }
  }

  /** Storing part of a byte overwrites just those bits of the buffer. */
  lemma StorePart(bits: Bits, at: nat, target: byte, k: nat, c: nat, h: byte)
    requires at + 8 <= |bits| && bits[at..at + 8] == ByteBits(target)
    requires 0 < c && k + c <= 8 && (k + c == 8 || ByteBits(h)[c..] == Zeros(8 - c))
    ensures var b := WritePartial(h, c, target, k, 8);
            b < 256 && bits[..at] + ByteBits(b) + bits[at + 8..] == Overwrite(bits, at + k, ByteBits(h)[..c])
  {
    WordSizes();
    WritePartialBits(h, c, target, k, 8);
    OverwriteInside(bits, at, ByteBits(target), k, ByteBits(h)[..c]);
  }

  lemma OverwriteInside(bits: Bits, at: nat, old8: Bits, k: nat, code: Bits)
    requires at + 8 <= |bits| && |old8| == 8 && k + |code| <= 8 && bits[at..at + 8] == old8
    ensures bits[..at] + (old8[..k] + code + old8[k + |code|..]) + bits[at + 8..] == Overwrite(bits, at + k, code)
  {
    assert bits[at..at + 8][k + |code|..] == bits[at + k + |code|..at + 8];
  }

  // ---------------------------------------------------------------- codes

  method CountBits(v: nat) returns (count: nat)
    ensures count == BitLength(v)
  {
    count := 0;
    var val := v;
    while val != 0
      invariant count + BitLength(val) == BitLength(v)
    {
      count := count + 1;
      val := val / 2;
    }
  }

  lemma OneBit(bits: Bits, off: nat)
    requires off < |bits|
    ensures Field(bits, off, off + 1) == if bits[off] then 1 else 0
  {
    ValueOfAppend([], bits[off]);
    assert bits[off..off + 1] == [] + [bits[off]];
  }

  lemma CountedZeros(bits: Bits, off: nat, z: nat)
    requires off + z <= |bits| && (off + z < |bits| ==> bits[off + z])
    requires forall i | off <= i < off + z :: !bits[i]
    ensures LeadingZeros(bits[off..]) == z
  {
    LeadingZerosOf(z, bits[off + z..]);
    assert bits[off..] == Zeros(z) + bits[off + z..];
  }

  /** What decoding comes to once the zeros have been counted. */
  lemma DecodeFrom(bits: Bits, off: nat, z: nat)
    requires off <= |bits| && z == LeadingZeros(bits[off..])
    ensures off + z <= |bits|
    ensures Decode(bits, off) == None <==> z + 1 > 32 || off + z + (z + 1) > |bits|
  {
    LeadingZerosAt(bits[off..]);
  }

  lemma DecodeTo(bits: Bits, off: nat, one: nat, code: nat, end: nat)
    requires off <= |bits| && one == off + LeadingZeros(bits[off..]) < off + 32
    requires end == one + (one - off + 1) <= |bits| && code == Field(bits, one, end)
    ensures code > 0 && Decode(bits, off) == Some((code - 1, end))
  {
    LeadingZerosAt(bits[off..]);
    StartsWithOne(bits[one..end]);
  }

  // ---------------------------------------------------------------- the buffer

  /** BitBuffer and its writing subclass: the bytes, and the offset of the next bit. */
  class BitBuffer {
    const bytes: array<byte>
    var byteOffset: nat
    var bitOffset: nat

    ghost predicate Valid()
      reads this
    {
      bitOffset < 8 && Offset() <= 8 * bytes.Length
    }

    ghost function Offset(): nat
      reads this
    {
      8 * byteOffset + bitOffset
    }

    ghost function Contents(): Bits
      reads bytes
    {
      BitsOf(bytes[..])
    }

    constructor (bytes: array<byte>)
      ensures Valid() && this.bytes == bytes && Offset() == 0
    {
      this.bytes := bytes;
      byteOffset := 0;
      bitOffset := 0;
    }

    function RemainingBitCount(): (r: int)
      reads this
      ensures r == 8 * bytes.Length - Offset()
    {
      (bytes.Length - byteOffset) * 8 - bitOffset
    }

    /** Reading without consuming.  The byte at the offset is loaded even for a count of 0. */
    method PeekBits(count: nat) returns (ok: bool, val: nat)
      requires Valid() && (count == 0 ==> byteOffset < bytes.Length)
      ensures ok <==> Offset() + count <= 8 * bytes.Length && count <= 32
      ensures ok ==> val == Field(Contents(), Offset(), Offset() + count)
    {
      hide BitsOf;
      val := 0;
      ok := count <= RemainingBitCount() && count <= 32;
      if ok {
        ghost var off, at := Offset(), 8 * byteOffset;
        ByteSlice(bytes[..], byteOffset);
        var rest := 8 - bitOffset;
        var first := LowestBits(bytes[byteOffset], rest, 8);
        if count < rest {
          FirstByte(Contents(), at, bytes[byteOffset], bitOffset, count, off);
          val := HighestBits(first, bitOffset + count, 8);
        } else {
          FirstByte(Contents(), at, bytes[byteOffset], bitOffset, 0, off);
          val := PeekFurther(off, at + 8, off + count, byteOffset + 1, count - rest, first);
        }
      }
    }

    /** The loop of PeekBits over whole bytes. */
    method PeekWholeBytes(ghost off: nat, ghost at: nat, next: nat, count: nat, first: nat)
      returns (val: nat, i: nat, left: nat)
      requires off <= at == 8 * next && at + count - off <= 32 && at + count <= 8 * bytes.Length
      requires first == Field(Contents(), off, at)
      ensures next <= i && left < 8 && 8 * i + left == at + count
      ensures val == Field(Contents(), off, 8 * i)
    {
      val, i, left := first, next, count;
      while left >= 8
        invariant next <= i && 8 * i + left == at + count
        invariant val == Field(Contents(), off, 8 * i)
      {
        ByteSlice(bytes[..], i);
        NextByte(Contents(), off, 8 * i, bytes[i], val);
        val, i, left := Or(Shl(val, 8, 32), bytes[i], 32), i + 1, left - 8;
      }
    }

    /** The part of PeekBits after the first byte: whole bytes, then the start of one more. */
    method PeekFurther(ghost off: nat, ghost at: nat, ghost end: nat, next: nat, count: nat, first: nat)
      returns (val: nat)
      requires off <= at == 8 * next && at + count == end <= 8 * bytes.Length && end - off <= 32
      requires first == Field(Contents(), off, at)
      ensures val == Field(Contents(), off, end)
    {
      var i, left;
      val, i, left := PeekWholeBytes(off, at, next, count, first);
      if left > 0 {
        ByteSlice(bytes[..], i);
        LastByte(Contents(), off, 8 * i, bytes[i], left, val, end);
        val := Or(Shl(val, left, 32), HighestBits(bytes[i], left, 8), 32);
      }
    }

    method ConsumeBits(count: nat) returns (ok: bool)
      requires Valid()
      modifies this
      ensures Valid()
      ensures ok <==> old(Offset()) + count <= 8 * bytes.Length
      ensures Offset() == if ok then old(Offset()) + count else old(Offset())
    {
      if count > RemainingBitCount() {
        return false;
      }
      byteOffset, bitOffset := byteOffset + (bitOffset + count) / 8, (bitOffset + count) % 8;
      ok := true;
    }

    method ReadBits(count: nat) returns (ok: bool, val: nat)
      requires Valid() && (count == 0 ==> byteOffset < bytes.Length)
      modifies this
      ensures Valid()
      ensures ok <==> old(Offset()) + count <= 8 * bytes.Length && count <= 32
      ensures Offset() == if ok then old(Offset()) + count else old(Offset())
      ensures ok ==> val == Field(Contents(), old(Offset()), Offset())
    {
      ok, val := PeekBits(count);
      if ok {
        ok := ConsumeBits(count);
      }
    }

    method Seek(newByteOffset: nat, newBitOffset: nat) returns (ok: bool)
      requires Valid()
      modifies this
      ensures Valid()
      ensures ok <==> newBitOffset < 8 && 8 * newByteOffset + newBitOffset <= 8 * bytes.Length
      ensures Offset() == if ok then 8 * newByteOffset + newBitOffset else old(Offset())
      ensures ok ==> byteOffset == newByteOffset && bitOffset == newBitOffset
    {
      if newByteOffset > bytes.Length || newBitOffset > 7
         || (newByteOffset == bytes.Length && newBitOffset > 0) {
        return false;
      }
      byteOffset, bitOffset := newByteOffset, newBitOffset;
      ok := true;
    }

    // ------------------------------------------------------------ writing

    /** Writes at one byte the first c of the pending bits. */
    method StorePartly(i: nat, k: nat, c: nat, val: nat, ghost p: Progress)
      requires p.Holds(Contents(), val) && c <= |p.bits| - p.done
      requires i < bytes.Length && 0 < c && k + c <= 8 && 8 * i + k == p.at + p.done
      requires k + c == 8 || c == |p.bits| - p.done
      modifies bytes
      ensures p.More(c).Holds(Contents(), Shl(val, c, WORD))
    {
      p.AdvanceByte(bytes[..], i, k, c, val);
      bytes[i] := WritePartial(HighestByte(val), c, bytes[i], k, 8);
      assert bytes[..] == old(bytes[..])[i := bytes[i]];
    }

    /** Writes a whole byte of the pending bits. */
    method StoreWhole(i: nat, val: nat, ghost p: Progress)
      requires p.Holds(Contents(), val) && 8 <= |p.bits| - p.done
      requires i < bytes.Length && 8 * i == p.at + p.done
      modifies bytes
      ensures p.More(8).Holds(Contents(), Shl(val, 8, WORD))
    {
      p.AdvanceWhole(bytes[..], i, val);
      bytes[i] := HighestByte(val);
      assert bytes[..] == old(bytes[..])[i := bytes[i]];
    }

    /** Writes the low bits of a uint64 and moves past them. */
    method WriteBits(v: nat, count: nat) returns (ok: bool)
      requires Valid() && v < Pow2(WORD) && count > 0
      requires Offset() + count <= 8 * bytes.Length ==> count <= WORD
      modifies this, bytes
      ensures Valid()
      ensures ok <==> old(Offset()) + count <= 8 * bytes.Length
      ensures ok ==> Contents() == Overwrite(old(Contents()), old(Offset()), LowBits(v, count))
      ensures ok ==> Offset() == old(Offset()) + count
      ensures !ok ==> Contents() == old(Contents()) && Offset() == old(Offset())
    {
      if count > RemainingBitCount() {
        return false;
      }
      ghost var p := Progress(Contents(), Offset(), LowBits(v, count), 0);
      var left, val := count, Shl(v, WORD - count, WORD);
      p.Start(v, count);
      var rest := 8 - bitOffset;
      var first := if count < rest then count else rest;
      StorePartly(byteOffset, bitOffset, first, val, p);
      p := p.More(first);
      if count > rest {
        left, val := left - first, Shl(val, first, WORD);
        StoreRest(byteOffset + 1, left, val, p);
        p := p.More(left);
      }
      p.End(Contents());
      ok := ConsumeBits(count);
    }

    /** The part of WriteBits after the first byte. */
    method StoreRest(next: nat, count: nat, pending: nat, ghost before: Progress)
      requires before.Holds(Contents(), pending) && count == |before.bits| - before.done
      requires 8 * next == before.at + before.done
      modifies bytes
      ensures exists val :: before.More(count).Holds(Contents(), val)
    {
      ghost var p := before;
      var i, left, val := next, count, pending;
      while left >= 8
        invariant left <= count && p == before.More(count - left)
        invariant 8 * i == p.at + p.done && left == |p.bits| - p.done
        invariant p.Holds(Contents(), val)
      {
        StoreWhole(i, val, p);
        p := p.More(8);
        i, left, val := i + 1, left - 8, Shl(val, 8, WORD);
      }
      if left > 0 {
        StorePartly(i, 0, left, val, p);
        assert before.More(count).Holds(Contents(), Shl(val, left, WORD));
      } else {
        assert before.More(count).Holds(Contents(), val);
      }
    }

    // ------------------------------------------------------------ Exp-Golomb codes

    /** Skips the zero bits ahead, one at a time. */
    method SkipZeros() returns (zeros: nat)
      requires Valid()
      modifies this
      ensures Valid()
      ensures zeros == LeadingZeros(Contents()[old(Offset())..])
      ensures Offset() == old(Offset()) + zeros
    {
      hide BitsOf;
      ghost var bits, start := Contents(), Offset();
      zeros := 0;
      var ok, bit := PeekBits(1);
      while ok && bit == 0
        invariant Valid() && Offset() == start + zeros <= |bits| == 8 * bytes.Length
        invariant Contents() == bits
        invariant ok <==> start + zeros < |bits|
        invariant ok ==> bit == Field(bits, start + zeros, start + zeros + 1)
        invariant forall i | start <= i < start + zeros :: !bits[i]
        decreases |bits| - start - zeros
      {
        OneBit(bits, start + zeros);
        assert !bits[start + zeros];
        zeros := zeros + 1;
        var consumed := ConsumeBits(1);
        ok, bit := PeekBits(1);
      }
      if ok {
        OneBit(bits, start + zeros);
      }
      CountedZeros(bits, start, zeros);
    }

    /** Reads one code, or fails and goes back to where it started; going back never fails. */
    method ReadExponentialGolomb() returns (ok: bool, val: nat)
      requires Valid()
      modifies this
      ensures Valid()
      ensures Decode(Contents(), old(Offset())) == if ok then Some((val, Offset())) else None
      ensures !ok ==> Offset() == old(Offset())
    {
      ghost var bits, start := Contents(), Offset();
      var originalByteOffset, originalBitOffset := byteOffset, bitOffset;
      var zeros := SkipZeros();
      DecodeFrom(bits, start, zeros);
      ghost var one := Offset();
      var valueBits := zeros + 1;
      ok, val := false, 0;
      if valueBits <= 32 {
        ok, val := ReadBits(valueBits);
      }
      if ok {
        DecodeTo(bits, start, one, val, Offset());
        val := val - 1;
      } else {
        var restored := Seek(originalByteOffset, originalBitOffset);
        assert restored;
      }
    }

    method ReadSignedExponentialGolomb() returns (ok: bool, val: int)
      requires Valid()
      modifies this
      ensures Valid()
      ensures Decode(Contents(), old(Offset())) == if ok then Some((SignedToUnsigned(val), Offset())) else None
      ensures ok ==> -INT32_MAX <= val <= INT32_MAX
      ensures !ok ==> Offset() == old(Offset())
    {
      var u: int;
      ok, u := ReadExponentialGolomb();
      if u % 2 == 0 {
        val := -(u / 2);
      } else {
        val := (u + 1) / 2;
      }
    }

    /** Writes one code; UINT32_MAX is refused, as it could not be read back. */
    method WriteExponentialGolomb(v: nat) returns (ok: bool)
      requires Valid() && v <= UINT32_MAX
      modifies this, bytes
      ensures Valid()
      ensures ok <==> v < UINT32_MAX && old(Offset()) + |Encode(v)| <= 8 * bytes.Length
      ensures ok ==> Contents() == Overwrite(old(Contents()), old(Offset()), Encode(v))
      ensures ok ==> Offset() == old(Offset()) + |Encode(v)|
      ensures !ok ==> Contents() == old(Contents()) && Offset() == old(Offset())
    {
      if v == UINT32_MAX {
        return false;
      }
      var count := CountBits(v + 1);
      LengthWithin32(v + 1);
      WordSizes();
      ok := WriteBits(v + 1, 2 * count - 1);
    }

    method WriteSignedExponentialGolomb(v: int) returns (ok: bool)
      requires Valid() && -INT32_MAX - 1 <= v <= INT32_MAX
      modifies this, bytes
      ensures Valid()
      ensures ok <==> v != -INT32_MAX - 1
                      && old(Offset()) + |Encode(SignedToUnsigned(v))| <= 8 * bytes.Length
      ensures ok ==> Contents() == Overwrite(old(Contents()), old(Offset()), Encode(SignedToUnsigned(v)))
      ensures ok ==> Offset() == old(Offset()) + |Encode(SignedToUnsigned(v))|
      ensures !ok ==> Contents() == old(Contents()) && Offset() == old(Offset())
    {
      if v == 0 {
        ok := WriteExponentialGolomb(0);
      } else if v > 0 {
        ok := WriteExponentialGolomb(v * 2 - 1);
      } else if v == -INT32_MAX - 1 {
        return false;
      } else {
        ok := WriteExponentialGolomb(-v * 2);
      }
    }
  }
}
