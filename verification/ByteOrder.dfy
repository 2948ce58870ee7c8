/** Bytes, and numbers laid out in memory in either byte order. */
module ByteOrder {

  type byte = b: int | 0 <= b < 256

  /** The n low-order bytes of a number, most significant first. */
  function BigEndian(v: nat, n: nat): (s: seq<byte>)
    ensures |s| == n
    decreases n, v
  {
    if n == 0 then [] else BigEndian(v / 256, n - 1) + [v % 256]
  }

  function FromBigEndian(s: seq<byte>): nat {
    if s == [] then 0 else 256 * FromBigEndian(s[..|s| - 1]) + s[|s| - 1]
  }

  /** 256^n. */
  function Bound(n: nat): (p: nat)
    ensures p >= 1
  {
    if n == 0 then 1 else 256 * Bound(n - 1)
  }

  /** n / 256^k. */
  function Shifted(v: nat, k: nat): nat
    decreases k, v
  {
    if k == 0 then v else Shifted(v / 256, k - 1)
  }

  /** Byte by byte, in either order. */
  lemma {:induction false} BytesOf(v: nat, n: nat, k: nat)
    requires k < n
    ensures BigEndian(v, n)[n - 1 - k] == Shifted(v, k) % 256 == LittleEndian(v, n)[k]
    decreases n
  {
    if k > 0 {
      BytesOf(v / 256, n - 1, k - 1);
    }
  }

  /** A number comes back from its bytes as far as they can hold it. */
  lemma {:induction false} BigEndianRoundTrip(v: nat, n: nat)
    ensures FromBigEndian(BigEndian(v, n)) == v <==> v < Bound(n)
    decreases n
  {
    if n > 0 {
      BigEndianRoundTrip(v / 256, n - 1);
      assert BigEndian(v, n)[..n - 1] == BigEndian(v / 256, n - 1);
    }
  }

  lemma {:induction false} FromBigEndianBound(s: seq<byte>)
    ensures FromBigEndian(s) < Bound(|s|)
  {
    if s != [] {
      FromBigEndianBound(s[..|s| - 1]);
    }
  }

  /** Bytes are determined by the number they stand for. */
  lemma {:induction false} BigEndianUnique(s: seq<byte>)
    ensures BigEndian(FromBigEndian(s), |s|) == s
  {
    if s != [] {
      BigEndianUnique(s[..|s| - 1]);
      assert FromBigEndian(s) / 256 == FromBigEndian(s[..|s| - 1]);
    }
  }

  /** The n low-order bytes, least significant first. */
  function LittleEndian(v: nat, n: nat): (s: seq<byte>)
    ensures |s| == n
    decreases n, v
  {
    if n == 0 then [] else [v % 256] + LittleEndian(v / 256, n - 1)
  }

  function FromLittleEndian(s: seq<byte>): nat {
    if s == [] then 0 else s[0] + 256 * FromLittleEndian(s[1..])
  }

  lemma {:induction false} LittleEndianRoundTrip(v: nat, n: nat)
    ensures FromLittleEndian(LittleEndian(v, n)) == v <==> v < Bound(n)
    decreases n
  {
    if n > 0 {
      LittleEndianRoundTrip(v / 256, n - 1);
      assert LittleEndian(v, n)[1..] == LittleEndian(v / 256, n - 1);
    }
  }

  function Reverse(s: seq<byte>): (r: seq<byte>)
    ensures |r| == |s|
  {
    seq(|s|, i requires 0 <= i < |s| => s[|s| - 1 - i])
  }

  /** The two orders are mirror images. */
  lemma {:induction false} OrdersMirror(v: nat, n: nat)
    ensures LittleEndian(v, n) == Reverse(BigEndian(v, n))
    decreases n
  {
    if n > 0 {
      OrdersMirror(v / 256, n - 1);
    }
  }

  lemma {:induction false} LittleEndianUnique(s: seq<byte>)
    ensures LittleEndian(FromLittleEndian(s), |s|) == s
  {
    if s != [] {
      LittleEndianUnique(s[1..]);
      assert FromLittleEndian(s) / 256 == FromLittleEndian(s[1..]);
    }
  }

  // ---------------------------------------------------------------- words on a little-endian host

  /** The word whose memory holds a number most significant byte first, and the number in the memory
      of such a word. */
  function HostToNetwork(v: nat, n: nat): nat { FromLittleEndian(BigEndian(v, n)) }

  function NetworkToHost(word: nat, n: nat): nat { FromBigEndian(LittleEndian(word, n)) }

  lemma NetworkInMemory(v: nat, n: nat)
    ensures LittleEndian(HostToNetwork(v, n), n) == BigEndian(v, n)
  {
    LittleEndianUnique(BigEndian(v, n));
  }

  lemma NetworkFromMemory(s: seq<byte>)
    ensures NetworkToHost(FromLittleEndian(s), |s|) == FromBigEndian(s)
  {
    LittleEndianUnique(s);
  }

  /** Both conversions reverse the bytes of the word, and they are inverse to each other. */
  lemma SwapsBytes(v: nat, n: nat)
    ensures LittleEndian(HostToNetwork(v, n), n) == Reverse(LittleEndian(v, n))
    ensures NetworkToHost(HostToNetwork(v, n), n) == v <==> v < Bound(n)
  {
    NetworkInMemory(v, n);
    BigEndianRoundTrip(v, n);
    OrdersMirror(v, n);
    assert Reverse(Reverse(BigEndian(v, n))) == BigEndian(v, n);
  }

  /** A word that is one byte too wide: the unused byte comes first or last. */
  lemma {:induction false} WiderWord(v: nat, n: nat)
    ensures BigEndian(v, n + 1)[1..] == BigEndian(v, n)
    ensures LittleEndian(v, n + 1)[..n] == LittleEndian(v, n)
    decreases n
  {
    if n > 0 {
      WiderWord(v / 256, n - 1);
    }
  }

  lemma {:induction false} UnusedByte(s: seq<byte>)
    ensures FromBigEndian([0] + s) == FromBigEndian(s)
    ensures FromLittleEndian(s + [0]) == FromLittleEndian(s)
  {
    if s != [] {
      UnusedByte(s[..|s| - 1]);
      UnusedByte(s[1..]);
      assert ([0] + s)[..|s|] == [0] + s[..|s| - 1];
      assert (s + [0])[1..] == s[1..] + [0];
    } else {
      assert [0][..0] == [] && [0] + s == [0] == s + [0];
    }
  }
}
