/** Writing numbers and strings into a growing buffer, and reading them back. */
module ByteBuffer {
  import opened ByteOrder
  import opened Options
  import opened Sequences

  datatype Order = Network | Host

  /** A number in n bytes; the host is little-endian. */
  function Layout(order: Order, v: nat, n: nat): (s: seq<byte>)
    ensures |s| == n
  {
    if order == Network then BigEndian(v, n) else LittleEndian(v, n)
  }

  function Value(order: Order, s: seq<byte>): nat {
    if order == Network then FromBigEndian(s) else FromLittleEndian(s)
  }

  lemma LayoutRoundTrip(order: Order, v: nat, n: nat)
    ensures Value(order, Layout(order, v, n)) == v <==> v < Bound(n)
  {
    BigEndianRoundTrip(v, n);
    LittleEndianRoundTrip(v, n);
  }

  // ---------------------------------------------------------------- varints

  /** Seven bits at a time, least significant first, with a mark on all bytes but the last. */
  function Varint(v: nat): (s: seq<byte>)
    ensures s != []
  {
    if v < 128 then [v] else [v % 128 + 128] + Varint(v / 128)
  }

  /** 128^n. */
  function Pow128(n: nat): (p: nat)
    ensures p > 0
  {
    if n == 0 then 1 else 128 * Pow128(n - 1)
  }

  /** The number in up to n bytes, and the bytes after it. */
  function ReadVarint(s: seq<byte>, n: nat): Option<(nat, seq<byte>)>
    decreases n
  {
    if n == 0 || s == [] then None
    else if s[0] < 128 then Some((s[0], s[1..]))
    else
      var rest := ReadVarint(s[1..], n - 1);
      if rest.None? then None else Some((s[0] % 128 + 128 * rest.value.0, rest.value.1))
  }

  lemma {:induction false} VarintRoundTrip(v: nat, n: nat, after: seq<byte>)
    requires n > 0 && v < Pow128(n)
    ensures |Varint(v)| <= n
    ensures ReadVarint(Varint(v) + after, n) == Some((v, after))
    decreases n
  {
    var s := Varint(v) + after;
    if v < 128 {
      assert s[1..] == after;
    } else {
      VarintRoundTrip(v / 128, n - 1, after);
      assert s[1..] == Varint(v / 128) + after;
    }
  }

  /** All bytes but the last are marked, and each holds the next seven bits. */
  lemma {:induction false} VarintBytes(v: nat, k: nat)
    requires k < |Varint(v)|
    ensures Varint(v)[k] >= 128 <==> k < |Varint(v)| - 1
    ensures Varint(v)[k] % 128 == Sevens(v, k) % 128
    decreases v
  {
    if v >= 128 && k > 0 {
      VarintBytes(v / 128, k - 1);
    }
  }

  /** v / 128^k. */
  function Sevens(v: nat, k: nat): nat
    decreases k, v
  {
    if k == 0 then v else Sevens(v / 128, k - 1)
  }

  const UINT64: nat := 0x1_0000_0000_0000_0000

  lemma TenBytes()
    ensures UINT64 <= Pow128(10)
  {
    assert Pow128(5) == 0x8_0000_0000;
    assert Pow128(10) == 0x8_0000_0000 * Pow128(5);
  }

  // ---------------------------------------------------------------- lists of items

  datatype Item =
    | Fixed(width: nat, value: nat)
    | UVarint(value: nat)
    | Bytes(bytes: seq<byte>)
  {
    /** What the argument types allow; 24-bit values are passed in 32 bits. */
    predicate Fits() {
      match this
      case Fixed(width, value) => value < Bound(width)
      case UVarint(value) => value < 0x1_0000_0000_0000_0000
      case Bytes(bytes) => true
    }

    function Kind(): Kind {
      match this
      case Fixed(width, _) => FixedKind(width)
      case UVarint(_) => VarintKind
      case Bytes(bytes) => BytesKind(|bytes|)
    }

    function Encoded(order: Order): seq<byte> {
      match this
      case Fixed(width, value) => Layout(order, value, width)
      case UVarint(value) => Varint(value)
      case Bytes(bytes) => bytes
    }
  }

  /** What a reader asks for. */
  datatype Kind = FixedKind(width: nat) | VarintKind | BytesKind(count: nat)

  function ReadItem(order: Order, k: Kind, s: seq<byte>): Option<(Item, seq<byte>)> {
    match k
    case FixedKind(n) => if |s| < n then None else Some((Fixed(n, Value(order, s[..n])), s[n..]))
    case BytesKind(n) => if |s| < n then None else Some((Bytes(s[..n]), s[n..]))
    case VarintKind =>
      var r := ReadVarint(s, 10);
      if r.None? then None else Some((UVarint(r.value.0 % UINT64), r.value.1))
  }

  function WriteAll(order: Order, items: seq<Item>): seq<byte> {
    if items == [] then [] else items[0].Encoded(order) + WriteAll(order, items[1..])
  }

  function Kinds(items: seq<Item>): seq<Kind> {
    seq(|items|, i requires 0 <= i < |items| => items[i].Kind())
  }

  function ReadAll(order: Order, kinds: seq<Kind>, s: seq<byte>): Option<(seq<Item>, seq<byte>)>
    decreases |kinds|
  {
    if kinds == [] then Some(([], s))
    else
      var first := ReadItem(order, kinds[0], s);
      if first.None? then None
      else
        var rest := ReadAll(order, kinds[1..], first.value.1);
        if rest.None? then None else Some(([first.value.0] + rest.value.0, rest.value.1))
  }

  lemma ItemRoundTrip(order: Order, item: Item, after: seq<byte>)
    requires item.Fits()
    ensures ReadItem(order, item.Kind(), item.Encoded(order) + after) == Some((item, after))
  {
    hide Layout, Value, Varint, ReadVarint;
    match item
    case Fixed(width, value) =>
      LayoutRoundTrip(order, value, width);
      Prefix(Layout(order, value, width), after);
    case UVarint(value) =>
      TenBytes();
      VarintRoundTrip(value, 10, after);
      SmallRemainder(value);
    case Bytes(bytes) =>
      Prefix(bytes, after);
  }

  lemma Prefix(s: seq<byte>, after: seq<byte>)
    ensures (s + after)[..|s|] == s && (s + after)[|s|..] == after
  {
  }

  lemma SmallRemainder(v: nat)
    requires v < UINT64
    ensures v % UINT64 == v
  {
  }

  /** In either byte order, reading what was written gives the same items back. */
  lemma {:induction false} RoundTrip(order: Order, items: seq<Item>, after: seq<byte>)
    requires forall i | 0 <= i < |items| :: items[i].Fits()
    ensures ReadAll(order, Kinds(items), WriteAll(order, items) + after) == Some((items, after))
    decreases |items|
  {
    hide ReadItem;
    if items == [] {
      assert [] + after == after;
    } else {
      var first, rest := items[0].Encoded(order), WriteAll(order, items[1..]);
      Assoc(first, rest, after);
      ItemRoundTrip(order, items[0], rest + after);
      RoundTrip(order, items[1..], after);
      assert Kinds(items)[1..] == Kinds(items[1..]);
      assert [items[0]] + items[1..] == items;
    }
  }

  // ---------------------------------------------------------------- the writer

  const DEFAULT_SIZE: nat := 4096

  class ByteBufferWriter {
    const order: Order
    var bytes: array<byte>
    var start: nat
    var end: nat

    ghost predicate Valid()
      reads this
    {
      start <= end <= bytes.Length
    }

    ghost function Contents(): (s: seq<byte>)
      requires Valid()
      reads this, bytes
      ensures |s| == end - start
    {
      bytes[start..end]
    }

    constructor (order: Order)
      ensures Valid() && fresh(bytes) && Contents() == [] && this.order == order && bytes.Length == 4096
    {
      this.order := order;
      bytes, start, end := new byte[DEFAULT_SIZE], 0, 0;
    }

    /** Cuts the contents off, or makes room for more; they move to the beginning. */
    method Resize(size: nat)
      requires Valid()
      modifies this, bytes
      ensures Valid() && (bytes == old(bytes) || fresh(bytes)) && start == 0
      ensures Contents() == if size < |old(Contents())| then old(Contents())[..size] else old(Contents())
      ensures bytes.Length >= size && bytes.Length >= old(bytes.Length)
      ensures size > old(bytes.Length) ==>
                bytes.Length == size || (bytes.Length == 3 * old(bytes.Length) / 2 && bytes.Length > size)
    {
      var len := if end - start < size then end - start else size;
      if size <= bytes.Length {
        forall i | 0 <= i < len {
          bytes[i] := bytes[start + i];
        }
      } else {
        var newSize := if size > 3 * bytes.Length / 2 then size else 3 * bytes.Length / 2;
        var newBytes := new byte[newSize];
        forall i | 0 <= i < len {
          newBytes[i] := bytes[start + i];
        }
        bytes := newBytes;
      }
      start, end := 0, len;
    }

    /** Room for more bytes at the end, which are then part of the contents. */
    method ReserveWriteBuffer(len: nat) returns (at: nat)
      requires Valid()
      modifies this, bytes
      ensures Valid() && (bytes == old(bytes) || fresh(bytes))
      ensures at + len == end && start <= at && bytes[start..at] == old(Contents())
    {
      if end - start + len > bytes.Length - start {
        Resize(end - start + len);
      }
      at := end;
      end := end + len;
    }

    method WriteBytes(val: seq<byte>)
      requires Valid()
      modifies this, bytes
      ensures Valid() && (bytes == old(bytes) || fresh(bytes))
      ensures Contents() == old(Contents()) + val
    {
      var at := ReserveWriteBuffer(|val|);
      forall i | 0 <= i < |val| {
        bytes[at + i] := val[i];
      }
    }

    /** WriteUInt8, 16, 32 and 64: the word itself, swapped for the network. */
    method WriteFixed(width: nat, val: nat)
      requires Valid()
      modifies this, bytes
      ensures Valid() && (bytes == old(bytes) || fresh(bytes))
      ensures Contents() == old(Contents()) + Fixed(width, val).Encoded(order)
      ensures order == Network ==> Contents() == old(Contents()) + BigEndian(val, width)
      ensures order == Host ==> Contents() == old(Contents()) + LittleEndian(val, width)
    {
      var v := if order == Network then HostToNetwork(val, width) else val;
      NetworkInMemory(val, width);
      WriteBytes(LittleEndian(v, width));
    }

    /** Three bytes of a word of four, from its second byte on if it is swapped. */
    method WriteUInt24(val: nat)
      requires Valid()
      modifies this, bytes
      ensures Valid() && (bytes == old(bytes) || fresh(bytes))
      ensures Contents() == old(Contents()) + Fixed(3, val).Encoded(order)
    {
      hide BigEndian, LittleEndian, HostToNetwork;
      var v := if order == Network then HostToNetwork(val, 4) else val;
      var first := if order == Network then 1 else 0;
      NetworkInMemory(val, 4);
      WiderWord(val, 3);
      WriteBytes(LittleEndian(v, 4)[first..first + 3]);
    }

    method WriteUVarint(val: nat)
      requires Valid()
      modifies this, bytes
      ensures Valid() && (bytes == old(bytes) || fresh(bytes))
      ensures Contents() == old(Contents()) + UVarint(val).Encoded(order)
    {
      var v := val;
      ghost var written: seq<byte> := [];
      while v >= 0x80
        invariant Valid() && (bytes == old(bytes) || fresh(bytes))
        invariant Contents() == old(Contents()) + written
        invariant written + Varint(v) == Varint(val)
      {
        WriteBytes([v % 128 + 128]);
        Assoc(old(Contents()), written, [v % 128 + 128]);
        Assoc(written, [v % 128 + 128], Varint(v / 128));
        written := written + [v % 128 + 128];
        v := v / 128;
      }
      WriteBytes([v]);
      Assoc(old(Contents()), written, [v]);
    }

    method Clear()
      requires Valid()
      modifies this, bytes
      ensures Valid() && Contents() == [] && bytes == old(bytes)
    {
      forall i | 0 <= i < bytes.Length {
        bytes[i] := 0;
      }
      start, end := 0, 0;
    }
  }

  // ---------------------------------------------------------------- the reader

  class ByteBufferReader {
    const order: Order
    const bytes: seq<byte>
    var start: nat

    ghost predicate Valid()
      reads this
    {
      start <= |bytes|
    }

    ghost function Rest(): seq<byte>
      requires Valid()
      reads this
    {
      bytes[start..]
    }

    constructor (bytes: seq<byte>, order: Order)
      ensures Valid() && Rest() == bytes && this.order == order
    {
      this.bytes, this.order, start := bytes, order, 0;
    }

    method ReadBytes(len: nat) returns (ok: bool, val: seq<byte>)
      requires Valid()
      modifies this
      ensures Valid() && (ok <==> len <= |old(Rest())|)
      ensures if ok then val == old(Rest())[..len] && Rest() == old(Rest())[len..] else Rest() == old(Rest())
    {
      if len > |bytes| - start {
        return false, [];
      }
      ok, val := true, bytes[start..start + len];
      start := start + len;
    }

    /** ReadUInt8, 16, 32 and 64: the word itself, swapped if it comes from the network. */
    method ReadFixed(width: nat) returns (ok: bool, val: nat)
      requires Valid()
      modifies this
      ensures Valid()
      ensures ReadItem(order, FixedKind(width), old(Rest())) == if ok then Some((Fixed(width, val), Rest())) else None
      ensures !ok ==> Rest() == old(Rest())
    {
      var s;
      ok, s := ReadBytes(width);
      if !ok {
        return false, 0;
      }
      var v := FromLittleEndian(s);
      val := if order == Network then NetworkToHost(v, width) else v;
      NetworkFromMemory(s);
    }

    /** Three bytes read into a word of four that is zero, from its second byte on if it is to be
        swapped. */
    method ReadUInt24() returns (ok: bool, val: nat)
      requires Valid()
      modifies this
      ensures Valid()
      ensures ReadItem(order, FixedKind(3), old(Rest())) == if ok then Some((Fixed(3, val), Rest())) else None
      ensures !ok ==> Rest() == old(Rest())
    {
      hide FromBigEndian, FromLittleEndian, NetworkToHost;
      var s;
      ok, s := ReadBytes(3);
      if !ok {
        return false, 0;
      }
      var word := if order == Network then [0] + s else s + [0];
      var v := FromLittleEndian(word);
      val := if order == Network then NetworkToHost(v, 4) else v;
      NetworkFromMemory(word);
      UnusedByte(s);
    }

    /** At most ten bytes, seven bits of each; bits beyond the 64th are lost.  After a failure the
        bytes looked at are gone. */
    method ReadUVarint() returns (ok: bool, val: nat)
      requires Valid()
      modifies this
      ensures Valid()
      ensures ReadItem(order, VarintKind, old(Rest())) == if ok then Some((UVarint(val), Rest())) else None
      ensures !ok ==> |Rest()| == if |old(Rest())| > 10 then |old(Rest())| - 10 else 0
    {
      hide ReadVarint, Scaled, Digit;
      val := 0;
      var factor: nat := 1;
      ghost var sum: nat, seen: nat := 0, 0;
      ghost var target := ReadVarint(Rest(), 10);
      ScaledStart(target);
      var i := 0;
      while i < 64
        invariant Valid() && i == 7 * seen && seen <= 10 && |old(Rest())| - |Rest()| == seen
        invariant val == sum % UINT64
        invariant target == Scaled(sum, factor, ReadVarint(Rest(), 10 - seen))
        decreases 64 - i
      {
        ghost var rest := Rest();
        var got, s := ReadBytes(1);
        if !got {
          ScaledEmpty(sum, factor, 10 - seen, rest);
          return false, 0;
        }
        assert rest[..1][0] == rest[0];
        ScaledStep(sum, factor, rest, 10 - seen);
        RemainderOfSum(sum, Digit(s[0], factor));
        sum, seen := sum + Digit(s[0], factor), seen + 1;
        val := (val + Digit(s[0], factor)) % UINT64;
        if s[0] < 128 {
          return true, val;
        }
        factor, i := factor * 128, i + 7;
      }
      ScaledEmpty(sum, factor, 0, Rest());
      return false, 0;
    }
  }

  /** The seven bits of a byte, shifted into place. */
  function Digit(b: byte, factor: nat): nat { b % 128 * factor }

  lemma RemainderOfSum(x: nat, y: nat)
    ensures (x % UINT64 + y) % UINT64 == (x + y) % UINT64
  {
  }

  /** The value so far plus what the rest still adds. */
  function Scaled(sum: nat, factor: nat, r: Option<(nat, seq<byte>)>): Option<(nat, seq<byte>)> {
    if r.None? then None else Some((sum + factor * r.value.0, r.value.1))
  }

  lemma ScaledStart(r: Option<(nat, seq<byte>)>)
    ensures Scaled(0, 1, r) == r
  {
  }

  lemma ScaledEmpty(sum: nat, factor: nat, n: nat, s: seq<byte>)
    requires n == 0 || s == []
    ensures Scaled(sum, factor, ReadVarint(s, n)) == None
  {
  }

  lemma ScaledStep(sum: nat, factor: nat, s: seq<byte>, n: nat)
    requires n > 0 && s != []
    ensures Scaled(sum, factor, ReadVarint(s, n))
         == if s[0] < 128 then Some((sum + Digit(s[0], factor), s[1..]))
            else Scaled(sum + Digit(s[0], factor), factor * 128, ReadVarint(s[1..], n - 1))
  {
    var rest := ReadVarint(s[1..], n - 1);
    if s[0] >= 128 && rest.Some? {
      Distribute(factor, s[0] % 128, rest.value.0);
    }
  }

  lemma Distribute(factor: nat, x: nat, y: nat)
    ensures factor * (x + 128 * y) == x * factor + factor * 128 * y
  {
  }
}
