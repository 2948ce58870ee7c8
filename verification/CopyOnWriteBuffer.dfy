/** Buffers that share their storage until one of them is written to.  Every operation acts on its
    target as on a byte sequence of its own. */
module CopyOnWriteBuffer {
  import opened ByteOrder
  import opened Buffers

  /** The reference-counted object that handles share, and the handles that refer to it. */
  class Shared {
    var refCount: nat
    const buffer: Buffer<byte>
    ghost var owners: set<CopyOnWriteBuffer>

    constructor (buffer: Buffer<byte>)
      ensures this.buffer == buffer && refCount == 0 && owners == {}
    {
      this.buffer := buffer;
      refCount, owners := 0, {};
    }
  }

  /** All handles that exist, and all objects that they share. */
  class World {
    ghost var handles: set<CopyOnWriteBuffer>
    ghost var objects: set<Shared>

    ghost function Buffers(): set<Buffer<byte>>
      reads this
    {
      set s | s in objects :: s.buffer
    }

    ghost function Arrays(): set<array<byte>>
      reads this, Buffers()
    {
      set b | b in Buffers() :: b.data
    }

    /** The reference counts count the handles. */
    ghost predicate Linked()
      reads this, handles, objects
    {
      && (forall h | h in handles && h.ref != null :: h.ref in objects && h in h.ref.owners)
      && (forall s, h | s in objects && h in s.owners :: h in handles && h.ref == s)
      && (forall s | s in objects :: s.refCount == |s.owners|)
    }

    /** Different objects have no storage in common. */
    ghost predicate Separate()
      reads this, Buffers()
    {
      && (forall s | s in objects :: s.buffer.Valid())
      && (forall s, t | s in objects && t in objects && s != t ::
            s.buffer != t.buffer && s.buffer.data != t.buffer.data)
    }

    ghost predicate Valid()
      reads this, handles, objects, Buffers()
    {
      Linked() && Separate()
    }
  }

  class CopyOnWriteBuffer {
    var ref: Shared?

    ghost predicate In(w: World)
      reads w, w.handles, w.objects, w.Buffers()
    {
      w.Valid() && this in w.handles
    }

    ghost function Contents(w: World): seq<byte>
      requires In(w)
      reads w, w.handles, w.objects, w.Buffers(), w.Arrays()
    {
      if ref == null then [] else ref.buffer.Contents()
    }

    /** What every operation expects and, but for one case, leaves. */
    ghost predicate IsConsistent()
      reads this, ref, if ref == null then {} else {ref.buffer}
    {
      ref != null ==> ref.buffer.Capacity() > 0
    }

    /** HasOneRef is enough to know that nobody else sees the object. */
    lemma OnlyOwner(w: World)
      requires In(w) && ref != null && ref.refCount == 1
      ensures ref in w.objects
      ensures forall h | h in w.handles && h != this :: h.ref == null || (h.ref in w.objects && h.ref != ref)
    {
      assert |ref.owners - {this}| == 0;
      assert ref.owners == {this};
    }

    // ------------------------------------------------------------ references

    /** Assigns the reference, counting. */
    method Attach(s: Shared?, ghost w: World)
      requires In(w) && (s != null ==> s in w.objects)
      modifies `ref, w.objects`refCount, w.objects`owners
      ensures In(w) && ref == s
      ensures s != null && s != old(ref) ==> s.refCount == old(s.refCount) + 1
    {
      if s != ref {
        Relink(s, w);
      }
    }

    method Relink(s: Shared?, ghost w: World)
      requires w.Linked() && this in w.handles && s != ref && (s != null ==> s in w.objects)
      modifies `ref, w.objects`refCount, w.objects`owners
      ensures w.Linked() && ref == s
      ensures s != null ==> s.refCount == old(s.refCount) + 1
    {
      if s != null {
        s.refCount, s.owners := s.refCount + 1, s.owners + {this};
      }
      if ref != null {
        ref.refCount, ref.owners := ref.refCount - 1, ref.owners - {this};
      }
      ref := s;
    }

    /** A new object, not referred to yet. */
    method NewShared(items: seq<byte>, capacity: nat, ghost w: World) returns (s: Shared)
      requires In(w)
      modifies w`objects
      ensures In(w) && fresh(s) && fresh(s.buffer) && fresh(s.buffer.data)
      ensures w.objects == old(w.objects) + {s} && s.refCount == 0
      ensures s.buffer.Contents() == items
      ensures s.buffer.Capacity() == if |items| > capacity then |items| else capacity
    {
      var buffer := new Buffer.FromData(items, capacity);
      s := new Shared(buffer);
      w.objects := w.objects + {s};
    }

    /** Makes this handle the only one of its object. */
    method CloneDataIfReferenced(newCapacity: nat, ghost w: World)
      requires In(w) && ref != null && newCapacity >= ref.buffer.Capacity()
      modifies `ref, w`objects, w.objects`refCount, w.objects`owners
      ensures In(w) && ref != null && ref.refCount == 1
      ensures w.objects >= old(w.objects)
      ensures ref == old(ref) || (fresh(ref) && fresh(ref.buffer) && fresh(ref.buffer.data))
      ensures ref.buffer.Contents() == old(ref.buffer.Contents())
      ensures ref.buffer.Capacity() == if ref == old(ref) then old(ref.buffer.Capacity()) else newCapacity
    {
      if ref.refCount == 1 {
        return;
      }
      var s := NewShared(ref.buffer.data[..ref.buffer.size], newCapacity, w);
      Attach(s, w);
    }

    // ------------------------------------------------------------ the operations

    /** Appends to an object that nobody else refers to. */
    method AppendInPlace(data: seq<byte>, ghost w: World)
      requires In(w) && ref != null && ref.refCount == 1
      modifies ref.buffer, ref.buffer.data
      ensures In(w) && Contents(w) == old(Contents(w)) + data
      ensures forall h | h in w.handles && h != this :: h.Contents(w) == old(h.Contents(w))
      ensures ref.buffer.Capacity() >= old(ref.buffer.Capacity())
    {
      hide World.Linked;
      OnlyOwner(w);
      ref.buffer.AppendData(data);
    }

    /** Starts a new object with these bytes. */
    method AttachNew(items: seq<byte>, capacity: nat, ghost w: World)
      requires In(w)
      modifies `ref, w`objects, w.objects`refCount, w.objects`owners
      ensures In(w) && Contents(w) == items && ref != null
      ensures ref.buffer.Capacity() == if |items| > capacity then |items| else capacity
      ensures forall h | h in w.handles && h != this :: h.Contents(w) == old(h.Contents(w))
    {
      var s := NewShared(items, capacity, w);
      Attach(s, w);
    }

    /** Changing the object of its only owner is invisible to all others. */
    method AppendData(data: seq<byte>, ghost w: World)
      requires In(w) && IsConsistent()
      modifies `ref, w`objects, w.objects`refCount, w.objects`owners, w.Buffers(), w.Arrays()
      ensures In(w) && Contents(w) == old(Contents(w)) + data
      ensures forall h | h in w.handles && h != this :: h.Contents(w) == old(h.Contents(w))
      ensures IsConsistent() <==> old(ref) != null || data != []
    {
      if ref == null {
        AttachNew(data, |data|, w);
      } else {
        var needed := ref.buffer.size + |data|;
        CloneDataIfReferenced(if needed > ref.buffer.data.Length then needed else ref.buffer.data.Length, w);
        AppendInPlace(data, w);
      }
    }

    /** Replaces the bytes of an object that nobody else refers to. */
    method SetInPlace(data: seq<byte>, ghost w: World)
      requires In(w) && ref != null && ref.refCount == 1
      modifies ref.buffer, ref.buffer.data
      ensures In(w) && Contents(w) == data
      ensures forall h | h in w.handles && h != this :: h.Contents(w) == old(h.Contents(w))
      ensures ref.buffer.Capacity() >= old(ref.buffer.Capacity())
    {
      hide World.Linked;
      OnlyOwner(w);
      ref.buffer.SetData(data);
    }

    method SetData(data: seq<byte>, ghost w: World)
      requires In(w) && IsConsistent()
      modifies `ref, w`objects, w.objects`refCount, w.objects`owners, w.Buffers(), w.Arrays()
      ensures In(w) && Contents(w) == data && IsConsistent()
      ensures forall h | h in w.handles && h != this :: h.Contents(w) == old(h.Contents(w))
    {
      if ref == null || ref.refCount != 1 {
        if |data| > 0 {
          AttachNew(data, |data|, w);
        } else {
          Attach(null, w);
        }
      } else {
        SetInPlace(data, w);
      }
    }

    /** Assignment, and SetData from another handle. */
    method Assign(buf: CopyOnWriteBuffer, ghost w: World)
      requires In(w) && buf.In(w) && buf.IsConsistent()
      modifies `ref, w.objects`refCount, w.objects`owners
      ensures In(w) && Contents(w) == old(buf.Contents(w)) && (buf != this ==> IsConsistent())
      ensures forall h | h in w.handles && h != this :: h.Contents(w) == old(h.Contents(w))
    {
      if buf != this {
        Attach(buf.ref, w);
      }
    }

    method Swap(buf: CopyOnWriteBuffer, ghost w: World)
      requires In(w) && buf.In(w)
      modifies `ref, buf`ref, w.objects`refCount, w.objects`owners
      ensures In(w) && Contents(w) == old(buf.Contents(w)) && buf.Contents(w) == old(Contents(w))
      ensures forall h | h in w.handles && h != this && h != buf :: h.Contents(w) == old(h.Contents(w))
    {
      var t := ref;
      Attach(buf.ref, w);
      buf.Attach(t, w);
    }

    /** Move assignment: the source is left empty, also when it is the target. */
    method MoveFrom(buf: CopyOnWriteBuffer, ghost w: World)
      requires In(w) && buf.In(w)
      modifies `ref, buf`ref, w.objects`refCount, w.objects`owners
      ensures In(w) && buf.Contents(w) == []
      ensures buf != this ==> Contents(w) == old(buf.Contents(w))
      ensures forall h | h in w.handles && h != this && h != buf :: h.Contents(w) == old(h.Contents(w))
    {
      Swap(buf, w);
      buf.Attach(null, w);
    }

    /** Truncates in place, or extends with uninitialised bytes. */
    method ResizeInPlace(size: nat, ghost w: World)
      requires In(w) && ref != null && ref.refCount == 1
      modifies ref.buffer, ref.buffer.data
      ensures In(w) && |Contents(w)| == size
      ensures size <= |old(Contents(w))| ==> Contents(w) == old(Contents(w))[..size]
      ensures size >= |old(Contents(w))| ==> Contents(w)[..|old(Contents(w))|] == old(Contents(w))
      ensures forall h | h in w.handles && h != this :: h.Contents(w) == old(h.Contents(w))
      ensures ref.buffer.Capacity() >= old(ref.buffer.Capacity())
    {
      hide World.Linked;
      OnlyOwner(w);
      ref.buffer.SetSize(size);
    }

    method SetSize(size: nat, ghost w: World)
      requires In(w) && IsConsistent()
      modifies `ref, w`objects, w.objects`refCount, w.objects`owners, w.Buffers(), w.Arrays()
      ensures In(w) && IsConsistent() && |Contents(w)| == size
      ensures size <= |old(Contents(w))| ==> Contents(w) == old(Contents(w))[..size]
      ensures size >= |old(Contents(w))| ==> Contents(w)[..|old(Contents(w))|] == old(Contents(w))
      ensures forall h | h in w.handles && h != this :: h.Contents(w) == old(h.Contents(w))
    {
      if ref == null {
        if size > 0 {
          var uninitialised := new byte[size];
          AttachNew(uninitialised[..], size, w);
        }
      } else {
        CloneDataIfReferenced(if size > ref.buffer.data.Length then size else ref.buffer.data.Length, w);
        ResizeInPlace(size, w);
      }
    }

    method ReserveInPlace(capacity: nat, ghost w: World)
      requires In(w) && ref != null && ref.refCount == 1
      modifies ref.buffer
      ensures In(w) && Contents(w) == old(Contents(w))
      ensures forall h | h in w.handles && h != this :: h.Contents(w) == old(h.Contents(w))
      ensures ref.buffer.Capacity() >= capacity && ref.buffer.Capacity() >= old(ref.buffer.Capacity())
    {
      hide World.Linked;
      OnlyOwner(w);
      ref.buffer.EnsureCapacity(capacity);
    }

    method EnsureCapacity(capacity: nat, ghost w: World)
      requires In(w) && IsConsistent()
      modifies `ref, w`objects, w.objects`refCount, w.objects`owners, w.Buffers()
      ensures In(w) && IsConsistent() && Contents(w) == old(Contents(w))
      ensures (if ref == null then 0 else ref.buffer.Capacity()) >= capacity
      ensures forall h | h in w.handles && h != this :: h.Contents(w) == old(h.Contents(w))
    {
      if ref == null {
        if capacity > 0 {
          AttachNew([], capacity, w);
        }
      } else if capacity > ref.buffer.data.Length {
        CloneDataIfReferenced(capacity, w);
        ReserveInPlace(capacity, w);
      }
    }

    method ClearInPlace(ghost w: World)
      requires In(w) && ref != null && ref.refCount == 1
      modifies ref.buffer
      ensures In(w) && Contents(w) == [] && ref.buffer.data == old(ref.buffer.data)
      ensures forall h | h in w.handles && h != this :: h.Contents(w) == old(h.Contents(w))
    {
      hide World.Linked;
      OnlyOwner(w);
      ref.buffer.Clear();
    }

    /** The capacity is given up only if the object is shared. */
    method Clear(ghost w: World)
      requires In(w) && IsConsistent()
      modifies `ref, w.objects`refCount, w.objects`owners, w.Buffers()
      ensures In(w) && IsConsistent() && Contents(w) == []
      ensures ref == null <==> old(ref == null || ref.refCount != 1)
      ensures ref != null ==> ref == old(ref) && ref.buffer.Capacity() == old(ref.buffer.Capacity())
      ensures forall h | h in w.handles && h != this :: h.Contents(w) == old(h.Contents(w))
    {
      if ref == null || ref.refCount != 1 {
        Attach(null, w);
      } else {
        ClearInPlace(w);
      }
    }

    /** The writable pointer: an array that holds the bytes of this handle and of no other. */
    method Data(ghost w: World) returns (data: array?<byte>)
      requires In(w) && IsConsistent()
      modifies `ref, w`objects, w.objects`refCount, w.objects`owners
      ensures In(w) && IsConsistent() && Contents(w) == old(Contents(w))
      ensures data == null <==> ref == null
      ensures data != null ==> ref.buffer.data == data && |Contents(w)| <= data.Length
      ensures data != null ==> fresh(data) || data in old(w.Arrays())
      ensures data != null ==> forall h | h in w.handles && h != this && h.ref != null :: h.ref.buffer.data != data
      ensures forall h | h in w.handles && h != this :: h.Contents(w) == old(h.Contents(w))
    {
      if ref == null {
        return null;
      }
      CloneDataIfReferenced(ref.buffer.data.Length, w);
      OnlyOwner(w);
      data := ref.buffer.data;
    }

    /** Writing one byte through the subscript operator. */
    method SetByte(index: nat, v: byte, ghost w: World)
      requires In(w) && IsConsistent() && index < |Contents(w)|
      modifies `ref, w`objects, w.objects`refCount, w.objects`owners, w.Arrays()
      ensures In(w) && IsConsistent() && Contents(w) == old(Contents(w))[index := v]
      ensures forall h | h in w.handles && h != this :: h.Contents(w) == old(h.Contents(w))
    {
      var data := Data(w);
      data[index] := v;
    }

    // ------------------------------------------------------------ beginning and end

    constructor (ghost w: World)
      requires w.Valid()
      modifies w`handles
      ensures In(w) && w.handles == old(w.handles) + {this} && IsConsistent() && Contents(w) == []
    {
      ref := null;
      new;
      w.handles := w.handles + {this};
    }

    method Destroy(ghost w: World)
      requires In(w)
      modifies `ref, w`handles, w.objects`refCount, w.objects`owners
      ensures w.Valid() && w.handles == old(w.handles) - {this}
      ensures forall h | h in w.handles :: h.Contents(w) == old(h.Contents(w))
    {
      Attach(null, w);
      w.handles := w.handles - {this};
    }

    /** Equality of handles: the same object, or objects with the same bytes. */
    method Equals(buf: CopyOnWriteBuffer, ghost w: World) returns (equal: bool)
      requires In(w) && buf.In(w)
      ensures (ref == null) == (buf.ref == null) ==> (equal <==> Contents(w) == buf.Contents(w))
      ensures (ref == null) != (buf.ref == null) ==> !equal
    {
      equal := ref == buf.ref
               || (ref != null && buf.ref != null
                   && ref.buffer.data[..ref.buffer.size] == buf.ref.buffer.data[..buf.ref.buffer.size]);
    }
  }
}
