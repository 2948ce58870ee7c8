/** The growing buffer under both socket buffers and the copy-on-write buffer. */
module Buffers {

  class Buffer<T(0)> {
    var size: nat
    var data: array<T>

    ghost predicate Valid()
      reads this
    {
      size <= data.Length
    }

    ghost function Contents(): (s: seq<T>)
      requires Valid()
      reads this, data
      ensures |s| == size
    {
      data[..size]
    }

    function Capacity(): nat
      reads this
    {
      data.Length
    }

    constructor ()
      ensures Valid() && fresh(data) && Contents() == [] && Capacity() == 0
    {
      size, data := 0, new T[0];
    }

    /** Uninitialised elements. */
    constructor Sized(size: nat, capacity: nat)
      ensures Valid() && fresh(data) && this.size == size
      ensures Capacity() == if size > capacity then size else capacity
    {
      this.size, data := size, new T[if size > capacity then size else capacity];
    }

    constructor FromData(items: seq<T>, capacity: nat)
      ensures Valid() && fresh(data) && Contents() == items
      ensures Capacity() == if |items| > capacity then |items| else capacity
    {
      size := |items|;
      data := new T[if |items| > capacity then |items| else capacity];
      new;
      forall i | 0 <= i < |items| {
        data[i] := items[i];
      }
    }

    /** Reallocates when the capacity is too small, keeping the elements; the new space is
        uninitialised. */
    method EnsureCapacityWithHeadroom(capacity: nat, extraHeadroom: bool)
      requires Valid()
      modifies this`data
      ensures Valid() && Contents() == old(Contents())
      ensures data == old(data) || fresh(data)
      ensures capacity <= old(Capacity()) ==> data == old(data)
      ensures capacity > old(Capacity()) ==>
                Capacity() == if extraHeadroom && capacity < old(Capacity()) + old(Capacity()) / 2
                              then old(Capacity()) + old(Capacity()) / 2 else capacity
    {
      if capacity <= data.Length {
        return;
      }
      var newCapacity := if extraHeadroom && capacity < data.Length + data.Length / 2
                         then data.Length + data.Length / 2 else capacity;
      var newData := new T[newCapacity];
      forall i | 0 <= i < size {
        newData[i] := data[i];
      }
      data := newData;
    }

    method EnsureCapacity(capacity: nat)
      requires Valid()
      modifies this`data
      ensures Valid() && Contents() == old(Contents())
      ensures data == old(data) || fresh(data)
      ensures Capacity() == if capacity > old(Capacity()) then capacity else old(Capacity())
    {
      EnsureCapacityWithHeadroom(capacity, false);
    }

    method AppendData(items: seq<T>)
      requires Valid()
      modifies this, data
      ensures Valid() && Contents() == old(Contents()) + items
      ensures data == old(data) || fresh(data)
      ensures Capacity() >= old(Capacity())
      ensures size <= old(Capacity()) ==> data == old(data)
    {
      var newSize := size + |items|;
      EnsureCapacityWithHeadroom(newSize, true);
      forall i | 0 <= i < |items| {
        data[size + i] := items[i];
      }
      size := newSize;
    }

    method SetData(items: seq<T>)
      requires Valid()
      modifies this, data
      ensures Valid() && Contents() == items
      ensures data == old(data) || fresh(data)
      ensures Capacity() >= old(Capacity())
    {
      size := 0;
      AppendData(items);
    }

    /** Truncates, or extends with uninitialised elements. */
    method SetSize(newSize: nat)
      requires Valid()
      modifies this
      ensures Valid() && size == newSize
      ensures newSize <= old(size) ==> Contents() == old(Contents())[..newSize]
      ensures newSize >= old(size) ==> Contents()[..old(size)] == old(Contents())
      ensures data == old(data) || fresh(data)
      ensures newSize <= old(Capacity()) ==> data == old(data)
    {
      EnsureCapacityWithHeadroom(newSize, true);
      size := newSize;
    }

    method Clear()
      requires Valid()
      modifies this`size
      ensures Valid() && Contents() == []
    {
      size := 0;
    }
  }

  /** memmove within one array. */
  method MoveDown<T>(a: array<T>, from: nat, count: nat)
    requires from + count <= a.Length
    modifies a
    ensures a[..count] == old(a[from..from + count])
    ensures a[count..] == old(a[count..])
  {
    forall i | 0 <= i < count {
      a[i] := a[from + i];
    }
  }
}
