// The growing array (kernel/Containers/Array.hpp).
module DynArray {
  import opened LinkedList

  class Array<T(0, ==)> {
    var data: array<T>
    var size: nat
    var capacity: nat

    ghost predicate Valid()
      reads this
    {
      size <= capacity == data.Length
    }

    ghost function Contents(): (s: seq<T>)
      reads this, data
      requires Valid()
      ensures |s| == size
    {
      data[..size]
    }

    constructor ()
      ensures Valid() && fresh(data) && Contents() == []
    {
      data := new T[0];
      size, capacity := 0, 0;
    }

    function Get(index: nat): T
      reads this, data
      requires Valid() && index < size
    {
      data[index]
    }

    // The doubled capacity is a 32-bit word.
    method Resize()
      requires Valid() && capacity < 0x8000_0000
      modifies this
      ensures Valid() && fresh(data) && size == old(size)
      ensures capacity == if old(capacity) > 0 then 2 * old(capacity) else 8
      ensures Contents() == old(Contents())
    {
      var newCapacity := if capacity > 0 then capacity * 2 else 8;
      var newData := new T[newCapacity];
      var a := 0;
      while a < capacity
        invariant 0 <= a <= capacity
        invariant newData[..a] == data[..a]
        modifies newData
      {
        newData[a] := data[a];
        a := a + 1;
      }
      assert newData[..capacity][..size] == data[..capacity][..size];
      data := newData;
      capacity := newCapacity;
    }

    // An index behind the end means the end.
    method InsertAt(index: nat, arg: T)
      requires Valid() && size < 0x8000_0000
      modifies this, data
      ensures Valid() && (data == old(data) || fresh(data))
      ensures
        var i := if index > old(size) then old(size) else index;
        Contents() == old(Contents())[..i] + [arg] + old(Contents())[i..]
    {
      var i := if index > size then size else index;
      if size + 1 > capacity {
        Resize();
      }
      Put(i, arg);
    }

    method Put(index: nat, arg: T)
      requires Valid() && index <= size < capacity
      modifies this`size, data
      ensures Valid()
      ensures Contents() == old(Contents())[..index] + [arg] + old(Contents())[index..]
    {
      ShiftUp(index);
      data[index] := arg;
      size := size + 1;
      assert data[..size] == data[..index] + [data[index]] + data[index + 1..size];
    }

    // The loop of InsertAt.
    method ShiftUp(index: nat)
      requires Valid() && index <= size < capacity
      modifies data
      ensures data[..index] == old(data[..index])
      ensures data[index + 1..size + 1] == old(data[index..size])
    {
      var a := size;
      while a > index
        invariant index <= a <= size
        invariant forall j :: 0 <= j <= a ==> data[j] == old(data[j])
        invariant forall j {:trigger data[j]} :: a < j <= size ==> data[j] == old(data[j - 1])
      {
        data[a] := data[a - 1];
        a := a - 1;
      }
    }

    // One element goes if the index is not behind the end: the indexed one,
    // or the last one for the index that is just behind the end.
    method RemoveAt(index: nat)
      requires Valid() && !(size == 0 && index == 0)
      modifies this, data
      ensures Valid() && data == old(data)
      ensures Contents() ==
              if index > old(size) then old(Contents())
              else if index == old(size) then old(Contents())[..index - 1]
              else old(Contents())[..index] + old(Contents())[index + 1..]
    {
      if index > size {
        return;
      }
      size := size - 1;
      ShiftDown(index);
    }

    // The loop of RemoveAt, which does nothing for the index just behind the
    // end.
    method ShiftDown(index: nat)
      requires Valid() && size < capacity
      modifies data
      ensures Contents() ==
              if index <= size then old(data[..index]) + old(data[index + 1..size + 1]) else old(data[..size])
    {
      var a := index;
      while a < size
        invariant index <= a && (a <= size || a == index)
        invariant forall j :: 0 <= j < index && j < capacity ==> data[j] == old(data[j])
        invariant forall j {:trigger data[j]} :: index <= j < a ==> data[j] == old(data[j + 1])
        invariant forall j :: a < j <= size ==> data[j] == old(data[j])
      {
        data[a] := data[a + 1];
        a := a + 1;
      }
    }

    method PushBack(arg: T)
      requires Valid() && size < 0x8000_0000
      modifies this, data
      ensures Valid() && (data == old(data) || fresh(data))
      ensures Contents() == old(Contents()) + [arg]
    {
      InsertAt(size, arg);
    }

    method Remove(arg: T)
      requires Valid()
      modifies this, data
      ensures Valid() && data == old(data)
      ensures Contents() == Without(old(Contents()), arg)
    {
      hide Without, Filtered, Kept;
      var a := 0;
      ghost var done, s := 0, Contents();
      FilteredEnds(s, arg);
      while a < size
        invariant Valid() && data == old(data) && 0 <= done <= |s|
        invariant Contents() == Filtered(s, done, arg)
        invariant a == Kept(s, done, arg) && size == a + |s| - done
        decreases |s| - done
      {
        FilteredStep(s, done, arg);
        if data[a] == arg {
          RemoveAt(a);
        } else {
          a := a + 1;
        }
        done := done + 1;
      }
    }

    method Clear()
      requires Valid()
      modifies this
      ensures Valid() && data == old(data) && Contents() == []
    {
      size := 0;
    }
  }
}
