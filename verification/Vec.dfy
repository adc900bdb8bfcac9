/** vec.h and vec.c: growable vectors, the process table and the mailboxes among them. */
module Vec {
  import opened Powers

  class Vector<T(0)> {
    var data: array<T>
    var length: nat
    var capacity: nat

    ghost predicate Valid()
      reads this, data
    {
      length <= capacity == data.Length && (capacity > 0 ==> PowerOfTwo(capacity))
    }

    ghost function Contents(): seq<T>
      requires Valid()
      reads this, data
    {
      data[..length]
    }

    /** vec_init */
    constructor ()
      ensures Valid() && fresh(data) && Contents() == []
    {
      data, length, capacity := new T[0], 0, 0;
    }

    /** vec_expand_: room for one more, by doubling.  granted: whether realloc has the memory;
        without it an assertion stops the kernel. */
    method Expand(granted: bool) returns (ok: bool)
      requires Valid()
      modifies this
      ensures Valid() && (data == old(data) || fresh(data)) && length == old(length)
      ensures Contents() == old(Contents())
      ensures ok <==> granted || length < old(capacity)
      ensures ok ==> length < capacity
      ensures capacity == if ok && length == old(capacity) then (if length == 0 then 1 else 2 * length)
                          else old(capacity)
    {
      ok := true;
      if length + 1 > capacity {
        var n := if capacity == 0 then 1 else 2 * capacity;
        if !granted {
          return false;
        }
        var ptr := new T[n];
        forall i | 0 <= i < length {
          ptr[i] := data[i];
        }
        if capacity == 0 { OneIsPower(); } else { DoublePower(capacity); }
        data, capacity := ptr, n;
      }
    }

    /** vec_push */
    method Push(x: T, granted: bool) returns (ok: bool)
      requires Valid()
      modifies this, data
      ensures Valid() && (data == old(data) || fresh(data))
      ensures ok <==> granted || old(length < capacity)
      ensures Contents() == if ok then old(Contents()) + [x] else old(Contents())
    {
      ok := Expand(granted);
      if ok {
        data[length] := x;
        length := length + 1;
      }
    }

    /** vec_pop */
    method Pop() returns (x: T)
      requires Valid() && length > 0
      modifies this`length
      ensures Valid() && old(Contents()) == Contents() + [x]
    {
      length := length - 1;
      x := data[length];
    }
  }
}
