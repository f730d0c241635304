/** The growing array behind the printer's buffer. */
module DynArrays {

  class DynArray<T(0)> {
    var mem: array<T>
    var size: nat

    ghost predicate Valid()
      reads this
    {
      size <= mem.Length
    }

    ghost function Contents(): seq<T>
      reads this, mem
      requires Valid()
    {
      mem[..size]
    }

    constructor (initial: nat)
      ensures Valid() && Contents() == [] && fresh(mem) && mem.Length == initial
    {
      mem := new T[initial];
      size := 0;
    }

    /** Grows to twice the wanted capacity when that does not fit; the contents are copied. */
    method EnsureCapacity(cap: nat)
      requires Valid()
      modifies this
      ensures Valid() && size == old(size) && Contents() == old(Contents())
      ensures if cap <= old(mem).Length then mem == old(mem) else fresh(mem) && mem.Length == cap * 2
    {
      if cap > mem.Length {
        var newMem := new T[cap * 2];
        forall k | 0 <= k < size {
          newMem[k] := mem[k];
        }
        mem := newMem;
      }
    }

    method Push(t: T)
      requires Valid()
      modifies this, mem
      ensures Valid() && Contents() == old(Contents()) + [t]
      ensures mem == old(mem) || fresh(mem)
    {
      EnsureCapacity(size + 1);
      mem[size] := t;
      size := size + 1;
    }

    /** Room for `count` more elements: the index of the first. The old contents stay in front. */
    method PushArr(count: nat) returns (at: nat)
      requires Valid()
      modifies this, mem
      ensures Valid() && at == old(size) && size == at + count && mem[..at] == old(Contents())
      ensures mem == old(mem) || fresh(mem)
    {
      EnsureCapacity(size + count);
      at := size;
      size := size + count;
    }
  }
}
