/** pgen/core/data_container.h: a byte vector whose first `pivot` bytes are head-room. */
module DataContainers {
  import opened Bytes
  import opened Exceptions

  class DataContainer {
    var vec: array<byte>
    var pivot: nat

    ghost predicate Valid()
      reads this
    {
      pivot <= vec.Length
    }

    constructor (pivot: nat)
      ensures Valid() && fresh(vec)
      ensures this.pivot == pivot && vec[..] == Zeros(pivot)
    {
      vec := new byte[pivot](_ => 0);
      this.pivot := pivot;
    }

    /** The default copy assignment: the vector is copied, not shared. */
    method Assign(rhs: DataContainer)
      requires rhs.Valid()
      modifies this
      ensures Valid() && fresh(vec)
      ensures pivot == old(rhs.pivot) && vec[..] == old(rhs.vec[..])
    {
      var from := rhs.vec;
      vec := new byte[from.Length](i requires 0 <= i < from.Length reads from => from[i]);
      pivot := rhs.pivot;
    }

    method DeleteContent()
      requires Valid()
      modifies this`vec
      ensures Valid() && fresh(vec)
      ensures vec[..] == old(vec[..pivot])
    {
      var from := vec;
      vec := new byte[pivot](i requires 0 <= i < from.Length reads from => from[i]);
    }

    /** The content is replaced; the head-room keeps its bytes. */
    method SetContent(buf: seq<byte>)
      requires Valid()
      modifies this`vec
      ensures Valid() && fresh(vec)
      ensures vec[..] == old(vec[..pivot]) + buf
    {
      DeleteContent();
      var head := vec;
      vec := new byte[pivot + |buf|](_ => 0);
      MemCopy(vec, 0, head[..]);
      MemCopy(vec, pivot, buf);
    }

    /** Writes `buf` so that it ends where `index` begins. */
    method WriteBefore(index: nat, buf: seq<byte>) returns (o: Outcome)
      requires Valid() && index <= vec.Length
      modifies vec
      ensures o.Pass? <==> |buf| <= index
      ensures vec[..] == if o.Pass? then Splice(old(vec[..]), index - |buf|, buf) else old(vec[..])
    {
      if index < |buf| {
        return Fail(BufferTooSmall);
      }
      MemCopy(vec, index - |buf|, buf);
      return Pass;
    }
  }
}
