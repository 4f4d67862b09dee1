/** The growing byte buffer: an allocation, an offset into it and a length, which together stand for a byte sequence. */
module Buffers {
  import opened Bytes

  class Buffer {
    var alloc: array<byte>
    var offset: nat   // the C code's `data` pointer is `alloc + offset`
    var length: nat
    var size: nat

    ghost predicate Valid()
      reads this
    {
      size == alloc.Length && offset + length <= size
    }

    ghost function Contents(): seq<byte>
      requires Valid()
      reads this, alloc
    {
      alloc[offset..offset + length]
    }

    constructor (size: nat)
      ensures Valid() && fresh(alloc) && Contents() == []
    {
      alloc := new byte[size];
      this.size := size;
      offset, length := 0, 0;
    }

    predicate IsEmpty()
      requires Valid()
      reads this, alloc
      ensures IsEmpty() <==> Contents() == []
    {
      length == 0
    }

    method Rewind()
      requires Valid()
      modifies this, alloc
      ensures Valid() && alloc == old(alloc) && length == old(length) && size == old(size) && offset == 0
      ensures Contents() == old(Contents())
    {
      if offset != 0 {
        if length != 0 {
          forall i | 0 <= i < length {
            alloc[i] := alloc[offset + i];
          }
        }
        offset := 0;
      }
    }

    /** Makes room for `extra` more bytes. */
    method Resize(extra: nat) returns (r: nat)
      requires Valid()
      modifies this, alloc
      ensures Valid() && (alloc == old(alloc) || fresh(alloc)) && offset == 0 && length == old(length)
      ensures r == size == (if old(size) < length + extra then length + extra else old(size))
      ensures Contents() == old(Contents())
    {
      Rewind();
      var expected := length + extra;
      if size < expected {
        var grown := new byte[expected];
        forall i | 0 <= i < size {
          grown[i] := alloc[i];
        }
        ghost var was := Contents();
        size := expected;
        alloc := grown;
        assert Contents() == was;
      }
      return size;
    }

    method Append(data: seq<byte>)
      requires Valid()
      modifies this, alloc
      ensures Valid() && (alloc == old(alloc) || fresh(alloc))
      ensures Contents() == old(Contents()) + data
    {
      ghost var was := Contents();
      var n := Resize(|data|);
      forall i | 0 <= i < |data| {
        alloc[length + i] := data[i];
      }
      length := length + |data|;
      assert Contents() == was + data;
    }

    method Copy(other: Buffer)
      requires Valid() && other.Valid() && other != this && other.alloc != alloc
      modifies this, alloc
      ensures Valid() && (alloc == old(alloc) || fresh(alloc))
      ensures Contents() == old(other.Contents())
    {
      var n := Resize(other.length);
      forall i | 0 <= i < other.length {
        alloc[i] := other.alloc[other.offset + i];
      }
      length := other.length;
    }

    /** Drops the first bytes. */
    method Cut(len: nat) returns (left: nat)
      requires Valid() && len <= length
      modifies this
      ensures Valid() && alloc == old(alloc)
      ensures left == |Contents()| && Contents() == old(Contents())[len..]
    {
      offset := offset + len;
      length := length - len;
      return length;
    }

    method Take(len: nat) returns (data: seq<byte>)
      requires Valid()
      modifies this
      ensures Valid() && alloc == old(alloc)
      ensures old(Contents()) == data + Contents()
      ensures |data| == if len < |old(Contents())| then len else |old(Contents())|
    {
      var chunk := if length < len then length else len;
      data := [];
      if chunk > 0 {
        data := alloc[offset..offset + chunk];
        var n := Cut(chunk);
      }
    }

    method Reset()
      requires Valid()
      modifies this
      ensures Valid() && alloc == old(alloc) && Contents() == []
    {
      offset, length := 0, 0;
    }
  }
}
