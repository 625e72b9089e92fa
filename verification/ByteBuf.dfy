/** The growing output buffer of upgrade/common.c. */
module ByteBuffers {
  import opened Bytes

  class ByteBuf {
    var data: array<byte>
    var len: nat
    var cap: nat
    /** Set once a reallocation has failed; after that a caller gives up. */
    ghost var allocFailed: bool

    ghost predicate Valid()
      reads this
    {
      len <= cap == data.Length
    }

    ghost function Contents(): seq<byte>
      requires Valid()
      reads this, data
    {
      data[..len]
    }

    constructor (capacity: nat)
      ensures Valid() && fresh(data) && Contents() == [] && !allocFailed
    {
      data := new byte[capacity](_ => 0);
      len, cap, allocFailed := 0, capacity, false;
    }

    /** Appends `src`, or fails and changes nothing when the memory for it is refused (which any call may meet). */
    method Append(src: seq<byte>) returns (ok: bool)
      requires Valid()
      modifies this, data
      ensures Valid() && (data == old(data) || fresh(data))
      ensures ok ==> Contents() == old(Contents()) + src && allocFailed == old(allocFailed)
      ensures !ok ==> allocFailed && Contents() == old(Contents())
      ensures src == [] || old(len) + |src| <= old(cap) ==> ok
    {
      if src == [] {
        return true;
      }
      if len + |src| > cap {
        var newCap := if cap != 0 then cap * 2 else 4096;
        while newCap < len + |src|
          invariant newCap > 0
          decreases len + |src| - newCap
        {
          newCap := newCap * 2;
        }
        if * {
          allocFailed := true;
          return false;
        }
        var p := new byte[newCap](_ => 0);
        forall i | 0 <= i < len { p[i] := data[i]; }
        assert p[..len] == data[..len];
        data := p;
        cap := newCap;
      }
      forall i | 0 <= i < |src| { data[len + i] := src[i]; }
      assert data[..len + |src|] == old(Contents()) + src;
      len := len + |src|;
      return true;
    }

    /** Forgets the last byte. */
    method DropLast()
      requires Valid() && len > 0
      modifies this`len
      ensures Valid() && Contents() == old(Contents())[..|old(Contents())| - 1]
    {
      len := len - 1;
    }
  }
}
