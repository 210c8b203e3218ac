/** `ConnectionBuffer` of water/net/buffered_connection.cpp: a linear buffer of fixed size that
    moves its unread bytes to the front when the tail runs out of room. */
module TcpBuffer {
  import opened Common

  const U32: nat := 0x1_0000_0000

  class ConnectionBuffer {
    const buf: array<byte>
    var dataBegin: nat
    var dataEnd: nat

    // The indices meet only at 0, which is why `Empty` may look at dataEnd alone.
    ghost predicate Valid()
      reads this
    {
      dataBegin <= dataEnd <= buf.Length < U32 && (dataBegin == dataEnd ==> dataEnd == 0)
    }

    // The bytes written and not yet read.
    ghost function Contents(): (s: seq<byte>)
      requires Valid()
      reads this, buf
      ensures |s| == dataEnd - dataBegin
    {
      buf[dataBegin..dataEnd]
    }

    constructor (sizeLimit: nat)
      requires sizeLimit < U32
      ensures Valid() && fresh(buf) && buf.Length == sizeLimit && Contents() == [] && dataBegin == dataEnd == 0
    {
      buf := new byte[sizeLimit](_ => 0);
      dataBegin, dataEnd := 0, 0;
    }

    predicate Full()
      requires Valid()
      reads this, buf
      ensures Full() <==> |Contents()| == buf.Length
    {
      buf.Length == dataEnd && dataBegin == 0
    }

    predicate Empty()
      requires Valid()
      reads this, buf
      ensures Empty() <==> Contents() == []
    {
      dataEnd == 0
    }

    method Readable() returns (first: nat, size: nat)
      requires Valid()
      ensures first + size <= buf.Length && buf[first..first + size] == Contents()
    {
      return dataBegin, dataEnd - dataBegin;
    }

    // Drops bytes from the front; asks for more than there is leave the buffer alone.
    method CommitRead(size: nat) returns (ok: bool)
      requires Valid()
      modifies this
      ensures Valid()
      ensures ok <==> size <= |old(Contents())|
      ensures Contents() == if ok then old(Contents())[size..] else old(Contents())
      ensures Contents() != [] ==> dataEnd == old(dataEnd)
      ensures ok ==> dataBegin == if Contents() == [] then 0 else old(dataBegin) + size
    {
      if dataEnd - dataBegin < size {
        return false;
      }
      dataBegin := dataBegin + size;
      if dataBegin == dataEnd {
        dataBegin := 0;
        dataEnd := 0;
      }
      return true;
    }

    // The room that `Writeable(size)` offers.
    function RoomFor(size: nat): nat
      requires Valid()
      reads this
    {
      if buf.Length - dataEnd < size || buf.Length == dataEnd then buf.Length - (dataEnd - dataBegin)
      else buf.Length - dataEnd
    }

    // The free tail; the unread bytes are moved to the front if it is shorter than asked for.
    // Nothing is offered only when every byte of the buffer is unread.
    method Writeable(size: nat) returns (first: nat, room: nat)
      requires Valid()
      modifies this, buf
      ensures Valid() && Contents() == old(Contents())
      ensures first == dataEnd && first + room == buf.Length
      ensures room == old(RoomFor(size))
      ensures room == 0 <==> |Contents()| == buf.Length
      ensures size <= buf.Length - |Contents()| ==> size <= room
      ensures room < size ==> room == buf.Length - |Contents()|
      ensures dataBegin == if buf.Length - old(dataEnd) < size || buf.Length == old(dataEnd) then 0 else old(dataBegin)
    {
      if buf.Length - dataEnd < size || buf.Length == dataEnd {
        if Full() {
          return dataEnd, 0;
        }
        var dataSize := dataEnd - dataBegin;
        ghost var unread := Contents();
        var from := dataBegin;
        forall i | 0 <= i < dataSize {
          buf[i] := buf[from + i];
        }
        dataBegin := 0;
        dataEnd := dataSize;
        assert Contents() == unread;
      }
      return dataEnd, buf.Length - dataEnd;
    }

    // What a caller does with the span offered: bytes laid down from `first` on.
    method Store(first: nat, bytes: seq<byte>)
      requires Valid() && dataEnd <= first && first + |bytes| <= buf.Length
      modifies buf
      ensures Contents() == old(Contents()) && buf[first..first + |bytes|] == bytes
    {
      forall i | 0 <= i < |bytes| {
        buf[first + i] := bytes[i];
      }
    }

    // Laying down once more what is already there.
    method Restore(first: nat, bytes: seq<byte>)
      requires first + |bytes| <= buf.Length && buf[first..first + |bytes|] == bytes
      modifies buf
      ensures buf[..] == old(buf[..])
    {
      forall i | 0 <= i < |bytes| {
        buf[first + i] := bytes[i];
      }
      assert forall i :: 0 <= i < |bytes| ==> old(buf[first..first + |bytes|])[i] == bytes[i];
    }

    // Takes what was laid down behind the unread bytes.
    method CommitWrite(size: nat) returns (ok: bool)
      requires Valid()
      modifies this`dataEnd
      ensures Valid()
      ensures ok <==> size <= buf.Length - old(dataEnd)
      ensures ok ==> Contents() == old(Contents()) + buf[old(dataEnd)..old(dataEnd) + size] && dataEnd == old(dataEnd) + size
      ensures !ok ==> Contents() == old(Contents()) && dataEnd == old(dataEnd)
    {
      if buf.Length - dataEnd < size {
        return false;
      }
      dataEnd := dataEnd + size;
      return true;
    }

    // Both together: the bytes join the unread ones.
    method Lay(first: nat, bytes: seq<byte>)
      requires Valid() && first == dataEnd && first + |bytes| <= buf.Length
      modifies this`dataEnd, buf
      ensures Valid() && Contents() == old(Contents()) + bytes && dataEnd == old(dataEnd) + |bytes|
      ensures buf[first..first + |bytes|] == bytes
    {
      Store(first, bytes);
      var _ := CommitWrite(|bytes|);
    }
  }
}
