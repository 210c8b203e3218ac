/** `TcpPacket` of water/net/tcp_packet.cpp: a 32-bit little-endian length in front of the
    content, filled step by step from a byte stream; and what a stream splits into. */
module TcpPacket {
  import opened Common
  import opened TcpBuffer

  const HEAD: nat := 4

  function Number(b: seq<byte>): (n: nat)
    requires |b| >= HEAD
    ensures n < U32
  {
    (b[0] as int) + 0x100 * (b[1] as int) + 0x1_0000 * (b[2] as int) + 0x100_0000 * (b[3] as int)
  }

  function Header(n: nat): (b: seq<byte>)
    requires n < U32
    ensures |b| == HEAD && Number(b) == n
  {
    var n1 := n / 0x100;
    var n2 := n1 / 0x100;
    [n % 0x100, n1 % 0x100, n2 % 0x100, n2 / 0x100]
  }

  // A content and its packet.
  function Frame(content: seq<byte>): seq<byte>
    requires |content| < U32
  {
    Header(|content|) + content
  }

  function Min(a: nat, b: nat): nat { if a < b then a else b }

  // `contentSize() + sizeof(SizeType) <= size()`, whose sum does not wrap.
  predicate CompleteBytes(b: seq<byte>) {
    |b| >= HEAD && Number(b) + HEAD <= |b|
  }

  // The size a packet with this header is filled up to, in 32 bits.
  function TotalSize(b: seq<byte>): nat
    requires |b| >= HEAD
  {
    (Number(b) + HEAD) % U32
  }

  class TcpPacket {
    var buf: seq<byte>

    constructor ()
      ensures buf == []
    {
      buf := [];
    }

    predicate Complete()
      reads this
    {
      CompleteBytes(buf)
    }

    method SetContent(content: seq<byte>)
      requires |content| + HEAD < U32
      modifies this
      ensures buf == Frame(content)
    {
      buf := Header(|content|) + content;
    }

    // `Packet::append`
    method Append(data: seq<byte>) returns (size: nat)
      modifies this
      ensures buf == old(buf) + data && size == |data|
    {
      buf := buf + data;
      return |data|;
    }

    // `Packet::pop` and `Packet::copy`, which the write loop uses together to send a packet in parts.
    method Pop(size: nat)
      modifies this
      ensures buf == if size >= |old(buf)| then [] else old(buf)[size..]
    {
      if size >= |buf| {
        buf := [];
        return;
      }
      buf := buf[size..];
    }

    method Copy(maxSize: nat) returns (front: seq<byte>)
      ensures front <= buf && |front| == if maxSize < |buf| then maxSize else |buf|
    {
      front := buf[..if maxSize < |buf| then maxSize else |buf|];
    }

    // Takes from `data` what the packet still needs; a header is taken whole or not at all.
    method Parse(data: seq<byte>) returns (used: nat)
      requires |data| < U32 && |buf| < U32   // both sizes are 32-bit
      modifies this
      ensures used == Taken(old(buf), data)
      ensures buf == old(buf) + data[..used]
    {
      if Complete() {
        return 0;
      }
      if |buf| == 0 {
        if |data| < HEAD {
          return 0;
        }
        var readLen := TotalSize(data);
        if readLen > |data| {
          readLen := |data|;
        }
        buf := data[..readLen];
        return readLen;
      }
      var headerAppendLen := 0;
      var rest := data;
      if |buf| < HEAD {
        if |data| < HEAD - |buf| {
          return 0;
        }
        headerAppendLen := Append(data[..HEAD - |buf|]);
        rest := data[headerAppendLen..];
      }
      var completeSize := TotalSize(buf);
      var deficiencySize := (completeSize - |buf|) % U32;
      var appendLen := Min(deficiencySize, |rest|);
      var _ := Append(rest[..appendLen]);
      TakenInTwo(data, headerAppendLen, appendLen);
      return headerAppendLen + appendLen;
    }
  }

  lemma TakenInTwo(data: seq<byte>, h: nat, k: nat)
    requires h + k <= |data|
    ensures data[..h] + data[h..][..k] == data[..h + k]
  {
  }

  // How much of `data` a packet holding `b` takes.
  function Taken(b: seq<byte>, data: seq<byte>): (n: nat)
    ensures n <= |data|
  {
    if CompleteBytes(b) then 0
    else if b == [] then (if |data| < HEAD then 0 else Min(TotalSize(data), |data|))
    else if |b| >= HEAD then Min((TotalSize(b) - |b|) % U32, |data|)
    else
      var h := HEAD - |b|;
      if |data| < h then 0
      else h + Min((TotalSize(b + data[..h]) - HEAD) % U32, |data| - h)
  }

  // ---------------------------------------------------------------- splitting a stream

  datatype Parts = Parts(frames: seq<seq<byte>>, rest: seq<byte>)

  // The complete packets at the front of a stream, and what is left.
  function Split(stream: seq<byte>): Parts
    decreases |stream|
  {
    if CompleteBytes(stream) then
      var n := Number(stream) + HEAD;
      var more := Split(stream[n..]);
      Parts([stream[..n]] + more.frames, more.rest)
    else Parts([], stream)
  }

  // No packet met so far announces a length whose total does not fit 32 bits.
  predicate Sane(stream: seq<byte>)
    decreases |stream|
  {
    if CompleteBytes(stream) then Number(stream) + HEAD < U32 && Sane(stream[Number(stream) + HEAD..])
    else |stream| >= HEAD ==> Number(stream) + HEAD < U32
  }

  // Splitting loses nothing, and what is left holds no complete packet.
  lemma {:induction false} SplitIsPartition(stream: seq<byte>)
    ensures Concat(Split(stream).frames) + Split(stream).rest == stream
    ensures !CompleteBytes(Split(stream).rest)
    decreases |stream|
  {
    hide Number, Concat, CompleteBytes, Split;
    if CompleteBytes(stream) {
      var n := WholePacket(stream);
      var more := Split(stream[n..]);
      SplitOnce(stream, n);
      SplitIsPartition(stream[n..]);
      ConcatCons(stream[..n], more.frames);
      Reassemble(stream, n, Concat(more.frames), more.rest);
    } else {
      NoPacketIn(stream);
      NoPieces();
      assert [] + stream == stream;
    }
  }

  lemma SplitOnce(stream: seq<byte>, n: nat)
    requires CompleteBytes(stream) && n == Number(stream) + HEAD
    ensures n <= |stream|
    ensures Split(stream) == Parts([stream[..n]] + Split(stream[n..]).frames, Split(stream[n..]).rest)
  {
    hide Number;
  }

  lemma Reassemble(stream: seq<byte>, n: nat, c: seq<byte>, rest: seq<byte>)
    requires n <= |stream| && c + rest == stream[n..]
    ensures stream[..n] + c + rest == stream
  {
    assert stream[..n] + c + rest == stream[..n] + (c + rest);
  }

  lemma WholePacket(stream: seq<byte>) returns (n: nat)
    requires CompleteBytes(stream)
    ensures n == Number(stream) + HEAD && 0 < n <= |stream|
  {
    n := Number(stream) + HEAD;
  }

  predicate ExactFrame(b: seq<byte>) { |b| >= HEAD && Number(b) + HEAD == |b| < U32 }

  ghost predicate Framed(packets: seq<seq<byte>>) {
    forall i :: 0 <= i < |packets| ==> ExactFrame(packets[i])
  }

  lemma FramedSnoc(packets: seq<seq<byte>>, b: seq<byte>)
    ensures Framed(packets) && ExactFrame(b) ==> Framed(packets + [b])
  {
  }

  lemma FrameFirst(b: seq<byte>, stream: seq<byte>)
    requires ExactFrame(b)
    ensures Split(b + stream) == Parts([b] + Split(stream).frames, Split(stream).rest)
    ensures Sane(b + stream) <==> Sane(stream)
  {
    assert (b + stream)[..|b|] == b && (b + stream)[|b|..] == stream;
    assert Number(b + stream) == Number(b);
  }

  lemma {:induction false} SplitBehindFrames(frames: seq<seq<byte>>, stream: seq<byte>)
    requires Framed(frames)
    ensures Split(Concat(frames) + stream).frames == frames + Split(stream).frames
    ensures Split(Concat(frames) + stream).rest == Split(stream).rest
    ensures Sane(Concat(frames) + stream) <==> Sane(stream)
    decreases |frames|
  {
    hide Split, Sane, ExactFrame;
    if frames == [] {
      assert Concat(frames) + stream == stream;
    } else {
      var last := |frames| - 1;
      assert Concat(frames) + stream == Concat(frames[..last]) + (frames[last] + stream);
      SplitBehindFrames(frames[..last], frames[last] + stream);
      FrameFirst(frames[last], stream);
      assert frames[..last] + ([frames[last]] + Split(stream).frames) == frames + Split(stream).frames;
    }
  }

  function Frames(contents: seq<seq<byte>>): seq<seq<byte>>
    requires forall i :: 0 <= i < |contents| ==> |contents[i]| + HEAD < U32
  {
    seq(|contents|, i requires 0 <= i < |contents| => Frame(contents[i]))
  }

  // Framing is undone: a stream that starts with these packets, followed by less than one more,
  // splits into exactly these packets, in order.
  lemma SplitUndoesFrames(contents: seq<seq<byte>>, tail: seq<byte>)
    requires forall i :: 0 <= i < |contents| ==> |contents[i]| + HEAD < U32
    requires !CompleteBytes(tail) && (|tail| >= HEAD ==> Number(tail) + HEAD < U32)
    ensures Split(Concat(Frames(contents)) + tail) == Parts(Frames(contents), tail)
    ensures Sane(Concat(Frames(contents)) + tail)
    ensures forall i :: 0 <= i < |contents| ==> Frames(contents)[i][HEAD..] == contents[i]
  {
    var frames := Frames(contents);
    forall i | 0 <= i < |frames| ensures ExactFrame(frames[i]) && frames[i][HEAD..] == contents[i] {
      assert frames[i] == Frame(contents[i]);
      assert frames[i][..HEAD] == Header(|contents[i]|);
    }
    SplitBehindFrames(frames, tail);
    assert frames + [] == frames;
  }

  lemma {:induction false} SanePrefix(stream: seq<byte>, k: nat)
    requires k <= |stream| && Sane(stream)
    ensures Sane(stream[..k])
    decreases |stream|
  {
    var front := stream[..k];
    if k >= HEAD {
      assert Number(front) == Number(stream);
      if CompleteBytes(front) {
        var n := Number(stream) + HEAD;
        SanePrefix(stream[n..], k - n);
        assert front[n..] == stream[n..][..k - n];
      }
    }
  }

  // Whatever part of a stream of exact packets has come in, its packets are the first of them.
  lemma {:induction false} SplitOfPrefix(frames: seq<seq<byte>>, stream: seq<byte>)
    requires Framed(frames)
    requires stream <= Concat(frames)
    ensures Split(stream).frames <= frames
    decreases |frames|
  {
    hide Split, ExactFrame, CompleteBytes;
    if frames == [] {
      NoPacketIn(stream);
    } else {
      var b, rest := frames[0], frames[1..];
      assert frames == [b] + rest;
      ConcatCons(b, rest);
      if |stream| >= |b| {
        assert stream == b + stream[|b|..];
        SplitOfPrefix(rest, stream[|b|..]);
        FrameFirst(b, stream[|b|..]);
      } else {
        assert stream == b[..|stream|];
        PartOfPacket(b, |stream|);
        NoPacketIn(stream);
      }
    }
  }

  lemma NoPacketIn(stream: seq<byte>)
    ensures !CompleteBytes(stream) ==> Split(stream) == Parts([], stream)
    ensures stream == [] ==> !CompleteBytes(stream)
  {
  }

  lemma PartOfPacket(b: seq<byte>, k: nat)
    requires ExactFrame(b) && k < |b|
    ensures !CompleteBytes(b[..k])
  {
    if k >= HEAD { NumberOfPrefix(b, k); }
  }

  // End to end: of framed contents, any received part is sane and yields the first frames in order,
  // and the whole stream yields all of them.
  lemma FramesArriveInOrder(contents: seq<seq<byte>>, received: seq<byte>)
    requires forall i :: 0 <= i < |contents| ==> |contents[i]| + HEAD < U32
    requires received <= Concat(Frames(contents))
    ensures Sane(received) && Split(received).frames <= Frames(contents)
    ensures received == Concat(Frames(contents)) ==> Split(received) == Parts(Frames(contents), [])
  {
    var frames := Frames(contents);
    forall i | 0 <= i < |frames| ensures ExactFrame(frames[i]) {
      assert frames[i] == Frame(contents[i]);
      assert frames[i][..HEAD] == Header(|contents[i]|);
    }
    hide Split, Sane, Frames, ExactFrame;
    SplitOfPrefix(frames, received);
    assert !CompleteBytes([]);
    SplitUndoesFrames(contents, []);
    assert Concat(frames) + [] == Concat(frames);
    SanePrefix(Concat(frames), |received|);
    assert Concat(frames)[..|received|] == received;
  }

  // A packet that is being filled: empty, or with its header and not yet all of its content.
  predicate PartialPacket(b: seq<byte>) {
    b == [] || (|b| >= HEAD && |b| < Number(b) + HEAD < U32)
  }

  lemma NumberOfPrefix(stream: seq<byte>, k: nat)
    requires HEAD <= k <= |stream|
    ensures Number(stream[..k]) == Number(stream)
  {
  }

  // Filling a packet from a sane stream: it becomes one exact packet, or it stays partial and
  // then nothing is left but less than a header in front of a packet not begun.
  ghost predicate Filled(b: seq<byte>, data: seq<byte>, n: nat)
    requires n <= |data|
  {
    var b' := b + data[..n];
    if CompleteBytes(b') then ExactFrame(b') && n > 0
    else PartialPacket(b') && |data[n..]| < HEAD && !CompleteBytes(b' + data[n..])
  }

  lemma ParseBegins(data: seq<byte>)
    requires Sane(data)
    ensures Filled([], data, Taken([], data))
  {
    hide Number;
    var n := Taken([], data);
    assert [] + data[..n] == data[..n];
    if |data| >= HEAD {
      assert n >= HEAD;
      NumberOfPrefix(data, n);
      if n == |data| { assert data[..n] == data && data[..n] + data[n..] == data; }
    } else {
      assert data[..n] + data[n..] == data;
    }
  }

  lemma ParseContinues(b: seq<byte>, data: seq<byte>)
    requires PartialPacket(b) && b != []
    ensures Filled(b, data, Taken(b, data))
  {
    hide Number;
    var n := Taken(b, data);
    var b' := b + data[..n];
    assert TotalSize(b) == Number(b) + HEAD && n == Min(Number(b) + HEAD - |b|, |data|);
    assert b'[..|b|] == b && (b + data)[..|b|] == b;
    NumberOfPrefix(b', |b|);
    NumberOfPrefix(b + data, |b|);
    assert b' + data[n..] == b + data;
  }

  lemma ParseFills(b: seq<byte>, data: seq<byte>)
    requires PartialPacket(b) && Sane(b + data)
    ensures Filled(b, data, Taken(b, data))
  {
    if b == [] {
      assert b + data == data;
      ParseBegins(data);
    } else {
      ParseContinues(b, data);
    }
  }

  // The length fields that stop a connection: for a header of 2^32 - 4 or more the total wraps to
  // less than the header itself, and a fresh packet takes fewer than the four header bytes. For
  // 2^32 - 4 it takes none, however much arrives, and so the buffer is never drained again.
  lemma StallsExactly(data: seq<byte>)
    requires |data| >= HEAD
    ensures Taken([], data) < HEAD <==> Number(data) + HEAD >= U32
    ensures Taken([], data) == 0 <==> Number(data) == U32 - HEAD
  {
  }
}
