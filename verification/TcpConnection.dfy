/** The read and write events of base/tcp_connection_manager.cpp on one connection: bytes from the
    socket through the receive buffer into packets, and queued packets through the send buffer into
    the socket. The socket is an environment that takes or gives any legal number of bytes. */
module TcpConnection {
  import opened Common
  import opened TcpBuffer
  import opened TcpPacket
  import opened TcpReader

  // What the socket was given to send, and how much of it it took, -1 if it was busy.
  datatype Offer = Offer(bytes: seq<byte>, taken: int)

  // `incoming` is what the peer sends and has not been received; `outgoing` was accepted by the kernel.
  // An eager socket takes all that it is offered.
  class Socket {
    const ending: Ending
    const eager: bool
    var incoming: seq<byte>
    var outgoing: seq<byte>
    ghost var offers: seq<Offer>

    constructor (ending: Ending, eager: bool, incoming: seq<byte>)
      ensures this.ending == ending && this.eager == eager && this.incoming == incoming
      ensures outgoing == [] && offers == []
    {
      this.ending, this.eager, this.incoming, outgoing, offers := ending, eager, incoming, [], [];
    }

    // -2 for a failed connection, -1 for "nothing now", 0 for a closed peer, else the bytes received.
    method Recv(max: nat) returns (n: int, bytes: seq<byte>)
      requires max > 0
      modifies this`incoming
      ensures -2 <= n <= max && |bytes| == if n > 0 then n else 0
      ensures n == 0 || n == -2 ==> MayEnd(ending, old(incoming))
      ensures old(incoming) == bytes + incoming
    {
      var m := if |incoming| < max then |incoming| else max;
      n := *;
      if !(-2 <= n <= m) || ((n == 0 || n == -2) && !MayEnd(ending, incoming)) {
        n := -1;
      }
      bytes := if n > 0 then incoming[..n] else [];
      incoming := incoming[|bytes|..];
    }

    // -1 for a busy socket, else the number of bytes taken.
    method Send(bytes: seq<byte>) returns (n: int)
      modifies this`outgoing, this`offers
      ensures -1 <= n <= |bytes| && (eager ==> n == |bytes|)
      ensures outgoing == if n > 0 then old(outgoing) + bytes[..n] else old(outgoing)
      ensures offers == old(offers) + [Offer(bytes, n)]
    {
      n := *;
      if !(-1 <= n <= |bytes|) || eager {
        n := |bytes|;
      }
      offers := offers + [Offer(bytes, n)];
      if n > 0 {
        outgoing := outgoing + bytes[..n];
      }
    }
  }

  datatype Outcome = More | NoMore | Closed

  // A connection with its holder: socket, both buffers, the packet being filled, the packets
  // handed to the application, and the packets waiting to be sent.
  class Connection {
    const socket: Socket
    const recvBuf: ConnectionBuffer
    const sendBuf: ConnectionBuffer
    var recvPacket: TcpPacket
    var recvQueue: seq<seq<byte>>
    var sendQueue: seq<TcpPacket>
    var watching: bool              // epoll reports when the socket can take bytes
    ghost var received: seq<byte>   // everything Recv has returned

    // No packet waits twice, and none that waits is being received.
    ghost predicate Valid()
      reads this, socket, recvBuf, sendBuf, recvPacket
    {
      && recvBuf != sendBuf && recvBuf.buf != sendBuf.buf
      && recvBuf.Valid() && sendBuf.Valid()
      && Distinct(sendQueue) && recvPacket !in sendQueue
    }

    // Whatever waits to be sent, the socket's next readiness is waited for too.
    predicate Watched()
      reads this, sendBuf
    {
      sendBuf.dataBegin < sendBuf.dataEnd || sendQueue != [] ==> watching
    }

    constructor (limit: nat, ending: Ending, eager: bool, stream: seq<byte>)
      requires limit < U32
      ensures Valid() && Reading(false) == Fresh(limit, ending, stream)
      ensures Valid() && Inbound() && fresh(socket) && fresh(recvBuf) && fresh(sendBuf)
      ensures fresh(recvBuf.buf) && fresh(sendBuf.buf) && fresh(recvPacket) && sendBuf.buf.Length == limit
      ensures received == [] && recvQueue == [] && sendQueue == []
      ensures Wire() == [] && sendBuf.RoomFor(1) == limit && Watched() && socket.eager == eager
    {
      socket := new Socket(ending, eager, stream);
      recvBuf := new ConnectionBuffer(limit);
      sendBuf := new ConnectionBuffer(limit);
      recvPacket := new TcpPacket();
      recvQueue, sendQueue, received, watching := [], [], [], false;
      new;
      hide InboundOk, Bytes, Distinct, Connection.Wire, Connection.Laid, Connection.Reading, Connection.Inbound;
      assert recvBuf.Contents() == [] && sendBuf.Contents() == [];
      NoneQueued();
      AllLaid();
      NothingRead();
    }

    lemma NothingRead()
      requires Valid() && received == [] && recvQueue == [] && recvPacket.buf == [] && recvBuf.Contents() == []
      ensures Inbound()
      ensures Reading(false) == Fresh(recvBuf.buf.Length, socket.ending, socket.incoming)
    {
      hide InboundOk;
      NothingInbound();
    }

    // ------------------------------------------------------------ reading

    ghost predicate Inbound()
      requires Valid()
      reads this, socket, recvBuf, sendBuf, recvPacket, recvBuf.buf
    {
      InboundOk(received, recvQueue, recvPacket.buf, recvBuf.Contents())
    }

    // The reading side as a value; `closed` once the connection has been dropped.
    ghost function Reading(closed: bool): Reader
      requires Valid()
      reads this, socket, recvBuf, sendBuf, recvPacket, recvBuf.buf
    {
      Reader(recvBuf.buf.Length, socket.ending, recvQueue, recvPacket.buf, recvBuf.Contents(), recvBuf.dataBegin,
             socket.incoming, closed)
    }

    // tryRecv. `asked` tells whether the socket was asked for bytes, `n` what it answered.
    method TryRecv() returns (r: Outcome, ghost asked: bool, ghost n: int)
      requires Valid() && Inbound()
      modifies this`received, socket`incoming, recvBuf, recvBuf.buf
      ensures Valid() && Inbound()
      ensures old(received) <= received
      ensures old(received) + old(socket.incoming) == received + socket.incoming
      ensures |socket.incoming| + |recvBuf.Contents()| == old(|socket.incoming| + |recvBuf.Contents()|)
      ensures r.More? ==> recvBuf.Contents() != []
      ensures r.NoMore? ==> recvBuf.Contents() == [] && received == old(received)
      ensures r.Closed? ==> MayEnd(socket.ending, socket.incoming) && received == old(received)
      ensures asked <==> |old(recvBuf.Contents())| < recvBuf.buf.Length
      ensures |received| == |old(received)| + if asked && n > 0 then n else 0
      ensures Reading(r.Closed?) == Asked(old(Reading(false)), AnswerOf(asked, n))
    {
      hide InboundOk, Asked;
      asked, n := false, 0;
      ghost var before := Reading(false);
      AskedCases(before);
      var first, room := recvBuf.Writeable(0);
      if room == 0 {
        r := if !recvBuf.Empty() then More else NoMore;
        return;
      }
      var size, bytes := socket.Recv(room);
      asked, n := true, size;
      if size == 0 || size == -2 {
        r := Closed;
      } else if size == -1 {
        r := if !recvBuf.Empty() then More else NoMore;
      } else {
        Grouped(received, bytes, socket.incoming);
        Join(first, bytes);
        r := More;
        AskedGot(before, bytes, socket.incoming);
      }
    }

    method Join(first: nat, bytes: seq<byte>)
      requires Valid() && Inbound() && first == recvBuf.dataEnd && first + |bytes| <= recvBuf.buf.Length
      modifies this`received, recvBuf, recvBuf.buf
      ensures Valid() && Inbound() && received == old(received) + bytes
      ensures recvBuf.Contents() == old(recvBuf.Contents()) + bytes && recvBuf.dataBegin == old(recvBuf.dataBegin)
    {
      hide InboundOk;
      ReceivedOk(received, recvQueue, recvPacket.buf, recvBuf.Contents(), bytes);
      recvBuf.Lay(first, bytes);
      received := received + bytes;
    }

    // The packet takes what it needs of the received bytes.
    method Feed()
      requires Valid() && |recvPacket.buf| < U32
      modifies recvBuf, recvPacket
      ensures Valid()
      ensures var n := Taken(old(recvPacket.buf), old(recvBuf.Contents()));
        && recvPacket.buf == old(recvPacket.buf) + old(recvBuf.Contents())[..n]
        && recvBuf.Contents() == old(recvBuf.Contents())[n..]
        && recvBuf.dataBegin == if recvBuf.Contents() == [] then 0 else old(recvBuf.dataBegin) + n
    {
      hide Taken, CompleteBytes;
      var first, size := recvBuf.Readable();
      var used := recvPacket.Parse(recvBuf.buf[first..first + size]);
      var _ := recvBuf.CommitRead(used);
    }

    // One packet's worth of work on the received bytes.
    method ParseOnce() returns (complete: bool)
      requires Valid() && Inbound() && |recvPacket.buf| < U32
      modifies this`recvPacket, this`recvQueue, recvBuf, recvPacket
      ensures Valid() && Inbound()
      ensures recvPacket == old(recvPacket) || fresh(recvPacket)
      ensures old(received) == received
      ensures old(recvQueue) <= recvQueue
      ensures complete ==> |recvBuf.Contents()| < |old(recvBuf.Contents())|
      ensures |recvQueue| == |old(recvQueue)| + if complete then 1 else 0
      ensures Reading(false) == Parsed(old(Reading(false)))
      ensures !complete && Sane(received) ==>
        !CompleteBytes(recvPacket.buf + recvBuf.Contents()) && |recvBuf.Contents()| < HEAD
    {
      hide InboundOk, Taken, CompleteBytes, Parsed;
      ghost var before, data := Reading(false), recvBuf.Contents();
      ParsedOk(received, recvQueue, recvPacket.buf, data);
      Feed();
      ParsedInto(before, Taken(before.packet, data), recvPacket.buf);
      complete := recvPacket.Complete();
      if complete {
        recvQueue := recvQueue + [recvPacket.buf];
        recvPacket := new TcpPacket();
      }
    }

    // One round of the read event: More if a packet was handed over, NoMore if the event is over.
    method ReadRound() returns (r: Outcome, ghost answer: Answer, ghost asked: bool, ghost n: int)
      requires Valid() && Inbound()
      requires Sane(received + socket.incoming) || |received + socket.incoming| < U32
      modifies this`received, this`recvPacket, this`recvQueue, socket`incoming, recvBuf, recvBuf.buf, recvPacket
      ensures Valid() && Inbound() && (recvPacket == old(recvPacket) || fresh(recvPacket))
      ensures Reading(r.Closed?) == Step(old(Reading(false)), answer)
      ensures old(received) + old(socket.incoming) == received + socket.incoming
      ensures old(recvQueue) <= recvQueue && |recvQueue| == |old(recvQueue)| + if r.More? then 1 else 0
      ensures r.More? ==> |socket.incoming| + |recvBuf.Contents()| < old(|socket.incoming| + |recvBuf.Contents()|)
      ensures r.NoMore? && Sane(received) ==>
        !CompleteBytes(recvPacket.buf + recvBuf.Contents()) && |recvBuf.Contents()| < HEAD
      ensures asked <==> |old(recvBuf.Contents())| < recvBuf.buf.Length
      ensures |received| == |old(received)| + if asked && n > 0 then n else 0
    {
      hide CompleteBytes, Step, Asked, Parsed, InboundOk, Sane;
      ghost var before := Reading(false);
      r, asked, n := TryRecv();
      answer := AnswerOf(asked, n);
      StepOf(before, answer);
      HandedSoFar(received, recvQueue, recvPacket.buf, recvBuf.Contents());
      PacketFits(received, socket.incoming, recvQueue, recvPacket.buf, recvBuf.Contents());
      if r == More {
        var complete := ParseOnce();
        r := if complete then More else NoMore;
      } else if r == NoMore {
        assert recvPacket.buf + recvBuf.Contents() == recvPacket.buf;
      }
    }

    // The read event, round by round as TcpReader has it. Unless the connection ends in it, every
    // complete packet of what was received has been handed over, in order and exactly once, however the
    // stream was cut; if it ends, the packets that are still buffered are lost. The packet size is a 32-bit
    // number, so a stream with an impossible length is followed only up to 4 GiB. `n` is the socket's
    // first answer; a buffer that holds a header and has less than one unread always asks for it, so
    // what the socket has is received.
    method HandleRead(queueFull: bool)
      returns (closed: bool, ghost answers: seq<Answer>, ghost asked: bool, ghost n: int)
      requires Valid() && Inbound()
      requires Sane(received + socket.incoming) || |received + socket.incoming| < U32
      modifies this`received, this`recvPacket, this`recvQueue, socket`incoming, recvBuf, recvBuf.buf, recvPacket
      ensures Valid() && Inbound()
      ensures Reading(closed) == Run(old(Reading(false)), answers)
      ensures |recvQueue| - |old(recvQueue)| == if queueFull then 0 else |answers| - 1   // all rounds but the last
      ensures queueFull <==> answers == []
      ensures AtRest(old(Reading(false))) && !closed ==> AtRest(Reading(false))
      ensures old(received) + old(socket.incoming) == received + socket.incoming
      ensures old(recvQueue) <= recvQueue
      ensures !queueFull && !closed && Sane(received) ==>
        && recvQueue == Split(received).frames
        && recvPacket.buf + recvBuf.Contents() == Split(received).rest
        && |recvBuf.Contents()| < HEAD
      ensures Sane(received) ==>
        Split(received).frames == recvQueue + Split(recvPacket.buf + recvBuf.Contents()).frames
      ensures !queueFull && Sane(received) ==>
        (recvQueue == Split(received).frames <==> !closed || !CompleteBytes(recvPacket.buf + recvBuf.Contents()))
      ensures asked <==> !queueFull && |old(recvBuf.Contents())| < recvBuf.buf.Length
      ensures asked && n > 0 ==> |received| >= |old(received)| + n
    {
      hide Sane, CompleteBytes, Run, Step, AtRest, InboundOk, Split;
      closed, answers, asked, n := false, [], false, 0;
      ghost var start, total := Reading(false), received + socket.incoming;
      RunNothing(start);
      var r := if queueFull then NoMore else More;
      while r == More
        invariant Valid() && Inbound() && (recvPacket == old(recvPacket) || fresh(recvPacket))
        invariant total == received + socket.incoming && old(recvQueue) <= recvQueue
        invariant Reading(r.Closed?) == Run(start, answers)
        invariant |recvQueue| - |old(recvQueue)| == |answers| - if r.More? || answers == [] then 0 else 1
        invariant answers == [] ==> recvBuf.Contents() == old(recvBuf.Contents()) && received == old(received)
        invariant answers == [] ==> !asked && (r.More? <==> !queueFull) && !r.Closed?
        invariant answers != [] ==> !queueFull && (asked <==> |old(recvBuf.Contents())| < recvBuf.buf.Length)
        invariant asked && n > 0 ==> |received| >= |old(received)| + n
        invariant r.NoMore? && !queueFull && Sane(received) ==>
          !CompleteBytes(recvPacket.buf + recvBuf.Contents()) && |recvBuf.Contents()| < HEAD
        invariant r.NoMore? && AtRest(start) ==> AtRest(Reading(false))
        decreases r.More?, |socket.incoming| + |recvBuf.Contents()|
      {
        ghost var answer, a, m;
        r, answer, a, m := ReadRound();
        RunSnoc(start, answers, answer);
        RestsAgain(start, answers, answer);
        if answers == [] {
          asked, n := a, m;
        }
        answers := answers + [answer];
      }
      closed := r == Closed;
      HandedSoFar(received, recvQueue, recvPacket.buf, recvBuf.Contents());
    }

    // ------------------------------------------------------------ writing

    // Everything accepted for sending, in order: taken by the socket, buffered, queued.
    ghost function Wire(): seq<byte>
      requires Valid()
      reads this, socket, recvBuf, sendBuf, recvPacket, sendBuf.buf, sendQueue
    {
      Laid() + Bytes(sendQueue)
    }

    // Of that, what is out or in the buffer.
    ghost function Laid(): seq<byte>
      requires Valid()
      reads this, socket, recvBuf, sendBuf, recvPacket, sendBuf.buf
    {
      socket.outgoing + sendBuf.Contents()
    }

    lemma AllLaid()
      requires Valid() && sendQueue == []
      ensures Wire() == Laid() && (sendBuf.Contents() == [] ==> Laid() == socket.outgoing)
    {
      NoneQueued();
      NoMiddle(socket.outgoing, []);
      NoMiddle(Laid(), []);
    }

    lemma OneBehind(packet: TcpPacket)
      requires Valid() && sendQueue == [packet]
      ensures Wire() == Laid() + packet.buf
    {
      BytesOfOne(packet);
    }

    // trySend: true if the buffer is empty afterwards. `taken` is what the socket took, -1 if nothing.
    // It offers all unread bytes to the socket, if there are any, and drops what was taken.
    method TrySend() returns (emptied: bool, ghost taken: int)
      requires Valid()
      modifies socket`outgoing, socket`offers, sendBuf
      ensures Valid()
      ensures -1 <= taken <= |old(sendBuf.Contents())|
      ensures var all := old(sendBuf.Contents());
        && socket.offers == old(socket.offers) + Asks(all, taken)
        && sendBuf.Contents() == (if taken > 0 then all[taken..] else all)
        && socket.outgoing == (if taken > 0 then old(socket.outgoing) + all[..taken] else old(socket.outgoing))
      ensures socket.eager ==> emptied
      ensures Laid() == old(Laid()) && Wire() == old(Wire())
      ensures emptied <==> sendBuf.Contents() == []
      ensures !emptied ==> sendBuf.dataEnd == old(sendBuf.dataEnd)
      ensures emptied <==> taken == |old(sendBuf.Contents())|
    {
      hide Bytes, Distinct;
      taken := 0;
      var first, size := sendBuf.Readable();
      if size == 0 {
        return true, 0;
      }
      var sent := socket.Send(sendBuf.buf[first..first + size]);
      if sent > 0 { MovedOn(old(socket.outgoing), old(sendBuf.Contents()), sent); }
      taken := sent;
      if sent == -1 {
        return false, sent;
      }
      var _ := sendBuf.CommitRead(sent);
      emptied := sendBuf.Empty();
      assert Laid() == old(Laid());
      hide Connection.Laid;
    }

    // The inner loop of the write event: fill the buffer from the queue. A buffer of size 0 takes
    // nothing, and then nothing changes.
    method FillFromQueue()
      requires Valid() && sendBuf.Contents() == [] && sendQueue != []
      modifies this`sendQueue, sendBuf, sendBuf.buf, Elements(sendQueue)
      ensures Valid() && Elements(sendQueue) <= old(Elements(sendQueue))
      ensures sendBuf.Contents() + Bytes(sendQueue) == old(Bytes(sendQueue)) && Wire() == old(Wire())
      ensures sendBuf.buf.Length > 0 ==> |Bytes(sendQueue)| + |sendQueue| < old(|Bytes(sendQueue)| + |sendQueue|)
      ensures sendBuf.buf.Length == 0 ==> sendQueue == old(sendQueue) && Bytes(sendQueue) == old(Bytes(sendQueue))
    {
      hide Bytes;
      ghost var all := Bytes(sendQueue);
      EmptyFront(all);
      var stop := false;
      while !stop && sendQueue != []
        invariant Valid() && Elements(sendQueue) <= old(Elements(sendQueue))
        invariant sendBuf.Contents() + Bytes(sendQueue) == all
        invariant |sendQueue| <= old(|sendQueue|)
        invariant sendBuf.Contents() == [] && sendBuf.buf.Length > 0 ==>
          (!stop && sendQueue == old(sendQueue)) || |sendQueue| < old(|sendQueue|)
        invariant sendBuf.buf.Length == 0 ==> sendQueue == old(sendQueue) && sendBuf.Contents() == []
        decreases !stop, |sendQueue|
      {
        stop := FillOnce();
      }
      Grouped(socket.outgoing, sendBuf.Contents(), Bytes(sendQueue));
      NoMiddle(socket.outgoing, []);
    }

    // One round of it: true if the buffer is full.
    method FillOnce() returns (stop: bool)
      requires Valid() && sendQueue != []
      modifies this`sendQueue, sendBuf, sendBuf.buf, Elements(sendQueue)
      ensures Valid()
      ensures sendBuf.Contents() + Bytes(sendQueue) == old(sendBuf.Contents() + Bytes(sendQueue))
      ensures sendQueue == if stop then old(sendQueue) else old(sendQueue)[1..]
      ensures stop && sendBuf.buf.Length > 0 ==> sendBuf.Contents() != []
      ensures sendBuf.buf.Length == 0 ==> stop && sendBuf.Contents() == []
    {
      hide Bytes;
      var packet := sendQueue[0];
      ghost var front, bytes, rest := sendBuf.Contents(), packet.buf, Bytes(sendQueue[1..]);
      BytesCons(sendQueue);
      var first, room := sendBuf.Writeable(|packet.buf|);
      if room == 0 {
        return true;
      }
      var copied := LayFront(packet, first, room);
      MoveBytes(front, bytes, copied, rest);
      if copied < |packet.buf| {
        packet.Pop(copied);
        BytesCons(sendQueue);
        assert Bytes(sendQueue[1..]) == rest;
        return true;
      }
      sendQueue := sendQueue[1..];
      return false;
    }

    // Copies the front of a packet into the buffer, as much of it as there is room for.
    method LayFront(packet: TcpPacket, first: nat, room: nat) returns (copied: nat)
      requires Valid() && first == sendBuf.dataEnd && first + room <= sendBuf.buf.Length
      modifies sendBuf, sendBuf.buf
      ensures Valid() && copied == if room < |packet.buf| then room else |packet.buf|
      ensures sendBuf.Contents() == old(sendBuf.Contents()) + packet.buf[..copied]
    {
      var bytes := packet.Copy(room);
      sendBuf.Lay(first, bytes);
      copied := |bytes|;
    }

    // The write event. Whatever the socket takes, no byte is lost, repeated or reordered; it ends
    // with everything sent, or because the socket did not take all of what it was offered last. With a
    // buffer of size 0 and something to send it would never end: FillFromQueue changes nothing then.
    method HandleWrite() returns (backToRead: bool)
      requires Valid() && (sendBuf.buf.Length > 0 || sendQueue == [])
      modifies this`sendQueue, this`watching, socket`outgoing, socket`offers, sendBuf, sendBuf.buf, Elements(sendQueue)
      ensures Valid() && Wire() == old(Wire())
      ensures backToRead ==> sendBuf.Contents() == [] && sendQueue == [] && socket.outgoing == old(Wire())
      ensures old(socket.offers) <= socket.offers
      ensures !backToRead ==> Stopped(socket.offers[|old(socket.offers)|..], sendBuf.Contents())
      ensures socket.eager ==> backToRead
      ensures watching == if backToRead then false else old(watching)
    {
      hide Bytes, Stopped, Connection.Wire, Connection.Laid;
      ghost var all := Wire();
      while true
        invariant Valid() && Wire() == all && Elements(sendQueue) <= old(Elements(sendQueue))
        invariant sendBuf.buf.Length > 0 || sendQueue == []
        invariant old(socket.offers) <= socket.offers && watching == old(watching)
        decreases |Bytes(sendQueue)| + |sendQueue|
      {
        ghost var offers, unread := socket.offers, sendBuf.Contents();
        var emptied, taken := TrySend();
        if !emptied {
          StoppedAt(old(socket.offers), offers, unread, taken);
          return false;
        }
        if sendQueue == [] {
          AllLaid();
          watching := false;
          AllLaid();
          return true;
        }
        FillFromQueue();
      }
    }

    // The part of sendPacket for a packet that fits the buffer: it is laid in and sent; if the
    // socket does not take everything, it is laid in and committed once more.
    method SendFitting(packet: seq<byte>, first: nat) returns (emptied: bool, ghost taken: int)
      requires Valid() && first == sendBuf.dataEnd && first + |packet| <= sendBuf.buf.Length
      modifies socket`outgoing, socket`offers, sendBuf, sendBuf.buf
      ensures Valid() && (socket.eager ==> emptied)
      ensures emptied ==> sendBuf.Contents() == []
      ensures socket.offers == old(socket.offers) + Asks(old(sendBuf.Contents()) + packet, taken)
      ensures if emptied || packet == [] || first + 2 * |packet| > sendBuf.buf.Length then Laid() == old(Laid()) + packet
        else |Laid()| == |old(Laid())| + 2 * |packet|
      ensures var size := |old(sendBuf.Contents())| + |packet|;
        -1 <= taken <= size && (emptied <==> taken == size)
    {
      hide Connection.Laid, Connection.Wire;
      LayWhole(first, packet);
      emptied, taken := TrySend();
      if !emptied {
        CommitAgain(first, packet);
      }
    }

    method LayWhole(first: nat, bytes: seq<byte>)
      requires Valid() && first == sendBuf.dataEnd && first + |bytes| <= sendBuf.buf.Length
      modifies sendBuf, sendBuf.buf
      ensures Valid() && Laid() == old(Laid()) + bytes && sendBuf.Contents() == old(sendBuf.Contents()) + bytes
      ensures sendBuf.dataEnd == first + |bytes| && sendBuf.buf[first..first + |bytes|] == bytes
    {
      Grouped(socket.outgoing, sendBuf.Contents(), bytes);
      sendBuf.Lay(first, bytes);
    }

    // The second commit of the same bytes, for which there may be no room.
    method CommitAgain(first: nat, bytes: seq<byte>)
      requires Valid() && sendBuf.dataEnd == first + |bytes| && sendBuf.buf[first..first + |bytes|] == bytes
      modifies sendBuf, sendBuf.buf
      ensures Valid()
      ensures if bytes == [] || first + 2 * |bytes| > sendBuf.buf.Length then Laid() == old(Laid())
        else |Laid()| == |old(Laid())| + |bytes|
    {
      sendBuf.Restore(first, bytes);
      assert sendBuf.Contents() == old(sendBuf.Contents());
      var _ := sendBuf.CommitWrite(|bytes|);
    }

    // The part for a packet that does not fit: as much of it as there is room for is laid in.
    method SendFront(packet: TcpPacket, first: nat, room: nat)
      requires Valid() && first == sendBuf.dataEnd && room <= |packet.buf| && first + room <= sendBuf.buf.Length
      modifies sendBuf, sendBuf.buf, packet
      ensures Valid() && Laid() + packet.buf == old(Laid()) + old(packet.buf)
    {
      ghost var front, bytes := sendBuf.Contents(), packet.buf;
      var copied := LayFront(packet, first, room);
      packet.Pop(room);
      assert packet.buf == bytes[room..];
      Grouped(socket.outgoing, front, bytes[..room]);
      MovedOn(socket.outgoing + front, bytes, room);
    }

    // sendPacket. A packet that fits and is not flushed at once is committed a second time when
    // there is room for that; OutOnce says exactly when a packet goes out once. `taken` is what the
    // socket took of the buffer with the packet in it, -1 if it was busy or not asked.
    method SendPacket(packet: TcpPacket) returns (ok: bool, ghost taken: int)
      requires Valid() && packet !in sendQueue && packet != recvPacket
      modifies this`sendQueue, this`watching, socket`outgoing, socket`offers, sendBuf, sendBuf.buf, packet
      ensures Valid() && (old(Watched()) ==> Watched())
      ensures !ok <==> old(|sendQueue|) > 512
      ensures !ok ==> Wire() == old(Wire())
      ensures -1 <= taken <= |old(sendBuf.Contents())| + |old(packet.buf)|
      ensures ok ==>
        (Wire() == old(Wire()) + old(packet.buf)
         <==> OutOnce(old(|sendQueue|), |old(packet.buf)|, old(sendBuf.RoomFor(|packet.buf|)), |old(sendBuf.Contents())|, taken))
      ensures socket.offers == old(socket.offers) +
        if old(sendQueue) == [] && old(sendBuf.RoomFor(|packet.buf|)) >= |old(packet.buf)|
        then Asks(old(sendBuf.Contents()) + old(packet.buf), taken) else []
      ensures socket.eager && old(sendQueue) == [] && old(sendBuf.RoomFor(|packet.buf|)) >= |old(packet.buf)| ==>
        ok && socket.outgoing == old(Wire()) + old(packet.buf) && sendBuf.Contents() == [] && sendQueue == []
    {
      hide Bytes, OutOnce;
      ok, taken := true, -1;
      if sendQueue != [] {
        OthersFirst(|sendQueue|, |packet.buf|, sendBuf.RoomFor(|packet.buf|), |sendBuf.Contents()|);
        if |sendQueue| > 512 {
          return false, -1;
        }
        BytesSnoc(sendQueue, packet);
        Grouped(Laid(), Bytes(sendQueue), packet.buf);
        sendQueue := sendQueue + [packet];
      } else {
        taken := SendNow(packet);
      }
    }

    // With nothing queued: into the buffer and to the socket, and what is left over is queued.
    method SendNow(packet: TcpPacket) returns (ghost taken: int)
      requires Valid() && sendQueue == [] && packet != recvPacket
      modifies this`sendQueue, this`watching, socket`outgoing, socket`offers, sendBuf, sendBuf.buf, packet
      ensures Valid() && (old(Watched()) ==> Watched())
      ensures -1 <= taken <= |old(sendBuf.Contents())| + |old(packet.buf)|
      ensures Wire() == old(Wire()) + old(packet.buf)
         <==> OutOnce(0, |old(packet.buf)|, old(sendBuf.RoomFor(|packet.buf|)), |old(sendBuf.Contents())|, taken)
      ensures var fits := old(sendBuf.RoomFor(|packet.buf|)) >= |old(packet.buf)|;
        && socket.offers ==
             old(socket.offers) + (if fits then Asks(old(sendBuf.Contents()) + old(packet.buf), taken) else [])
        && (socket.eager && fits ==>
             socket.outgoing == old(Wire()) + old(packet.buf) && sendBuf.Contents() == [] && sendQueue == [])
    {
      hide Bytes, Connection.Wire, Connection.Laid;
      taken := -1;
      AllLaid();
      var first, room := MakeRoom(|packet.buf|);
      if room >= |packet.buf| {
        var emptied;
        emptied, taken := SendFitting(packet.buf, first);
        AllLaid();
        if emptied {
          return taken;
        }
        packet.Pop(|packet.buf|);
      } else {
        SendFront(packet, first, room);
      }
      assert packet.buf == [] ==> Laid() + packet.buf == Laid();
      Queue(packet);
    }

    method MakeRoom(size: nat) returns (first: nat, room: nat)
      requires Valid()
      modifies sendBuf, sendBuf.buf
      ensures Valid() && sendBuf.Contents() == old(sendBuf.Contents()) && Laid() == old(Laid())
      ensures first == sendBuf.dataEnd && first + room == sendBuf.buf.Length && room == old(sendBuf.RoomFor(size))
    {
      first, room := sendBuf.Writeable(size);
    }

    method Queue(packet: TcpPacket)
      requires Valid() && sendQueue == [] && packet != recvPacket
      modifies this`sendQueue, this`watching
      ensures Valid() && Watched() && sendQueue == [packet] && Wire() == old(Laid()) + packet.buf
    {
      sendQueue := [packet];
      watching := true;
      OneBehind(packet);
    }
  }

  // What the socket is offered of `all`: nothing if that is empty.
  function Asks(all: seq<byte>, taken: int): seq<Offer> {
    if all == [] then [] else [Offer(all, taken)]
  }

  lemma OthersFirst(queued: nat, size: nat, room: nat, unread: nat)
    ensures queued > 0 ==> OutOnce(queued, size, room, unread, -1)
  {
  }

  // A packet of `size` bytes goes out once: it is queued behind others, or is empty, or cannot be laid
  // in twice, or the socket takes all of the buffer at once.
  predicate OutOnce(queued: nat, size: nat, room: nat, unread: nat, taken: int) {
    queued > 0 || size == 0 || room < 2 * size || taken == unread + size
  }

  // So a caller can be sure of it beforehand if and only if one of the first three holds.
  lemma SureToGoOutOnce(queued: nat, size: nat, room: nat, unread: nat)
    ensures (forall taken :: -1 <= taken <= unread + size ==> OutOnce(queued, size, room, unread, taken))
      <==> queued > 0 || size == 0 || room < 2 * size
  {
    assert OutOnce(queued, size, room, unread, -1) <==> queued > 0 || size == 0 || room < 2 * size;
  }

  // A fresh connection with 8 bytes of buffer and one byte to send: if the socket takes nothing, what
  // will go out is not that byte.
  method SentTwice() returns (c: Connection, ghost taken: int)
    ensures c.Valid() && -1 <= taken <= 1 && (taken < 1 ==> c.Wire() != [7])
  {
    hide Connection.Inbound, Connection.Reading, Fresh;
    c := new Connection(8, Open, false, []);
    var p := new TcpPacket();
    var _ := p.Append([7]);
    var ok;
    ok, taken := c.SendPacket(p);
  }

  // The last offer was not taken whole, and its rest is what is unread.
  ghost predicate Stopped(offers: seq<Offer>, unread: seq<byte>) {
    && offers != []
    && var last := offers[|offers| - 1];
       && last.taken < |last.bytes|
       && unread == if last.taken > 0 then last.bytes[last.taken..] else last.bytes
  }

  lemma StoppedAt(start: seq<Offer>, before: seq<Offer>, bytes: seq<byte>, taken: int)
    requires start <= before && taken < |bytes|
    ensures start <= before + [Offer(bytes, taken)]
    ensures Stopped((before + [Offer(bytes, taken)])[|start|..], if taken > 0 then bytes[taken..] else bytes)
  {
  }

  function Elements(queue: seq<TcpPacket>): set<TcpPacket> { set p | p in queue }

  predicate Distinct(queue: seq<TcpPacket>) {
    forall i, j :: 0 <= i < j < |queue| ==> queue[i] != queue[j]
  }

  // The bytes of the packets of a queue, in order.
  ghost function Bytes(queue: seq<TcpPacket>): seq<byte>
    reads queue
  {
    if queue == [] then [] else queue[0].buf + Bytes(queue[1..])
  }

  lemma BytesCons(queue: seq<TcpPacket>)
    requires queue != []
    ensures Bytes(queue) == queue[0].buf + Bytes(queue[1..])
  {
  }

  lemma BytesOfOne(packet: TcpPacket)
    ensures Bytes([packet]) == packet.buf
  {
    assert [packet][1..] == [];
  }

  lemma {:induction false} BytesSnoc(queue: seq<TcpPacket>, packet: TcpPacket)
    ensures Bytes(queue + [packet]) == Bytes(queue) + packet.buf
    decreases |queue|
  {
    if queue == [] {
      assert queue + [packet] == [packet] && [packet][1..] == [];
    } else {
      assert (queue + [packet])[1..] == queue[1..] + [packet];
      BytesSnoc(queue[1..], packet);
    }
  }

  lemma NoMiddle(a: seq<byte>, c: seq<byte>)
    ensures a + [] + c == a + c && a + [] == a
  {
  }

  lemma Grouped(a: seq<byte>, b: seq<byte>, c: seq<byte>)
    ensures a + b + c == a + (b + c)
  {
  }

  lemma MovedOn(front: seq<byte>, bytes: seq<byte>, n: nat)
    requires n <= |bytes|
    ensures front + bytes == (front + bytes[..n]) + bytes[n..]
  {
  }

  lemma EmptyFront(b: seq<byte>)
    ensures [] + b == b
  {
  }

  lemma MoveBytes(front: seq<byte>, packet: seq<byte>, k: nat, rest: seq<byte>)
    requires k <= |packet|
    ensures front + (packet + rest) == (front + packet[..k]) + (packet[k..] + rest)
    ensures k == |packet| ==> front + (packet + rest) == (front + packet[..k]) + rest
  {
  }

  // Nothing is lost, nothing is invented: what came in is what was handed over, then the
  // packet being filled, then the unread bytes. And as long as no impossible length came in,
  // everything handed over is one exact packet and the packet being filled is a proper part.
  ghost predicate InboundOk(received: seq<byte>, packets: seq<seq<byte>>, b: seq<byte>, unread: seq<byte>) {
    && received == Concat(packets) + b + unread
    && !CompleteBytes(b)
    && (Sane(received) ==> Framed(packets) && PartialPacket(b))
  }

  // What TryRecv learned.
  function AnswerOf(asked: bool, n: int): Answer {
    if !asked || n == -1 then Busy else if n > 0 then Got(n) else Gone
  }

  lemma AskedCases(r: Reader)
    ensures |r.unread| == r.capacity ==> forall a :: Asked(r, a) == r
    ensures |r.unread| < r.capacity ==>
      && Asked(r, Busy) == r.(at := Begin(r))
      && (MayEnd(r.ending, r.incoming) ==> Asked(r, Gone) == r.(at := Begin(r), closed := true))
  {
  }

  lemma AskedGot(r: Reader, bytes: seq<byte>, rest: seq<byte>)
    requires |r.unread| < r.capacity && r.incoming == bytes + rest && 0 < |bytes| <= Room(r)
    ensures Asked(r, Got(|bytes|)) == r.(at := Begin(r), unread := r.unread + bytes, incoming := rest)
  {
  }

  // Of what was received, the packets handed over come first, then those that are still buffered.
  lemma HandedSoFar(received: seq<byte>, packets: seq<seq<byte>>, b: seq<byte>, unread: seq<byte>)
    requires InboundOk(received, packets, b, unread)
    ensures !CompleteBytes(b)
    ensures Sane(received) ==>
      && Split(received).frames == packets + Split(b + unread).frames
      && (packets == Split(received).frames <==> !CompleteBytes(b + unread))
      && (!CompleteBytes(b + unread) ==> Split(received).rest == b + unread)
  {
    hide Concat, Sane, Framed, PartialPacket;
    assert received == Concat(packets) + (b + unread);
    if Sane(received) { SplitBehindFrames(packets, b + unread); }
  }

  lemma NoneQueued()
    ensures Distinct([]) && Bytes([]) == []
  {
  }

  lemma NothingInbound()
    ensures InboundOk([], [], [], [])
  {
  }

  lemma ReceivedOk(received: seq<byte>, packets: seq<seq<byte>>, b: seq<byte>, unread: seq<byte>, more: seq<byte>)
    requires InboundOk(received, packets, b, unread)
    ensures InboundOk(received + more, packets, b, unread + more)
  {
    hide Concat, Sane, CompleteBytes, Framed, PartialPacket;
    assert (received + more)[..|received|] == received;
    if Sane(received + more) { SanePrefix(received + more, |received|); }
  }

  lemma ParsedOk(received: seq<byte>, packets: seq<seq<byte>>, b: seq<byte>, data: seq<byte>)
    requires InboundOk(received, packets, b, data)
    ensures var n := Taken(b, data);
      var b', unread := b + data[..n], data[n..];
      if CompleteBytes(b') then n > 0 && InboundOk(received, packets + [b'], [], unread)
      else
        && InboundOk(received, packets, b', unread)
        && (Sane(received) ==> !CompleteBytes(b' + unread) && |unread| < HEAD)
  {
    hide Concat, Sane, CompleteBytes, Framed, PartialPacket, Taken;
    var n := Taken(b, data);
    var b', unread := b + data[..n], data[n..];
    assert Concat(packets) + b + data == Concat(packets) + (b + data) == Concat(packets) + b' + unread;
    NothingTaken(b, data, n);
    EmptyIsPartial();
    ConcatSnoc(packets, b');
    FramedSnoc(packets, b');
    if Sane(received) {
      SplitBehindFramed(packets, b + data);
      ParseFills(b, data);
    }
  }

  // What became complete took something.
  lemma NothingTaken(b: seq<byte>, data: seq<byte>, n: nat)
    requires n <= |data| && !CompleteBytes(b)
    ensures CompleteBytes(b + data[..n]) ==> n > 0
  {
    assert b + [] == b;
  }

  lemma EmptyIsPartial()
    ensures PartialPacket([]) && !CompleteBytes([])
  {
  }

  lemma SplitBehindFramed(packets: seq<seq<byte>>, rest: seq<byte>)
    requires Framed(packets)
    ensures Sane(Concat(packets) + rest) <==> Sane(rest)
  {
    SplitBehindFrames(packets, rest);
  }

  lemma PacketFits(received: seq<byte>, incoming: seq<byte>, packets: seq<seq<byte>>, b: seq<byte>, unread: seq<byte>)
    requires Sane(received + incoming) || |received + incoming| < U32
    requires InboundOk(received, packets, b, unread)
    ensures |b| < U32
  {
    hide Concat, Framed, CompleteBytes;
    if Sane(received + incoming) {
      SanePrefix(received + incoming, |received|);
      assert (received + incoming)[..|received|] == received;
    }
  }
}
