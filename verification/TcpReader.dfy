/** The read event of base/tcp_connection_manager.cpp on values, one round of its loop a step: ask the
    socket, then parse one packet's worth. The end of the connection throws out of the loop before what
    is buffered has been parsed; here is exactly when complete packets are lost that way. */
module TcpReader {
  import opened Common
  import opened TcpPacket

  // The peer stays, or closes behind its last byte, or the connection may fail at any time.
  datatype Ending = Open | Closing | Failing

  // What the socket answers: nothing now, so many bytes, or the end.
  datatype Answer = Busy | Got(n: nat) | Gone

  // `at` is where the unread bytes begin in the buffer; `incoming` is all that the peer still sends.
  datatype Reader = Reader(
    capacity: nat, ending: Ending, handed: seq<seq<byte>>, packet: seq<byte>, unread: seq<byte>, at: nat,
    incoming: seq<byte>, closed: bool)

  predicate MayEnd(ending: Ending, incoming: seq<byte>) {
    ending.Failing? || (ending.Closing? && incoming == [])
  }

  // `writeable` moves the unread bytes to the front when there is no tail.
  function Begin(r: Reader): nat { if r.at + |r.unread| == r.capacity then 0 else r.at }

  function Room(r: Reader): nat {
    if Begin(r) + |r.unread| <= r.capacity then r.capacity - (Begin(r) + |r.unread|) else 0
  }

  // tryRecv; a full buffer does not ask.
  function Asked(r: Reader, a: Answer): Reader {
    if |r.unread| == r.capacity then r
    else
      var q := r.(at := Begin(r));
      match a
      case Busy => q
      case Got(n) =>
        var m := Min(n, Min(Room(r), |r.incoming|));
        q.(unread := r.unread + r.incoming[..m], incoming := r.incoming[m..])
      case Gone => if MayEnd(r.ending, r.incoming) then q.(closed := true) else q
  }

  function Parsed(r: Reader): Reader {
    var n := Taken(r.packet, r.unread);
    var b, unread := r.packet + r.unread[..n], r.unread[n..];
    var q := r.(unread := unread, at := if unread == [] then 0 else r.at + n);
    if CompleteBytes(b) then q.(handed := r.handed + [b], packet := []) else q.(packet := b)
  }

  // One round. Where one event ends and the next begins makes no difference.
  function Step(r: Reader, a: Answer): Reader {
    if r.closed then r
    else
      var q := Asked(r, a);
      if q.closed || q.unread == [] then q else Parsed(q)
  }

  function Run(r: Reader, answers: seq<Answer>): Reader {
    if answers == [] then r else Step(Run(r, answers[..|answers| - 1]), answers[|answers| - 1])
  }

  function Fresh(capacity: nat, ending: Ending, stream: seq<byte>): Reader {
    Reader(capacity, ending, [], [], [], 0, stream, false)
  }

  // The connection is gone and a complete packet that was received has not been handed over.
  predicate Lost(r: Reader) { r.closed && CompleteBytes(r.packet + r.unread) }

  // ---------------------------------------------------------------- when packets can be lost

  // All that is not handed over yet, received or not.
  function Remaining(r: Reader): seq<byte> { r.packet + (r.unread + r.incoming) }

  // Of a packet being filled, what is missing at least: a byte of the content, or the header if that is all.
  function LeastLeft(f: seq<byte>): nat { if |f| > HEAD then 1 else HEAD }

  // Where in the buffer the next header will be: at the front, if there is no room for it behind `at`.
  function Base(r: Reader): nat { if r.capacity < r.at + HEAD then 0 else r.at }

  // How much of the buffer is taken up to the end of packet i at least, when that packet is completed.
  function Front(base: nat, f: seq<byte>, i: nat): nat {
    if i == 0 && |f| == HEAD then base + HEAD else LeastLeft(f)
  }

  // What must be buffered behind packet i for a loss: up to the end of the stream, or the next packet.
  function Behind(ending: Ending, parts: Parts, i: nat): nat
    requires i + 1 < |parts.frames|
  {
    if ending.Failing? then |parts.frames[i + 1]| else |Concat(parts.frames[i + 1..]) + parts.rest|
  }

  predicate TightAt(capacity: nat, ending: Ending, base: nat, parts: Parts, i: nat) {
    && !ending.Open? && i + 1 < |parts.frames|
    && Front(base, parts.frames[i], i) + Behind(ending, parts, i) <= capacity
  }

  // The buffer can hold the end of one packet together with what must be behind it.
  predicate Tight(capacity: nat, ending: Ending, base: nat, stream: seq<byte>) {
    exists i :: 0 <= i < |Split(stream).frames| && TightAt(capacity, ending, base, Split(stream), i)
  }

  // The packets handed over since there were `done` of them, and what remains, make up the stream.
  ghost predicate Accounted(r: Reader, done: nat, stream: seq<byte>) {
    && done <= |r.handed| && Framed(r.handed[done..])
    && Concat(r.handed[done..]) + Remaining(r) == stream && Sane(stream)
    && PartialPacket(r.packet) && !CompleteBytes(r.packet)
    && r.at + |r.unread| <= r.capacity && (r.unread == [] ==> r.at == 0)
    && (r.closed ==> MayEnd(r.ending, r.incoming))
  }

  // A whole packet is waiting in the buffer, which also held the end of the packet before.
  predicate Loaded(r: Reader, done: nat, base: nat) {
    && done < |r.handed| && r.packet == [] && CompleteBytes(r.unread)
    && Front(base, r.handed[|r.handed| - 1], |r.handed| - done - 1) + |r.unread| <= r.capacity
  }

  // Nothing complete is buffered; and until a first packet is begun, its header is where it was.
  predicate Calm(r: Reader, done: nat, base: nat) {
    && !CompleteBytes(r.packet + r.unread)
    && (|r.handed| == done && r.packet == [] ==> Base(r) == base && |r.unread| < HEAD)
  }

  ghost predicate Inv(r: Reader, done: nat, base: nat, stream: seq<byte>) {
    Accounted(r, done, stream) && (Calm(r, done, base) || Loaded(r, done, base))
  }

  lemma AskedKeeps(r: Reader, done: nat, stream: seq<byte>, a: Answer)
    requires Accounted(r, done, stream) && !r.closed
    ensures Accounted(Asked(r, a), done, stream)
    ensures Asked(r, a).closed ==> Asked(r, a) == r.(at := Asked(r, a).at, closed := true)
  {
    hide Framed, Concat, Sane, PartialPacket, CompleteBytes;
    var q := Asked(r, a);
    assert q.unread + q.incoming == r.unread + r.incoming;
  }

  lemma ParsedKeeps(r: Reader, done: nat, base: nat, stream: seq<byte>)
    requires Accounted(r, done, stream) && !r.closed && r.unread != []
    requires |r.handed| == done && r.packet == [] ==> Base(r) == base
    ensures Inv(Parsed(r), done, base, stream)
  {
    var n := Taken(r.packet, r.unread);
    hide Accounted, Inv, Parsed, CompleteBytes, Taken;
    ParsedInto(r, n, r.packet + r.unread[..n]);
    if CompleteBytes(r.packet + r.unread[..n]) {
      ParsedWhole(r, n, done, base, stream);
    } else {
      ParsedPart(r, n, done, base, stream);
    }
  }

  lemma ParsedPart(r: Reader, n: nat, done: nat, base: nat, stream: seq<byte>)
    requires Accounted(r, done, stream) && !r.closed && r.unread != [] && n == Taken(r.packet, r.unread)
    requires |r.handed| == done && r.packet == [] ==> Base(r) == base
    requires !CompleteBytes(r.packet + r.unread[..n])
    ensures var unread := r.unread[n..];
      Inv(r.(unread := unread, at := if unread == [] then 0 else r.at + n, packet := r.packet + r.unread[..n]),
          done, base, stream)
  {
    hide Framed, Concat, Sane, PartialPacket, CompleteBytes, Taken, ExactFrame, Remaining, Loaded;
    RemainingSane(r, done, stream);
    ParseFills(r.packet, r.unread);
    Regroup(Concat(r.handed[done..]), r, n);
    assert r.packet + r.unread[..n] == [] ==> n == 0 && r.packet == [];
  }

  lemma ParsedWhole(r: Reader, n: nat, done: nat, base: nat, stream: seq<byte>)
    requires Accounted(r, done, stream) && !r.closed && r.unread != [] && n == Taken(r.packet, r.unread)
    requires |r.handed| == done && r.packet == [] ==> Base(r) == base
    requires CompleteBytes(r.packet + r.unread[..n])
    ensures var unread := r.unread[n..];
      Inv(r.(unread := unread, at := if unread == [] then 0 else r.at + n,
             handed := r.handed + [r.packet + r.unread[..n]], packet := []), done, base, stream)
  {
    hide Framed, Concat, Sane, PartialPacket, CompleteBytes, Taken, ExactFrame, Remaining;
    var b, h := r.packet + r.unread[..n], r.handed[done..];
    RemainingSane(r, done, stream);
    ParseFills(r.packet, r.unread);
    Regroup(Concat(h), r, n);
    assert (r.handed + [b])[done..] == h + [b];
    ConcatSnoc(h, b);
    FramedSnoc(h, b);
    EmptyIsPartial();
    NothingAdded(r.unread[n..]);
    LeftOver(r.packet, b, n);
  }

  lemma Regroup(c: seq<byte>, r: Reader, n: nat)
    requires n <= |r.unread|
    ensures var b, unread := r.packet + r.unread[..n], r.unread[n..];
      && c + Remaining(r) == (c + b) + ([] + (unread + r.incoming))
      && c + Remaining(r) == c + (b + (unread + r.incoming))
    ensures forall q: Reader :: Remaining(q) == q.packet + (q.unread + q.incoming)
  {
    var b, unread := r.packet + r.unread[..n], r.unread[n..];
    assert Remaining(r) == b + (unread + r.incoming);
    assert [] + (unread + r.incoming) == unread + r.incoming;
  }

  lemma RemainingSane(r: Reader, done: nat, stream: seq<byte>)
    requires Accounted(r, done, stream)
    ensures Sane(Remaining(r)) && Sane(r.packet + r.unread)
    ensures Split(stream).frames == r.handed[done..] + Split(Remaining(r)).frames
    ensures Split(stream).rest == Split(Remaining(r)).rest
  {
    hide Concat, Sane, PartialPacket, CompleteBytes, Split, ExactFrame;
    SplitBehindFrames(r.handed[done..], Remaining(r));
    SanePrefix(Remaining(r), |r.packet + r.unread|);
    assert Remaining(r)[..|r.packet + r.unread|] == r.packet + r.unread;
  }

  lemma EmptyIsPartial()
    ensures PartialPacket([]) && !CompleteBytes([])
  {
  }

  // What completes a packet is what was missing at least, or more.
  lemma LeftOver(packet: seq<byte>, b: seq<byte>, n: nat)
    requires PartialPacket(packet) && ExactFrame(b) && packet <= b && |b| == |packet| + n && n > 0
    ensures LeastLeft(b) <= n
  {
    hide Number;
  }

  lemma StepKeeps(r: Reader, done: nat, base: nat, stream: seq<byte>, a: Answer)
    requires Inv(r, done, base, stream)
    ensures Inv(Step(r, a), done, base, stream)
  {
    hide Accounted, Parsed, CompleteBytes;
    if !r.closed {
      var q := Asked(r, a);
      AskedKeeps(r, done, stream, a);
      SameBase(r, done, base, stream, a);
      hide Asked, Base;
      if !q.closed && q.unread != [] {
        ParsedKeeps(q, done, base, stream);
      } else if !q.closed {
        assert q.packet + q.unread == q.packet;
        assert !CompleteBytes(q.packet) by { NotWhole(q, done, stream); }
      }
    }
  }

  // Asking does not move the next header, but for the front when there is no room behind.
  lemma SameBase(r: Reader, done: nat, base: nat, stream: seq<byte>, a: Answer)
    requires Inv(r, done, base, stream)
    ensures |r.handed| == done && r.packet == [] ==> Base(Asked(r, a)) == base
    ensures Asked(r, a).handed == r.handed && Asked(r, a).packet == r.packet
  {
    hide CompleteBytes, Concat, Sane, PartialPacket, Framed;
  }

  lemma NotWhole(r: Reader, done: nat, stream: seq<byte>)
    requires Accounted(r, done, stream)
    ensures !CompleteBytes(r.packet)
  {
  }

  lemma {:induction false} RunKeeps(r: Reader, done: nat, base: nat, stream: seq<byte>, answers: seq<Answer>)
    requires Inv(r, done, base, stream)
    ensures Inv(Run(r, answers), done, base, stream)
    ensures Run(r, answers).capacity == r.capacity && Run(r, answers).ending == r.ending
    decreases |answers|
  {
    hide Inv, Step;
    if answers != [] {
      RunKeeps(r, done, base, stream, answers[..|answers| - 1]);
      StepKeeps(Run(r, answers[..|answers| - 1]), done, base, stream, answers[|answers| - 1]);
      StepGrows(Run(r, answers[..|answers| - 1]), answers[|answers| - 1]);
    }
  }

  // Between two events: less than a header is buffered, and that only while no packet is begun.
  ghost predicate AtRest(r: Reader) {
    && !r.closed && PartialPacket(r.packet) && !CompleteBytes(r.packet)
    && |r.unread| < HEAD && (r.packet != [] ==> r.unread == [])
    && r.at + |r.unread| <= r.capacity && (r.unread == [] ==> r.at == 0)
    && Sane(Remaining(r))
  }

  lemma AtRestInv(r: Reader)
    requires AtRest(r)
    ensures Inv(r, |r.handed|, Base(r), Remaining(r))
  {
    assert r.handed[|r.handed|..] == [];
    assert Concat([]) + Remaining(r) == Remaining(r);
    assert r.packet + r.unread == r.packet || r.packet + r.unread == r.unread;
  }

  // An event ends with the round that hands over nothing, and then the reader is at rest.
  lemma EndsAtRest(r: Reader, done: nat, base: nat, stream: seq<byte>, a: Answer)
    requires Inv(r, done, base, stream) && !Step(r, a).closed && Step(r, a).handed == r.handed
    ensures AtRest(Step(r, a))
  {
    hide Concat, Framed, Sane, PartialPacket, CompleteBytes, Taken, ExactFrame, Split, Loaded, Calm, Base;
    var q := Asked(r, a);
    AskedKeeps(r, done, stream, a);
    RemainingSane(q, done, stream);
    StepKeeps(r, done, base, stream, a);
    RemainingSane(Step(r, a), done, stream);
    ParseFills(q.packet, q.unread);
    TakesAll(q.packet, q.unread);
  }

  lemma TakesAll(b: seq<byte>, data: seq<byte>)
    requires PartialPacket(b) && Sane(b + data)
    ensures var n := Taken(b, data);
      !CompleteBytes(b + data[..n]) && b + data[..n] != [] ==> n == |data|
  {
    hide Number, CompleteBytes, Sane, Taken;
    if b == [] {
      NothingAdded(data);
      NothingAdded(data[..Taken(b, data)]);
      BeginsWithAll(data);
    } else {
      GoesOnWithAll(b, data);
    }
  }

  lemma BeginsWithAll(data: seq<byte>)
    requires Sane(data)
    ensures var n := Taken([], data);
      !CompleteBytes(data[..n]) && data[..n] != [] ==> n == |data|
  {
    hide Number;
    var n := Taken([], data);
    if n > 0 { NumberOfPrefix(data, n); }
  }

  lemma GoesOnWithAll(b: seq<byte>, data: seq<byte>)
    requires PartialPacket(b) && b != []
    ensures var n := Taken(b, data);
      !CompleteBytes(b + data[..n]) ==> n == |data|
  {
    hide Number;
    var whole := b + data[..Taken(b, data)];
    assert whole[..|b|] == b;
    NumberOfPrefix(whole, |b|);
  }

  lemma LossIsTight(r: Reader, done: nat, base: nat, stream: seq<byte>)
    requires Inv(r, done, base, stream) && Lost(r)
    ensures Tight(r.capacity, r.ending, base, stream)
  {
    hide Concat, Sane, PartialPacket, CompleteBytes, Split, ExactFrame, Framed, Front;
    var parts, i := Split(stream), |r.handed| - done - 1;
    RemainingSane(r, done, stream);
    assert Remaining(r) == r.unread + r.incoming;
    FirstFrame(r.unread, r.incoming);
    assert parts.frames[i] == r.handed[|r.handed| - 1];
    if r.ending.Closing? {
      assert r.unread + r.incoming == r.unread;
      assert parts.frames[i + 1..] == Split(r.unread).frames;
      SplitIsPartition(r.unread);
    }
    assert TightAt(r.capacity, r.ending, base, parts, i);
  }

  lemma FirstFrame(unread: seq<byte>, incoming: seq<byte>)
    requires CompleteBytes(unread)
    ensures var f := Split(unread + incoming).frames;
      f != [] && |f[0]| <= |unread|
  {
    assert Number(unread + incoming) == Number(unread);
  }

  // ---------------------------------------------------------------- how the socket can lose one

  lemma {:induction false} RunAppend(r: Reader, a: seq<Answer>, b: seq<Answer>)
    ensures Run(r, a + b) == Run(Run(r, a), b)
    decreases |b|
  {
    hide Step;
    if b == [] {
      assert a + b == a;
    } else {
      assert (a + b)[..|a + b| - 1] == a + b[..|b| - 1];
      RunAppend(r, a, b[..|b| - 1]);
    }
  }

  lemma RunSnoc(r: Reader, answers: seq<Answer>, a: Answer)
    ensures Run(r, answers + [a]) == Step(Run(r, answers), a)
  {
    assert (answers + [a])[..|answers|] == answers;
  }

  // One round, from what asking gave.
  lemma StepOf(r: Reader, a: Answer)
    requires !r.closed
    ensures var q := Asked(r, a);
      Step(r, a) == if q.closed || q.unread == [] then q else Parsed(q)
  {
  }

  // A round that hands over nothing ends the event.
  lemma RestsAgain(r: Reader, answers: seq<Answer>, a: Answer)
    ensures var p := Run(r, answers);
      AtRest(r) && !Step(p, a).closed && Step(p, a).handed == p.handed ==> AtRest(Step(p, a))
  {
    hide Inv, Step, Run, AtRest;
    if AtRest(r) && !Step(Run(r, answers), a).closed && Step(Run(r, answers), a).handed == Run(r, answers).handed {
      AtRestInv(r);
      RunKeeps(r, |r.handed|, Base(r), Remaining(r), answers);
      EndsAtRest(Run(r, answers), |r.handed|, Base(r), Remaining(r), a);
    }
  }

  lemma RunOne(r: Reader, a: Answer)
    ensures Run(r, [a]) == Step(r, a)
  {
    assert [a][..0] == [];
  }

  // A round in which the socket gives m bytes.
  function Received(r: Reader, m: nat): Reader
    requires m <= |r.incoming|
  {
    r.(at := Begin(r), unread := r.unread + r.incoming[..m], incoming := r.incoming[m..])
  }

  lemma Round(r: Reader, m: nat)
    requires !r.closed && |r.unread| < r.capacity && 0 < m <= |r.incoming| && Begin(r) + |r.unread| + m <= r.capacity
    ensures Step(r, Got(m)) == Parsed(Received(r, m))
  {
    hide Parsed;
  }

  lemma SliceOfPrefix(s: seq<byte>, m: nat, n: nat)
    requires m + n <= |s|
    ensures s[..m + n][..m] == s[..m] && s[..m + n][m..] == s[m..m + n]
  {
  }

  lemma NothingAdded(s: seq<byte>)
    ensures [] + s == s && s + [] == s && s[..|s|] == s && s[|s|..] == []
  {
  }

  // What parsing makes of a packet that takes k bytes and becomes b.
  lemma ParsedInto(r: Reader, k: nat, b: seq<byte>)
    requires Taken(r.packet, r.unread) == k && r.packet + r.unread[..k] == b
    ensures Parsed(r) == r.(unread := r.unread[k..], at := if r.unread[k..] == [] then 0 else r.at + k,
                            handed := if CompleteBytes(b) then r.handed + [b] else r.handed,
                            packet := if CompleteBytes(b) then [] else b)
  {
    hide Taken, CompleteBytes;
  }

  // Nothing is buffered, and of packet f, the first one outstanding, so much has been received.
  predicate Filling(r: Reader, f: seq<byte>) {
    && !r.closed && r.unread == [] && r.at == 0
    && ExactFrame(f) && f <= r.packet + r.incoming && |r.packet| <= |f| - LeastLeft(f)
    && (r.packet != [] ==> |r.packet| >= HEAD)
    && r.capacity >= HEAD
  }

  // The next bytes belong to the packet and do not complete it.
  lemma TakesMore(r: Reader, f: seq<byte>, m: nat)
    requires Filling(r, f) && |r.packet| + m <= |f| - LeastLeft(f)
    requires m == if r.packet == [] then HEAD else 1
    ensures Step(r, Got(m)) == r.(packet := r.packet + r.incoming[..m], incoming := r.incoming[m..])
    ensures Filling(Step(r, Got(m)), f)
  {
    var data := r.incoming[..m];
    var b := r.packet + data;
    assert b + r.incoming[m..] == r.packet + r.incoming;
    assert b == f[..|b|];
    TakenMore(r.packet, data, f);
    hide Taken, CompleteBytes, ExactFrame, Step, Parsed;
    NothingAdded(data);
    Round(r, m);
    ParsedInto(Received(r, m), m, b);
  }

  lemma TakenMore(packet: seq<byte>, data: seq<byte>, f: seq<byte>)
    requires ExactFrame(f) && |packet + data| < |f| && packet + data == f[..|packet + data|]
    requires if packet == [] then |data| == HEAD else |packet| >= HEAD && |data| == 1
    ensures Taken(packet, data) == |data| && !CompleteBytes(packet + data) && !CompleteBytes(packet)
  {
    hide Number;
    var b := packet + data;
    NumberOfPrefix(f, |b|);
    if packet == [] {
      assert b == data;
    } else {
      assert packet == f[..|packet|];
      NumberOfPrefix(f, |packet|);
    }
  }

  lemma {:induction false} Prime(r: Reader, f: seq<byte>) returns (answers: seq<Answer>)
    requires Filling(r, f)
    ensures var s := Run(r, answers);
      && Filling(s, f) && |s.packet| == |f| - LeastLeft(f)
      && s == r.(packet := s.packet, incoming := s.incoming) && s.packet + s.incoming == r.packet + r.incoming
    decreases |f| - |r.packet|
  {
    hide Step, ExactFrame;
    answers := [];
    if |r.packet| < |f| - LeastLeft(f) {
      var m := if r.packet == [] then HEAD else 1;
      TakesMore(r, f, m);
      assert r.packet + r.incoming[..m] + r.incoming[m..] == r.packet + r.incoming;
      var rest := Prime(Step(r, Got(m)), f);
      answers := [Got(m)] + rest;
      RunOne(r, Got(m));
      RunAppend(r, [Got(m)], rest);
    }
  }

  // The last missing bytes, and so many more that stay in the buffer.
  lemma Completes(r: Reader, f: seq<byte>, more: nat)
    requires Filling(r, f) && |r.packet| == |f| - LeastLeft(f)
    requires LeastLeft(f) + more <= r.capacity && |f| + more <= |r.packet| + |r.incoming|
    ensures var m := LeastLeft(f);
      Step(r, Got(m + more)) == r.(handed := r.handed + [f], packet := [], unread := r.incoming[m..m + more],
                                   at := if more == 0 then 0 else m, incoming := r.incoming[m + more..])
  {
    hide Taken, CompleteBytes, ExactFrame, Step, Parsed;
    var m := LeastLeft(f);
    var data := r.incoming[..m + more];
    SliceOfPrefix(r.incoming, m, more);
    assert f == r.packet + r.incoming[..m];
    TakenLast(r.packet, data, f, m);
    NothingAdded(data);
    Round(r, m + more);
    ParsedInto(Received(r, m + more), m, f);
  }

  lemma TakenLast(packet: seq<byte>, data: seq<byte>, f: seq<byte>, m: nat)
    requires ExactFrame(f) && m <= |data| && f == packet + data[..m] && (packet == [] || |packet| >= HEAD) && m > 0
    ensures Taken(packet, data) == m && CompleteBytes(f) && !CompleteBytes(packet)
  {
    hide Number;
    if packet == [] {
      assert f == data[..m];
      NumberOfPrefix(data, m);
    } else {
      assert packet == f[..|packet|];
      NumberOfPrefix(f, |packet|);
    }
  }

  lemma StartsFilling(r: Reader)
    requires AtRest(r) && r.unread == [] && r.capacity >= HEAD && Split(Remaining(r)).frames != []
    ensures Filling(r, Split(Remaining(r)).frames[0])
    ensures Remaining(r) == r.packet + r.incoming
  {
    var t := Remaining(r);
    FirstIsExact(r);
    assert t == r.packet + r.incoming;
    var f := Split(t).frames[0];
    hide Split, Sane, Number;
    if r.packet != [] {
      assert t[..|r.packet|] == r.packet && t[..|f|] == f;
      NumberOfPrefix(t, |r.packet|);
      NumberOfPrefix(t, |f|);
    }
  }

  // A whole packet comes in and is handed over; nothing else does.
  lemma HandsOver(r: Reader) returns (answers: seq<Answer>)
    requires AtRest(r) && r.capacity >= HEAD && Split(Remaining(r)).frames != []
    ensures var s := Run(r, answers);
      && AtRest(s) && s.unread == [] && s.capacity == r.capacity && s.ending == r.ending
      && Split(Remaining(s)) == Parts(Split(Remaining(r)).frames[1..], Split(Remaining(r)).rest)
  {
    var t := Remaining(r);
    var f := Split(t).frames[0];
    assert Sane(t);
    var s;
    answers, s := HandsOverWith(r, f, 0);
    hide Run, AtRest, Split;
    assert t[|f|..|f|] == [];
    AfterHanding(t, f, s);
  }

  // And as many bytes behind it as there is room for.
  lemma HandsOverWith(r: Reader, f: seq<byte>, n: nat) returns (answers: seq<Answer>, s: Reader)
    requires AtRest(r) && r.capacity >= HEAD && Split(Remaining(r)).frames != [] && f == Split(Remaining(r)).frames[0]
    requires Front(Base(r), f, 0) + n <= r.capacity && |f| + n <= |Remaining(r)|
    ensures s == Run(r, answers) && !s.closed && s.capacity == r.capacity && s.ending == r.ending
    ensures s.packet == [] && f <= Remaining(r) && s.unread == Remaining(r)[|f|..|f| + n]
    ensures s.incoming == Remaining(r)[|f| + n..] && (n == 0 ==> s.at == 0)
  {
    hide Run, Step, Filling, CompleteBytes, Sane, Split;
    var t := Remaining(r);
    FirstIsExact(r);
    if r.unread == [] {
      StartsFilling(r);
      answers, s := FillsWith(r, f, n);
    } else {
      var clear := Clears(r, f);
      var c := Run(r, clear);
      var m := HEAD - |c.unread|;
      var q := Step(c, Got(if |f| == HEAD then m + n else m));
      var rest;
      if |f| == HEAD {
        CompletesHeader(c, f, n);
        rest, s := [Got(m + n)], q;
        RunOne(c, Got(m + n));
      } else {
        BeginsPacket(c, f);
        RunOne(c, Got(m));
        var more;
        more, s := FillsWith(q, f, n);
        rest := [Got(m)] + more;
        RunAppend(c, [Got(m)], more);
      }
      answers := clear + rest;
      RunAppend(r, clear, rest);
    }
  }

  lemma FillsWith(r: Reader, f: seq<byte>, n: nat) returns (answers: seq<Answer>, s: Reader)
    requires Filling(r, f) && LeastLeft(f) + n <= r.capacity && |f| + n <= |Remaining(r)|
    ensures s == Run(r, answers) && !s.closed && s.capacity == r.capacity && s.ending == r.ending
    ensures s.packet == [] && f <= Remaining(r) && s.unread == Remaining(r)[|f|..|f| + n]
    ensures s.incoming == Remaining(r)[|f| + n..] && (n == 0 ==> s.at == 0)
  {
    hide Run, Step, Filling, ExactFrame, Remaining;
    var t := Remaining(r);
    FillingFits(r, f);
    var first := Prime(r, f);
    var p, m := Run(r, first), LeastLeft(f);
    FillingFits(p, f);
    Completes(p, f, n);
    answers, s := first + [Got(m + n)], Step(p, Got(m + n));
    RunAppend(r, first, [Got(m + n)]);
    RunOne(p, Got(m + n));
    SliceBehind(t, p.packet, p.incoming, m, n);
  }

  lemma SliceBehind(t: seq<byte>, x: seq<byte>, y: seq<byte>, m: nat, n: nat)
    requires t == x + y && m + n <= |y|
    ensures t[|x| + m..|x| + m + n] == y[m..m + n] && t[|x| + m + n..] == y[m + n..]
  {
  }

  lemma FirstIsExact(r: Reader)
    requires AtRest(r) && Split(Remaining(r)).frames != []
    ensures var f := Split(Remaining(r)).frames[0];
      ExactFrame(f) && f <= Remaining(r)
  {
    var t := Remaining(r);
    SplitExact(t);
    assert CompleteBytes(t);
  }

  // Part of a header is buffered. Its other bytes find room behind it, if need be at the front.
  predicate HeaderFits(r: Reader, f: seq<byte>) {
    && !r.closed && r.packet == [] && 0 < |r.unread| < HEAD && ExactFrame(f) && f <= r.unread + r.incoming
    && r.at + |r.unread| <= r.capacity && Begin(r) + HEAD <= r.capacity
  }

  lemma Clears(r: Reader, f: seq<byte>) returns (answers: seq<Answer>)
    requires AtRest(r) && r.capacity >= HEAD && r.unread != [] && ExactFrame(f) && f <= Remaining(r)
    ensures var s := Run(r, answers);
      HeaderFits(s, f) && Begin(s) == Base(r) && s.capacity == r.capacity && s.ending == r.ending
      && s.unread + s.incoming == Remaining(r)
  {
    hide Taken, CompleteBytes, ExactFrame, Step, Parsed, Sane, PartialPacket;
    assert Remaining(r) == r.unread + r.incoming;
    assert |f| >= HEAD by { HeaderThere(f); }
    NothingAdded(r.unread + r.incoming);
    RunNothing(r);
    var room := r.capacity - (r.at + |r.unread|);
    answers := [];
    if r.capacity < r.at + HEAD && room > 0 {
      answers := [Got(room)];
      RunOne(r, Got(room));
      Round(r, room);
      var data := r.unread + r.incoming[..room];
      TooLittle(data);
      assert [] + data[..0] == [] && data[0..] == data;
      ParsedInto(Received(r, room), 0, []);
      assert data + r.incoming[room..] == r.unread + r.incoming;
    }
  }

  lemma HeaderThere(f: seq<byte>)
    requires ExactFrame(f)
    ensures |f| >= HEAD
  {
  }

  lemma RunNothing(r: Reader)
    ensures Run(r, []) == r
  {
  }

  lemma TooLittle(data: seq<byte>)
    requires |data| < HEAD
    ensures Taken([], data) == 0 && !CompleteBytes(data) && !CompleteBytes([])
  {
  }

  // A packet without content is complete with its header.
  lemma CompletesHeader(r: Reader, f: seq<byte>, n: nat)
    requires HeaderFits(r, f) && |f| == HEAD && Begin(r) + HEAD + n <= r.capacity && HEAD + n <= |r.unread + r.incoming|
    ensures var t := r.unread + r.incoming;
      Step(r, Got(HEAD - |r.unread| + n)) == r.(handed := r.handed + [f], unread := t[HEAD..HEAD + n],
        at := if n == 0 then 0 else Begin(r) + HEAD, incoming := t[HEAD + n..])
  {
    hide Taken, CompleteBytes, ExactFrame, Step, Parsed;
    var m := HEAD - |r.unread| + n;
    var t, data := r.unread + r.incoming, r.unread + r.incoming[..m];
    assert data == t[..HEAD + n] && r.incoming[m..] == t[HEAD + n..];
    SliceOfPrefix(t, HEAD, n);
    NothingAdded(f);
    TakenLast([], data, f, HEAD);
    Round(r, m);
    ParsedInto(Received(r, m), HEAD, f);
  }

  // With its header a packet is begun.
  lemma BeginsPacket(r: Reader, f: seq<byte>)
    requires HeaderFits(r, f) && |f| > HEAD
    ensures var s := Step(r, Got(HEAD - |r.unread|));
      Filling(s, f) && Remaining(s) == r.unread + r.incoming && s.capacity == r.capacity && s.ending == r.ending
  {
    var m := HEAD - |r.unread|;
    var t, data := r.unread + r.incoming, r.unread + r.incoming[..m];
    assert data == t[..HEAD] == f[..HEAD] && r.incoming[m..] == t[HEAD..] && t[..HEAD] + t[HEAD..] == t;
    NothingAdded(data);
    NothingAdded(r.incoming[m..]);
    TakenMore([], data, f);
    hide Taken, CompleteBytes, Step, Parsed;
    Round(r, m);
    ParsedInto(Received(r, m), HEAD, data);
  }

  lemma FillingFits(r: Reader, f: seq<byte>)
    requires Filling(r, f)
    ensures !r.closed && |f| <= |r.packet| + |r.incoming|
    ensures Remaining(r) == r.packet + r.incoming && f <= Remaining(r)
  {
  }

  lemma AfterHanding(t: seq<byte>, f: seq<byte>, s: Reader)
    requires Sane(t) && Split(t).frames != [] && f == Split(t).frames[0] && f <= t
    requires !s.closed && s.packet == [] && s.unread == [] && s.at == 0 && s.incoming == t[|f|..]
    ensures AtRest(s) && Split(Remaining(s)) == Parts(Split(t).frames[1..], Split(t).rest)
  {
    assert Remaining(s) == s.incoming && s.packet + s.unread == [];
    assert t == f + s.incoming;
    NumberOfPrefix(t, |f|);
    FrameFirst(f, s.incoming);
  }

  lemma TightAhead(capacity: nat, ending: Ending, base: nat, parts: Parts, i: nat)
    requires i > 0 && TightAt(capacity, ending, base, parts, i)
    ensures TightAt(capacity, ending, 0, Parts(parts.frames[1..], parts.rest), i - 1)
  {
    assert parts.frames[1..][i..] == parts.frames[i + 1..];
  }

  // A reader at rest, where packet i can be followed by a loss.
  ghost predicate Danger(r: Reader, i: nat) {
    AtRest(r) && TightAt(r.capacity, r.ending, Base(r), Split(Remaining(r)), i)
  }

  // The first packet is handed over, and the danger comes nearer.
  lemma Approach(r: Reader, i: nat) returns (answers: seq<Answer>)
    requires Danger(r, i) && i > 0
    ensures Danger(Run(r, answers), i - 1)
  {
    WideEnough(r, i);
    hide Run;
    assert Split(Remaining(r)).frames != [];
    answers := HandsOver(r);
    hide Split, TightAt, Sane;
    TightAhead(r.capacity, r.ending, Base(r), Split(Remaining(r)), i);
  }

  lemma {:induction false} Loses(r: Reader, i: nat) returns (answers: seq<Answer>)
    requires Danger(r, i)
    ensures Lost(Run(r, answers))
    decreases i
  {
    hide Run, Lost, Danger;
    if i == 0 {
      answers := LosesNext(r);
    } else {
      var first := Approach(r, i);
      var rest := Loses(Run(r, first), i - 1);
      answers := first + rest;
      RunAppend(r, first, rest);
    }
  }

  lemma {:induction false} SplitExact(stream: seq<byte>)
    requires Sane(stream)
    ensures Framed(Split(stream).frames)
    decreases |stream|
  {
    if CompleteBytes(stream) {
      var n := WholePacket(stream);
      SplitExact(stream[n..]);
      NumberOfPrefix(stream, n);
    }
  }

  lemma {:induction false} ConcatAtLeast(pieces: seq<seq<byte>>)
    requires pieces != []
    ensures |Concat(pieces)| >= |pieces[0]|
    ensures |pieces| >= 2 ==> |Concat(pieces)| >= |pieces[|pieces| - 2]| + |pieces[|pieces| - 1]|
    decreases |pieces|
  {
    if |pieces| > 1 { ConcatAtLeast(pieces[..|pieces| - 1]); }
    if |pieces| == 2 { assert Concat(pieces[..1]) == Concat(pieces[..1][..0]) + pieces[0]; }
  }

  // A second packet is complete, so the buffer has room for a header.
  lemma WideEnough(r: Reader, i: nat)
    requires Danger(r, i)
    ensures r.capacity >= HEAD
  {
    var frames := Split(Remaining(r)).frames;
    SplitExact(Remaining(r));
    assert ExactFrame(frames[i + 1]);
    ConcatAtLeast(frames[i + 1..]);
  }

  // What has to be buffered behind the first packet f of f + x.
  lemma WhatIsBehind(ending: Ending, stream: seq<byte>, f: seq<byte>, x: seq<byte>)
    requires Sane(stream) && |Split(stream).frames| > 1 && f == Split(stream).frames[0] && stream == f + x
    ensures var n := Behind(ending, Split(stream), 0);
      n <= |x| && CompleteBytes(x[..n]) && (!ending.Failing? ==> n == |x|)
  {
    hide Split, Sane, ExactFrame, CompleteBytes, Concat;
    SplitExact(stream);
    assert ExactFrame(f);
    FrameFirst(f, x);
    var frames := Split(x).frames;
    assert Split(stream).frames[1..] == frames && Split(stream).frames[1] == frames[0];
    FirstWhole(x);
    SplitIsPartition(x);
    NothingAdded(x);
  }

  lemma FirstWhole(x: seq<byte>)
    requires Split(x).frames != []
    ensures var f := Split(x).frames[0];
      |f| <= |x| && CompleteBytes(x[..|f|]) && CompleteBytes(x)
  {
    var n := WholePacket(x);
    NumberOfPrefix(x, n);
  }

  // All of that comes in together with the end of the packet in front of it, and then the connection ends.
  lemma LosesNext(r: Reader) returns (answers: seq<Answer>)
    requires Danger(r, 0)
    ensures Lost(Run(r, answers))
  {
    var f, n := NextLoss(r);
    hide Run, CompleteBytes, Split, AtRest, Danger, Step, Remaining, Front;
    RoomLeft(Base(r), f, n);
    var first, q := HandsOverWith(r, f, n);
    answers := first + [Gone];
    RunSnoc(r, first, Gone);
    EndsNow(q);
  }

  lemma NextLoss(r: Reader) returns (f: seq<byte>, n: nat)
    requires Danger(r, 0)
    ensures AtRest(r) && r.capacity >= HEAD && Split(Remaining(r)).frames != [] && f == Split(Remaining(r)).frames[0]
    ensures Front(Base(r), f, 0) + n <= r.capacity && |f| + n <= |Remaining(r)|
    ensures CompleteBytes(Remaining(r)[|f|..|f| + n]) && MayEnd(r.ending, Remaining(r)[|f| + n..])
  {
    WideEnough(r, 0);
    FirstIsExact(r);
    var t := Remaining(r);
    f, n := Split(t).frames[0], Behind(r.ending, Split(t), 0);
    WhatIsBehind(r.ending, t, f, t[|f|..]);
    hide CompleteBytes, ExactFrame, Sane, Split, Behind, Remaining, PartialPacket, Front;
    SliceOfRest(t, |f|, n);
  }

  lemma SliceOfRest(t: seq<byte>, k: nat, n: nat)
    requires k + n <= |t|
    ensures t[k..k + n] == t[k..][..n] && (k + n == |t| ==> t[k + n..] == [])
  {
  }

  lemma RoomLeft(base: nat, f: seq<byte>, n: nat)
    ensures n < Front(base, f, 0) + n
  {
  }

  lemma EndsNow(r: Reader)
    requires !r.closed && r.packet == [] && |r.unread| < r.capacity && MayEnd(r.ending, r.incoming) && CompleteBytes(r.unread)
    ensures Lost(Step(r, Gone))
  {
    assert [] + r.unread == r.unread;
  }

  // ---------------------------------------------------------------- exactly when

  ghost predicate CanLose(r: Reader) {
    exists answers :: Lost(Run(r, answers))
  }

  // Between two events a packet can be lost, by some behaviour of the socket, if and only if the
  // connection may end and the buffer can hold the end of one packet together with what comes behind it.
  lemma LosesExactly(r: Reader)
    requires AtRest(r)
    ensures CanLose(r) <==> Tight(r.capacity, r.ending, Base(r), Remaining(r))
  {
    hide Run, Split, TightAt, Lost, AtRest;
    if Tight(r.capacity, r.ending, Base(r), Remaining(r)) {
      var i :| 0 <= i < |Split(Remaining(r)).frames| && TightAt(r.capacity, r.ending, Base(r), Split(Remaining(r)), i);
      assert Danger(r, i);
      var answers := Loses(r, i);
    } else {
      forall answers ensures !Lost(Run(r, answers)) {
        AtRestInv(r);
        RunKeeps(r, |r.handed|, Base(r), Remaining(r), answers);
        if Lost(Run(r, answers)) { LossIsTight(Run(r, answers), |r.handed|, Base(r), Remaining(r)); }
      }
    }
  }

  // In particular on a fresh connection, for all that the peer will ever send.
  lemma FreshLosesExactly(capacity: nat, ending: Ending, stream: seq<byte>)
    requires Sane(stream)
    ensures CanLose(Fresh(capacity, ending, stream)) <==> Tight(capacity, ending, 0, stream)
  {
    var r := Fresh(capacity, ending, stream);
    EmptyIsPartial();
    assert Remaining(r) == stream && r.packet + r.unread == [];
    LosesExactly(r);
  }

  // If the peer closes behind its last byte, only the last two packets count.
  lemma ClosingIsTight(capacity: nat, stream: seq<byte>)
    requires Sane(stream)
    ensures var parts := Split(stream);
      var k := |parts.frames|;
      Tight(capacity, Closing, 0, stream) <==>
        k >= 2 && LeastLeft(parts.frames[k - 2]) + |parts.frames[k - 1]| + |parts.rest| <= capacity
  {
    var parts := Split(stream);
    var k := |parts.frames|;
    SplitExact(stream);
    hide Split, Sane, ExactFrame, Concat, TightAt;
    if i :| 0 <= i < k && TightAt(capacity, Closing, 0, parts, i) { LastTwo(capacity, parts, i); }
    if k >= 2 { LastTwo(capacity, parts, k - 2); }
  }

  lemma LastTwo(capacity: nat, parts: Parts, i: nat)
    requires Framed(parts.frames) && i + 1 < |parts.frames|
    ensures var k := |parts.frames|;
      var small := LeastLeft(parts.frames[k - 2]) + |parts.frames[k - 1]| + |parts.rest| <= capacity;
      && (TightAt(capacity, Closing, 0, parts, i) ==> small)
      && (small && i == k - 2 ==> TightAt(capacity, Closing, 0, parts, i))
  {
    hide Concat, Number;
    var k, behind := |parts.frames|, parts.frames[i + 1..];
    assert ExactFrame(parts.frames[k - 2]);
    ConcatAtLeast(behind);
    if i == k - 2 {
      assert behind == [] + [parts.frames[k - 1]];
      NoPieces();
      ConcatSnoc([], parts.frames[k - 1]);
    } else {
      assert behind[|behind| - 2] == parts.frames[k - 2] && behind[|behind| - 1] == parts.frames[k - 1];
    }
  }

  // At every moment the first packets of what was received have been handed over, and all of them if
  // and only if nothing complete is buffered; so behind the end, if and only if none is lost.
  lemma HandedUnlessLost(r: Reader, answers: seq<Answer>)
    requires AtRest(r)
    ensures var s, t := Run(r, answers), Remaining(r);
      && |s.incoming| <= |t|
      && s.handed <= r.handed + Split(t[..|t| - |s.incoming|]).frames
      && (s.handed == r.handed + Split(t[..|t| - |s.incoming|]).frames <==> !CompleteBytes(s.packet + s.unread))
  {
    hide Run, Split, Sane, CompleteBytes, Loaded, AtRest, Concat;
    var s, t := Run(r, answers), Remaining(r);
    AtRestInv(r);
    RunKeeps(r, |r.handed|, Base(r), t, answers);
    HandedGrows(r, answers);
    Handed(s, |r.handed|, t);
    assert s.handed == r.handed + s.handed[|r.handed|..];
  }

  lemma Handed(s: Reader, done: nat, t: seq<byte>)
    requires Accounted(s, done, t)
    ensures |s.incoming| <= |t|
    ensures Split(t[..|t| - |s.incoming|]).frames == s.handed[done..] + Split(s.packet + s.unread).frames
    ensures Split(s.packet + s.unread).frames == [] <==> !CompleteBytes(s.packet + s.unread)
  {
    hide Concat, Sane, PartialPacket, ExactFrame;
    var h := s.handed[done..];
    assert t == (Concat(h) + (s.packet + s.unread)) + s.incoming;
    assert t[..|t| - |s.incoming|] == Concat(h) + (s.packet + s.unread);
    SplitBehindFrames(h, s.packet + s.unread);
  }

  lemma {:induction false} HandedGrows(r: Reader, answers: seq<Answer>)
    ensures r.handed <= Run(r, answers).handed
    decreases |answers|
  {
    hide Step;
    if answers != [] {
      HandedGrows(r, answers[..|answers| - 1]);
      StepGrows(Run(r, answers[..|answers| - 1]), answers[|answers| - 1]);
    }
  }

  lemma StepGrows(r: Reader, a: Answer)
    ensures r.handed <= Step(r, a).handed && Step(r, a).capacity == r.capacity && Step(r, a).ending == r.ending
  {
    hide Taken, CompleteBytes;
  }

  lemma TakesWhole(r: Reader, f: seq<byte>, n: nat)
    requires !r.closed && r.packet == [] && r.unread == [] && r.at == 0 && ExactFrame(f) && f <= r.incoming
    requires |f| <= n <= |r.incoming| && n <= r.capacity
    ensures Step(r, Got(n)) == r.(handed := r.handed + [f], unread := r.incoming[|f|..n], incoming := r.incoming[n..],
                                  at := if n == |f| then 0 else |f|)
  {
    hide Taken, CompleteBytes, Step, Parsed;
    var data := r.incoming[..n];
    SliceOfPrefix(r.incoming, |f|, n - |f|);
    NothingAdded(data);
    NothingAdded(f);
    TakenLast([], data, f, |f|);
    Round(r, n);
    ParsedInto(Received(r, n), |f|, f);
  }

  // Two packets of a byte each, and a peer that closes. If they come in one piece only the first is
  // handed over; if they come one by one, both are.
  lemma CutLosesPacket()
    ensures var f, g := Frame([1]), Frame([2]);
      var r := Fresh(64, Closing, f + g);
      var s, t := Run(r, [Got(10), Gone]), Run(r, [Got(5), Got(5), Gone]);
      && Lost(s) && s.handed == [f]
      && t.closed && t.handed == [f, g] && !Lost(t)
  {
    hide Step;
    var f, g := Frame([1]), Frame([2]);
    assert f == [1, 0, 0, 0, 1] && g == [1, 0, 0, 0, 2];
    var r := Fresh(64, Closing, f + g);
    TakesWhole(r, f, 10);
    TakesWhole(r, f, 5);
    var a, b := Step(r, Got(10)), Step(r, Got(5));
    assert a.unread == g && a.incoming == [] && a.handed == [f] && b.incoming == g && b.handed == [f];
    TakesWhole(b, g, 5);
    var c := Step(b, Got(5));
    assert c.handed == [f, g];
    RunTwo(r, Got(10), Gone);
    RunTwo(r, Got(5), Got(5));
    assert [Got(5), Got(5), Gone] == [Got(5), Got(5)] + [Gone];
    RunAppend(r, [Got(5), Got(5)], [Gone]);
    RunOne(c, Gone);
    EndsNow(a);
    Ends(a);
    Ends(c);
    assert [] + [] == c.packet + c.unread;
  }

  lemma RunTwo(r: Reader, a: Answer, b: Answer)
    ensures Run(r, [a, b]) == Step(Step(r, a), b)
  {
    hide Step;
    assert [a, b] == [a] + [b];
    RunAppend(r, [a], [b]);
    RunOne(r, a);
    RunOne(Step(r, a), b);
  }

  lemma Ends(r: Reader)
    requires !r.closed && |r.unread| < r.capacity && MayEnd(r.ending, r.incoming)
    ensures Step(r, Gone) == r.(at := Begin(r), closed := true)
  {
  }
}
