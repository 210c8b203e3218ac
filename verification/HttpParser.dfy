/** `http_parser_execute` over the body states: the resumable loop with its fast skips, its
    `reexecute` jumps and its body mark, proved against the byte-at-a-time machine.
    Callbacks are assumed to be set and to return 0. */
module HttpParser {
  import opened Common
  import opened HttpBody

  // One callback invocation: `on_body` with its span, or a notification.
  datatype Call = OnBodyData(bytes: seq<byte>) | Notify(what: Token)

  function TokensOf(c: Call): seq<Token> {
    match c
    case OnBodyData(bytes) => AsBody(bytes)
    case Notify(what) => [what]
  }

  function Tokens(calls: seq<Call>): seq<Token> {
    if calls == [] then [] else Tokens(calls[..|calls| - 1]) + TokensOf(calls[|calls| - 1])
  }

  lemma TokensSnoc(calls: seq<Call>, c: Call)
    ensures Tokens(calls + [c]) == Tokens(calls) + TokensOf(c)
  {
    assert (calls + [c])[..|calls|] == calls;
  }

  lemma Associate<T>(a: seq<T>, b: seq<T>, c: seq<T>)
    ensures a + (b + c) == a + b + c
  {
  }

  lemma {:induction false} TokensConcat(a: seq<Call>, b: seq<Call>)
    ensures Tokens(a + b) == Tokens(a) + Tokens(b)
    decreases |b|
  {
    if b == [] {
      assert a + b == a;
    } else {
      hide Tokens, TokensOf;
      var front, last := b[..|b| - 1], b[|b| - 1];
      assert b == front + [last] && a + b == (a + front) + [last];
      TokensSnoc(front, last);
      TokensSnoc(a + front, last);
      TokensConcat(a, front);
      Associate(Tokens(a), Tokens(front), TokensOf(last));
    }
  }

  predicate EndsInBody(ts: seq<Token>) { ts != [] && ts[|ts| - 1].Body? }

  function DropBodySuffix(ts: seq<Token>): (r: seq<Token>)
    ensures r <= ts && !EndsInBody(r)
  {
    if EndsInBody(ts) then DropBodySuffix(ts[..|ts| - 1]) else ts
  }

  lemma {:induction false} DropBodySuffixOf(ts: seq<Token>, data: seq<byte>)
    requires !EndsInBody(ts)
    ensures DropBodySuffix(ts + AsBody(data)) == ts
    decreases |data|
  {
    if data == [] {
      assert ts + AsBody(data) == ts;
    } else {
      var last := |data| - 1;
      var all := ts + AsBody(data);
      assert all[..|all| - 1] == ts + AsBody(data[..last]);
      DropBodySuffixOf(ts, data[..last]);
    }
  }

  // A chunk that is not followed by CR fails before its pending body span was handed over.
  predicate ChunkEndFailed(p: Parser) { p.errno == Strict && p.state == ChunkDataAlmostDone }

  // A call with no bytes signals the end of the stream.
  function AtEof(p: Parser): Out {
    if p.state.BodyIdentityEof? then Out(p, [MessageComplete])
    else if p.state.Dead? || p.state.StartReq? || p.state.StartRes? then Out(p, [])
    else Out(p.(errno := InvalidEofState), [])
  }

  // What one call does: the byte machine, except that a failed chunk end loses the body bytes
  // this call had only marked.
  function Called(p: Parser, data: seq<byte>): Out {
    if p.errno != Ok then Out(p, [])
    else if data == [] then AtEof(p)
    else
      var r := Run(p, data);
      if ChunkEndFailed(r.parser) then Out(r.parser, DropBodySuffix(r.tokens)) else r
  }

  predicate Skips(s: State) {
    s.BodyIdentity? || s.BodyIdentityEof? || s.ChunkData? || s.ChunkDataAlmostDone?
  }

  // The tokens handed over so far plus those of the span that is only marked.
  function Pending(calls: seq<Call>, mark: int, data: seq<byte>, i: nat): seq<Token>
    requires i <= |data| && mark <= i
  {
    Tokens(calls) + (if mark < 0 then [] else AsBody(data[mark..i]))
  }

  function Notices(ts: seq<Token>): (r: seq<Call>)
    ensures |r| == |ts|
  {
    if ts == [] then [] else Notices(ts[..|ts| - 1]) + [Notify(ts[|ts| - 1])]
  }

  lemma {:induction false} TokensOfNotices(ts: seq<Token>)
    ensures Tokens(Notices(ts)) == ts
    decreases |ts|
  {
    if ts != [] {
      hide Tokens;
      var front, last := ts[..|ts| - 1], ts[|ts| - 1];
      TokensSnoc(Notices(front), Notify(last));
      TokensOfNotices(front);
    }
  }

  lemma NothingPending(data: seq<byte>)
    ensures data[..0] == [] && Tokens([]) == Pending([], -1, data, 0) == []
  {
  }

  lemma PendingExtend(calls: seq<Call>, mark: int, data: seq<byte>, i: nat, j: nat)
    requires mark <= i <= j <= |data|
    ensures Pending(calls, if mark < 0 then i else mark, data, j) == Pending(calls, mark, data, i) + AsBody(data[i..j])
  {
    if mark < 0 {
      assert Tokens(calls) + [] == Tokens(calls);
    } else {
      assert AsBody(data[mark..j]) == AsBody(data[mark..i]) + AsBody(data[i..j]);
    }
  }

  lemma FlushAndNotify(calls: seq<Call>, mark: int, data: seq<byte>, i: nat, notes: seq<Token>)
    requires mark <= i <= |data|
    ensures Tokens((if mark < 0 then calls else calls + [OnBodyData(data[mark..i])]) + Notices(notes))
            == Pending(calls, mark, data, i) + notes
  {
    var flushed := if mark < 0 then calls else calls + [OnBodyData(data[mark..i])];
    if mark >= 0 { TokensSnoc(calls, OnBodyData(data[mark..i])); }
    TokensConcat(flushed, Notices(notes));
    TokensOfNotices(notes);
  }

  // The single-byte states deliver no body byte, and announce a chunk before they enter its data.
  lemma SwitchTokens(p: Parser, ch: byte)
    requires !p.state.MessageDone?
    ensures var r := Dispatch(p, ch);
      !Skips(p.state) ==>
        && !EndsInBody(r.tokens)
        && !r.parser.state.ChunkDataAlmostDone?
        && (r.parser.state.ChunkData? ==> r.tokens != [])
  {
  }

  lemma RunNothing(p: Parser)
    ensures Run(p, []) == Out(p, [])
  {
  }

  lemma ChunkEndByte(p: Parser, ch: byte)
    ensures p.state.ChunkDataAlmostDone? && p.errno == Ok ==>
      Byte(p, ch) == Out(if ch != CR then p.(errno := Strict) else p.(state := ChunkDataDone), [])
  {
  }

  // Splitting a run of data[..to] at `from`.
  lemma OneMoreByte(p: Parser, data: seq<byte>, from: nat, to: nat)
    requires from < to <= |data|
    ensures Run(p, data[..to]) ==
      Out(Run(Run(p, data[..from]).parser, data[from..to]).parser,
          Run(p, data[..from]).tokens + Run(Run(p, data[..from]).parser, data[from..to]).tokens)
    ensures to == from + 1 ==> Run(Run(p, data[..from]).parser, data[from..to]) == Byte(Run(p, data[..from]).parser, data[from])
  {
    assert data[..to] == data[..from] + data[from..to];
    RunAppend(p, data[..from], data[from..to]);
    if to == from + 1 {
      assert data[from..to] == [data[from]];
      RunOne(Run(p, data[..from]).parser, data[from]);
    }
  }

  // Once a byte failed the rest of the buffer changes nothing.
  lemma Stopped(p: Parser, data: seq<byte>, i: nat, calls: seq<Call>, mark: int)
    requires i < |data| && mark <= i
    ensures Run(p, data[..i + 1]).parser.errno != Ok ==> Run(p, data) == Run(p, data[..i + 1])
    ensures !EndsInBody(Tokens(calls)) ==> DropBodySuffix(Pending(calls, mark, data, i)) == Tokens(calls)
  {
    assert data == data[..i + 1] + data[i + 1..];
    RunAppend(p, data[..i + 1], data[i + 1..]);
    var q := Run(p, data[..i + 1]);
    if q.parser.errno != Ok {
      RunStuck(q.parser, data[i + 1..]);
      assert q.tokens + [] == q.tokens;
    }
    if !EndsInBody(Tokens(calls)) {
      var span := if mark < 0 then [] else data[mark..i];
      DropBodySuffixOf(Tokens(calls), span);
      assert Pending(calls, mark, data, i) == Tokens(calls) + AsBody(span);
    }
  }
  class HttpParser {
    const head: Head
    var state: State
    var flags: Flags
    var nread: nat
    var contentLength: nat
    var errno: Errno

    function Value(): Parser
      reads this
    {
      Parser(head, state, flags, nread, contentLength, errno)
    }

    // As the header states leave it: the LF of the blank line comes next.
    constructor (head: Head, flags: Flags, nread: nat, contentLength: nat)
      requires nread <= MAX_HEADER_SIZE && contentLength <= ULLONG_MAX
      ensures Wf(Value())
      ensures Value() == Parser(head, HeadersAlmostDone, flags, nread, contentLength, Ok)
    {
      this.head := head;
      this.state := HeadersAlmostDone;
      this.flags := flags;
      this.nread := nread;
      this.contentLength := contentLength;
      this.errno := Ok;
    }

    // s_headers_done
    method AtHeadersDone(ch: byte) returns (notes: seq<Token>)
      requires errno == Ok && state.HeadersDone?
      modifies this
      ensures Out(Value(), notes) == if ch != LF then Out(old(Value()).(errno := Strict), []) else OnHeadersDone(old(Value()))
    {
      notes := [];
      if ch != LF { errno := Strict; return; }
      nread := 0;
      if flags.skipBody {
        state := NewMessage(Value());
        notes := [MessageComplete];
      } else if flags.chunked {
        state := ChunkSizeStart;
      } else if contentLength == 0 {
        state := NewMessage(Value());
        notes := [MessageComplete];
      } else if contentLength != ULLONG_MAX {
        state := BodyIdentity;
      } else if !MessageNeedsEof(Value()) {
        state := NewMessage(Value());
        notes := [MessageComplete];
      } else {
        state := BodyIdentityEof;
      }
    }

    // s_message_done
    method AtMessageDone() returns (notes: seq<Token>)
      requires errno == Ok && state.MessageDone?
      modifies this
      ensures Out(Value(), notes) == Finish(old(Value()), [])
    {
      state := NewMessage(Value());
      notes := [MessageComplete];
    }

    // s_headers_almost_done; its `goto reexecute` continues in the state just entered
    method AtHeadersAlmostDone(ch: byte) returns (notes: seq<Token>)
      requires errno == Ok && state.HeadersAlmostDone?
      modifies this
      ensures Out(Value(), notes) == OnHeadersAlmostDone(old(Value()), ch)
    {
      notes := [];
      if ch != LF { errno := Strict; return; }
      if flags.trailing {
        state := MessageDone;
        var more := AtMessageDone();
        notes := [ChunkComplete] + more;
        return;
      }
      if flags.chunked && flags.contentLengthSeen { errno := UnexpectedContentLength; return; }
      state := HeadersDone;
      if head.noBodyWanted { flags := flags.(skipBody := true); }
      var more := AtHeadersDone(ch);
      notes := [HeadersComplete] + more;
    }

    // s_chunk_size_start, s_chunk_size and s_chunk_parameters
    method AtChunkSize(ch: byte)
      requires errno == Ok && Wf(Value().(nread := 0))
      requires state.ChunkSizeStart? || state.ChunkSize? || state.ChunkParameters?
      modifies this
      ensures Out(Value(), []) == Dispatch(old(Value()), ch)
    {
      assert flags.chunked;
      var digit := Unhex(ch);
      if state.ChunkSizeStart? {
        if digit == -1 { errno := InvalidChunkSize; return; }
        contentLength := digit;
        state := ChunkSize;
      } else if ch == CR {
        state := ChunkSizeAlmostDone;
      } else if state.ChunkSize? {
        if digit == -1 {
          if ch == ';' as int || ch == ' ' as int { state := ChunkParameters; } else { errno := InvalidChunkSize; }
          return;
        }
        var t := Accumulate(contentLength, 16, digit);
        if (ULLONG_MAX - 16) / 16 < contentLength { errno := InvalidContentLength; return; }
        contentLength := t;
      }
    }

    // s_chunk_size_almost_done and s_chunk_data_done
    method AtChunkEdge(ch: byte) returns (notes: seq<Token>)
      requires errno == Ok && Wf(Value().(nread := 0))
      requires state.ChunkSizeAlmostDone? || state.ChunkDataDone?
      modifies this
      ensures Out(Value(), notes) == Dispatch(old(Value()), ch)
    {
      assert flags.chunked;
      notes := [];
      if ch != LF { errno := Strict; return; }
      nread := 0;
      if state.ChunkDataDone? {
        state := ChunkSizeStart;
        notes := [ChunkComplete];
      } else {
        if contentLength == 0 {
          flags := flags.(trailing := true);
          state := HeaderFieldStart;
        } else {
          state := ChunkData;
        }
        notes := [ChunkHeader];
      }
    }

    // The states that look at one byte and leave the body mark alone.
    method Switch(ch: byte) returns (notes: seq<Token>)
      requires errno == Ok && !Skips(state) && Wf(Value().(nread := 0))
      modifies this
      ensures Out(Value(), notes) == Dispatch(old(Value()), ch)
    {
      notes := [];
      match state {
        case Dead => if ch != CR && ch != LF { errno := ClosedConnection; }
        case StartReq => if ch != CR && ch != LF { errno := OutOfModel; }
        case StartRes => errno := OutOfModel;
        case HeaderFieldStart =>
          if ch == CR {
            state := HeadersAlmostDone;
          } else if ch == LF {
            state := HeadersAlmostDone;
            notes := AtHeadersAlmostDone(ch);
          } else {
            errno := OutOfModel;
          }
        case HeadersAlmostDone => notes := AtHeadersAlmostDone(ch);
        case HeadersDone => notes := AtHeadersDone(ch);
        case ChunkSizeAlmostDone => notes := AtChunkEdge(ch);
        case ChunkDataDone => notes := AtChunkEdge(ch);
        case ChunkSizeStart => AtChunkSize(ch);
        case ChunkSize => AtChunkSize(ch);
        case ChunkParameters => AtChunkSize(ch);
        case _ => assert false;
      }
    }

    // A call with no bytes.
    method EndOfStream() returns (consumed: nat, calls: seq<Call>)
      requires errno == Ok
      modifies this
      ensures Out(Value(), Tokens(calls)) == AtEof(old(Value()))
      ensures consumed == if errno == Ok then 0 else 1
    {
      match state {
        case BodyIdentityEof =>
          TokensSnoc([], Notify(MessageComplete));
          return 0, [Notify(MessageComplete)];
        case Dead => return 0, [];
        case StartReq => return 0, [];
        case StartRes => return 0, [];
        case _ =>
          errno := InvalidEofState;
          return 1, [];
      }
    }

    // ------------------------------------------------------------ the loop of one call

    // The first i bytes of the buffer are done: the parser is where the byte machine is, and the
    // tokens handed over plus the marked span are those of the byte machine.
    ghost predicate Tracks(p0: Parser, data: seq<byte>, i: nat, mark: int, calls: seq<Call>)
      reads this
    {
      && i <= |data| && mark <= i
      && errno == Ok && Wf(Value())
      && Out(Value(), Pending(calls, mark, data, i)) == Run(p0, data[..i])
      && (mark >= 0 ==> state.ChunkDataAlmostDone? || (i == |data| && Skips(state)))
      && (state.ChunkData? || state.ChunkDataAlmostDone? ==> !EndsInBody(Tokens(calls)))
    }

    // Byte i was refused.
    ghost predicate Refused(p0: Parser, data: seq<byte>, i: nat, calls: seq<Call>)
      reads this
    {
      && i < |data| && errno != Ok && Wf(Value())
      && Run(p0, data[..i]).parser.errno == Ok
      && Run(p0, data[..i + 1]).parser == Value()
      && (var r := Run(p0, data);
          Out(Value(), Tokens(calls)) == if ChunkEndFailed(r.parser) then Out(r.parser, DropBodySuffix(r.tokens)) else r)
    }

    // s_body_identity: everything available is taken at once, and the last byte is looked at
    // again to report the end of the message.
    method SkipIdentity(data: seq<byte>, start: nat, mark0: int, calls0: seq<Call>, ghost p0: Parser)
      returns (i: nat, mark: int, calls: seq<Call>)
      requires Tracks(p0, data, start, mark0, calls0) && start < |data| && state.BodyIdentity?
      modifies this
      ensures start < i && Tracks(p0, data, i, mark, calls)
    {
      hide Run, Dispatch, Byte, Tokens, DropBodySuffix;
      assert contentLength != 0 && contentLength != ULLONG_MAX;
      i, mark, calls := start, mark0, calls0;
      var toRead := if contentLength < |data| - i then contentLength else |data| - i;
      ghost var span := data[start..start + toRead];
      OneMoreByte(p0, data, start, start + toRead);
      PendingExtend(calls0, mark0, data, start, start + toRead);
      RunIdentity(Value(), span);
      RunWf(Value(), span);
      if mark < 0 { mark := i; }
      contentLength := contentLength - toRead;
      i := i + toRead - 1;
      if contentLength == 0 {
        calls := CompleteBody(data[mark..i + 1], calls);
        mark := -1;
        assert Tokens(calls) == Pending(calls0, mark0, data, start) + (AsBody(span) + [MessageComplete]);
      }
      i := i + 1;
    }

    method CompleteBody(bytes: seq<byte>, calls0: seq<Call>) returns (calls: seq<Call>)
      requires errno == Ok && state.BodyIdentity? && contentLength == 0
      modifies this
      ensures Value() == Finish(old(Value()), []).parser
      ensures Tokens(calls) == Tokens(calls0) + AsBody(bytes) + [MessageComplete]
    {
      state := MessageDone;
      calls := calls0 + [OnBodyData(bytes)];
      TokensSnoc(calls0, OnBodyData(bytes));
      var notes := AtMessageDone();
      TokensConcat(calls, Notices(notes));
      TokensOfNotices(notes);
      calls := calls + Notices(notes);
    }

    // s_chunk_data: the same skip; the span is handed over only at the CR behind the chunk.
    method SkipChunk(data: seq<byte>, start: nat, mark0: int, ghost calls: seq<Call>, ghost p0: Parser)
      returns (i: nat, mark: int)
      requires Tracks(p0, data, start, mark0, calls) && start < |data| && state.ChunkData?
      modifies this
      ensures start < i && Tracks(p0, data, i, mark, calls)
    {
      hide Run, Dispatch, Byte, Tokens, Pending, AsBody, EndsInBody;
      assert contentLength != 0 && contentLength != ULLONG_MAX;
      i, mark := start, mark0;
      var toRead := if contentLength < |data| - i then contentLength else |data| - i;
      ghost var span := data[start..start + toRead];
      OneMoreByte(p0, data, start, start + toRead);
      PendingExtend(calls, mark0, data, start, start + toRead);
      RunChunkData(Value(), span);
      RunWf(Value(), span);
      if mark < 0 { mark := i; }
      contentLength := contentLength - toRead;
      i := i + toRead - 1;
      if contentLength == 0 { state := ChunkDataAlmostDone; }
      i := i + 1;
    }

    // s_body_identity_eof: the rest of the buffer is body.
    method SkipToEnd(data: seq<byte>, start: nat, mark0: int, ghost calls: seq<Call>, ghost p0: Parser)
      returns (i: nat, mark: int)
      requires Tracks(p0, data, start, mark0, calls) && start < |data| && state.BodyIdentityEof?
      ensures start < i && Tracks(p0, data, i, mark, calls)
    {
      hide Run, Dispatch, Byte;
      OneMoreByte(p0, data, start, |data|);
      RunEof(Value(), data[start..|data|]);
      PendingExtend(calls, mark0, data, start, |data|);
      mark := if mark0 < 0 then start else mark0;
      i := |data| - 1;
      i := i + 1;
    }

    // s_chunk_data_almost_done
    method AtChunkEnd(data: seq<byte>, i: nat, mark0: int, calls0: seq<Call>, ghost p0: Parser)
      returns (mark: int, calls: seq<Call>)
      requires Tracks(p0, data, i, mark0, calls0) && i < |data| && state.ChunkDataAlmostDone?
      modifies this
      ensures if errno == Ok then Tracks(p0, data, i + 1, mark, calls) else Refused(p0, data, i, calls)
    {
      hide Run, Dispatch, Byte, Tokens, DropBodySuffix;
      assert flags.chunked && contentLength == 0;
      mark, calls := mark0, calls0;
      var ch := data[i];
      OneMoreByte(p0, data, i, i + 1);
      ChunkEndByte(Value(), ch);
      assert Run(p0, data[..i + 1]).tokens == Pending(calls, mark, data, i);
      Stopped(p0, data, i, calls, mark);
      if ch != CR {
        errno := Strict;
        return;
      }
      state := ChunkDataDone;
      FlushAndNotify(calls, mark, data, i, []);
      if mark >= 0 {
        calls := calls + [OnBodyData(data[mark..i])];
        mark := -1;
      }
      assert calls + Notices([]) == calls;
    }

    // Every other state: count the byte if it belongs to the headers, then switch on it.
    method OneByte(data: seq<byte>, i: nat, calls0: seq<Call>, ghost p0: Parser) returns (calls: seq<Call>)
      requires Tracks(p0, data, i, -1, calls0) && i < |data| && !Skips(state)
      modifies this
      ensures if errno == Ok then Tracks(p0, data, i + 1, -1, calls) else Refused(p0, data, i, calls)
    {
      hide Run, Dispatch, Tokens, DropBodySuffix;
      calls := calls0;
      var ch := data[i];
      OneMoreByte(p0, data, i, i + 1);
      ByteWf(Value(), ch);
      SwitchTokens(Counted(Value()), ch);
      Stopped(p0, data, i, calls, -1);
      if ParsingHeader(state) {
        nread := nread + 1;
        if nread > MAX_HEADER_SIZE {
          errno := HeaderOverflow;
          assert Run(p0, data[..i + 1]).tokens == Tokens(calls);
          return;
        }
      }
      var notes := Switch(ch);
      FlushAndNotify(calls, -1, data, i, notes);
      calls := calls + Notices(notes);
    }

    // One call on a buffer. `mark` is the first body byte not yet handed to `on_body`, -1 if none.
    method Execute(data: seq<byte>) returns (consumed: nat, calls: seq<Call>)
      requires Wf(Value())
      modifies this
      ensures Wf(Value())
      ensures Out(Value(), Tokens(calls)) == Called(old(Value()), data)
      ensures old(errno) == Ok && data != [] && errno == Ok ==> consumed == |data|
      ensures old(errno) == Ok && data != [] && errno != Ok ==>
        consumed < |data| && Run(old(Value()), data[..consumed]).parser.errno == Ok
        && Run(old(Value()), data[..consumed + 1]).parser == Value()
      ensures old(errno) != Ok ==> consumed == 0
    {
      hide Run, Dispatch, Byte, Tokens, DropBodySuffix;
      calls := [];
      NothingPending(data);
      if errno != Ok { return 0, []; }
      if data == [] {
        consumed, calls := EndOfStream();
        return;
      }
      ghost var p0 := Value();
      var mark := -1;
      var i := 0;
      RunNothing(p0);
      while i < |data|
        invariant Tracks(p0, data, i, mark, calls)
      {
        if state.BodyIdentity? {
          i, mark, calls := SkipIdentity(data, i, mark, calls, p0);
        } else if state.ChunkData? {
          i, mark := SkipChunk(data, i, mark, calls, p0);
        } else if state.BodyIdentityEof? {
          i, mark := SkipToEnd(data, i, mark, calls, p0);
        } else if state.ChunkDataAlmostDone? {
          mark, calls := AtChunkEnd(data, i, mark, calls, p0);
          if errno != Ok { return i, calls; }
          i := i + 1;
        } else {
          calls := OneByte(data, i, calls, p0);
          if errno != Ok { return i, calls; }
          i := i + 1;
        }
      }
      FlushAndNotify(calls, mark, data, i, []);
      if mark >= 0 {
        calls := calls + [OnBodyData(data[mark..])];
      }
      assert calls + Notices([]) == calls && data[..|data|] == data;
      return |data|, calls;
    }
  }
}
