/** The body states of water/net/http-parser/http_parser.c in strict mode, read one byte at a
    time: from the blank line that ends the headers to the end of the message. */
module HttpBody {
  import opened Common

  const CR: byte := 13
  const LF: byte := 10
  const ULLONG_MAX: nat := 0xFFFF_FFFF_FFFF_FFFF
  const MAX_HEADER_SIZE: nat := 80 * 1024

  datatype State =
    | Dead | StartReq | StartRes
    | HeaderFieldStart | HeadersAlmostDone | HeadersDone
    | ChunkSizeStart | ChunkSize | ChunkParameters | ChunkSizeAlmostDone
    | ChunkData | ChunkDataAlmostDone | ChunkDataDone
    | BodyIdentity | BodyIdentityEof | MessageDone

  // `OutOfModel` is no code of the parser: the byte starts a header line or the next message,
  // which the header states would read from here on.
  datatype Errno =
    | Ok | Strict | InvalidChunkSize | InvalidContentLength | UnexpectedContentLength
    | HeaderOverflow | ClosedConnection | InvalidEofState | OutOfModel

  datatype Flags = Flags(
    chunked: bool, keepAlive: bool, close: bool, trailing: bool, contentLengthSeen: bool, skipBody: bool)

  // What the start line and the headers said; it does not change while the body is read.
  datatype Head = Head(request: bool, status: nat, major: nat, minor: nat, noBodyWanted: bool)

  datatype Parser = Parser(
    head: Head, state: State, flags: Flags, nread: nat, contentLength: nat, errno: Errno)

  // What the callbacks observe, one token for each delivered body byte.
  datatype Token = Body(b: byte) | HeadersComplete | ChunkHeader | ChunkComplete | MessageComplete

  datatype Out = Out(parser: Parser, tokens: seq<Token>)

  // The states for which `PARSING_HEADER` holds and each byte counts towards the header limit.
  predicate ParsingHeader(s: State) {
    !(s.ChunkData? || s.ChunkDataAlmostDone? || s.ChunkDataDone? || s.BodyIdentity? || s.BodyIdentityEof? || s.MessageDone?)
  }

  // The `unhex` table: its initializer lists 128 entries, so bytes from 128 on read as digit 0.
  function Unhex(ch: byte): (r: int)
    ensures -1 <= r < 16
  {
    if '0' as int <= ch <= '9' as int then ch - '0' as int
    else if 'A' as int <= ch <= 'F' as int then ch - 'A' as int + 10
    else if 'a' as int <= ch <= 'f' as int then ch - 'a' as int + 10
    else if ch >= 128 then 0
    else -1
  }

  function MessageNeedsEof(p: Parser): bool {
    if p.head.request then false
    else if p.head.status / 100 == 1 || p.head.status == 204 || p.head.status == 304 || p.flags.skipBody then false
    else if p.flags.chunked || p.contentLength != ULLONG_MAX then false
    else true
  }

  function ShouldKeepAlive(p: Parser): bool {
    if p.head.major > 0 && p.head.minor > 0 then
      if p.flags.close then false else !MessageNeedsEof(p)
    else
      if !p.flags.keepAlive then false else !MessageNeedsEof(p)
  }

  function NewMessage(p: Parser): (s: State)
    ensures s.Dead? || s.StartReq? || s.StartRes?
  {
    if ShouldKeepAlive(p) then (if p.head.request then StartReq else StartRes) else Dead
  }

  function Finish(p: Parser, tokens: seq<Token>): Out {
    Out(p.(state := NewMessage(p)), tokens + [MessageComplete])
  }

  function OnHeadersDone(p: Parser): Out {
    var q := p.(nread := 0);
    if q.flags.skipBody then Finish(q, [])
    else if q.flags.chunked then Out(q.(state := ChunkSizeStart), [])
    else if q.contentLength == 0 then Finish(q, [])
    else if q.contentLength != ULLONG_MAX then Out(q.(state := BodyIdentity), [])
    else if !MessageNeedsEof(q) then Finish(q, [])
    else Out(q.(state := BodyIdentityEof), [])
  }

  function OnHeadersAlmostDone(p: Parser, ch: byte): Out {
    if ch != LF then Out(p.(errno := Strict), [])
    else if p.flags.trailing then Finish(p, [ChunkComplete])
    else if p.flags.chunked && p.flags.contentLengthSeen then Out(p.(errno := UnexpectedContentLength), [])
    else
      var q := p.(state := HeadersDone,
                  flags := if p.head.noBodyWanted then p.flags.(skipBody := true) else p.flags);
      var r := OnHeadersDone(q);
      Out(r.parser, [HeadersComplete] + r.tokens)
  }

  // The accumulators, with the wrap-around of the 64-bit product written out.
  function Accumulate(length: nat, base: nat, digit: nat): nat {
    (length * base + digit) % (ULLONG_MAX + 1)
  }

  predicate WouldOverflow(length: nat, base: nat)
    requires base > 0
  {
    (ULLONG_MAX - base) / base < length
  }

  function OnChunkSize(p: Parser, ch: byte): Parser {
    if ch == CR then p.(state := ChunkSizeAlmostDone)
    else if Unhex(ch) == -1 then
      if ch == ';' as int || ch == ' ' as int then p.(state := ChunkParameters)
      else p.(errno := InvalidChunkSize)
    else if WouldOverflow(p.contentLength, 16) then p.(errno := InvalidContentLength)
    else p.(contentLength := Accumulate(p.contentLength, 16, Unhex(ch)))
  }

  function OnChunkSizeAlmostDone(p: Parser, ch: byte): Out {
    if ch != LF then Out(p.(errno := Strict), [])
    else if p.contentLength == 0 then
      Out(p.(nread := 0, flags := p.flags.(trailing := true), state := HeaderFieldStart), [ChunkHeader])
    else Out(p.(nread := 0, state := ChunkData), [ChunkHeader])
  }

  // One body byte in a state that counts down; `contentLength` is not 0 here.
  function Less(n: nat): nat { if n == 0 then 0 else n - 1 }

  function OnBody(p: Parser, ch: byte): Out {
    var q := p.(contentLength := Less(p.contentLength));
    if q.contentLength == 0 then Finish(q, [Body(ch)]) else Out(q, [Body(ch)])
  }

  function OnChunkData(p: Parser, ch: byte): Out {
    var q := p.(contentLength := Less(p.contentLength));
    Out(if q.contentLength == 0 then q.(state := ChunkDataAlmostDone) else q, [Body(ch)])
  }

  // The state switch on one byte, `reexecute` jumps included.
  function Dispatch(p: Parser, ch: byte): Out {
    match p.state
    case Dead => Out(if ch == CR || ch == LF then p else p.(errno := ClosedConnection), [])
    case StartReq => Out(if ch == CR || ch == LF then p else p.(errno := OutOfModel), [])
    case StartRes => Out(p.(errno := OutOfModel), [])
    case HeaderFieldStart =>
      if ch == CR then Out(p.(state := HeadersAlmostDone), [])
      else if ch == LF then OnHeadersAlmostDone(p.(state := HeadersAlmostDone), ch)
      else Out(p.(errno := OutOfModel), [])
    case HeadersAlmostDone => OnHeadersAlmostDone(p, ch)
    case HeadersDone => if ch != LF then Out(p.(errno := Strict), []) else OnHeadersDone(p)
    case ChunkSizeStart =>
      if Unhex(ch) == -1 then Out(p.(errno := InvalidChunkSize), [])
      else Out(p.(contentLength := Unhex(ch), state := ChunkSize), [])
    case ChunkSize => Out(OnChunkSize(p, ch), [])
    case ChunkParameters => Out(if ch == CR then p.(state := ChunkSizeAlmostDone) else p, [])
    case ChunkSizeAlmostDone => OnChunkSizeAlmostDone(p, ch)
    case ChunkData => OnChunkData(p, ch)
    case ChunkDataAlmostDone =>
      if ch != CR then Out(p.(errno := Strict), []) else Out(p.(state := ChunkDataDone), [])
    case ChunkDataDone =>
      if ch != LF then Out(p.(errno := Strict), [])
      else Out(p.(nread := 0, state := ChunkSizeStart), [ChunkComplete])
    case BodyIdentity => OnBody(p, ch)
    case BodyIdentityEof => Out(p, [Body(ch)])
    case MessageDone => Finish(p, [])
  }

  function Counted(p: Parser): Parser {
    if ParsingHeader(p.state) then
      var q := p.(nread := p.nread + 1);
      if q.nread > MAX_HEADER_SIZE then q.(errno := HeaderOverflow) else q
    else p
  }

  // One byte of input; a parser in error stays as it is.
  function Byte(p: Parser, ch: byte): Out {
    if p.errno != Ok then Out(p, [])
    else
      var q := Counted(p);
      if q.errno != Ok then Out(q, []) else Dispatch(q, ch)
  }

  function Run(p: Parser, data: seq<byte>): Out
    decreases |data|
  {
    if data == [] then Out(p, [])
    else
      var first := Byte(p, data[0]);
      var rest := Run(first.parser, data[1..]);
      Out(rest.parser, first.tokens + rest.tokens)
  }

  function AsBody(data: seq<byte>): (r: seq<Token>)
    ensures |r| == |data|
    ensures forall i :: 0 <= i < |data| ==> r[i] == Body(data[i])
  {
    seq(|data|, i requires 0 <= i < |data| => Body(data[i]))
  }

  lemma {:induction false} RunAppend(p: Parser, a: seq<byte>, b: seq<byte>)
    ensures Run(p, a + b) ==
      Out(Run(Run(p, a).parser, b).parser, Run(p, a).tokens + Run(Run(p, a).parser, b).tokens)
    decreases |a|
  {
    if a == [] {
      assert a + b == b;
    } else {
      assert (a + b)[1..] == a[1..] + b;
      var first := Byte(p, a[0]);
      RunAppend(first.parser, a[1..], b);
      var mid := Run(first.parser, a[1..]);
      assert first.tokens + (mid.tokens + Run(mid.parser, b).tokens) == (first.tokens + mid.tokens) + Run(mid.parser, b).tokens;
    }
  }

  lemma {:induction false} RunStuck(p: Parser, data: seq<byte>)
    requires p.errno != Ok
    ensures Run(p, data) == Out(p, [])
    decreases |data|
  {
    if data != [] { RunStuck(p, data[1..]); }
  }

  lemma RunOne(p: Parser, ch: byte)
    ensures Run(p, [ch]) == Byte(p, ch)
  {
    var first := Byte(p, ch);
    assert [ch][1..] == [];
    assert first.tokens + Run(first.parser, []).tokens == first.tokens;
  }

  // ---------------------------------------------------------------- the parser invariant

  predicate InChunk(s: State) {
    || s.ChunkSizeStart? || s.ChunkSize? || s.ChunkParameters? || s.ChunkSizeAlmostDone?
    || s.ChunkData? || s.ChunkDataAlmostDone? || s.ChunkDataDone?
  }

  // The facts the code asserts on entry to its states. With them `contentLength` is neither 0
  // nor the "no length" sentinel wherever body bytes are counted down.
  ghost predicate Wf(p: Parser) {
    && p.contentLength <= ULLONG_MAX
    && (p.errno == Ok ==> p.nread <= MAX_HEADER_SIZE)
    && (p.state.BodyIdentity? ==> 0 < p.contentLength < ULLONG_MAX)
    && (p.state.ChunkData? ==> 0 < p.contentLength < ULLONG_MAX)
    && (p.state.ChunkSize? || p.state.ChunkParameters? || p.state.ChunkSizeAlmostDone? ==> p.contentLength < ULLONG_MAX)
    && (p.state.ChunkDataAlmostDone? || p.state.ChunkDataDone? ==> p.contentLength == 0)
    && (p.state.ChunkSizeStart? && p.errno == Ok ==> p.nread == 0)
    && (InChunk(p.state) ==> p.flags.chunked)
    && !p.state.MessageDone?
  }

  // An accepted digit neither wraps nor reaches the sentinel.
  lemma AccumulateBounded(length: nat, base: nat, digit: nat)
    requires (base == 10 || base == 16) && digit < base && !WouldOverflow(length, base)
    ensures Accumulate(length, base, digit) == length * base + digit < ULLONG_MAX
  {
  }

  lemma ByteWf(p: Parser, ch: byte)
    requires Wf(p)
    ensures Wf(Byte(p, ch).parser)
  {
    hide Dispatch;
    if p.errno == Ok && Counted(p).errno == Ok {
      if InChunk(p.state) { DispatchChunkWf(Counted(p), ch); } else { DispatchRestWf(Counted(p), ch); }
    }
  }

  lemma DispatchChunkWf(p: Parser, ch: byte)
    requires p.errno == Ok && Wf(p.(nread := 0)) && p.nread <= MAX_HEADER_SIZE && InChunk(p.state)
    ensures Wf(Dispatch(p, ch).parser)
  {
    if p.state.ChunkSize? && Unhex(ch) != -1 && !WouldOverflow(p.contentLength, 16) {
      hide Accumulate, WouldOverflow;
      AccumulateBounded(p.contentLength, 16, Unhex(ch));
    }
  }

  lemma DispatchRestWf(p: Parser, ch: byte)
    requires p.errno == Ok && Wf(p) && !InChunk(p.state)
    ensures Wf(Dispatch(p, ch).parser)
  {
    if p.state.HeadersDone? { HeadersDoneWf(p); }
    if p.state.HeadersAlmostDone? { HeadersAlmostDoneWf(p, ch); }
    if p.state.HeaderFieldStart? { HeadersAlmostDoneWf(p.(state := HeadersAlmostDone), ch); }
    hide OnHeadersDone, OnHeadersAlmostDone;
  }

  lemma HeadersDoneWf(p: Parser)
    requires p.errno == Ok && Wf(p)
    ensures Wf(OnHeadersDone(p).parser)
  {
  }

  lemma HeadersAlmostDoneWf(p: Parser, ch: byte)
    requires p.errno == Ok && Wf(p)
    ensures Wf(OnHeadersAlmostDone(p, ch).parser)
  {
    HeadersDoneWf(p);
    HeadersDoneWf(p.(state := HeadersDone));
  }

  lemma {:induction false} RunWf(p: Parser, data: seq<byte>)
    requires Wf(p)
    ensures Wf(Run(p, data).parser)
    decreases |data|
  {
    if data != [] {
      ByteWf(p, data[0]);
      RunWf(Byte(p, data[0]).parser, data[1..]);
    }
  }

  // ---------------------------------------------------------------- runs of body bytes

  lemma {:induction false} RunIdentity(p: Parser, data: seq<byte>)
    requires p.state.BodyIdentity? && p.errno == Ok && 0 < |data| <= p.contentLength
    ensures var q := p.(contentLength := p.contentLength - |data|);
      Run(p, data) == (if q.contentLength == 0 then Finish(q, AsBody(data)) else Out(q, AsBody(data)))
    decreases |data|
  {
    var rest := data[1..];
    assert AsBody(data) == [Body(data[0])] + AsBody(rest);
    if rest != [] {
      RunIdentity(Byte(p, data[0]).parser, rest);
      assert [Body(data[0])] + (AsBody(rest) + [MessageComplete]) == AsBody(data) + [MessageComplete];
    }
  }

  lemma {:induction false} RunChunkData(p: Parser, data: seq<byte>)
    requires p.state.ChunkData? && p.errno == Ok && 0 < |data| <= p.contentLength
    ensures var q := p.(contentLength := p.contentLength - |data|);
      Run(p, data) == Out(if q.contentLength == 0 then q.(state := ChunkDataAlmostDone) else q, AsBody(data))
    decreases |data|
  {
    var rest := data[1..];
    assert AsBody(data) == [Body(data[0])] + AsBody(rest);
    if rest != [] { RunChunkData(Byte(p, data[0]).parser, rest); }
  }

  lemma {:induction false} RunEof(p: Parser, data: seq<byte>)
    requires p.state.BodyIdentityEof? && p.errno == Ok
    ensures Run(p, data) == Out(p, AsBody(data))
    decreases |data|
  {
    if data != [] {
      assert AsBody(data) == [Body(data[0])] + AsBody(data[1..]);
      RunEof(p, data[1..]);
    }
  }
}
