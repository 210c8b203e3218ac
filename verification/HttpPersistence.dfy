/** What the parser does behind a message: it waits for the next one if and only if the connection
    persists (section 8.1 of RFC 2616), and a stream that ends inside a message is an error. */
module HttpPersistence {
  import opened Common
  import opened HttpBody
  import opened HttpParser
  import opened HttpFraming

  // HTTP/1.1 persists unless told to close, older versions close unless told to persist. The parser
  // compares the numbers one by one, so that HTTP/2.0 counts as older.
  predicate PeersPersist(p: Parser) {
    if p.head.major >= 1 && p.head.minor >= 1 then !p.flags.close else p.flags.keepAlive
  }

  // And the end of the message can be told without closing the connection.
  predicate Persists(p: Parser) { PeersPersist(p) && !LengthOfParser(p).UntilClose? }

  // The state that awaits the next message, or the one that accepts nothing any more.
  predicate Awaits(p: Parser, s: State) {
    if Persists(p) then (if p.head.request then s == StartReq else s == StartRes) else s == Dead
  }

  lemma BehindNoBody(p: Parser)
    requires HeadersEnd(p) && Byte(p, LF).parser.errno == Ok && LengthOfParser(p).NoBody?
    ensures Byte(p, LF).tokens == [HeadersComplete, MessageComplete] && Awaits(p, Byte(p, LF).parser.state)
  {
  }

  lemma BehindFixed(p: Parser, body: seq<byte>, pieces: seq<seq<byte>>)
    requires HeadersEnd(p) && LengthOfParser(p) == Fixed(|body|)
    requires NoneEmpty(pieces) && Concat(pieces) == [LF] + body
    ensures Calls(p, pieces).parser.errno == Ok && Awaits(p, Calls(p, pieces).parser.state)
  {
    hide Concat, Calls, NoneEmpty;
    CutsDoNotMatter(p, pieces);
    RunOne(p, LF);
    RunAppend(p, [LF], body);
    EnteredBody(p);
    RunIdentity(Byte(p, LF).parser, body);
    hide Run;
    FixedPersists(p, body);
  }

  lemma FixedPersists(p: Parser, body: seq<byte>)
    requires HeadersEnd(p) && LengthOfParser(p) == Fixed(|body|)
    ensures var q := Byte(p, LF).parser.(contentLength := 0);
      Byte(p, LF).parser.contentLength == |body| > 0 && Awaits(p, NewMessage(q))
  {
  }

  lemma BehindCoded(p: Parser, chunks: seq<Chunk>, last: Chunk, pieces: seq<seq<byte>>)
    requires HeadersEnd(p) && LengthOfParser(p).Coded?
    requires (forall i :: 0 <= i < |chunks| ==> WfChunk(chunks[i])) && WfLast(last)
    requires NoneEmpty(pieces) && Concat(pieces) == [LF] + Encode(chunks, last)
    ensures Calls(p, pieces).parser.errno == Ok && Awaits(p, Calls(p, pieces).parser.state)
    ensures Calls(p, pieces).tokens == [HeadersComplete] + Reports(chunks)
  {
    hide Concat, Calls, NoneEmpty, WfChunk, WfLast, Encode, Reports;
    CutsDoNotMatter(p, pieces);
    RunOne(p, LF);
    RunAppend(p, [LF], Encode(chunks, last));
    EnteredCoded(p);
    RunEncoded(Byte(p, LF).parser, chunks, last);
    CodedPersists(p, Run(Byte(p, LF).parser, Encode(chunks, last)).parser);
  }

  lemma EnteredCoded(p: Parser)
    requires HeadersEnd(p) && LengthOfParser(p).Coded?
    ensures var q := Byte(p, LF);
      && q.parser.errno == Ok && q.parser.nread == 0 && q.parser.state.ChunkSizeStart? && q.tokens == [HeadersComplete]
      && q.parser.head == p.head && q.parser.flags == p.flags && p.flags.chunked
  {
  }

  lemma CodedPersists(p: Parser, q: Parser)
    requires HeadersEnd(p) && LengthOfParser(p).Coded? && p.flags.chunked
    requires q.head == p.head && q.flags == p.flags.(trailing := true)
    ensures Awaits(p, NewMessage(q))
  {
  }

  // ---------------------------------------------------------------- between two messages

  predicate Blank(data: seq<byte>) { forall i :: 0 <= i < |data| ==> data[i] == CR || data[i] == LF }

  // Behind the last message of a connection only line ends are let through; they count as a header.
  lemma {:induction false} NothingBehindTheLast(p: Parser, data: seq<byte>)
    requires p.errno == Ok && p.state.Dead? && p.nread <= MAX_HEADER_SIZE
    ensures Run(p, data).tokens == [] && Run(p, data).parser.state.Dead?
    ensures Run(p, data).parser.errno == Ok <==> Blank(data) && p.nread + |data| <= MAX_HEADER_SIZE
    ensures p.nread + |data| <= MAX_HEADER_SIZE && !Blank(data) ==> Run(p, data).parser.errno == ClosedConnection
    decreases |data|
  {
    if data != [] {
      var q := Byte(p, data[0]).parser;
      if q.errno == Ok { NothingBehindTheLast(q, data[1..]); } else { RunStuck(q, data[1..]); }
      assert Blank(data) <==> (data[0] == CR || data[0] == LF) && Blank(data[1..]);
    }
  }

  // ---------------------------------------------------------------- truncated messages

  // The stream ends here although the message does not.
  predicate CutShort(p: Parser) {
    p.errno == Ok ==> Called(p, []) == Out(p.(errno := InvalidEofState), [])
  }

  lemma FixedCutShort(p: Parser, body: seq<byte>, k: nat)
    requires HeadersEnd(p) && LengthOfParser(p) == Fixed(|body|) && k < |[LF] + body|
    ensures Run(p, ([LF] + body)[..k]).parser.errno == Ok && CutShort(Run(p, ([LF] + body)[..k]).parser)
  {
    if k > 0 {
      assert ([LF] + body)[..k] == [LF] + body[..k - 1];
      RunOne(p, LF);
      RunAppend(p, [LF], body[..k - 1]);
      EnteredBody(p);
      if k > 1 { RunIdentity(Byte(p, LF).parser, body[..k - 1]); }
    }
  }

  lemma CodedCutShort(p: Parser, chunks: seq<Chunk>, last: Chunk, k: nat)
    requires HeadersEnd(p) && LengthOfParser(p).Coded?
    requires (forall i :: 0 <= i < |chunks| ==> WfChunk(chunks[i])) && WfLast(last)
    requires k < |[LF] + Encode(chunks, last)|
    ensures Run(p, ([LF] + Encode(chunks, last))[..k]).parser.errno == Ok
    ensures CutShort(Run(p, ([LF] + Encode(chunks, last))[..k]).parser)
  {
    var m := Encode(chunks, last);
    if k > 0 {
      hide Encode, WfChunk, WfLast;
      assert ([LF] + m)[..k] == [LF] + m[..k - 1];
      RunOne(p, LF);
      RunAppend(p, [LF], m[..k - 1]);
      EnteredCoded(p);
      EncodedCutShort(Byte(p, LF).parser, chunks, last, k - 1);
    }
  }

  // Inside the chunks, or in front of the end of the empty trailer.
  predicate Midway(p: Parser) {
    p.errno == Ok && (InChunk(p.state) || (p.flags.trailing && (p.state.HeaderFieldStart? || p.state.HeadersAlmostDone?)))
  }

  predicate Gone(p: Parser) { p.errno != Ok || p.state.Dead? || p.state.StartReq? || p.state.StartRes? }

  lemma MidwayByte(p: Parser, b: byte)
    ensures Midway(p) ==> Midway(Byte(p, b).parser) || Gone(Byte(p, b).parser)
    ensures Gone(p) ==> Gone(Byte(p, b).parser)
  {
  }

  lemma {:induction false} MidwayRun(p: Parser, data: seq<byte>)
    ensures Midway(p) ==> Midway(Run(p, data).parser) || Gone(Run(p, data).parser)
    ensures Gone(p) ==> Gone(Run(p, data).parser)
    decreases |data|
  {
    hide Midway, Gone, Byte;
    if data != [] {
      MidwayByte(p, data[0]);
      MidwayRun(Byte(p, data[0]).parser, data[1..]);
    }
  }

  // What is not over yet was not over before.
  lemma PrefixMidway(p: Parser, front: seq<byte>, k: nat)
    requires Midway(p) && !Gone(Run(p, front).parser) && k <= |front|
    ensures Midway(Run(p, front[..k]).parser)
  {
    hide Midway, Gone, Run;
    assert front == front[..k] + front[k..];
    RunAppend(p, front[..k], front[k..]);
    MidwayRun(p, front[..k]);
    MidwayRun(Run(p, front[..k]).parser, front[k..]);
  }

  lemma {:induction false} EncodedCutShort(p: Parser, chunks: seq<Chunk>, last: Chunk, k: nat)
    requires p.errno == Ok && p.state.ChunkSizeStart? && p.nread == 0
    requires (forall i :: 0 <= i < |chunks| ==> WfChunk(chunks[i])) && WfLast(last)
    requires k < |Encode(chunks, last)|
    ensures Midway(Run(p, Encode(chunks, last)[..k]).parser)
    decreases |chunks|
  {
    hide Byte, IsHexDigit, SizeLine, HexValue, LineOf, Run;
    var all := Encode(chunks, last);
    if chunks == [] {
      assert WfLast(last);
      ReadLine(p, last);
      var front := LineOf(last) + [CR];
      RunAppend(p, LineOf(last), [CR]);
      TrailerBegins(Run(p, LineOf(last)).parser);
      assert all[..k] == front[..k];
      PrefixMidway(p, front, k);
    } else {
      var c, rest := chunks[0], Encode(chunks[1..], last);
      var front := LineOf(c) + (c.data + [CR, LF]);
      assert WfChunk(c);
      ReadLine(p, c);
      ReadData(Run(p, LineOf(c)).parser, c.data);
      RunAppend(p, LineOf(c), c.data + [CR, LF]);
      if k < |front| {
        assert all[..k] == front[..k];
        PrefixMidway(p, front, k);
      } else {
        assert all[..k] == front + rest[..k - |front|];
        RunAppend(p, front, rest[..k - |front|]);
        EncodedCutShort(Run(p, front).parser, chunks[1..], last, k - |front|);
      }
    }
  }

  lemma TrailerBegins(p: Parser)
    requires p.errno == Ok && p.state.HeaderFieldStart? && p.flags.trailing && p.nread == 0
    ensures !Gone(Run(p, [CR]).parser)
  {
    RunOne(p, CR);
  }
}
