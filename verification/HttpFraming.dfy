/** Message framing as a whole: what cutting the input into several calls changes, which rule
    finds the end of the message (section 4.4 of RFC 2616), and that reading undoes the chunked
    coding of section 3.6.1 of RFC 2616. */
module HttpFraming {
  import opened Common
  import opened HttpBody
  import opened HttpParser

  // ---------------------------------------------------------------- cutting the input

  // Successive calls on the pieces.
  function Calls(p: Parser, pieces: seq<seq<byte>>): Out
    decreases |pieces|
  {
    if pieces == [] then Out(p, [])
    else
      var first := Called(p, pieces[0]);
      var rest := Calls(first.parser, pieces[1..]);
      Out(rest.parser, first.tokens + rest.tokens)
  }

  predicate NoneEmpty(pieces: seq<seq<byte>>) {
    forall i :: 0 <= i < |pieces| ==> pieces[i] != []
  }

  lemma CalledIsRun(p: Parser, data: seq<byte>)
    requires data != []
    ensures Called(p, data).parser == Run(p, data).parser
    ensures !ChunkEndFailed(Run(p, data).parser) ==> Called(p, data) == Run(p, data)
  {
    if p.errno != Ok { RunStuck(p, data); }
  }

  // Where the parser ends up never depends on the cuts; nor does what it reports, as long as the
  // whole input does not fail behind a chunk.
  lemma {:induction false} CutsDoNotMatter(p: Parser, pieces: seq<seq<byte>>)
    requires NoneEmpty(pieces)
    ensures Calls(p, pieces).parser == Run(p, Concat(pieces)).parser
    ensures !ChunkEndFailed(Run(p, Concat(pieces)).parser) ==> Calls(p, pieces) == Run(p, Concat(pieces))
    decreases |pieces|
  {
    hide Byte, Called, Concat;
    if pieces == [] {
      NoPieces();
    } else {
      assert pieces == [pieces[0]] + pieces[1..];
      ConcatCons(pieces[0], pieces[1..]);
      var first, rest := pieces[0], Concat(pieces[1..]);
      CalledIsRun(p, first);
      RunAppend(p, first, rest);
      var q := Run(p, first).parser;
      if q.errno != Ok { RunStuck(q, rest); }
      CutsDoNotMatter(q, pieces[1..]);
    }
  }

  predicate AllBody(ts: seq<Token>) { forall i :: 0 <= i < |ts| ==> ts[i].Body? }

  // The parser will meet, in b, something other than CR right behind the chunk it is in.
  predicate DoomedAt(p: Parser, b: seq<byte>) {
    && p.errno == Ok
    && ((p.state.ChunkData? && p.contentLength < |b| && b[p.contentLength] != CR)
        || (p.state.ChunkDataAlmostDone? && b != [] && b[0] != CR))
  }

  lemma RunSnoc(p: Parser, a: seq<byte>)
    requires a != []
    ensures var q := Run(p, a[..|a| - 1]);
      var last := Byte(q.parser, a[|a| - 1]);
      Run(p, a) == Out(last.parser, q.tokens + last.tokens)
  {
    assert a == a[..|a| - 1] + [a[|a| - 1]];
    RunAppend(p, a[..|a| - 1], [a[|a| - 1]]);
    RunOne(Run(p, a[..|a| - 1]).parser, a[|a| - 1]);
  }

  predicate AtOrAfterBody(s: State) {
    s.ChunkData? || s.ChunkDataAlmostDone? || s.ChunkDataDone? || s.BodyIdentity? || s.BodyIdentityEof?
  }

  lemma BodyByteStates(p: Parser, ch: byte)
    ensures EndsInBody(Byte(p, ch).tokens) ==> AtOrAfterBody(Byte(p, ch).parser.state)
    ensures Byte(p, ch).tokens == [] && AtOrAfterBody(p.state) ==> AtOrAfterBody(Byte(p, ch).parser.state)
  {
  }

  // If the last thing reported is a body byte, the parser is still in or right behind a body.
  lemma {:induction false} EndsInBodyStates(p: Parser, a: seq<byte>)
    requires EndsInBody(Run(p, a).tokens)
    ensures AtOrAfterBody(Run(p, a).parser.state)
    decreases |a|
  {
    if a != [] {
      hide Byte;
      RunSnoc(p, a);
      var q := Run(p, a[..|a| - 1]);
      BodyByteStates(q.parser, a[|a| - 1]);
      if Byte(q.parser, a[|a| - 1]).tokens == [] {
        EndsInBodyStates(p, a[..|a| - 1]);
      }
    }
  }

  lemma {:induction false} BodyOnlyDoesNotFail(p: Parser, b: seq<byte>)
    requires p.state.ChunkDataDone? || p.state.BodyIdentity? || p.state.BodyIdentityEof?
    requires AllBody(Run(p, b).tokens)
    ensures !ChunkEndFailed(Run(p, b).parser)
    decreases |b|
  {
    hide Byte;
    if b != [] {
      var first := Byte(p, b[0]);
      assert Run(p, b).tokens == first.tokens + Run(first.parser, b[1..]).tokens;
      forall i | 0 <= i < |first.tokens| ensures first.tokens[i].Body? {
        assert first.tokens[i] == Run(p, b).tokens[i];
      }
      forall i | 0 <= i < |Run(first.parser, b[1..]).tokens| ensures Run(first.parser, b[1..]).tokens[i].Body? {
        assert Run(first.parser, b[1..]).tokens[i] == Run(p, b).tokens[|first.tokens| + i];
      }
      FirstByteOfBody(p, b[0]);
      if first.parser.errno != Ok {
        RunStuck(first.parser, b[1..]);
      } else {
        BodyOnlyDoesNotFail(first.parser, b[1..]);
      }
    }
  }

  lemma FirstByteOfBody(p: Parser, ch: byte)
    requires p.state.ChunkDataDone? || p.state.BodyIdentity? || p.state.BodyIdentityEof?
    ensures var r := Byte(p, ch);
      && (r.parser.errno != Ok ==> r.parser.state == p.state)
      && (r.parser.errno == Ok && AllBody(r.tokens) ==> r.parser.state == p.state && p.state != ChunkDataDone)
  {
    var r := Byte(p, ch);
    if r.parser.errno == Ok && r.tokens != [] { assert r.tokens[|r.tokens| - 1] in r.tokens; }
  }

  // A doomed run reports body bytes only, and then fails.
  lemma DoomedRun(p: Parser, b: seq<byte>)
    requires Wf(p) && DoomedAt(p, b)
    ensures ChunkEndFailed(Run(p, b).parser) && AllBody(Run(p, b).tokens)
  {
    if p.state.ChunkData? {
      var n := p.contentLength;
      assert b == b[..n] + b[n..];
      RunChunkData(p, b[..n]);
      RunAppend(p, b[..n], b[n..]);
      FailAtOnce(Run(p, b[..n]).parser, b[n..]);
    } else {
      FailAtOnce(p, b);
    }
  }

  lemma FailAtOnce(p: Parser, b: seq<byte>)
    requires p.errno == Ok && p.state.ChunkDataAlmostDone? && b != [] && b[0] != CR
    ensures Run(p, b) == Out(p.(errno := Strict), [])
  {
    ChunkEndByte(p, b[0]);
    RunStuck(Byte(p, b[0]).parser, b[1..]);
  }

  // If reading b from inside a chunk reports nothing but body and fails behind the chunk, the
  // failing chunk is the one b continues.
  lemma BodyOnlyFailureIsDoom(p: Parser, b: seq<byte>)
    requires Wf(p) && p.errno == Ok && (p.state.ChunkData? || p.state.ChunkDataAlmostDone?)
    requires ChunkEndFailed(Run(p, b).parser) && AllBody(Run(p, b).tokens)
    ensures DoomedAt(p, b)
  {
    hide Byte;
    if p.state.ChunkData? {
      var n := p.contentLength;
      if |b| <= n {
        if b != [] { RunChunkData(p, b); }
        assert false;
      } else {
        assert b == b[..n] + b[n..];
        RunChunkData(p, b[..n]);
        RunAppend(p, b[..n], b[n..]);
        var q := Run(p, b[..n]);
        forall i | 0 <= i < |Run(q.parser, b[n..]).tokens| ensures Run(q.parser, b[n..]).tokens[i].Body? {
          assert Run(q.parser, b[n..]).tokens[i] == Run(p, b).tokens[|q.tokens| + i];
        }
        NotCrAfterChunk(q.parser, b[n..]);
      }
    } else {
      NotCrAfterChunk(p, b);
    }
  }

  lemma NotCrAfterChunk(p: Parser, b: seq<byte>)
    requires p.errno == Ok && p.state.ChunkDataAlmostDone?
    requires ChunkEndFailed(Run(p, b).parser) && AllBody(Run(p, b).tokens)
    ensures b != [] && b[0] != CR
  {
    hide Byte;
    if b != [] && b[0] == CR {
      ChunkEndByte(p, b[0]);
      var q := Byte(p, b[0]);
      assert Run(p, b).tokens == Run(q.parser, b[1..]).tokens;
      BodyOnlyDoesNotFail(q.parser, b[1..]);
    }
  }

  lemma {:induction false} DropOfConcat(a: seq<Token>, b: seq<Token>)
    ensures DropBodySuffix(a + b) == if AllBody(b) then DropBodySuffix(a) else a + DropBodySuffix(b)
    ensures AllBody(b) ==> DropBodySuffix(b) == []
    decreases |b|
  {
    if b == [] {
      assert a + b == a;
    } else {
      var last := |b| - 1;
      assert (a + b)[..|a + b| - 1] == a + b[..last];
      DropOfConcat(a, b[..last]);
      if b[last].Body? {
        assert AllBody(b) == AllBody(b[..last]);
      } else {
        assert b[last] in b;
      }
    }
  }

  lemma {:induction false} DropKeepsIff(a: seq<Token>)
    ensures DropBodySuffix(a) == a <==> !EndsInBody(a)
  {
    if EndsInBody(a) { assert |DropBodySuffix(a[..|a| - 1])| <= |a| - 1; }
  }

  // One cut changes what is reported exactly when it falls behind body bytes of a chunk whose end
  // is then not followed by CR: the single call forgets those bytes, the two calls deliver them.
  lemma CutExactly(p: Parser, a: seq<byte>, b: seq<byte>)
    requires Wf(p) && p.errno == Ok && a != [] && b != []
    ensures Calls(p, [a, b]).tokens == Called(p, a + b).tokens
            <==> !(EndsInBody(Run(p, a).tokens) && DoomedAt(Run(p, a).parser, b))
  {
    hide Byte, Wf;
    var q := Run(p, a);
    var r := Run(q.parser, b);
    RunAppend(p, a, b);
    RunWf(p, a);
    assert [a, b][1..] == [b] && [b][1..] == [];
    assert Calls(q.parser, [b]).tokens == Called(q.parser, b).tokens;
    CalledIsRun(p, a);
    CalledIsRun(q.parser, b);
    if q.parser.errno != Ok {
      RunStuck(q.parser, b);
      assert q.tokens + [] == q.tokens;
      assert Called(p, a).tokens + [] == Called(p, a).tokens;
    } else {
      if DoomedAt(q.parser, b) { DoomedRun(q.parser, b); }
      if ChunkEndFailed(r.parser) {
        DropOfConcat(q.tokens, r.tokens);
        DropKeepsIff(q.tokens);
        assert q.tokens + [] == q.tokens;
        if AllBody(r.tokens) && EndsInBody(q.tokens) {
          EndsInBodyStates(p, a);
          if q.parser.state.ChunkDataDone? || q.parser.state.BodyIdentity? || q.parser.state.BodyIdentityEof? {
            BodyOnlyDoesNotFail(q.parser, b);
          } else {
            BodyOnlyFailureIsDoom(q.parser, b);
          }
        }
      }
    }
  }

  // A one-byte chunk that is followed by 'X' instead of CR: cut behind the byte, it is delivered.
  lemma CutCanMatter(p: Parser)
    requires p.errno == Ok && p.state.ChunkData? && p.contentLength == 1
    ensures var a, x: byte := 'a' as int, 'X' as int;
      && Called(p, [a, x]).tokens == []
      && Calls(p, [[a], [x]]).tokens == [Body(a)]
  {
    var a, x: byte := 'a' as int, 'X' as int;
    RunChunkData(p, [a]);
    var q := Run(p, [a]).parser;
    FailAtOnce(q, [x]);
    assert [a, x] == [a] + [x];
    RunAppend(p, [a], [x]);
    assert AsBody([a]) == [Body(a)];
    assert DropBodySuffix([Body(a)] + []) == [];
    assert [[a], [x]][1..] == [[x]] && [[x]][1..] == [];
    CalledIsRun(p, [a]);
    CalledIsRun(q, [x]);
    assert DropBodySuffix([]) == [] && Calls(q, [[x]]).tokens == Called(q, [x]).tokens == [];
  }

  // ---------------------------------------------------------------- where the message ends

  // Section 4.4 of RFC 2616, in its order of precedence.
  datatype Length = NoBody | Coded | Fixed(n: nat) | UntilClose

  predicate BodilessStatus(h: Head) {
    !h.request && (h.status / 100 == 1 || h.status == 204 || h.status == 304)
  }

  function LengthByRfc(p: Parser): Length {
    if p.head.noBodyWanted || BodilessStatus(p.head) then NoBody
    else if p.flags.chunked then Coded
    else if p.contentLength != ULLONG_MAX then Fixed(p.contentLength)
    else if p.head.request then NoBody
    else UntilClose
  }

  // What the parser does with the byte that ends the headers.
  function LengthOfParser(p: Parser): Length {
    match Byte(p, LF).parser.state
    case ChunkSizeStart => Coded
    case BodyIdentity => Fixed(Byte(p, LF).parser.contentLength)
    case BodyIdentityEof => UntilClose
    case _ => NoBody
  }

  // The byte that ends the headers is next: no error, no trailer, and no skip request yet.
  ghost predicate HeadersEnd(p: Parser) {
    && p.errno == Ok && p.state.HeadersAlmostDone?
    && !p.flags.trailing && !p.flags.skipBody
    && p.contentLength <= ULLONG_MAX
  }

  // What section 4.4 asks for; a fixed length of 0 counts as no body.
  predicate FollowsRfc(p: Parser) {
    && Byte(p, LF).parser.errno == Ok
    && LengthOfParser(p) == (if LengthByRfc(p) == Fixed(0) then NoBody else LengthByRfc(p))
  }

  // Both framings are announced. Section 4.4 ignores the length then; the parser refuses the message.
  predicate BothFramings(p: Parser) { p.flags.chunked && p.flags.contentLengthSeen }

  // A body is announced where the status allows none. The parser reads it.
  predicate ForbiddenBody(p: Parser) {
    && BodilessStatus(p.head) && !p.head.noBodyWanted
    && (p.flags.chunked || (p.contentLength != 0 && p.contentLength != ULLONG_MAX))
  }

  // Headers of the permitted size are read as section 4.4 says if and only if they announce neither
  // both framings nor a body behind a 1xx, 204 or 304 status line; and how they fail otherwise.
  lemma FollowsRfcExactly(p: Parser)
    requires HeadersEnd(p)
    ensures FollowsRfc(p) <==> p.nread < MAX_HEADER_SIZE && !BothFramings(p) && !ForbiddenBody(p)
    ensures var q := Byte(p, LF);
      && (q.parser.errno == HeaderOverflow <==> p.nread >= MAX_HEADER_SIZE)
      && (q.parser.errno == UnexpectedContentLength <==> p.nread < MAX_HEADER_SIZE && BothFramings(p))
      && q.tokens == (if q.parser.errno != Ok then []
                      else if LengthOfParser(p).NoBody? then [HeadersComplete, MessageComplete] else [HeadersComplete])
  {
  }

  // A request with both headers, and a length of its choice: chunked to the RFC, an error to the parser.
  lemma BothFramingsRefused(n: nat)
    requires n <= ULLONG_MAX
    ensures var p := Parser(Head(true, 0, 1, 1, false), HeadersAlmostDone, Flags(true, false, false, false, true, false), 60, n, Ok);
      && HeadersEnd(p) && LengthByRfc(p) == Coded && !FollowsRfc(p)
      && Calls(p, [[LF]]) == Out(p.(nread := 61, errno := UnexpectedContentLength), [])
  {
    var p := Parser(Head(true, 0, 1, 1, false), HeadersAlmostDone, Flags(true, false, false, false, true, false), 60, n, Ok);
    RunOne(p, LF);
    CalledIsRun(p, [LF]);
    assert [[LF]][1..] == [];
  }

  // A message of fixed length: exactly its bytes, then one message_complete.
  lemma FixedLengthDelivered(p: Parser, body: seq<byte>, pieces: seq<seq<byte>>)
    requires HeadersEnd(p) && LengthOfParser(p) == Fixed(|body|)
    requires NoneEmpty(pieces) && Concat(pieces) == [LF] + body
    ensures Calls(p, pieces).tokens == [HeadersComplete] + AsBody(body) + [MessageComplete]
    ensures Calls(p, pieces).parser.state == NewMessage(Calls(p, pieces).parser)
  {
    hide Concat;
    RunOne(p, LF);
    RunAppend(p, [LF], body);
    var q := Byte(p, LF);
    FollowsRfcExactly(p);
    EnteredBody(p);
    RunIdentity(q.parser, body);
    CutsDoNotMatter(p, pieces);
    assert [HeadersComplete] + (AsBody(body) + [MessageComplete]) == [HeadersComplete] + AsBody(body) + [MessageComplete];
  }

  lemma OneByteBody(p: Parser, b: byte)
    requires HeadersEnd(p) && LengthOfParser(p) == Fixed(1)
    ensures Calls(p, [[LF, b]]).tokens == [HeadersComplete, Body(b), MessageComplete]
  {
    NoPieces();
    ConcatSnoc([], [LF, b]);
    assert [] + [[LF, b]] == [[LF, b]] && [LF] + [b] == [LF, b];
    FixedLengthDelivered(p, [b], [[LF, b]]);
    assert AsBody([b]) == [Body(b)];
  }

  // A 204 response with a length of 1: the byte behind the headers is delivered as its body.
  lemma BodyBehind204(b: byte)
    ensures var p := Parser(Head(false, 204, 1, 1, false), HeadersAlmostDone, Flags(false, false, false, false, true, false), 60, 1, Ok);
      && HeadersEnd(p) && LengthByRfc(p) == NoBody
      && Calls(p, [[LF, b]]).tokens == [HeadersComplete, Body(b), MessageComplete]
  {
    hide Calls;
    OneByteBody(Parser(Head(false, 204, 1, 1, false), HeadersAlmostDone, Flags(false, false, false, false, true, false), 60, 1, Ok), b);
  }

  lemma EnteredBody(p: Parser)
    requires HeadersEnd(p) && !LengthOfParser(p).NoBody?
    ensures var q := Byte(p, LF).parser;
      && q.errno == Ok && q.nread == 0 && q.flags == p.flags && q.head == p.head && q.contentLength == p.contentLength
      && (q.state.BodyIdentity? ==> q.contentLength > 0)
      && (q.state.ChunkSizeStart? ==> q.flags.chunked)
  {
  }

  // A message that runs to the end of the stream: every byte, and message_complete at the end.
  lemma UntilCloseDelivered(p: Parser, body: seq<byte>, pieces: seq<seq<byte>>)
    requires HeadersEnd(p) && LengthOfParser(p).UntilClose?
    requires NoneEmpty(pieces) && Concat(pieces) == [LF] + body
    ensures Calls(p, pieces).tokens == [HeadersComplete] + AsBody(body)
    ensures Called(Calls(p, pieces).parser, []).tokens == [MessageComplete]
  {
    RunOne(p, LF);
    RunAppend(p, [LF], body);
    FollowsRfcExactly(p);
    EnteredBody(p);
    RunEof(Byte(p, LF).parser, body);
    CutsDoNotMatter(p, pieces);
  }

  // ---------------------------------------------------------------- the chunked coding

  // chunk = chunk-size [ chunk-extension ] CRLF chunk-data CRLF
  datatype Chunk = Chunk(size: seq<byte>, extension: seq<byte>, data: seq<byte>)

  predicate IsHexDigit(b: byte) {
    '0' as int <= b <= '9' as int || 'A' as int <= b <= 'F' as int || 'a' as int <= b <= 'f' as int
  }

  function DigitValue(b: byte): (r: nat)
    requires IsHexDigit(b)
    ensures r < 16
  {
    if b <= '9' as int then b - '0' as int
    else if b <= 'F' as int then b - 'A' as int + 10
    else b - 'a' as int + 10
  }

  // The number that hex digits denote behind a prefix of value `start`.
  function HexValue(start: nat, digits: seq<byte>): (r: nat)
    requires forall i :: 0 <= i < |digits| ==> IsHexDigit(digits[i])
    ensures r >= start
    decreases |digits|
  {
    if digits == [] then start else HexValue(start * 16 + DigitValue(digits[0]), digits[1..])
  }

  // The largest chunk size that passes the overflow guard.
  const MAX_CHUNK: nat := ULLONG_MAX - 16

  predicate SizeLine(size: seq<byte>, extension: seq<byte>) {
    && size != [] && (forall i :: 0 <= i < |size| ==> IsHexDigit(size[i]))
    && (extension != [] ==> extension[0] == ';' as int)
    && (forall i :: 0 <= i < |extension| ==> extension[i] != CR)
    && |size| + |extension| + 2 <= MAX_HEADER_SIZE
  }

  predicate WfChunk(c: Chunk) {
    && SizeLine(c.size, c.extension)
    && c.data != [] && HexValue(0, c.size) == |c.data| <= MAX_CHUNK
  }

  predicate WfLast(c: Chunk) {
    SizeLine(c.size, c.extension) && c.data == [] && HexValue(0, c.size) == 0
  }

  function LineOf(c: Chunk): seq<byte> { c.size + c.extension + [CR, LF] }

  // The chunks, the last chunk, and an empty trailer.
  function Encode(chunks: seq<Chunk>, last: Chunk): seq<byte>
    decreases |chunks|
  {
    if chunks == [] then LineOf(last) + [CR, LF]
    else LineOf(chunks[0]) + (chunks[0].data + [CR, LF]) + Encode(chunks[1..], last)
  }

  function Reports(chunks: seq<Chunk>): seq<Token>
    decreases |chunks|
  {
    if chunks == [] then [ChunkHeader, ChunkComplete, MessageComplete]
    else [ChunkHeader] + AsBody(chunks[0].data) + [ChunkComplete] + Reports(chunks[1..])
  }

  lemma ReadDigit(p: Parser, b: byte)
    requires p.errno == Ok && p.state.ChunkSize? && p.contentLength <= MAX_CHUNK
    requires IsHexDigit(b) && p.nread < MAX_HEADER_SIZE
    ensures var v := p.contentLength * 16 + DigitValue(b);
      if v <= MAX_CHUNK then Byte(p, b) == Out(p.(contentLength := v, nread := p.nread + 1), [])
      else Byte(p, b).parser.errno == InvalidContentLength && Byte(p, b).tokens == []
  {
    assert Unhex(b) == DigitValue(b);
    if p.contentLength * 16 + DigitValue(b) <= MAX_CHUNK { AccumulateBounded(p.contentLength, 16, DigitValue(b)); }
  }

  // An accepted digit string is read as its value, and it is accepted up to MAX_CHUNK exactly.
  lemma {:induction false} ReadDigits(p: Parser, digits: seq<byte>)
    requires p.errno == Ok && p.state.ChunkSize? && p.contentLength <= MAX_CHUNK
    requires forall i :: 0 <= i < |digits| ==> IsHexDigit(digits[i])
    requires p.nread + |digits| <= MAX_HEADER_SIZE
    ensures HexValue(p.contentLength, digits) <= MAX_CHUNK ==>
      Run(p, digits) == Out(p.(contentLength := HexValue(p.contentLength, digits), nread := p.nread + |digits|), [])
    ensures HexValue(p.contentLength, digits) > MAX_CHUNK ==>
      Run(p, digits).parser.errno == InvalidContentLength && Run(p, digits).tokens == []
    decreases |digits|
  {
    if digits != [] {
      hide Byte, IsHexDigit, DigitValue;
      ReadDigit(p, digits[0]);
      var q, rest := Byte(p, digits[0]).parser, digits[1..];
      if q.errno == Ok { ReadDigits(q, rest); } else { RunStuck(q, rest); }
    }
  }

  lemma {:induction false} SkipExtension(p: Parser, rest: seq<byte>)
    requires p.errno == Ok && p.state.ChunkParameters? && p.nread + |rest| <= MAX_HEADER_SIZE
    requires forall i :: 0 <= i < |rest| ==> rest[i] != CR
    ensures Run(p, rest) == Out(p.(nread := p.nread + |rest|), [])
    decreases |rest|
  {
    if rest != [] {
      assert Byte(p, rest[0]) == Out(p.(nread := p.nread + 1), []);
      SkipExtension(Byte(p, rest[0]).parser, rest[1..]);
    }
  }

  // The exact bound of the chunk-size line: it is read to its value if that is at most MAX_CHUNK,
  // and refused as an invalid length if it is more.
  lemma ReadSize(p: Parser, size: seq<byte>)
    requires p.errno == Ok && p.state.ChunkSizeStart? && p.nread == 0
    requires size != [] && (forall i :: 0 <= i < |size| ==> IsHexDigit(size[i])) && |size| <= MAX_HEADER_SIZE
    ensures HexValue(0, size) <= MAX_CHUNK ==>
      Run(p, size) == Out(p.(state := ChunkSize, contentLength := HexValue(0, size), nread := |size|), [])
    ensures HexValue(0, size) > MAX_CHUNK ==>
      Run(p, size).parser.errno == InvalidContentLength && Run(p, size).tokens == []
  {
    var q := p.(state := ChunkSize, contentLength := DigitValue(size[0]), nread := 1);
    assert Byte(p, size[0]) == Out(q, []);
    ReadDigits(q, size[1..]);
  }

  lemma ReadLine(p: Parser, c: Chunk)
    requires p.errno == Ok && p.state.ChunkSizeStart? && p.nread == 0
    requires SizeLine(c.size, c.extension) && HexValue(0, c.size) <= MAX_CHUNK
    ensures var n := HexValue(0, c.size);
      Run(p, LineOf(c)) == Out(
        if n == 0 then p.(state := HeaderFieldStart, contentLength := 0, flags := p.flags.(trailing := true))
        else p.(state := ChunkData, contentLength := n), [ChunkHeader])
  {
    ReadSize(p, c.size);
    var q := Run(p, c.size).parser;
    RunAppend(p, c.size, c.extension);
    var r := Run(q, c.extension).parser;
    assert r.nread == |c.size| + |c.extension| && Run(q, c.extension).tokens == []
      && r == q.(state := r.state, nread := r.nread) && (r.state.ChunkSize? || r.state.ChunkParameters?) by {
      if c.extension != [] {
        var s := Byte(q, c.extension[0]).parser;
        assert s == q.(state := ChunkParameters, nread := q.nread + 1);
        SkipExtension(s, c.extension[1..]);
      }
    }
    LineEnd(r);
    RunAppend(p, c.size + c.extension, [CR, LF]);
  }

  lemma LineEnd(r: Parser)
    requires r.errno == Ok && (r.state.ChunkSize? || r.state.ChunkParameters?) && r.nread + 2 <= MAX_HEADER_SIZE
    ensures Run(r, [CR, LF]) == Out(
      if r.contentLength == 0 then r.(state := HeaderFieldStart, nread := 0, flags := r.flags.(trailing := true))
      else r.(state := ChunkData, nread := 0), [ChunkHeader])
  {
    var s := r.(state := ChunkSizeAlmostDone, nread := r.nread + 1);
    assert Byte(r, CR) == Out(s, []);
    assert [CR, LF][1..] == [LF];
    RunOne(s, LF);
  }

  lemma ReadData(p: Parser, data: seq<byte>)
    requires p.errno == Ok && p.state.ChunkData? && p.contentLength == |data| > 0 && p.nread == 0
    ensures Run(p, data + [CR, LF]) ==
      Out(p.(state := ChunkSizeStart, contentLength := 0), AsBody(data) + [ChunkComplete])
  {
    RunAppend(p, data, [CR, LF]);
    RunChunkData(p, data);
    var q := Run(p, data).parser;
    ChunkEndByte(q, CR);
    var r := q.(state := ChunkDataDone);
    assert [CR, LF][1..] == [LF];
    RunOne(r, LF);
    assert Byte(r, LF) == Out(p.(state := ChunkSizeStart, contentLength := 0), [ChunkComplete]);
    assert Run(q, [CR, LF]).tokens == [] + [ChunkComplete];
  }

  lemma ReadTrailer(p: Parser)
    requires p.errno == Ok && p.state.HeaderFieldStart? && p.flags.trailing && p.nread == 0
    ensures Run(p, [CR, LF]) == Out(
      p.(state := NewMessage(p), nread := 2), [ChunkComplete, MessageComplete])
  {
    var q := p.(state := HeadersAlmostDone, nread := 1);
    assert Byte(p, CR) == Out(q, []);
    assert [CR, LF][1..] == [LF];
    RunOne(q, LF);
    assert Byte(q, LF) == Finish(q.(nread := 2), [ChunkComplete]);
  }

  lemma {:induction false} RunEncoded(p: Parser, chunks: seq<Chunk>, last: Chunk)
    requires p.errno == Ok && p.state.ChunkSizeStart? && p.nread == 0
    requires (forall i :: 0 <= i < |chunks| ==> WfChunk(chunks[i])) && WfLast(last)
    ensures Run(p, Encode(chunks, last)).tokens == Reports(chunks)
    ensures var q := Run(p, Encode(chunks, last)).parser;
      && q.errno == Ok && q.contentLength == 0 && q.head == p.head && q.state == NewMessage(q)
      && q.flags == p.flags.(trailing := true)
    decreases |chunks|
  {
    hide Run, Byte, LineOf, IsHexDigit, SizeLine, HexValue;
    if chunks == [] {
      assert WfLast(last);
      ReadLine(p, last);
      var q := Run(p, LineOf(last)).parser;
      ReadTrailer(q);
      RunAppend(p, LineOf(last), [CR, LF]);
      assert [ChunkHeader] + [ChunkComplete, MessageComplete] == Reports(chunks);
    } else {
      var c, rest := chunks[0], Encode(chunks[1..], last);
      assert WfChunk(c);
      ReadLine(p, c);
      var q := Run(p, LineOf(c)).parser;
      ReadData(q, c.data);
      var r := Run(q, c.data + [CR, LF]).parser;
      RunAppend(p, LineOf(c), c.data + [CR, LF]);
      RunAppend(p, LineOf(c) + (c.data + [CR, LF]), rest);
      RunEncoded(r, chunks[1..], last);
      assert [ChunkHeader] + (AsBody(c.data) + [ChunkComplete]) + Reports(chunks[1..]) == Reports(chunks);
    }
  }

  // Reading undoes the chunked coding, however the stream is cut: every chunk is announced, its
  // bytes are delivered in order, and there is exactly one message_complete, at the end.
  lemma DecodeUndoesEncode(p: Parser, chunks: seq<Chunk>, last: Chunk, pieces: seq<seq<byte>>)
    requires p.errno == Ok && p.state.ChunkSizeStart? && p.nread == 0
    requires (forall i :: 0 <= i < |chunks| ==> WfChunk(chunks[i])) && WfLast(last)
    requires NoneEmpty(pieces) && Concat(pieces) == Encode(chunks, last)
    ensures Calls(p, pieces).tokens == Reports(chunks)
    ensures BodyOf(Calls(p, pieces).tokens) == DataOf(chunks)
    ensures Calls(p, pieces).parser.errno == Ok
    ensures Calls(p, pieces).parser.state == NewMessage(Calls(p, pieces).parser)
  {
    RunEncoded(p, chunks, last);
    CutsDoNotMatter(p, pieces);
    BodyOfReports(chunks);
  }

  function DataOf(chunks: seq<Chunk>): seq<byte> {
    if chunks == [] then [] else chunks[0].data + DataOf(chunks[1..])
  }

  // The concatenated `on_body` data.
  function BodyOf(ts: seq<Token>): seq<byte>
    decreases |ts|
  {
    if ts == [] then []
    else if ts[0].Body? then [ts[0].b] + BodyOf(ts[1..])
    else BodyOf(ts[1..])
  }

  lemma {:induction false} BodyOfConcat(a: seq<Token>, b: seq<Token>)
    ensures BodyOf(a + b) == BodyOf(a) + BodyOf(b)
    decreases |a|
  {
    if a == [] {
      assert a + b == b;
    } else {
      assert (a + b)[1..] == a[1..] + b;
      BodyOfConcat(a[1..], b);
    }
  }

  lemma {:induction false} BodyOfData(data: seq<byte>)
    ensures BodyOf(AsBody(data)) == data
    decreases |data|
  {
    if data != [] {
      assert AsBody(data)[1..] == AsBody(data[1..]);
      BodyOfData(data[1..]);
    }
  }

  lemma {:induction false} BodyOfReports(chunks: seq<Chunk>)
    ensures BodyOf(Reports(chunks)) == DataOf(chunks)
    decreases |chunks|
  {
    if chunks == [] {
      assert BodyOf([ChunkComplete, MessageComplete]) == [] by {
        assert [ChunkComplete, MessageComplete][1..] == [MessageComplete];
      }
      assert Reports(chunks)[1..] == [ChunkComplete, MessageComplete];
    } else {
      var d := chunks[0].data;
      BodyOfReports(chunks[1..]);
      BodyOfData(d);
      BodyOfOneChunk(AsBody(d), Reports(chunks[1..]));
    }
  }

  lemma BodyOfOneChunk(body: seq<Token>, rest: seq<Token>)
    ensures BodyOf([ChunkHeader] + body + [ChunkComplete] + rest) == BodyOf(body) + BodyOf(rest)
  {
    var ts := [ChunkHeader] + body + [ChunkComplete] + rest;
    assert ts[1..] == body + ([ChunkComplete] + rest);
    BodyOfConcat(body, [ChunkComplete] + rest);
    assert ([ChunkComplete] + rest)[1..] == rest;
  }
}
