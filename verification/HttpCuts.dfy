/** Any cutting of the input into calls against the single call: exactly when they report the same. */
module HttpCuts {
  import opened Common
  import opened HttpBody
  import opened HttpParser
  import opened HttpFraming

  // What is read of the first i pieces.
  function Upto(p: Parser, pieces: seq<seq<byte>>, i: nat): Out
    requires i <= |pieces|
  {
    Run(p, Concat(pieces[..i]))
  }

  // In front of piece i body bytes were reported last, and piece i then runs into something other
  // than CR behind the chunk they belong to. The single call forgets those bytes.
  predicate LosesAt(p: Parser, pieces: seq<seq<byte>>, i: nat) {
    0 < i < |pieces| && EndsInBody(Upto(p, pieces, i).tokens) && DoomedAt(Upto(p, pieces, i).parser, pieces[i])
  }

  // Piece f is the one that fails.
  predicate FailsIn(p: Parser, pieces: seq<seq<byte>>, f: nat) {
    f < |pieces| && Upto(p, pieces, f).parser.errno == Ok && Run(Upto(p, pieces, f).parser, pieces[f]).parser.errno != Ok
  }

  lemma UptoNext(p: Parser, pieces: seq<seq<byte>>, i: nat)
    requires i < |pieces|
    ensures var a := Upto(p, pieces, i);
      var b := Run(a.parser, pieces[i]);
      Upto(p, pieces, i + 1) == Out(b.parser, a.tokens + b.tokens)
  {
    hide Run, Concat;
    assert pieces[..i + 1] == pieces[..i] + [pieces[i]];
    ConcatSnoc(pieces[..i], pieces[i]);
    RunAppend(p, Concat(pieces[..i]), pieces[i]);
  }

  // After a failure nothing changes any more.
  lemma {:induction false} UptoStuck(p: Parser, pieces: seq<seq<byte>>, i: nat, j: nat)
    requires i <= j <= |pieces| && Upto(p, pieces, i).parser.errno != Ok
    ensures Upto(p, pieces, j) == Upto(p, pieces, i)
    decreases j
  {
    hide Upto;
    if i < j {
      UptoStuck(p, pieces, i, j - 1);
      UptoNext(p, pieces, j - 1);
      RunStuck(Upto(p, pieces, j - 1).parser, pieces[j - 1]);
      assert Upto(p, pieces, i).tokens + [] == Upto(p, pieces, i).tokens;
    }
  }

  lemma {:induction false} FailingPiece(p: Parser, pieces: seq<seq<byte>>, n: nat) returns (f: nat)
    requires p.errno == Ok && n <= |pieces| && Upto(p, pieces, n).parser.errno != Ok
    ensures f < n && FailsIn(p, pieces, f)
    decreases n
  {
    hide Run, Concat;
    if n == 0 {
      assert pieces[..0] == [];
      assert false by { NothingRead(p); }
    } else {
      UptoNext(p, pieces, n - 1);
      if Upto(p, pieces, n - 1).parser.errno == Ok { f := n - 1; } else { f := FailingPiece(p, pieces, n - 1); }
    }
  }

  lemma NothingRead(p: Parser)
    ensures Run(p, Concat([])) == Out(p, [])
  {
  }

  // ---------------------------------------------------------------- the calls up to the failure

  lemma {:induction false} CallsStuck(p: Parser, pieces: seq<seq<byte>>)
    requires p.errno != Ok
    ensures Calls(p, pieces) == Out(p, [])
    decreases |pieces|
  {
    if pieces != [] { CallsStuck(p, pieces[1..]); }
  }

  lemma {:induction false} CallsAppend(p: Parser, a: seq<seq<byte>>, b: seq<seq<byte>>)
    ensures Calls(p, a + b) ==
      Out(Calls(Calls(p, a).parser, b).parser, Calls(p, a).tokens + Calls(Calls(p, a).parser, b).tokens)
    decreases |a|
  {
    hide Called;
    if a == [] {
      assert a + b == b;
    } else {
      assert (a + b)[0] == a[0] && (a + b)[1..] == a[1..] + b;
      var first := Called(p, a[0]);
      CallsAppend(first.parser, a[1..], b);
      var mid := Calls(first.parser, a[1..]);
      assert first.tokens + (mid.tokens + Calls(mid.parser, b).tokens) == (first.tokens + mid.tokens) + Calls(mid.parser, b).tokens;
    }
  }

  // The calls report all that was read in front of the failing piece, and of that piece what its own
  // call does not forget.
  lemma CallsOfFailure(p: Parser, pieces: seq<seq<byte>>, f: nat)
    requires NoneEmpty(pieces) && FailsIn(p, pieces, f)
    ensures Calls(p, pieces).tokens == Upto(p, pieces, f).tokens + Called(Upto(p, pieces, f).parser, pieces[f]).tokens
  {
    hide Run, Called, Concat;
    var front, q := pieces[..f], Upto(p, pieces, f);
    assert pieces == front + ([pieces[f]] + pieces[f + 1..]);
    CutsDoNotMatter(p, front);
    CallsAppend(p, front, [pieces[f]] + pieces[f + 1..]);
    CalledIsRun(q.parser, pieces[f]);
    var last := Called(q.parser, pieces[f]);
    CallsStuck(last.parser, pieces[f + 1..]);
    assert ([pieces[f]] + pieces[f + 1..])[1..] == pieces[f + 1..];
    assert Calls(q.parser, [pieces[f]] + pieces[f + 1..]).tokens == last.tokens + [];
    assert last.tokens + [] == last.tokens;
  }

  // The single call reports something else than the calls if and only if the failing piece adds
  // nothing but body bytes to what ended in body bytes before.
  lemma SameAfterFailure(p: Parser, pieces: seq<seq<byte>>, f: nat)
    requires NoneEmpty(pieces) && FailsIn(p, pieces, f) && p.errno == Ok
    requires ChunkEndFailed(Run(p, Concat(pieces)).parser)
    ensures var a := Upto(p, pieces, f);
      var b := Run(a.parser, pieces[f]);
      && ChunkEndFailed(b.parser)
      && (Calls(p, pieces).tokens == Called(p, Concat(pieces)).tokens <==> !(AllBody(b.tokens) && EndsInBody(a.tokens)))
  {
    var a := Upto(p, pieces, f);
    var b := Run(a.parser, pieces[f]);
    CallsOfFailure(p, pieces, f);
    UptoNext(p, pieces, f);
    UptoStuck(p, pieces, f + 1, |pieces|);
    assert pieces[..|pieces|] == pieces;
    Joined(pieces, f);
    DropInTwo(a.tokens, b.tokens);
    hide Run, Upto, Concat, Byte, Calls, AllBody, EndsInBody, DropBodySuffix;
  }

  lemma DropInTwo(a: seq<Token>, b: seq<Token>)
    ensures a + DropBodySuffix(b) == DropBodySuffix(a + b) <==> !(AllBody(b) && EndsInBody(a))
  {
    hide DropBodySuffix, EndsInBody;
    DropOfConcat(a, b);
    DropKeepsIff(a);
    assert a + [] == a;
  }

  lemma Joined(pieces: seq<seq<byte>>, f: nat)
    requires NoneEmpty(pieces) && f < |pieces|
    ensures Concat(pieces) != []
  {
    assert pieces == pieces[..|pieces| - 1] + [pieces[|pieces| - 1]];
    ConcatSnoc(pieces[..|pieces| - 1], pieces[|pieces| - 1]);
  }

  lemma UptoWf(p: Parser, pieces: seq<seq<byte>>, i: nat)
    requires Wf(p) && i <= |pieces|
    ensures Wf(Upto(p, pieces, i).parser)
  {
    RunWf(p, Concat(pieces[..i]));
  }

  lemma LosingFails(p: Parser, pieces: seq<seq<byte>>, i: nat)
    requires Wf(p) && LosesAt(p, pieces, i)
    ensures FailsIn(p, pieces, i) && AllBody(Run(Upto(p, pieces, i).parser, pieces[i]).tokens)
    ensures ChunkEndFailed(Run(p, Concat(pieces)).parser)
  {
    UptoWf(p, pieces, i);
    DoomedRun(Upto(p, pieces, i).parser, pieces[i]);
    UptoNext(p, pieces, i);
    UptoStuck(p, pieces, i + 1, |pieces|);
    assert pieces[..|pieces|] == pieces;
  }

  lemma BodyOnlyLoses(p: Parser, pieces: seq<seq<byte>>, f: nat)
    requires Wf(p) && NoneEmpty(pieces) && FailsIn(p, pieces, f)
    requires ChunkEndFailed(Run(Upto(p, pieces, f).parser, pieces[f]).parser)
    requires AllBody(Run(Upto(p, pieces, f).parser, pieces[f]).tokens) && EndsInBody(Upto(p, pieces, f).tokens)
    ensures LosesAt(p, pieces, f)
  {
    var q := Upto(p, pieces, f);
    assert pieces[..0] == [];
    NothingRead(p);
    if f > 0 {
      UptoWf(p, pieces, f);
      EndsInBodyStates(p, Concat(pieces[..f]));
      if q.parser.state.ChunkDataDone? || q.parser.state.BodyIdentity? || q.parser.state.BodyIdentityEof? {
        BodyOnlyDoesNotFail(q.parser, pieces[f]);
      } else {
        BodyOnlyFailureIsDoom(q.parser, pieces[f]);
      }
    }
  }

  // For every cutting into non-empty calls: they report what the single call reports if and only if
  // no cut falls behind reported bytes of a chunk whose end is then not followed by CR.
  lemma CutsExactly(p: Parser, pieces: seq<seq<byte>>)
    requires Wf(p) && p.errno == Ok && NoneEmpty(pieces) && pieces != []
    ensures Calls(p, pieces).tokens == Called(p, Concat(pieces)).tokens <==> !exists i :: LosesAt(p, pieces, i)
  {
    hide Wf, Run, Upto, Concat, LosesAt, Called;
    Joined(pieces, 0);
    CutsDoNotMatter(p, pieces);
    CalledIsRun(p, Concat(pieces));
    if i :| LosesAt(p, pieces, i) {
      LosingFails(p, pieces, i);
      SameAfterFailure(p, pieces, i);
      assert EndsInBody(Upto(p, pieces, i).tokens) by { LosingEnds(p, pieces, i); }
    } else if ChunkEndFailed(Run(p, Concat(pieces)).parser) {
      assert pieces[..|pieces|] == pieces;
      assert Upto(p, pieces, |pieces|) == Run(p, Concat(pieces)) by { WholeRun(p, pieces); }
      var f := FailingPiece(p, pieces, |pieces|);
      SameAfterFailure(p, pieces, f);
      if AllBody(Run(Upto(p, pieces, f).parser, pieces[f]).tokens) && EndsInBody(Upto(p, pieces, f).tokens) {
        BodyOnlyLoses(p, pieces, f);
        assert false;
      }
    }
  }

  lemma WholeRun(p: Parser, pieces: seq<seq<byte>>)
    ensures Upto(p, pieces, |pieces|) == Run(p, Concat(pieces))
  {
    assert pieces[..|pieces|] == pieces;
  }

  lemma LosingEnds(p: Parser, pieces: seq<seq<byte>>, i: nat)
    requires LosesAt(p, pieces, i)
    ensures EndsInBody(Upto(p, pieces, i).tokens)
  {
  }
}
