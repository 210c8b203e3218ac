/** What several components share: bytes, options, joined pieces, and claims about every prefix. */
module Common {
  type byte = x: int | 0 <= x < 256

  datatype Option<T> = None | Some(value: T)

  function Concat(pieces: seq<seq<byte>>): seq<byte> {
    if pieces == [] then [] else Concat(pieces[..|pieces| - 1]) + pieces[|pieces| - 1]
  }

  lemma NoPieces()
    ensures Concat([]) == []
  {
  }

  lemma ConcatSnoc(pieces: seq<seq<byte>>, piece: seq<byte>)
    ensures Concat(pieces + [piece]) == Concat(pieces) + piece
  {
    assert (pieces + [piece])[..|pieces|] == pieces;
  }

  lemma {:induction false} ConcatCons(piece: seq<byte>, pieces: seq<seq<byte>>)
    ensures Concat([piece] + pieces) == piece + Concat(pieces)
    decreases |pieces|
  {
    if pieces == [] {
      assert [piece] + pieces == [piece];
      assert Concat([piece]) == Concat([piece][..0]) + piece;
      assert [] + piece == piece && piece + [] == piece;
    } else {
      var last := |pieces| - 1;
      assert [piece] + pieces == ([piece] + pieces[..last]) + [pieces[last]];
      ConcatSnoc([piece] + pieces[..last], pieces[last]);
      ConcatCons(piece, pieces[..last]);
      assert piece + Concat(pieces[..last]) + pieces[last] == piece + (Concat(pieces[..last]) + pieces[last]);
    }
  }

  // P holds of every prefix.
  predicate Along<T>(s: seq<T>, P: seq<T> -> bool) {
    forall i :: 0 <= i <= |s| ==> P(s[..i])
  }

  // Q holds of every element and what is in front of it.
  predicate Each<T>(s: seq<T>, Q: (seq<T>, T) -> bool) {
    forall i :: 0 <= i < |s| ==> Q(s[..i], s[i])
  }

  lemma AlongWhole<T>(s: seq<T>, P: seq<T> -> bool)
    requires Along(s, P)
    ensures P(s)
  {
    assert s[..|s|] == s;
  }

  lemma AlongSnoc<T>(s: seq<T>, x: T, P: seq<T> -> bool)
    ensures Along(s + [x], P) <==> Along(s, P) && P(s + [x])
    ensures Along(s, P) ==> P(s)
  {
    var t := s + [x];
    assert t[..|t|] == t && s[..|s|] == s;
    forall i | 0 <= i <= |s| ensures t[..i] == s[..i] {}
    if Along(t, P) {
      forall i | 0 <= i <= |s| ensures P(s[..i]) { assert P(t[..i]); }
    }
  }

  lemma EachSnoc<T>(s: seq<T>, x: T, Q: (seq<T>, T) -> bool)
    ensures Each(s + [x], Q) <==> Each(s, Q) && Q(s, x)
  {
    var t := s + [x];
    forall i | 0 <= i <= |s| ensures t[..i] == s[..i] {}
    assert s[..|s|] == s && t[|s|] == x;
    if Each(t, Q) {
      forall i | 0 <= i < |s| ensures Q(s[..i], s[i]) { assert Q(t[..i], t[i]); }
      assert Q(t[..|s|], t[|s|]);
    }
  }
}
