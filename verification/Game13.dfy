/** The `Game13` object of processes/lobby/game13.cpp with its loops over the seats. Each method
    leaves the room that GameRoom.dfy prescribes. */
module Game13Object {
  import opened Common
  import opened GameLedger
  import opened GameRoom

  class Game13 {
    const owner: Cuid
    const configured: int
    const quanLeiDa: bool
    const playerSize: nat
    var players: seq<Seat>
    var status: Phase
    var rounds: int
    var startVoteTime: int
    var voteSponsor: nat
    var settleAllTime: int
    var settleData: seq<seq<int>>
    var inside: set<nat>
    var letGo: set<nat>

    ghost function Value(): Room
      reads this
    {
      Room(owner, configured, players, status, rounds, startVoteTime, voteSponsor, settleAllTime, settleData, inside, letGo)
    }

    constructor (owner: Cuid, configured: int, quanLeiDa: bool, playerSize: nat)
      ensures Value() == NewRoom(owner, configured, playerSize)
    {
      this.owner := owner;
      this.configured := configured;
      this.quanLeiDa := quanLeiDa;
      this.playerSize := playerSize;
      players := seq(playerSize, _ => Seat(0, CLEARED, VT_NONE));
      status := Prepare;
      rounds, startVoteTime, voteSponsor, settleAllTime := 0, 0, 0, 0;
      settleData := [];
      inside, letGo := {}, {};
    }

    // getPlayerInfoByCuid, and getEmptySeatIndex for 0.
    method IndexOf(cuid: nat) returns (k: nat)
      ensures k == SeatOf(players, cuid)
    {
      k := 0;
      while k < |players| && players[k].cuid != cuid
        invariant k <= |players| && SeatOf(players, cuid) == k + SeatOf(players[k..], cuid)
      {
        assert players[k..][1..] == players[k + 1..];
        k := k + 1;
      }
    }

    // Resets the room number of every online client with a seat, whichever room it names.
    method AbortGame(online: set<nat>)
      modifies this
      ensures Value() == Aborted(old(Value()), online)
    {
      var i := 0;
      letGo := {};
      while i < |players|
        invariant 0 <= i <= |players| && Value() == old(Value()).(inside := inside, letGo := letGo)
        invariant letGo == Holders(players[..i], online) && inside == old(inside) - letGo
      {
        HoldersGrow(players, i, online);
        if players[i].cuid in online {
          letGo := letGo + {players[i].cuid};
          inside := inside - {players[i].cuid};
        }
        i := i + 1;
      }
      assert players[..|players|] == players;
      players := [];
      status := Closed;
    }

    method RemovePlayer(cuid: Cuid)
      modifies this
      ensures Value() == Removed(old(Value()), cuid)
    {
      var k := IndexOf(cuid);
      if k < |players| {
        inside := inside - {cuid};
        players := players[k := Seat(0, CLEARED, players[k].vote)];
      }
    }

    method TryStartRound(online: set<nat>)
      modifies this
      ensures Value() == Started(old(Value()), online)
    {
      var i := 0;
      if status == Prepare {
        while i < |players|
          invariant 0 <= i <= |players|
          invariant AllAt(players[..i], READY) && AllOnline(players[..i], online)
        {
          if players[i].cuid == 0 || players[i].status != READY { return; }
          if players[i].cuid !in online { return; }
          i := i + 1;
        }
        assert players[..i] == players;
      } else if status != Settle {
        while i < |players|
          invariant 0 <= i <= |players| && AllAt(players[..i], COMPARE)
        {
          if players[i].cuid == 0 || players[i].status != COMPARE { return; }
          i := i + 1;
        }
        assert players[..i] == players;
      }
      rounds := rounds + 1;
      i := 0;
      while i < |players|
        invariant 0 <= i <= |players| == |old(players)|
        invariant Value() == old(Value()).(rounds := rounds, seats := players) && rounds == old(rounds) + 1
        invariant forall k :: 0 <= k < |players| ==>
          players[k] == if k < i then old(players)[k].(status := SORT) else old(players)[k]
      {
        players := players[i := players[i].(status := SORT)];
        i := i + 1;
      }
      status := Play;
    }

    // Settles the round when every hand is on the table. After the last round `ranks` is announced.
    method TrySettleGame(scores: Scores, now: int) returns (ranks: Option<seq<int>>)
      requires status == Play ==> Uniform(settleData, |players|)
      modifies this
      ensures Value() == Settled(old(Value()), scores, now)
      ensures ranks == if old(status) == Play && status == SettleAll then Some(Totals(settleData, |players|)) else None
    {
      ranks := None;
      if status != Play { return; }
      var i := 0;
      while i < |players|
        invariant 0 <= i <= |players| && AllAt(players[..i], COMPARE)
      {
        if players[i].cuid == 0 || players[i].status != COMPARE { return; }
        i := i + 1;
      }
      assert players[..i] == players;
      var prizes := SettleRound(scores, |players|, quanLeiDa, playerSize);
      settleData := settleData + [prizes];
      if rounds >= configured {
        var counts := FinalCount(settleData, |players|);
        ranks := Some(counts);
        status := SettleAll;
        settleAllTime := now;
        return;
      }
      status := Settle;
    }

    method CheckAllVotes(online: set<nat>)
      modifies this
      ensures Value() == Counted(old(Value()), online)
    {
      if status != Vote { return; }
      var ayes, opposition := CountBallots();
      if opposition != 0 {
        ClearVotes();
        startVoteTime, voteSponsor := 0, 0;
        status := Play;
      } else if ayes == |players| {
        ClearVotes();
        startVoteTime, voteSponsor := 0, 0;
        HoldersClear(old(players), online);
        AbortGame(online);
      }
    }

    // The ballots in favour up to the first one against, and who cast that one.
    method CountBallots() returns (ayes: nat, opposition: nat)
      ensures opposition != 0 <==> Opposed(players)
      ensures !Opposed(players) ==> (ayes == |players| <==> AllVote(players, VT_AYE))
    {
      ayes, opposition := 0, 0;
      var i := 0;
      while i < |players|
        invariant 0 <= i <= |players| && opposition == 0 && ayes <= i
        invariant ayes == i <==> AllVote(players[..i], VT_AYE)
        invariant forall k :: 0 <= k < i ==> players[k].vote != VT_NAY
      {
        if players[i].vote == VT_AYE {
          ayes := ayes + 1;
        } else if players[i].vote == VT_NAY {
          opposition := players[i].cuid;
          assert !AllVote(players, VT_AYE) && ayes < |players|;
          return;
        }
        assert AllVote(players[..i + 1], VT_AYE) <==> AllVote(players[..i], VT_AYE) && players[i].vote == VT_AYE by {
          AllVoteGrows(players, i);
        }
        i := i + 1;
      }
      assert players[..i] == players;
    }

    method ClearVotes()
      modifies this`players
      ensures players == WithoutVotes(old(players))
    {
      var i := 0;
      while i < |players|
        invariant 0 <= i <= |players| == |old(players)|
        invariant forall k :: 0 <= k < |players| ==>
          players[k] == if k < i then old(players)[k].(vote := VT_NONE) else old(players)[k]
      {
        players := players[i := players[i].(vote := VT_NONE)];
        i := i + 1;
      }
    }

    // ---------------------------------------------------------------- messages

    method EnterRoom(cuid: Cuid, elsewhere: bool, affords: bool)
      modifies this
      ensures Value() == Entered(old(Value()), cuid, elsewhere, affords)
    {
      if elsewhere || cuid in inside { return; }
      if status != Prepare { return; }
      var k := IndexOf(0);
      if k == |players| { return; }
      players := players[k := Seat(cuid, PREP, players[k].vote)];
      if !affords { return; }
      inside := inside + {cuid};
    }

    method OnGiveUp(cuid: Cuid, online: set<nat>, now: int)
      modifies this
      ensures Value() == GaveUp(old(Value()), cuid, online, now)
    {
      var k := IndexOf(cuid);
      if k == |players| { return; }
      match status
      case Prepare => if cuid == owner { AbortGame(online); } else { RemovePlayer(cuid); }
      case Play =>
        startVoteTime := now;
        voteSponsor := players[k].cuid;
        status := Vote;
        players := players[k := players[k].(vote := VT_AYE)];
        CheckAllVotes(online);
      case Vote =>
        players := players[k := players[k].(vote := VT_AYE)];
        CheckAllVotes(online);
      case Settle =>
      case SettleAll => RemovePlayer(cuid);
      case Closed => RemovePlayer(cuid);
    }

    method OnVote(cuid: Cuid, vote: int, online: set<nat>)
      modifies this
      ensures Value() == Voted(old(Value()), cuid, vote, online)
    {
      if status != Vote { return; }
      var k := IndexOf(cuid);
      if k == |players| {
        inside := inside - {cuid};
        return;
      }
      players := players[k := players[k].(vote := vote)];
      if vote == VT_NONE { return; }
      CheckAllVotes(online);
    }

    method OnReadyFlag(cuid: Cuid, ready: bool, online: set<nat>)
      modifies this
      ensures Value() == MadeReady(old(Value()), cuid, ready, online)
    {
      if status != Prepare { return; }
      var k := IndexOf(cuid);
      if k == |players| {
        inside := inside - {cuid};
        return;
      }
      var newStatus := if ready then READY else PREP;
      if players[k].status == newStatus { return; }
      players := players[k := players[k].(status := newStatus)];
      if newStatus == READY { TryStartRound(online); }
    }

    method OnBringOut(cuid: Cuid, cards: nat, online: set<nat>, now: int, scores: Scores)
      requires status == Play ==> Uniform(settleData, |players|)
      modifies this
      ensures Value() == BroughtOut(old(Value()), cuid, cards, online, now, scores)
    {
      if status != Play { return; }
      var k := IndexOf(cuid);
      if k == |players| {
        inside := inside - {cuid};
        return;
      }
      if players[k].status != SORT { return; }
      if cards != HAND { return; }
      players := players[k := players[k].(status := COMPARE)];
      var ranks := TrySettleGame(scores, now);
      if status == Settle { TryStartRound(online); }
    }

    method ClientOnline(cuid: Cuid)
      modifies this
      ensures Value() == Step(old(Value()), Event(Online(cuid), {}, 0, (_, _) => None))
    {
      if status == Closed { return; } // its id is 0, which no client is recorded in
      var k := IndexOf(cuid);
      if k == |players| { inside := inside - {cuid}; }
    }

    // The room numbers of these clients are reset from outside.
    method ReleasedElsewhere(cuids: set<nat>)
      modifies this`inside
      ensures Value() == old(Value()).(inside := old(inside) - cuids)
    {
      inside := inside - cuids;
    }

    method TimerExec(online: set<nat>, now: int)
      modifies this
      ensures Value() == Ticked(old(Value()), online, now)
    {
      match status
      case Prepare => TryStartRound(online);
      case Play =>
      case Vote =>
        if now - startVoteTime >= MAX_VOTE_DURATION {
          ClearVotes();
          startVoteTime := 0;
          HoldersClear(old(players), online);
          AbortGame(online);
        }
      case Settle =>
      case SettleAll =>
        if now - settleAllTime >= SETTLE_ALL_WAIT {
          settleAllTime := 0;
          AbortGame(online);
        }
      case Closed =>
    }

    // A whole run of messages and ticks from any reachable room.
    method Receive(events: seq<Event>, n: nat)
      requires n > 0 && Inv(Value(), n)
      modifies this
      ensures Value() == Run(old(Value()), events) && Inv(Value(), n)
    {
      var i := 0;
      while i < |events|
        invariant 0 <= i <= |events| && Value() == Run(old(Value()), events[..i]) && Inv(Value(), n)
      {
        ghost var r := Value();
        Dispatch(events[i], n);
        StepInv(r, n, events[i]);
        assert events[..i + 1][..i] == events[..i];
        i := i + 1;
      }
      assert events[..i] == events;
    }

    method Dispatch(e: Event, n: nat)
      requires n > 0 && Inv(Value(), n)
      modifies this
      ensures Value() == Step(old(Value()), e)
    {
      match e.message
      case Enter(c, elsewhere, affords) => EnterRoom(c, elsewhere, affords);
      case GiveUp(c) => if c in inside { OnGiveUp(c, e.online, e.now); }
      case VoteFor(c, vote) => if c in inside { OnVote(c, vote, e.online); }
      case SetReady(c, ready) => if c in inside { OnReadyFlag(c, ready, e.online); }
      case BringOut(c, cards) => if c in inside { OnBringOut(c, cards, e.online, e.now, e.scores); }
      case Online(c) => ClientOnline(c);
      case Released(cs) => ReleasedElsewhere(cs);
      case Tick => TimerExec(e.online, e.now);
    }
  }

  lemma HoldersGrow(seats: seq<Seat>, i: nat, online: set<nat>)
    requires i < |seats|
    ensures Holders(seats[..i + 1], online)
         == Holders(seats[..i], online) + if seats[i].cuid in online then {seats[i].cuid} else {}
  {
    var a, b := seats[..i], seats[..i + 1];
    forall c ensures c in Holders(b, online) <==> c in Holders(a, online) || (c in online && c == seats[i].cuid) {
      assert b[i] == seats[i];
      if c in Holders(a, online) {
        var k :| 0 <= k < i && a[k].cuid == c && c in online;
        assert b[k].cuid == c;
      }
    }
  }

  lemma AllVoteGrows(seats: seq<Seat>, i: nat)
    requires i < |seats|
    ensures AllVote(seats[..i + 1], VT_AYE) <==> AllVote(seats[..i], VT_AYE) && seats[i].vote == VT_AYE
  {
    assert seats[..i + 1][i] == seats[i];
    assert forall k :: 0 <= k < i ==> seats[..i + 1][k] == seats[..i][k];
  }

  lemma HoldersClear(seats: seq<Seat>, online: set<nat>)
    ensures Holders(WithoutVotes(seats), online) == Holders(seats, online)
  {
    forall c ensures c in Holders(WithoutVotes(seats), online) <==> c in Holders(seats, online) {
      if c in Holders(seats, online) {
        var k :| 0 <= k < |seats| && seats[k].cuid == c && c in online;
        assert WithoutVotes(seats)[k].cuid == c;
      }
    }
  }
}
