/** What the room of GameRoom.dfy guarantees over whole runs: how rounds start, how votes end,
    that every seat plays once in each settled round, and that settlements are final. */
module GameRoomTheorems {
  import opened Common
  import opened GameLedger
  import opened GameRoom

  // Every state that messages and timer ticks can lead a new room into is one of these.
  lemma EveryRun(owner: Cuid, configured: int, n: nat, events: seq<Event>)
    requires n > 0
    ensures Inv(Run(NewRoom(owner, configured, n), events), n)
  {
    InitInv(owner, configured, n);
    RunInv(NewRoom(owner, configured, n), n, events);
  }

  // The final ranks that a finished game announces cancel out.
  lemma FinalRanksCancel(owner: Cuid, configured: int, n: nat, events: seq<Event>)
    requires n > 0
    ensures var r := Run(NewRoom(owner, configured, n), events);
      Uniform(r.ledger, n) && Sum(Totals(r.ledger, n)) == 0
  {
    EveryRun(owner, configured, n, events);
    FinalIsZeroSum(Run(NewRoom(owner, configured, n), events).ledger, n);
  }

  // ---------------------------------------------------------------- how a round starts

  predicate ReadyBut(seats: seq<Seat>, m: nat) {
    forall k :: 0 <= k < |seats| && k != m ==> seats[k].cuid != 0 && seats[k].status == READY
  }

  // What makes the waiting room start its first round.
  predicate Starter(r: Room, e: Event) {
    AllOnline(r.seats, e.online) &&
    match e.message
    case Tick => AllAt(r.seats, READY)
    case SetReady(c, ready) =>
      && ready && c in r.inside && ReadyBut(r.seats, SeatOf(r.seats, c))
      && SeatOf(r.seats, c) < |r.seats| && r.seats[SeatOf(r.seats, c)].status != READY
    case Enter(_, _, _) => false
    case GiveUp(_) => false
    case VoteFor(_, _) => false
    case BringOut(_, _) => false
    case Online(_) => false
    case Released(_) => false
  }

  lemma LastReady(r: Room, c: Cuid, ready: bool, online: set<nat>)
    requires r.phase.Prepare? && Seated(r.seats, c)
    ensures MadeReady(r, c, ready, online).phase.Play? <==>
      && AllOnline(r.seats, online)
      && ready && ReadyBut(r.seats, SeatOf(r.seats, c)) && r.seats[SeatOf(r.seats, c)].status != READY
  {
    var k := SeatOf(r.seats, c);
    var s := r.(seats := r.seats[k := r.seats[k].(status := if ready then READY else PREP)]);
    assert AllOnline(s.seats, online) <==> AllOnline(r.seats, online) by {
      assert forall j :: 0 <= j < |r.seats| ==> s.seats[j].cuid == r.seats[j].cuid;
    }
    assert ready ==> (AllAt(s.seats, READY) <==> ReadyBut(r.seats, k)) by {
      assert forall j :: 0 <= j < |r.seats| && j != k ==> s.seats[j] == r.seats[j];
    }
  }

  // The game starts with the last ready flag, or when the last ready player is back online; it is
  // called off only by its owner.
  lemma StartsExactly(r: Room, n: nat, e: Event)
    requires Inv(r, n) && n > 0 && r.phase.Prepare?
    ensures Step(r, e).phase.Play? <==> Starter(r, e)
    ensures Step(r, e).phase.Closed? <==> e.message == GiveUp(r.owner) && r.owner in r.inside
    ensures Step(r, e).phase.Prepare? || Step(r, e).phase.Play? || Step(r, e).phase.Closed?
    ensures Starter(r, e) ==> Step(r, e).rounds == 1 && AllAt(Step(r, e).seats, SORT)
  {
    match e.message
    case SetReady(c, ready) =>
      if c in r.inside {
        LastReady(r, c, ready, e.online);
        StepInv(r, n, e);
      }
    case Tick => StepInv(r, n, e);
    case Enter(_, _, _) =>
    case GiveUp(c) =>
    case VoteFor(_, _) =>
    case BringOut(_, _) =>
    case Online(_) =>
    case Released(_) =>
  }

  // ---------------------------------------------------------------- how a round ends

  // The last missing hand of the round.
  predicate LastHand(r: Room, e: Event) {
    && e.message.BringOut? && e.message.cards == HAND && e.message.cuid in r.inside
    && var k := SeatOf(r.seats, e.message.cuid);
       && k < |r.seats| && r.seats[k].status == SORT
       && forall j :: 0 <= j < |r.seats| && j != k ==> r.seats[j].status == COMPARE
  }

  predicate Leaves(r: Room, e: Event) {
    e.message.GiveUp? && e.message.cuid in r.inside
  }

  // A vote begins with the ballot of the one who wants to leave.
  predicate OpenedBy(r: Room, s: Room, c: Cuid, now: int) {
    && s.voteSince == now && s.sponsor == c && |s.seats| == |r.seats|
    && forall k :: 0 <= k < |r.seats| ==>
         s.seats[k] == r.seats[k].(vote := if k == SeatOf(r.seats, c) then VT_AYE else VT_NONE)
  }

  // A round is settled with its last hand, at once and only then; the next round starts in the
  // same step unless this was the last. Whoever gives up opens a vote, or ends a game alone.
  lemma EndsExactly(r: Room, n: nat, e: Event)
    requires Inv(r, n) && n > 0 && r.phase.Play?
    ensures var s := Step(r, e);
      && s.ledger == (if LastHand(r, e) then r.ledger + [Prizes(e.scores, n)] else r.ledger)
      && s.rounds == (if LastHand(r, e) && r.rounds < LastRound(r.configured) then r.rounds + 1 else r.rounds)
      && (LastHand(r, e) && s.phase.Play? ==> AllAt(s.seats, SORT))
      && (s.phase.SettleAll? <==> LastHand(r, e) && r.rounds == LastRound(r.configured))
      && (s.phase.SettleAll? ==> s.settleAllSince == e.now)
      && (s.phase.Vote? <==> Leaves(r, e) && n > 1)
      && (s.phase.Vote? ==> OpenedBy(r, s, e.message.cuid, e.now))
      && (s.phase.Closed? <==> Leaves(r, e) && n == 1)
      && !s.phase.Prepare? && !s.phase.Settle?
  {
    match e.message
    case BringOut(c, cards) =>
      if c in r.inside { BringOutEnds(r, n, c, e); }
    case GiveUp(c) =>
      if c in r.inside {
        assert Seated(r.seats, c);
        LeaverVotes(r, n, c, e.online, e.now);
      }
    case Enter(_, _, _) =>
    case VoteFor(_, _) =>
    case SetReady(_, _) =>
    case Online(_) =>
    case Released(_) =>
    case Tick =>
  }

  lemma BringOutEnds(r: Room, n: nat, c: Cuid, e: Event)
    requires Inv(r, n) && n > 0 && r.phase.Play? && c in r.inside && e.message.BringOut? && e.message.cuid == c
    ensures var s := Step(r, e);
      && s.ledger == (if LastHand(r, e) then r.ledger + [Prizes(e.scores, n)] else r.ledger)
      && s.rounds == (if LastHand(r, e) && r.rounds < LastRound(r.configured) then r.rounds + 1 else r.rounds)
      && (LastHand(r, e) && s.phase.Play? ==> AllAt(s.seats, SORT))
      && (if LastHand(r, e) && r.rounds == LastRound(r.configured) then s.phase.SettleAll? && s.settleAllSince == e.now
          else s.phase.Play?)
  {
    assert Seated(r.seats, c);
    var k := SeatOf(r.seats, c);
    if r.seats[k].status == SORT && e.message.cards == HAND {
      var s := r.(seats := r.seats[k := r.seats[k].(status := COMPARE)]);
      assert AllAt(s.seats, COMPARE) <==> LastHand(r, e) by {
        assert forall j :: 0 <= j < n && j != k ==> s.seats[j] == r.seats[j];
      }
    }
  }

  lemma LeaverVotes(r: Room, n: nat, c: Cuid, online: set<nat>, now: int)
    requires Inv(r, n) && r.phase.Play? && Seated(r.seats, c)
    ensures var s := GaveUp(r, c, online, now);
      && s.ledger == r.ledger && s.rounds == r.rounds
      && (if n == 1 then s.phase.Closed? else s.phase.Vote? && OpenedBy(r, s, c, now))
  {
    var k := SeatOf(r.seats, c);
    var seats := r.seats[k := r.seats[k].(vote := VT_AYE)];
    assert !Opposed(seats);
    if n > 1 { assert seats[if k == 0 then 1 else 0].vote == VT_NONE; }
  }

  // ---------------------------------------------------------------- how a vote ends

  // Everybody else is already in favour.
  predicate OthersInFavour(seats: seq<Seat>, k: nat) {
    forall j :: 0 <= j < |seats| && j != k ==> seats[j].vote == VT_AYE
  }

  predicate SaysNo(r: Room, e: Event) {
    e.message.VoteFor? && e.message.vote == VT_NAY && e.message.cuid in r.inside
  }

  predicate SaysYes(r: Room, e: Event) {
    && (e.message.GiveUp? || (e.message.VoteFor? && e.message.vote == VT_AYE))
    && e.message.cuid in r.inside
  }

  predicate VoteRunsOut(r: Room, e: Event) {
    e.message.Tick? && e.now - r.voteSince >= MAX_VOTE_DURATION
  }

  // Same table, other ballots.
  predicate SameButVotes(r: Room, s: Room) {
    && s.rounds == r.rounds && s.ledger == r.ledger && |s.seats| == |r.seats|
    && forall k :: 0 <= k < |r.seats| ==> s.seats[k] == r.seats[k].(vote := s.seats[k].vote)
  }

  function StillInside(r: Room, e: Event): set<nat> {
    if e.message.Released? then r.inside - e.message.cuids else r.inside
  }

  // One ballot against resumes the very round that was interrupted, with all ballots cleared; the
  // game is broken off by the last ballot in favour or by the clock. Nothing else ends a vote.
  lemma VoteEndsExactly(r: Room, n: nat, e: Event)
    requires Inv(r, n) && n > 0 && r.phase.Vote?
    ensures var s := Step(r, e);
      && (s.phase.Play? <==> SaysNo(r, e))
      && (s.phase.Play? ==> AllVote(s.seats, VT_NONE) && s.voteSince == 0 && s.sponsor == 0)
      && (s.phase.Closed? <==>
            VoteRunsOut(r, e) || (SaysYes(r, e) && OthersInFavour(r.seats, SeatOf(r.seats, e.message.cuid))))
      && (!s.phase.Closed? ==> SameButVotes(r, s) && s.inside == StillInside(r, e))
      && (s.phase.Vote? || s.phase.Play? || (s.phase.Closed? && s.seats == [] && s.ledger == r.ledger && s.rounds == r.rounds))
  {
    match e.message
    case VoteFor(c, vote) => if c in r.inside { BallotEnds(r, n, c, vote, e.online, r.voteSince); }
    case GiveUp(c) => if c in r.inside { BallotEnds(r, n, c, VT_AYE, e.online, e.now); }
    case BringOut(_, _) =>
    case Enter(_, _, _) =>
    case SetReady(_, _) =>
    case Online(_) =>
    case Released(_) =>
    case Tick =>
  }

  lemma BallotEnds(r: Room, n: nat, c: Cuid, vote: int, online: set<nat>, now: int)
    requires Inv(r, n) && n > 0 && r.phase.Vote? && c in r.inside
    ensures vote == VT_AYE ==> GaveUp(r, c, online, now) == Voted(r, c, VT_AYE, online)
    ensures var s := Voted(r, c, vote, online);
      && (s.phase.Play? <==> vote == VT_NAY)
      && (s.phase.Play? ==> AllVote(s.seats, VT_NONE) && s.voteSince == 0 && s.sponsor == 0)
      && (s.phase.Closed? <==> vote == VT_AYE && OthersInFavour(r.seats, SeatOf(r.seats, c)))
      && (!s.phase.Closed? ==> SameButVotes(r, s) && s.inside == r.inside)
      && (s.phase.Vote? || s.phase.Play?
          || (s.phase.Closed? && s.seats == [] && s.ledger == r.ledger && s.rounds == r.rounds))
  {
    assert Seated(r.seats, c);
    var k := SeatOf(r.seats, c);
    assert k < n by { SeatFound(r.seats, c); }
    Ballots(r, k, vote);
    OtherBallots(r, k, vote, Voted(r, c, vote, online));
    hide Opposed, AllVote, OthersInFavour, Playing, Voting, Seated, LedgerOk, SeatOf, WithoutVotes, Aborted, SameButVotes;
  }

  lemma SeatFound(seats: seq<Seat>, c: nat)
    requires Seated(seats, c)
    ensures SeatOf(seats, c) < |seats|
  {
  }

  // A changed ballot, and then perhaps none: the same table.
  lemma OtherBallots(r: Room, k: nat, vote: int, s: Room)
    requires k < |r.seats|
    ensures var seats := r.seats[k := r.seats[k].(vote := vote)];
      s.rounds == r.rounds && s.ledger == r.ledger && (s.seats == seats || s.seats == WithoutVotes(seats))
      ==> SameButVotes(r, s)
  {
  }

  lemma Ballots(r: Room, k: nat, vote: int)
    requires Playing(r) && Voting(r) && k < |r.seats|
    ensures var seats := r.seats[k := r.seats[k].(vote := vote)];
      && (Opposed(seats) <==> vote == VT_NAY)
      && (AllVote(seats, VT_AYE) <==> vote == VT_AYE && OthersInFavour(r.seats, k))
      && AllVote(WithoutVotes(seats), VT_NONE)
  {
    var seats := r.seats[k := r.seats[k].(vote := vote)];
    assert forall j :: 0 <= j < |r.seats| && j != k ==> seats[j] == r.seats[j];
    assert seats[k].vote == vote;
  }

  // ---------------------------------------------------------------- whole games

  // What is settled stays settled, rounds never count back, and a closed room stays closed.
  lemma Monotone(r: Room, n: nat, e: Event)
    requires Inv(r, n) && n > 0
    ensures var s := Step(r, e);
      && r.ledger <= s.ledger && r.rounds <= s.rounds
      && (r.phase.Closed? ==> s.phase.Closed? && s.ledger == r.ledger)
      && (r.phase.SettleAll? ==> (s.phase.SettleAll? || s.phase.Closed?) && s.ledger == r.ledger)
  {
    hide Step;
    match r.phase
    case Play => EndsExactly(r, n, e);
    case Vote => VoteEndsExactly(r, n, e);
    case Prepare => StepInv(r, n, e);
    case SettleAll => OverMeansOver(r, n, e);
    case Closed => OverMeansOver(r, n, e);
  }

  lemma OverMeansOver(r: Room, n: nat, e: Event)
    requires Inv(r, n) && (r.phase.SettleAll? || r.phase.Closed?)
    ensures var s := Step(r, e);
      s.ledger == r.ledger && s.rounds == r.rounds && (s.phase == r.phase || s.phase.Closed?)
  {
  }

  lemma {:induction false} SettlementsAreFinal(r: Room, n: nat, events: seq<Event>)
    requires Inv(r, n) && n > 0
    ensures var s := Run(r, events);
      && r.ledger <= s.ledger && r.rounds <= s.rounds
      && (r.phase.Closed? ==> s.phase.Closed? && s.ledger == r.ledger)
      && (r.phase.SettleAll? ==> (s.phase.SettleAll? || s.phase.Closed?) && s.ledger == r.ledger)
    decreases |events|
  {
    hide Inv, Step;
    if events != [] {
      var before := events[..|events| - 1];
      SettlementsAreFinal(r, n, before);
      RunInv(r, n, before);
      Monotone(Run(r, before), n, events[|events| - 1]);
    }
  }

  // A finished room waits 120 seconds, then closes.
  lemma FinishedRoomCloses(r: Room, n: nat, e: Event)
    requires Inv(r, n) && r.phase.SettleAll?
    ensures Step(r, e).phase.Closed? <==> e.message.Tick? && e.now - r.settleAllSince >= SETTLE_ALL_WAIT
  {
  }

  // Who leaves a finished room gives up its first seat; the others keep theirs.
  lemma LeavesFinished(r: Room, n: nat, e: Event)
    requires Inv(r, n) && r.phase.SettleAll? && Leaves(r, e)
    ensures var s, c := Step(r, e), e.message.cuid;
      && s.inside == r.inside - {c} && |s.seats| == n && s.seats[SeatOf(r.seats, c)].cuid == 0
      && forall k :: 0 <= k < n && k != SeatOf(r.seats, c) ==> s.seats[k] == r.seats[k]
  {
    assert Seated(r.seats, e.message.cuid);
  }

  // A room that closes resets the number of everyone who holds a seat and is online: exactly those,
  // and whoever is still recorded in it is offline.
  lemma ClosingReleases(r: Room, n: nat, e: Event)
    requires Inv(r, n) && n > 0 && !r.phase.Closed? && Step(r, e).phase.Closed?
    ensures Step(r, e).letGo == Holders(r.seats, e.online)
    ensures forall c <- Step(r, e).inside :: c in r.inside && c !in e.online
  {
    hide Filling, Playing, LedgerOk, AllVote, Opposed, Seated;
    if e.message.GiveUp? { SameHolders(r, e.message.cuid, VT_AYE, e.online); }
    if e.message.VoteFor? { SameHolders(r, e.message.cuid, e.message.vote, e.online); }
    forall c | c in r.inside && c in e.online ensures c in Holders(r.seats, e.online) { OnlineHolder(r, n, c, e.online); }
  }

  lemma OnlineHolder(r: Room, n: nat, c: nat, online: set<nat>)
    requires Inv(r, n) && !r.phase.Closed? && c in r.inside && c in online
    ensures c in Holders(r.seats, online)
  {
    assert Seated(r.seats, c);
  }

  lemma SameHolders(r: Room, c: Cuid, vote: int, online: set<nat>)
    ensures var k := SeatOf(r.seats, c);
      k < |r.seats| ==> Holders(r.seats[k := r.seats[k].(vote := vote)], online) == Holders(r.seats, online)
  {
    var k := SeatOf(r.seats, c);
    if k < |r.seats| {
      var seats := r.seats[k := r.seats[k].(vote := vote)];
      assert forall j :: 0 <= j < |seats| ==> seats[j].cuid == r.seats[j].cuid;
      forall d ensures d in Holders(seats, online) <==> d in Holders(r.seats, online) {
        if d in Holders(r.seats, online) {
          var j :| 0 <= j < |r.seats| && r.seats[j].cuid == d && d in online;
          assert seats[j].cuid == d;
        }
      }
    }
  }

  predicate SentBy(e: Event, c: nat) { !e.message.Tick? && !e.message.Released? && e.message.cuid == c }

  // Between two changes of phase or round a message touches no seat but its sender's.
  lemma OnlyOwnSeat(r: Room, n: nat, e: Event)
    requires Inv(r, n) && Step(r, e).phase == r.phase && Step(r, e).rounds == r.rounds
    ensures |Step(r, e).seats| == |r.seats|
    ensures forall k :: 0 <= k < |r.seats| && Step(r, e).seats[k] != r.seats[k] ==>
      SentBy(e, r.seats[k].cuid) || (r.seats[k].cuid == 0 && SentBy(e, Step(r, e).seats[k].cuid))
  {
    hide Filling, Playing, LedgerOk, Seated, AllOnline, AllVote, Opposed;
    if r.phase.Play? && Leaves(r, e) { LeaverVotes(r, n, e.message.cuid, e.online, e.now); }
  }

  // Seat k lays its hand with this message.
  predicate Lays(r: Room, e: Event, k: nat) {
    && e.message.BringOut? && e.message.cards == HAND && e.message.cuid in r.inside && r.phase.Play?
    && k < |r.seats| && SeatOf(r.seats, e.message.cuid) == k && r.seats[k].status == SORT
  }

  function HandsLaid(r: Room, events: seq<Event>, k: nat): nat {
    if events == [] then 0
    else
      var before := events[..|events| - 1];
      HandsLaid(r, before, k) + if Lays(Run(r, before), events[|events| - 1], k) then 1 else 0
  }

  // The hands that the table shows for seat k: one a settled round, and the one on the table.
  function HandsShown(r: Room, k: nat): nat {
    |r.ledger| + if (r.phase.Play? || r.phase.Vote?) && k < |r.seats| && r.seats[k].status == COMPARE then 1 else 0
  }

  lemma LaysCounts(r: Room, n: nat, e: Event, k: nat)
    requires Inv(r, n) && k < n && !Step(r, e).phase.Closed?
    ensures HandsShown(Step(r, e), k) == HandsShown(r, k) + if Lays(r, e, k) then 1 else 0
  {
    match r.phase
    case Play => LaysCountsInPlay(r, n, e, k);
    case Vote => VoteEndsExactly(r, n, e);
    case Prepare => StepInv(r, n, e); StartsExactly(r, n, e);
    case SettleAll => Monotone(r, n, e);
    case Closed =>
  }

  lemma LaysCountsInPlay(r: Room, n: nat, e: Event, k: nat)
    requires Inv(r, n) && k < n && r.phase.Play? && !Step(r, e).phase.Closed?
    ensures HandsShown(Step(r, e), k) == HandsShown(r, k) + if Lays(r, e, k) then 1 else 0
  {
    EndsExactly(r, n, e);
  }

  // Until the room closes, every seat has laid exactly one hand in each settled round and at most
  // one in the round that is running: no round is settled short and no hand counts twice. What
  // closing breaks off is at most that one hand.
  lemma {:induction false} OneHandARound(owner: Cuid, configured: int, n: nat, events: seq<Event>, k: nat)
    requires k < n
    ensures var r := Run(NewRoom(owner, configured, n), events);
      var hands := HandsLaid(NewRoom(owner, configured, n), events, k);
      && (!r.phase.Closed? ==> hands == HandsShown(r, k))
      && |r.ledger| <= hands <= |r.ledger| + 1
    decreases |events|
  {
    hide Inv, Step, Lays;
    var r := NewRoom(owner, configured, n);
    if events == [] {
      NothingShown(owner, configured, n, k);
    } else {
      var before, e := events[..|events| - 1], events[|events| - 1];
      EveryRun(owner, configured, n, before);
      Monotone(Run(r, before), n, e);
      OneHandARound(owner, configured, n, before, k);
      if Step(Run(r, before), e).phase.Closed? {
        ClosingLaysNothing(Run(r, before), n, e, k);
      } else {
        LaysCounts(Run(r, before), n, e, k);
      }
    }
  }

  lemma ClosingLaysNothing(r: Room, n: nat, e: Event, k: nat)
    requires Inv(r, n) && n > 0 && Step(r, e).phase.Closed?
    ensures !Lays(r, e, k) && Step(r, e).ledger == r.ledger
  {
    match r.phase
    case Play => EndsExactly(r, n, e);
    case Vote => VoteEndsExactly(r, n, e);
    case Prepare => StartsExactly(r, n, e);
    case SettleAll => OverMeansOver(r, n, e);
    case Closed => OverMeansOver(r, n, e);
  }

  lemma NothingShown(owner: Cuid, configured: int, n: nat, k: nat)
    ensures HandsShown(NewRoom(owner, configured, n), k) == 0
  {
  }
}
