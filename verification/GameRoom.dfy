/** A card room of processes/lobby/game13.cpp as a state machine: what each client message and
    each timer tick does to the room, and what every run of them keeps. Cards, money and the
    pairwise scoring are left to the environment. */
module GameRoom {
  import opened Common
  import opened GameLedger

  // Client identifiers; 0 marks an empty seat.
  type Cuid = x: nat | x > 0 witness 1

  const CLEARED: int := 0
  const PREP: int := 1
  const READY: int := 2
  const SORT: int := 3
  const COMPARE: int := 4

  const VT_NONE: int := 0
  const VT_AYE: int := 1
  const VT_NAY: int := 2

  const MAX_VOTE_DURATION: int := 300
  const SETTLE_ALL_WAIT: int := 120
  const HAND: nat := 13

  datatype Seat = Seat(cuid: nat, status: int, vote: int)

  datatype Phase = Prepare | Play | Vote | Settle | SettleAll | Closed

  // `inside` holds the clients whose recorded room number is this room's; `letGo` those whose number
  // closing the room has reset, whichever room it named.
  datatype Room = Room(
    owner: Cuid, configured: int, seats: seq<Seat>, phase: Phase, rounds: int, voteSince: int, sponsor: nat,
    settleAllSince: int, ledger: seq<seq<int>>, inside: set<nat>, letGo: set<nat>)

  datatype Message =
    | Enter(cuid: Cuid, elsewhere: bool, affords: bool)
    | GiveUp(cuid: Cuid)
    | VoteFor(cuid: Cuid, vote: int)
    | SetReady(cuid: Cuid, ready: bool)
    | BringOut(cuid: Cuid, cards: nat)
    | Online(cuid: Cuid)
    | Released(cuids: set<nat>)
    | Tick

  // A message, and what the room finds when it arrives: who is online, the time, the scoring.
  datatype Event = Event(message: Message, online: set<nat>, now: int, scores: Scores)

  function NewRoom(owner: Cuid, configured: int, size: nat): Room {
    Room(owner, configured, seq(size, _ => Seat(0, CLEARED, VT_NONE)), Prepare, 0, 0, 0, 0, [], {}, {})
  }

  // ---------------------------------------------------------------- seats

  // The first seat of a client (0 finds the first empty one), or the number of seats.
  function SeatOf(seats: seq<Seat>, cuid: nat): (k: nat)
    ensures k <= |seats|
    ensures k < |seats| ==> seats[k].cuid == cuid
    ensures forall j :: 0 <= j < k ==> seats[j].cuid != cuid
  {
    if seats == [] then 0
    else if seats[0].cuid == cuid then 0
    else 1 + SeatOf(seats[1..], cuid)
  }

  predicate Seated(seats: seq<Seat>, cuid: nat) {
    exists k :: 0 <= k < |seats| && seats[k].cuid == cuid
  }

  predicate AllAt(seats: seq<Seat>, status: int) {
    forall k :: 0 <= k < |seats| ==> seats[k].cuid != 0 && seats[k].status == status
  }

  predicate AllOnline(seats: seq<Seat>, online: set<nat>) {
    forall k :: 0 <= k < |seats| ==> seats[k].cuid in online
  }

  predicate AllVote(seats: seq<Seat>, vote: int) {
    forall k :: 0 <= k < |seats| ==> seats[k].vote == vote
  }

  // The first seat that votes against is taken.
  predicate Opposed(seats: seq<Seat>) {
    exists k :: 0 <= k < |seats| && seats[k].vote == VT_NAY && seats[k].cuid != 0
      && forall j :: 0 <= j < k ==> seats[j].vote != VT_NAY
  }

  function WithStatus(seats: seq<Seat>, status: int): (r: seq<Seat>)
    ensures |r| == |seats|
  {
    seq(|seats|, k requires 0 <= k < |seats| => seats[k].(status := status))
  }

  function WithoutVotes(seats: seq<Seat>): (r: seq<Seat>)
    ensures |r| == |seats|
  {
    seq(|seats|, k requires 0 <= k < |seats| => seats[k].(vote := VT_NONE))
  }

  // ---------------------------------------------------------------- what the handlers do

  // The clients that are online and hold a seat, wherever they are recorded.
  function Holders(seats: seq<Seat>, online: set<nat>): set<nat> {
    set k | 0 <= k < |seats| && seats[k].cuid in online :: seats[k].cuid
  }

  // Everyone with a seat who is online has the room number reset, even if it names another room.
  function Aborted(r: Room, online: set<nat>): Room {
    var held := Holders(r.seats, online);
    r.(seats := [], phase := Closed, inside := r.inside - held, letGo := held)
  }

  function Removed(r: Room, cuid: Cuid): Room {
    var k := SeatOf(r.seats, cuid);
    if k == |r.seats| then r
    else r.(seats := r.seats[k := Seat(0, CLEARED, r.seats[k].vote)], inside := r.inside - {cuid})
  }

  predicate MayStart(r: Room, online: set<nat>) {
    match r.phase
    case Prepare => AllAt(r.seats, READY) && AllOnline(r.seats, online)
    case Settle => true
    case Play => AllAt(r.seats, COMPARE)
    case Vote => AllAt(r.seats, COMPARE)
    case SettleAll => AllAt(r.seats, COMPARE)
    case Closed => AllAt(r.seats, COMPARE)
  }

  function Started(r: Room, online: set<nat>): Room {
    if !MayStart(r, online) then r
    else r.(rounds := r.rounds + 1, seats := WithStatus(r.seats, SORT), phase := Play)
  }

  function Settled(r: Room, scores: Scores, now: int): Room {
    if !r.phase.Play? || !AllAt(r.seats, COMPARE) then r
    else
      var s := r.(ledger := r.ledger + [Prizes(scores, |r.seats|)]);
      if r.rounds >= r.configured then s.(phase := SettleAll, settleAllSince := now) else s.(phase := Settle)
  }

  function Counted(r: Room, online: set<nat>): Room {
    if !r.phase.Vote? then r
    else if Opposed(r.seats) then
      r.(seats := WithoutVotes(r.seats), voteSince := 0, sponsor := 0, phase := Play)
    else if AllVote(r.seats, VT_AYE) then Aborted(r.(voteSince := 0, sponsor := 0), online)
    else r
  }

  // ---------------------------------------------------------------- one message

  function Entered(r: Room, cuid: Cuid, elsewhere: bool, affords: bool): Room {
    var k := SeatOf(r.seats, 0);
    if elsewhere || cuid in r.inside || !r.phase.Prepare? || k == |r.seats| then r
    else
      var s := r.(seats := r.seats[k := Seat(cuid, PREP, r.seats[k].vote)]);
      if affords then s.(inside := s.inside + {cuid}) else s
  }

  function GaveUp(r: Room, cuid: Cuid, online: set<nat>, now: int): Room {
    var k := SeatOf(r.seats, cuid);
    if k == |r.seats| then r
    else
      match r.phase
      case Prepare => if cuid == r.owner then Aborted(r, online) else Removed(r, cuid)
      case Play =>
        Counted(r.(voteSince := now, sponsor := cuid, phase := Vote,
                   seats := r.seats[k := r.seats[k].(vote := VT_AYE)]), online)
      case Vote => Counted(r.(seats := r.seats[k := r.seats[k].(vote := VT_AYE)]), online)
      case Settle => r
      case SettleAll => Removed(r, cuid)
      case Closed => Removed(r, cuid)
  }

  function Voted(r: Room, cuid: Cuid, vote: int, online: set<nat>): Room {
    var k := SeatOf(r.seats, cuid);
    if !r.phase.Vote? then r
    else if k == |r.seats| then r.(inside := r.inside - {cuid})
    else
      var s := r.(seats := r.seats[k := r.seats[k].(vote := vote)]);
      if vote == VT_NONE then s else Counted(s, online)
  }

  function MadeReady(r: Room, cuid: Cuid, ready: bool, online: set<nat>): Room {
    var k := SeatOf(r.seats, cuid);
    var status := if ready then READY else PREP;
    if !r.phase.Prepare? then r
    else if k == |r.seats| then r.(inside := r.inside - {cuid})
    else if r.seats[k].status == status then r
    else
      var s := r.(seats := r.seats[k := r.seats[k].(status := status)]);
      if ready then Started(s, online) else s
  }

  function BroughtOut(r: Room, cuid: Cuid, cards: nat, online: set<nat>, now: int, scores: Scores): Room {
    var k := SeatOf(r.seats, cuid);
    if !r.phase.Play? then r
    else if k == |r.seats| then r.(inside := r.inside - {cuid})
    else if r.seats[k].status != SORT || cards != HAND then r
    else
      var s := Settled(r.(seats := r.seats[k := r.seats[k].(status := COMPARE)]), scores, now);
      if s.phase.Settle? then Started(s, online) else s
  }

  function Ticked(r: Room, online: set<nat>, now: int): Room {
    match r.phase
    case Prepare => Started(r, online)
    case Vote =>
      if now - r.voteSince >= MAX_VOTE_DURATION then Aborted(r.(voteSince := 0), online) else r
    case SettleAll =>
      if now - r.settleAllSince >= SETTLE_ALL_WAIT then Aborted(r.(settleAllSince := 0), online) else r
    case Play => r
    case Settle => r
    case Closed => r
  }

  // Messages other than Enter, Online and Released reach the room their sender is recorded in.
  // Released is the reset of clients' room numbers from outside: by another room that closes while
  // they hold a seat there, or by the lobby. A closed room has no number left that could be reset.
  function Step(r: Room, e: Event): Room {
    match e.message
    case Enter(c, elsewhere, affords) => Entered(r, c, elsewhere, affords)
    case GiveUp(c) => if c in r.inside then GaveUp(r, c, e.online, e.now) else r
    case VoteFor(c, vote) => if c in r.inside then Voted(r, c, vote, e.online) else r
    case SetReady(c, ready) => if c in r.inside then MadeReady(r, c, ready, e.online) else r
    case BringOut(c, cards) => if c in r.inside then BroughtOut(r, c, cards, e.online, e.now, e.scores) else r
    case Online(c) => if Seated(r.seats, c) || r.phase.Closed? then r else r.(inside := r.inside - {c})
    case Released(cs) => r.(inside := r.inside - cs)
    case Tick => Ticked(r, e.online, e.now)
  }

  function Run(r: Room, events: seq<Event>): Room {
    if events == [] then r else Step(Run(r, events[..|events| - 1]), events[|events| - 1])
  }

  // ---------------------------------------------------------------- the invariant

  function LastRound(configured: int): int {
    if configured > 1 then configured else 1
  }

  predicate Filling(r: Room) {
    forall k :: 0 <= k < |r.seats| ==>
      if r.seats[k].cuid == 0 then r.seats[k].status == CLEARED
      else r.seats[k].status == PREP || r.seats[k].status == READY
  }

  predicate Playing(r: Room) {
    && (forall k :: 0 <= k < |r.seats| ==>
          r.seats[k].cuid != 0 && (r.seats[k].status == SORT || r.seats[k].status == COMPARE))
    && (exists k :: 0 <= k < |r.seats| && r.seats[k].status == SORT)
  }

  predicate Voting(r: Room) {
    && (forall k :: 0 <= k < |r.seats| ==> r.seats[k].vote != VT_NAY)
    && !AllVote(r.seats, VT_AYE)
  }

  predicate LedgerOk(ledger: seq<seq<int>>, n: nat) {
    forall i :: 0 <= i < |ledger| ==> |ledger[i]| == n && Sum(ledger[i]) == 0
  }

  predicate Inv(r: Room, n: nat) {
    && 0 <= r.rounds <= LastRound(r.configured)
    && LedgerOk(r.ledger, n) && 0 !in r.inside
    && (!r.phase.Closed? ==> |r.seats| == n && forall c :: c in r.inside ==> Seated(r.seats, c))
    && (!r.phase.Vote? ==> AllVote(r.seats, VT_NONE))
    && match r.phase
       case Prepare => r.rounds == 0 && r.ledger == [] && Filling(r)
       case Play => |r.ledger| == r.rounds - 1 && Playing(r)
       case Vote => |r.ledger| == r.rounds - 1 && Playing(r) && Voting(r)
       case Settle => false
       case SettleAll => |r.ledger| == r.rounds == LastRound(r.configured)
       case Closed => r.seats == [] && r.rounds - 1 <= |r.ledger| <= r.rounds
  }

  lemma InitInv(owner: Cuid, configured: int, n: nat)
    ensures Inv(NewRoom(owner, configured, n), n)
  {
  }

  lemma AbortedInv(r: Room, n: nat, online: set<nat>)
    requires 0 <= r.rounds <= LastRound(r.configured) && LedgerOk(r.ledger, n) && 0 !in r.inside
    requires r.rounds - 1 <= |r.ledger| <= r.rounds
    ensures Inv(Aborted(r, online), n)
  {
  }

  lemma RemovedInv(r: Room, n: nat, cuid: Cuid)
    requires Inv(r, n) && (r.phase.Prepare? || r.phase.SettleAll?)
    ensures Inv(Removed(r, cuid), n)
  {
    var k := SeatOf(r.seats, cuid);
    var s := Removed(r, cuid);
    forall c | c in s.inside ensures Seated(s.seats, c) {
      var j :| 0 <= j < |r.seats| && r.seats[j].cuid == c;
      assert s.seats[j].cuid == c;
    }
  }

  lemma EnteredInv(r: Room, n: nat, cuid: Cuid, elsewhere: bool, affords: bool)
    requires Inv(r, n)
    ensures Inv(Entered(r, cuid, elsewhere, affords), n)
  {
    var k := SeatOf(r.seats, 0);
    var s := Entered(r, cuid, elsewhere, affords);
    if s != r {
      assert s.seats[k].cuid == cuid;
      forall c | c in s.inside ensures Seated(s.seats, c) {
        if c in r.inside {
          var j :| 0 <= j < |r.seats| && r.seats[j].cuid == c;
          assert s.seats[j].cuid == c;
        }
      }
    }
  }

  lemma StatusInside(a: Room, b: Room)
    requires |a.seats| == |b.seats| && a.inside == b.inside
    requires forall k :: 0 <= k < |a.seats| ==> a.seats[k].cuid == b.seats[k].cuid
    requires forall c :: c in a.inside ==> Seated(a.seats, c)
    ensures forall c :: c in b.inside ==> Seated(b.seats, c)
  {
    forall c | c in b.inside ensures Seated(b.seats, c) {
      var j :| 0 <= j < |a.seats| && a.seats[j].cuid == c;
      assert b.seats[j].cuid == c;
    }
  }

  lemma FirstRoundInv(r: Room, n: nat, online: set<nat>)
    requires Inv(r, n) && r.phase.Prepare? && n > 0
    ensures Inv(Started(r, online), n)
  {
    if MayStart(r, online) {
      var s := Started(r, online);
      StatusInside(r, s);
      assert s.seats[0].status == SORT;
      assert forall k :: 0 <= k < n ==> r.seats[k].status == READY;
    }
  }

  lemma ReadyInv(r: Room, n: nat, cuid: Cuid, ready: bool, online: set<nat>)
    requires Inv(r, n) && n > 0 && cuid in r.inside
    ensures Inv(MadeReady(r, cuid, ready, online), n)
  {
    var k := SeatOf(r.seats, cuid);
    if r.phase.Prepare? {
      assert Seated(r.seats, cuid);
      var s := r.(seats := r.seats[k := r.seats[k].(status := if ready then READY else PREP)]);
      StatusInside(r, s);
      assert Inv(s, n);
      FirstRoundInv(s, n, online);
    }
  }

  // A settled round adds one zero-sum entry; the next one starts unless it was the last.
  lemma SettledInv(r: Room, n: nat, online: set<nat>, now: int, scores: Scores)
    requires 0 < |r.seats| == n && r.phase.Play? && AllVote(r.seats, VT_NONE)
    requires 0 < r.rounds <= LastRound(r.configured) && |r.ledger| == r.rounds - 1
    requires LedgerOk(r.ledger, n) && 0 !in r.inside && (forall c :: c in r.inside ==> Seated(r.seats, c))
    requires AllAt(r.seats, COMPARE)
    ensures var s := Settled(r, scores, now);
      Inv(if s.phase.Settle? then Started(s, online) else s, n)
  {
    RoundIsZeroSum(scores, n);
    var s := Settled(r, scores, now);
    var t := Started(s, online);
    StatusInside(r, t);
    assert t.phase.Play? ==> t.seats[0].status == SORT;
  }

  lemma BroughtOutInv(r: Room, n: nat, cuid: Cuid, cards: nat, online: set<nat>, now: int, scores: Scores)
    requires Inv(r, n) && cuid in r.inside
    ensures Inv(BroughtOut(r, cuid, cards, online, now, scores), n)
  {
    var k := SeatOf(r.seats, cuid);
    if r.phase.Play? {
      assert Seated(r.seats, cuid);
      if r.seats[k].status == SORT && cards == HAND {
        var s := r.(seats := r.seats[k := r.seats[k].(status := COMPARE)]);
        StatusInside(r, s);
        if AllAt(s.seats, COMPARE) { SettledInv(s, n, online, now, scores); }
      }
    }
  }

  // Counting restores the vote: no ballot against is left, nor a full set of ballots in favour.
  lemma CountedInv(r: Room, n: nat, online: set<nat>)
    requires |r.seats| == n && r.phase.Vote? && 0 <= r.rounds <= LastRound(r.configured)
    requires LedgerOk(r.ledger, n) && |r.ledger| == r.rounds - 1
    requires 0 !in r.inside && (forall c :: c in r.inside ==> Seated(r.seats, c)) && Playing(r)
    ensures Inv(Counted(r, online), n)
  {
    hide Playing, Seated, Opposed;
    if Opposed(r.seats) {
      ClearedInv(r, n, Counted(r, online));
    } else {
      assert forall k :: 0 <= k < n ==> r.seats[k].cuid != 0 by { PlayersThere(r); }
      NoNay(r.seats, n);
    }
  }

  lemma PlayersThere(r: Room)
    requires Playing(r)
    ensures forall k :: 0 <= k < |r.seats| ==> r.seats[k].cuid != 0
  {
  }

  lemma ClearedInv(r: Room, n: nat, s: Room)
    requires |r.seats| == n && s.seats == WithoutVotes(r.seats) && s.inside == r.inside
    requires Playing(r) && (forall c :: c in r.inside ==> Seated(r.seats, c))
    ensures Playing(s) && (forall c :: c in s.inside ==> Seated(s.seats, c))
  {
    StatusInside(r, s);
    var k :| 0 <= k < n && r.seats[k].status == SORT;
    assert s.seats[k].status == SORT;
  }

  lemma {:induction false} NoNay(seats: seq<Seat>, m: nat)
    requires m <= |seats| && (forall k :: 0 <= k < |seats| ==> seats[k].cuid != 0) && !Opposed(seats)
    ensures forall k :: 0 <= k < m ==> seats[k].vote != VT_NAY
  {
    if m > 0 { NoNay(seats, m - 1); }
  }

  lemma BallotInv(r: Room, n: nat, k: nat, vote: int, s: Room)
    requires Inv(r, n) && (r.phase.Play? || r.phase.Vote?) && k < n
    requires s.seats == r.seats[k := r.seats[k].(vote := vote)] && s.inside == r.inside
    ensures Playing(s) && (forall c :: c in s.inside ==> Seated(s.seats, c))
  {
    StatusInside(r, s);
    var j :| 0 <= j < n && r.seats[j].status == SORT;
    assert s.seats[j].status == SORT;
  }

  lemma GaveUpInv(r: Room, n: nat, cuid: Cuid, online: set<nat>, now: int)
    requires Inv(r, n)
    ensures Inv(GaveUp(r, cuid, online, now), n)
  {
    hide Playing, Voting, Filling, Seated, LedgerOk, Counted, Removed, Aborted;
    var k := SeatOf(r.seats, cuid);
    if k < |r.seats| {
      match r.phase
      case Prepare => AbortedInv(r, n, online); RemovedInv(r, n, cuid);
      case Play =>
        var s := r.(voteSince := now, sponsor := cuid, phase := Vote,
                    seats := r.seats[k := r.seats[k].(vote := VT_AYE)]);
        BallotInv(r, n, k, VT_AYE, s);
        CountedInv(s, n, online);
      case Vote =>
        var s := r.(seats := r.seats[k := r.seats[k].(vote := VT_AYE)]);
        BallotInv(r, n, k, VT_AYE, s);
        CountedInv(s, n, online);
      case SettleAll => RemovedInv(r, n, cuid);
      case Closed =>
    }
  }

  lemma VotedInv(r: Room, n: nat, cuid: Cuid, vote: int, online: set<nat>)
    requires Inv(r, n) && cuid in r.inside
    ensures Inv(Voted(r, cuid, vote, online), n)
  {
    var k := SeatOf(r.seats, cuid);
    if r.phase.Vote? {
      assert Seated(r.seats, cuid);
      var s := r.(seats := r.seats[k := r.seats[k].(vote := vote)]);
      BallotInv(r, n, k, vote, s);
      if vote == VT_NONE {
        assert s.seats[k].vote != VT_AYE;
      } else {
        CountedInv(s, n, online);
      }
    }
  }

  lemma TickedInv(r: Room, n: nat, online: set<nat>, now: int)
    requires Inv(r, n) && n > 0
    ensures Inv(Ticked(r, online, now), n)
  {
    if r.phase.Prepare? { FirstRoundInv(r, n, online); }
  }

  lemma StepInv(r: Room, n: nat, e: Event)
    requires Inv(r, n) && n > 0
    ensures Inv(Step(r, e), n)
  {
    hide Inv, Entered, GaveUp, Voted, MadeReady, BroughtOut, Ticked;
    match e.message
    case Enter(c, elsewhere, affords) => EnteredInv(r, n, c, elsewhere, affords);
    case GiveUp(c) => GaveUpInv(r, n, c, e.online, e.now);
    case VoteFor(c, vote) => if c in r.inside { VotedInv(r, n, c, vote, e.online); }
    case SetReady(c, ready) => if c in r.inside { ReadyInv(r, n, c, ready, e.online); }
    case BringOut(c, cards) => if c in r.inside { BroughtOutInv(r, n, c, cards, e.online, e.now, e.scores); }
    case Online(c) => OutsideInv(r, n, {c});
    case Released(cs) => OutsideInv(r, n, cs);
    case Tick => TickedInv(r, n, e.online, e.now);
  }

  lemma OutsideInv(r: Room, n: nat, cs: set<nat>)
    requires Inv(r, n)
    ensures Inv(r.(inside := r.inside - cs), n)
  {
  }

  lemma {:induction false} RunInv(r: Room, n: nat, events: seq<Event>)
    requires Inv(r, n) && n > 0
    ensures Inv(Run(r, events), n)
    decreases |events|
  {
    hide Inv, Step;
    if events != [] {
      RunInv(r, n, events[..|events| - 1]);
      StepInv(Run(r, events[..|events| - 1]), n, events[|events| - 1]);
    }
  }
}
