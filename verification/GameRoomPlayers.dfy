/** Who sits in the room of GameRoom.dfy: how clients enter, which seats keep a game from starting,
    and when the players of a game are distinct clients that are recorded in the room. */
module GameRoomPlayers {
  import opened Common
  import opened GameLedger
  import opened GameRoom
  import opened GameRoomTheorems

  // Seat k is the first one of its holder.
  predicate First(seats: seq<Seat>, k: nat)
    requires k < |seats|
  {
    forall j :: 0 <= j < k ==> seats[j].cuid != seats[k].cuid
  }

  lemma FirstSeat(seats: seq<Seat>, k: nat)
    requires k < |seats|
    ensures First(seats, k) <==> SeatOf(seats, seats[k].cuid) == k
  {
  }

  // ---------------------------------------------------------------- entering

  // Seat k, the first free one, goes to client c.
  predicate TakesSeat(before: seq<Seat>, after: seq<Seat>, k: nat, c: Cuid) {
    && k < |before| && before[k].cuid == 0 && First(before, k)
    && after == before[k := Seat(c, PREP, VT_NONE)]
  }

  predicate Comes(r: Room, c: Cuid, elsewhere: bool) {
    !elsewhere && c !in r.inside && r.phase.Prepare? && Seated(r.seats, 0)
  }

  // A newcomer takes the first free seat of a waiting room and nothing else changes. The seat is
  // taken before the money is looked at, so a client that is turned away keeps it.
  lemma EntersExactly(r: Room, n: nat, c: Cuid, elsewhere: bool, affords: bool)
    requires Inv(r, n)
    ensures var s := Entered(r, c, elsewhere, affords);
      && s == r.(seats := s.seats, inside := s.inside)
      && s.inside == (if Comes(r, c, elsewhere) && affords then r.inside + {c} else r.inside)
      && (!Comes(r, c, elsewhere) ==> s.seats == r.seats)
      && (Comes(r, c, elsewhere) ==> exists k :: TakesSeat(r.seats, s.seats, k, c))
  {
    var k := SeatOf(r.seats, 0);
    assert k < |r.seats| ==> Seated(r.seats, 0);
    if Comes(r, c, elsewhere) {
      assert TakesSeat(r.seats, Entered(r, c, elsewhere, affords).seats, k, c);
    }
  }

  // ---------------------------------------------------------------- seats that cannot become ready

  // Seat k is not ready, and its holder's ready flag cannot reach it.
  predicate Stuck(r: Room, k: nat) {
    && k < |r.seats| && r.seats[k].cuid != 0 && r.seats[k].status != READY
    && (r.seats[k].cuid !in r.inside || !First(r.seats, k))
  }

  // Client c holds such a seat in a waiting room, or the room is closed.
  predicate Blocks(r: Room, c: Cuid) {
    r.phase.Closed? || (r.phase.Prepare? && exists k :: 0 <= k < |r.seats| && Stuck(r, k) && r.seats[k].cuid == c)
  }

  // A client that is turned away blocks the room.
  lemma TurnedAwayBlocks(r: Room, n: nat, c: Cuid, elsewhere: bool)
    requires Inv(r, n) && Comes(r, c, elsewhere)
    ensures Blocks(Entered(r, c, elsewhere, false), c)
  {
    var k := SeatOf(r.seats, 0);
    assert k < |r.seats|;
    assert Stuck(Entered(r, c, elsewhere, false), k);
  }

  // Nothing that a message does makes a stuck seat ready or gives it back, except closing the room.
  lemma BlocksOn(r: Room, n: nat, c: Cuid, e: Event)
    requires Inv(r, n) && n > 0 && Blocks(r, c)
    ensures Blocks(Step(r, e), c)
  {
    if r.phase.Closed? {
      OverMeansOver(r, n, e);
    } else {
      var k :| 0 <= k < |r.seats| && Stuck(r, k) && r.seats[k].cuid == c;
      StartsExactly(r, n, e);
      assert !Starter(r, e) by { StuckStops(r, n, k, e); }
      if Step(r, e).phase.Prepare? { StaysStuck(r, n, k, e); }
    }
  }

  lemma StuckStops(r: Room, n: nat, k: nat, e: Event)
    requires Inv(r, n) && r.phase.Prepare? && Stuck(r, k)
    ensures !Starter(r, e)
  {
    FirstSeat(r.seats, k);
    hide Filling, LedgerOk, AllVote, Seated;
  }

  // The seat that stays stuck is k, or the one its holder takes when it enters once more.
  lemma StaysStuck(r: Room, n: nat, k: nat, e: Event)
    requires Inv(r, n) && r.phase.Prepare? && Stuck(r, k) && Step(r, e).phase.Prepare?
    ensures Blocks(Step(r, e), r.seats[k].cuid)
  {
    var s, c := Step(r, e), r.seats[k].cuid;
    FirstSeat(r.seats, k);
    if e.message.Enter? {
      EntersAgain(r, n, k, e.message.cuid, e.message.elsewhere, e.message.affords);
    } else {
      hide Filling, LedgerOk, AllVote, Seated, AllAt, AllOnline;
      assert s.seats[k] == r.seats[k];
      if !First(r.seats, k) {
        var j :| 0 <= j < k && r.seats[j].cuid == c;
        assert s.seats[j].cuid == c || c !in s.inside;
      }
      assert Stuck(s, k);
    }
  }

  lemma EntersAgain(r: Room, n: nat, k: nat, c: Cuid, elsewhere: bool, affords: bool)
    requires Inv(r, n) && r.phase.Prepare? && Stuck(r, k)
    ensures Blocks(Entered(r, c, elsewhere, affords), r.seats[k].cuid)
  {
    var s, m := Entered(r, c, elsewhere, affords), SeatOf(r.seats, 0);
    if s == r || m == |r.seats| {
      assert Stuck(s, k);
    } else {
      assert s.seats[k] == r.seats[k] && s.seats[m].cuid == c;
      assert k != m;
      if k < m && First(r.seats, k) && c == r.seats[k].cuid {
        assert Stuck(s, m);
      } else {
        if !First(r.seats, k) {
          var j :| 0 <= j < k && r.seats[j].cuid == r.seats[k].cuid;
          assert s.seats[j].cuid == r.seats[k].cuid;
        }
        assert Stuck(s, k);
      }
    }
  }

  // So a game in which somebody was turned away never starts, whatever anybody does.
  lemma {:induction false} BlockedForGood(r: Room, n: nat, c: Cuid, events: seq<Event>)
    requires Inv(r, n) && n > 0 && Blocks(r, c)
    ensures Run(r, events).phase.Prepare? || Run(r, events).phase.Closed?
    ensures Blocks(Run(r, events), c)
    decreases |events|
  {
    hide Inv, Step, Stuck;
    if events != [] {
      var before := events[..|events| - 1];
      BlockedForGood(r, n, c, before);
      RunInv(r, n, before);
      BlocksOn(Run(r, before), n, c, events[|events| - 1]);
    }
  }

  // ---------------------------------------------------------------- when a game can still start

  lemma {:induction false} RunAppend(r: Room, a: seq<Event>, b: seq<Event>)
    ensures Run(r, a + b) == Run(Run(r, a), b)
    decreases |b|
  {
    hide Step;
    if b == [] {
      assert a + b == a;
    } else {
      assert (a + b)[..|a + b| - 1] == a + b[..|b| - 1];
      RunAppend(r, a, b[..|b| - 1]);
    }
  }

  lemma RunOne(r: Room, e: Event)
    ensures Run(r, [e]) == Step(r, e)
  {
    assert [e][..0] == [];
  }

  ghost predicate Startable(r: Room) {
    exists events :: Run(r, events).phase.Play?
  }

  predicate NoneStuck(r: Room) {
    forall k :: 0 <= k < |r.seats| ==> !Stuck(r, k)
  }

  // A waiting room can still be brought to start if and only if nobody blocks it: then the free
  // seats can be taken by new clients and every holder can make its seat ready.
  lemma StartableExactly(r: Room, n: nat)
    requires Inv(r, n) && n > 0 && r.phase.Prepare?
    ensures Startable(r) <==> forall c: Cuid :: !Blocks(r, c)
  {
    if c: Cuid :| Blocks(r, c) {
      forall events ensures !Run(r, events).phase.Play? { BlockedForGood(r, n, c, events); }
    } else {
      forall k | 0 <= k < n ensures !Stuck(r, k) {
        if Stuck(r, k) {
          var c: Cuid := r.seats[k].cuid;
          assert Blocks(r, c);
        }
      }
      var events := FillAndStart(r, n, 0);
    }
  }

  // The seats below k are ready; a run that makes the others ready and starts the game.
  lemma {:induction false} FillAndStart(r: Room, n: nat, k: nat) returns (events: seq<Event>)
    requires Inv(r, n) && n > 0 && r.phase.Prepare? && NoneStuck(r)
    requires k <= n && forall j :: 0 <= j < k ==> r.seats[j].status == READY
    ensures Run(r, events).phase.Play?
    decreases n - k
  {
    if k == n {
      events := [StartingTick(r)];
      RunOne(r, events[0]);
      AllReadyStarts(r, n);
    } else if r.seats[k].status == READY {
      events := FillAndStart(r, n, k + 1);
    } else {
      var first, s := MakeReady(r, n, k);
      var rest := FillAndStart(s, n, k + 1);
      events := first + rest;
      RunAppend(r, first, rest);
    }
  }

  function NoScores(w: nat, l: nat): Option<Score> { None }

  function StartingTick(r: Room): Event {
    Event(Tick, set k | 0 <= k < |r.seats| :: r.seats[k].cuid, 0, NoScores)
  }

  lemma AllReadyStarts(r: Room, n: nat)
    requires Inv(r, n) && r.phase.Prepare? && forall j :: 0 <= j < n ==> r.seats[j].status == READY
    ensures Step(r, StartingTick(r)).phase.Play?
  {
  }

  // Seat k becomes ready: its holder says so, or a new client takes it and then says so.
  lemma MakeReady(r: Room, n: nat, k: nat) returns (events: seq<Event>, s: Room)
    requires Inv(r, n) && n > 0 && r.phase.Prepare? && NoneStuck(r) && k < n && r.seats[k].status != READY
    requires forall j :: 0 <= j < k ==> r.seats[j].status == READY
    ensures s == Run(r, events) && Inv(s, n) && s.phase.Prepare? && NoneStuck(s)
    ensures forall j :: 0 <= j <= k ==> s.seats[j].status == READY
  {
    if r.seats[k].cuid == 0 {
      var c := NewClient(r);
      var e := Event(Enter(c, false, true), {}, 0, NoScores);
      var m := Step(r, e);
      StepInv(r, n, e);
      TakesFreeSeat(r, n, k, c);
      var f := Event(SetReady(c, true), {}, 0, NoScores);
      SaysReady(m, n, k, c);
      StepInv(m, n, f);
      events, s := [e, f], Step(m, f);
      RunOne(r, e);
      RunOne(m, f);
      RunAppend(r, [e], [f]);
      assert [e] + [f] == [e, f];
    } else {
      var c: Cuid := r.seats[k].cuid;
      assert !Stuck(r, k);
      var f := Event(SetReady(c, true), {}, 0, NoScores);
      SaysReady(r, n, k, c);
      StepInv(r, n, f);
      events, s := [f], Step(r, f);
      RunOne(r, f);
    }
  }

  lemma NewClient(r: Room) returns (c: Cuid)
    ensures c !in r.inside && !Seated(r.seats, c)
  {
    var taken := r.inside + set k | 0 <= k < |r.seats| :: r.seats[k].cuid;
    c := NotIn(taken);
    forall k | 0 <= k < |r.seats| ensures r.seats[k].cuid != c { assert r.seats[k].cuid in taken; }
  }

  lemma {:induction false} NotIn(s: set<nat>) returns (c: Cuid)
    ensures forall x <- s :: x < c
    decreases |s|
  {
    if s == {} {
      c := 1;
    } else {
      var x :| x in s;
      var d := NotIn(s - {x});
      c := if x < d then d else x + 1;
      forall y | y in s ensures y < c {
        if y != x { assert y in s - {x}; }
      }
    }
  }

  lemma TakesFreeSeat(r: Room, n: nat, k: nat, c: Cuid)
    requires Inv(r, n) && r.phase.Prepare? && NoneStuck(r) && k < n && r.seats[k].cuid == 0
    requires forall j :: 0 <= j < k ==> r.seats[j].status == READY
    requires c !in r.inside && !Seated(r.seats, c)
    ensures var m := Entered(r, c, false, true);
      && m.phase.Prepare? && m.seats == r.seats[k := Seat(c, PREP, VT_NONE)] && c in m.inside && First(m.seats, k)
      && NoneStuck(m)
  {
    var m := Entered(r, c, false, true);
    assert SeatOf(r.seats, 0) == k;
    forall j | 0 <= j < n ensures !Stuck(m, j) {
      if j != k { assert m.seats[j] == r.seats[j] && !Stuck(r, j); }
    }
  }

  // With nobody online the flag of seat k's holder starts nothing yet.
  lemma SaysReady(r: Room, n: nat, k: nat, c: Cuid)
    requires Inv(r, n) && n > 0 && r.phase.Prepare? && NoneStuck(r) && k < n
    requires r.seats[k].cuid == c && r.seats[k].status != READY && c in r.inside && First(r.seats, k)
    ensures var s := Step(r, Event(SetReady(c, true), {}, 0, NoScores));
      && s.phase.Prepare? && s.seats == r.seats[k := r.seats[k].(status := READY)] && NoneStuck(s)
  {
    FirstSeat(r.seats, k);
    var s := r.(seats := r.seats[k := r.seats[k].(status := READY)]);
    assert s.seats[0].cuid !in {};
    assert !AllOnline(s.seats, {});
    forall j | 0 <= j < n ensures !Stuck(s, j) {
      if j != k {
        assert !Stuck(r, j);
        assert First(r.seats, j) ==> First(s.seats, j);
      }
    }
  }

  // The shortest such history: one client comes, is turned away, and the room is lost.
  lemma LostRoom(owner: Cuid, c: Cuid)
    ensures var r := Run(NewRoom(owner, 1, 1), [Event(Enter(c, false, false), {}, 0, NoScores)]);
      Blocks(r, c) && r.phase.Prepare? && !Startable(r)
  {
    var r, e := NewRoom(owner, 1, 1), Event(Enter(c, false, false), {}, 0, NoScores);
    InitInv(owner, 1, 1);
    RunOne(r, e);
    assert r.seats[0].cuid == 0;
    TurnedAwayBlocks(r, 1, c, false);
    StepInv(r, 1, e);
    StartableExactly(Step(r, e), 1);
  }

  // ---------------------------------------------------------------- distinct and recorded players

  // The seats that matter in a phase: ready ones, then all, at the end those still taken.
  predicate Matters(r: Room, k: nat)
    requires k < |r.seats|
  {
    match r.phase
    case Prepare => r.seats[k].status == READY
    case Play => true
    case Vote => true
    case Settle => true
    case SettleAll => r.seats[k].cuid != 0
    case Closed => false
  }

  // Such a seat is the only one of its holder, or its first while others come and go, and its
  // holder is recorded in the room.
  predicate Tidy(r: Room) {
    forall k :: 0 <= k < |r.seats| && Matters(r, k) ==> r.seats[k].cuid in r.inside && First(r.seats, k)
  }

  // Somebody who holds a seat that matters has the room number reset from outside.
  predicate Harms(r: Room, e: Event) {
    e.message.Released? && exists k :: 0 <= k < |r.seats| && Matters(r, k) && r.seats[k].cuid in e.message.cuids
  }

  lemma NewRoomTidy(owner: Cuid, configured: int, n: nat)
    ensures Tidy(NewRoom(owner, configured, n))
  {
  }

  // In a tidy game no client sits twice and the players are exactly the recorded clients.
  lemma TidyPlayers(r: Room, n: nat)
    requires Inv(r, n) && Tidy(r) && (r.phase.Play? || r.phase.Vote?)
    ensures forall j, k :: 0 <= j < k < n ==> r.seats[j].cuid != r.seats[k].cuid
    ensures r.inside == set k | 0 <= k < n :: r.seats[k].cuid
  {
    forall c | c in r.inside ensures exists k :: 0 <= k < n && r.seats[k].cuid == c {
      assert Seated(r.seats, c);
    }
  }

  // One message keeps a room tidy if and only if it is no such reset.
  lemma TidyExactly(r: Room, n: nat, e: Event)
    requires Inv(r, n) && n > 0 && Tidy(r)
    ensures Tidy(Step(r, e)) <==> !Harms(r, e)
  {
    match e.message
    case Enter(c, elsewhere, affords) => EnteredTidy(r, n, c, elsewhere, affords);
    case GiveUp(c) => if c in r.inside { GaveUpTidy(r, n, c, e.online, e.now); }
    case VoteFor(c, vote) => if c in r.inside { VotedTidy(r, n, c, vote, e.online); }
    case SetReady(c, ready) => if c in r.inside { ReadyTidy(r, n, c, ready, e.online); }
    case BringOut(c, cards) => if c in r.inside { BroughtOutTidy(r, n, c, cards, e); }
    case Online(c) =>
    case Released(cs) => ReleasedTidy(r, n, cs);
    case Tick => TickedTidy(r, n, e.online, e.now);
  }

  lemma SamePlayers(a: Room, b: Room)
    requires Tidy(a) && a.inside == b.inside && |a.seats| == |b.seats|
    requires forall k :: 0 <= k < |a.seats| ==>
      a.seats[k].cuid == b.seats[k].cuid && (Matters(b, k) ==> Matters(a, k))
    ensures Tidy(b)
  {
    forall k | 0 <= k < |b.seats| && Matters(b, k) ensures b.seats[k].cuid in b.inside && First(b.seats, k) {
      assert First(a.seats, k);
    }
  }

  lemma EnteredTidy(r: Room, n: nat, c: Cuid, elsewhere: bool, affords: bool)
    requires Inv(r, n) && Tidy(r)
    ensures Tidy(Entered(r, c, elsewhere, affords))
  {
    var s, m := Entered(r, c, elsewhere, affords), SeatOf(r.seats, 0);
    if s != r {
      forall k | 0 <= k < n && Matters(s, k) ensures s.seats[k].cuid in s.inside && First(s.seats, k) {
        assert s.seats[k] == r.seats[k] && Matters(r, k) && First(r.seats, k);
      }
    }
  }

  lemma RemovedTidy(r: Room, n: nat, c: Cuid)
    requires Inv(r, n) && Tidy(r) && (r.phase.Prepare? || r.phase.SettleAll?)
    ensures Tidy(Removed(r, c))
  {
    var s, m := Removed(r, c), SeatOf(r.seats, c);
    forall k | 0 <= k < n && Matters(s, k) ensures s.seats[k].cuid in s.inside && First(s.seats, k) {
      assert Matters(r, k) && First(r.seats, k);
      FirstSeat(r.seats, k);
    }
  }

  lemma GaveUpTidy(r: Room, n: nat, c: Cuid, online: set<nat>, now: int)
    requires Inv(r, n) && Tidy(r)
    ensures Tidy(GaveUp(r, c, online, now))
  {
    var s := GaveUp(r, c, online, now);
    match r.phase
    case Prepare => RemovedTidy(r, n, c);
    case SettleAll => RemovedTidy(r, n, c);
    case Play => if !s.phase.Closed? { SamePlayers(r, s); }
    case Vote => if !s.phase.Closed? { SamePlayers(r, s); }
    case Closed =>
  }

  lemma VotedTidy(r: Room, n: nat, c: Cuid, vote: int, online: set<nat>)
    requires Inv(r, n) && Tidy(r) && c in r.inside
    ensures Tidy(Voted(r, c, vote, online))
  {
    var s := Voted(r, c, vote, online);
    if r.phase.Vote? && !s.phase.Closed? {
      assert Seated(r.seats, c);
      SamePlayers(r, s);
    }
  }

  lemma ReadyTidy(r: Room, n: nat, c: Cuid, ready: bool, online: set<nat>)
    requires Inv(r, n) && Tidy(r) && c in r.inside
    ensures Tidy(MadeReady(r, c, ready, online))
  {
    if r.phase.Prepare? {
      assert Seated(r.seats, c);
      var m := SeatOf(r.seats, c);
      var s := r.(seats := r.seats[m := r.seats[m].(status := if ready then READY else PREP)]);
      FirstSeat(r.seats, m);
      forall k | 0 <= k < n && Matters(s, k) ensures s.seats[k].cuid in s.inside && First(s.seats, k) {
        assert k != m ==> Matters(r, k);
        assert First(r.seats, k);
      }
      StartedTidy(s, online);
    }
  }

  lemma StartedTidy(r: Room, online: set<nat>)
    requires Tidy(r) && (r.phase.Prepare? || r.phase.Settle?)
    ensures Tidy(Started(r, online))
  {
    if MayStart(r, online) { SamePlayers(r, Started(r, online)); }
  }

  lemma BroughtOutTidy(r: Room, n: nat, c: Cuid, cards: nat, e: Event)
    requires Inv(r, n) && Tidy(r) && c in r.inside
    ensures Tidy(BroughtOut(r, c, cards, e.online, e.now, e.scores))
  {
    if r.phase.Play? {
      assert Seated(r.seats, c);
      SamePlayers(r, BroughtOut(r, c, cards, e.online, e.now, e.scores));
    }
  }

  lemma TickedTidy(r: Room, n: nat, online: set<nat>, now: int)
    requires Inv(r, n) && Tidy(r)
    ensures Tidy(Ticked(r, online, now))
  {
    if r.phase.Prepare? { StartedTidy(r, online); }
  }

  lemma ReleasedTidy(r: Room, n: nat, cs: set<nat>)
    requires Inv(r, n) && Tidy(r)
    ensures Tidy(r.(inside := r.inside - cs))
      <==> !exists k :: 0 <= k < |r.seats| && Matters(r, k) && r.seats[k].cuid in cs
  {
    var s := r.(inside := r.inside - cs);
    assert forall k :: 0 <= k < |r.seats| ==> (Matters(s, k) <==> Matters(r, k));
  }

  predicate TidyAfter(r: Room, events: seq<Event>) { Tidy(Run(r, events)) }

  predicate HarmlessAfter(r: Room, events: seq<Event>, e: Event) { !Harms(Run(r, events), e) }

  // A room is tidy all along a run if and only if no such reset happens in it.
  lemma {:induction false} TidyRuns(r: Room, n: nat, events: seq<Event>)
    requires Inv(r, n) && n > 0 && Tidy(r)
    ensures Along(events, es => TidyAfter(r, es)) <==> Each(events, (es, e) => HarmlessAfter(r, es, e))
    decreases |events|
  {
    hide Inv, Step, Tidy, Harms;
    var P := es => TidyAfter(r, es);
    var Q := (es, e) => HarmlessAfter(r, es, e);
    if events == [] {
      assert events[..0] == [] && P([]);
    } else {
      hide Along, Each;
      var before, e := events[..|events| - 1], events[|events| - 1];
      TidyRuns(r, n, before);
      RunInv(r, n, before);
      assert before + [e] == events;
      AlongSnoc(before, e, P);
      EachSnoc(before, e, Q);
      assert Q(before, e) <==> !Harms(Run(r, before), e);
      assert P(events) <==> Tidy(Step(Run(r, before), e));
      assert P(before) <==> Tidy(Run(r, before));
      if Tidy(Run(r, before)) { TidyExactly(Run(r, before), n, e); }
    }
  }

  // In particular from a new room on.
  lemma TidyFromNew(owner: Cuid, configured: int, n: nat, events: seq<Event>)
    requires n > 0
    ensures var r := NewRoom(owner, configured, n);
      Along(events, es => TidyAfter(r, es)) <==> Each(events, (es, e) => HarmlessAfter(r, es, e))
  {
    InitInv(owner, configured, n);
    NewRoomTidy(owner, configured, n);
    TidyRuns(NewRoom(owner, configured, n), n, events);
  }
}
