/** All rooms of the lobby together. A client records the number of one room at most; a room that
    closes resets that number for everyone who is online and holds a seat in it, even if the number
    names another room (processes/lobby/game13.cpp:552-565, processes/lobby/client_manager.cpp:15-17). */
module GameLobby {
  import opened Common
  import opened GameLedger
  import opened GameRoom
  import opened GameRoomTheorems
  import opened GameRoomPlayers

  type Size = x: nat | x > 0 witness 1

  datatype Lobby = Lobby(rooms: seq<Room>, sizes: seq<Size>)

  // A client opens a room, or sends a message to one; a tick comes to a room like a message. A client
  // whose number names a room that is gone has it reset when it comes online or sends a message.
  datatype Act =
    | Create(owner: Cuid, configured: int, size: Size, affords: bool)
    | Deliver(room: nat, event: Event)
    | Forget(room: nat, cuid: Cuid)

  const NO_ROOMS := Lobby([], [])

  predicate RecordedBut(l: Lobby, c: nat, but: nat) {
    exists j :: 0 <= j < |l.rooms| && j != but && c in l.rooms[j].inside
  }

  // Whether the sender is recorded in another room is for the lobby to say. Resets from outside a
  // room that is still open come from the other rooms only.
  function Addressed(l: Lobby, i: nat, e: Event): Event {
    match e.message
    case Enter(c, _, affords) => e.(message := Enter(c, RecordedBut(l, c, i), affords))
    case GiveUp(_) => e
    case VoteFor(_, _) => e
    case SetReady(_, _) => e
    case BringOut(_, _) => e
    case Online(_) => e
    case Released(_) => e.(message := Released({}))
    case Tick => e
  }

  // The clients whose numbers this step of a room resets.
  function LetGo(r: Room, s: Room): set<nat> {
    if !r.phase.Closed? && s.phase.Closed? then s.letGo else {}
  }

  function Delivered(l: Lobby, i: nat, e: Event): Lobby
    requires i < |l.rooms|
  {
    var r := l.rooms[i];
    var s := Step(r, Addressed(l, i, e));
    l.(rooms := seq(|l.rooms|, j requires 0 <= j < |l.rooms| =>
      if j == i then s else Step(l.rooms[j], Reset(LetGo(r, s)))))
  }

  function Reset(cs: set<nat>): Event {
    Event(Released(cs), {}, 0, NoScores)
  }

  function Opened(owner: Cuid, configured: int, size: Size, affords: bool): Room {
    Entered(NewRoom(owner, configured, size), owner, false, affords)
  }

  function LobbyStep(l: Lobby, a: Act): Lobby {
    match a
    case Create(owner, configured, size, affords) =>
      if RecordedBut(l, owner, |l.rooms|) then l
      else Lobby(l.rooms + [Opened(owner, configured, size, affords)], l.sizes + [size])
    case Deliver(i, e) => if i < |l.rooms| then Delivered(l, i, e) else l
    case Forget(i, c) =>
      if i < |l.rooms| && l.rooms[i].phase.Closed? then With(l, i, Step(l.rooms[i], Reset({c}))) else l
  }

  // The lobby with another room i.
  function With(l: Lobby, i: nat, r: Room): Lobby
    requires i < |l.rooms|
  {
    l.(rooms := l.rooms[i := r])
  }

  function LobbyRun(l: Lobby, acts: seq<Act>): Lobby {
    if acts == [] then l else LobbyStep(LobbyRun(l, acts[..|acts| - 1]), acts[|acts| - 1])
  }

  // ---------------------------------------------------------------- every room, every run

  predicate Apart(l: Lobby) {
    forall i, j :: 0 <= i < j < |l.rooms| ==> l.rooms[i].inside !! l.rooms[j].inside
  }

  predicate LobbyInv(l: Lobby) {
    |l.sizes| == |l.rooms| && Apart(l) && forall i :: 0 <= i < |l.rooms| ==> Inv(l.rooms[i], l.sizes[i])
  }

  // A step of a room records nobody but a newcomer.
  lemma OnlyNewcomers(r: Room, n: nat, e: Event)
    requires Inv(r, n) && n > 0
    ensures forall c <- Step(r, e).inside :: c in r.inside || (e.message.Enter? && c == e.message.cuid && !e.message.elsewhere)
  {
  }

  lemma OpenedInv(owner: Cuid, configured: int, size: Size, affords: bool)
    ensures Inv(Opened(owner, configured, size, affords), size)
    ensures Opened(owner, configured, size, affords).inside <= {owner}
  {
    InitInv(owner, configured, size);
    EnteredInv(NewRoom(owner, configured, size), size, owner, false, affords);
    EntersExactly(NewRoom(owner, configured, size), size, owner, false, affords);
  }

  // In every lobby each room keeps its invariant and nobody is recorded in two rooms.
  lemma LobbyStepInv(l: Lobby, a: Act)
    requires LobbyInv(l)
    ensures LobbyInv(LobbyStep(l, a))
  {
    hide Inv, Step, Opened;
    match a
    case Create(owner, configured, size, affords) =>
      OpenedInv(owner, configured, size, affords);
    case Deliver(i, e) =>
      if i < |l.rooms| { DeliveredInv(l, i, e); }
    case Forget(i, c) =>
      if i < |l.rooms| { ForgottenInv(l, i, c); }
  }

  lemma ForgottenInv(l: Lobby, i: nat, c: Cuid)
    requires LobbyInv(l) && i < |l.rooms|
    ensures LobbyInv(With(l, i, Step(l.rooms[i], Reset({c}))))
  {
    hide Inv, Step;
    StepInv(l.rooms[i], l.sizes[i], Reset({c}));
    ResetDoes(l.rooms[i], {c});
  }

  lemma DeliveredInv(l: Lobby, i: nat, e: Event)
    requires LobbyInv(l) && i < |l.rooms|
    ensures LobbyInv(Delivered(l, i, e))
  {
    hide Inv, Step;
    var t := Delivered(l, i, e);
    var f := Addressed(l, i, e);
    StepInv(l.rooms[i], l.sizes[i], f);
    OnlyNewcomers(l.rooms[i], l.sizes[i], f);
    var gone := LetGo(l.rooms[i], t.rooms[i]);
    forall j | 0 <= j < |l.rooms| && j != i ensures Inv(t.rooms[j], l.sizes[j]) && t.rooms[j].inside <= l.rooms[j].inside {
      StepInv(l.rooms[j], l.sizes[j], Reset(gone));
      OnlyNewcomers(l.rooms[j], l.sizes[j], Reset(gone));
    }
    forall j | 0 <= j < |l.rooms| && j != i ensures t.rooms[i].inside !! t.rooms[j].inside {
      forall c | c in l.rooms[j].inside ensures c !in t.rooms[i].inside {
        assert RecordedBut(l, c, i);
        assert l.rooms[i].inside !! l.rooms[j].inside by {
          if i < j { assert l.rooms[i].inside !! l.rooms[j].inside; } else { assert l.rooms[j].inside !! l.rooms[i].inside; }
        }
      }
    }
  }

  lemma {:induction false} LobbyRunInv(acts: seq<Act>)
    ensures LobbyInv(LobbyRun(NO_ROOMS, acts))
    decreases |acts|
  {
    hide LobbyStep;
    if acts != [] {
      LobbyRunInv(acts[..|acts| - 1]);
      LobbyStepInv(LobbyRun(NO_ROOMS, acts[..|acts| - 1]), acts[|acts| - 1]);
    }
  }

  // ---------------------------------------------------------------- when all players are in place

  // Every taken seat is the only one of its holder, who is recorded here.
  predicate Kept(r: Room) {
    !r.phase.Closed? ==>
      forall k :: 0 <= k < |r.seats| && r.seats[k].cuid != 0 ==> r.seats[k].cuid in r.inside && First(r.seats, k)
  }

  predicate TurnsAway(r: Room, e: Event) {
    e.message.Enter? && !e.message.affords && Comes(r, e.message.cuid, e.message.elsewhere)
  }

  lemma KeptIsTidy(r: Room, n: nat)
    requires Inv(r, n) && Kept(r)
    ensures Tidy(r)
  {
  }

  // The same clients on the same seats, and the same recorded.
  predicate SamePlaces(a: Room, b: Room) {
    && a.inside == b.inside && |a.seats| == |b.seats|
    && forall k :: 0 <= k < |a.seats| ==> a.seats[k].cuid == b.seats[k].cuid
  }

  lemma SameKept(a: Room, b: Room)
    requires Kept(a) && !a.phase.Closed? && SamePlaces(a, b)
    ensures Kept(b)
  {
    forall k | 0 <= k < |b.seats| && b.seats[k].cuid != 0 ensures b.seats[k].cuid in b.inside && First(b.seats, k) {
      assert First(a.seats, k);
    }
  }

  lemma EnteredKept(r: Room, n: nat, c: Cuid, elsewhere: bool, affords: bool)
    requires Inv(r, n) && Kept(r)
    ensures Kept(Entered(r, c, elsewhere, affords)) <==> affords || !Comes(r, c, elsewhere)
  {
    var s, m := Entered(r, c, elsewhere, affords), SeatOf(r.seats, 0);
    assert m < |r.seats| ==> Seated(r.seats, 0);
    if Comes(r, c, elsewhere) {
      if affords {
        forall k | 0 <= k < n && s.seats[k].cuid != 0 ensures s.seats[k].cuid in s.inside && First(s.seats, k) {
          if k != m { assert First(r.seats, k) && r.seats[k].cuid != c; }
        }
      } else {
        assert s.seats[m].cuid == c;
      }
    }
  }

  lemma RemovedKept(r: Room, n: nat, c: Cuid)
    requires Inv(r, n) && Kept(r) && (r.phase.Prepare? || r.phase.SettleAll?)
    ensures Kept(Removed(r, c))
  {
    var s, m := Removed(r, c), SeatOf(r.seats, c);
    forall k | 0 <= k < n && s.seats[k].cuid != 0 ensures s.seats[k].cuid in s.inside && First(s.seats, k) {
      assert First(r.seats, k);
      FirstSeat(r.seats, k);
    }
  }

  // One message keeps all holders in place if and only if it turns nobody away.
  lemma KeptExactly(r: Room, n: nat, e: Event)
    requires Inv(r, n) && n > 0 && Kept(r) && !e.message.Released?
    ensures Kept(Step(r, e)) <==> !TurnsAway(r, e)
  {
    if e.message.Enter? {
      EnteredKept(r, n, e.message.cuid, e.message.elsewhere, e.message.affords);
    } else if e.message.GiveUp? && (r.phase.Prepare? || r.phase.SettleAll?) {
      RemovedKept(r, n, e.message.cuid);
    } else {
      OthersKept(r, n, e);
    }
  }

  lemma OthersKept(r: Room, n: nat, e: Event)
    requires Inv(r, n) && n > 0 && Kept(r) && !e.message.Released? && !e.message.Enter?
    requires !(e.message.GiveUp? && (r.phase.Prepare? || r.phase.SettleAll?))
    ensures Kept(Step(r, e))
  {
    var s := Step(r, e);
    if !s.phase.Closed? && !r.phase.Closed? {
      SameHoldersStay(r, n, e);
      SameKept(r, s);
    }
  }

  lemma SameHoldersStay(r: Room, n: nat, e: Event)
    requires Inv(r, n) && n > 0 && !e.message.Released? && !e.message.Enter?
    requires !(e.message.GiveUp? && (r.phase.Prepare? || r.phase.SettleAll?))
    requires !r.phase.Closed? && !Step(r, e).phase.Closed?
    ensures SamePlaces(r, Step(r, e))
  {
    hide Filling, Playing, LedgerOk, Counted, Started, Settled;
    match e.message
    case GiveUp(c) => if c in r.inside { GaveUpHolders(r, c, e.online, e.now); }
    case VoteFor(c, vote) =>
      if c in r.inside && r.phase.Vote? {
        var k := SeatOf(r.seats, c);
        CountedHolders(r.(seats := r.seats[k := r.seats[k].(vote := vote)]), e.online);
      }
    case SetReady(c, ready) =>
      if c in r.inside && r.phase.Prepare? {
        var k, status := SeatOf(r.seats, c), if ready then READY else PREP;
        StartedHolders(r.(seats := r.seats[k := r.seats[k].(status := status)]), e.online);
      }
    case BringOut(c, cards) =>
      if c in r.inside && r.phase.Play? {
        var k := SeatOf(r.seats, c);
        var s := r.(seats := r.seats[k := r.seats[k].(status := COMPARE)]);
        SettledHolders(s, e.scores, e.now);
        StartedHolders(Settled(s, e.scores, e.now), e.online);
      }
    case Tick => StartedHolders(r, e.online);
    case _ =>
  }

  lemma GaveUpHolders(r: Room, c: Cuid, online: set<nat>, now: int)
    requires r.phase.Play? || r.phase.Vote? || r.phase.Settle?
    ensures GaveUp(r, c, online, now).phase.Closed? || SamePlaces(r, GaveUp(r, c, online, now))
  {
    hide Counted;
    var k := SeatOf(r.seats, c);
    if k < |r.seats| {
      var seats := r.seats[k := r.seats[k].(vote := VT_AYE)];
      if r.phase.Play? { CountedHolders(r.(voteSince := now, sponsor := c, phase := Vote, seats := seats), online); }
      if r.phase.Vote? { CountedHolders(r.(seats := seats), online); }
    }
  }

  lemma CountedHolders(r: Room, online: set<nat>)
    ensures Counted(r, online).phase.Closed? || SamePlaces(r, Counted(r, online))
  {
    hide Opposed, AllVote;
  }

  lemma StartedHolders(r: Room, online: set<nat>)
    ensures SamePlaces(r, Started(r, online))
  {
    hide MayStart;
  }

  lemma SettledHolders(r: Room, scores: Scores, now: int)
    ensures SamePlaces(r, Settled(r, scores, now))
  {
    hide AllAt;
  }

  predicate AllKept(l: Lobby) {
    forall i :: 0 <= i < |l.rooms| ==> Kept(l.rooms[i])
  }

  predicate ActTurnsAway(l: Lobby, a: Act) {
    match a
    case Create(owner, _, _, affords) => !RecordedBut(l, owner, |l.rooms|) && !affords
    case Deliver(i, e) => i < |l.rooms| && TurnsAway(l.rooms[i], Addressed(l, i, e))
    case Forget(_, _) => false
  }

  lemma OpenedKept(owner: Cuid, configured: int, size: Size, affords: bool)
    ensures Kept(Opened(owner, configured, size, affords)) <==> affords
  {
    var r := NewRoom(owner, configured, size);
    InitInv(owner, configured, size);
    assert r.seats[0].cuid == 0;
    EnteredKept(r, size, owner, false, affords);
  }

  // While everyone is in place, closing a room touches nobody in another room.
  lemma OthersUntouched(l: Lobby, i: nat, j: nat, e: Event)
    requires LobbyInv(l) && AllKept(l) && i < |l.rooms| && j < |l.rooms| && i != j
    ensures Step(l.rooms[j], Reset(LetGo(l.rooms[i], Step(l.rooms[i], e)))) == l.rooms[j]
  {
    var r, s := l.rooms[i], Step(l.rooms[i], e);
    var gone := LetGo(r, s);
    assert Inv(r, l.sizes[i]) && Kept(r);
    hide Inv, Step;
    if gone != {} {
      ClosingReleases(r, l.sizes[i], e);
      assert 0 !in r.inside && 0 !in l.rooms[j].inside by { NotZero(l, i); NotZero(l, j); }
      assert forall c <- gone :: c == 0 || c in r.inside;
    }
    assert r.inside !! l.rooms[j].inside by {
      if i < j { assert l.rooms[i].inside !! l.rooms[j].inside; } else { assert l.rooms[j].inside !! l.rooms[i].inside; }
    }
    assert l.rooms[j].inside - gone == l.rooms[j].inside;
    ResetDoes(l.rooms[j], gone);
  }

  lemma NotZero(l: Lobby, i: nat)
    requires LobbyInv(l) && i < |l.rooms|
    ensures 0 !in l.rooms[i].inside
  {
    assert Inv(l.rooms[i], l.sizes[i]);
  }

  lemma ResetDoes(r: Room, cs: set<nat>)
    ensures Step(r, Reset(cs)) == r.(inside := r.inside - cs)
  {
  }

  // One act keeps every holder of every room in place if and only if it turns nobody away.
  lemma ActKeepsExactly(l: Lobby, a: Act)
    requires LobbyInv(l) && AllKept(l)
    ensures AllKept(LobbyStep(l, a)) <==> !ActTurnsAway(l, a)
  {
    hide Inv, Step, Opened, Kept, TurnsAway;
    match a
    case Create(owner, configured, size, affords) =>
      OpenedKept(owner, configured, size, affords);
      var t := LobbyStep(l, a);
      if !RecordedBut(l, owner, |l.rooms|) {
        assert t.rooms[|l.rooms|] == Opened(owner, configured, size, affords);
        assert forall i :: 0 <= i < |l.rooms| ==> t.rooms[i] == l.rooms[i];
      }
    case Deliver(i, e) =>
      if i < |l.rooms| {
        var t, f := Delivered(l, i, e), Addressed(l, i, e);
        forall j | 0 <= j < |l.rooms| && j != i ensures t.rooms[j] == l.rooms[j] { OthersUntouched(l, i, j, f); }
        if f.message.Released? { ReleasedNobody(l.rooms[i], f); } else { KeptExactly(l.rooms[i], l.sizes[i], f); }
        assert t.rooms[i] == Step(l.rooms[i], f);
      }
    case Forget(i, c) =>
      if i < |l.rooms| && l.rooms[i].phase.Closed? {
        var t := LobbyStep(l, a);
        assert Kept(t.rooms[i]) by { ClosedKept(l.rooms[i], c); }
        assert forall j :: 0 <= j < |l.rooms| && j != i ==> t.rooms[j] == l.rooms[j];
      }
  }

  lemma ClosedKept(r: Room, c: Cuid)
    requires r.phase.Closed?
    ensures Kept(Step(r, Reset({c})))
  {
  }

  lemma ReleasedNobody(r: Room, e: Event)
    requires e.message == Released({})
    ensures Step(r, e) == r && !TurnsAway(r, e)
  {
    assert r.inside - {} == r.inside;
  }

  predicate AllKeptAfter(acts: seq<Act>) { AllKept(LobbyRun(NO_ROOMS, acts)) }

  predicate NobodyTurnedAwayAfter(acts: seq<Act>, a: Act) { !ActTurnsAway(LobbyRun(NO_ROOMS, acts), a) }

  // All holders of all rooms stay in place all along a run if and only if it turns nobody away.
  lemma {:induction false} KeptRunsExactly(acts: seq<Act>)
    ensures Along(acts, AllKeptAfter) <==> Each(acts, NobodyTurnedAwayAfter)
    decreases |acts|
  {
    hide LobbyStep, AllKept, ActTurnsAway;
    if acts == [] {
      assert acts[..0] == [] && AllKept(NO_ROOMS) by { NobodyYet(); }
    } else {
      hide Along, Each;
      var before, a := acts[..|acts| - 1], acts[|acts| - 1];
      assert before + [a] == acts;
      KeptRunsExactly(before);
      AlongSnoc(before, a, AllKeptAfter);
      EachSnoc(before, a, NobodyTurnedAwayAfter);
      LobbyRunInv(before);
      assert AllKeptAfter(acts) <==> AllKept(LobbyStep(LobbyRun(NO_ROOMS, before), a));
      if AllKept(LobbyRun(NO_ROOMS, before)) { ActKeepsExactly(LobbyRun(NO_ROOMS, before), a); }
    }
  }

  // Then every game is played by distinct clients, and they are the clients recorded in it.
  lemma PlayedByDistinct(acts: seq<Act>, i: nat)
    requires Each(acts, NobodyTurnedAwayAfter)
    requires i < |LobbyRun(NO_ROOMS, acts).rooms|
    ensures var r := LobbyRun(NO_ROOMS, acts).rooms[i];
      r.phase.Play? || r.phase.Vote? ==>
        && (forall j, k :: 0 <= j < k < |r.seats| ==> r.seats[j].cuid != r.seats[k].cuid)
        && r.inside == set k | 0 <= k < |r.seats| :: r.seats[k].cuid
  {
    var l := LobbyRun(NO_ROOMS, acts);
    KeptRunsExactly(acts);
    LobbyRunInv(acts);
    assert AllKeptAfter(acts) by { AlongWhole(acts, AllKeptAfter); }
    var r, n := l.rooms[i], l.sizes[i];
    hide LobbyRun, Along, Each;
    assert Inv(r, n) && Kept(r);
    if r.phase.Play? || r.phase.Vote? {
      KeptIsTidy(r, n);
      TidyPlayers(r, n);
      assert |r.seats| == n;
    }
  }

  lemma NobodyYet()
    ensures AllKept(NO_ROOMS)
  {
  }

  // ---------------------------------------------------------------- one client on two seats

  function Says(m: Message): Event { Event(m, {1, 2, 3, 9}, 0, NoScores) }

  function Waiting(owner: Cuid, seats: seq<Seat>, inside: set<nat>): Room {
    Room(owner, 1, seats, Prepare, 0, 0, 0, 0, [], inside, {})
  }

  // Client 3 is turned away from the room of client 9 and keeps a seat there. It joins the room of
  // client 1, behind client 2, and is ready. Then client 9 gives up.
  function DoubleSeatRun(): seq<Act> {
    [Create(9, 1, 2, true), Deliver(0, Says(Enter(3, false, false))), Create(1, 1, 3, true),
     Deliver(1, Says(Enter(2, false, true))), Deliver(1, Says(Enter(3, false, true))), Deliver(1, Says(SetReady(3, true))),
     Deliver(0, Says(GiveUp(9)))] +
    // Client 3's number is reset. When client 2 has left, it takes that seat as well.
    [Deliver(1, Says(GiveUp(2))), Deliver(1, Says(Enter(3, false, true))), Deliver(1, Says(SetReady(3, true))),
     Deliver(1, Says(SetReady(1, true)))]
  }

  lemma QuietStep(l: Lobby, i: nat, e: Event)
    requires i < |l.rooms| && !Step(l.rooms[i], Addressed(l, i, e)).phase.Closed?
    ensures LobbyStep(l, Deliver(i, e)) == With(l, i, Step(l.rooms[i], Addressed(l, i, e)))
  {
    hide Step;
    forall j | 0 <= j < |l.rooms| ensures Step(l.rooms[j], Reset({})) == l.rooms[j] {
      ResetDoes(l.rooms[j], {});
      assert l.rooms[j].inside - {} == l.rooms[j].inside;
    }
    var t := LobbyStep(l, Deliver(i, e));
    assert t.rooms == With(l, i, Step(l.rooms[i], Addressed(l, i, e))).rooms;
  }

  lemma EnterStep(l: Lobby, i: nat, k: nat, c: Cuid, affords: bool)
    requires i < |l.rooms| && l.rooms[i].phase.Prepare? && !RecordedBut(l, c, i) && c !in l.rooms[i].inside
    requires k < |l.rooms[i].seats| && l.rooms[i].seats[k] == Seat(0, CLEARED, VT_NONE) && First(l.rooms[i].seats, k)
    ensures LobbyStep(l, Deliver(i, Says(Enter(c, false, affords))))
         == With(l, i, l.rooms[i].(seats := l.rooms[i].seats[k := Seat(c, PREP, VT_NONE)],
                                   inside := if affords then l.rooms[i].inside + {c} else l.rooms[i].inside))
  {
    FirstSeat(l.rooms[i].seats, k);
    QuietStep(l, i, Says(Enter(c, false, affords)));
  }

  // A ready flag; `m` is another seat that keeps the game from starting.
  lemma ReadyStep(l: Lobby, i: nat, k: nat, c: Cuid, m: nat)
    requires i < |l.rooms| && l.rooms[i].phase.Prepare? && c in l.rooms[i].inside
    requires k < |l.rooms[i].seats| && l.rooms[i].seats[k] == Seat(c, PREP, VT_NONE) && First(l.rooms[i].seats, k)
    requires m < |l.rooms[i].seats| && m != k && l.rooms[i].seats[m].status != READY
    ensures LobbyStep(l, Deliver(i, Says(SetReady(c, true))))
         == With(l, i, l.rooms[i].(seats := l.rooms[i].seats[k := Seat(c, READY, VT_NONE)]))
  {
    FirstSeat(l.rooms[i].seats, k);
    var seats := l.rooms[i].seats[k := Seat(c, READY, VT_NONE)];
    assert seats[m].status != READY;
    assert !AllAt(seats, READY);
    QuietStep(l, i, Says(SetReady(c, true)));
  }

  lemma LeaveStep(l: Lobby, i: nat, k: nat, c: Cuid)
    requires i < |l.rooms| && l.rooms[i].phase.Prepare? && c in l.rooms[i].inside && c != l.rooms[i].owner
    requires k < |l.rooms[i].seats| && l.rooms[i].seats[k] == Seat(c, PREP, VT_NONE) && First(l.rooms[i].seats, k)
    ensures LobbyStep(l, Deliver(i, Says(GiveUp(c))))
         == With(l, i, l.rooms[i].(seats := l.rooms[i].seats[k := Seat(0, CLEARED, VT_NONE)],
                                   inside := l.rooms[i].inside - {c}))
  {
    FirstSeat(l.rooms[i].seats, k);
    QuietStep(l, i, Says(GiveUp(c)));
  }

  lemma NextAct(acts: seq<Act>, k: nat)
    requires k < |acts|
    ensures LobbyRun(NO_ROOMS, acts[..k + 1]) == LobbyStep(LobbyRun(NO_ROOMS, acts[..k]), acts[k])
  {
    assert acts[..k + 1][..k] == acts[..k];
  }

  const NONE := Seat(0, CLEARED, VT_NONE)

  function At(c: nat): Seat { Seat(c, PREP, VT_NONE) }

  function Set(c: nat): Seat { Seat(c, READY, VT_NONE) }

  lemma OpenedRoom(l: Lobby, owner: Cuid, size: Size)
    requires !RecordedBut(l, owner, |l.rooms|)
    ensures LobbyStep(l, Create(owner, 1, size, true))
         == Lobby(l.rooms + [Waiting(owner, seq(size, _ => NONE)[0 := At(owner)], {owner})], l.sizes + [size])
  {
    var r := NewRoom(owner, 1, size);
    FirstSeat(r.seats, 0);
    assert {} + {owner} == {owner};
  }

  // The two rooms fill.
  lemma RoomsFill()
    ensures LobbyRun(NO_ROOMS, DoubleSeatRun()[..6])
         == Lobby([Waiting(9, [At(9), At(3)], {9}), Waiting(1, [At(1), At(2), Set(3)], {1, 2, 3})], [2, 3])
  {
    hide LobbyStep;
    var a := DoubleSeatRun();
    NextAct(a, 0); NextAct(a, 1); NextAct(a, 2); NextAct(a, 3); NextAct(a, 4); NextAct(a, 5);
    var l := NO_ROOMS;
    assert LobbyRun(l, a[..0]) == l;
    OpenedRoom(l, 9, 2);
    var l1 := Lobby([Waiting(9, [At(9), NONE], {9})], [2]);
    assert seq(2, _ => NONE)[0 := At(9)] == [At(9), NONE];
    assert LobbyRun(l, a[..1]) == l1;
    EnterStep(l1, 0, 1, 3, false);
    var l2 := Lobby([Waiting(9, [At(9), At(3)], {9})], [2]);
    assert [At(9), NONE][1 := At(3)] == [At(9), At(3)];
    assert With(l1, 0, l2.rooms[0]).rooms == l2.rooms;
    assert LobbyRun(l, a[..2]) == l2;
    OpenedRoom(l2, 1, 3);
    var l3 := Lobby([Waiting(9, [At(9), At(3)], {9}), Waiting(1, [At(1), NONE, NONE], {1})], [2, 3]);
    assert seq(3, _ => NONE)[0 := At(1)] == [At(1), NONE, NONE];
    assert LobbyRun(l, a[..3]) == l3;
    JoinBoth(l3);
  }

  lemma JoinBoth(l3: Lobby)
    requires l3 == Lobby([Waiting(9, [At(9), At(3)], {9}), Waiting(1, [At(1), NONE, NONE], {1})], [2, 3])
    ensures LobbyStep(LobbyStep(LobbyStep(l3, Deliver(1, Says(Enter(2, false, true)))), Deliver(1, Says(Enter(3, false, true)))),
                      Deliver(1, Says(SetReady(3, true))))
         == Lobby([Waiting(9, [At(9), At(3)], {9}), Waiting(1, [At(1), At(2), Set(3)], {1, 2, 3})], [2, 3])
  {
    hide LobbyStep;
    EnterStep(l3, 1, 1, 2, true);
    var l4 := Lobby([Waiting(9, [At(9), At(3)], {9}), Waiting(1, [At(1), At(2), NONE], {1, 2})], [2, 3]);
    assert LobbyStep(l3, Deliver(1, Says(Enter(2, false, true)))) == l4 by {
      assert {1} + {2} == {1, 2} && [At(1), NONE, NONE][1 := At(2)] == [At(1), At(2), NONE];
      assert With(l3, 1, l4.rooms[1]).rooms == l4.rooms;
    }
    EnterStep(l4, 1, 2, 3, true);
    var l5 := Lobby([Waiting(9, [At(9), At(3)], {9}), Waiting(1, [At(1), At(2), At(3)], {1, 2, 3})], [2, 3]);
    assert LobbyStep(l4, Deliver(1, Says(Enter(3, false, true)))) == l5 by {
      assert {1, 2} + {3} == {1, 2, 3} && [At(1), At(2), NONE][2 := At(3)] == [At(1), At(2), At(3)];
      assert With(l4, 1, l5.rooms[1]).rooms == l5.rooms;
    }
    ReadyStep(l5, 1, 2, 3, 0);
    assert [At(1), At(2), At(3)][2 := Set(3)] == [At(1), At(2), Set(3)];
    assert With(l5, 1, Waiting(1, [At(1), At(2), Set(3)], {1, 2, 3})).rooms
        == [Waiting(9, [At(9), At(3)], {9}), Waiting(1, [At(1), At(2), Set(3)], {1, 2, 3})];
  }

  // The room of client 9 closes. Client 3 holds a seat there, so its number is reset, although it
  // names the other room.
  lemma NumberReset(l6: Lobby)
    requires l6 == Lobby([Waiting(9, [At(9), At(3)], {9}), Waiting(1, [At(1), At(2), Set(3)], {1, 2, 3})], [2, 3])
    ensures var l7 := LobbyStep(l6, Deliver(0, Says(GiveUp(9))));
      |l7.rooms| == 2 && l7.rooms[1] == Waiting(1, [At(1), At(2), Set(3)], {1, 2})
      && l7.rooms[0].inside == {} && l7.sizes == l6.sizes
  {
    var r, other := l6.rooms[0], l6.rooms[1];
    FirstSeat(r.seats, 0);
    assert Holders(r.seats, {1, 2, 3, 9}) == {3, 9} by {
      assert r.seats[0].cuid == 9 && r.seats[1].cuid == 3;
    }
    assert {9} - {3, 9} == {} && {1, 2, 3} - {3, 9} == {1, 2};
    ResetDoes(other, {3, 9});
  }

  // Client 3 takes a second seat there and makes it ready, and the game starts.
  lemma TwoSeatsReady(l7: Lobby)
    requires |l7.rooms| == 2 && l7.rooms[1] == Waiting(1, [At(1), At(2), Set(3)], {1, 2}) && l7.rooms[0].inside == {}
    ensures LobbyStep(LobbyStep(LobbyStep(l7, Deliver(1, Says(GiveUp(2)))), Deliver(1, Says(Enter(3, false, true)))),
                      Deliver(1, Says(SetReady(3, true))))
         == With(l7, 1, Waiting(1, [At(1), Set(3), Set(3)], {1, 3}))
  {
    hide LobbyStep;
    LeaveStep(l7, 1, 1, 2);
    assert {1, 2} - {2} == {1} && [At(1), At(2), Set(3)][1 := NONE] == [At(1), NONE, Set(3)];
    var l8 := With(l7, 1, Waiting(1, [At(1), NONE, Set(3)], {1}));
    EnterStep(l8, 1, 1, 3, true);
    assert {1} + {3} == {1, 3} && [At(1), NONE, Set(3)][1 := At(3)] == [At(1), At(3), Set(3)];
    var l9 := With(l7, 1, Waiting(1, [At(1), At(3), Set(3)], {1, 3}));
    assert With(l8, 1, l9.rooms[1]).rooms == l9.rooms;
    ReadyStep(l9, 1, 1, 3, 0);
    assert [At(1), At(3), Set(3)][1 := Set(3)] == [At(1), Set(3), Set(3)];
    assert With(l9, 1, Waiting(1, [At(1), Set(3), Set(3)], {1, 3})).rooms
        == With(l7, 1, Waiting(1, [At(1), Set(3), Set(3)], {1, 3})).rooms;
  }

  lemma LastFlag(l: Lobby)
    requires |l.rooms| == 2 && l.rooms[1] == Waiting(1, [At(1), Set(3), Set(3)], {1, 3})
    ensures var t := LobbyStep(l, Deliver(1, Says(SetReady(1, true))));
      |t.rooms| == 2 && t.rooms[1].phase.Play? && |t.rooms[1].seats| == 3
      && t.rooms[1].seats[1].cuid == 3 && t.rooms[1].seats[2].cuid == 3
  {
    var r, e := l.rooms[1], Says(SetReady(1, true));
    FirstSeat(r.seats, 0);
    assert [At(1), Set(3), Set(3)][0 := Set(1)] == [Set(1), Set(3), Set(3)];
    var s := r.(seats := [Set(1), Set(3), Set(3)]);
    assert MayStart(s, {1, 2, 3, 9});
    assert Step(r, e) == Started(s, {1, 2, 3, 9});
    QuietStep(l, 1, e);
  }

  // A reachable lobby in which a game is played with one client on two of its seats.
  lemma DoubleSeat()
    ensures var l := LobbyRun(NO_ROOMS, DoubleSeatRun());
      && |l.rooms| == 2 && l.rooms[1].phase.Play? && |l.rooms[1].seats| == 3
      && l.rooms[1].seats[1].cuid == 3 && l.rooms[1].seats[2].cuid == 3
  {
    hide LobbyStep;
    var a := DoubleSeatRun();
    RoomsFill();
    NextAct(a, 6); NextAct(a, 7); NextAct(a, 8); NextAct(a, 9); NextAct(a, 10);
    assert a[..11] == a;
    NumberReset(LobbyRun(NO_ROOMS, a[..6]));
    TwoSeatsReady(LobbyRun(NO_ROOMS, a[..7]));
    LastFlag(LobbyRun(NO_ROOMS, a[..10]));
  }
}
