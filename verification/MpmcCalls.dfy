/** When a call on the ring of MpmcRing.dfy succeeds: at once if nobody interferes and there is room or
    an item, and otherwise unless it loses all of its five or four tries. */
module MpmcCalls {
  import opened MpmcRing

  // A ring of power 0 has one cell; each power more doubles that, up to 24.
  lemma Capacity<T>(power: nat, threads: nat, blank: T)
    ensures |Init(0, threads, blank).cells| == 1
    ensures |Init(power + 1, threads, blank).cells| ==
      if power < 24 then 2 * |Init(power, threads, blank).cells| else |Init(power, threads, blank).cells|
    ensures var s := Init(power, threads, blank);
      && s.begin == s.end == 0 && |s.threads| == threads && (forall t :: 0 <= t < threads ==> s.threads[t].Idle?)
      && forall c :: 0 <= c < |s.cells| ==> s.cells[c] == Cell(Empty, blank)
  {
  }

  // n steps of one thread, no other thread between.
  function Own<T>(s: Ring<T>, m: Move<T>, n: nat): (r: Ring<T>)
    requires |s.cells| > 0
    ensures |r.cells| == |s.cells| && |r.threads| == |s.threads|
    decreases n
  {
    if n == 0 then s else Own(Step(s, m), m, n - 1)
  }

  lemma OwnFirst<T>(s: Ring<T>, m: Move<T>, n: nat)
    requires |s.cells| > 0 && n > 0
    ensures Own(s, m, n) == Own(Step(s, m), m, n - 1)
  {
  }

  lemma OwnNone<T>(s: Ring<T>, m: Move<T>)
    requires |s.cells| > 0
    ensures Own(s, m, 0) == s
  {
  }

  lemma OwnFew<T>(s: Ring<T>, m: Move<T>)
    requires |s.cells| > 0
    ensures Own(s, m, 2) == Step(Step(s, m), m)
    ensures Own(s, m, 3) == Step(Step(Step(s, m), m), m)
    ensures Own(s, m, 4) == Step(Step(Step(Step(s, m), m), m), m)
  {
    hide Step;
    var s1 := Step(s, m);
    var s2 := Step(s1, m);
    var s3 := Step(s2, m);
    assert forall r: Ring<T> :: |r.cells| > 0 ==> Own(r, m, 0) == r;
    assert Own(s2, m, 1) == s3 && Own(s1, m, 1) == s2 && Own(s3, m, 1) == Step(s3, m);
  }

  lemma {:induction false} OwnSplit<T>(s: Ring<T>, m: Move<T>, a: nat, b: nat)
    requires |s.cells| > 0
    ensures Own(s, m, a + b) == Own(Own(s, m, a), m, b)
    decreases a
  {
    hide Step;
    if a > 0 { OwnSplit(Step(s, m), m, a - 1, b); }
  }

  lemma PushCalled<T>(s: Ring<T>, t: nat, item: T)
    requires |s.cells| > 0 && t < |s.threads| && s.threads[t].Idle?
    ensures Step(s, Move(t, false, CallPush(item))) == SetPc(s, t, PushHead(item, 0))
  {
  }

  lemma PopCalled<T>(s: Ring<T>, t: nat, call: Call<T>)
    requires |s.cells| > 0 && t < |s.threads| && s.threads[t].Idle? && call.CallPop?
    ensures Step(s, Move(t, false, call)) == SetPc(s, t, PopHead(0))
  {
  }

  // ---------------------------------------------------------------- a call on its own

  // What a push leaves behind that takes position s.end.
  function PushedOn<T>(s: Ring<T>, item: T): Ring<T>
    requires |s.cells| > 0
  {
    s.(end := s.end + 1, pushed := s.pushed + [item], done := s.done + 1,
       cells := s.cells[RealIndex(s.end, |s.cells|) := Cell(Full, item)])
  }

  // What a pop leaves behind that takes position s.begin.
  function PoppedOff<T>(s: Ring<T>): Ring<T>
    requires |s.cells| > 0
  {
    var c := RealIndex(s.begin, |s.cells|);
    s.(begin := s.begin + 1, popped := s.popped[s.begin := s.cells[c].value],
       cells := s.cells[c := Cell(Empty, s.blank)])
  }

  // A push alone takes the cell at the end if that is free, in seven steps; otherwise it looks five
  // times and leaves the ring as it was.
  lemma SoloPush<T>(s: Ring<T>, t: nat, item: T)
    requires |s.cells| > 0 && t < |s.threads| && s.threads[t].Idle?
    ensures var m := Move(t, false, CallPush(item));
      if s.cells[RealIndex(s.end, |s.cells|)].status == Empty then Own(s, m, 7) == PushedOn(s, item)
      else Own(s, m, 12) == s
  {
    hide Step, RealIndex, Own;
    if s.cells[RealIndex(s.end, |s.cells|)].status == Empty {
      FreePush(s, t, item);
    } else {
      var m := Move(t, false, CallPush(item));
      PushCalled(s, t, item);
      PushLooks(Step(s, m), m, item, 0);
      OwnFirst(s, m, 12);
      assert s.threads[t := PushHead(item, 0)][t := Idle] == s.threads;
    }
  }

  lemma FreePush<T>(s: Ring<T>, t: nat, item: T)
    requires |s.cells| > 0 && t < |s.threads| && s.threads[t].Idle?
    requires s.cells[RealIndex(s.end, |s.cells|)].status == Empty
    ensures Own(s, Move(t, false, CallPush(item)), 7) == PushedOn(s, item)
  {
    var m := Move(t, false, CallPush(item));
    hide Step, RealIndex, Own;
    PushCalled(s, t, item);
    var s1 := Step(s, m);
    PushClaims(s1, m, item);
    PushStores(Own(s1, m, 4), m, item, s.end);
    OwnFirst(s, m, 7);
    OwnSplit(s1, m, 4, 2);
    assert s.threads[t := PushHead(item, 0)][t := PushStore(item, s.end)][t := Idle] == s.threads;
  }

  // The four steps up to the exchange of the counter.
  lemma PushClaims<T>(s: Ring<T>, m: Move<T>, item: T)
    requires |s.cells| > 0 && m.tid < |s.threads| && !m.spurious && s.threads[m.tid] == PushHead(item, 0)
    requires s.cells[RealIndex(s.end, |s.cells|)].status == Empty
    ensures var c := RealIndex(s.end, |s.cells|);
      Own(s, m, 4) ==
        SetPc(SetCell(s, c, s.cells[c].(status := Writing)), m.tid, PushStore(item, s.end))
          .(end := s.end + 1, pushed := s.pushed + [item])
  {
    var c := RealIndex(s.end, |s.cells|);
    hide RealIndex;
    var s1 := Step(s, m);
    assert s1 == SetPc(s, m.tid, PushLook(item, 1, s.end));
    var s2 := Step(s1, m);
    assert s2 == SetPc(s, m.tid, PushClaim(item, 1, s.end));
    var s3 := Step(s2, m);
    assert s3 == SetPc(SetCell(s, c, s.cells[c].(status := Writing)), m.tid, PushAdvance(item, 1, s.end));
    OwnFew(s, m);
  }

  lemma PushStores<T>(s: Ring<T>, m: Move<T>, item: T, k: nat)
    requires |s.cells| > 0 && m.tid < |s.threads| && s.threads[m.tid] == PushStore(item, k)
    ensures var c := RealIndex(k, |s.cells|);
      Own(s, m, 2) == SetPc(SetCell(s, c, Cell(Full, item)), m.tid, Idle).(done := s.done + 1)
  {
    var c := RealIndex(k, |s.cells|);
    hide RealIndex;
    assert Step(s, m) == SetPc(SetCell(s, c, s.cells[c].(value := item)), m.tid, PushPublish(item, k));
    OwnFew(s, m);
  }

  lemma PushLooksOnce<T>(s: Ring<T>, m: Move<T>, item: T, n: nat)
    requires |s.cells| > 0 && m.tid < |s.threads| && s.threads[m.tid] == PushHead(item, n) && n < 5
    requires s.cells[RealIndex(s.end, |s.cells|)].status != Empty
    ensures Step(Step(s, m), m) == SetPc(s, m.tid, PushHead(item, n + 1))
  {
    hide RealIndex;
    assert Step(s, m) == SetPc(s, m.tid, PushLook(item, n + 1, s.end));
  }

  lemma {:induction false} PushLooks<T>(s: Ring<T>, m: Move<T>, item: T, n: nat)
    requires |s.cells| > 0 && m.tid < |s.threads| && s.threads[m.tid] == PushHead(item, n) && n <= 5
    requires s.cells[RealIndex(s.end, |s.cells|)].status != Empty
    ensures Own(s, m, 2 * (5 - n) + 1) == SetPc(s, m.tid, Idle)
    decreases 5 - n
  {
    if n < 5 {
      PushLooksOnce(s, m, item, n);
      var s2 := Step(Step(s, m), m);
      hide Step, Own, RealIndex;
      PushLooks(s2, m, item, n + 1);
      OwnFirst(s, m, 2 * (5 - n) + 1);
      OwnFirst(Step(s, m), m, 2 * (5 - n));
    } else {
      OwnFirst(s, m, 1);
      OwnNone(Step(s, m), m);
    }
  }

  // A pop alone takes the cell at the beginning if that is full, in eight steps; otherwise it looks
  // four times and leaves the ring as it was.
  lemma SoloPop<T>(s: Ring<T>, t: nat, call: Call<T>)
    requires |s.cells| > 0 && t < |s.threads| && s.threads[t].Idle? && call.CallPop?
    ensures var m := Move(t, false, call);
      if s.cells[RealIndex(s.begin, |s.cells|)].status == Full then Own(s, m, 8) == PoppedOff(s)
      else Own(s, m, 10) == s
  {
    hide Step, RealIndex, Own;
    if s.cells[RealIndex(s.begin, |s.cells|)].status == Full {
      FullPop(s, t, call);
    } else {
      var m := Move(t, false, call);
      PopCalled(s, t, call);
      PopLooks(Step(s, m), m, 0);
      OwnFirst(s, m, 10);
      assert s.threads[t := PopHead(0)][t := Idle] == s.threads;
    }
  }

  lemma FullPop<T>(s: Ring<T>, t: nat, call: Call<T>)
    requires |s.cells| > 0 && t < |s.threads| && s.threads[t].Idle? && call.CallPop?
    requires s.cells[RealIndex(s.begin, |s.cells|)].status == Full
    ensures Own(s, Move(t, false, call), 8) == PoppedOff(s)
  {
    var m := Move(t, false, call);
    hide Step, RealIndex, Own;
    PopCalled(s, t, call);
    var s1 := Step(s, m);
    PopClaims(s1, m);
    PopTakes(Own(s1, m, 4), m, s.begin);
    OwnFirst(s, m, 8);
    OwnSplit(s1, m, 4, 3);
    assert s.threads[t := PopHead(0)][t := PopTake(s.begin)][t := Idle] == s.threads;
  }

  lemma PopClaims<T>(s: Ring<T>, m: Move<T>)
    requires |s.cells| > 0 && m.tid < |s.threads| && !m.spurious && s.threads[m.tid] == PopHead(0)
    requires s.cells[RealIndex(s.begin, |s.cells|)].status == Full
    ensures var c := RealIndex(s.begin, |s.cells|);
      Own(s, m, 4) ==
        SetPc(SetCell(s, c, s.cells[c].(status := Reading)), m.tid, PopTake(s.begin)).(begin := s.begin + 1)
  {
    var c := RealIndex(s.begin, |s.cells|);
    hide RealIndex;
    var s1 := Step(s, m);
    assert s1 == SetPc(s, m.tid, PopLook(1, s.begin));
    var s2 := Step(s1, m);
    assert s2 == SetPc(s, m.tid, PopClaim(1, s.begin));
    var s3 := Step(s2, m);
    assert s3 == SetPc(SetCell(s, c, s.cells[c].(status := Reading)), m.tid, PopAdvance(1, s.begin));
    OwnFew(s, m);
  }

  lemma PopTakes<T>(s: Ring<T>, m: Move<T>, k: nat)
    requires |s.cells| > 0 && m.tid < |s.threads| && s.threads[m.tid] == PopTake(k)
    ensures var c := RealIndex(k, |s.cells|);
      Own(s, m, 3) ==
        SetPc(SetCell(s, c, Cell(Empty, s.blank)), m.tid, Idle).(popped := s.popped[k := s.cells[c].value])
  {
    var c := RealIndex(k, |s.cells|);
    hide RealIndex;
    var s1 := Step(s, m);
    assert s1 == SetPc(s, m.tid, PopClear(k, s.cells[c].value));
    var s2 := Step(s1, m);
    assert s2 == SetPc(SetCell(s, c, s.cells[c].(value := s.blank)), m.tid, PopPublish(k, s.cells[c].value));
    OwnFew(s, m);
  }

  lemma PopLooksOnce<T>(s: Ring<T>, m: Move<T>, n: nat)
    requires |s.cells| > 0 && m.tid < |s.threads| && s.threads[m.tid] == PopHead(n) && n < 4
    requires s.cells[RealIndex(s.begin, |s.cells|)].status != Full
    ensures Step(Step(s, m), m) == SetPc(s, m.tid, PopHead(n + 1))
  {
    hide RealIndex;
    assert Step(s, m) == SetPc(s, m.tid, PopLook(n + 1, s.begin));
  }

  lemma {:induction false} PopLooks<T>(s: Ring<T>, m: Move<T>, n: nat)
    requires |s.cells| > 0 && m.tid < |s.threads| && s.threads[m.tid] == PopHead(n) && n <= 4
    requires s.cells[RealIndex(s.begin, |s.cells|)].status != Full
    ensures Own(s, m, 2 * (4 - n) + 1) == SetPc(s, m.tid, Idle)
    decreases 4 - n
  {
    if n < 4 {
      PopLooksOnce(s, m, n);
      var s2 := Step(Step(s, m), m);
      hide Step, Own, RealIndex;
      PopLooks(s2, m, n + 1);
      OwnFirst(s, m, 2 * (4 - n) + 1);
      OwnFirst(Step(s, m), m, 2 * (4 - n));
    } else {
      OwnFirst(s, m, 1);
      OwnNone(Step(s, m), m);
    }
  }

  // With no call under way the cells tell exactly whether there is room and what comes next.
  lemma QuietCells<T>(s: Ring<T>)
    requires Inv(s) && forall u :: 0 <= u < |s.threads| ==> s.threads[u].Idle?
    ensures s.cells[RealIndex(s.end, |s.cells|)].status == Empty <==> s.end < s.begin + |s.cells|
    ensures s.cells[RealIndex(s.begin, |s.cells|)].status == Full <==> s.begin < s.end
    ensures s.begin < s.end ==> s.cells[RealIndex(s.begin, |s.cells|)].value == s.pushed[s.begin]
  {
    var cap := |s.cells|;
    var b, e := RealIndex(s.begin, cap), RealIndex(s.end, cap);
    PosOf(s.begin, cap, s.begin);
    assert CellInv(s, b) && CellInv(s, e);
    if s.end < s.begin + cap {
      PosOf(s.begin, cap, s.end);
    } else {
      IndexWraps(s.begin, cap);
    }
  }

  // So a push on a quiet ring succeeds if and only if there is room, and a pop if and only if there
  // is an item, which is then the oldest one.
  lemma QuietPush<T>(s: Ring<T>, t: nat, item: T)
    requires Inv(s) && t < |s.threads| && forall u :: 0 <= u < |s.threads| ==> s.threads[u].Idle?
    ensures var m := Move(t, false, CallPush(item));
      if s.end - s.begin < |s.cells| then Own(s, m, 7) == PushedOn(s, item) else Own(s, m, 12) == s
  {
    QuietCells(s);
    SoloPush(s, t, item);
    hide Inv, Step, RealIndex, Own;
  }

  lemma QuietPop<T>(s: Ring<T>, t: nat, call: Call<T>)
    requires Inv(s) && t < |s.threads| && call.CallPop? && forall u :: 0 <= u < |s.threads| ==> s.threads[u].Idle?
    ensures var m := Move(t, false, call);
      if s.begin < s.end then
        && Own(s, m, 8) == PoppedOff(s) && PoppedOff(s).popped == s.popped[s.begin := s.pushed[s.begin]]
      else Own(s, m, 10) == s
  {
    QuietCells(s);
    SoloPop(s, t, call);
    hide Inv, Step, RealIndex, Own;
  }

  // ---------------------------------------------------------------- a call among others

  // The thread finds the cell not free or not full, or loses an exchange.
  predicate LosesTry<T>(s: Ring<T>, m: Move<T>)
    requires |s.cells| > 0
  {
    m.tid < |s.threads| &&
    match s.threads[m.tid]
    case PushLook(_, _, seen) => s.cells[RealIndex(seen, |s.cells|)].status != Empty
    case PushClaim(_, _, seen) => m.spurious || s.cells[RealIndex(seen, |s.cells|)].status != Empty
    case PushAdvance(_, _, seen) => m.spurious || s.end != seen
    case PopLook(_, seen) => s.cells[RealIndex(seen, |s.cells|)].status != Full
    case PopClaim(_, seen) => m.spurious || s.cells[RealIndex(seen, |s.cells|)].status != Full
    case PopAdvance(_, seen) => m.spurious || s.begin != seen
    case _ => false
  }

  function Losses<T>(s: Ring<T>, schedule: seq<Move<T>>, t: nat): nat
    requires |s.cells| > 0
  {
    if schedule == [] then 0
    else
      var front, m := schedule[..|schedule| - 1], schedule[|schedule| - 1];
      Losses(s, front, t) + if m.tid == t && LosesTry(Run(s, front), m) then 1 else 0
  }

  // How many tries a call that stands there has lost.
  predicate HasLost(pc: Pc, push: bool, lost: nat) {
    match pc
    case PushHead(_, n) => push && lost == n <= 5
    case PushLook(_, n, _) => push && lost + 1 == n <= 5
    case PushClaim(_, n, _) => push && lost + 1 == n <= 5
    case PushAdvance(_, n, _) => push && lost + 1 == n <= 5
    case PushUndo(_, n, _) => push && lost == n <= 5
    case PushStore(_, _) => push && lost <= 4
    case PushPublish(_, _) => push && lost <= 4
    case PopHead(n) => !push && lost == n <= 4
    case PopLook(n, _) => !push && lost + 1 == n <= 4
    case PopClaim(n, _) => !push && lost + 1 == n <= 4
    case PopAdvance(n, _) => !push && lost + 1 == n <= 4
    case PopUndo(n, _) => !push && lost == n <= 4
    case PopTake(_) => !push && lost <= 3
    case PopClear(_, _) => !push && lost <= 3
    case PopPublish(_, _) => !push && lost <= 3
    case Idle => false
  }

  lemma StepLoses<T>(s: Ring<T>, m: Move<T>, t: nat, push: bool, lost: nat)
    requires |s.cells| > 0 && t < |s.threads| && HasLost(s.threads[t], push, lost)
    requires !Step(s, m).threads[t].Idle?
    ensures HasLost(Step(s, m).threads[t], push, lost + if m.tid == t && LosesTry(s, m) then 1 else 0)
  {
    hide StepPush, StepPop, HasLost, LosesTry;
    StepFrame(s, m);
    if m.tid == t {
      NotIdle(s.threads[t], push, lost);
      if InPush(s.threads[t]) { PushLoses(s, t, m, push, lost); } else { PopLoses(s, t, m, push, lost); }
    }
  }

  lemma NotIdle(pc: Pc, push: bool, lost: nat)
    requires HasLost(pc, push, lost)
    ensures !pc.Idle?
  {
  }

  lemma PushLoses<T>(s: Ring<T>, t: nat, m: Move<T>, push: bool, lost: nat)
    requires |s.cells| > 0 && m.tid == t < |s.threads| && InPush(s.threads[t]) && HasLost(s.threads[t], push, lost)
    requires !StepPush(s, t, m.spurious).threads[t].Idle?
    ensures HasLost(StepPush(s, t, m.spurious).threads[t], push, lost + if LosesTry(s, m) then 1 else 0)
  {
    hide RealIndex;
    match s.threads[t] case PushHead(_, _) => case _ =>
  }

  lemma PopLoses<T>(s: Ring<T>, t: nat, m: Move<T>, push: bool, lost: nat)
    requires |s.cells| > 0 && m.tid == t < |s.threads| && !InPush(s.threads[t]) && HasLost(s.threads[t], push, lost)
    requires !StepPop(s, t, m.spurious).threads[t].Idle?
    ensures HasLost(StepPop(s, t, m.spurious).threads[t], push, lost + if LosesTry(s, m) then 1 else 0)
  {
    hide RealIndex;
    match s.threads[t] case PopHead(_) => case _ =>
  }

  lemma {:induction false} CallLoses<T>(s: Ring<T>, schedule: seq<Move<T>>, t: nat, push: bool)
    requires |s.cells| > 0 && t < |s.threads| && HasLost(s.threads[t], push, 0)
    requires forall i :: 0 <= i <= |schedule| ==> !Run(s, schedule[..i]).threads[t].Idle?
    ensures HasLost(Run(s, schedule).threads[t], push, Losses(s, schedule, t))
    decreases |schedule|
  {
    assert schedule[..|schedule|] == schedule;
    if schedule != [] {
      hide Step, LosesTry, HasLost;
      var front, m := schedule[..|schedule| - 1], schedule[|schedule| - 1];
      forall i | 0 <= i <= |front| ensures !Run(s, front[..i]).threads[t].Idle? {
        assert front[..i] == schedule[..i];
      }
      CallLoses(s, front, t, push);
      StepLoses(Run(s, front), m, t, push, Losses(s, front, t));
    }
  }

  // A call begins at its first loop head and is over with the last move. It returns false, that is
  // from a loop head, if and only if it has lost five tries as a push or four as a pop.
  lemma FalseExactly<T>(s: Ring<T>, calling: seq<Move<T>>, over: Move<T>, t: nat, push: bool)
    requires |s.cells| > 0 && t < |s.threads|
    requires if push then s.threads[t].PushHead? && s.threads[t].tries == 0 else s.threads[t].PopHead? && s.threads[t].tries == 0
    requires forall i :: 0 <= i <= |calling| ==> !Run(s, calling[..i]).threads[t].Idle?
    requires Step(Run(s, calling), over).threads[t].Idle?
    ensures var pc, lost := Run(s, calling).threads[t], Losses(s, calling, t);
      && (pc.PushHead? || pc.PopHead? || pc.PushPublish? || pc.PopPublish?)
      && (pc.PushHead? || pc.PopHead? <==> lost == if push then 5 else 4)
      && lost <= if push then 5 else 4
  {
    CallLoses(s, calling, t, push);
    LastStep(Run(s, calling), over, t);
    hide Step, Run;
  }

  lemma LastStep<T>(s: Ring<T>, m: Move<T>, t: nat)
    requires |s.cells| > 0 && t < |s.threads| && !s.threads[t].Idle? && Step(s, m).threads[t].Idle?
    ensures match s.threads[t]
      case PushHead(_, n) => n == 5
      case PopHead(n) => n == 4
      case PushPublish(_, _) => true
      case PopPublish(_, _) => true
      case _ => false
  {
    hide RealIndex;
    if m.tid != t { StepFrame(s, m); hide StepPush, StepPop; }
  }
}
