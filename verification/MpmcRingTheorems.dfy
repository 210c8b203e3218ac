/** What the ring's runs guarantee: delivery in order, refinement of an atomic bounded queue,
    rollback without trace, exclusive payload access, and a bound on every call. */
module MpmcRingTheorems {
  import opened Common
  import opened MpmcRing

  // ---------------------------------------------------------------- delivery

  // Position k was pushed and not yet popped: its value is in its cell or in its pusher's hand.
  ghost predicate InFlight<T>(s: Ring<T>, k: nat)
    requires |s.cells| > 0 && k < |s.pushed|
  {
    var cell := s.cells[RealIndex(k, |s.cells|)];
    || (cell.status != Empty && cell.value == s.pushed[k])
    || exists t :: 0 <= t < |s.threads| && Carries(s.threads[t], k, s.pushed[k])
  }

  ghost predicate Carries<T>(pc: Pc<T>, k: nat, item: T) {
    pc.PushStore? && pc.seen == k && pc.item == item
  }

  // Position k left the window: its value was returned once, or one thread is about to return it.
  ghost predicate Delivered<T>(s: Ring<T>, k: nat)
    requires |s.cells| > 0 && k < |s.pushed|
  {
    if k in s.popped then
      && s.popped[k] == s.pushed[k]
      && forall t :: 0 <= t < |s.threads| ==> !Popping(s.threads[t], k)
    else
      exists t :: 0 <= t < |s.threads| && Popping(s.threads[t], k)
        && s.pushed[k] == HandOf(s, t)
        && forall u :: 0 <= u < |s.threads| && u != t ==> !Popping(s.threads[u], k)
  }

  function HandOf<T>(s: Ring<T>, t: nat): T
    requires |s.cells| > 0 && t < |s.threads|
    requires s.threads[t].PopTake? || s.threads[t].PopClear? || s.threads[t].PopPublish?
  {
    if s.threads[t].PopTake? then s.cells[RealIndex(s.threads[t].seen, |s.cells|)].value else s.threads[t].got
  }

  // Delivery: whatever the interleaving, the pop of position k returns exactly what the push
  // of position k wrote; nothing is lost, returned twice or returned half written.
  lemma DeliversInOrder<T>(power: nat, threads: nat, blank: T, schedule: seq<Move<T>>)
    ensures var s := Run(Init(power, threads, blank), schedule);
      && |s.pushed| == s.end
      && s.begin <= s.end <= s.begin + |s.cells|
      && (forall k :: k in s.popped ==> k < s.begin)
      && (forall k :: 0 <= k < s.begin ==> Delivered(s, k))
      && (forall k :: s.begin <= k < s.end ==> InFlight(s, k))
  {
    InitInv(power, threads, blank);
    RunInv(Init(power, threads, blank), schedule);
    var s := Run(Init(power, threads, blank), schedule);
    forall k | 0 <= k < s.begin ensures Delivered(s, k) { DeliveredHolds(s, k); }
    forall k | s.begin <= k < s.end ensures InFlight(s, k) { InFlightHolds(s, k); }
  }

  lemma InFlightHolds<T>(s: Ring<T>, k: nat)
    requires Inv(s) && s.begin <= k < s.end
    ensures InFlight(s, k)
  {
    var c := RealIndex(k, |s.cells|);
    PosOf(s.begin, |s.cells|, k);
    assert CellInv(s, c);
    if s.cells[c].status == Writing || s.cells[c].status == Reading {
      var t :| 0 <= t < |s.threads| && HoldsCell(s, t, c);
      assert ThreadInv(s, t);
      assert s.threads[t].PushStore? ==> Carries(s.threads[t], k, s.pushed[k]);
    }
  }

  lemma DeliveredHolds<T>(s: Ring<T>, k: nat)
    requires Inv(s) && k < s.begin
    ensures Delivered(s, k)
  {
    forall t | 0 <= t < |s.threads| && Popping(s.threads[t], k)
      ensures k !in s.popped && s.pushed[k] == HandOf(s, t)
      ensures forall u :: 0 <= u < |s.threads| && u != t ==> !Popping(s.threads[u], k)
    {
      assert ThreadInv(s, t) && Exclusive(s);
    }
  }

  // The history only grows: what was pushed or returned stays what it was.
  lemma {:induction false} HistoryGrows<T>(s: Ring<T>, schedule: seq<Move<T>>)
    requires Inv(s)
    ensures var r := Run(s, schedule);
      && s.pushed <= r.pushed && s.begin <= r.begin
      && (forall k :: k in s.popped ==> k in r.popped && r.popped[k] == s.popped[k])
    decreases |schedule|
  {
    if schedule != [] {
      var last := |schedule| - 1;
      hide Step;
      HistoryGrows(s, schedule[..last]);
      RunInv(s, schedule[..last]);
      var r, m := Run(s, schedule[..last]), schedule[last];
      StepFrame(r, m);
      if m.tid < |r.threads| { assert ThreadInv(r, m.tid); }
    }
  }

  // ---------------------------------------------------------------- refinement of an atomic queue

  function Queue<T>(s: Ring<T>): seq<T>
    requires s.begin <= s.end <= |s.pushed|
  {
    s.pushed[s.begin..s.end]
  }

  // The operations of the atomic queue; each is placed at the successful counter exchange.
  datatype Op<T> = Enqueue(tid: nat, item: T) | Dequeue(tid: nat)

  // The atomic bounded queue: its content and every value it has handed out, in order.
  datatype Fifo<T> = Fifo(queue: seq<T>, outs: seq<T>)

  function Apply<T>(f: Fifo<T>, capacity: nat, op: Op<T>): Option<Fifo<T>> {
    match op
    case Enqueue(_, item) =>
      if |f.queue| < capacity then Some(Fifo(f.queue + [item], f.outs)) else None
    case Dequeue(_) =>
      if f.queue == [] then None else Some(Fifo(f.queue[1..], f.outs + [f.queue[0]]))
  }

  function ApplyAll<T>(f: Fifo<T>, capacity: nat, ops: seq<Op<T>>): Option<Fifo<T>>
    decreases |ops|
  {
    if ops == [] then Some(f)
    else
      match ApplyAll(f, capacity, ops[..|ops| - 1])
      case None => None
      case Some(g) => Apply(g, capacity, ops[|ops| - 1])
  }

  function Commits<T>(s: Ring<T>, m: Move<T>): seq<Op<T>> {
    if EndMoves(s, m) then [Enqueue(m.tid, s.threads[m.tid].item)]
    else if BeginMoves(s, m) then [Dequeue(m.tid)]
    else []
  }

  // The state of the atomic queue that a ring state stands for.
  function Abstract<T>(s: Ring<T>): Fifo<T>
    requires s.begin <= s.end <= |s.pushed|
  {
    Fifo(Queue(s), s.pushed[..s.begin])
  }

  function Trace<T>(s: Ring<T>, schedule: seq<Move<T>>): seq<Op<T>>
    requires |s.cells| > 0
    decreases |schedule|
  {
    if schedule == [] then []
    else
      var last := |schedule| - 1;
      Trace(s, schedule[..last]) + Commits(Run(s, schedule[..last]), schedule[last])
  }

  // One step of the ring is one operation of the atomic queue, or none.
  lemma StepRefines<T>(s: Ring<T>, m: Move<T>)
    requires Inv(s)
    ensures Inv(Step(s, m))
    ensures Commits(s, m) == [] ==> Abstract(Step(s, m)) == Abstract(s)
    ensures Commits(s, m) != [] ==> Apply(Abstract(s), |s.cells|, Commits(s, m)[0]) == Some(Abstract(Step(s, m)))
  {
    hide Step, StepPush, StepPop;
    StepInv(s, m);
    StepFrame(s, m);
    var s' := Step(s, m);
    if EndMoves(s, m) {
      EndStep(s, m.tid);
      QueueGrows(s, s', s.threads[m.tid].item);
    } else if BeginMoves(s, m) {
      BeginStep(s, m.tid);
      QueueShrinks(s, s');
    }
  }

  lemma QueueGrows<T>(s: Ring<T>, s': Ring<T>, item: T)
    requires s.begin == s'.begin <= s.end == |s.pushed| && s'.end == s.end + 1 && s'.pushed == s.pushed + [item]
    ensures Abstract(s') == Fifo(Queue(s) + [item], s.pushed[..s.begin])
  {
  }

  lemma QueueShrinks<T>(s: Ring<T>, s': Ring<T>)
    requires s.begin < s.end == s'.end == |s.pushed| && s'.begin == s.begin + 1 && s'.pushed == s.pushed
    ensures Queue(s) != [] && Abstract(s') == Fifo(Queue(s)[1..], s.pushed[..s.begin] + [Queue(s)[0]])
  {
  }

  lemma {:induction false} RunRefines<T>(s: Ring<T>, schedule: seq<Move<T>>)
    requires Inv(s)
    ensures var r := Run(s, schedule);
      && Inv(r)
      && ApplyAll(Abstract(s), |s.cells|, Trace(s, schedule)) == Some(Abstract(r))
    decreases |schedule|
  {
    hide Step, CellInv, ThreadInv, Exclusive, History, Apply;
    if schedule != [] {
      var last := |schedule| - 1;
      RunRefines(s, schedule[..last]);
      var r := Run(s, schedule[..last]);
      StepRefines(r, schedule[last]);
      var done, more := Trace(s, schedule[..last]), Commits(r, schedule[last]);
      if more == [] {
        assert done + more == done;
      } else {
        assert (done + more)[..|done + more| - 1] == done;
      }
    }
  }

  // Linearizability: every run is a run of an atomic FIFO queue of the same capacity, and each
  // value a pop has returned is the one that queue handed out at that pop's exchange.
  lemma RefinesAtomicFifo<T>(power: nat, threads: nat, blank: T, schedule: seq<Move<T>>)
    ensures var s0 := Init(power, threads, blank);
      var s := Run(s0, schedule);
      var f := ApplyAll(Fifo([], []), |s0.cells|, Trace(s0, schedule));
      && f.Some?
      && |f.value.queue| <= |s0.cells|
      && |f.value.outs| == s.begin
      && (forall k :: k in s.popped ==> k < s.begin && s.popped[k] == f.value.outs[k])
  {
    InitInv(power, threads, blank);
    RunRefines(Init(power, threads, blank), schedule);
  }

  // ---------------------------------------------------------------- conservation of calls

  function Count<T>(threads: seq<Pc<T>>, push: bool): nat {
    if threads == [] then 0
    else Count(threads[1..], push) + Flag(threads[0], push)
  }

  function Flag(pc: Pc, push: bool): nat {
    if IsPost(pc) && InPush(pc) == push then 1 else 0
  }

  lemma {:induction false} CountUpdate<T>(threads: seq<Pc<T>>, t: nat, pc: Pc<T>, push: bool)
    requires t < |threads|
    ensures Count(threads[t := pc], push) + Flag(threads[t], push) == Count(threads, push) + Flag(pc, push)
  {
    if t == 0 {
      assert threads[t := pc][1..] == threads[1..];
    } else {
      assert threads[t := pc][1..] == threads[1..][t - 1 := pc];
      CountUpdate(threads[1..], t - 1, pc, push);
    }
  }

  lemma {:induction false} CountIdle<T>(n: nat, push: bool)
    ensures Count(seq(n, _ => Pc<T>.Idle), push) == 0
  {
    if n > 0 {
      assert seq(n, _ => Pc<T>.Idle)[1..] == seq(n - 1, _ => Pc<T>.Idle);
      CountIdle<T>(n - 1, push);
    }
  }

  ghost predicate Balanced<T>(s: Ring<T>) {
    && s.end == s.done + Count(s.threads, true)
    && s.begin == |s.popped| + Count(s.threads, false)
  }

  // The counters move exactly when a thread enters or leaves its committed part.
  ghost predicate CountsMatch<T>(s: Ring<T>, pc: Pc<T>, s': Ring<T>, pc': Pc<T>) {
    && s'.end + Flag(pc, true) + s.done == s.end + Flag(pc', true) + s'.done
    && s'.begin + Flag(pc, false) + |s.popped| == s.begin + Flag(pc', false) + |s'.popped|
  }

  lemma PushCounts<T>(s: Ring<T>, t: nat, spurious: bool)
    requires |s.cells| > 0 && t < |s.threads| && InPush(s.threads[t])
    ensures CountsMatch(s, s.threads[t], StepPush(s, t, spurious), StepPush(s, t, spurious).threads[t])
  {
    match s.threads[t] case PushAdvance(_, _, _) => case _ =>
  }

  lemma PopCounts<T>(s: Ring<T>, t: nat, spurious: bool)
    requires |s.cells| > 0 && t < |s.threads| && !InPush(s.threads[t])
    requires s.threads[t].PopPublish? ==> s.threads[t].seen !in s.popped
    ensures CountsMatch(s, s.threads[t], StepPop(s, t, spurious), StepPop(s, t, spurious).threads[t])
  {
    match s.threads[t] case PopAdvance(_, _) => case _ =>
  }

  lemma StepBalanced<T>(s: Ring<T>, m: Move<T>)
    requires Inv(s) && Balanced(s)
    ensures Balanced(Step(s, m))
  {
    hide StepPush, StepPop, Count;
    StepFrame(s, m);
    var t := m.tid;
    if t < |s.threads| {
      var pc := Step(s, m).threads[t];
      assert Step(s, m).threads == s.threads[t := pc];
      assert ThreadInv(s, t);
      if InPush(s.threads[t]) { PushCounts(s, t, m.spurious); }
      else if !s.threads[t].Idle? { PopCounts(s, t, m.spurious); }
      CountUpdate(s.threads, t, pc, true);
      CountUpdate(s.threads, t, pc, false);
    }
  }

  // A call that returns false moved no counter: m_end counts exactly the pushes that returned
  // true or are writing their item, m_begin those pops that returned true or are taking theirs.
  lemma {:induction false} FailedCallsMoveNothing<T>(power: nat, threads: nat, blank: T, schedule: seq<Move<T>>)
    ensures Balanced(Run(Init(power, threads, blank), schedule))
    decreases |schedule|
  {
    var s0 := Init(power, threads, blank);
    InitInv(power, threads, blank);
    if schedule == [] {
      CountIdle<T>(threads, true);
      CountIdle<T>(threads, false);
    } else {
      var last := |schedule| - 1;
      FailedCallsMoveNothing(power, threads, blank, schedule[..last]);
      RunInv(s0, schedule[..last]);
      StepBalanced(Run(s0, schedule[..last]), schedule[last]);
    }
  }

  // ---------------------------------------------------------------- rollback

  // While thread t sits between its claim and its rollback nobody else changes its cell.
  lemma HeldCellKept<T>(s: Ring<T>, m: Move<T>, t: nat)
    requires Inv(s) && t < |s.threads| && IsPre(s.threads[t])
    requires IsPre(Step(s, m).threads[t])
    ensures Step(s, m).cells[RealIndex(s.threads[t].seen, |s.cells|)]
            == s.cells[RealIndex(s.threads[t].seen, |s.cells|)]
    ensures Step(s, m).threads[t].seen == s.threads[t].seen
    ensures InPush(Step(s, m).threads[t]) == InPush(s.threads[t])
  {
    StepFrame(s, m);
    assert ThreadInv(s, t) && Exclusive(s);
    if m.tid != t {
      hide Step;
      StepTouchesOneCell(s, m, RealIndex(s.threads[t].seen, |s.cells|));
    }
  }

  lemma {:induction false} HeldCellFrozen<T>(s: Ring<T>, schedule: seq<Move<T>>, t: nat)
    requires Inv(s) && t < |s.threads| && IsPre(s.threads[t])
    requires forall i :: 0 <= i <= |schedule| ==> IsPre(Run(s, schedule[..i]).threads[t])
    ensures IsPre(Run(s, schedule).threads[t])
    ensures Run(s, schedule).cells[RealIndex(s.threads[t].seen, |s.cells|)]
            == s.cells[RealIndex(s.threads[t].seen, |s.cells|)]
    ensures Run(s, schedule).threads[t].seen == s.threads[t].seen
    ensures InPush(Run(s, schedule).threads[t]) == InPush(s.threads[t])
    decreases |schedule|
  {
    assert schedule[..|schedule|] == schedule;
    if schedule != [] {
      hide Step, CellInv, ThreadInv, Exclusive, History;
      var last := |schedule| - 1;
      forall i | 0 <= i <= last ensures IsPre(Run(s, schedule[..last][..i]).threads[t]) {
        assert schedule[..last][..i] == schedule[..i];
      }
      HeldCellFrozen(s, schedule[..last], t);
      RunInv(s, schedule[..last]);
      HeldCellKept(Run(s, schedule[..last]), schedule[last], t);
    }
  }

  // A claim whose counter exchange is lost leaves no trace: after the rollback the cell holds
  // the status and the payload it had before the claim, whatever the other threads did between.
  lemma RollbackRestoresCell<T>(s: Ring<T>, claim: Move<T>, between: seq<Move<T>>, undo: Move<T>, t: nat)
    requires Inv(s) && t < |s.threads|
    requires s.threads[t].PushClaim? || s.threads[t].PopClaim?
    requires claim.tid == t && undo.tid == t
    requires var s1 := Step(s, claim);
      && (forall i :: 0 <= i <= |between| ==> IsPre(Run(s1, between[..i]).threads[t]))
      && (Run(s1, between).threads[t].PushUndo? || Run(s1, between).threads[t].PopUndo?)
    ensures var c := RealIndex(s.threads[t].seen, |s.cells|);
      var before := Run(Step(s, claim), between);
      var after := Step(before, undo);
      && after.cells[c] == s.cells[c]
      && after == before.(cells := after.cells, threads := after.threads)
      && (after.threads[t].PushHead? || after.threads[t].PopHead?)
  {
    hide Step, Run, RealIndex, CellInv, ThreadInv, Exclusive, History;
    var s1 := Step(s, claim);
    StepInv(s, claim);
    RunNothing(s1, between);
    assert IsPre(Run(s1, between[..0]).threads[t]);
    ClaimEffect(s, claim);
    HeldCellFrozen(s1, between, t);
    UndoEffect(Run(s1, between), undo);
  }

  lemma RunNothing<T>(s: Ring<T>, schedule: seq<Move<T>>)
    requires |s.cells| > 0
    ensures Run(s, schedule[..0]) == s
  {
  }

  lemma ClaimEffect<T>(s: Ring<T>, m: Move<T>)
    requires |s.cells| > 0 && m.tid < |s.threads|
    requires s.threads[m.tid].PushClaim? || s.threads[m.tid].PopClaim?
    requires IsPre(Step(s, m).threads[m.tid])
    ensures var pc, pc' := s.threads[m.tid], Step(s, m).threads[m.tid];
      var c := RealIndex(pc.seen, |s.cells|);
      && pc'.seen == pc.seen && InPush(pc') == InPush(pc)
      && s.cells[c].status == (if InPush(pc) then Empty else Full)
      && Step(s, m).cells[c].value == s.cells[c].value
  {
  }

  lemma UndoEffect<T>(s: Ring<T>, m: Move<T>)
    requires |s.cells| > 0 && m.tid < |s.threads|
    requires s.threads[m.tid].PushUndo? || s.threads[m.tid].PopUndo?
    ensures var pc, s' := s.threads[m.tid], Step(s, m);
      var c := RealIndex(pc.seen, |s.cells|);
      && s'.cells == s.cells[c := Cell(if InPush(pc) then Empty else Full, s.cells[c].value)]
      && s' == s.(cells := s'.cells, threads := s'.threads)
      && (s'.threads[m.tid].PushHead? || s'.threads[m.tid].PopHead?)
  {
  }

  // ---------------------------------------------------------------- exclusive payload access

  predicate TouchesPayload(pc: Pc) { pc.PushStore? || pc.PopTake? || pc.PopClear? }

  // No two threads are ever about to access the payload of one cell, so a plain (non-atomic)
  // payload copy is never torn.
  lemma PayloadAccessIsExclusive<T>(power: nat, threads: nat, blank: T, schedule: seq<Move<T>>, t: nat, u: nat)
    requires var s := Run(Init(power, threads, blank), schedule);
      && t < |s.threads| && u < |s.threads| && t != u
      && TouchesPayload(s.threads[t]) && TouchesPayload(s.threads[u])
    ensures var s := Run(Init(power, threads, blank), schedule);
      RealIndex(s.threads[t].seen, |s.cells|) != RealIndex(s.threads[u].seen, |s.cells|)
  {
    InitInv(power, threads, blank);
    RunInv(Init(power, threads, blank), schedule);
    var s := Run(Init(power, threads, blank), schedule);
    assert Exclusive(s);
  }

  // ---------------------------------------------------------------- bounded calls

  // Own steps a thread can still make before its call returns.
  function Budget(pc: Pc): nat {
    match pc
    case Idle => 0
    case PushHead(_, n) => Left(PUSH_TRIES, n) * 5 + 4
    case PushLook(_, n, _) => Left(PUSH_TRIES, n) * 5 + 8
    case PushClaim(_, n, _) => Left(PUSH_TRIES, n) * 5 + 7
    case PushAdvance(_, n, _) => Left(PUSH_TRIES, n) * 5 + 6
    case PushUndo(_, n, _) => Left(PUSH_TRIES, n) * 5 + 5
    case PushStore(_, _) => 2
    case PushPublish(_, _) => 1
    case PopHead(n) => Left(POP_TRIES, n) * 5 + 4
    case PopLook(n, _) => Left(POP_TRIES, n) * 5 + 8
    case PopClaim(n, _) => Left(POP_TRIES, n) * 5 + 7
    case PopAdvance(n, _) => Left(POP_TRIES, n) * 5 + 6
    case PopUndo(n, _) => Left(POP_TRIES, n) * 5 + 5
    case PopTake(_) => 3
    case PopClear(_, _) => 2
    case PopPublish(_, _) => 1
  }

  function Left(limit: nat, n: nat): nat { if n <= limit then limit - n else 0 }

  ghost predicate TriesBounded<T>(s: Ring<T>) {
    forall t :: 0 <= t < |s.threads| ==> Bounded(s.threads[t])
  }

  predicate Bounded(pc: Pc) {
    match pc
    case PushHead(_, n) => n <= PUSH_TRIES
    case PushLook(_, n, _) => 0 < n <= PUSH_TRIES
    case PushClaim(_, n, _) => 0 < n <= PUSH_TRIES
    case PushAdvance(_, n, _) => 0 < n <= PUSH_TRIES
    case PushUndo(_, n, _) => 0 < n <= PUSH_TRIES
    case PopHead(n) => n <= POP_TRIES
    case PopLook(n, _) => 0 < n <= POP_TRIES
    case PopClaim(n, _) => 0 < n <= POP_TRIES
    case PopAdvance(n, _) => 0 < n <= POP_TRIES
    case PopUndo(n, _) => 0 < n <= POP_TRIES
    case _ => true
  }

  lemma StepSpendsBudget<T>(s: Ring<T>, m: Move<T>, t: nat)
    requires |s.cells| > 0 && t < |s.threads| && TriesBounded(s)
    ensures TriesBounded(Step(s, m))
    ensures !s.threads[t].Idle? ==>
      Budget(Step(s, m).threads[t]) == Budget(s.threads[t]) || m.tid == t
    ensures !s.threads[t].Idle? && m.tid == t ==> Budget(Step(s, m).threads[t]) < Budget(s.threads[t])
  {
    hide StepPush, StepPop;
    StepFrame(s, m);
    if m.tid < |s.threads| {
      assert Bounded(s.threads[m.tid]);
      OwnStepSpendsBudget(s, m);
    }
  }

  lemma OwnStepSpendsBudget<T>(s: Ring<T>, m: Move<T>)
    requires |s.cells| > 0 && m.tid < |s.threads| && Bounded(s.threads[m.tid])
    ensures Bounded(Step(s, m).threads[m.tid])
    ensures !s.threads[m.tid].Idle? ==> Budget(Step(s, m).threads[m.tid]) < Budget(s.threads[m.tid])
  {
    if InPush(s.threads[m.tid]) { PushSpends(s, m.tid, m.spurious); }
    else { PopSpends(s, m.tid, m.spurious); }
  }

  lemma PushSpends<T>(s: Ring<T>, t: nat, spurious: bool)
    requires |s.cells| > 0 && t < |s.threads| && InPush(s.threads[t]) && Bounded(s.threads[t])
    ensures Bounded(StepPush(s, t, spurious).threads[t])
    ensures Budget(StepPush(s, t, spurious).threads[t]) < Budget(s.threads[t])
  {
    match s.threads[t] case PushHead(_, _) => case _ =>
  }

  lemma PopSpends<T>(s: Ring<T>, t: nat, spurious: bool)
    requires |s.cells| > 0 && t < |s.threads| && !InPush(s.threads[t]) && Bounded(s.threads[t])
    ensures Bounded(StepPop(s, t, spurious).threads[t])
    ensures !s.threads[t].Idle? ==> Budget(StepPop(s, t, spurious).threads[t]) < Budget(s.threads[t])
  {
    match s.threads[t] case PopHead(_) => case _ =>
  }

  function MovesOf<T>(schedule: seq<Move<T>>, t: nat): nat
    decreases |schedule|
  {
    if schedule == [] then 0
    else
      var last := |schedule| - 1;
      MovesOf(schedule[..last], t) + (if schedule[last].tid == t then 1 else 0)
  }

  lemma BudgetLimits<T>(pc: Pc<T>)
    requires Bounded(pc)
    ensures Budget(pc) <= 29 && (!InPush(pc) ==> Budget(pc) <= 24)
  {
  }

  // Every call is over after a bounded number of its own steps, 29 for a push and 24 for a pop,
  // however the other threads interfere.
  lemma {:induction false} CallsAreBounded<T>(s: Ring<T>, schedule: seq<Move<T>>, t: nat)
    requires |s.cells| > 0 && t < |s.threads| && TriesBounded(s)
    requires forall i :: 0 <= i < |schedule| ==> !Run(s, schedule[..i]).threads[t].Idle?
    ensures TriesBounded(Run(s, schedule))
    ensures MovesOf(schedule, t) + Budget(Run(s, schedule).threads[t]) <= Budget(s.threads[t]) <= 29
    ensures !InPush(s.threads[t]) ==> Budget(s.threads[t]) <= 24
    decreases |schedule|
  {
    hide Step, Budget, Bounded;
    BudgetLimits(s.threads[t]);
    if schedule != [] {
      var last := |schedule| - 1;
      forall i | 0 <= i < last ensures !Run(s, schedule[..last][..i]).threads[t].Idle? {
        assert schedule[..last][..i] == schedule[..i];
      }
      CallsAreBounded(s, schedule[..last], t);
      StepSpendsBudget(Run(s, schedule[..last]), schedule[last], t);
    }
  }

  // The budgets are kept by every step, so this covers every thread of every reachable ring.
  lemma {:induction false} ReachableBudgets<T>(power: nat, threads: nat, blank: T, schedule: seq<Move<T>>)
    ensures TriesBounded(Run(Init(power, threads, blank), schedule))
    ensures |Run(Init(power, threads, blank), schedule).cells| > 0
    ensures |Run(Init(power, threads, blank), schedule).threads| == threads
    decreases |schedule|
  {
    InitInv(power, threads, blank);
    RunInv(Init(power, threads, blank), schedule);
    if schedule != [] {
      hide Step, Bounded, Inv;
      var last := |schedule| - 1;
      ReachableBudgets(power, threads, blank, schedule[..last]);
      var r, m := Run(Init(power, threads, blank), schedule[..last]), schedule[last];
      StepFrame(r, m);
      if threads > 0 { StepSpendsBudget(r, m, 0); }
    }
  }
}
