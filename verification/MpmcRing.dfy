/** The multi-producer/multi-consumer ring of water/componet/lock_free_circular_queue_mm.h,
    as atomic steps of any number of threads under sequentially consistent memory.

    One step is one shared access: a load, a compare-exchange, a payload access or a store,
    together with the thread-local work up to the next one. A schedule names, step by step,
    the thread that moves; `Move.spurious` lets a weak compare-exchange fail although the
    expected value is there. The counters are unbounded naturals. */
module MpmcRing {
  datatype Status = Empty | Writing | Full | Reading

  datatype Cell<T> = Cell(status: Status, value: T)

  // Where a thread stands in `push` or `pop`; `seen` is the counter value it loaded,
  // `tries` the number of loop heads it has passed.
  datatype Pc<T> =
    | Idle
    | PushHead(item: T, tries: nat)
    | PushLook(item: T, tries: nat, seen: nat)
    | PushClaim(item: T, tries: nat, seen: nat)
    | PushAdvance(item: T, tries: nat, seen: nat)
    | PushUndo(item: T, tries: nat, seen: nat)
    | PushStore(item: T, seen: nat)
    | PushPublish(item: T, seen: nat)
    | PopHead(tries: nat)
    | PopLook(tries: nat, seen: nat)
    | PopClaim(tries: nat, seen: nat)
    | PopAdvance(tries: nat, seen: nat)
    | PopUndo(tries: nat, seen: nat)
    | PopTake(seen: nat)
    | PopClear(seen: nat, got: T)
    | PopPublish(seen: nat, got: T)

  datatype Call<T> = CallPush(item: T) | CallPop

  datatype Move<T> = Move(tid: nat, spurious: bool, call: Call<T>)

  // `pushed[k]` is the item of the push that moved m_end from k, `popped[k]` the value that
  // the pop which moved m_begin from k returned; `done` counts the pushes that returned true.
  datatype Ring<T> = Ring(
    begin: nat,
    end: nat,
    cells: seq<Cell<T>>,
    threads: seq<Pc<T>>,
    blank: T,
    pushed: seq<T>,
    popped: map<nat, T>,
    done: nat)

  const PUSH_TRIES: nat := 5
  const POP_TRIES: nat := 4
  const MAX_POWER: nat := 24

  function Pow2(n: nat): (r: nat)
    ensures r > 0
  {
    if n == 0 then 1 else 2 * Pow2(n - 1)
  }

  function RealIndex(position: nat, capacity: nat): (r: nat)
    requires capacity > 0
    ensures r < capacity
  {
    position % capacity
  }

  function Init<T>(power: nat, threads: nat, blank: T): Ring<T> {
    var capacity := Pow2(if power < MAX_POWER then power else MAX_POWER);
    Ring(0, 0, seq(capacity, _ => Cell(Empty, blank)), seq(threads, _ => Idle), blank, [], map[], 0)
  }

  predicate IsPre(pc: Pc) { pc.PushAdvance? || pc.PushUndo? || pc.PopAdvance? || pc.PopUndo? }

  predicate IsPost(pc: Pc) { pc.PushStore? || pc.PushPublish? || pc.PopTake? || pc.PopClear? || pc.PopPublish? }

  predicate Holding(pc: Pc) { IsPre(pc) || IsPost(pc) }

  function SetCell<T>(s: Ring<T>, c: nat, cell: Cell<T>): Ring<T>
    requires c < |s.cells|
  {
    s.(cells := s.cells[c := cell])
  }

  function SetPc<T>(s: Ring<T>, t: nat, pc: Pc<T>): Ring<T>
    requires t < |s.threads|
  {
    s.(threads := s.threads[t := pc])
  }

  function StepPush<T>(s: Ring<T>, t: nat, spurious: bool): (r: Ring<T>)
    requires |s.cells| > 0 && t < |s.threads|
    ensures |r.cells| == |s.cells| && |r.threads| == |s.threads| && r.blank == s.blank
  {
    var cap := |s.cells|;
    match s.threads[t]
    case PushHead(item, tries) =>
      if tries == PUSH_TRIES then SetPc(s, t, Idle)
      else SetPc(s, t, PushLook(item, tries + 1, s.end))
    case PushLook(item, tries, seen) =>
      if s.cells[RealIndex(seen, cap)].status != Empty then SetPc(s, t, PushHead(item, tries))
      else SetPc(s, t, PushClaim(item, tries, seen))
    case PushClaim(item, tries, seen) =>
      var c := RealIndex(seen, cap);
      if s.cells[c].status != Empty || spurious then SetPc(s, t, PushHead(item, tries))
      else SetPc(SetCell(s, c, s.cells[c].(status := Writing)), t, PushAdvance(item, tries, seen))
    case PushAdvance(item, tries, seen) =>
      if s.end != seen || spurious then SetPc(s, t, PushUndo(item, tries, seen))
      else SetPc(s, t, PushStore(item, seen)).(end := seen + 1, pushed := s.pushed + [item])
    case PushUndo(item, tries, seen) =>
      var c := RealIndex(seen, cap);
      SetPc(SetCell(s, c, s.cells[c].(status := Empty)), t, PushHead(item, tries))
    case PushStore(item, seen) =>
      var c := RealIndex(seen, cap);
      SetPc(SetCell(s, c, s.cells[c].(value := item)), t, PushPublish(item, seen))
    case PushPublish(item, seen) =>
      var c := RealIndex(seen, cap);
      SetPc(SetCell(s, c, s.cells[c].(status := Full)), t, Idle).(done := s.done + 1)
    case _ => s
  }

  function StepPop<T>(s: Ring<T>, t: nat, spurious: bool): (r: Ring<T>)
    requires |s.cells| > 0 && t < |s.threads|
    ensures |r.cells| == |s.cells| && |r.threads| == |s.threads| && r.blank == s.blank
  {
    var cap := |s.cells|;
    match s.threads[t]
    case PopHead(tries) =>
      if tries == POP_TRIES then SetPc(s, t, Idle)
      else SetPc(s, t, PopLook(tries + 1, s.begin))
    case PopLook(tries, seen) =>
      if s.cells[RealIndex(seen, cap)].status != Full then SetPc(s, t, PopHead(tries))
      else SetPc(s, t, PopClaim(tries, seen))
    case PopClaim(tries, seen) =>
      var c := RealIndex(seen, cap);
      if s.cells[c].status != Full || spurious then SetPc(s, t, PopHead(tries))
      else SetPc(SetCell(s, c, s.cells[c].(status := Reading)), t, PopAdvance(tries, seen))
    case PopAdvance(tries, seen) =>
      if s.begin != seen || spurious then SetPc(s, t, PopUndo(tries, seen))
      else SetPc(s, t, PopTake(seen)).(begin := seen + 1)
    case PopUndo(tries, seen) =>
      var c := RealIndex(seen, cap);
      SetPc(SetCell(s, c, s.cells[c].(status := Full)), t, PopHead(tries))
    case PopTake(seen) =>
      SetPc(s, t, PopClear(seen, s.cells[RealIndex(seen, cap)].value))
    case PopClear(seen, got) =>
      var c := RealIndex(seen, cap);
      SetPc(SetCell(s, c, s.cells[c].(value := s.blank)), t, PopPublish(seen, got))
    case PopPublish(seen, got) =>
      var c := RealIndex(seen, cap);
      SetPc(SetCell(s, c, s.cells[c].(status := Empty)), t, Idle).(popped := s.popped[seen := got])
    case _ => s
  }

  predicate InPush(pc: Pc) {
    pc.PushHead? || pc.PushLook? || pc.PushClaim? || pc.PushAdvance? || pc.PushUndo? || pc.PushStore? || pc.PushPublish?
  }

  // One atomic step. A thread number outside the system stutters.
  function Step<T>(s: Ring<T>, m: Move<T>): (r: Ring<T>)
    requires |s.cells| > 0
    ensures |r.cells| == |s.cells| && |r.threads| == |s.threads| && r.blank == s.blank
  {
    if m.tid >= |s.threads| then s
    else
      var pc := s.threads[m.tid];
      if pc.Idle? then
        SetPc(s, m.tid, match m.call case CallPush(item) => PushHead(item, 0) case CallPop => PopHead(0))
      else if InPush(pc) then StepPush(s, m.tid, m.spurious)
      else StepPop(s, m.tid, m.spurious)
  }

  // ---------------------------------------------------------------- invariant

  // The one position in [begin, begin + cap) that lives in cell c.
  function Window(begin: nat, cap: nat, c: nat): nat
    requires cap > 0
  {
    begin + (c - begin) % cap
  }

  function Pos<T>(s: Ring<T>, c: nat): nat
    requires |s.cells| > 0
  {
    Window(s.begin, |s.cells|, c)
  }

  predicate Covered<T>(s: Ring<T>, c: nat)
    requires |s.cells| > 0
  {
    Pos(s, c) < s.end
  }

  ghost predicate CellInv<T>(s: Ring<T>, c: nat)
    requires |s.cells| > 0 && |s.pushed| == s.end && c < |s.cells|
  {
    match s.cells[c].status
    case Empty => !Covered(s, c)
    case Full => Covered(s, c) && s.cells[c].value == s.pushed[Pos(s, c)]
    case _ => exists t :: 0 <= t < |s.threads| && HoldsCell(s, t, c)
  }

  predicate HoldsCell<T>(s: Ring<T>, t: nat, c: nat)
    requires |s.cells| > 0 && t < |s.threads|
  {
    Holding(s.threads[t]) && RealIndex(s.threads[t].seen, |s.cells|) == c
  }

  ghost predicate ThreadInv<T>(s: Ring<T>, t: nat)
    requires |s.cells| > 0 && |s.pushed| == s.end && t < |s.threads|
  {
    var pc := s.threads[t];
    Holding(pc) ==>
      var c := RealIndex(pc.seen, |s.cells|);
      if InPush(pc) then
        && s.cells[c].status == Writing
        && if IsPre(pc) then !Covered(s, c)
           else
             && s.begin <= pc.seen < s.end
             && s.pushed[pc.seen] == pc.item
             && Pos(s, c) == pc.seen
             && (pc.PushPublish? ==> s.cells[c].value == pc.item)
      else
        && s.cells[c].status == Reading
        && if IsPre(pc) then Covered(s, c) && s.cells[c].value == s.pushed[Pos(s, c)]
           else
             && pc.seen < s.begin && pc.seen < s.end
             && !Covered(s, c)
             && pc.seen !in s.popped
             && s.pushed[pc.seen] == (if pc.PopTake? then s.cells[c].value else pc.got)
  }

  ghost predicate Exclusive<T>(s: Ring<T>)
    requires |s.cells| > 0
  {
    forall t, u :: 0 <= t < u < |s.threads| && Holding(s.threads[t]) && Holding(s.threads[u]) ==>
      RealIndex(s.threads[t].seen, |s.cells|) != RealIndex(s.threads[u].seen, |s.cells|)
  }

  ghost predicate History<T>(s: Ring<T>)
    requires |s.pushed| == s.end
  {
    && (forall k :: k in s.popped ==> k < s.begin && k < s.end && s.popped[k] == s.pushed[k])
    && (forall k :: 0 <= k < s.begin && k !in s.popped ==>
          exists t :: 0 <= t < |s.threads| && Popping(s.threads[t], k))
  }

  predicate Popping(pc: Pc, k: nat) {
    (pc.PopTake? || pc.PopClear? || pc.PopPublish?) && pc.seen == k
  }

  ghost predicate Inv<T>(s: Ring<T>) {
    && |s.cells| > 0
    && |s.pushed| == s.end
    && s.begin <= s.end <= s.begin + |s.cells|
    && (forall c :: 0 <= c < |s.cells| ==> CellInv(s, c))
    && (forall t :: 0 <= t < |s.threads| ==> ThreadInv(s, t))
    && Exclusive(s)
    && History(s)
  }

  // ---------------------------------------------------------------- arithmetic of positions

  lemma MulAtLeast(a: int, m: int)
    requires a >= 1 && m > 0
    ensures a * m >= m
  {
    assert a * m == (a - 1) * m + m;
  }

  lemma ModSmall(x: int, n: int, m: nat)
    requires 0 < m && 0 <= x - n * m < m
    ensures x % m == x - n * m
  {
    var q := x / m;
    assert x == q * m + x % m;
    assert n * m - q * m == (n - q) * m && (q - n) * m == -((n - q) * m);
    if q < n {
      MulAtLeast(n - q, m);
    } else if q > n {
      MulAtLeast(q - n, m);
    }
  }

  // A position of the window lives in its own cell ...
  lemma PosOf(begin: nat, cap: nat, k: nat)
    requires cap > 0 && begin <= k < begin + cap
    ensures Window(begin, cap, RealIndex(k, cap)) == k
  {
    var c := k % cap;
    assert k == (k / cap) * cap + c;
    ModSmall(c - begin, -(k / cap), cap);
  }

  // ... and a cell holds the position that maps to it.
  lemma PosMod(begin: nat, cap: nat, c: nat)
    requires c < cap
    ensures RealIndex(Window(begin, cap, c), cap) == c
    ensures begin <= Window(begin, cap, c) < begin + cap
  {
    var r := (c - begin) % cap;
    var q := (c - begin) / cap;
    assert c - begin == q * cap + r;
    assert Window(begin, cap, c) == c - q * cap;
    ModSmall(Window(begin, cap, c), -q, cap);
  }

  lemma IndexWraps(k: nat, cap: nat)
    requires cap > 0
    ensures RealIndex(k + cap, cap) == RealIndex(k, cap)
  {
    assert k == (k / cap) * cap + k % cap;
    assert (k / cap + 1) * cap == (k / cap) * cap + cap;
    ModSmall(k + cap, k / cap + 1, cap);
  }

  // Moving begin forward by one moves only the first position of the window.
  lemma PosAdvance(begin: nat, cap: nat, c: nat)
    requires c < cap
    ensures Window(begin + 1, cap, c) ==
            if c == RealIndex(begin, cap) then begin + cap else Window(begin, cap, c)
  {
    PosMod(begin, cap, c);
    if c == RealIndex(begin, cap) {
      IndexWraps(begin, cap);
      PosOf(begin + 1, cap, begin + cap);
    } else {
      PosOf(begin + 1, cap, Window(begin, cap, c));
    }
  }

  // ---------------------------------------------------------------- every step keeps the invariant

  // No thread but t holds cell c.
  ghost predicate Mine<T>(s: Ring<T>, t: nat, c: nat)
    requires |s.cells| > 0
  {
    forall u :: 0 <= u < |s.threads| && u != t ==> !HoldsCell(s, u, c)
  }

  lemma MineIfHeldOrFree<T>(s: Ring<T>, t: nat, c: nat)
    requires Inv(s) && t < |s.threads| && c < |s.cells|
    requires HoldsCell(s, t, c) || s.cells[c].status == Empty || s.cells[c].status == Full
    ensures Mine(s, t, c)
  {
    forall u | 0 <= u < |s.threads| && u != t
      ensures !HoldsCell(s, u, c)
    {
      assert ThreadInv(s, u);
    }
  }

  // A step that touches one cell which no other thread holds, and neither counter.
  lemma OneCellStep<T>(s: Ring<T>, s': Ring<T>, t: nat, c: nat)
    requires Inv(s) && t < |s.threads| && c < |s.cells|
    requires s' == s.(cells := s'.cells, threads := s'.threads, popped := s'.popped, done := s'.done)
    requires |s'.cells| == |s.cells| && (forall d :: 0 <= d < |s.cells| && d != c ==> s'.cells[d] == s.cells[d])
    requires |s'.threads| == |s.threads| && (forall u :: 0 <= u < |s.threads| && u != t ==> s'.threads[u] == s.threads[u])
    requires Mine(s, t, c) || s'.cells[c] == s.cells[c]
    requires Holding(s.threads[t]) ==> HoldsCell(s, t, c)
    requires Holding(s'.threads[t]) ==> HoldsCell(s', t, c) && Mine(s, t, c)
    requires forall k :: k in s'.popped && k !in s.popped ==> RealIndex(k, |s.cells|) == c && Mine(s, t, c)
    requires Mine(s, t, c) ==> CellInv(s', c)
    requires ThreadInv(s', t) && History(s')
    ensures Inv(s')
  {
    if HoldsCell(s, t, c) { MineIfHeldOrFree(s, t, c); }
    forall d | 0 <= d < |s'.cells| ensures CellInv(s', d) {
      assert CellInv(s, d);
      if (d != c || !Mine(s, t, c)) && (s.cells[d].status == Writing || s.cells[d].status == Reading) {
        var u :| 0 <= u < |s.threads| && HoldsCell(s, u, d);
        assert u != t && HoldsCell(s', u, d);
      }
    }
    forall u | 0 <= u < |s'.threads| ensures ThreadInv(s', u) {
      assert ThreadInv(s, u);
      if u != t && Holding(s.threads[u]) {
        assert HoldsCell(s, u, RealIndex(s.threads[u].seen, |s.cells|));
      }
    }
    forall u, v | 0 <= u < v < |s'.threads| && Holding(s'.threads[u]) && Holding(s'.threads[v])
      ensures RealIndex(s'.threads[u].seen, |s.cells|) != RealIndex(s'.threads[v].seen, |s.cells|)
    {
      assert HoldsCell(s', u, RealIndex(s'.threads[u].seen, |s.cells|));
      assert HoldsCell(s', v, RealIndex(s'.threads[v].seen, |s.cells|));
      if u == t { assert !HoldsCell(s, v, c); } else if v == t { assert !HoldsCell(s, u, c); }
    }
  }

  lemma HoldersStay<T>(s: Ring<T>, s': Ring<T>, t: nat, c: nat)
    requires |s.cells| == |s'.cells| > 0 && |s.threads| == |s'.threads| && t < |s.threads|
    requires forall u :: 0 <= u < |s.threads| && u != t ==> s'.threads[u] == s.threads[u]
    requires forall d :: HoldsCell(s, t, d) ==> HoldsCell(s', t, d)
    ensures (exists u :: 0 <= u < |s.threads| && HoldsCell(s, u, c)) ==>
            exists u :: 0 <= u < |s'.threads| && HoldsCell(s', u, c)
  {
    if u :| 0 <= u < |s.threads| && HoldsCell(s, u, c) {
      assert HoldsCell(s', u, c);
    }
  }

  // Steps that change no cell and no counter, by a thread that holds nothing before and after,
  // or that goes from a lost counter exchange to the rollback of the same cell.
  lemma QuietStep<T>(s: Ring<T>, t: nat, pc: Pc<T>)
    requires Inv(s) && t < |s.threads|
    requires (!Holding(s.threads[t]) && !Holding(pc))
             || (s.threads[t].PushAdvance? && pc == PushUndo(s.threads[t].item, s.threads[t].tries, s.threads[t].seen))
             || (s.threads[t].PopAdvance? && pc == PopUndo(s.threads[t].tries, s.threads[t].seen))
    ensures Inv(SetPc(s, t, pc))
  {
    var s' := SetPc(s, t, pc);
    assert ThreadInv(s, t);
    HistoryKept(s, s', t);
    if Holding(pc) {
      var c := RealIndex(pc.seen, |s.cells|);
      MineIfHeldOrFree(s, t, c);
      assert HoldsCell(s', t, c);
      OneCellStep(s, s', t, c);
    } else {
      assert CellInv(s, 0);
      HoldersStay(s, s', t, 0);
      OneCellStep(s, s', t, 0);
    }
  }

  // A step by a thread that is not popping, and that returns nothing, keeps the history.
  lemma HistoryKept<T>(s: Ring<T>, s': Ring<T>, t: nat)
    requires |s.pushed| == s.end && |s'.pushed| == s'.end && History(s) && t < |s.threads| == |s'.threads|
    requires s'.begin == s.begin && s'.popped == s.popped && s.pushed <= s'.pushed
    requires forall u :: 0 <= u < |s.threads| && u != t ==> s'.threads[u] == s.threads[u]
    requires forall k :: Popping(s.threads[t], k) ==> Popping(s'.threads[t], k)
    ensures History(s')
  {
    forall k | 0 <= k < s'.begin && k !in s'.popped
      ensures exists u :: 0 <= u < |s'.threads| && Popping(s'.threads[u], k)
    {
      var u :| 0 <= u < |s.threads| && Popping(s.threads[u], k);
      assert Popping(s'.threads[u], k);
    }
  }

  // The steps that write one cell: claim, payload access, and the store that lets the cell go.
  lemma PushClaimStep<T>(s: Ring<T>, t: nat)
    requires Inv(s) && t < |s.threads| && s.threads[t].PushClaim?
    requires s.cells[RealIndex(s.threads[t].seen, |s.cells|)].status == Empty
    ensures Inv(StepPush(s, t, false))
  {
    var s' := StepPush(s, t, false);
    var c := RealIndex(s.threads[t].seen, |s.cells|);
    assert CellInv(s, c) && ThreadInv(s, t);
    MineIfHeldOrFree(s, t, c);
    HistoryKept(s, s', t);
    if Holding(s'.threads[t]) { assert HoldsCell(s', t, c); }
    OneCellStep(s, s', t, c);
  }

  lemma PopClaimStep<T>(s: Ring<T>, t: nat)
    requires Inv(s) && t < |s.threads| && s.threads[t].PopClaim?
    requires s.cells[RealIndex(s.threads[t].seen, |s.cells|)].status == Full
    ensures Inv(StepPop(s, t, false))
  {
    var s' := StepPop(s, t, false);
    var c := RealIndex(s.threads[t].seen, |s.cells|);
    assert CellInv(s, c) && ThreadInv(s, t);
    MineIfHeldOrFree(s, t, c);
    HistoryKept(s, s', t);
    if Holding(s'.threads[t]) { assert HoldsCell(s', t, c); }
    OneCellStep(s, s', t, c);
  }

  lemma PushHeldStep<T>(s: Ring<T>, t: nat)
    requires Inv(s) && t < |s.threads|
    requires s.threads[t].PushUndo? || s.threads[t].PushStore? || s.threads[t].PushPublish?
    ensures Inv(StepPush(s, t, false))
  {
    var s' := StepPush(s, t, false);
    var c := RealIndex(s.threads[t].seen, |s.cells|);
    assert CellInv(s, c) && ThreadInv(s, t);
    MineIfHeldOrFree(s, t, c);
    HistoryKept(s, s', t);
    if Holding(s'.threads[t]) { assert HoldsCell(s', t, c); }
    OneCellStep(s, s', t, c);
  }

  lemma PopHeldStep<T>(s: Ring<T>, t: nat)
    requires Inv(s) && t < |s.threads|
    requires s.threads[t].PopUndo? || s.threads[t].PopTake? || s.threads[t].PopClear?
    ensures Inv(StepPop(s, t, false))
  {
    var s' := StepPop(s, t, false);
    var c := RealIndex(s.threads[t].seen, |s.cells|);
    assert CellInv(s, c) && ThreadInv(s, t);
    MineIfHeldOrFree(s, t, c);
    HistoryKept(s, s', t);
    if Holding(s'.threads[t]) { assert HoldsCell(s', t, c); }
    OneCellStep(s, s', t, c);
  }

  lemma ReturnStep<T>(s: Ring<T>, t: nat)
    requires Inv(s) && t < |s.threads| && s.threads[t].PopPublish?
    ensures Inv(StepPop(s, t, false))
  {
    var pc := s.threads[t];
    var s' := StepPop(s, t, false);
    var c := RealIndex(pc.seen, |s.cells|);
    assert ThreadInv(s, t);
    MineIfHeldOrFree(s, t, c);
    forall k | 0 <= k < s'.begin && k !in s'.popped
      ensures exists u :: 0 <= u < |s'.threads| && Popping(s'.threads[u], k)
    {
      var u :| 0 <= u < |s.threads| && Popping(s.threads[u], k);
      assert u != t;
      assert Popping(s'.threads[u], k);
    }
    OneCellStep(s, s', t, c);
  }

  // The push that wins the exchange on m_end: its cell enters the window.
  lemma EndStep<T>(s: Ring<T>, t: nat)
    requires Inv(s) && t < |s.threads| && s.threads[t].PushAdvance? && s.end == s.threads[t].seen
    ensures s.end < s.begin + |s.cells|
    ensures Inv(StepPush(s, t, false))
  {
    var s' := StepPush(s, t, false);
    var cap := |s.cells|;
    var c := RealIndex(s.end, cap);
    assert ThreadInv(s, t);
    IndexWraps(s.begin, cap);
    PosOf(s.begin, cap, s.begin);
    PosOf(s.begin, cap, s.end);
    forall d | 0 <= d < cap && d != c ensures Pos(s, d) != s.end {
      PosMod(s.begin, cap, d);
    }
    HistoryKept(s, s', t);
    MineIfHeldOrFree(s, t, c);
    forall d | 0 <= d < cap ensures CellInv(s', d) {
      assert CellInv(s, d);
      HoldersStay(s, s', t, d);
    }
    forall u | 0 <= u < |s'.threads| ensures ThreadInv(s', u) {
      assert ThreadInv(s, u);
      assert u != t ==> !HoldsCell(s, u, c);
    }
  }

  // The pop that wins the exchange on m_begin: its cell leaves the window.
  lemma BeginStep<T>(s: Ring<T>, t: nat)
    requires Inv(s) && t < |s.threads| && s.threads[t].PopAdvance? && s.begin == s.threads[t].seen
    ensures s.begin < s.end && s.begin !in s.popped
    ensures Inv(StepPop(s, t, false))
  {
    var s' := StepPop(s, t, false);
    hide Window, RealIndex;
    assert ThreadInv(s, t);
    PosOf(s.begin, |s.cells|, s.begin);
    forall d | 0 <= d < |s.cells| ensures CellInv(s', d) { BeginCell(s, t, d); }
    forall u | 0 <= u < |s'.threads| ensures ThreadInv(s', u) { BeginThread(s, t, u); }
    BeginHistory(s, t);
    hide CellInv, ThreadInv, History;
  }

  lemma BeginCell<T>(s: Ring<T>, t: nat, d: nat)
    requires Inv(s) && t < |s.threads| && s.threads[t].PopAdvance? && s.begin == s.threads[t].seen
    requires d < |s.cells|
    ensures CellInv(StepPop(s, t, false), d)
  {
    hide Window, RealIndex;
    assert ThreadInv(s, t) && CellInv(s, d);
    PosOf(s.begin, |s.cells|, s.begin);
    PosAdvance(s.begin, |s.cells|, d);
    HoldersStay(s, StepPop(s, t, false), t, d);
  }

  lemma BeginThread<T>(s: Ring<T>, t: nat, u: nat)
    requires Inv(s) && t < |s.threads| && s.threads[t].PopAdvance? && s.begin == s.threads[t].seen
    requires u < |s.threads|
    ensures ThreadInv(StepPop(s, t, false), u)
  {
    hide Window, RealIndex, CellInv;
    var c := RealIndex(s.begin, |s.cells|);
    assert ThreadInv(s, t) && ThreadInv(s, u);
    PosOf(s.begin, |s.cells|, s.begin);
    MineIfHeldOrFree(s, t, c);
    assert u != t ==> !HoldsCell(s, u, c);
    if Holding(s.threads[u]) { PosAdvance(s.begin, |s.cells|, RealIndex(s.threads[u].seen, |s.cells|)); }
  }

  lemma BeginHistory<T>(s: Ring<T>, t: nat)
    requires |s.cells| > 0 && |s.pushed| == s.end && History(s) && s.begin < s.end
    requires t < |s.threads| && s.threads[t].PopAdvance? && s.begin == s.threads[t].seen
    ensures History(StepPop(s, t, false))
  {
    var s' := StepPop(s, t, false);
    forall k | 0 <= k < s'.begin && k !in s'.popped
      ensures exists u :: 0 <= u < |s'.threads| && Popping(s'.threads[u], k)
    {
      if k == s.begin {
        assert Popping(s'.threads[t], k);
      } else {
        var u :| 0 <= u < |s.threads| && Popping(s.threads[u], k);
        assert Popping(s'.threads[u], k);
      }
    }
  }

  lemma PushStepInv<T>(s: Ring<T>, t: nat, spurious: bool)
    requires Inv(s) && t < |s.threads| && InPush(s.threads[t])
    ensures Inv(StepPush(s, t, spurious))
  {
    var pc := s.threads[t];
    var s' := StepPush(s, t, spurious);
    match pc
    case PushClaim(item, tries, seen) =>
      if s.cells[RealIndex(seen, |s.cells|)].status == Empty && !spurious { PushClaimStep(s, t); }
      else { QuietStep(s, t, s'.threads[t]); }
    case PushAdvance(item, tries, seen) =>
      if s.end == seen && !spurious { EndStep(s, t); } else { QuietStep(s, t, s'.threads[t]); }
    case PushHead(_, _) => QuietStep(s, t, s'.threads[t]);
    case PushLook(_, _, _) => QuietStep(s, t, s'.threads[t]);
    case _ => PushHeldStep(s, t);
  }

  lemma PopStepInv<T>(s: Ring<T>, t: nat, spurious: bool)
    requires Inv(s) && t < |s.threads| && !InPush(s.threads[t]) && s.threads[t] != Idle
    ensures Inv(StepPop(s, t, spurious))
  {
    var pc := s.threads[t];
    var s' := StepPop(s, t, spurious);
    match pc
    case PopClaim(tries, seen) =>
      if s.cells[RealIndex(seen, |s.cells|)].status == Full && !spurious { PopClaimStep(s, t); }
      else { QuietStep(s, t, s'.threads[t]); }
    case PopAdvance(tries, seen) =>
      if s.begin == seen && !spurious { BeginStep(s, t); } else { QuietStep(s, t, s'.threads[t]); }
    case PopHead(_) => QuietStep(s, t, s'.threads[t]);
    case PopLook(_, _) => QuietStep(s, t, s'.threads[t]);
    case PopPublish(_, _) => ReturnStep(s, t);
    case _ => PopHeldStep(s, t);
  }

  lemma StepInv<T>(s: Ring<T>, m: Move<T>)
    requires Inv(s)
    ensures Inv(Step(s, m))
  {
    if m.tid < |s.threads| {
      var pc := s.threads[m.tid];
      if pc.Idle? { QuietStep(s, m.tid, Step(s, m).threads[m.tid]); }
      else if InPush(pc) { PushStepInv(s, m.tid, m.spurious); }
      else { PopStepInv(s, m.tid, m.spurious); }
    }
  }

  lemma InitInv<T>(power: nat, threads: nat, blank: T)
    ensures Inv(Init(power, threads, blank))
  {
    var s := Init(power, threads, blank);
    forall c | 0 <= c < |s.cells| ensures CellInv(s, c) {
      PosMod(0, |s.cells|, c);
    }
  }

  // ---------------------------------------------------------------- what one step touches

  // The counter exchanges that succeed.
  predicate EndMoves<T>(s: Ring<T>, m: Move<T>) {
    m.tid < |s.threads| && s.threads[m.tid].PushAdvance? && s.end == s.threads[m.tid].seen && !m.spurious
  }

  predicate BeginMoves<T>(s: Ring<T>, m: Move<T>) {
    m.tid < |s.threads| && s.threads[m.tid].PopAdvance? && s.begin == s.threads[m.tid].seen && !m.spurious
  }

  predicate Returns<T>(s: Ring<T>, m: Move<T>) {
    m.tid < |s.threads| && s.threads[m.tid].PopPublish?
  }

  ghost predicate Framed<T>(s: Ring<T>, t: nat, s': Ring<T>)
  {
    && |s'.cells| == |s.cells| && |s'.threads| == |s.threads| && s'.blank == s.blank
    && (forall u :: 0 <= u < |s.threads| && u != t ==> s'.threads[u] == s.threads[u])
  }

  lemma PushFrame<T>(s: Ring<T>, m: Move<T>)
    requires |s.cells| > 0 && m.tid < |s.threads| && InPush(s.threads[m.tid])
    ensures var s' := StepPush(s, m.tid, m.spurious);
      && Framed(s, m.tid, s') && s'.begin == s.begin && s'.popped == s.popped
      && s'.end == (if EndMoves(s, m) then s.end + 1 else s.end)
      && s'.pushed == (if EndMoves(s, m) then s.pushed + [s.threads[m.tid].item] else s.pushed)
  {
    match s.threads[m.tid] case PushAdvance(_, _, _) => case _ =>
  }

  lemma PopFrame<T>(s: Ring<T>, m: Move<T>)
    requires |s.cells| > 0 && m.tid < |s.threads| && !InPush(s.threads[m.tid])
    ensures var s' := StepPop(s, m.tid, m.spurious);
      && Framed(s, m.tid, s') && s'.end == s.end && s'.pushed == s.pushed && s'.done == s.done
      && s'.begin == (if BeginMoves(s, m) then s.begin + 1 else s.begin)
      && s'.popped == (if Returns(s, m) then s.popped[s.threads[m.tid].seen := s.threads[m.tid].got] else s.popped)
  {
    match s.threads[m.tid] case PopAdvance(_, _) => case _ =>
  }

  // A step moves its own thread; the counters and the history move only at the successful
  // exchanges and returns.
  lemma StepFrame<T>(s: Ring<T>, m: Move<T>)
    requires |s.cells| > 0
    ensures var s' := Step(s, m);
      && Framed(s, m.tid, s')
      && (m.tid >= |s.threads| ==> s' == s)
      && s'.end == (if EndMoves(s, m) then s.end + 1 else s.end)
      && s'.pushed == (if EndMoves(s, m) then s.pushed + [s.threads[m.tid].item] else s.pushed)
      && s'.begin == (if BeginMoves(s, m) then s.begin + 1 else s.begin)
      && s'.popped == (if Returns(s, m) then s.popped[s.threads[m.tid].seen := s.threads[m.tid].got] else s.popped)
  {
    hide StepPush, StepPop;
    if m.tid < |s.threads| {
      if InPush(s.threads[m.tid]) { PushFrame(s, m); } else { PopFrame(s, m); }
    }
  }

  // A step changes only a cell that its thread holds, or one that it claims while free.
  lemma StepTouchesOneCell<T>(s: Ring<T>, m: Move<T>, c: nat)
    requires |s.cells| > 0 && c < |s.cells|
    requires m.tid < |s.threads| ==> !HoldsCell(s, m.tid, c)
    requires s.cells[c].status == Writing || s.cells[c].status == Reading
    ensures Step(s, m).cells[c] == s.cells[c]
  {
    if m.tid < |s.threads| && Holding(s.threads[m.tid]) {
      assert RealIndex(s.threads[m.tid].seen, |s.cells|) != c;
    }
  }

  // ---------------------------------------------------------------- whole runs

  function Run<T>(s: Ring<T>, schedule: seq<Move<T>>): (r: Ring<T>)
    requires |s.cells| > 0
    ensures |r.cells| == |s.cells| && |r.threads| == |s.threads| && r.blank == s.blank
    decreases |schedule|
  {
    if schedule == [] then s
    else
      var last := |schedule| - 1;
      Step(Run(s, schedule[..last]), schedule[last])
  }

  lemma {:induction false} RunInv<T>(s: Ring<T>, schedule: seq<Move<T>>)
    requires Inv(s)
    ensures Inv(Run(s, schedule))
    decreases |schedule|
  {
    if schedule != [] {
      var last := |schedule| - 1;
      RunInv(s, schedule[..last]);
      StepInv(Run(s, schedule[..last]), schedule[last]);
    }
  }
}
