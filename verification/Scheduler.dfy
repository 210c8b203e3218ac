/** The coroutine scheduler of water/coroutine/coroutine.cpp: a table of coroutines, the ids that
    are free again, and one pass that resumes everything. What a coroutine does between two
    resumptions is a slice of its script: it creates others, calls the scheduler, and then yields
    or returns. */
module Scheduler {
  import opened Common

  datatype Script = Script(actions: seq<Action>, next: Option<Script>)

  datatype Action = Create(script: Script) | Schedule

  datatype Status = Ready | Running | Sleeping

  // `uid` tells coroutines apart that follow one another under the same id.
  datatype Corot = Corot(id: nat, uid: nat, status: Status, script: Script)

  // `trace` lists the resumptions so far: under which id, and which coroutine.
  datatype State = State(
    tasks: seq<Option<Corot>>, free: seq<nat>, running: Option<nat>, nextUid: nat, trace: seq<(nat, nat)>)

  const EMPTY := State([], [], None, 0, [])

  // ---------------------------------------------------------------- the invariant

  predicate NoRepeats<T(==)>(s: seq<T>) {
    forall i, j :: 0 <= i < j < |s| ==> s[i] != s[j]
  }

  // The free ids are exactly the empty slots, each listed once.
  predicate FreeOk(s: State) {
    && NoRepeats(s.free)
    && (forall i :: 0 <= i < |s.free| ==> s.free[i] < |s.tasks| && s.tasks[s.free[i]].None?)
    && (forall k :: 0 <= k < |s.tasks| && s.tasks[k].None? ==> k in s.free)
  }

  // Every coroutine sits at its own id, and only the one named by `running` runs.
  predicate TasksOk(s: State) {
    && (forall k :: 0 <= k < |s.tasks| && s.tasks[k].Some? ==>
          && s.tasks[k].value.id == k && s.tasks[k].value.uid < s.nextUid
          && (s.tasks[k].value.status == Running <==> s.running == Some(k)))
    && (forall j, k :: 0 <= j < k < |s.tasks| && s.tasks[j].Some? && s.tasks[k].Some? ==>
          s.tasks[j].value.uid != s.tasks[k].value.uid)
    && (s.running.Some? ==> s.running.value < |s.tasks| && s.tasks[s.running.value].Some?)
  }

  predicate Inv(s: State) {
    FreeOk(s) && TasksOk(s)
  }

  // ---------------------------------------------------------------- the operations

  function NewId(s: State): nat {
    if s.free == [] then |s.tasks| else s.free[0]
  }

  function Created(s: State, script: Script): State
    requires FreeOk(s)
  {
    var co := Some(Corot(NewId(s), s.nextUid, Ready, script));
    if s.free == [] then s.(tasks := s.tasks + [co], nextUid := s.nextUid + 1)
    else s.(tasks := s.tasks[s.free[0] := co], free := s.free[1..], nextUid := s.nextUid + 1)
  }

  lemma CreatedInv(s: State, script: Script)
    requires Inv(s)
    ensures Inv(Created(s, script))
    ensures var t := Created(s, script);
      && NewId(s) < |t.tasks| && |s.tasks| <= |t.tasks| <= |s.tasks| + 1
      && t.tasks[NewId(s)] == Some(Corot(NewId(s), s.nextUid, Ready, script))
      && (NewId(s) < |s.tasks| ==> s.tasks[NewId(s)].None?)
      && (forall k :: 0 <= k < |s.tasks| && k != NewId(s) ==> t.tasks[k] == s.tasks[k])
      && t.running == s.running && t.trace == s.trace
  {
    CreatedFree(s, script);
    CreatedTasks(s, script);
  }

  lemma CreatedFree(s: State, script: Script)
    requires FreeOk(s)
    ensures FreeOk(Created(s, script))
  {
    var t := Created(s, script);
    if s.free != [] {
      assert s.free[0] !in t.free;
      forall k | 0 <= k < |t.tasks| && t.tasks[k].None? ensures k in t.free {
        assert k in s.free;
        var i :| 0 <= i < |s.free| && s.free[i] == k;
        assert i > 0 && t.free[i - 1] == k;
      }
    }
  }

  lemma CreatedTasks(s: State, script: Script)
    requires FreeOk(s) && TasksOk(s)
    ensures TasksOk(Created(s, script))
  {
    if s.free != [] { assert s.tasks[s.free[0]].None?; }
  }

  function Destroyed(s: State, k: nat): State
    requires k < |s.tasks|
  {
    s.(tasks := s.tasks[k := None], free := s.free + [k], running := None)
  }

  function Yielded(s: State, k: nat, rest: Script): State
    requires k < |s.tasks| && s.tasks[k].Some?
  {
    s.(tasks := s.tasks[k := Some(s.tasks[k].value.(status := Sleeping, script := rest))], running := None)
  }

  function Entered(s: State, k: nat): State
    requires k < |s.tasks| && s.tasks[k].Some?
  {
    s.(tasks := s.tasks[k := Some(s.tasks[k].value.(status := Running))], running := Some(k),
       trace := s.trace + [(k, s.tasks[k].value.uid)])
  }

  lemma SwitchInv(s: State, k: nat)
    requires Inv(s) && k < |s.tasks| && s.tasks[k].Some?
    ensures s.running.None? ==> Inv(Entered(s, k))
    ensures s.running == Some(k) ==> Inv(Destroyed(s, k)) && forall rest :: Inv(Yielded(s, k, rest))
  {
    var t := Destroyed(s, k);
    forall j | 0 <= j < |t.tasks| && t.tasks[j].None? ensures j in t.free {
      if j == k { assert t.free[|t.free| - 1] == k; } else { assert j in s.free; }
    }
  }

  // ---------------------------------------------------------------- one slice

  function Perform(s: State, actions: seq<Action>): (t: State)
    requires Inv(s)
    ensures Inv(t)
  {
    if actions == [] then s
    else
      var before := Perform(s, actions[..|actions| - 1]);
      match actions[|actions| - 1]
      case Create(script) => CreatedInv(before, script); Created(before, script)
      case Schedule => before // refused: a coroutine is running
  }

  // Whatever a slice creates goes into empty slots or behind the table.
  lemma {:induction false} PerformKeeps(s: State, actions: seq<Action>)
    requires Inv(s)
    ensures var t := Perform(s, actions);
      && |s.tasks| <= |t.tasks| && t.running == s.running && t.trace == s.trace && s.nextUid <= t.nextUid
      && (forall k :: 0 <= k < |s.tasks| && s.tasks[k].Some? ==> t.tasks[k] == s.tasks[k])
      && (forall k :: 0 <= k < |t.tasks| && t.tasks[k].Some? ==>
            (k < |s.tasks| && s.tasks[k].Some?) || (t.tasks[k].value.uid >= s.nextUid && t.tasks[k].value.status == Ready))
    decreases |actions|
  {
    if actions != [] {
      PerformKeeps(s, actions[..|actions| - 1]);
      match actions[|actions| - 1]
      case Create(script) => CreatedInv(Perform(s, actions[..|actions| - 1]), script);
      case Schedule =>
    }
  }

  // Runs coroutine k until it yields or returns.
  function Resumed(s: State, k: nat): (t: State)
    requires Inv(s) && s.running.None? && k < |s.tasks| && s.tasks[k].Some?
    ensures Inv(t) && t.running.None?
  {
    SwitchInv(s, k);
    var script := s.tasks[k].value.script;
    var t := Perform(Entered(s, k), script.actions);
    PerformKeeps(Entered(s, k), script.actions);
    SwitchInv(t, k);
    match script.next
    case None => Destroyed(t, k)
    case Some(rest) => Yielded(t, k, rest)
  }

  function SomeUid(s: State, k: nat): nat
    requires k < |s.tasks| && s.tasks[k].Some?
  {
    s.tasks[k].value.uid
  }

  lemma ResumedKeeps(s: State, k: nat)
    requires Inv(s) && s.running.None? && k < |s.tasks| && s.tasks[k].Some?
    ensures var t, co := Resumed(s, k), s.tasks[k].value;
      && |s.tasks| <= |t.tasks| && t.trace == s.trace + [(k, co.uid)] && s.nextUid <= t.nextUid
      && t.tasks[k] == (match co.script.next
                        case None => None
                        case Some(rest) => Some(Corot(k, co.uid, Sleeping, rest)))
      && (forall j :: 0 <= j < |s.tasks| && j != k && s.tasks[j].Some? ==> t.tasks[j] == s.tasks[j])
      && (forall j :: 0 <= j < |t.tasks| && j != k && t.tasks[j].Some? ==>
            (j < |s.tasks| && s.tasks[j].Some?) || (t.tasks[j].value.uid >= s.nextUid && t.tasks[j].value.status == Ready))
  {
    SwitchInv(s, k);
    PerformKeeps(Entered(s, k), s.tasks[k].value.script.actions);
  }

  // ---------------------------------------------------------------- what is left to do in a pass

  // Resumptions and slots that a script can still cost a pass.
  function Work(script: Script): nat {
    1 + WorkOf(script.actions) + match script.next case None => 0 case Some(rest) => Work(rest)
  }

  function WorkOf(actions: seq<Action>): nat {
    if actions == [] then 0
    else WorkOf(actions[..|actions| - 1]) + WorkOn(actions[|actions| - 1])
  }

  function WorkOn(action: Action): nat {
    match action
    case Create(script) => 1 + Work(script)
    case Schedule => 0
  }

  function Load(tasks: seq<Option<Corot>>, pos: nat): nat
    decreases |tasks| - pos
  {
    if pos >= |tasks| then 0
    else 1 + (match tasks[pos] case None => 0 case Some(co) => Work(co.script)) + Load(tasks, pos + 1)
  }

  lemma {:induction false} LoadBehind(tasks: seq<Option<Corot>>, pos: nat, k: nat, co: Option<Corot>)
    requires k < |tasks| && k < pos
    ensures Load(tasks[k := co], pos) == Load(tasks, pos)
    decreases |tasks| - pos
  {
    if pos < |tasks| { LoadBehind(tasks, pos + 1, k, co); }
  }

  lemma {:induction false} LoadAhead(tasks: seq<Option<Corot>>, pos: nat, k: nat, co: Corot)
    requires pos <= k < |tasks| && tasks[k].None?
    ensures Load(tasks[k := Some(co)], pos) == Load(tasks, pos) + Work(co.script)
    decreases |tasks| - pos
  {
    if pos < k { LoadAhead(tasks, pos + 1, k, co); } else { LoadBehind(tasks, pos + 1, k, Some(co)); }
  }

  lemma {:induction false} LoadAppend(tasks: seq<Option<Corot>>, pos: nat, co: Corot)
    ensures Load(tasks + [Some(co)], pos) <= Load(tasks, pos) + 1 + Work(co.script)
    decreases |tasks| - pos
  {
    if pos < |tasks| { LoadAppend(tasks, pos + 1, co); }
  }

  lemma {:induction false} PerformLoad(s: State, actions: seq<Action>, pos: nat)
    requires Inv(s)
    ensures Load(Perform(s, actions).tasks, pos) <= Load(s.tasks, pos) + WorkOf(actions)
    decreases |actions|
  {
    if actions != [] {
      var before := Perform(s, actions[..|actions| - 1]);
      PerformLoad(s, actions[..|actions| - 1], pos);
      match actions[|actions| - 1]
      case Schedule =>
      case Create(script) =>
        var co := Corot(NewId(before), before.nextUid, Ready, script);
        if before.free == [] {
          LoadAppend(before.tasks, pos, co);
        } else if before.free[0] < pos {
          LoadBehind(before.tasks, pos, before.free[0], Some(co));
        } else {
          LoadAhead(before.tasks, pos, before.free[0], co);
        }
    }
  }

  lemma ResumedLoad(s: State, k: nat)
    requires Inv(s) && s.running.None? && k < |s.tasks| && s.tasks[k].Some?
    ensures Load(Resumed(s, k).tasks, k + 1) < Load(s.tasks, k)
  {
    var script := s.tasks[k].value.script;
    SwitchInv(s, k);
    PerformKeeps(Entered(s, k), script.actions);
    PerformLoad(Entered(s, k), script.actions, k + 1);
    LoadBehind(s.tasks, k + 1, k, Entered(s, k).tasks[k]);
    LoadBehind(Perform(Entered(s, k), script.actions).tasks, k + 1, k, Resumed(s, k).tasks[k]);
  }

  // ---------------------------------------------------------------- one pass

  // One round over the table from slot pos on; the table may grow under way.
  function Pass(s: State, pos: nat): (t: State)
    requires Inv(s) && s.running.None?
    ensures Inv(t) && t.running.None?
    decreases Load(s.tasks, pos)
  {
    if pos >= |s.tasks| then s
    else if s.tasks[pos].None? then Pass(s, pos + 1)
    else ResumedLoad(s, pos); Pass(Resumed(s, pos), pos + 1)
  }

  predicate LiveUid(s: State, uid: nat) {
    exists k :: 0 <= k < |s.tasks| && s.tasks[k].Some? && s.tasks[k].value.uid == uid
  }

  predicate Lists(trace: seq<(nat, nat)>, uid: nat) {
    exists i :: 0 <= i < |trace| && trace[i].1 == uid
  }

  // How far a pass that began in state a has come at slot pos: it resumed, in the order of their
  // ids and each once, coroutines of which those in a are the ones below pos.
  predicate Swept(a: State, s: State, pos: nat) {
    && |a.tasks| <= |s.tasks| && pos <= |s.tasks| && a.nextUid <= s.nextUid && a.trace <= s.trace
    && InOrder(s, s.trace[|a.trace|..], pos)
    && forall k :: 0 <= k < |a.tasks| && a.tasks[k].Some? ==> Treated(a.tasks[k].value, s, s.trace[|a.trace|..], pos)
  }

  predicate InOrder(s: State, t: seq<(nat, nat)>, pos: nat) {
    && (forall i :: 0 <= i < |t| ==> t[i].0 < pos && t[i].1 < s.nextUid)
    && (forall i, j :: 0 <= i < j < |t| ==> t[i].0 < t[j].0 && t[i].1 != t[j].1)
    && (forall k :: pos <= k < |s.tasks| && s.tasks[k].Some? ==> !Lists(t, s.tasks[k].value.uid))
  }

  // What became of a coroutine that was live at the start.
  predicate Treated(co: Corot, s: State, t: seq<(nat, nat)>, pos: nat)
    requires pos <= |s.tasks|
  {
    if co.id < pos then
      && (co.id, co.uid) in t
      && match co.script.next
         case None => co.uid < s.nextUid && !LiveUid(s, co.uid)
         case Some(rest) => s.tasks[co.id] == Some(co.(status := Sleeping, script := rest))
    else co.id < |s.tasks| && s.tasks[co.id] == Some(co)
  }

  lemma SweptStart(a: State)
    requires Inv(a)
    ensures Swept(a, a, 0)
  {
    assert a.trace[|a.trace|..] == [];
  }

  lemma SweptBound(a: State, s: State, pos: nat)
    requires Swept(a, s, pos)
    ensures pos <= |s.tasks|
  {
  }

  lemma SweptSkip(a: State, s: State, pos: nat)
    requires Inv(a) && Swept(a, s, pos) && pos < |s.tasks| && s.tasks[pos].None?
    ensures Swept(a, s, pos + 1)
  {
    hide LiveUid, Lists;
  }

  lemma OrderResumed(s: State, t: seq<(nat, nat)>, pos: nat)
    requires Inv(s) && s.running.None? && InOrder(s, t, pos) && pos < |s.tasks| && s.tasks[pos].Some?
    ensures InOrder(Resumed(s, pos), t + [(pos, s.tasks[pos].value.uid)], pos + 1)
  {
    ResumedKeeps(s, pos);
    hide Resumed;
    var r, co, u := Resumed(s, pos), s.tasks[pos].value, t + [(pos, s.tasks[pos].value.uid)];
    forall i, j | 0 <= i < j < |u| ensures u[i].0 < u[j].0 && u[i].1 != u[j].1 {
      if j == |t| { assert t[i].1 != co.uid; }
    }
    forall k | pos < k < |r.tasks| && r.tasks[k].Some? ensures !Lists(u, r.tasks[k].value.uid) {
      if k < |s.tasks| && s.tasks[k].Some? {
        assert r.tasks[k] == s.tasks[k];
      }
    }
  }

  lemma TreatedResumed(co: Corot, s: State, t: seq<(nat, nat)>, pos: nat)
    requires Inv(s) && s.running.None? && pos < |s.tasks| && s.tasks[pos].Some?
    requires Treated(co, s, t, pos)
    ensures pos + 1 <= |Resumed(s, pos).tasks|
    ensures Treated(co, Resumed(s, pos), t + [(pos, s.tasks[pos].value.uid)], pos + 1)
  {
    ResumedKeeps(s, pos);
    hide Resumed;
    var r := Resumed(s, pos);
    assert forall e :: e in t ==> e in t + [(pos, s.tasks[pos].value.uid)];
    if co.id <= pos && co.script.next.None? {
      forall k | 0 <= k < |r.tasks| && r.tasks[k].Some? ensures r.tasks[k].value.uid != co.uid {
        if k != pos && k < |s.tasks| && s.tasks[k].Some? { assert r.tasks[k] == s.tasks[k]; }
      }
    }
  }

  lemma SweptResumed(a: State, s: State, pos: nat)
    requires Inv(a) && Inv(s) && s.running.None? && Swept(a, s, pos) && pos < |s.tasks| && s.tasks[pos].Some?
    ensures Swept(a, Resumed(s, pos), pos + 1)
  {
    var r, t := Resumed(s, pos), s.trace[|a.trace|..];
    ResumedKeeps(s, pos);
    OrderResumed(s, t, pos);
    hide Resumed, Treated, InOrder, Inv;
    assert r.trace[|a.trace|..] == t + [(pos, s.tasks[pos].value.uid)];
    forall k | 0 <= k < |a.tasks| && a.tasks[k].Some?
      ensures Treated(a.tasks[k].value, r, r.trace[|a.trace|..], pos + 1)
    {
      TreatedResumed(a.tasks[k].value, s, t, pos);
    }
  }

  // One pass resumes every coroutine that was live when it began, once, in the order of the ids;
  // ids given out again under way make no difference.
  lemma {:induction false} PassSweeps(a: State, s: State, pos: nat)
    requires Inv(a) && Inv(s) && s.running.None? && Swept(a, s, pos)
    ensures Swept(a, Pass(s, pos), |Pass(s, pos).tasks|)
    decreases Load(s.tasks, pos)
  {
    hide Swept, Resumed, Inv;
    if pos >= |s.tasks| {
      assert pos == |s.tasks| by { SweptBound(a, s, pos); }
    } else if s.tasks[pos].None? {
      SweptSkip(a, s, pos);
      PassSweeps(a, s, pos + 1);
    } else {
      ResumedLoad(s, pos);
      SweptResumed(a, s, pos);
      PassSweeps(a, Resumed(s, pos), pos + 1);
    }
  }

  // Coroutine uid was resumed under id k, and it was so only once, after the first n resumptions.
  predicate ResumedOnce(trace: seq<(nat, nat)>, n: nat, k: nat, uid: nat) {
    exists i :: n <= i < |trace| && trace[i] == (k, uid) && OnlyAt(trace, n, i, uid)
  }

  predicate OnlyAt(trace: seq<(nat, nat)>, n: nat, i: nat, uid: nat) {
    forall j :: n <= j < |trace| && j != i ==> trace[j].1 != uid
  }

  lemma OnceInOrder(a: State, s: State, pos: nat, k: nat)
    requires Inv(a) && Swept(a, s, pos) && k < |a.tasks| && a.tasks[k].Some? && k < pos
    ensures ResumedOnce(s.trace, |a.trace|, k, SomeUid(a, k))
  {
    var n := |a.trace|;
    var t := s.trace[n..];
    hide LiveUid, Lists;
    assert Treated(a.tasks[k].value, s, t, pos);
    var i :| 0 <= i < |t| && t[i] == (k, SomeUid(a, k));
    assert s.trace[n + i] == t[i];
    forall j | n <= j < |s.trace| && j != n + i ensures s.trace[j].1 != SomeUid(a, k) {
      assert s.trace[j] == t[j - n];
    }
    assert OnlyAt(s.trace, n, n + i, SomeUid(a, k));
  }

  // A pass over all slots: the coroutines live at its start are resumed exactly once each.
  lemma PassResumesAll(a: State)
    requires Inv(a) && a.running.None?
    ensures Swept(a, Pass(a, 0), |Pass(a, 0).tasks|)
    ensures forall k :: 0 <= k < |a.tasks| && a.tasks[k].Some? ==>
      ResumedOnce(Pass(a, 0).trace, |a.trace|, k, SomeUid(a, k))
  {
    SweptStart(a);
    PassSweeps(a, a, 0);
    var s := Pass(a, 0);
    assert |a.tasks| <= |s.tasks|;
    hide Swept, Pass, ResumedOnce;
    forall k | 0 <= k < |a.tasks| && a.tasks[k].Some?
      ensures ResumedOnce(s.trace, |a.trace|, k, SomeUid(a, k))
    {
      OnceInOrder(a, s, |s.tasks|, k);
    }
  }

  // ---------------------------------------------------------------- what the returned number means

  // Coroutines in the first n slots.
  function LiveIn(tasks: seq<Option<Corot>>, n: nat): nat
    requires n <= |tasks|
  {
    if n == 0 then 0 else LiveIn(tasks, n - 1) + if tasks[n - 1].Some? then 1 else 0
  }

  function Live(s: State): nat { LiveIn(s.tasks, |s.tasks|) }

  lemma {:induction false} LiveUpdate(tasks: seq<Option<Corot>>, n: nat, k: nat, co: Option<Corot>)
    requires n <= |tasks| && k < |tasks|
    ensures LiveIn(tasks[k := co], n) + (if k < n && tasks[k].Some? then 1 else 0)
         == LiveIn(tasks, n) + if k < n && co.Some? then 1 else 0
  {
    if n > 0 { LiveUpdate(tasks, n - 1, k, co); }
  }

  lemma {:induction false} LiveGrow(tasks: seq<Option<Corot>>, n: nat, co: Option<Corot>)
    requires n <= |tasks|
    ensures LiveIn(tasks + [co], n) == LiveIn(tasks, n)
  {
    if n > 0 { LiveGrow(tasks, n - 1, co); }
  }

  // How many of these actions create a coroutine under an id below pos.
  function Behind(s: State, actions: seq<Action>, pos: nat): nat
    requires Inv(s)
  {
    if actions == [] then 0
    else
      var front := actions[..|actions| - 1];
      Behind(s, front, pos) + match actions[|actions| - 1]
                              case Create(_) => if NewId(Perform(s, front)) < pos then 1 else 0
                              case Schedule => 0
  }

  // Coroutines that a pass from slot pos on creates under ids it has passed.
  function CreatedBehind(s: State, pos: nat): nat
    requires Inv(s) && s.running.None?
    decreases Load(s.tasks, pos)
  {
    if pos >= |s.tasks| then 0
    else if s.tasks[pos].None? then CreatedBehind(s, pos + 1)
    else
      ResumedLoad(s, pos);
      SwitchInv(s, pos);
      Behind(Entered(s, pos), s.tasks[pos].value.script.actions, pos) + CreatedBehind(Resumed(s, pos), pos + 1)
  }

  // Coroutines that return during it.
  function Returning(s: State, pos: nat): nat
    requires Inv(s) && s.running.None?
    decreases Load(s.tasks, pos)
  {
    if pos >= |s.tasks| then 0
    else if s.tasks[pos].None? then Returning(s, pos + 1)
    else
      ResumedLoad(s, pos);
      (if s.tasks[pos].value.script.next.None? then 1 else 0) + Returning(Resumed(s, pos), pos + 1)
  }

  lemma {:induction false} PerformLive(s: State, actions: seq<Action>, pos: nat)
    requires Inv(s) && pos <= |s.tasks|
    ensures pos <= |Perform(s, actions).tasks|
    ensures LiveIn(Perform(s, actions).tasks, pos) == LiveIn(s.tasks, pos) + Behind(s, actions, pos)
    decreases |actions|
  {
    if actions != [] {
      hide Inv;
      var before := Perform(s, actions[..|actions| - 1]);
      PerformLive(s, actions[..|actions| - 1], pos);
      match actions[|actions| - 1]
      case Schedule =>
      case Create(script) => CreatedLive(before, script, pos);
    }
  }

  lemma CreatedLive(s: State, script: Script, pos: nat)
    requires Inv(s) && pos <= |s.tasks|
    ensures pos <= |Created(s, script).tasks|
    ensures LiveIn(Created(s, script).tasks, pos) == LiveIn(s.tasks, pos) + if NewId(s) < pos then 1 else 0
  {
    var co := Some(Corot(NewId(s), s.nextUid, Ready, script));
    if s.free == [] { LiveGrow(s.tasks, pos, co); } else { LiveUpdate(s.tasks, pos, s.free[0], co); }
  }

  lemma ResumedLive(s: State, k: nat)
    requires Inv(s) && s.running.None? && k < |s.tasks| && s.tasks[k].Some?
    ensures Inv(Entered(s, k)) && k < |Resumed(s, k).tasks|
    ensures LiveIn(Resumed(s, k).tasks, k + 1) + (if s.tasks[k].value.script.next.None? then 1 else 0)
         == LiveIn(s.tasks, k) + 1 + Behind(Entered(s, k), s.tasks[k].value.script.actions, k)
  {
    var script := s.tasks[k].value.script;
    var t := Perform(Entered(s, k), script.actions);
    SwitchInv(s, k);
    ResumedKeeps(s, k);
    PerformKeeps(Entered(s, k), script.actions);
    LiveUpdate(s.tasks, k, k, Entered(s, k).tasks[k]);
    PerformLive(Entered(s, k), script.actions, k);
    LiveUpdate(t.tasks, k, k, Resumed(s, k).tasks[k]);
  }

  // The balance of a pass that stands at slot pos.
  lemma {:induction false} PassBalance(s: State, pos: nat)
    requires Inv(s) && s.running.None? && pos <= |s.tasks|
    ensures |s.trace| <= |Pass(s, pos).trace|
    ensures |Pass(s, pos).trace| - |s.trace| + LiveIn(s.tasks, pos) + CreatedBehind(s, pos)
         == Live(Pass(s, pos)) + Returning(s, pos)
    decreases Load(s.tasks, pos)
  {
    if pos == |s.tasks| {
    } else if s.tasks[pos].None? {
      PassBalance(s, pos + 1);
    } else {
      ResumedLoad(s, pos);
      ResumedKeeps(s, pos);
      ResumedLive(s, pos);
      hide Inv;
      PassBalance(Resumed(s, pos), pos + 1);
    }
  }

  // doSchedule returns the number of coroutines there are afterwards if and only if as many returned
  // during the pass as were created under ids it had passed.
  lemma CountsExactly(s: State)
    requires Inv(s) && s.running.None?
    ensures |Pass(s, 0).trace| - |s.trace| == Live(Pass(s, 0)) <==> Returning(s, 0) == CreatedBehind(s, 0)
  {
    PassBalance(s, 0);
  }

  predicate Plain(script: Script) {
    forall i :: 0 <= i < |script.actions| ==> script.actions[i].Schedule?
  }

  // From slot pos on no coroutine creates anything in its next slice.
  predicate AllPlain(tasks: seq<Option<Corot>>, pos: nat) {
    forall k :: pos <= k < |tasks| && tasks[k].Some? ==> Plain(tasks[k].value.script)
  }

  // From slot pos on every coroutine yields at the end of its next slice.
  predicate NoneReturns(tasks: seq<Option<Corot>>, pos: nat) {
    forall k :: pos <= k < |tasks| && tasks[k].Some? ==> tasks[k].value.script.next.Some?
  }

  lemma {:induction false} PlainPerform(s: State, actions: seq<Action>, pos: nat)
    requires Inv(s) && forall i :: 0 <= i < |actions| ==> actions[i].Schedule?
    ensures Perform(s, actions) == s && Behind(s, actions, pos) == 0
    decreases |actions|
  {
    if actions != [] { PlainPerform(s, actions[..|actions| - 1], pos); }
  }

  lemma {:induction false} PlainPass(s: State, pos: nat)
    requires Inv(s) && s.running.None? && AllPlain(s.tasks, pos)
    ensures CreatedBehind(s, pos) == 0
    ensures Returning(s, pos) == 0 <==> NoneReturns(s.tasks, pos)
    decreases Load(s.tasks, pos)
  {
    if pos >= |s.tasks| {
    } else if s.tasks[pos].None? {
      PlainPass(s, pos + 1);
    } else {
      ResumedLoad(s, pos);
      SwitchInv(s, pos);
      var script := s.tasks[pos].value.script;
      assert Plain(script);
      PlainPerform(Entered(s, pos), script.actions, pos);
      var r := Resumed(s, pos);
      assert |r.tasks| == |s.tasks| && forall k :: pos < k < |s.tasks| ==> r.tasks[k] == s.tasks[k];
      hide Inv, Resumed;
      PlainPass(r, pos + 1);
    }
  }

  // If nothing is created in it, the number is right if and only if nobody returns in this pass,
  // which the scripts tell beforehand.
  lemma CountsPlainly(s: State)
    requires Inv(s) && s.running.None? && AllPlain(s.tasks, 0)
    ensures |Pass(s, 0).trace| - |s.trace| == Live(Pass(s, 0)) <==> NoneReturns(s.tasks, 0)
  {
    CountsExactly(s);
    PlainPass(s, 0);
  }

  // One that returns at once is counted and gone.
  lemma CountedButGone()
    ensures var s := Created(EMPTY, Script([], None));
      Inv(s) && |Pass(s, 0).trace| == |s.trace| + 1 && Pass(s, 0).tasks == [None]
  {
    var s := Created(EMPTY, Script([], None));
    CreatedInv(EMPTY, Script([], None));
    assert s.tasks == [Some(Corot(0, 0, Ready, Script([], None)))];
    ResumedKeeps(s, 0);
    ResumedLoad(s, 0);
    var t := Resumed(s, 0);
    assert t.tasks == [None];
    assert Pass(t, 1) == t;
    assert Pass(s, 0) == Pass(t, 1);
  }

  // ---------------------------------------------------------------- many passes

  lemma {:induction false} DeadStaysDead(s: State, pos: nat, uid: nat)
    requires Inv(s) && s.running.None? && uid < s.nextUid && !LiveUid(s, uid)
    ensures !LiveUid(Pass(s, pos), uid) && uid < Pass(s, pos).nextUid
    decreases Load(s.tasks, pos)
  {
    if pos >= |s.tasks| {
    } else if s.tasks[pos].None? {
      DeadStaysDead(s, pos + 1, uid);
    } else {
      ResumedLoad(s, pos);
      ResumedKeeps(s, pos);
      var r := Resumed(s, pos);
      forall k | 0 <= k < |r.tasks| && r.tasks[k].Some? ensures r.tasks[k].value.uid != uid {
        assert s.tasks[pos].value.uid != uid;
        if k != pos && k < |s.tasks| && s.tasks[k].Some? { assert r.tasks[k] == s.tasks[k]; }
      }
      DeadStaysDead(r, pos + 1, uid);
    }
  }

  function Passes(s: State, m: nat): (t: State)
    requires Inv(s) && s.running.None?
    ensures Inv(t) && t.running.None?
  {
    if m == 0 then s else Pass(Passes(s, m - 1), 0)
  }

  // A script after m resumptions.
  function Follow(script: Script, m: nat): Option<Script> {
    if m == 0 then Some(script)
    else match Follow(script, m - 1) case None => None case Some(rest) => rest.next
  }

  // Fair shares: after m passes every coroutine has run exactly m slices, or is gone because its
  // function returned earlier; its id stays its own while it lives.
  lemma {:induction false} FairShares(s: State, k: nat, m: nat)
    requires Inv(s) && s.running.None? && k < |s.tasks| && s.tasks[k].Some? && m > 0
    ensures var t, co := Passes(s, m), s.tasks[k].value;
      && co.uid < t.nextUid
      && match Follow(co.script, m)
         case None => !LiveUid(t, co.uid)
         case Some(rest) => k < |t.tasks| && t.tasks[k] == Some(Corot(k, co.uid, Sleeping, rest))
    decreases m
  {
    var before := Passes(s, m - 1);
    hide Inv, Pass, LiveUid;
    assert s.tasks[k].value.id == k && s.tasks[k].value.uid < s.nextUid by { OwnId(s, k); }
    if m > 1 { FairShares(s, k, m - 1); }
    match Follow(s.tasks[k].value.script, m - 1)
    case None => DeadStaysDead(before, 0, s.tasks[k].value.uid);
    case Some(rest) => OneShare(before, k);
  }

  lemma OwnId(s: State, k: nat)
    requires Inv(s) && k < |s.tasks| && s.tasks[k].Some?
    ensures s.tasks[k].value.id == k && s.tasks[k].value.uid < s.nextUid
  {
  }

  lemma OneShare(a: State, k: nat)
    requires Inv(a) && a.running.None? && k < |a.tasks| && a.tasks[k].Some?
    ensures var s, co := Pass(a, 0), a.tasks[k].value;
      && co.uid < s.nextUid && |a.tasks| <= |s.tasks|
      && match co.script.next
         case None => !LiveUid(s, co.uid)
         case Some(rest) => s.tasks[k] == Some(Corot(k, co.uid, Sleeping, rest))
  {
    SweptStart(a);
    PassSweeps(a, a, 0);
    var s := Pass(a, 0);
    hide Pass;
    assert Treated(a.tasks[k].value, s, s.trace[|a.trace|..], |s.tasks|);
  }

  // ---------------------------------------------------------------- the scheduler object

  class Scheduler {
    var tasks: seq<Option<Corot>>
    var avaliableIds: seq<nat>
    var runningCoid: Option<nat>
    var created: nat
    ghost var trace: seq<(nat, nat)>

    ghost function Value(): State
      reads this
    {
      State(tasks, avaliableIds, runningCoid, created, trace)
    }

    constructor ()
      ensures Value() == EMPTY && Inv(Value())
    {
      tasks, avaliableIds, runningCoid, created, trace := [], [], None, 0, [];
    }

    method Create(script: Script) returns (coid: nat)
      requires Inv(Value())
      modifies this
      ensures Value() == Created(old(Value()), script) && Inv(Value())
      ensures coid == NewId(old(Value()))
    {
      CreatedInv(Value(), script);
      if avaliableIds == [] {
        coid := |tasks|;
        tasks := tasks + [Some(Corot(coid, created, Ready, script))];
      } else {
        coid := avaliableIds[0];
        avaliableIds := avaliableIds[1..];
        tasks := tasks[coid := Some(Corot(coid, created, Ready, script))];
      }
      created := created + 1;
    }

    method Destroy(coid: nat)
      requires coid < |tasks|
      modifies this`tasks, this`avaliableIds
      ensures tasks == old(tasks)[coid := None] && avaliableIds == old(avaliableIds) + [coid]
    {
      tasks := tasks[coid := None];
      avaliableIds := avaliableIds + [coid];
    }

    // yieldRunningCorot up to the switch back to the scheduler.
    method YieldRunningCorot(rest: Script)
      requires runningCoid.Some? && runningCoid.value < |tasks| && tasks[runningCoid.value].Some?
      modifies this`tasks, this`runningCoid
      ensures Value() == Yielded(old(Value()), old(runningCoid).value, rest)
    {
      var k := runningCoid.value;
      tasks := tasks[k := Some(tasks[k].value.(status := Sleeping, script := rest))];
      runningCoid := None;
    }

    // Switches to the coroutine; comes back when it yields or returns.
    method ResumeCorot(coid: nat)
      requires Inv(Value()) && runningCoid.None? && coid < |tasks| && tasks[coid].Some?
      modifies this
      ensures Value() == Resumed(old(Value()), coid)
      decreases 1
    {
      ghost var before := Value();
      SwitchInv(before, coid);
      var script := tasks[coid].value.script;
      trace := trace + [(coid, tasks[coid].value.uid)];
      tasks := tasks[coid := Some(tasks[coid].value.(status := Running))];
      runningCoid := Some(coid);
      assert Value() == Entered(before, coid);
      PerformKeeps(Value(), script.actions);
      RunSlice(script.actions);
      match script.next {
        case None =>
          Destroy(coid);
          runningCoid := None;
        case Some(rest) => YieldRunningCorot(rest);
      }
    }

    method RunSlice(actions: seq<Action>)
      requires Inv(Value()) && runningCoid.Some?
      modifies this
      ensures Value() == Perform(old(Value()), actions)
      decreases 0, 1
    {
      var i := 0;
      while i < |actions|
        invariant 0 <= i <= |actions| && Inv(Value()) && runningCoid.Some?
        invariant Value() == Perform(old(Value()), actions[..i])
      {
        assert actions[..i + 1][..i] == actions[..i];
        match actions[i] {
          case Create(script) => var coid := Create(script);
          case Schedule => var none := DoSchedule();
        }
        i := i + 1;
      }
      assert actions[..i] == actions;
    }

    // Returns how many coroutines were resumed; refuses inside a coroutine.
    method DoSchedule() returns (ret: nat)
      requires Inv(Value())
      modifies this
      ensures old(runningCoid).Some? ==> Value() == old(Value()) && ret == 0
      ensures old(runningCoid).None? ==> Value() == Pass(old(Value()), 0) && |trace| == |old(trace)| + ret
      ensures old(runningCoid).None? ==>
        (ret == Live(Value()) <==> Returning(old(Value()), 0) == CreatedBehind(old(Value()), 0))
      decreases if runningCoid.None? then 2 else 0, 0
    {
      if runningCoid != None { return 0; }
      CountsExactly(Value());
      ret := 0;
      var coid := 0;
      while coid < |tasks|
        invariant Inv(Value()) && runningCoid.None? && |trace| == |old(trace)| + ret
        invariant Pass(old(Value()), 0) == Pass(Value(), coid)
        decreases Load(tasks, coid)
      {
        if tasks[coid].Some? {
          ResumedLoad(Value(), coid);
          ResumedKeeps(Value(), coid);
          ResumeCorot(coid);
          ret := ret + 1;
        }
        coid := coid + 1;
      }
    }
  }
}
