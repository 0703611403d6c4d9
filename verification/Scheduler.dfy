/**
 sched.c: one ring of threads per priority class, strict priority between
 classes and round robin inside a class. A ring is a sequence here; Ring shows
 that the linked list behaves like one.
 */
module Scheduler {
  import opened Common

  const NPRIOS := 256

  datatype Tcb = Tcb(state: ThreadState, prio: nat, taskid: nat, id: nat)

  datatype Sched = Sched(rings: seq<seq<Tid>>, tcb: map<Tid, Tcb>, current: Tid)

  // ---- selecting a thread ---------------------------------------------------------------

  predicate Runnable(s: Sched, t: Tid) {
    t in s.tcb && s.tcb[t].state == Ready
  }

  /** Index of the first runnable thread of a ring, or its length. */
  function FirstRunnable(ring: seq<Tid>, s: Sched): (k: nat)
    ensures k <= |ring|
    ensures forall i :: 0 <= i < k ==> !Runnable(s, ring[i])
    ensures k < |ring| ==> Runnable(s, ring[k])
  {
    if ring == [] then 0 else if Runnable(s, ring[0]) then 0 else 1 + FirstRunnable(ring[1..], s)
  }

  /** The first runnable thread of the highest class below `top` that has one. */
  function Select(s: Sched, top: nat): (t: Option<Tid>)
    requires top <= |s.rings|
  {
    if top == 0 then None
    else
      var k := FirstRunnable(s.rings[top - 1], s);
      if k < |s.rings[top - 1]| then Some(s.rings[top - 1][k]) else Select(s, top - 1)
  }

  // ---- operations ---------------------------------------------------------------------------

  /** Ring without its entry k, which is appended at the back. */
  function Rotated(ring: seq<Tid>, k: nat): (r: seq<Tid>)
    requires k < |ring|
  {
    ring[..k] + ring[k + 1..] + [ring[k]]
  }

  function Index(ring: seq<Tid>, t: Tid): (k: nat)
    ensures k <= |ring|
    ensures t !in ring[..k]
    ensures k < |ring| <==> t in ring
    ensures k < |ring| ==> ring[k] == t
  {
    if ring == [] then 0 else if ring[0] == t then 0 else 1 + Index(ring[1..], t)
  }

  /** Each registered thread sits exactly once, in the ring of its own class. */
  ghost predicate QueueInv(s: Sched) {
    && |s.rings| == NPRIOS
    && (forall p :: 0 <= p < NPRIOS ==> Distinct(s.rings[p]))
    && (forall p, i :: 0 <= p < NPRIOS && 0 <= i < |s.rings[p]| ==>
          s.rings[p][i] in s.tcb && s.tcb[s.rings[p][i]].prio == p)
    && (forall t :: t in s.tcb ==> s.tcb[t].prio < NPRIOS && t in s.rings[s.tcb[t].prio])
  }

  datatype Event =
    | Add(t: Tid, prio: nat, taskid: nat, id: nat, state: ThreadState)  // sched_add_thread
    | SetState(t: Tid, state: ThreadState)                              // tcb_set_state
    | SwitchTo(t: Tid, ok: bool)                                        // sched_switch_to
    | Switch(ok: bool)                                                  // sched_switch

  /** The thread an event dispatches, if any. */
  function Chosen(s: Sched, e: Event): (t: Option<Tid>)
    requires |s.rings| == NPRIOS
  {
    match e
    case Switch(_) => Select(s, NPRIOS)
    case SwitchTo(t, _) => Some(t)
    case _ => None
  }

  ghost predicate Enabled(s: Sched, e: Event) {
    && |s.rings| == NPRIOS
    && match e
       case Add(t, p, _, _, _) => t !in s.tcb && p < NPRIOS
       case SetState(t, _) => t in s.tcb
       case SwitchTo(t, _) => Runnable(s, t)
       case Switch(_) => Select(s, NPRIOS).Some?
  }

  /** Moving the thread to the back happens first; `ok` is whether `tcb_switch`
      succeeded, without which the old thread stays current. */
  function Dispatch(s: Sched, t: Tid, ok: bool): (s': Sched)
    requires |s.rings| == NPRIOS && t in s.tcb && s.tcb[t].prio < NPRIOS
    requires t in s.rings[s.tcb[t].prio]
  {
    var p := s.tcb[t].prio;
    Sched(s.rings[p := Rotated(s.rings[p], Index(s.rings[p], t))], s.tcb, if ok then t else s.current)
  }

  ghost function Apply(s: Sched, e: Event): (s': Sched)
    requires QueueInv(s) && Enabled(s, e)
  {
    match e
    case Add(t, p, taskid, id, st) =>
      Sched(s.rings[p := s.rings[p] + [t]], s.tcb[t := Tcb(st, p, taskid, id)], s.current)
    case SetState(t, st) => s.(tcb := s.tcb[t := s.tcb[t].(state := st)])
    case SwitchTo(t, ok) => Dispatch(s, t, ok)
    case Switch(ok) =>
      var t := Select(s, NPRIOS).value;
      SelectIsHighest(s, NPRIOS);
      Dispatch(s, t, ok)
  }

  // ---- strict priority --------------------------------------------------------------------------

  /** No thread of class p is runnable. */
  ghost predicate ClassIdle(s: Sched, p: nat)
    requires p < |s.rings|
  {
    forall i :: 0 <= i < |s.rings[p]| ==> !Runnable(s, s.rings[p][i])
  }

  /** The selected thread is runnable, and no class above its own, up to `top`,
      has a runnable thread; nothing is selected only if nobody is runnable. */
  lemma {:induction false} SelectIsHighest(s: Sched, top: nat)
    requires QueueInv(s) && top <= NPRIOS
    ensures Select(s, top).None? <==>
            forall p :: 0 <= p < top ==> ClassIdle(s, p)
    ensures Select(s, top).Some? ==>
            var t := Select(s, top).value;
            && Runnable(s, t) && s.tcb[t].prio < top && t in s.rings[s.tcb[t].prio]
            && Index(s.rings[s.tcb[t].prio], t) == FirstRunnable(s.rings[s.tcb[t].prio], s)
            && (forall p :: s.tcb[t].prio < p < top ==> ClassIdle(s, p))
  {
    if top > 0 {
      var ring := s.rings[top - 1];
      var k := FirstRunnable(ring, s);
      if k < |ring| {
        assert s.tcb[ring[k]].prio == top - 1;
        assert !ClassIdle(s, top - 1);
      } else {
        assert ClassIdle(s, top - 1);
        SelectIsHighest(s, top - 1);
      }
    }
  }

  /** The same over threads: no READY thread has a higher class, and none of the same class
      stands before the selected one. */
  lemma SelectedIsTop(s: Sched)
    requires QueueInv(s) && Select(s, NPRIOS).Some?
    ensures var t := Select(s, NPRIOS).value;
            && Runnable(s, t) && s.tcb[t].prio < |s.rings| == NPRIOS && t in s.rings[s.tcb[t].prio]
            && (forall u :: u in s.tcb && s.tcb[u].state == Ready ==> s.tcb[u].prio <= s.tcb[t].prio)
            && var ring := s.rings[s.tcb[t].prio];
            (forall i :: 0 <= i < Index(ring, t) ==> !Runnable(s, ring[i]))
  {
    SelectIsHighest(s, NPRIOS);
    var t := Select(s, NPRIOS).value;
    forall u | u in s.tcb && s.tcb[u].state == Ready ensures s.tcb[u].prio <= s.tcb[t].prio {
      var p := s.tcb[u].prio;
      var i := Index(s.rings[p], u);
      assert Runnable(s, s.rings[p][i]);
      assert !ClassIdle(s, p);
    }
  }

  /** While the idle thread is runnable a switch always finds a thread. */
  lemma IdleSuffices(s: Sched, idle: Tid)
    requires QueueInv(s) && Runnable(s, idle)
    ensures Select(s, NPRIOS).Some?
  {
    SelectIsHighest(s, NPRIOS);
    var p := s.tcb[idle].prio;
    var i := Index(s.rings[p], idle);
    assert s.rings[p][i] == idle;
    assert !ClassIdle(s, p);
  }

  // ---- the queue invariant over runs ----------------------------------------------------------------

  lemma RotatedIsPermutation(ring: seq<Tid>, k: nat)
    requires k < |ring|
    ensures |Rotated(ring, k)| == |ring|
    ensures multiset(Rotated(ring, k)) == multiset(ring)
    ensures forall t :: t in Rotated(ring, k) <==> t in ring
    ensures Distinct(ring) ==> Distinct(Rotated(ring, k))
  {
    assert ring == ring[..k] + [ring[k]] + ring[k + 1..];
    assert multiset(Rotated(ring, k)) == multiset(ring);
    forall t ensures t in Rotated(ring, k) <==> t in ring {
      assert t in Rotated(ring, k) <==> t in multiset(Rotated(ring, k));
    }
    if Distinct(ring) {
      RotatedIsDistinct(ring, k);
    }
  }

  lemma RotatedIsDistinct(ring: seq<Tid>, k: nat)
    requires k < |ring| && Distinct(ring)
    ensures Distinct(Rotated(ring, k))
  {
    var r := Rotated(ring, k);
    forall i, j | 0 <= i < j < |r| ensures r[i] != r[j] {
      var i' := if i < k then i else i + 1;
      var j' := if j == |r| - 1 then k else if j < k then j else j + 1;
      assert r[i] == ring[i'] && r[j] == ring[j'] && i' != j';
    }
  }

  lemma RegisteredOnce(s: Sched, t: Tid)
    requires QueueInv(s) && t in s.tcb
    ensures |s.rings| == NPRIOS && s.tcb[t].prio < NPRIOS && t in s.rings[s.tcb[t].prio]
  {
  }

  lemma DispatchKeepsQueue(s: Sched, t: Tid, ok: bool)
    requires QueueInv(s) && t in s.tcb
    ensures QueueInv(Dispatch(s, t, ok))
    ensures forall p :: 0 <= p < NPRIOS && p != s.tcb[t].prio ==> Dispatch(s, t, ok).rings[p] == s.rings[p]
    ensures multiset(Dispatch(s, t, ok).rings[s.tcb[t].prio]) == multiset(s.rings[s.tcb[t].prio])
  {
    var p := s.tcb[t].prio;
    var k := Index(s.rings[p], t);
    RotatedIsPermutation(s.rings[p], k);
    var s' := Dispatch(s, t, ok);
    forall q, i | 0 <= q < NPRIOS && 0 <= i < |s'.rings[q]|
      ensures s'.rings[q][i] in s'.tcb && s'.tcb[s'.rings[q][i]].prio == q
    {
      assert s'.rings[q][i] in s.rings[q];
    }
  }

  lemma StepKeepsQueue(s: Sched, e: Event)
    requires QueueInv(s) && Enabled(s, e)
    ensures QueueInv(Apply(s, e))
  {
    match e {
      case Switch(ok) =>
        SelectIsHighest(s, NPRIOS);
        DispatchKeepsQueue(s, Select(s, NPRIOS).value, ok);
      case SwitchTo(t, ok) => DispatchKeepsQueue(s, t, ok);
      case Add(t, p, _, _, _) => AddKeepsQueue(s, e);
      case SetState(t, st) =>
    }
  }

  lemma AddKeepsQueue(s: Sched, e: Event)
    requires QueueInv(s) && Enabled(s, e) && e.Add?
    ensures QueueInv(Apply(s, e))
  {
    var s' := Apply(s, e);
    var p := e.prio;
    assert e.t !in s.rings[p];
    forall q, i | 0 <= q < NPRIOS && 0 <= i < |s'.rings[q]|
      ensures s'.rings[q][i] in s'.tcb && s'.tcb[s'.rings[q][i]].prio == q
    {
      assert (q == p && i == |s.rings[p]|) || s'.rings[q][i] == s.rings[q][i];
    }
    forall t | t in s'.tcb ensures s'.tcb[t].prio < NPRIOS && t in s'.rings[s'.tcb[t].prio] {
      if t != e.t {
        assert t in s.rings[s.tcb[t].prio];
      } else {
        assert s'.rings[p][|s.rings[p]|] == t;
      }
    }
  }

  // ---- the current thread ---------------------------------------------------------------------------

  ghost predicate Legal(s: Sched, es: seq<Event>)
    decreases |es|
  {
    QueueInv(s) && (es == [] || (Enabled(s, es[0]) && Legal(Apply(s, es[0]), es[1..])))
  }

  ghost function Run(s: Sched, es: seq<Event>): (s': Sched)
    requires Legal(s, es)
    decreases |es|
  {
    if es == [] then s else Run(Apply(s, es[0]), es[1..])
  }

  /** The thread that the last switch that went through has dispatched, or else t. */
  ghost function LastDispatched(s: Sched, es: seq<Event>, t: Tid): (u: Tid)
    requires Legal(s, es)
    decreases |es|
  {
    if es == [] then t
    else
      var u := if es[0].Switch? && es[0].ok then Select(s, NPRIOS).value
               else if es[0].SwitchTo? && es[0].ok then es[0].t else t;
      LastDispatched(Apply(s, es[0]), es[1..], u)
  }

  lemma EnabledRunKeepsQueue(s: Sched, e: Event)
    requires QueueInv(s) && Enabled(s, e)
    ensures QueueInv(Apply(s, e))
    ensures s.tcb.Keys <= Apply(s, e).tcb.Keys
  {
    StepKeepsQueue(s, e);
    if e.Switch? {
      SelectIsHighest(s, NPRIOS);
    }
  }

  /** Over every run: every registered thread stays registered, the queue invariant holds,
      and the current thread is the one dispatched last, which is a registered one. */
  lemma {:induction false} CurrentIsLastDispatched(s: Sched, es: seq<Event>)
    requires Legal(s, es) && s.current in s.tcb
    ensures QueueInv(Run(s, es)) && s.tcb.Keys <= Run(s, es).tcb.Keys
    ensures Run(s, es).current == LastDispatched(s, es, s.current) && Run(s, es).current in Run(s, es).tcb
    decreases |es|
  {
    hide QueueInv;
    if es != [] {
      EnabledRunKeepsQueue(s, es[0]);
      DispatchSetsCurrent(s, es[0]);
      CurrentIsLastDispatched(Apply(s, es[0]), es[1..]);
    } else {
      LegalKeepsQueue(s, es);
    }
  }

  lemma LegalKeepsQueue(s: Sched, es: seq<Event>)
    requires Legal(s, es)
    ensures QueueInv(s)
  {
  }

  /** What one event does to the current thread. */
  lemma DispatchSetsCurrent(s: Sched, e: Event)
    requires QueueInv(s) && Enabled(s, e) && s.current in s.tcb
    ensures Apply(s, e).current ==
            (if e.Switch? && e.ok then Select(s, NPRIOS).value
             else if e.SwitchTo? && e.ok then e.t else s.current)
    ensures Apply(s, e).current in Apply(s, e).tcb
  {
    if e.Switch? {
      SelectIsHighest(s, NPRIOS);
    }
  }

  // ---- bounded waiting ---------------------------------------------------------------------------------

  /** A trace in which thread t stays registered and READY, and no class above
      t's has a READY thread when a switch happens. */
  ghost predicate Patient(s: Sched, es: seq<Event>, t: Tid)
    decreases |es|
  {
    && QueueInv(s) && Runnable(s, t)
    && (es == [] ||
        (&& Enabled(s, es[0])
         && (es[0].Switch? ==> forall p :: s.tcb[t].prio < p < NPRIOS ==> ClassIdle(s, p))
         && Patient(Apply(s, es[0]), es[1..], t)))
  }

  /** Number of calls of sched_switch in a trace. */
  function Switches(es: seq<Event>): (n: nat) {
    if es == [] then 0 else (if es[0].Switch? then 1 else 0) + Switches(es[1..])
  }

  /** State before event i of the trace. */
  ghost function StateAt(s: Sched, es: seq<Event>, t: Tid, i: nat): (s': Sched)
    requires Patient(s, es, t) && i <= |es|
    ensures QueueInv(s')
    decreases |es|
  {
    if i == 0 then s else StateAt(Apply(s, es[0]), es[1..], t, i - 1)
  }

  ghost function Position(s: Sched, t: Tid): (k: nat)
    requires QueueInv(s) && t in s.tcb
    ensures k < |s.rings[s.tcb[t].prio]| && s.rings[s.tcb[t].prio][k] == t
  {
    Index(s.rings[s.tcb[t].prio], t)
  }

  /** Every step leaves t where it is or moves it forward; a switch that does not
      choose t moves it forward. */
  lemma StepMovesForward(s: Sched, e: Event, t: Tid)
    requires QueueInv(s) && Enabled(s, e) && t in s.tcb && Chosen(s, e) != Some(t)
    requires e.Switch? ==> Runnable(s, t)
    requires e.Switch? ==> forall p :: s.tcb[t].prio < p < NPRIOS ==> ClassIdle(s, p)
    ensures QueueInv(Apply(s, e)) && t in Apply(s, e).tcb && Apply(s, e).tcb[t].prio == s.tcb[t].prio
    ensures Position(Apply(s, e), t) <= Position(s, t)
    ensures e.Switch? ==> Position(Apply(s, e), t) < Position(s, t)
  {
    match e {
      case Switch(ok) => SwitchMovesForward(s, ok, t);
      case SwitchTo(u, ok) => DispatchMovesForward(s, u, ok, t);
      case Add(u, p, _, _, _) =>
        AddKeepsQueue(s, e);
        IndexIsUnique(Apply(s, e), t, Position(s, t));
      case SetState(u, st) =>
        StepKeepsQueue(s, e);
        IndexIsUnique(Apply(s, e), t, Position(s, t));
    }
  }

  lemma SwitchMovesForward(s: Sched, ok: bool, t: Tid)
    requires QueueInv(s) && Select(s, NPRIOS).Some? && Select(s, NPRIOS) != Some(t) && Runnable(s, t)
    requires forall p :: s.tcb[t].prio < p < NPRIOS ==> ClassIdle(s, p)
    ensures var u := Select(s, NPRIOS).value;
            && u in s.tcb && QueueInv(Dispatch(s, u, ok))
            && Position(Dispatch(s, u, ok), t) < Position(s, t)
  {
    SelectedIsAhead(s, t);
    DispatchMovesForward(s, Select(s, NPRIOS).value, ok, t);
  }

  /** With no higher class runnable, the thread selected instead of t stands
      before t in the same ring. */
  lemma SelectedIsAhead(s: Sched, t: Tid)
    requires QueueInv(s) && Select(s, NPRIOS).Some? && Select(s, NPRIOS) != Some(t) && Runnable(s, t)
    requires forall p :: s.tcb[t].prio < p < NPRIOS ==> ClassIdle(s, p)
    ensures var u := Select(s, NPRIOS).value;
            u in s.tcb && u != t && s.tcb[u].prio == s.tcb[t].prio && Position(s, u) < Position(s, t)
  {
    hide QueueInv;
    RegisteredOnce(s, t);
    SelectIsHighest(s, NPRIOS);
    var u := Select(s, NPRIOS).value;
    var p, k, q := s.tcb[t].prio, Position(s, t), s.tcb[u].prio;
    assert !ClassIdle(s, p) by {
      assert Runnable(s, s.rings[p][k]);
    }
    assert !ClassIdle(s, q) by {
      assert Runnable(s, s.rings[q][Position(s, u)]);
    }
    assert p == q;
    assert Position(s, u) == FirstRunnable(s.rings[p], s) <= k;
  }

  lemma IndexIsUnique(s: Sched, t: Tid, k: nat)
    requires QueueInv(s) && t in s.tcb
    requires k < |s.rings[s.tcb[t].prio]| && s.rings[s.tcb[t].prio][k] == t
    ensures Position(s, t) == k
  {
  }

  /** Dispatching another thread moves t forward exactly if that thread stood
      before it in the same ring. */
  lemma DispatchMovesForward(s: Sched, u: Tid, ok: bool, t: Tid)
    requires QueueInv(s) && u in s.tcb && t in s.tcb && u != t
    ensures QueueInv(Dispatch(s, u, ok))
    ensures Position(Dispatch(s, u, ok), t) ==
            if s.tcb[u].prio == s.tcb[t].prio && Position(s, u) < Position(s, t)
            then Position(s, t) - 1 else Position(s, t)
  {
    hide QueueInv;
    RegisteredOnce(s, t);
    RegisteredOnce(s, u);
    DispatchKeepsQueue(s, u, ok);
    var s' := Dispatch(s, u, ok);
    var k, m, p := Position(s, t), Position(s, u), s.tcb[t].prio;
    if s.tcb[u].prio == p {
      RotatedAt(s.rings[p], m, k);
      IndexIsUnique(s', t, if m < k then k - 1 else k);
    } else {
      IndexIsUnique(s', t, k);
    }
  }

  lemma RotatedAt(ring: seq<Tid>, m: nat, k: nat)
    requires m < |ring| && k < |ring| && m != k
    ensures Rotated(ring, m)[if m < k then k - 1 else k] == ring[k]
  {
  }

  /** Bounded waiting: a thread at position k of its class that stays READY, with
      no higher class READY at a switch, is chosen within k + 1 switches, whatever
      other threads change state, are dispatched directly or are added meanwhile. */
  lemma {:induction false} BoundedWaiting(s: Sched, es: seq<Event>, t: Tid) returns (i: nat)
    requires Patient(s, es, t)
    requires Switches(es) > Position(s, t)
    ensures i < |es| && Chosen(StateAt(s, es, t, i), es[i]) == Some(t)
    ensures Switches(es[..i]) <= Position(s, t)
    decreases |es|
  {
    if Chosen(s, es[0]) == Some(t) {
      return 0;
    }
    var s1 := Apply(s, es[0]);
    StepMovesForward(s, es[0], t);
    i := BoundedWaiting(s1, es[1..], t);
    i := i + 1;
    assert es[..i][1..] == es[1..][..i - 1];
  }

  // ---- thread lookup ---------------------------------------------------------------------------

  predicate Matches(s: Sched, t: Tid, taskid: nat, id: nat) {
    t in s.tcb && s.tcb[t].id == id && s.tcb[t].taskid == taskid
  }

  ghost predicate UniqueIds(s: Sched) {
    forall t, u :: t in s.tcb && u in s.tcb && s.tcb[t].taskid == s.tcb[u].taskid && s.tcb[t].id == s.tcb[u].id ==>
      t == u
  }

  // ---- the code of sched.c -----------------------------------------------------------------------

  class SchedQueues {
    const ring: array<seq<Tid>>
    var tcb: map<Tid, Tcb>
    var current: Tid

    ghost function View(): (s: Sched)
      reads this, ring
    {
      Sched(ring[..], tcb, current)
    }

    ghost predicate Valid()
      reads this, ring
    {
      QueueInv(View())
    }

    /** `sched_init` with the idle thread in class 0 (the alarm is not modelled). */
    constructor (idle: Tid, taskid: nat, id: nat, state: ThreadState)
      ensures Valid() && fresh(ring) && current == idle
      ensures View().rings == seq(NPRIOS, p => if p == 0 then [idle] else [])
      ensures View().tcb == map[idle := Tcb(state, 0, taskid, id)]
    {
      ring := new seq<Tid>[NPRIOS](p => if p == 0 then [idle] else []);
      tcb := map[idle := Tcb(state, 0, taskid, id)];
      current := idle;
    }

    /** `sched_add_thread` */
    method AddThread(t: Tid, prio: nat, taskid: nat, id: nat, state: ThreadState)
      requires Valid() && Enabled(View(), Add(t, prio, taskid, id, state))
      modifies this, ring
      ensures Valid() && View() == Apply(old(View()), Add(t, prio, taskid, id, state))
      ensures ring[prio] == old(ring[prio]) + [t] && current == old(current)
      ensures forall p :: 0 <= p < NPRIOS && p != prio ==> ring[p] == old(ring[p])
      ensures tcb == old(tcb)[t := Tcb(state, prio, taskid, id)]
    {
      ghost var s := View();
      ring[prio] := ring[prio] + [t];
      tcb := tcb[t := Tcb(state, prio, taskid, id)];
      AddKeepsQueue(s, Add(t, prio, taskid, id, state));
    }

    /** `tcb_set_state` of a registered thread */
    method SetThreadState(t: Tid, state: ThreadState)
      requires Valid() && t in tcb
      modifies this`tcb
      ensures Valid() && View() == Apply(old(View()), SetState(t, state))
      ensures tcb == old(tcb)[t := Tcb(state, old(tcb)[t].prio, old(tcb)[t].taskid, old(tcb)[t].id)]
    {
      ghost var s := View();
      StepKeepsQueue(s, SetState(t, state));
      tcb := tcb[t := tcb[t].(state := state)];
    }

    /** `sched_select_thread`: classes from the highest down, each from the front. */
    method SelectThread() returns (t: Option<Tid>)
      requires Valid()
      ensures t == Select(View(), NPRIOS)
    {
      var cur := NPRIOS;
      while cur > 0
        invariant 0 <= cur <= NPRIOS
        invariant Select(View(), NPRIOS) == Select(View(), cur)
      {
        cur := cur - 1;
        ghost var k := FirstRunnable(ring[cur], View());
        var i := 0;
        while i < |ring[cur]|
          invariant 0 <= i <= |ring[cur]| && i <= k
        {
          var cand := ring[cur][i];
          if cand in tcb && tcb[cand].state == Ready {
            return Some(cand);
          }
          i := i + 1;
        }
      }
      return None;
    }

    /** `sched_switch_to`; `ok` is the outcome of the register switch. */
    method SwitchTo(next: Tid, ok: bool) returns (res: int)
      requires Valid() && Enabled(View(), Event.SwitchTo(next, ok))
      modifies this, ring
      ensures Valid() && View() == Dispatch(old(View()), next, ok)
      ensures res < 0 <==> next != old(current) && !ok
      ensures current == if ok then next else old(current)
      ensures tcb == old(tcb)
      ensures var p := tcb[next].prio;
              && (forall q :: 0 <= q < NPRIOS && q != p ==> ring[q] == old(ring[q]))
              && var k := Index(old(ring[p]), next);
              ring[p] == old(ring[p])[..k] + old(ring[p])[k + 1..] + [next]
    {
      hide QueueInv;
      ghost var s := View();
      RegisteredOnce(s, next);
      DispatchKeepsQueue(s, next, ok);
      var p := tcb[next].prio;
      ring[p] := Rotated(ring[p], Index(ring[p], next));
      assert ring[..] == Dispatch(s, next, ok).rings;
      if next == current {
        return 0;
      }
      if !ok {
        return -1;
      }
      current := next;
      return 0;
    }

    /** `sched_switch`: strict priority, and only the chosen thread's ring is permuted. */
    method Switch(ok: bool) returns (res: int)
      requires Valid() && Select(View(), NPRIOS).Some?
      modifies this, ring
      ensures Valid() && View() == Apply(old(View()), Event.Switch(ok)) && tcb == old(tcb)
      ensures !ok ==> current == old(current)
      ensures ok ==>
        && current in tcb && tcb[current].state == Ready
        && (forall t :: t in tcb && tcb[t].state == Ready ==> tcb[t].prio <= tcb[current].prio)
        && var old_ring := old(ring[..])[tcb[current].prio];
        && current in old_ring
        && (forall i :: 0 <= i < Index(old_ring, current) ==> !(old_ring[i] in tcb && tcb[old_ring[i]].state == Ready))
    {
      hide QueueInv;
      SelectIsHighest(View(), NPRIOS);
      SelectedIsTop(View());
      RegisteredOnce(View(), Select(View(), NPRIOS).value);
      var t := SelectThread();
      res := SwitchTo(t.value, ok);
    }

    /** `sched_search_thread`: finds a matching thread if and only if there is one;
        with unique ids it is the thread asked for. */
    method SearchThread(taskid: nat, id: nat) returns (t: Option<Tid>)
      requires Valid()
      ensures t.Some? ==> Matches(View(), t.value, taskid, id)
      ensures t.None? ==> forall u :: u in tcb ==> !Matches(View(), u, taskid, id)
      ensures UniqueIds(View()) ==> forall u :: u in tcb && Matches(View(), u, taskid, id) ==> t == Some(u)
    {
      var p := 0;
      while p < NPRIOS
        invariant 0 <= p <= NPRIOS
        invariant forall u :: u in tcb && tcb[u].prio < p ==> !Matches(View(), u, taskid, id)
      {
        var i := 0;
        while i < |ring[p]|
          invariant 0 <= i <= |ring[p]|
          invariant forall j :: 0 <= j < i ==> !Matches(View(), ring[p][j], taskid, id)
        {
          var cand := ring[p][i];
          if cand in tcb && tcb[cand].id == id && tcb[cand].taskid == taskid {
            return Some(cand);
          }
          i := i + 1;
        }
        forall u | u in tcb && tcb[u].prio == p ensures !Matches(View(), u, taskid, id) {
          var j := Index(ring[p], u);
          assert View().rings[p] == ring[p];
        }
        p := p + 1;
      }
      return None;
    }
  }
}
