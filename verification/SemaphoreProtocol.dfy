/**
 semaphore.c. One section under the semaphore's spinlock is one step, as the
 mutual exclusion of the spinlock justifies; between sections any number of
 threads interleave freely.
 */
module SemaphoreProtocol {
  import opened Common

  /** Where a thread is in semaphore_enter. `woken` records that it has been
      through the wait list and has not tried again yet. */
  datatype Pc = Outside | Trying(woken: bool) | Queued | Inside

  datatype Sem = Sem(slots: nat, waiters: seq<Tid>, state: map<Tid, ThreadState>, pc: map<Tid, Pc>)

  datatype Step =
    | Call(t: Tid)      // semaphore_enter is called
    | Try(t: Tid)       // first locked section of the retry loop
    | Dequeue(t: Tid)   // second locked section, once scheduled again
    | Leave(t: Tid)     // semaphore_leave by a thread that is inside
    | Signal(t: Tid)    // semaphore_leave by a thread that is not inside

  // ---- the locked sections -----------------------------------------------------------

  /** Position of the first waiter still WAITING, or |waiters|. */
  function FirstWaiting(waiters: seq<Tid>, state: map<Tid, ThreadState>): (k: nat)
    ensures k <= |waiters|
    ensures forall i :: 0 <= i < k ==> waiters[i] in state ==> state[waiters[i]] != Waiting
    ensures k < |waiters| ==> waiters[k] in state && state[waiters[k]] == Waiting
  {
    if waiters == [] then 0
    else if waiters[0] in state && state[waiters[0]] == Waiting then 0
    else 1 + FirstWaiting(waiters[1..], state)
  }

  /** Thread states after `semaphore_leave` woke one waiter, if any. */
  function Woken(waiters: seq<Tid>, state: map<Tid, ThreadState>): (state': map<Tid, ThreadState>) {
    var k := FirstWaiting(waiters, state);
    if k < |waiters| then state[waiters[k] := Ready] else state
  }

  function Without(waiters: seq<Tid>, t: Tid): (r: seq<Tid>)
    ensures forall u :: u in r <==> u in waiters && u != t
  {
    if waiters == [] then []
    else if waiters[0] == t then Without(waiters[1..], t)
    else [waiters[0]] + Without(waiters[1..], t)
  }

  predicate Enabled(s: Sem, step: Step) {
    step.t in s.pc && step.t in s.state &&
    match step
    case Call(t) => s.pc[t] == Outside
    case Try(t) => s.pc[t].Trying?
    case Dequeue(t) => s.pc[t] == Queued && s.state[t] == Ready
    case Leave(t) => s.pc[t] == Inside
    case Signal(t) => s.pc[t] == Outside
  }

  function Apply(s: Sem, step: Step): (s': Sem)
    requires Enabled(s, step)
  {
    match step
    case Call(t) => s.(pc := s.pc[t := Trying(false)])
    case Try(t) =>
      if s.slots > 0 then s.(slots := s.slots - 1, pc := s.pc[t := Inside])
      else s.(waiters := s.waiters + [t], state := s.state[t := Waiting], pc := s.pc[t := Queued])
    case Dequeue(t) => s.(waiters := Without(s.waiters, t), pc := s.pc[t := Trying(true)])
    case Leave(t) =>
      s.(slots := s.slots + 1, state := Woken(s.waiters, s.state), pc := s.pc[t := Outside])
    case Signal(t) => s.(slots := s.slots + 1, state := Woken(s.waiters, s.state))
  }

  /** `semaphore_init` with threads that are all runnable and outside. */
  ghost predicate Initial(s: Sem) {
    && s.waiters == [] && s.state.Keys == s.pc.Keys
    && (forall t :: t in s.pc ==> s.pc[t] == Outside && s.state[t] == Ready)
  }

  ghost predicate Legal(s: Sem, steps: seq<Step>)
    decreases |steps|
  {
    steps == [] || (Enabled(s, steps[0]) && Legal(Apply(s, steps[0]), steps[1..]))
  }

  ghost function Run(s: Sem, steps: seq<Step>): (s': Sem)
    requires Legal(s, steps)
    decreases |steps|
  {
    if steps == [] then s else Run(Apply(s, steps[0]), steps[1..])
  }

  // ---- invariants ---------------------------------------------------------------------

  /** Woken threads come first, WAITING threads last. */
  ghost predicate Fifo(w: seq<Tid>, state: map<Tid, ThreadState>) {
    && (forall i :: 0 <= i < |w| ==> w[i] in state)
    && (forall i, j :: 0 <= i < j < |w| ==> state[w[i]] == Waiting ==> state[w[j]] == Waiting)
  }

  /** The wait list holds each queued thread once, and exactly those. */
  ghost predicate QueueInv(s: Sem) {
    && s.state.Keys == s.pc.Keys
    && Distinct(s.waiters)
    && Fifo(s.waiters, s.state)
    && (forall t :: t in s.waiters <==> t in s.pc && s.pc[t] == Queued)
    && (forall t :: t in s.state && s.state[t] == Waiting ==> t in s.waiters)
  }

  /** Threads that have been woken and have not yet tried again. */
  ghost function Retrying(s: Sem): (r: set<Tid>) {
    set t | t in s.pc && t in s.state &&
            ((s.pc[t] == Queued && s.state[t] == Ready) || s.pc[t] == Trying(true))
  }

  ghost predicate SomeoneWaits(s: Sem) {
    exists t :: t in s.state && s.state[t] == Waiting
  }

  /** No wake-up is lost: free slots never outnumber the woken threads on their
      way back while somebody is still asleep. */
  ghost predicate NoLostWakeup(s: Sem) {
    SomeoneWaits(s) ==> s.slots <= |Retrying(s)|
  }

  ghost function Insiders(s: Sem): (r: set<Tid>) {
    set t | t in s.pc && s.pc[t] == Inside
  }

  lemma {:induction false} WithoutAt(w: seq<Tid>, t: Tid, k: nat)
    requires Distinct(w) && k < |w| && w[k] == t
    ensures Without(w, t) == w[..k] + w[k + 1..]
  {
    if k == 0 {
      WithoutAbsent(w[1..], t);
    } else {
      assert w[1..][..k - 1] == w[1..k] && w[1..][k..] == w[k + 1..];
      WithoutAt(w[1..], t, k - 1);
    }
  }

  lemma {:induction false} WithoutAbsent(w: seq<Tid>, t: Tid)
    requires t !in w
    ensures Without(w, t) == w
  {
    if w != [] {
      WithoutAbsent(w[1..], t);
    }
  }

  /** The entries that remain, by their old positions. */
  lemma WithoutPlaces(w: seq<Tid>, t: Tid) returns (k: nat)
    requires Distinct(w) && t in w
    ensures k < |w| && w[k] == t && |Without(w, t)| == |w| - 1
    ensures forall i :: 0 <= i < |w| - 1 ==> Without(w, t)[i] == w[if i < k then i else i + 1]
  {
    k :| 0 <= k < |w| && w[k] == t;
    WithoutAt(w, t, k);
  }

  /** Removing one entry keeps the order of the others. */
  lemma WithoutKeepsOrder(w: seq<Tid>, t: Tid, state: map<Tid, ThreadState>)
    requires Distinct(w) && Fifo(w, state) && t in w
    ensures Distinct(Without(w, t)) && Fifo(Without(w, t), state)
  {
    hide Without;
    var k := WithoutPlaces(w, t);
    var r := Without(w, t);
    forall i, j | 0 <= i < j < |r|
      ensures r[i] != r[j] && r[i] in state && r[j] in state
      ensures state[r[i]] == Waiting ==> state[r[j]] == Waiting
    {
      var i', j' := if i < k then i else i + 1, if j < k then j else j + 1;
      assert r[i] == w[i'] && r[j] == w[j'] && i' < j';
    }
  }

  lemma WakeKeepsQueue(s: Sem)
    requires QueueInv(s)
    ensures var state' := Woken(s.waiters, s.state);
            && Fifo(s.waiters, state') && state'.Keys == s.state.Keys
            && (forall t :: t in state' && state'[t] == Waiting ==> s.state[t] == Waiting)
  {
    var k := FirstWaiting(s.waiters, s.state);
    var w := s.waiters;
    if k < |w| {
      forall i, j | 0 <= i < j < |w| && s.state[w[k] := Ready][w[i]] == Waiting
        ensures s.state[w[k] := Ready][w[j]] == Waiting
      {
        assert s.state[w[i]] == Waiting && i > k;
      }
    }
  }

  lemma StepKeepsQueue(s: Sem, step: Step)
    requires QueueInv(s) && Enabled(s, step)
    ensures QueueInv(Apply(s, step))
  {
    match step {
      case Dequeue(t) => WithoutKeepsOrder(s.waiters, t, s.state);
      case Leave(t) => WakeKeepsQueue(s);
      case Signal(t) => WakeKeepsQueue(s);
      case Try(t) =>
        if s.slots == 0 {
          var w' := s.waiters + [t];
          assert t !in s.waiters;
          assert Distinct(w');
        }
      case Call(t) =>
    }
  }

  /** Releasing wakes a sleeper, if there is one, so the bound moves with the slots. */
  lemma WakeCounts(s: Sem, s': Sem)
    requires QueueInv(s) && NoLostWakeup(s)
    requires s'.slots == s.slots + 1 && s'.waiters == s.waiters && s'.state == Woken(s.waiters, s.state)
    requires s'.pc.Keys == s.pc.Keys
    requires forall t :: t in s.pc ==> s'.pc[t] == s.pc[t] || (s.pc[t] == Inside && s'.pc[t] == Outside)
    ensures NoLostWakeup(s')
  {
    var k := FirstWaiting(s.waiters, s.state);
    if SomeoneWaits(s') {
      var t :| t in s'.state && s'.state[t] == Waiting;
      assert s.state[t] == Waiting && t in s.waiters;
      assert k < |s.waiters|;
      assert s.waiters[k] in s.waiters;
      WokenJoins(s, s', s.waiters[k]);
    }
  }

  lemma WokenJoins(s: Sem, s': Sem, u: Tid)
    requires u in s.pc && u in s.state && s.pc[u] == Queued && s.state[u] == Waiting
    requires s'.state == s.state[u := Ready] && s'.pc.Keys == s.pc.Keys
    requires forall t :: t in s.pc ==> s'.pc[t] == s.pc[t] || (s.pc[t] == Inside && s'.pc[t] == Outside)
    ensures |Retrying(s')| == |Retrying(s)| + 1
  {
    forall t ensures t in Retrying(s') <==> t in Retrying(s) || t == u {
    }
    assert Retrying(s') == Retrying(s) + {u};
    assert u !in Retrying(s);
  }

  lemma StepKeepsWakeups(s: Sem, step: Step)
    requires QueueInv(s) && NoLostWakeup(s) && Enabled(s, step)
    ensures NoLostWakeup(Apply(s, step))
  {
    match step {
      case Leave(t) => WakeCounts(s, Apply(s, step));
      case Signal(t) => WakeCounts(s, Apply(s, step));
      case Call(t) => assert Retrying(Apply(s, step)) == Retrying(s);
      case Dequeue(t) => assert Retrying(Apply(s, step)) == Retrying(s);
      case Try(t) => TryCounts(s, t);
    }
  }

  lemma TryCounts(s: Sem, t: Tid)
    requires NoLostWakeup(s) && Enabled(s, Try(t))
    ensures NoLostWakeup(Apply(s, Try(t)))
  {
    var s' := Apply(s, Try(t));
    if s.slots > 0 && SomeoneWaits(s') {
      assert SomeoneWaits(s);
      assert Retrying(s') == Retrying(s) - {t};
    }
  }

  /** In every reachable state of any number of threads: the wait list is in
      order and no wake-up is lost, whoever releases. */
  lemma {:induction false} WakeupsOverRuns(s: Sem, steps: seq<Step>)
    requires QueueInv(s) && NoLostWakeup(s) && Legal(s, steps)
    ensures QueueInv(Run(s, steps)) && NoLostWakeup(Run(s, steps))
    decreases |steps|
  {
    if steps != [] {
      StepKeepsQueue(s, steps[0]);
      StepKeepsWakeups(s, steps[0]);
      WakeupsOverRuns(Apply(s, steps[0]), steps[1..]);
    }
  }

  lemma InitialState(s: Sem)
    requires Initial(s)
    ensures QueueInv(s) && NoLostWakeup(s) && |Insiders(s)| == 0
  {
    assert Insiders(s) == {};
  }

  /** Hence a free slot is never ignored: while anybody sleeps, some woken thread
      is on its way to take it. */
  lemma FreeSlotIsSought(s: Sem, steps: seq<Step>)
    requires Initial(s) && Legal(s, steps)
    requires Run(s, steps).slots > 0 && SomeoneWaits(Run(s, steps))
    ensures exists t :: t in Retrying(Run(s, steps))
  {
    InitialState(s);
    WakeupsOverRuns(s, steps);
    var r := Retrying(Run(s, steps));
    assert |r| > 0;
    var t :| t in r;
  }

  lemma StepConserves(s: Sem, step: Step)
    requires Enabled(s, step) && !step.Signal?
    ensures Apply(s, step).slots + |Insiders(Apply(s, step))| == s.slots + |Insiders(s)|
  {
    var s' := Apply(s, step);
    var t := step.t;
    if s'.pc[t] == Inside {
      assert Insiders(s') == Insiders(s) + {t};
    } else if s.pc[t] == Inside {
      assert t in Insiders(s);
      assert Insiders(s') == Insiders(s) - {t};
    } else {
      assert Insiders(s') == Insiders(s);
    }
  }

  /** Conservation over every run in which only insiders leave: slots plus
      insiders stay what they were, so one slot gives mutual exclusion. */
  lemma {:induction false} Conservation(s: Sem, steps: seq<Step>)
    requires Legal(s, steps) && forall i :: 0 <= i < |steps| ==> !steps[i].Signal?
    ensures Run(s, steps).slots + |Insiders(Run(s, steps))| == s.slots + |Insiders(s)|
    decreases |steps|
  {
    if steps != [] {
      StepConserves(s, steps[0]);
      Conservation(Apply(s, steps[0]), steps[1..]);
    }
  }

  lemma OneSlotExcludes(s: Sem, steps: seq<Step>, t: Tid, u: Tid)
    requires Initial(s) && s.slots == 1 && Legal(s, steps)
    requires forall i :: 0 <= i < |steps| ==> !steps[i].Signal?
    requires t in Insiders(Run(s, steps)) && u in Insiders(Run(s, steps))
    ensures t == u
  {
    InitialState(s);
    Conservation(s, steps);
    var h := Insiders(Run(s, steps));
    assert |h| <= 1;
    if h - {t} != {} {
      assert |h| == 1 + |h - {t}|;
    }
  }

  // ---- arrival order ---------------------------------------------------------------------------

  /** When t last went through the first locked section, as an index of the run; -1 if never. */
  ghost function LastTry(steps: seq<Step>, t: Tid): (k: int)
    ensures -1 <= k < |steps|
  {
    if steps == [] then -1
    else if steps[|steps| - 1] == Try(t) then |steps| - 1
    else LastTry(steps[..|steps| - 1], t)
  }

  lemma {:induction false} RunSnoc(s: Sem, steps: seq<Step>)
    requires Legal(s, steps) && steps != []
    ensures var n := |steps| - 1;
            && Legal(s, steps[..n]) && Enabled(Run(s, steps[..n]), steps[n])
            && Run(s, steps) == Apply(Run(s, steps[..n]), steps[n])
    decreases |steps|
  {
    var n := |steps| - 1;
    if n > 0 {
      assert steps[1..][..n - 1] == steps[..n][1..];
      assert steps[1..][n - 1] == steps[n];
      RunSnoc(Apply(s, steps[0]), steps[1..]);
    } else {
      assert steps[..0] == [] && steps[1..] == [];
    }
  }

  /** The list is in the order in which its threads last tried. */
  ghost predicate InArrivalOrder(w: seq<Tid>, steps: seq<Step>) {
    && (forall i :: 0 <= i < |w| ==> LastTry(steps, w[i]) >= 0)
    && (forall i, j :: 0 <= i < j < |w| ==> LastTry(steps, w[i]) < LastTry(steps, w[j]))
  }

  lemma OrderWithout(w: seq<Tid>, t: Tid, steps: seq<Step>)
    requires Distinct(w) && t in w && InArrivalOrder(w, steps)
    ensures InArrivalOrder(Without(w, t), steps)
  {
    hide Without, LastTry;
    var k := WithoutPlaces(w, t);
    var r := Without(w, t);
    forall i | 0 <= i < |r| ensures LastTry(steps, r[i]) >= 0 {
      assert r[i] == w[if i < k then i else i + 1];
    }
    forall i, j | 0 <= i < j < |r| ensures LastTry(steps, r[i]) < LastTry(steps, r[j]) {
      assert r[i] == w[if i < k then i else i + 1] && r[j] == w[if j < k then j else j + 1];
    }
  }

  /** A step other than a try of one of its threads leaves the list's order alone. */
  lemma OrderKept(w: seq<Tid>, steps: seq<Step>)
    requires steps != [] && InArrivalOrder(w, steps[..|steps| - 1])
    requires steps[|steps| - 1].Try? ==> steps[|steps| - 1].t !in w
    ensures InArrivalOrder(w, steps)
  {
    forall i | 0 <= i < |w| ensures LastTry(steps, w[i]) == LastTry(steps[..|steps| - 1], w[i]) {
    }
  }

  /** Over every run the wait list holds its threads in the order in which they came. */
  lemma {:induction false} ArrivalOrder(s: Sem, steps: seq<Step>)
    requires Initial(s) && Legal(s, steps)
    ensures InArrivalOrder(Run(s, steps).waiters, steps)
    decreases |steps|
  {
    if steps != [] {
      var n := |steps| - 1;
      RunSnoc(s, steps);
      ArrivalOrder(s, steps[..n]);
      InitialState(s);
      WakeupsOverRuns(s, steps[..n]);
      var r, step := Run(s, steps[..n]), steps[n];
      OrderKept(r.waiters, steps);
      match step {
        case Dequeue(t) => OrderWithout(r.waiters, t, steps);
        case Try(t) =>
          var w' := Apply(r, step).waiters;
          assert LastTry(steps, t) == n;
          forall i | 0 <= i < |r.waiters| ensures LastTry(steps, r.waiters[i]) < n {
            assert r.waiters[i] != t;
          }
        case _ =>
      }
    }
  }

  /** WAITING threads stand in the order of their last tries. */
  lemma WaitingInOrder(s: Sem, steps: seq<Step>, i: nat, j: nat)
    requires Initial(s) && Legal(s, steps) && i < |Run(s, steps).waiters| && j < |Run(s, steps).waiters|
    ensures LastTry(steps, Run(s, steps).waiters[i]) < LastTry(steps, Run(s, steps).waiters[j]) <==> i < j
  {
    ArrivalOrder(s, steps);
  }

  ghost predicate OldestWaiting(r: Sem, steps: seq<Step>, w: Tid) {
    && w in r.state && r.state[w] == Waiting
    && (forall u :: u in r.state && r.state[u] == Waiting ==> LastTry(steps, w) <= LastTry(steps, u))
  }

  /** Leaving frees one slot and makes READY exactly the WAITING thread that came first; all
      other threads keep their state, and the list stays as it is. */
  lemma WakesTheOldest(s: Sem, steps: seq<Step>, step: Step) returns (w: Tid)
    requires Initial(s) && Legal(s, steps)
    requires Enabled(Run(s, steps), step) && (step.Leave? || step.Signal?)
    ensures var r, r' := Run(s, steps), Apply(Run(s, steps), step);
            && r'.slots == r.slots + 1 && r'.waiters == r.waiters
            && (if SomeoneWaits(r) then OldestWaiting(r, steps, w) && r'.state == r.state[w := Ready]
                else r'.state == r.state)
  {
    hide QueueInv, InArrivalOrder, Run, Legal, Initial, OldestWaiting;
    InitialState(s);
    WakeupsOverRuns(s, steps);
    ArrivalOrder(s, steps);
    w := FirstIsOldest(Run(s, steps), steps);
  }

  /** The first WAITING thread of the list is the one that `semaphore_leave` wakes, and the
      oldest. */
  lemma FirstIsOldest(r: Sem, steps: seq<Step>) returns (w: Tid)
    requires QueueInv(r) && InArrivalOrder(r.waiters, steps)
    ensures if SomeoneWaits(r) then OldestWaiting(r, steps, w) && Woken(r.waiters, r.state) == r.state[w := Ready]
            else Woken(r.waiters, r.state) == r.state
  {
    var k := FirstWaiting(r.waiters, r.state);
    w := 0;
    if SomeoneWaits(r) {
      var t :| t in r.state && r.state[t] == Waiting;
      assert t in r.waiters;
      w := r.waiters[k];
      forall u | u in r.state && r.state[u] == Waiting ensures LastTry(steps, w) <= LastTry(steps, u) {
        var j :| 0 <= j < |r.waiters| && r.waiters[j] == u;
        assert k <= j;
      }
    }
  }

  // ---- the code of the sections -----------------------------------------------------------

  /** `struct semaphore` together with the states of the threads that use it. */
  class Semaphore {
    var slots: nat
    var waiters: seq<Tid>
    var state: map<Tid, ThreadState>
    ghost var pc: map<Tid, Pc>

    ghost function View(): (s: Sem)
      reads this
    {
      Sem(slots, waiters, state, pc)
    }

    /** `semaphore_init` */
    constructor (slots: nat, ghost threads: set<Tid>, state: map<Tid, ThreadState>)
      requires state.Keys == threads && forall t :: t in state ==> state[t] == Ready
      ensures Initial(View()) && View().slots == slots && View().pc.Keys == threads
    {
      this.slots := slots;
      waiters := [];
      this.state := state;
      pc := map t | t in threads :: Outside;
    }

    /** First locked section of `semaphore_enter`. */
    method TryEnter(self: Tid) returns (avail: bool)
      requires Enabled(View(), Try(self))
      modifies this
      ensures View() == Apply(old(View()), Try(self))
      ensures avail <==> old(slots) > 0
      ensures avail ==> slots == old(slots) - 1 && waiters == old(waiters) && state == old(state)
      ensures !avail ==>
        slots == old(slots) && waiters == old(waiters) + [self] && state == old(state)[self := Waiting]
      ensures avail <==> View().pc[self] == Inside
    {
      avail := slots != 0;
      if avail {
        slots := slots - 1;
        pc := pc[self := Inside];
      } else {
        waiters := waiters + [self];
        state := state[self := Waiting];
        pc := pc[self := Queued];
      }
    }

    /** Second locked section: `list_dequeue(&self->wait)` after the switch. */
    method DequeueSelf(self: Tid)
      requires Enabled(View(), Dequeue(self))
      modifies this
      ensures View() == Apply(old(View()), Dequeue(self))
      ensures self !in waiters && slots == old(slots) && state == old(state)
    {
      waiters := Without(waiters, self);
      pc := pc[self := Trying(true)];
    }

    /** `semaphore_leave`: free a slot, then scan for one waiter to wake. */
    method LeaveSection(ghost step: Step)
      requires (step.Leave? || step.Signal?) && Enabled(View(), step)
      modifies this
      ensures View() == Apply(old(View()), step)
      ensures slots == old(slots) + 1 && waiters == old(waiters)
      ensures var k := FirstWaiting(waiters, old(state));
              state == if k < |waiters| then old(state)[waiters[k] := Ready] else old(state)
    {
      slots := slots + 1;
      ghost var k := FirstWaiting(waiters, state);
      var i := 0;
      while i < |waiters|
        invariant 0 <= i <= |waiters| && i <= k
      {
        var waiter := waiters[i];
        if waiter in state && state[waiter] == Waiting {
          assert i == k;
          state := state[waiter := Ready];
          break;
        }
        i := i + 1;
      }
      if step.Leave? {
        pc := pc[step.t := Outside];
      }
    }
  }
}
