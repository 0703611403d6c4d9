/**
 The locking discipline of vmem.c and pmem.c: address-space semaphores in
 address order, the frame-map semaphore innermost. Semaphores have one slot, so
 by SemaphoreProtocol each is held by at most one thread at a time.
 */
module LockOrder {
  import opened Common

  /** The semaphore of the address space at an address, or the frame map's. */
  datatype Lock = Space(addr: nat) | Frames

  predicate Below(a: Lock, b: Lock) {
    match (a, b)
    case (Space(x), Space(y)) => x < y
    case (Space(_), Frames) => true
    case (Frames, _) => false
  }

  /** A vmem operation on a destination and a source address space (one and the
      same for the operations on a single space), or a bare pmem operation. */
  datatype Op = OnSpaces(dst: nat, src: nat) | OnFrames

  /** `semaphore_enter_ordered` */
  function EnterOrdered(sem1: nat, sem2: nat): (locks: seq<Lock>) {
    if sem1 < sem2 then [Space(sem1), Space(sem2)]
    else if sem1 > sem2 then [Space(sem2), Space(sem1)]
    else [Space(sem1)]
  }

  /** `semaphore_leave_ordered` */
  function LeaveOrdered(sem1: nat, sem2: nat): (locks: seq<Lock>) {
    if sem1 != sem2 then [Space(sem1), Space(sem2)] else [Space(sem1)]
  }

  function EnterSeq(op: Op): (locks: seq<Lock>) {
    if op.OnFrames? then [] else EnterOrdered(op.dst, op.src)
  }

  function LeaveSeq(op: Op): (locks: seq<Lock>) {
    if op.OnFrames? then [] else LeaveOrdered(op.dst, op.src)
  }

  /** What is entered is left, each semaphore once, also when source equals
      destination; and it is entered in ascending order. */
  lemma EnterLeaveBalance(op: Op)
    ensures multiset(EnterSeq(op)) == multiset(LeaveSeq(op))
    ensures forall l :: multiset(EnterSeq(op))[l] <= 1
    ensures forall i, j :: 0 <= i < j < |EnterSeq(op)| ==> Below(EnterSeq(op)[i], EnterSeq(op)[j])
    ensures Frames !in EnterSeq(op)
  {
  }

  datatype Pc =
    | Idle
    | Entering(op: Op, i: nat)     // has entered i semaphores, is entering the next
    | Working(op: Op)              // has entered all of them
    | EnteringFrames(op: Op)       // is entering the frame map's semaphore
    | InFrames(op: Op)
    | Leaving(op: Op, i: nat)      // has left i semaphores

  ghost predicate WellPlaced(pc: Pc) {
    match pc
    case Entering(op, i) => i < |EnterSeq(op)|
    case Leaving(op, i) => i < |LeaveSeq(op)|
    case _ => true
  }

  ghost function Elements(locks: seq<Lock>): (r: set<Lock>) {
    set l | l in locks
  }

  ghost function Held(pc: Pc): (r: set<Lock>)
    requires WellPlaced(pc)
  {
    match pc
    case Idle => {}
    case Entering(op, i) => Elements(EnterSeq(op)[..i])
    case Working(op) => Elements(EnterSeq(op))
    case EnteringFrames(op) => Elements(EnterSeq(op))
    case InFrames(op) => Elements(EnterSeq(op)) + {Frames}
    case Leaving(op, i) => Elements(LeaveSeq(op)[i..])
  }

  ghost function Wanted(pc: Pc): (l: Option<Lock>)
    requires WellPlaced(pc)
  {
    match pc
    case Entering(op, i) => Some(EnterSeq(op)[i])
    case EnteringFrames(op) => Some(Frames)
    case _ => None
  }

  type System = map<Tid, Pc>

  ghost predicate Placed(s: System) {
    forall t :: t in s ==> WellPlaced(s[t])
  }

  ghost predicate Free(s: System, l: Lock)
    requires Placed(s)
  {
    forall t :: t in s ==> l !in Held(s[t])
  }

  datatype Step = Start(t: Tid, op: Op) | Acquire(t: Tid) | CallFrames(t: Tid) | LeaveFrames(t: Tid)
                | Finish(t: Tid) | Release(t: Tid)

  /** An acquisition is possible only while the semaphore has its slot. */
  ghost predicate Enabled(s: System, step: Step) {
    && Placed(s) && step.t in s
    && var pc := s[step.t];
    match step
    case Start(_, _) => pc == Idle
    case Acquire(_) => Wanted(pc).Some? && Free(s, Wanted(pc).value)
    case CallFrames(_) => pc.Working?
    case LeaveFrames(_) => pc.InFrames?
    case Finish(_) => pc.Working?
    case Release(_) => pc.Leaving?
  }

  function Entered(op: Op, i: nat): (pc: Pc) {
    if i < |EnterSeq(op)| then Entering(op, i) else Working(op)
  }

  function Left(op: Op, i: nat): (pc: Pc) {
    if i < |LeaveSeq(op)| then Leaving(op, i) else Idle
  }

  ghost function Next(pc: Pc, step: Step): (pc': Pc)
  {
    match step
    case Start(_, op) => Entered(op, 0)
    case Acquire(_) =>
      if pc.Entering? then Entered(pc.op, pc.i + 1) else if pc.EnteringFrames? then InFrames(pc.op) else pc
    case CallFrames(_) => if pc.Working? then EnteringFrames(pc.op) else pc
    case LeaveFrames(_) => if pc.InFrames? then Working(pc.op) else pc
    case Finish(_) => if pc.Working? then Left(pc.op, 0) else pc
    case Release(_) => if pc.Leaving? then Left(pc.op, pc.i + 1) else pc
  }

  ghost function Apply(s: System, step: Step): (s': System)
    requires Enabled(s, step)
  {
    s[step.t := Next(s[step.t], step)]
  }

  /** No semaphore is held twice. */
  ghost predicate Inv(s: System) {
    && Placed(s)
    && (forall t, u :: t in s && u in s && t != u ==> Held(s[t]) !! Held(s[u]))
  }

  /** A step adds exactly the lock it acquires to what its thread holds, and a
      release takes exactly one lock away. */
  lemma NextHolds(pc: Pc, step: Step)
    requires WellPlaced(pc)
    requires step.Start? ==> pc == Idle
    requires step.Acquire? ==> Wanted(pc).Some?
    ensures WellPlaced(Next(pc, step))
    ensures step.Acquire? ==> Held(Next(pc, step)) == Held(pc) + {Wanted(pc).value}
    ensures !step.Acquire? ==> Held(Next(pc, step)) <= Held(pc)
    ensures step.Release? && pc.Leaving? ==> Held(Next(pc, step)) == Held(pc) - {LeaveSeq(pc.op)[pc.i]}
    ensures step.Finish? && pc.Working? ==> Held(Next(pc, step)) == Held(pc)
  {
    match step {
      case Acquire(_) => if pc.Entering? { EnteredHolds(pc.op, pc.i); }
      case Finish(_) => if pc.Working? { FinishHolds(pc.op); }
      case Release(_) => if pc.Leaving? { LeftHolds(pc.op, pc.i); }
      case _ =>
    }
  }

  lemma EnteredHolds(op: Op, i: nat)
    requires i < |EnterSeq(op)|
    ensures Held(Entered(op, i + 1)) == Held(Entering(op, i)) + {EnterSeq(op)[i]}
  {
    var e := EnterSeq(op);
    assert e[..i + 1] == e[..i] + [e[i]];
    if i + 1 == |e| {
      assert e[..i + 1] == e;
    }
  }

  lemma FinishHolds(op: Op)
    ensures Held(Left(op, 0)) == Held(Working(op))
  {
    EnterLeaveBalance(op);
    SameElements(EnterSeq(op), LeaveSeq(op));
    assert LeaveSeq(op)[0..] == LeaveSeq(op);
  }

  lemma LeftHolds(op: Op, i: nat)
    requires i < |LeaveSeq(op)|
    ensures Held(Left(op, i + 1)) == Held(Leaving(op, i)) - {LeaveSeq(op)[i]}
  {
    var e := LeaveSeq(op);
    assert e[i..] == [e[i]] + e[i + 1..];
    assert e[i] !in e[i + 1..];
  }

  lemma SameElements(a: seq<Lock>, b: seq<Lock>)
    requires multiset(a) == multiset(b)
    ensures Elements(a) == Elements(b)
  {
    forall l ensures l in a <==> l in b {
      assert l in a <==> l in multiset(a);
    }
  }

  lemma StepKeepsInv(s: System, step: Step)
    requires Inv(s) && Enabled(s, step)
    ensures Inv(Apply(s, step))
  {
    NextHolds(s[step.t], step);
  }

  ghost predicate Legal(s: System, steps: seq<Step>)
    decreases |steps|
  {
    steps == [] || (Enabled(s, steps[0]) && Legal(Apply(s, steps[0]), steps[1..]))
  }

  ghost function Run(s: System, steps: seq<Step>): (s': System)
    requires Legal(s, steps)
    decreases |steps|
  {
    if steps == [] then s else Run(Apply(s, steps[0]), steps[1..])
  }

  lemma {:induction false} RunKeepsInv(s: System, steps: seq<Step>)
    requires Inv(s) && Legal(s, steps)
    ensures Inv(Run(s, steps))
    decreases |steps|
  {
    if steps != [] {
      StepKeepsInv(s, steps[0]);
      RunKeepsInv(Apply(s, steps[0]), steps[1..]);
    }
  }

  /** While an operation works, the semaphores of both its address spaces are held, and the
      frame map's as well while it uses the frame map. */
  lemma WorkingHoldsBoth(op: Op)
    ensures op.OnSpaces? ==> {Space(op.dst), Space(op.src)} == Held(Working(op)) == Held(EnteringFrames(op))
    ensures op.OnSpaces? ==> {Space(op.dst), Space(op.src), Frames} == Held(InFrames(op))
    ensures op.OnFrames? ==> Held(InFrames(op)) == {Frames}
  {
  }

  /** The thread is inside the operation, all its address-space semaphores entered. */
  predicate At(pc: Pc, op: Op) {
    pc == Working(op) || pc == EnteringFrames(op) || pc == InFrames(op)
  }

  /** Over every run: two threads never work on a common address space at a time, and never
      both use the frame map. */
  lemma OperationsExclude(s: System, steps: seq<Step>, t: Tid, u: Tid, op: Op, op': Op)
    requires (forall x :: x in s ==> s[x] == Idle) && Legal(s, steps)
    requires t in Run(s, steps) && u in Run(s, steps) && t != u
    requires At(Run(s, steps)[t], op) && At(Run(s, steps)[u], op')
    ensures op.OnSpaces? && op'.OnSpaces? ==> {op.dst, op.src} !! {op'.dst, op'.src}
    ensures !(Run(s, steps)[t].InFrames? && Run(s, steps)[u].InFrames?)
  {
    RunKeepsInv(s, steps);
    WorkingHoldsBoth(op);
    WorkingHoldsBoth(op');
    var r := Run(s, steps);
    assert Held(r[t]) !! Held(r[u]);
    if op.OnSpaces? && op'.OnSpaces? {
      assert Space(op.dst) in Held(r[t]) && Space(op.src) in Held(r[t]);
      assert Space(op'.dst) in Held(r[u]) && Space(op'.src) in Held(r[u]);
    }
  }

  // ---- no circular wait ------------------------------------------------------------------

  /** A thread waits for a semaphore that somebody holds. */
  ghost predicate Blocked(s: System, t: Tid) {
    Placed(s) && t in s && Wanted(s[t]).Some? && !Free(s, Wanted(s[t]).value)
  }

  /** A thread only ever waits for a semaphore above all those it holds. */
  lemma WantsAbove(pc: Pc, l: Lock)
    requires WellPlaced(pc) && Wanted(pc).Some? && l in Held(pc)
    ensures Below(l, Wanted(pc).value)
  {
    EnterLeaveBalance(pc.op);
    if pc.Entering? {
      var e := EnterSeq(pc.op);
      var i :| 0 <= i < pc.i && e[i] == l;
    }
  }

  lemma {:induction false} HighestLock(locks: set<Lock>) returns (top: Lock)
    requires locks != {}
    ensures top in locks && forall l :: l in locks ==> l == top || Below(l, top)
    decreases |locks|
  {
    var l :| l in locks;
    var rest := locks - {l};
    if rest == {} {
      assert locks == {l};
      return l;
    }
    var m := HighestLock(rest);
    top := if Below(m, l) then l else m;
    forall x | x in locks ensures x == top || Below(x, top) {
      assert x == l || x in rest;
    }
  }

  ghost function AllHeld(s: System): (r: set<Lock>)
    requires Placed(s)
  {
    set t, l | t in s && l in Held(s[t]) :: l
  }

  lemma BlockedWantsHeld(s: System, t: Tid)
    requires Blocked(s, t)
    ensures Wanted(s[t]).value in AllHeld(s)
  {
    var x :| x in s && Wanted(s[t]).value in Held(s[x]);
  }

  /** Whenever some thread waits for a held semaphore, some thread that holds one
      is not waiting. */
  lemma SomeHolderIsFree(s: System, t: Tid) returns (u: Tid)
    requires Inv(s) && Blocked(s, t)
    ensures u in s && Held(s[u]) != {} && !Blocked(s, u)
  {
    BlockedWantsHeld(s, t);
    var top := HighestLock(AllHeld(s));
    u :| u in s && top in Held(s[u]);
    if Blocked(s, u) {
      BlockedWantsHeld(s, u);
      WantsAbove(s[u], top);
      assert false;
    }
  }

  /** A thread that is neither idle nor blocked can take its next step. */
  lemma UnblockedCanStep(s: System, u: Tid) returns (step: Step)
    requires Inv(s) && u in s && s[u] != Idle && !Blocked(s, u)
    ensures Enabled(s, step) && step.t == u && !step.Start?
  {
    match s[u] {
      case Entering(_, _) => step := Acquire(u);
      case EnteringFrames(_) => step := Acquire(u);
      case Working(_) => step := Finish(u);
      case InFrames(_) => step := LeaveFrames(u);
      case Leaving(_, _) => step := Release(u);
    }
  }

  /** Over every run of any number of threads and address spaces: if any thread
      waits, a thread holding a semaphore can go on. There is no deadlock. */
  lemma NoCircularWait(s: System, steps: seq<Step>, t: Tid) returns (u: Tid, step: Step)
    requires (forall x :: x in s ==> s[x] == Idle) && Legal(s, steps)
    requires Blocked(Run(s, steps), t)
    ensures u in Run(s, steps) && Held(Run(s, steps)[u]) != {}
    ensures Enabled(Run(s, steps), step) && step.t == u && !step.Start?
  {
    RunKeepsInv(s, steps);
    u := SomeHolderIsFree(Run(s, steps), t);
    step := UnblockedCanStep(Run(s, steps), u);
  }
}
