/**
 Task and thread identity: task.c, the id handling of tcb.c and the packing of
 thread ids in tid.h.
 */
module Identity {
  import opened Words
  import opened Binary
  import opened Bitset
  import opened Common
  import Scheduler

  const MAX_TASK := 1024
  const MAX_THREADS := 64

  // ---- tid.h -----------------------------------------------------------------------------

  /** `threadid_create`; the shift drops all but 24 bits of the task id. */
  function ThreadId(taskid: Word, tcbid: Byte): (tid: Word) {
    taskid % 0x100_0000 * 256 + tcbid
  }

  function TaskIdOf(tid: Word): (taskid: Word) {
    tid / 256
  }

  function TcbIdOf(tid: Word): (tcbid: Byte) {
    tid % 256
  }

  /** Bit by bit, a thread id is (taskid << 8) | tcbid, and unpacking is `tid >> 8` and
      `tid & 0xff`. */
  lemma ThreadIdBits(taskid: Word, tcbid: Byte, tid: Word, i: nat)
    ensures i < 32 ==> Bit(ThreadId(taskid, tcbid), i) == if i < 8 then Bit(tcbid, i) else Bit(taskid, i - 8)
    ensures Bit(TcbIdOf(tid), i) == if i < 8 then Bit(tid, i) else 0
    ensures Bit(TaskIdOf(tid), i) == Bit(tid, i + 8)
  {
    SmallPowers();
    ShiftedBits(taskid % 0x100_0000, 8, tcbid, i);
    SplitBits(tid, 8, tid / 256, tid % 256, i);
    if 8 <= i < 32 {
      SplitBits(taskid, 24, taskid / 0x100_0000, taskid % 0x100_0000, i - 8);
    }
  }

  /** Packing loses nothing exactly while the task id fits 24 bits. */
  lemma ThreadIdRoundTrip(taskid: Word, tcbid: Byte)
    ensures TcbIdOf(ThreadId(taskid, tcbid)) == tcbid
    ensures TaskIdOf(ThreadId(taskid, tcbid)) == taskid <==> taskid < 0x100_0000
  {
    SplitByte(taskid % 0x100_0000, tcbid);
  }

  lemma SplitByte(x: nat, low: Byte)
    ensures (x * 256 + low) / 256 == x && (x * 256 + low) % 256 == low
  {
  }

  /** Looking up the packed id of a registered thread finds that thread and only
      that thread. */
  lemma PackedLookup(s: Scheduler.Sched, t: Tid, u: Tid)
    requires Scheduler.UniqueIds(s) && t in s.tcb && u in s.tcb
    requires s.tcb[t].taskid < MAX_TASK && s.tcb[t].id < MAX_THREADS
    ensures var tid := ThreadId(s.tcb[t].taskid, s.tcb[t].id);
            Scheduler.Matches(s, u, TaskIdOf(tid), TcbIdOf(tid)) <==> u == t
  {
    ThreadIdRoundTrip(s.tcb[t].taskid, s.tcb[t].id);
  }

  // ---- task.c and tcb.c ------------------------------------------------------------------------

  class Task {
    var id: nat
    var nthreads: nat
    const threadid: array<bv8>

    ghost predicate Valid()
      reads this, threadid
    {
      threadid.Length == 8 && nthreads <= MAX_THREADS && id < MAX_TASK
    }

    ghost function Ids(): (r: set<nat>)
      reads this, threadid
    {
      Bits(threadid[..])
    }

    /** What a run knows of the task. */
    ghost function View(): (rec: TaskRec)
      reads this, threadid
    {
      TaskRec(id, nthreads, Ids())
    }

    /** The storage of a task before `task_init`. */
    constructor ()
      ensures Valid() && fresh(threadid)
    {
      id, nthreads := 0, 0;
      threadid := new bv8[8](_ => 0);
    }

    /** `task_init`: takes the least free task id, or fails and changes nothing. */
    method Init(g_taskid: array<bv8>, ghost w: World, ghost self: Ref) returns (res: int)
      requires Valid() && g_taskid.Length == MAX_TASK / 8 && g_taskid != threadid
      requires w.taskids == Bits(g_taskid[..]) && self !in w.tasks
      modifies this, threadid, g_taskid
      ensures Valid()
      ensures res == 0 || res == -EAGAIN
      ensures res == -EAGAIN ==>
        && (forall k: nat :: k < MAX_TASK ==> k in Bits(old(g_taskid[..])))
        && g_taskid[..] == old(g_taskid[..]) && Ids() == old(Ids()) && id == old(id) && nthreads == old(nthreads)
      ensures res == 0 ==>
        && id !in Bits(old(g_taskid[..])) && (forall k: nat :: k < id ==> k in Bits(old(g_taskid[..])))
        && Bits(g_taskid[..]) == Bits(old(g_taskid[..])) + {id}
        && nthreads == 0 && Ids() == {}
      ensures res == 0 ==>
        && Enabled(w, TaskInit(self, id))
        && var w' := Apply(w, TaskInit(self, id));
        w'.taskids == Bits(g_taskid[..]) && w'.tasks[self] == View()
    {
      var taskid := FindUnset(g_taskid);
      if taskid < 0 {
        return taskid;
      }
      Set(g_taskid, taskid);
      nthreads := 0;
      id := taskid;
      forall i | 0 <= i < 8 {
        threadid[i] := 0;
      }
      assert forall bit: nat :: bit < 64 ==> !IsSet(threadid[..], bit);
      return 0;
    }

    /** `task_uninit` */
    method Uninit(g_taskid: array<bv8>, ghost w: World, ghost self: Ref)
      requires Valid() && g_taskid.Length == MAX_TASK / 8 && g_taskid != threadid
      requires w.taskids == Bits(g_taskid[..]) && Enabled(w, TaskUninit(self)) && w.tasks[self] == View()
      modifies g_taskid
      ensures Bits(g_taskid[..]) == Bits(old(g_taskid[..])) - {id}
      ensures Bits(g_taskid[..]) == Apply(w, TaskUninit(self)).taskids && View() == old(View())
    {
      Unset(g_taskid, id);
    }

    /** `task_ref` */
    method Ref() returns (res: int)
      requires Valid()
      modifies `nthreads
      ensures Valid()
      ensures if old(nthreads) < MAX_THREADS then nthreads == old(nthreads) + 1 == res
              else nthreads == old(nthreads) && res == -EAGAIN
    {
      if !(nthreads < MAX_THREADS) {
        return -EAGAIN;
      }
      nthreads := nthreads + 1;
      return nthreads;
    }

    /** `task_unref` */
    method Unref() returns (res: int)
      requires Valid()
      modifies `nthreads
      ensures Valid()
      ensures if old(nthreads) > 0 then nthreads == old(nthreads) - 1 == res
              else nthreads == 0 && res == -EINVAL
    {
      if nthreads == 0 {
        return -EINVAL;
      }
      nthreads := nthreads - 1;
      return nthreads;
    }

    /** `tcb_init_with_id`; `setup` is the first failure of the page-directory
        lookup and the register set-up, or 0. A failure leaves the id bits and
        the thread count of the task as they were. */
    method NewThreadWithId(id: nat, setup: int, ghost w: World, ghost self: Ref, ghost tcb: Ref) returns (res: int)
      requires Valid() && id < MAX_THREADS && setup <= 0
      requires self in w.up && self in w.tasks && w.tasks[self] == View() && tcb !in w.tcbs
      modifies `nthreads, threadid
      ensures Valid()
      ensures res == 0 <==> old(nthreads) < MAX_THREADS && id !in old(Ids()) && setup == 0
      ensures res <= 0
      ensures res == 0 ==> nthreads == old(nthreads) + 1 && Ids() == old(Ids()) + {id}
      ensures res < 0 ==> nthreads == old(nthreads) && Ids() == old(Ids())
      ensures var step := if res == 0 then TcbInit(tcb, self, id) else TcbFail(self);
              Enabled(w, step) && Apply(w, step).tasks[self] == View()
    {
      hide Bits;
      res := Ref();
      if res < 0 {
        return;
      }
      var taken := Test(threadid, id);
      if taken {
        var _ := Unref();
        return -EINVAL;
      }
      Set(threadid, id);
      if setup < 0 {
        Unset(threadid, id);
        var _ := Unref();
        return setup;
      }
      return 0;
    }

    /** `tcb_init`: the least free thread id of the task. */
    method NewThread(setup: int, ghost w: World, ghost self: Ref, ghost tcb: Ref) returns (res: int, id: nat)
      requires Valid() && setup <= 0
      requires self in w.up && self in w.tasks && w.tasks[self] == View() && tcb !in w.tcbs
      modifies `nthreads, threadid
      ensures Valid()
      ensures res <= 0
      ensures res == 0 <==>
        old(nthreads) < MAX_THREADS && setup == 0 && exists k: nat :: k < MAX_THREADS && k !in old(Ids())
      ensures res < 0 ==> nthreads == old(nthreads) && Ids() == old(Ids())
      ensures res == 0 ==>
        && id < MAX_THREADS && id !in old(Ids()) && (forall k: nat :: k < id ==> k in old(Ids()))
        && nthreads == old(nthreads) + 1 && Ids() == old(Ids()) + {id}
      ensures var step := if res == 0 then TcbInit(tcb, self, id) else TcbFail(self);
              Enabled(w, step) && Apply(w, step).tasks[self] == View()
    {
      var free := FindUnset(threadid);
      if free < 0 {
        return free, 0;
      }
      id := free;
      res := NewThreadWithId(id, setup, w, self, tcb);
    }

    /** `tcb_uninit` */
    method UninitThread(ghost w: World, ghost self: Ref, ghost tcb: Ref)
      requires Valid() && Enabled(w, TcbUninit(tcb)) && w.tcbs[tcb].task == self && w.tasks[self] == View()
      modifies `nthreads
      ensures Valid() && Apply(w, TcbUninit(tcb)).tasks[self] == View()
      ensures nthreads == old(nthreads) - 1 && Ids() == old(Ids())
    {
      var _ := Unref();
    }
  }

  // ---- runs of creation and destruction ----------------------------------------------------------

  type Ref = nat

  datatype TaskRec = TaskRec(id: nat, nthreads: nat, ids: set<nat>)

  datatype Tcb = Tcb(task: Ref, id: nat)

  /** `up` are the tasks initialised and not cleaned up again; the storage of a task
      that has been cleaned up is not reused. */
  datatype World = World(taskids: set<nat>, up: set<Ref>, tasks: map<Ref, TaskRec>, tcbs: map<Ref, Tcb>)

  const Nothing := World({}, {}, map[], map[])

  /** The effects that the methods above establish, over all tasks and threads. A new
      task gets the least free id; a thread may be given any free one. `tcb_uninit`
      drops the count but keeps the id bit. */
  datatype Step =
    | TaskInit(task: Ref, id: nat)
    | TaskUninit(task: Ref)
    | TcbInit(tcb: Ref, task: Ref, id: nat)
    | TcbFail(task: Ref)
    | TcbUninit(tcb: Ref)

  ghost predicate Enabled(w: World, step: Step) {
    match step
    case TaskInit(t, id) =>
      t !in w.tasks && id < MAX_TASK && id !in w.taskids && forall k: nat :: k < id ==> k in w.taskids
    case TaskUninit(t) => t in w.up && t in w.tasks
    case TcbInit(c, t, id) =>
      && c !in w.tcbs && t in w.up && t in w.tasks
      && id < MAX_THREADS && id !in w.tasks[t].ids && w.tasks[t].nthreads < MAX_THREADS
    case TcbFail(t) => t in w.up
    case TcbUninit(c) => c in w.tcbs && w.tcbs[c].task in w.tasks && w.tasks[w.tcbs[c].task].nthreads > 0
  }

  ghost function Apply(w: World, step: Step): (w': World)
    requires Enabled(w, step)
  {
    match step
    case TaskInit(t, id) => World(w.taskids + {id}, w.up + {t}, w.tasks[t := TaskRec(id, 0, {})], w.tcbs)
    case TaskUninit(t) => w.(taskids := w.taskids - {w.tasks[t].id}, up := w.up - {t})
    case TcbInit(c, t, id) =>
      var rec := w.tasks[t];
      w.(tasks := w.tasks[t := TaskRec(rec.id, rec.nthreads + 1, rec.ids + {id})], tcbs := w.tcbs[c := Tcb(t, id)])
    case TcbFail(_) => w
    case TcbUninit(c) =>
      var t := w.tcbs[c].task;
      w.(tasks := w.tasks[t := w.tasks[t].(nthreads := w.tasks[t].nthreads - 1)], tcbs := w.tcbs - {c})
  }

  /** The live threads of a task. */
  ghost function Threads(w: World, t: Ref): (r: set<Ref>) {
    set c | c in w.tcbs && w.tcbs[c].task == t
  }

  /** A task is cleaned up only once its thread count is zero. */
  ghost predicate Orderly(w: World, step: Step) {
    Enabled(w, step) && (step.TaskUninit? ==> w.tasks[step.task].nthreads == 0)
  }

  /** The thread count of a task is the number of its live threads. */
  ghost predicate Counted(w: World) {
    forall t :: t in w.up ==> t in w.tasks && w.tasks[t].nthreads == |Threads(w, t)|
  }

  /** The ids of tasks that are up are reserved and distinct, and so are the pairs of
      task and id of live threads. */
  ghost predicate Named(w: World) {
    && (forall t :: t in w.up ==> t in w.tasks && w.tasks[t].id in w.taskids && w.tasks[t].id < MAX_TASK)
    && (forall t, u :: t in w.up && u in w.up && t in w.tasks && u in w.tasks && w.tasks[t].id == w.tasks[u].id ==>
          t == u)
    && (forall c :: c in w.tcbs ==>
          && w.tcbs[c].task in w.up && w.tcbs[c].task in w.tasks
          && w.tcbs[c].id in w.tasks[w.tcbs[c].task].ids && w.tcbs[c].id < MAX_THREADS)
    && (forall c, d :: c in w.tcbs && d in w.tcbs && w.tcbs[c] == w.tcbs[d] ==> c == d)
  }

  ghost predicate Inv(w: World) {
    Counted(w) && Named(w)
  }

  ghost predicate Legal(w: World, steps: seq<Step>)
    decreases |steps|
  {
    steps == [] || (Orderly(w, steps[0]) && Legal(Apply(w, steps[0]), steps[1..]))
  }

  ghost function Run(w: World, steps: seq<Step>): (w': World)
    requires Legal(w, steps)
    decreases |steps|
  {
    if steps == [] then w else Run(Apply(w, steps[0]), steps[1..])
  }

  lemma StepKeepsInv(w: World, step: Step)
    requires Inv(w) && Orderly(w, step)
    ensures Inv(Apply(w, step))
  {
    match step {
      case TaskInit(t, id) => TaskInitKeepsInv(w, t, id);
      case TaskUninit(t) => TaskUninitKeepsInv(w, t);
      case TcbInit(c, t, id) => TcbInitKeepsInv(w, c, t, id);
      case TcbFail(_) =>
      case TcbUninit(c) => TcbUninitKeepsInv(w, c);
    }
  }

  lemma TaskInitKeepsInv(w: World, t: Ref, id: nat)
    requires Inv(w) && Enabled(w, TaskInit(t, id))
    ensures Inv(Apply(w, TaskInit(t, id)))
  {
    var w' := Apply(w, TaskInit(t, id));
    assert Threads(w', t) == {};
    assert forall u :: Threads(w', u) == Threads(w, u);
    assert Counted(w');
  }

  lemma TaskUninitKeepsInv(w: World, t: Ref)
    requires Inv(w) && Orderly(w, TaskUninit(t))
    ensures Inv(Apply(w, TaskUninit(t)))
  {
    var w' := Apply(w, TaskUninit(t));
    assert forall u :: Threads(w', u) == Threads(w, u);
    forall c | c in w.tcbs ensures w.tcbs[c].task != t {
      assert c in Threads(w, w.tcbs[c].task);
    }
  }

  lemma TcbInitKeepsInv(w: World, c: Ref, t: Ref, id: nat)
    requires Inv(w) && Enabled(w, TcbInit(c, t, id))
    ensures Inv(Apply(w, TcbInit(c, t, id)))
  {
    hide Counted, Named;
    TcbInitKeepsNames(w, c, t, id);
    TcbInitKeepsCount(w, c, t, id);
  }

  /** The new id was free in its task, so the new pair differs from every live one. */
  lemma TcbInitKeepsNames(w: World, c: Ref, t: Ref, id: nat)
    requires Named(w) && Enabled(w, TcbInit(c, t, id))
    ensures Named(Apply(w, TcbInit(c, t, id)))
  {
  }

  lemma TcbInitKeepsCount(w: World, c: Ref, t: Ref, id: nat)
    requires Counted(w) && Enabled(w, TcbInit(c, t, id))
    ensures Counted(Apply(w, TcbInit(c, t, id)))
  {
    var w' := Apply(w, TcbInit(c, t, id));
    forall u | u in w.up ensures w'.tasks[u].nthreads == |Threads(w', u)| {
      assert Threads(w', u) == if u == t then Threads(w, u) + {c} else Threads(w, u);
      assert c !in Threads(w, u);
    }
  }

  lemma TcbUninitKeepsInv(w: World, c: Ref)
    requires Inv(w) && Enabled(w, TcbUninit(c))
    ensures Inv(Apply(w, TcbUninit(c)))
  {
    hide Counted, Named;
    TcbUninitKeepsNames(w, c);
    TcbUninitKeepsCount(w, c);
  }

  lemma TcbUninitKeepsNames(w: World, c: Ref)
    requires Named(w) && Enabled(w, TcbUninit(c))
    ensures Named(Apply(w, TcbUninit(c)))
  {
  }

  lemma TcbUninitKeepsCount(w: World, c: Ref)
    requires Counted(w) && Enabled(w, TcbUninit(c))
    ensures Counted(Apply(w, TcbUninit(c)))
  {
    var w' := Apply(w, TcbUninit(c));
    forall u | u in w.up ensures w'.tasks[u].nthreads == |Threads(w', u)| {
      assert Threads(w', u) == Threads(w, u) - {c};
      assert c in Threads(w, u) <==> u == w.tcbs[c].task;
    }
  }

  lemma {:induction false} RunKeepsInv(w: World, steps: seq<Step>)
    requires Inv(w) && Legal(w, steps)
    ensures Inv(Run(w, steps))
    decreases |steps|
  {
    if steps != [] {
      StepKeepsInv(w, steps[0]);
      RunKeepsInv(Apply(w, steps[0]), steps[1..]);
    }
  }

  ghost function PackedId(w: World, c: Ref): (tid: Word)
    requires c in w.tcbs && w.tcbs[c].task in w.tasks
    requires w.tasks[w.tcbs[c].task].id < MAX_TASK && w.tcbs[c].id < MAX_THREADS
  {
    ThreadId(w.tasks[w.tcbs[c].task].id, w.tcbs[c].id)
  }

  /** Live threads can be told apart by their packed ids. */
  ghost predicate DistinctIds(w: World) {
    && (forall c :: c in w.tcbs ==>
          w.tcbs[c].task in w.tasks && w.tasks[w.tcbs[c].task].id < MAX_TASK && w.tcbs[c].id < MAX_THREADS)
    && (forall c, d :: c in w.tcbs && d in w.tcbs && PackedId(w, c) == PackedId(w, d) ==> c == d)
  }

  lemma InvMeansDistinct(w: World)
    requires Inv(w)
    ensures DistinctIds(w)
  {
    forall c, d | c in w.tcbs && d in w.tcbs && PackedId(w, c) == PackedId(w, d) ensures c == d {
      ThreadIdRoundTrip(w.tasks[w.tcbs[c].task].id, w.tcbs[c].id);
      ThreadIdRoundTrip(w.tasks[w.tcbs[d].task].id, w.tcbs[d].id);
    }
  }

  /** Over any run of task and thread creation and destruction in which only tasks
      without threads are cleaned up, no two live threads share a packed thread id. */
  lemma LiveThreadIdsAreDistinct(steps: seq<Step>)
    requires Legal(Nothing, steps)
    ensures Inv(Run(Nothing, steps)) && DistinctIds(Run(Nothing, steps))
  {
    RunKeepsInv(Nothing, steps);
    InvMeansDistinct(Run(Nothing, steps));
  }

  lemma {:induction false} Unused(s: set<Ref>) returns (n: Ref)
    ensures forall x :: x in s ==> x < n
    decreases |s|
  {
    if s == {} {
      return 0;
    }
    var x :| x in s;
    var m := Unused(s - {x});
    n := if x < m then m else x + 1;
    forall y | y in s ensures y < n {
      assert y == x || y in s - {x};
    }
  }

  /** The task ids below i that are free. */
  ghost function FreeBelow(w: World, i: nat): (r: set<nat>) {
    set k: nat | k < i && k !in w.taskids
  }

  /** A live thread whose task id i is free again gets a double: new tasks use up the
      free ids below i, the next one gets i, and its thread is given the same id. */
  lemma {:induction false} FreedIdClashes(w: World, i: nat, c: Ref) returns (steps: seq<Step>)
    requires c in w.tcbs && w.tcbs[c].task in w.tasks && w.tasks[w.tcbs[c].task].id == i
    requires i < MAX_TASK && i !in w.taskids && w.tcbs[c].id < MAX_THREADS
    ensures Legal(w, steps) && !DistinctIds(Run(w, steps))
    decreases |FreeBelow(w, i)|
  {
    var u := Unused(w.tasks.Keys);
    if FreeBelow(w, i) == {} {
      var d := Unused(w.tcbs.Keys);
      steps := DoubleOf(w, i, c, u, d);
    } else {
      var k := Least(FreeBelow(w, i));
      assert forall j: nat :: j < k ==> j in w.taskids || j in FreeBelow(w, i);
      var w' := Apply(w, TaskInit(u, k));
      assert FreeBelow(w', i) == FreeBelow(w, i) - {k};
      var rest := FreedIdClashes(w', i, c);
      steps := [TaskInit(u, k)] + rest;
      assert steps[1..] == rest;
    }
  }

  lemma DoubleOf(w: World, i: nat, c: Ref, u: Ref, d: Ref) returns (steps: seq<Step>)
    requires c in w.tcbs && w.tcbs[c].task in w.tasks && w.tasks[w.tcbs[c].task].id == i
    requires i < MAX_TASK && i !in w.taskids && w.tcbs[c].id < MAX_THREADS && FreeBelow(w, i) == {}
    requires u !in w.tasks && d !in w.tcbs
    ensures Legal(w, steps) && !DistinctIds(Run(w, steps))
  {
    var a, b := TaskInit(u, i), TcbInit(d, u, w.tcbs[c].id);
    assert forall k: nat :: k < i ==> k in w.taskids || k in FreeBelow(w, i);
    steps := [a, b];
    var w1 := Apply(w, a);
    var w2 := Apply(w1, b);
    assert steps[1..] == [b] && [b][1..] == [];
    assert Legal(w2, []) && Legal(w1, [b]);
    assert Run(w1, [b]) == w2;
    assert c in w2.tcbs && d in w2.tcbs && c != d;
    assert w2.tasks[w2.tcbs[c].task].id == w2.tasks[w2.tcbs[d].task].id;
  }

  lemma {:induction false} Least(s: set<nat>) returns (n: nat)
    requires s != {}
    ensures n in s && forall x :: x in s ==> n <= x
    decreases |s|
  {
    var x :| x in s;
    if s == {x} {
      return x;
    }
    assert s - {x} != {};
    var m := Least(s - {x});
    n := if x < m then x else m;
    forall y | y in s ensures n <= y {
      assert y == x || y in s - {x};
    }
  }

  /** Cleaning up a task is safe, whatever orderly steps follow, if and only if its
      thread count is zero. */
  lemma UninitIsSafeIff(w: World, t: Ref)
    requires Inv(w) && Enabled(w, TaskUninit(t))
    ensures (forall steps :: Legal(Apply(w, TaskUninit(t)), steps) ==> DistinctIds(Run(Apply(w, TaskUninit(t)), steps)))
       <==> w.tasks[t].nthreads == 0
  {
    hide DistinctIds;
    var w' := Apply(w, TaskUninit(t));
    if w.tasks[t].nthreads == 0 {
      TaskUninitKeepsInv(w, t);
      forall steps | Legal(w', steps) ensures DistinctIds(Run(w', steps)) {
        RunKeepsInv(w', steps);
        InvMeansDistinct(Run(w', steps));
      }
    } else {
      assert |Threads(w, t)| > 0;
      var c :| c in Threads(w, t);
      var steps := FreedIdClashes(w', w.tasks[t].id, c);
    }
  }

  /** The scheduler's threads are live ones, with the ids they were created with. */
  ghost predicate Registers(s: Scheduler.Sched, w: World, live: map<Tid, Ref>) {
    && (forall t :: t in s.tcb ==>
          && t in live && live[t] in w.tcbs && w.tcbs[live[t]].task in w.tasks
          && s.tcb[t].taskid == w.tasks[w.tcbs[live[t]].task].id && s.tcb[t].id == w.tcbs[live[t]].id)
    && (forall t, u :: t in s.tcb && u in s.tcb && t in live && u in live && live[t] == live[u] ==> t == u)
  }

  /** Then their ids are unique and fit the packed form. */
  lemma RegisteredThreadsAreUnique(steps: seq<Step>, s: Scheduler.Sched, live: map<Tid, Ref>)
    requires Legal(Nothing, steps) && Registers(s, Run(Nothing, steps), live)
    ensures Scheduler.UniqueIds(s)
    ensures forall t :: t in s.tcb ==> s.tcb[t].taskid < MAX_TASK && s.tcb[t].id < MAX_THREADS
  {
    var w := Run(Nothing, steps);
    RunKeepsInv(Nothing, steps);
    forall t, u | t in s.tcb && u in s.tcb && s.tcb[t].taskid == s.tcb[u].taskid && s.tcb[t].id == s.tcb[u].id
      ensures t == u
    {
      assert w.tcbs[live[t]].task == w.tcbs[live[u]].task;
      assert w.tcbs[live[t]] == w.tcbs[live[u]];
    }
  }

  /** The packed id of thread t is tid. */
  predicate HasThreadId(s: Scheduler.Sched, t: Tid, tid: Word) {
    && t in s.tcb && s.tcb[t].taskid < MAX_TASK && s.tcb[t].id < MAX_THREADS
    && tid == ThreadId(s.tcb[t].taskid, s.tcb[t].id)
  }

  lemma HasIffMatches(s: Scheduler.Sched, t: Tid, tid: Word)
    requires t in s.tcb && s.tcb[t].taskid < MAX_TASK && s.tcb[t].id < MAX_THREADS
    ensures HasThreadId(s, t, tid) <==> Scheduler.Matches(s, t, TaskIdOf(tid), TcbIdOf(tid))
  {
    ThreadIdRoundTrip(s.tcb[t].taskid, s.tcb[t].id);
    UnpackedIsPacked(tid);
  }

  lemma UnpackedIsPacked(tid: Word)
    ensures ThreadId(TaskIdOf(tid), TcbIdOf(tid)) == tid
  {
  }

  /** The lookup of a packed thread id, as the message system calls do it. After any
      run, the packed id of a registered thread returns that thread, and any other
      id returns none. */
  method SearchByThreadId(q: Scheduler.SchedQueues, tid: Word, ghost steps: seq<Step>,
                          ghost live: map<Tid, Ref>)
    returns (rcv: Option<Tid>)
    requires q.Valid() && Legal(Nothing, steps) && Registers(q.View(), Run(Nothing, steps), live)
    ensures forall t: Tid :: HasThreadId(q.View(), t, tid) ==> rcv == Some(t)
    ensures rcv.Some? ==> HasThreadId(q.View(), rcv.value, tid)
  {
    hide HasThreadId, ThreadId, TaskIdOf, TcbIdOf, Scheduler.QueueInv, Registers, Legal, Run;
    rcv := q.SearchThread(TaskIdOf(tid), TcbIdOf(tid));
    RegisteredThreadsAreUnique(steps, q.View(), live);
    forall t: Tid
      ensures HasThreadId(q.View(), t, tid) <==> Scheduler.Matches(q.View(), t, TaskIdOf(tid), TcbIdOf(tid))
    {
      Registered(q.View(), t, tid);
      if t in q.View().tcb {
        HasIffMatches(q.View(), t, tid);
      }
    }
  }

  lemma Registered(s: Scheduler.Sched, t: Tid, tid: Word)
    ensures HasThreadId(s, t, tid) ==> t in s.tcb
  {
  }
}
