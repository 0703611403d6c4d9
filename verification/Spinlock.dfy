/**
 spinlock.c as a transition system over any number of threads. The plain test,
 the atomic exchange and the unlocking store are separate steps, so every
 interleaving of them is a run.
 */
module Spinlock {
  import opened Common

  datatype Pc =
    | Outside      // not in spinlock_lock
    | Spinning     // about to test the word
    | Exchanging   // saw zero, about to exchange
    | Holding

  datatype Lock = Lock(word: nat, pc: map<Tid, Pc>)

  datatype Step = Call(t: Tid) | Test(t: Tid) | Exchange(t: Tid) | TryLock(t: Tid) | Unlock(t: Tid)

  /** Only the holder unlocks; `spinlock_try_lock` may also be called on its own. */
  predicate Enabled(s: Lock, step: Step) {
    step.t in s.pc &&
    match step
    case Call(t) => s.pc[t] == Outside
    case Test(t) => s.pc[t] == Spinning
    case Exchange(t) => s.pc[t] == Exchanging
    case TryLock(t) => s.pc[t] == Outside
    case Unlock(t) => s.pc[t] == Holding
  }

  /** A failed exchange has already overwritten the word with the loser's uid. */
  function Apply(s: Lock, step: Step, uid: Tid -> nat): (s': Lock)
    requires Enabled(s, step)
  {
    match step
    case Call(t) => s.(pc := s.pc[t := Spinning])
    case Test(t) => if s.word != 0 then s else s.(pc := s.pc[t := Exchanging])
    case Exchange(t) => Lock(uid(t), s.pc[t := if s.word == 0 then Holding else Spinning])
    case TryLock(t) => Lock(uid(t), s.pc[t := if s.word == 0 then Holding else Outside])
    case Unlock(t) => Lock(0, s.pc[t := Outside])
  }

  ghost predicate Initial(s: Lock) {
    s.word == 0 && forall t :: t in s.pc ==> s.pc[t] == Outside
  }

  /** The steps can be taken one after the other from s. */
  ghost predicate Legal(s: Lock, steps: seq<Step>, uid: Tid -> nat)
    decreases |steps|
  {
    steps == [] || (Enabled(s, steps[0]) && Legal(Apply(s, steps[0], uid), steps[1..], uid))
  }

  ghost function Run(s: Lock, steps: seq<Step>, uid: Tid -> nat): (s': Lock)
    requires Legal(s, steps, uid)
    decreases |steps|
  {
    if steps == [] then s else Run(Apply(s, steps[0], uid), steps[1..], uid)
  }

  ghost function Holders(s: Lock): (h: set<Tid>) {
    set t | t in s.pc && s.pc[t] == Holding
  }

  /** The word is nonzero exactly while one thread holds the lock. */
  ghost predicate Exclusive(s: Lock) {
    |Holders(s)| == if s.word != 0 then 1 else 0
  }

  lemma StepKeepsExclusion(s: Lock, step: Step, uid: Tid -> nat)
    requires Exclusive(s) && Enabled(s, step) && uid(step.t) != 0
    ensures Exclusive(Apply(s, step, uid))
  {
    var t := step.t;
    var s' := Apply(s, step, uid);
    var h, h' := Holders(s), Holders(s');
    if s'.pc[t] == Holding {
      assert h' == h + {t};
    } else {
      assert h' == h - {t};
      if s.pc[t] == Holding {
        assert t in h;
        assert |h - {t}| == |h| - 1;
      } else {
        assert h' == h;
      }
    }
  }

  /** Mutual exclusion over every run of any number of threads with nonzero uids. */
  lemma {:induction false} MutualExclusion(s: Lock, steps: seq<Step>, uid: Tid -> nat)
    requires Exclusive(s) && Legal(s, steps, uid)
    requires forall t :: t in s.pc ==> uid(t) != 0
    ensures Exclusive(Run(s, steps, uid))
    decreases |steps|
  {
    if steps != [] {
      StepKeepsExclusion(s, steps[0], uid);
      MutualExclusion(Apply(s, steps[0], uid), steps[1..], uid);
    }
  }

  lemma InitialIsExclusive(s: Lock)
    requires Initial(s)
    ensures Exclusive(s)
  {
    assert Holders(s) == {};
  }

  /** What the steps do with the lock word: a test only looks; an exchange stores the uid and
      acquires the lock exactly if it was free; unlocking frees it. No step moves another
      thread. */
  lemma StepOutcome(s: Lock, step: Step, uid: Tid -> nat)
    requires Enabled(s, step)
    ensures var s', t := Apply(s, step, uid), step.t;
            && (step.Call? || step.Test? ==> s'.word == s.word && s'.pc[t] != Holding)
            && (step.Test? ==> s'.pc[t] == if s.word == 0 then Exchanging else Spinning)
            && (step.Exchange? || step.TryLock? ==> s'.word == uid(t) && (s'.pc[t] == Holding <==> s.word == 0))
            && (step.Unlock? ==> s'.word == 0 && s'.pc[t] == Outside)
            && s'.pc.Keys == s.pc.Keys && forall u :: u in s.pc && u != t ==> s'.pc[u] == s.pc[u]
  {
  }

  /** A free lock is taken: calling, testing and exchanging make the thread its holder. */
  lemma FreeLockIsTaken(s: Lock, t: Tid, uid: Tid -> nat)
    requires s.word == 0 && t in s.pc && s.pc[t] == Outside
    ensures Legal(s, [Call(t), Test(t), Exchange(t)], uid)
    ensures Run(s, [Call(t), Test(t), Exchange(t)], uid) == Lock(uid(t), s.pc[t := Holding])
  {
    var s1 := Apply(s, Call(t), uid);
    var s2 := Apply(s1, Test(t), uid);
    var s3 := Apply(s2, Exchange(t), uid);
    assert [Call(t), Test(t), Exchange(t)][1..] == [Test(t), Exchange(t)];
    assert [Test(t), Exchange(t)][1..] == [Exchange(t)] && [Exchange(t)][1..] == [];
    assert Legal(s3, [], uid) && Legal(s2, [Exchange(t)], uid) && Legal(s1, [Test(t), Exchange(t)], uid);
    assert Run(s2, [Exchange(t)], uid) == s3 && Run(s1, [Test(t), Exchange(t)], uid) == s3;
    assert s3.pc == s.pc[t := Holding];
  }

  /** A thread that locks with uid 0, as happens when there is no current thread
      yet, does not keep a second thread out. */
  lemma ZeroUidAdmitsTwo(s: Lock, uid: Tid -> nat, t: Tid, u: Tid)
    requires Initial(s) && t in s.pc && u in s.pc && t != u && uid(t) == 0
    ensures Legal(s, [TryLock(t), TryLock(u)], uid)
    ensures {t, u} <= Holders(Run(s, [TryLock(t), TryLock(u)], uid))
  {
    var s1 := Apply(s, TryLock(t), uid);
    var s2 := Apply(s1, TryLock(u), uid);
    assert [TryLock(t), TryLock(u)][1..] == [TryLock(u)];
    assert [TryLock(u)][1..] == [];
    assert Legal(s2, [], uid);
    assert Legal(s1, [TryLock(u)], uid);
    assert Run(s1, [TryLock(u)], uid) == s2;
  }

  /** The exact condition: with two or more threads the lock excludes on every run
      if and only if every uid is nonzero. */
  lemma ExclusionIffNonzeroUids(s: Lock, uid: Tid -> nat)
    requires Initial(s) && exists t, u :: t in s.pc && u in s.pc && t != u
    ensures (forall steps :: Legal(s, steps, uid) ==> |Holders(Run(s, steps, uid))| <= 1)
       <==> (forall t :: t in s.pc ==> uid(t) != 0)
  {
    if forall t :: t in s.pc ==> uid(t) != 0 {
      InitialIsExclusive(s);
      forall steps | Legal(s, steps, uid) ensures |Holders(Run(s, steps, uid))| <= 1 {
        MutualExclusion(s, steps, uid);
      }
    } else {
      var t :| t in s.pc && uid(t) == 0;
      var a, b :| a in s.pc && b in s.pc && a != b;
      var u := if a == t then b else a;
      ZeroUidAdmitsTwo(s, uid, t, u);
      var h := Holders(Run(s, [TryLock(t), TryLock(u)], uid));
      assert |h| >= 2 by {
        assert |h| == |{t, u}| + |h - {t, u}|;
      }
    }
  }
}
