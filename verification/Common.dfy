/**
 Threads and small data types that several components share.
 */
module Common {
  /** A thread, named by the address of its control block. */
  type Tid = nat

  /** `enum thread_state` */
  datatype ThreadState = Zombie | Ready | Send | Recv | Waiting

  datatype Option<T> = None | Some(value: T)

  ghost predicate Distinct<T>(s: seq<T>) {
    forall i, j :: 0 <= i < j < |s| ==> s[i] != s[j]
  }
}
