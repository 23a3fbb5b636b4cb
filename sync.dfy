/** Locks and condition variables. Both draw their ids from the kernel's one
    next_resource_id counter and are filed in the kernel's `locks` and
    `cvars` lists under that id; Acquire, Release and CvarSignal update the
    record find_by_id returns in place. */
module Sync {
  import opened Hardware
  import opened LinkedList
  import opened KernelState
  import opened Scheduler

  // ---------------------------------------------------------------------
  // Lock records
  // ---------------------------------------------------------------------

  /** A lock as LockInit creates it: unclaimed, owner -1, no waiters. */
  function NewLock(id: int): Lock
  {
    Lock(id, false, -1, [])
  }

  /** The fields of a lock agree: it is claimed exactly when it has an owner
      (a pid), and every waiter is queued under a pid. */
  predicate LockOk(l: Lock)
  {
    (l.claimed <==> l.owner != -1) && l.owner >= -1 &&
    forall i :: 0 <= i < |l.waiters| ==> l.waiters[i].id >= 0
  }

  /** Acquire by `pid` does not return at once: someone else holds the lock. */
  predicate MustWait(l: Lock, pid: int)
  {
    l.owner != pid && l.claimed
  }

  /** The lock after `pid` calls Acquire: its owner keeps it, a free lock is
      claimed, and otherwise the caller joins the tail of the waiters. */
  function AfterAcquire(l: Lock, pid: int): Lock
  {
    if l.owner == pid then l
    else if !l.claimed then l.(claimed := true, owner := pid)
    else l.(waiters := Append(l.waiters, Proc(pid), pid))
  }

  /** Release by `pid` is accepted: the lock is claimed and `pid` owns it. */
  predicate MayRelease(l: Lock, pid: int)
  {
    l.claimed && l.owner == pid
  }

  /** The waiter Release hands the lock to: the popped head, unless the
      queue is empty or the head's data is NULL. */
  function NextOwner(l: Lock): Option<Node<Ref>>
  {
    if l.waiters == [] || l.waiters[0].data == Null then None else Some(l.waiters[0])
  }

  /** The lock after an accepted Release: the head waiter is popped and,
      when there is one, becomes the owner; otherwise the lock is unclaimed
      with owner -1. */
  function AfterRelease(l: Lock): Lock
  {
    var rest := if l.waiters == [] then [] else l.waiters[1..];
    match NextOwner(l)
    case None => l.(claimed := false, owner := -1, waiters := rest)
    case Some(n) => l.(owner := n.id, waiters := rest)
  }

  /** A new lock is consistent and free. */
  lemma NewLockOk(id: int)
    ensures LockOk(NewLock(id)) && !MustWait(NewLock(id), id) && !MayRelease(NewLock(id), id)
  {
  }

  /** Acquire keeps a lock consistent and leaves it claimed. The caller
      owns it afterwards exactly when it owned it already or it was free;
      otherwise the owner is unchanged and the caller is the last waiter. */
  lemma AcquireOutcome(l: Lock, pid: int)
    requires LockOk(l) && pid >= 0
    ensures var a := AfterAcquire(l, pid);
      LockOk(a) && a.claimed &&
      (a.owner == pid <==> !MustWait(l, pid)) &&
      (MustWait(l, pid) ==> a.owner == l.owner && a.waiters == l.waiters + [ProcNode(pid)])
  {
  }

  /** Release keeps a lock consistent. It stays claimed exactly when a
      waiter with a PCB took it over. */
  lemma ReleaseOutcome(l: Lock)
    requires LockOk(l) && l.claimed
    ensures var r := AfterRelease(l);
      LockOk(r) && (r.claimed <==> NextOwner(l).Some?) &&
      (NextOwner(l).Some? ==> r.owner == l.waiters[0].id) &&
      |r.waiters| == if l.waiters == [] then 0 else |l.waiters| - 1
  {
  }

  /** Acquire then Release by one process, with nobody else around, gives
      back the lock as it was. */
  lemma AcquireReleaseRoundTrip(l: Lock, pid: int)
    requires LockOk(l) && !l.claimed && l.waiters == [] && pid >= 0
    ensures MayRelease(AfterAcquire(l, pid), pid)
    ensures AfterRelease(AfterAcquire(l, pid)) == l
  {
  }

  /** The lock after `n` accepted Releases in a row, each by the owner of
      the moment. */
  function Released(l: Lock, n: nat): Lock
  {
    if n == 0 then l else AfterRelease(Released(l, n - 1))
  }

  /** The waiters of a queue all carry a PCB. */
  predicate PcbWaiters(w: seq<Node<Ref>>)
  {
    forall i :: 0 <= i < |w| ==> w[i].data != Null
  }

  /** Ownership is handed on first-come first-served: after `n` Releases
      the n-th waiter to have queued owns the lock and the later ones are
      still queued in order. */
  lemma {:induction false} HandoverIsFifo(l: Lock, n: nat)
    requires l.claimed && PcbWaiters(l.waiters) && n <= |l.waiters|
    ensures Released(l, n).claimed
    ensures Released(l, n).waiters == l.waiters[n..]
    ensures n > 0 ==> Released(l, n).owner == l.waiters[n - 1].id
  {
    if n > 0 {
      HandoverIsFifo(l, n - 1);
      var m := Released(l, n - 1);
      assert m.waiters[0] == l.waiters[n - 1];
      assert m.waiters[1..] == l.waiters[n..];
    }
  }

  // ---------------------------------------------------------------------
  // Resource ids
  // ---------------------------------------------------------------------

  /** Every record of the list carries an id below `next`. */
  predicate IdsBelow<T>(s: seq<Node<T>>, next: int)
  {
    forall i :: 0 <= i < |s| ==> s[i].id < next
  }

  /** An id taken from the counter is new, so find_by_id finds the record
      just filed under it, and the counter stays above every id. */
  lemma FreshIdFound<T>(s: seq<Node<T>>, x: T, next: int)
    requires IdsBelow(s, next)
    ensures FindId(Append(s, x, next), next) == Some(Node(next, x))
    ensures IdsBelow(Append(s, x, next), next + 1)
  {
    FindIdAfterAppend(s, x, next, next);
    assert IndexOfId(s, next) == -1;
  }

  /** The record of the node find_by_id returns, updated in place. */
  function UpdateFound<T>(s: seq<Node<T>>, id: int, x: T): (r: seq<Node<T>>)
    requires IndexOfId(s, id) >= 0
    ensures |r| == |s| && IndexOfId(r, id) == IndexOfId(s, id)
    ensures FindId(r, id) == Some(Node(id, x))
    ensures forall i :: 0 <= i < |s| && i != IndexOfId(s, id) ==> r[i] == s[i]
  {
    var r := s[IndexOfId(s, id) := Node(id, x)];
    IndexOfIdSame(s, r, id);
    r
  }

  /** Changing the data of the found node keeps find_by_id's answer in place. */
  lemma {:induction false} IndexOfIdSame<T>(s: seq<Node<T>>, r: seq<Node<T>>, id: int)
    requires |r| == |s| && forall i :: 0 <= i < |s| ==> r[i].id == s[i].id
    ensures IndexOfId(r, id) == IndexOfId(s, id)
  {
    if s != [] {
      IndexOfIdSame(s[1..], r[1..], id);
    }
  }

  // ---------------------------------------------------------------------
  // The lock system calls
  // ---------------------------------------------------------------------

  /** Yalnix_LockInit: a fresh id from next_resource_id, and a free lock
      filed under it. */
  method LockInit(k: Kernel) returns (rc: int, id: int)
    modifies k`locks, k`nextResourceId
    ensures rc == SUCCESS && id == old(k.nextResourceId) && k.nextResourceId == id + 1
    ensures k.locks == Append(old(k.locks), NewLock(id), id)
  {
    id := k.nextResourceId;
    k.nextResourceId := k.nextResourceId + 1;
    k.locks := Append(k.locks, NewLock(id), id);
    rc := SUCCESS;
  }

  /** Yalnix_Acquire for the current process. An unknown id is an ERROR; a
      caller that must wait is queued on the lock and the next ready
      process runs. */
  method Acquire(k: Kernel, id: int) returns (rc: int)
    modifies k`locks, k`ready, k`curr
    ensures FindId(old(k.locks), id).None? ==>
      rc == ERROR && k.locks == old(k.locks) && k.ready == old(k.ready) && k.curr == old(k.curr)
    ensures FindId(old(k.locks), id).Some? ==>
      var l := FindId(old(k.locks), id).value.data;
      rc == SUCCESS && k.locks == UpdateFound(old(k.locks), id, AfterAcquire(l, old(k.curr))) &&
      (!MustWait(l, old(k.curr)) ==> k.ready == old(k.ready) && k.curr == old(k.curr)) &&
      (MustWait(l, old(k.curr)) ==>
        (old(k.ready) == [] || !old(k.ready)[0].data.Proc? ==> k.ready == old(k.ready) && k.curr == old(k.curr)) &&
        (old(k.ready) != [] && old(k.ready)[0].data.Proc? ==>
          k.curr == old(k.ready)[0].data.pid && k.ready == old(k.ready)[1..]))
  {
    var i := IndexOfId(k.locks, id);
    if i == -1 {
      return ERROR;
    }
    var l := k.locks[i].data;
    if l.owner == k.curr {
      k.locks := UpdateFound(k.locks, id, l);
      return SUCCESS;
    }
    if !l.claimed {
      k.locks := UpdateFound(k.locks, id, l.(claimed := true, owner := k.curr));
      return SUCCESS;
    }
    k.locks := UpdateFound(k.locks, id, l.(waiters := Append(l.waiters, Proc(k.curr), k.curr)));
    var ok := SwitchToNext(k, false);
    rc := SUCCESS;
  }

  /** Yalnix_Release for the current process. An unknown id, a free lock
      or a lock held by someone else is an ERROR; otherwise the head waiter
      is popped and, when it has a PCB, owns the lock and joins the ready
      queue. */
  method Release(k: Kernel, id: int) returns (rc: int)
    modifies k`locks, k`ready
    ensures rc == SUCCESS || rc == ERROR
    ensures rc == SUCCESS <==>
      FindId(old(k.locks), id).Some? && MayRelease(FindId(old(k.locks), id).value.data, k.curr)
    ensures rc == ERROR ==> k.locks == old(k.locks) && k.ready == old(k.ready)
    ensures rc == SUCCESS ==>
      var l := FindId(old(k.locks), id).value.data;
      k.locks == UpdateFound(old(k.locks), id, AfterRelease(l)) &&
      k.ready == old(k.ready) + (if NextOwner(l).Some? then [NextOwner(l).value] else [])
  {
    var i := IndexOfId(k.locks, id);
    if i == -1 {
      return ERROR;
    }
    var l := k.locks[i].data;
    if !l.claimed || l.owner != k.curr {
      return ERROR;
    }
    var popped := PopHead(l.waiters);
    var rest := popped.1;
    if popped.0 == None || popped.0.value.data == Null {
      k.locks := UpdateFound(k.locks, id, l.(claimed := false, owner := -1, waiters := rest));
      return SUCCESS;
    }
    var waiter := popped.0.value;
    k.locks := UpdateFound(k.locks, id, l.(owner := waiter.id, waiters := rest));
    k.ready := Append(k.ready, waiter.data, waiter.id);
    rc := SUCCESS;
  }

  // ---------------------------------------------------------------------
  // Condition variables
  // ---------------------------------------------------------------------

  /** Yalnix_CvarInit: a fresh id from next_resource_id, and a condition
      variable with no waiters filed under it. */
  method CvarInit(k: Kernel) returns (rc: int, id: int)
    modifies k`cvars, k`nextResourceId
    ensures rc == SUCCESS && id == old(k.nextResourceId) && k.nextResourceId == id + 1
    ensures k.cvars == Append(old(k.cvars), Cvar(id, []), id)
  {
    id := k.nextResourceId;
    k.nextResourceId := k.nextResourceId + 1;
    k.cvars := Append(k.cvars, Cvar(id, []), id);
    rc := SUCCESS;
  }

  /** The condition variable after a signal: its head waiter is popped. */
  function Signalled(c: Cvar): (r: Cvar)
    ensures |r.waiters| == if c.waiters == [] then 0 else |c.waiters| - 1
    ensures c.waiters != [] ==> c.waiters == [c.waiters[0]] + r.waiters
  {
    c.(waiters := PopHead(c.waiters).1)
  }

  /** Yalnix_CvarSignal: an unknown id is an ERROR; otherwise the head
      waiter, if any, leaves the condition variable for the ready queue,
      where it is filed under the id it waited under. */
  method CvarSignal(k: Kernel, id: int) returns (rc: int)
    modifies k`cvars, k`ready
    ensures rc == ERROR <==> FindId(old(k.cvars), id).None?
    ensures rc == ERROR ==> k.cvars == old(k.cvars) && k.ready == old(k.ready)
    ensures rc != ERROR ==>
      var c := FindId(old(k.cvars), id).value.data;
      rc == SUCCESS && k.cvars == UpdateFound(old(k.cvars), id, Signalled(c)) &&
      k.ready == old(k.ready) + (if c.waiters == [] then [] else [c.waiters[0]])
  {
    var i := IndexOfId(k.cvars, id);
    if i == -1 {
      return ERROR;
    }
    var c := k.cvars[i].data;
    var popped := PopHead(c.waiters);
    k.cvars := UpdateFound(k.cvars, id, c.(waiters := popped.1));
    if popped.0 == None {
      return SUCCESS;
    }
    var waiter := popped.0.value;
    k.ready := Append(k.ready, waiter.data, waiter.id);
    rc := SUCCESS;
  }

  /** Signals wake waiters in the order they queued: each one moves the
      current head, and a signal with nobody waiting is lost. */
  lemma SignalIsFifo(c: Cvar, pid: int)
    ensures Signalled(Cvar(c.id, Append(c.waiters, Proc(pid), pid))).waiters ==
      if c.waiters == [] then [] else Append(c.waiters[1..], Proc(pid), pid)
    ensures c.waiters == [] ==> Signalled(c) == c
  {
    PopAfterAppend(c.waiters, Proc(pid), pid);
  }
}
