/** The scheduling step the kernel calls to give the CPU away. Its source is
    not part of this model: only its effect on the ready queue and on
    curr_proc, as its callers rely on it, is modelled. */
module Scheduler {
  import opened Hardware
  import opened LinkedList
  import opened KernelState

  /** The ready queue the switch pops from: with `requeue`, the current
      process has first been appended to its tail. */
  function Requeued(ready: seq<Node<Ref>>, curr: int, requeue: bool): seq<Node<Ref>>
  {
    if requeue then Append(ready, Proc(curr), curr) else ready
  }

  /** switch_to_next_available_proc(uc, requeue): the head of the ready queue
      becomes the current process. With nothing to switch to, it reports
      failure and the current process keeps running. */
  method SwitchToNext(k: Kernel, requeue: bool) returns (ok: bool)
    modifies k`ready, k`curr
    ensures var q := Requeued(old(k.ready), old(k.curr), requeue);
      (ok <==> q != [] && q[0].data.Proc?) &&
      (ok ==> k.curr == q[0].data.pid && k.ready == q[1..]) &&
      (!ok ==> k.curr == old(k.curr) && k.ready == q)
  {
    if requeue {
      k.ready := k.ready + [ProcNode(k.curr)];
    }
    if k.ready == [] || !k.ready[0].data.Proc? {
      return false;
    }
    k.curr := k.ready[0].data.pid;
    k.ready := k.ready[1..];
    ok := true;
  }

  /** With requeueing, a switch from a process is round-robin: it lands at
      the very end of the queue, behind everyone who was already waiting. */
  lemma RoundRobin(ready: seq<Node<Ref>>, curr: int)
    requires ready != []
    ensures Requeued(ready, curr, true)[1..] == ready[1..] + [ProcNode(curr)]
    ensures Requeued(ready, curr, true)[0] == ready[0]
  {
    PopAfterAppend(ready, Proc(curr), curr);
  }
}
