/** The trap handlers of the core: aborting the current process, the clock
    tick that counts delays down and switches round-robin, and the memory
    trap that grows the user stack. */
module Traps {
  import opened Hardware
  import opened LinkedList
  import opened KernelState
  import opened Scheduler
  import opened PageTables

  // ---------------------------------------------------------------------
  // abort_current_process
  // ---------------------------------------------------------------------

  /** abort_current_process: the current PCB is filed in dead_procs under
      its pid, unlinked from all_procs, and the next ready process runs
      without requeueing the aborted one. */
  method AbortCurrent(k: Kernel) returns (switched: bool)
    modifies k`dead, k`allProcs, k`ready, k`curr
    ensures k.dead == Append(old(k.dead), Proc(old(k.curr)), old(k.curr))
    ensures k.allProcs == RemoveData(old(k.allProcs), Proc(old(k.curr)))
    ensures switched <==> old(k.ready) != [] && old(k.ready)[0].data.Proc?
    ensures switched ==> k.curr == old(k.ready)[0].data.pid && k.ready == old(k.ready)[1..]
    ensures !switched ==> k.curr == old(k.curr) && k.ready == old(k.ready)
  {
    k.dead := Append(k.dead, Proc(k.curr), k.curr);
    k.allProcs := RemoveData(k.allProcs, Proc(k.curr));
    switched := SwitchToNext(k, false);
  }

  /** A PCB listed once in all_procs is no longer found there after being
      aborted, and every other PCB still is. */
  lemma AbortedIsGone(all: seq<Node<Ref>>, pid: int, other: Ref)
    requires forall i, j :: 0 <= i < j < |all| && all[i].data == Proc(pid) ==> all[j].data != Proc(pid)
    ensures FindData(RemoveData(all, Proc(pid)), Proc(pid)) == None
    ensures other != Proc(pid) ==>
      (FindData(RemoveData(all, Proc(pid)), other).Some? <==> FindData(all, other).Some?)
  {
    RemovedOnce(all, Proc(pid));
    if other != Proc(pid) {
      RemoveKeepsOthers(all, Proc(pid), other);
    }
  }

  /** Data listed at most once is not found after remove_from_list. */
  lemma RemovedOnce(all: seq<Node<Ref>>, d: Ref)
    requires forall i, j :: 0 <= i < j < |all| && all[i].data == d ==> all[j].data != d
    ensures IndexOfData(RemoveData(all, d), d) == -1
  {
    var n := IndexOfData(all, d);
    if n >= 0 {
      RemovedShift(all, n, RemoveData(all, d));
    }
  }

  // ---------------------------------------------------------------------
  // The clock tick
  // ---------------------------------------------------------------------

  /** Every node of the queue points at a PCB the kernel holds. */
  predicate Filed(q: seq<Node<Ref>>, procs: map<int, Pcb>)
  {
    forall i :: 0 <= i < |q| ==> q[i].data.Proc? && q[i].data.pid in procs
  }

  /** The PCBs after the walk and the nodes it appended to ready_procs. */
  datatype Tick = Tick(procs: map<int, Pcb>, woken: seq<Node<Ref>>)

  /** The clock's walk over the blocked queue, node by node: the PCB's
      delay_clock_ticks drops by one and, if it is now at most zero, the
      PCB is appended to the ready queue. */
  function TickAll(procs: map<int, Pcb>, q: seq<Node<Ref>>): (t: Tick)
    requires Filed(q, procs)
    ensures t.procs.Keys == procs.Keys
    decreases |q|
  {
    if q == [] then Tick(procs, [])
    else
      var n := |q| - 1;
      assert Filed(q[..n], procs);
      var t := TickAll(procs, q[..n]);
      var pid := q[n].data.pid;
      var p := t.procs[pid].(delayTicks := t.procs[pid].delayTicks - 1);
      Tick(t.procs[pid := p], t.woken + (if p.delayTicks <= 0 then [ProcNode(pid)] else []))
  }

  /** How many nodes of the queue point at `pid`. */
  function Occurrences(q: seq<Node<Ref>>, pid: int): nat
  {
    if q == [] then 0
    else Occurrences(q[..|q| - 1], pid) + (if q[|q| - 1].data == Proc(pid) then 1 else 0)
  }

  /** Each PCB's counter drops once per node that points at it, and
      nothing else about any PCB changes. */
  lemma {:induction false} TickCounts(procs: map<int, Pcb>, q: seq<Node<Ref>>, pid: int)
    requires Filed(q, procs) && pid in procs
    ensures TickAll(procs, q).procs[pid] ==
      procs[pid].(delayTicks := procs[pid].delayTicks - Occurrences(q, pid))
    decreases |q|
  {
    if q != [] {
      var n := |q| - 1;
      assert Filed(q[..n], procs);
      TickCounts(procs, q[..n], pid);
    }
  }

  /** The queue lists each pid at most once. */
  predicate DistinctPids(q: seq<Node<Ref>>)
  {
    forall i, j :: 0 <= i < j < |q| ==> q[i].data != q[j].data
  }

  /** Only blocked PCBs are woken, each under its own pid. When each PCB is
      blocked once, it is woken exactly when its counter was at most one. */
  lemma {:induction false} TickWakes(procs: map<int, Pcb>, q: seq<Node<Ref>>, pid: int)
    requires Filed(q, procs) && pid in procs
    ensures ProcNode(pid) in TickAll(procs, q).woken ==> Occurrences(q, pid) > 0
    ensures DistinctPids(q) ==>
      (ProcNode(pid) in TickAll(procs, q).woken <==> Occurrences(q, pid) > 0 && procs[pid].delayTicks <= 1)
    ensures forall i :: 0 <= i < |TickAll(procs, q).woken| ==> TickAll(procs, q).woken[i].data.Proc?
    decreases |q|
  {
    if q != [] {
      var n := |q| - 1;
      assert Filed(q[..n], procs);
      TickWakes(procs, q[..n], pid);
      var last := q[n].data.pid;
      if DistinctPids(q) {
        assert DistinctPids(q[..n]);
        if last == pid {
          OccurrencesAbsent(q[..n], pid);
          TickCounts(procs, q[..n], pid);
        }
      }
    }
  }

  /** A pid that no node points at has no occurrence. */
  lemma {:induction false} OccurrencesAbsent(q: seq<Node<Ref>>, pid: int)
    requires forall i :: 0 <= i < |q| ==> q[i].data != Proc(pid)
    ensures Occurrences(q, pid) == 0
  {
    if q != [] {
      OccurrencesAbsent(q[..|q| - 1], pid);
    }
  }

  /** A node the walk can follow: it points at a PCB the kernel holds. */
  predicate Live(n: Node<Ref>, procs: map<int, Pcb>)
  {
    n.data.Proc? && n.data.pid in procs
  }

  /** How many nodes from the front of the queue the walk follows before it
      meets one whose PCB has been freed (all of them when there is none). */
  function LiveRun(q: seq<Node<Ref>>, procs: map<int, Pcb>): (n: nat)
    ensures n <= |q| && Filed(q[..n], procs)
    ensures forall i :: 0 <= i < n ==> Live(q[i], procs)
    ensures n < |q| ==> !Live(q[n], procs)
    ensures n == |q| <==> Filed(q, procs)
  {
    if q == [] then 0
    else if !Live(q[0], procs) then 0
    else
      var m := LiveRun(q[1..], procs);
      assert q[..m + 1] == [q[0]] + q[1..][..m];
      m + 1
  }

  /** The walk loop of HANDLE_TRAP_CLOCK on the kernel's blocked queue. The
      blocked queue itself is left as it is. A node whose process has
      exited still points at its freed PCB, and reading that PCB has no
      defined result: the walk stops there and reports `crashed`, having
      counted down the nodes before it. */
  method TickBlocked(k: Kernel) returns (crashed: bool)
    modifies k`procs, k`ready
    ensures var n := LiveRun(k.blocked, old(k.procs));
      (crashed <==> !Filed(k.blocked, old(k.procs))) &&
      k.procs == TickAll(old(k.procs), k.blocked[..n]).procs &&
      k.ready == old(k.ready) + TickAll(old(k.procs), k.blocked[..n]).woken
  {
    var q := k.blocked;
    ghost var procs := k.procs;
    ghost var n := LiveRun(q, procs);
    assert Filed(q[..0], procs);
    var i := 0;
    while i < |q|
      invariant 0 <= i <= n && Filed(q[..i], procs)
      invariant k.procs == TickAll(procs, q[..i]).procs
      invariant k.ready == old(k.ready) + TickAll(procs, q[..i]).woken
    {
      if !Live(q[i], k.procs) {
        return true;
      }
      TickOne(k, procs, q, i, old(k.ready));
      i := i + 1;
    }
    assert q[..i] == q;
    crashed := false;
  }

  /** One node of the walk: the PCB's counter drops and, at zero or below,
      the PCB goes to the tail of the ready queue. */
  method TickOne(k: Kernel, ghost procs: map<int, Pcb>, q: seq<Node<Ref>>, i: int, ghost ready0: seq<Node<Ref>>)
    requires 0 <= i < |q| && Live(q[i], procs)
    requires Filed(q[..i], procs) && k.procs == TickAll(procs, q[..i]).procs
    requires k.ready == ready0 + TickAll(procs, q[..i]).woken
    modifies k`procs, k`ready
    ensures Filed(q[..i + 1], procs) && k.procs == TickAll(procs, q[..i + 1]).procs
    ensures k.ready == ready0 + TickAll(procs, q[..i + 1]).woken
  {
    TickSnoc(procs, q, i);
    var pid := q[i].data.pid;
    var p := k.procs[pid].(delayTicks := k.procs[pid].delayTicks - 1);
    k.procs := k.procs[pid := p];
    if p.delayTicks <= 0 {
      k.ready := Append(k.ready, Proc(pid), pid);
    }
  }

  /** One more node of the walk. */
  lemma TickSnoc(procs: map<int, Pcb>, q: seq<Node<Ref>>, i: int)
    requires 0 <= i < |q| && Filed(q[..i], procs) && Live(q[i], procs)
    ensures Filed(q[..i + 1], procs)
    ensures q[i].data.pid in TickAll(procs, q[..i]).procs
    ensures var t := TickAll(procs, q[..i]); var pid := q[i].data.pid;
      var p := t.procs[pid].(delayTicks := t.procs[pid].delayTicks - 1);
      TickAll(procs, q[..i + 1]) == Tick(t.procs[pid := p], t.woken + (if p.delayTicks <= 0 then [Node(pid, Proc(pid))] else []))
  {
    assert q[..i + 1][..i] == q[..i];
    assert q[..i + 1] == q[..i] + [q[i]];
    assert Filed(q[..i + 1], procs);
  }

  /** HANDLE_TRAP_CLOCK: the delay walk, then a round-robin switch when the
      ready queue is not empty; otherwise the current process goes on. A
      blocked node whose process has exited makes the walk read a freed PCB
      (`crashed`); the nodes before it have been counted down and no switch
      is made. */
  method Clock(k: Kernel) returns (switched: bool, crashed: bool)
    modifies k`procs, k`ready, k`curr
    ensures var t := TickAll(old(k.procs), k.blocked[..LiveRun(k.blocked, old(k.procs))]);
      k.procs == t.procs && k.blocked == old(k.blocked) &&
      (crashed <==> !Filed(k.blocked, old(k.procs))) &&
      (crashed ==> !switched && k.ready == old(k.ready) + t.woken && k.curr == old(k.curr))
    ensures var t := TickAll(old(k.procs), k.blocked[..LiveRun(k.blocked, old(k.procs))]);
      var q := old(k.ready) + t.woken;
      !crashed ==>
        t == TickAll(old(k.procs), k.blocked) &&
        (q == [] ==> !switched && k.ready == [] && k.curr == old(k.curr)) &&
        (q != [] ==>
          (switched <==> q[0].data.Proc?) &&
          (switched ==> k.curr == q[0].data.pid && k.ready == q[1..] + [ProcNode(old(k.curr))]) &&
          (!switched ==> k.curr == old(k.curr) && k.ready == q + [ProcNode(old(k.curr))]))
  {
    crashed := TickBlocked(k);
    if crashed {
      return false, true;
    }
    assert k.blocked[..|k.blocked|] == k.blocked;
    if |k.ready| > 0 {
      switched := SwitchToNext(k, true);
    } else {
      switched := false;
    }
  }

  // ---------------------------------------------------------------------
  // The memory trap as written
  // ---------------------------------------------------------------------

  /** `addr_pg - usr_brk_pg <= 2` on unsigned page numbers: the absolute
      page of the fault against the page of the (region-relative) break. */
  predicate TooCloseAsWritten(addr: int, brk: int)
    requires 0 <= addr < U32 && 0 <= brk < U32 - PAGESIZE
  {
    SubU32(PageOf(DownToPage(addr)), PageOf(UpToPage(brk))) <= 2
  }

  /** The stack-growth loop starts at the absolute page of the fault: for
      any fault in region 1 that is the index of an entry past the end of
      the 128-entry region-1 table, and its last index, the page of
      VMEM_1_LIMIT, is past the end for every fault. */
  lemma AsWrittenLoopOverruns(addr: int)
    requires VMEM_1_BASE <= addr < VMEM_1_LIMIT
    ensures VMEM_1_PAGE_COUNT <= PageOf(DownToPage(addr)) <= PageOf(VMEM_1_LIMIT)
    ensures PageOf(VMEM_1_LIMIT) >= VMEM_1_PAGE_COUNT
  {
  }

  /** The input that shows it: with the break at 0x10000, a fault at
      0x1FC000, two pages below the top of region 1, passes the check, and
      the loop's first entry is region1_pt[254]. */
  lemma AsWrittenFaultBelowStackTop()
    ensures !TooCloseAsWritten(0x1FC000, 0x10000)
    ensures PageOf(DownToPage(0x1FC000)) == 254 >= VMEM_1_PAGE_COUNT
  {
  }

  // ---------------------------------------------------------------------
  // The memory trap with region-relative pages
  // ---------------------------------------------------------------------

  /** The region-1 page of an address. */
  function Region1Page(addr: int): int
  {
    PageOf(DownToPage(addr)) - VMEM_0_PAGE_COUNT
  }

  /** The fault is one the handler can serve by growing the stack: not a
      protection error, inside region 1, and more than two pages above the
      page of the break. */
  predicate Growable(uc: UserContext, brk: int)
  {
    uc.code != YALNIX_ACCERR && VMEM_1_BASE <= uc.addr < VMEM_1_LIMIT &&
    Region1Page(uc.addr) - PageOf(UpToPage(brk)) > 2
  }

  /** The closeness test is on signed page numbers. With the source's
      unsigned subtraction on region-relative pages, a fault on the first
      page of region 1 with the break at 0x10000 would wrap round, pass, and
      grow the stack up through the heap; the signed test refuses it. */
  lemma SignedClosenessRefusesBelowBreak(uc: UserContext)
    requires uc.code != YALNIX_ACCERR && uc.addr == VMEM_1_BASE
    ensures SubU32(Region1Page(uc.addr), PageOf(UpToPage(0x10000))) > 2
    ensures !Growable(uc, 0x10000)
  {
  }

  /** HANDLE_TRAP_MEMORY with region-relative page numbers: every page from
      the fault up to the top of region 1 is mapped read-write, with frames
      popped from the free list. A protection error, a fault outside region
      1, one that comes within two pages of the break, or running out of
      frames halts the kernel (`halted`), keeping what was mapped. */
  method MemoryTrap(k: Kernel, uc: UserContext) returns (halted: bool)
    requires k.HasCurrent()
    modifies k`freeFrames, k.procs[k.curr].r1
    ensures var t := k.procs[k.curr].r1;
      Pool(k.freeFrames, t[..]) == Pool(old(k.freeFrames), old(t[..]))
    ensures var p := k.procs[k.curr];
      !Growable(uc, p.brkAddr) ==> halted && k.freeFrames == old(k.freeFrames) && p.r1[..] == old(p.r1[..])
    ensures var p := k.procs[k.curr];
      !halted <==>
        Growable(uc, p.brkAddr) &&
        |old(k.freeFrames)| >= Missing(old(p.r1[..]), Region1Page(uc.addr), VMEM_1_PAGE_COUNT)
    ensures var p := k.procs[k.curr];
      Growable(uc, p.brkAddr) ==>
        (forall i :: 0 <= i < Region1Page(uc.addr) ==> p.r1[i] == old(p.r1[i])) &&
        (forall i :: Region1Page(uc.addr) <= i < VMEM_1_PAGE_COUNT && old(p.r1[i].valid) ==> p.r1[i] == old(p.r1[i])) &&
        (forall i :: Region1Page(uc.addr) <= i < VMEM_1_PAGE_COUNT && !old(p.r1[i].valid) && p.r1[i].valid ==>
          p.r1[i].prot == PROT_RW) &&
        (halted ==> k.freeFrames == []) &&
        (!halted ==> forall i :: Region1Page(uc.addr) <= i < VMEM_1_PAGE_COUNT ==> p.r1[i].valid)
  {
    var p := k.procs[k.curr];
    if uc.code == YALNIX_ACCERR || !(VMEM_1_BASE <= uc.addr < VMEM_1_LIMIT) {
      return true;
    }
    var addrPage := Region1Page(uc.addr);
    var brkPage := PageOf(UpToPage(p.brkAddr));
    if addrPage - brkPage <= 2 {
      return true;
    }
    var ok := MapRange(k, p.r1, addrPage, VMEM_1_PAGE_COUNT);
    halted := !ok;
  }
}
