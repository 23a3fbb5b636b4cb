/** The Exec system call: it copies the caller's NULL-terminated argument
    vector into the kernel, clears the saved registers, gives back every
    region-1 frame, moves the kernel stack onto fresh frames, and loads the
    new program into the caller's PCB. */
module ExecCall {
  import opened Hardware
  import opened KernelState
  import opened PageTables
  import opened Loader

  // ---------------------------------------------------------------------
  // The argument vector
  // ---------------------------------------------------------------------

  /** The argument vector as the user passes it: string pointers up to a
      NULL one (None). */
  ghost predicate Terminated(a: seq<Option<string>>)
  {
    exists i :: 0 <= i < |a| && a[i].None?
  }

  /** The index of the terminating NULL. */
  function FirstNull(a: seq<Option<string>>): (n: nat)
    requires Terminated(a)
    ensures n < |a| && a[n].None?
    ensures forall i :: 0 <= i < n ==> a[i].Some?
  {
    if a[0].None? then 0
    else
      assert Terminated(a[1..]) by {
        var i :| 0 <= i < |a| && a[i].None?;
        assert a[1..][i - 1].None?;
      }
      1 + FirstNull(a[1..])
  }

  /** The strings before the terminating NULL. */
  function UserArgs(a: seq<Option<string>>): (r: seq<string>)
    requires Terminated(a)
    ensures |r| == FirstNull(a)
    ensures forall i :: 0 <= i < |r| ==> a[i] == Some(r[i])
  {
    seq(FirstNull(a), i requires 0 <= i < FirstNull(a) => a[i].value)
  }

  /** Exec's counting loop; the terminating NULL is counted too. */
  method CountUserArgs(a: seq<Option<string>>) returns (argc: nat)
    requires Terminated(a)
    ensures argc == FirstNull(a) + 1
  {
    argc := 0;
    while a[argc].Some?
      invariant argc <= FirstNull(a)
      decreases FirstNull(a) - argc
    {
      argc := argc + 1;
    }
    argc := argc + 1;
  }

  /** Exec's copying loop over the first argc - 1 entries. */
  method CopyUserArgs(a: seq<Option<string>>, argc: nat) returns (argv: seq<string>)
    requires Terminated(a) && argc == FirstNull(a) + 1
    ensures argv == UserArgs(a)
  {
    argv := [];
    var i := 0;
    while i < argc - 1
      invariant 0 <= i <= argc - 1
      invariant argv == UserArgs(a)[..i]
    {
      argv := argv + [a[i].value];
      i := i + 1;
    }
  }

  // ---------------------------------------------------------------------
  // The kernel stack
  // ---------------------------------------------------------------------

  /** The free list with the two kernel-stack frames added at its tail. */
  function SwapPool(free: seq<int>, r0: seq<Pte>): seq<int>
    requires |r0| == KS_NPG
  {
    free + [PfnToFnum(r0[0].pfn), PfnToFnum(r0[1].pfn)]
  }

  /** Exec's kernel-stack loop: each page's frame goes to the tail of the
      free list and the page takes the frame at the head. Valid bits and
      protections stay. */
  method SwapKernelStack(k: Kernel, r0: array<Pte>)
    requires r0.Length == KS_NPG
    modifies k`freeFrames, r0
    ensures k.freeFrames == SwapPool(old(k.freeFrames), old(r0[..]))[KS_NPG..]
    ensures forall i :: 0 <= i < KS_NPG ==>
      r0[i] == old(r0[i]).(pfn := FnumToPfn(SwapPool(old(k.freeFrames), old(r0[..]))[i]))
  {
    ghost var both := SwapPool(k.freeFrames, r0[..]);
    ghost var free := k.freeFrames;
    var i := 0;
    while i < KS_NPG
      invariant 0 <= i <= KS_NPG
      invariant k.freeFrames == (free + both[|free|..|free| + i])[i..]
      invariant forall j :: 0 <= j < i ==> r0[j] == old(r0[j]).(pfn := FnumToPfn(both[j]))
      invariant forall j :: i <= j < KS_NPG ==> r0[j] == old(r0[j])
    {
      assert (free + both[|free|..|free| + i + 1]) == (free + both[|free|..|free| + i]) + [PfnToFnum(r0[i].pfn)];
      k.freeFrames := k.freeFrames + [PfnToFnum(r0[i].pfn)];
      var f := k.freeFrames[0];
      k.freeFrames := k.freeFrames[1..];
      assert f == both[i];
      r0[i] := r0[i].(pfn := FnumToPfn(f));
      i := i + 1;
    }
    assert free + both[|free|..|free| + KS_NPG] == both;
  }

  /** The swap loses no frame: the free list and the kernel stack hold the
      same frames before and after. */
  lemma SwapKeepsFrames(free: seq<int>, r0: seq<Pte>)
    requires |r0| == KS_NPG
    ensures var both := SwapPool(free, r0);
      multiset(both[KS_NPG..]) + multiset{both[0], both[1]} ==
      multiset(free) + multiset{PfnToFnum(r0[0].pfn), PfnToFnum(r0[1].pfn)}
  {
    var both := SwapPool(free, r0);
    assert both == [both[0], both[1]] + both[KS_NPG..];
    assert multiset(both) == multiset{both[0], both[1]} + multiset(both[KS_NPG..]);
  }

  /** With at least two free frames the stack takes the first two and its
      old frames go last; with none it takes its own frames back. */
  lemma SwapTakesHead(free: seq<int>, r0: seq<Pte>)
    requires |r0| == KS_NPG
    ensures |free| >= KS_NPG ==>
      SwapPool(free, r0)[..KS_NPG] == free[..KS_NPG] &&
      SwapPool(free, r0)[KS_NPG..] == free[KS_NPG..] + [PfnToFnum(r0[0].pfn), PfnToFnum(r0[1].pfn)]
    ensures free == [] ==> forall i :: 0 <= i < KS_NPG ==> FnumToPfn(SwapPool(free, r0)[i]) == r0[i].pfn
  {
  }

  // ---------------------------------------------------------------------
  // Exec
  // ---------------------------------------------------------------------

  /** bzero of the eight saved general registers. */
  function ClearRegs(uc: UserContext): UserContext
  {
    uc.(regs := seq(8, _ => 0))
  }

  /** The free list LoadProgram sees: the caller's region-1 frames appended
      in table order, then the kernel-stack swap. */
  function ExecFree(free: seq<int>, r0: seq<Pte>, r1: seq<Pte>): seq<int>
    requires |r0| == KS_NPG
  {
    SwapPool(free + ValidFrames(r1), r0)[KS_NPG..]
  }

  /** LoadProgram returns SUCCESS. */
  predicate Loads(exe: Executable, args: seq<string>, free: seq<int>)
  {
    exe.Program? && exe.li.entry >= VMEM_1_BASE && HeapStackGap(LayoutOf(exe.li, args)) &&
    Loadable(LayoutOf(exe.li, args), exe.li.tNpg, free) && exe.textReads && exe.dataReads
  }

  /** LoadProgram crashes: the checks pass but its loops would pop an empty
      free list or index past the region-1 table. */
  predicate LoadCrashes(exe: Executable, args: seq<string>, free: seq<int>)
  {
    exe.Program? && exe.li.entry >= VMEM_1_BASE && HeapStackGap(LayoutOf(exe.li, args)) &&
    !Loadable(LayoutOf(exe.li, args), exe.li.tNpg, free)
  }

  /** The PCB after LoadProgram: brk_addr, the stack pointer, the entry
      point and the heap base as far as it set them before it returned or
      crashed. The page tables are the same arrays. */
  function LoadPcb(p: Pcb, exe: Executable, args: seq<string>, free: seq<int>): Pcb
  {
    if !exe.Program? || exe.li.entry < VMEM_1_BASE then p
    else
      var L := LayoutOf(exe.li, args);
      if !HeapStackGap(L) then p.(brkAddr := L.brk)
      else if Loads(exe, args, free) then
        p.(brkAddr := L.brk, uc := p.uc.(sp := L.sp, pc := exe.li.entry), heapBasePage := L.textPg + exe.li.tNpg)
      else p.(brkAddr := L.brk, uc := p.uc.(sp := L.sp))
  }

  /** The caller's PCB after Exec: kc_set cleared, then LoadProgram's fields. */
  function ExecPcb(p: Pcb, exe: Executable, args: seq<string>, free: seq<int>): Pcb
  {
    LoadPcb(p.(kcSet := false), exe, args, free)
  }

  /** A region-1 table after its frames have been given back: every entry
      invalid with its protection kept, and the frame of a valid one reset. */
  function Emptied(t: seq<Pte>): (r: seq<Pte>)
    ensures |r| == |t| && ValidFrames(r) == []
  {
    var r := seq(|t|, i requires 0 <= i < |t| => t[i].(valid := false, pfn := if t[i].valid then 0 else t[i].pfn));
    NoneValid(r);
    r
  }

  /** A table with no valid entry lists no frame. */
  lemma {:induction false} NoneValid(t: seq<Pte>)
    requires forall i :: 0 <= i < |t| ==> !t[i].valid
    ensures ValidFrames(t) == []
  {
    if t != [] {
      NoneValid(t[..|t| - 1]);
    }
  }

  /** The teardown half of Exec: registers cleared in the trap's context,
      kc_set cleared, region 1 emptied and the kernel stack moved. */
  method ExecTeardown(k: Kernel, uc: UserContext) returns (cleared: UserContext)
    requires k.HasCurrent()
    modifies k`procs, k`freeFrames, k.procs[k.curr].r0, k.procs[k.curr].r1
    ensures k.HasCurrent() && cleared == ClearRegs(uc)
    ensures k.procs == old(k.procs)[k.curr := old(k.procs[k.curr]).(kcSet := false)]
    ensures var p := old(k.procs[k.curr]);
      k.freeFrames == ExecFree(old(k.freeFrames), old(p.r0[..]), old(p.r1[..])) &&
      p.r1[..] == Emptied(old(p.r1[..])) &&
      (forall i :: 0 <= i < KS_NPG ==>
        p.r0[i] == old(p.r0[i]).(pfn := FnumToPfn(SwapPool(old(k.freeFrames) + ValidFrames(old(p.r1[..])), old(p.r0[..]))[i])))
  {
    cleared := ClearRegs(uc);
    var p := k.procs[k.curr];
    k.procs := k.procs[k.curr := p.(kcSet := false)];
    ReleaseFrames(k, p.r1);
    SwapKernelStack(k, p.r0);
  }

  /** The load half of Exec, on the torn-down caller: LoadProgram's outcome
      as Exec reports it, with the cleared registers handed back on ERROR. */
  method ExecLoad(k: Kernel, exe: Executable, args: seq<string>, stale: seq<Pte>, cleared: UserContext)
    returns (rc: int, ucOut: UserContext, crashed: bool)
    requires k.HasCurrent() && |stale| == VMEM_1_PAGE_COUNT
    modifies k`procs, k`freeFrames, k`ptbr1, k.procs[k.curr].r1
    ensures k.Valid() && k.procs.Keys == old(k.procs.Keys)
    ensures (crashed <==> LoadCrashes(exe, args, old(k.freeFrames))) &&
      (rc == SUCCESS <==> Loads(exe, args, old(k.freeFrames))) &&
      (rc != SUCCESS && !crashed ==> rc == ERROR && ucOut == cleared)
    ensures k.procs == old(k.procs)[k.curr := LoadPcb(old(k.procs[k.curr]), exe, args, old(k.freeFrames))]
    ensures var p := old(k.procs[k.curr]); var free := old(k.freeFrames);
      rc != SUCCESS && !crashed ==>
        k.ptbr1 == LoaderTable &&
        (if exe.Program? && exe.li.entry >= VMEM_1_BASE && HeapStackGap(LayoutOf(exe.li, args))
         then Need(LayoutOf(exe.li, args), exe.li.tNpg) <= |free| &&
           k.freeFrames == free[Need(LayoutOf(exe.li, args), exe.li.tNpg)..]
         else k.freeFrames == free) &&
        p.r1[..] == old(p.r1[..])
    ensures rc == SUCCESS ==>
      var p := old(k.procs[k.curr]); var L := LayoutOf(exe.li, args); var free := old(k.freeFrames);
      ucOut == k.procs[k.curr].uc == p.uc.(sp := L.sp, pc := exe.li.entry) &&
      k.freeFrames == free[Need(L, exe.li.tNpg)..] && k.ptbr1 == old(k.ptbr1) &&
      forall i :: 0 <= i < VMEM_1_PAGE_COUNT ==>
        Slot(L, exe.li.tNpg, i) < |free| &&
        p.r1[i] == LoadedEntry(stale[i], L, exe.li.tNpg, free, i)
  {
    var out, image := LoadProgram(k, k.curr, exe, args, stale);
    if out == LoadCrashed {
      return ERROR, cleared, true;
    }
    if out != Loaded {
      return ERROR, cleared, false;
    }
    rc, ucOut, crashed := SUCCESS, k.procs[k.curr].uc, false;
  }

  /** Exec for the current process. A failed load returns ERROR to the
      caller, whose region 1 and kernel stack have already been replaced; a
      successful one hands back the PCB's context, now at the program's
      entry point with the new stack pointer. A load that crashes never
      returns: `crashed` reports it, and `rc` then means nothing. */
  method Exec(k: Kernel, uc: UserContext, a: seq<Option<string>>, exe: Executable, stale: seq<Pte>)
    returns (rc: int, ucOut: UserContext, crashed: bool)
    requires k.HasCurrent() && Terminated(a) && |stale| == VMEM_1_PAGE_COUNT
    modifies k`procs, k`freeFrames, k`ptbr1, k.procs[k.curr].r0, k.procs[k.curr].r1
    ensures k.Valid() && k.procs.Keys == old(k.procs.Keys)
    ensures var p := old(k.procs[k.curr]); var free := ExecFree(old(k.freeFrames), old(p.r0[..]), old(p.r1[..]));
      (crashed <==> LoadCrashes(exe, UserArgs(a), free)) &&
      (rc == SUCCESS <==> Loads(exe, UserArgs(a), free)) &&
      (rc != SUCCESS && !crashed ==> rc == ERROR && ucOut == ClearRegs(uc))
    ensures var p := old(k.procs[k.curr]); var free := ExecFree(old(k.freeFrames), old(p.r0[..]), old(p.r1[..]));
      k.procs == old(k.procs)[k.curr := ExecPcb(p, exe, UserArgs(a), free)]
    ensures var p := old(k.procs[k.curr]); var free := ExecFree(old(k.freeFrames), old(p.r0[..]), old(p.r1[..]));
      rc != SUCCESS && !crashed ==>
        k.ptbr1 == LoaderTable &&
        (if exe.Program? && exe.li.entry >= VMEM_1_BASE && HeapStackGap(LayoutOf(exe.li, UserArgs(a)))
         then Need(LayoutOf(exe.li, UserArgs(a)), exe.li.tNpg) <= |free| &&
           k.freeFrames == free[Need(LayoutOf(exe.li, UserArgs(a)), exe.li.tNpg)..]
         else k.freeFrames == free) &&
        p.r1[..] == Emptied(old(p.r1[..]))
    ensures !k.procs[k.curr].kcSet
    ensures var p := old(k.procs[k.curr]);
      forall i :: 0 <= i < KS_NPG ==>
        p.r0[i] == old(p.r0[i]).(pfn := FnumToPfn(SwapPool(old(k.freeFrames) + ValidFrames(old(p.r1[..])), old(p.r0[..]))[i]))
    ensures rc == SUCCESS ==>
      var p := old(k.procs[k.curr]); var L := LayoutOf(exe.li, UserArgs(a));
      var free := ExecFree(old(k.freeFrames), old(p.r0[..]), old(p.r1[..]));
      ucOut == k.procs[k.curr].uc == p.uc.(sp := L.sp, pc := exe.li.entry) &&
      k.procs[k.curr].brkAddr == L.brk && k.procs[k.curr].heapBasePage == L.textPg + exe.li.tNpg &&
      k.freeFrames == free[Need(L, exe.li.tNpg)..] && k.ptbr1 == old(k.ptbr1) &&
      forall i :: 0 <= i < VMEM_1_PAGE_COUNT ==>
        Slot(L, exe.li.tNpg, i) < |free| &&
        p.r1[i] == LoadedEntry(stale[i], L, exe.li.tNpg, free, i)
  {
    var argc := CountUserArgs(a);
    var argv := CopyUserArgs(a, argc);
    var cleared := ExecTeardown(k, uc);
    rc, ucOut, crashed := ExecLoad(k, exe, argv, stale, cleared);
  }
}
