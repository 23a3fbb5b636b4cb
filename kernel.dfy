/** Boot-time configuration of the kernel: the initial free-frame list, the
    region-0 and region-1 page tables, the idle process, and the kernel
    break. */
module Boot {
  import opened Hardware
  import opened LinkedList
  import opened KernelState
  import opened ProcessControl

  /** The frame numbers lo, lo + 1, ..., hi - 1, in the order the boot loop adds them. */
  function Range(lo: int, hi: int): seq<int>
    decreases hi - lo
  {
    if hi <= lo then [] else Range(lo, hi - 1) + [hi - 1]
  }

  /** Range holds exactly the numbers from lo below hi, ascending. */
  lemma {:induction false} RangeAscending(lo: int, hi: int)
    ensures |Range(lo, hi)| == if lo <= hi then hi - lo else 0
    ensures forall i :: 0 <= i < |Range(lo, hi)| ==> Range(lo, hi)[i] == lo + i
    decreases hi - lo
  {
    if lo < hi {
      RangeAscending(lo, hi - 1);
    }
  }

  lemma RangeMembers(lo: int, hi: int, x: int)
    ensures x in Range(lo, hi) <==> lo <= x < hi
  {
    RangeAscending(lo, hi);
    if lo <= x < hi {
      assert Range(lo, hi)[x - lo] == x;
    }
  }

  /** Popping two frames off the boot free list leaves the list that starts two frames later. */
  lemma DropTwo(lo: int, hi: int)
    requires lo + 2 <= hi
    ensures Range(lo, hi)[0] == lo && Range(lo, hi)[1] == lo + 1
    ensures Range(lo, hi)[2..] == Range(lo + 2, hi)
  {
    RangeAscending(lo, hi);
    RangeAscending(lo + 2, hi);
  }

  /** SetKernelData: records where the kernel's data segment starts and ends. */
  method SetKernelData(k: Kernel, dataStart: int, dataEnd: int)
    modifies k`kernelDataStart, k`kernelDataEnd
    ensures k.kernelDataStart == dataStart && k.kernelDataEnd == dataEnd
  {
    k.kernelDataStart := dataStart;
    k.kernelDataEnd := dataEnd;
  }

  /** The free-list loop: frames from frames `lo` below `hi` join the list in ascending order. */
  method BuildFrameList(k: Kernel, lo: int, hi: int)
    requires k.freeFrames == []
    modifies k`freeFrames
    ensures k.freeFrames == Range(lo, hi)
  {
    var i := lo;
    while i < hi
      invariant lo <= i || hi <= lo
      invariant k.freeFrames == Range(lo, if i <= hi then i else hi)
      decreases hi - i
    {
      k.freeFrames := k.freeFrames + [i];
      i := i + 1;
    }
    if hi < lo {
      assert Range(lo, hi) == [];
    }
  }

  /** The region-0 loop: entry i is valid below the break page and on the
      kernel stack, read-exec below the data segment and read-write above,
      and mapped to frame i. */
  method FillRegion0(t: array<Pte>, inUse: int, dataStart: int)
    requires t.Length == VMEM_0_PAGE_COUNT && 0 <= dataStart
    modifies t
    ensures forall i :: 0 <= i < t.Length ==>
      (t[i].valid <==> i < inUse || i >= KS_BASE_PAGE) &&
      t[i].prot == (if i < PageOf(dataStart) then PROT_RX else PROT_RW) &&
      t[i].pfn == i
  {
    var i := 0;
    while i < VMEM_0_PAGE_COUNT
      invariant 0 <= i <= VMEM_0_PAGE_COUNT
      invariant forall j :: 0 <= j < i ==>
        (t[j].valid <==> j < inUse || j >= KS_BASE_PAGE) &&
        t[j].prot == (if j < PageOf(dataStart) then PROT_RX else PROT_RW) &&
        t[j].pfn == j
    {
      var valid := i < inUse || i >= KERNEL_STACK_BASE / PAGESIZE;
      var prot := if i < dataStart / PAGESIZE then PROT_READ + PROT_EXEC else PROT_READ + PROT_WRITE;
      t[i] := Pte(valid, prot, (PMEM_BASE + i * PAGESIZE) / PAGESIZE);
      i := i + 1;
    }
  }

  /** The region-1 loop: every entry invalid, read-write, with no frame. */
  method FillRegion1(t: array<Pte>)
    requires t.Length == VMEM_1_PAGE_COUNT
    modifies t
    ensures forall i :: 0 <= i < t.Length ==> t[i] == Pte(false, PROT_RW, 0)
  {
    var base := DownToPage(VMEM_1_BASE) / PAGESIZE;
    var top := UpToPage(VMEM_1_LIMIT) / PAGESIZE;
    var i := base;
    while i < top
      invariant base <= i <= top
      invariant forall j :: 0 <= j < i - base ==> t[j] == Pte(false, PROT_RW, 0)
    {
      t[i - base] := Pte(false, PROT_READ + PROT_WRITE, 0);
      i := i + 1;
    }
  }

  /** The frame counters and the free-list loop of KernelStart. */
  method InitFrames(k: Kernel, pmemSize: nat)
    requires k.freeFrames == [] && 0 <= k.kernelBrk
    modifies k`totalPframes, k`pframesInKernel, k`pframesInUse, k`freeFrames
    ensures k.totalPframes == pmemSize / PAGESIZE && k.pframesInKernel == VMEM_0_PAGE_COUNT
    ensures k.pframesInUse == PageOf(UpToPage(k.kernelBrk))
    ensures k.freeFrames == Range(VMEM_0_PAGE_COUNT, k.totalPframes)
  {
    k.totalPframes := pmemSize / PAGESIZE;
    k.pframesInKernel := VMEM_0_LIMIT / PAGESIZE;
    k.pframesInUse := UpToPage(k.kernelBrk) / PAGESIZE;
    BuildFrameList(k, k.pframesInKernel, k.totalPframes);
  }

  /** The idle stack: the first two frames popped from the free list back
      the top two region-1 pages. */
  method MapIdleStack(k: Kernel)
    requires k.Valid() && |k.freeFrames| >= 2
    modifies k`freeFrames, k.r1table
    ensures k.freeFrames == old(k.freeFrames)[2..]
    ensures k.r1table[VMEM_1_PAGE_COUNT - 1] == old(k.r1table[VMEM_1_PAGE_COUNT - 1]).(valid := true, pfn := old(k.freeFrames)[0])
    ensures k.r1table[VMEM_1_PAGE_COUNT - 2] == old(k.r1table[VMEM_1_PAGE_COUNT - 2]).(valid := true, pfn := old(k.freeFrames)[1])
    ensures forall i :: 0 <= i < VMEM_1_PAGE_COUNT - 2 ==> k.r1table[i] == old(k.r1table[i])
  {
    var frame := k.freeFrames[0];
    var frame2 := k.freeFrames[1];
    k.freeFrames := k.freeFrames[2..];
    k.r1table[VMEM_1_PAGE_COUNT - 1] := k.r1table[VMEM_1_PAGE_COUNT - 1].(valid := true, pfn := frame);
    k.r1table[VMEM_1_PAGE_COUNT - 2] := k.r1table[VMEM_1_PAGE_COUNT - 2].(valid := true, pfn := frame2);
  }

  /** After boot no mapped frame is on the free list: region 0 maps frames
      below 128, the idle stack frames 128 and 129, and the list starts at 130. */
  lemma BootUnmapped(total: int, r0: seq<Pte>, r1: seq<Pte>)
    requires forall i :: 0 <= i < |r0| ==> r0[i].pfn == i
    requires |r0| <= VMEM_0_PAGE_COUNT + 2
    requires forall i :: 0 <= i < |r1| && r1[i].valid ==> r1[i].pfn == VMEM_0_PAGE_COUNT || r1[i].pfn == VMEM_0_PAGE_COUNT + 1
    ensures Unmapped(Range(VMEM_0_PAGE_COUNT + 2, total), r0)
    ensures Unmapped(Range(VMEM_0_PAGE_COUNT + 2, total), r1)
  {
    var free := Range(VMEM_0_PAGE_COUNT + 2, total);
    forall f | f in free
      ensures f >= VMEM_0_PAGE_COUNT + 2
    {
      RangeMembers(VMEM_0_PAGE_COUNT + 2, total, f);
    }
  }

  /** The idle process of KernelStart: pid 0, listed in process_list, made
      current, with its program counter at `idlePc` and its stack pointer in
      the top page of region 1. */
  method CreateIdle(k: Kernel, uc: UserContext, idlePc: int) returns (out: UserContext)
    requires k.Valid() && k.processList == [] && k.procs == map[] && k.availablePid == 0
    modifies k`availablePid, k`processList, k`procs, k`curr
    ensures k.Valid()
    ensures k.availablePid == 1 && k.curr == 0 && k.processList == [ProcNode(0)]
    ensures k.procs.Keys == {0} && k.procs[0].uc == out
    ensures out.pc == idlePc && out.sp == VMEM_1_LIMIT - PAGESIZE
    ensures out.vector == uc.vector && out.code == uc.code
  {
    var idle := NewProcess(k, uc);
    k.processList := Append(k.processList, Proc(idle.pid), 0);
    out := idle.uc.(pc := idlePc, sp := VMEM_1_LIMIT - PAGESIZE);
    k.procs := k.procs[idle.pid := idle.(uc := out)];
    k.curr := idle.pid;
  }

  /** KernelStart: builds the free list and both page tables, turns virtual
      memory on, creates the idle process (pid 0) with its program counter
      at `idlePc`, maps its two stack pages to the first two free frames, and
      returns the UserContext copied back to the hardware. The two pops need
      at least two frames above region 0; on a smaller machine a pop returns
      NULL and dereferencing it crashes the kernel, which `crashed` reports.
      On a crash the free list and region 1 are as they were before the
      pops; the idle process is already current with its stack pointer set,
      which the source does only after the pops, so those two fields of a
      crashed boot are the model's and not the source's. */
  method KernelStart(k: Kernel, pmemSize: nat, uc: UserContext, idlePc: int) returns (out: UserContext, crashed: bool)
    requires k.Valid() && k.freeFrames == [] && k.processList == [] && k.procs == map[]
    requires 0 <= k.kernelDataStart && 0 <= k.kernelDataEnd
    modifies k, k.r0table, k.r1table
    ensures crashed <==> pmemSize / PAGESIZE < VMEM_0_PAGE_COUNT + 2
    ensures k.Valid() && k.vmEnabled
    ensures k.kernelBrk == k.kernelDataEnd == old(k.kernelDataEnd) && k.kernelDataStart == old(k.kernelDataStart)
    ensures k.totalPframes == pmemSize / PAGESIZE && k.pframesInKernel == VMEM_0_PAGE_COUNT
    ensures k.pframesInUse == PageOf(UpToPage(k.kernelDataEnd))
    ensures forall i :: 0 <= i < VMEM_0_PAGE_COUNT ==>
      (k.r0table[i].valid <==> i < k.pframesInUse || i >= KS_BASE_PAGE) &&
      k.r0table[i].prot == (if i < PageOf(k.kernelDataStart) then PROT_RX else PROT_RW) &&
      k.r0table[i].pfn == i
    ensures forall i :: 0 <= i < VMEM_1_PAGE_COUNT - 2 ==> k.r1table[i] == Pte(false, PROT_RW, 0)
    ensures k.availablePid == 1 && k.curr == 0 && k.processList == [ProcNode(0)]
    ensures k.procs.Keys == {0} && k.procs[0].uc == out
    ensures out.pc == idlePc && out.sp == VMEM_1_LIMIT - PAGESIZE
    ensures out.vector == uc.vector && out.code == uc.code
    ensures crashed ==> k.freeFrames == Range(VMEM_0_PAGE_COUNT, k.totalPframes)
    ensures !crashed ==>
      k.freeFrames == Range(VMEM_0_PAGE_COUNT + 2, k.totalPframes) &&
      k.r1table[VMEM_1_PAGE_COUNT - 1] == Pte(true, PROT_RW, VMEM_0_PAGE_COUNT) &&
      k.r1table[VMEM_1_PAGE_COUNT - 2] == Pte(true, PROT_RW, VMEM_0_PAGE_COUNT + 1) &&
      Unmapped(k.freeFrames, k.r0table[..]) && Unmapped(k.freeFrames, k.r1table[..])
  {
    k.kernelBrk := k.kernelDataEnd;
    k.availablePid := 0;
    k.vmEnabled := false;
    InitFrames(k, pmemSize);
    FillRegion0(k.r0table, k.pframesInUse, k.kernelDataStart);
    FillRegion1(k.r1table);
    k.ptbr1 := BootTable;
    k.vmEnabled := true;

    out := CreateIdle(k, uc, idlePc);

    if k.totalPframes < VMEM_0_PAGE_COUNT + 2 {
      return out, true;
    }
    crashed := false;
    DropTwo(VMEM_0_PAGE_COUNT, k.totalPframes);
    MapIdleStack(k);
    BootUnmapped(k.totalPframes, k.r0table[..], k.r1table[..]);
  }

  /** The post-VM loops of SetKernelBrk, shared by both kernel versions: pages
      from `bottom` through `addrPage` become valid, pages above it and below
      the kernel stack become invalid, and nothing else changes. */
  method FlipKernelPages(t: array<Pte>, bottom: int, addrPage: int)
    requires t.Length == VMEM_0_PAGE_COUNT && 0 <= bottom && 0 <= addrPage <= KS_BASE_PAGE
    modifies t
    ensures forall i :: 0 <= i < t.Length ==>
      t[i].prot == old(t[i].prot) && t[i].pfn == old(t[i].pfn)
    ensures forall i :: 0 <= i < t.Length ==>
      t[i].valid == (if bottom <= i <= addrPage then true
                     else if addrPage < i < KS_BASE_PAGE then false
                     else old(t[i].valid))
  {
    var i := bottom;
    while i <= addrPage
      invariant i == bottom || bottom < i <= addrPage + 1
      invariant forall j :: 0 <= j < t.Length ==>
        t[j].prot == old(t[j].prot) && t[j].pfn == old(t[j].pfn)
      invariant forall j :: 0 <= j < t.Length ==>
        t[j].valid == (if bottom <= j < i then true else old(t[j].valid))
    {
      if !t[i].valid {
        t[i] := t[i].(valid := true);
      }
      i := i + 1;
    }
    ghost var mid := t[..];
    i := addrPage + 1;
    while i < KS_BASE_PAGE
      invariant addrPage + 1 <= i && (i <= KS_BASE_PAGE || i == addrPage + 1)
      invariant forall j :: 0 <= j < t.Length ==>
        t[j].prot == mid[j].prot && t[j].pfn == mid[j].pfn
      invariant forall j :: 0 <= j < t.Length ==>
        t[j].valid == (if addrPage < j < i then false else mid[j].valid)
    {
      if t[i].valid {
        t[i] := t[i].(valid := false);
      }
      i := i + 1;
    }
  }

  /** SetKernelBrk: an address above the kernel stack base or below the data
      segment is refused with -1 and nothing changes. Before virtual memory
      the break only ever grows; after, the region-0 valid bits are made to
      match the new break and the break is set to it. */
  method SetKernelBrk(k: Kernel, addr: int) returns (rc: int)
    requires k.Valid() && 0 <= addr && 0 <= k.kernelDataStart
    modifies k`kernelBrk, k.r0table
    ensures rc == ERROR <==> addr > KERNEL_STACK_BASE || addr < k.kernelDataStart
    ensures rc == ERROR || rc == SUCCESS
    ensures rc == ERROR ==> k.kernelBrk == old(k.kernelBrk) && k.r0table[..] == old(k.r0table[..])
    ensures rc == SUCCESS && !k.vmEnabled ==>
      k.kernelBrk == (if addr > old(k.kernelBrk) then addr else old(k.kernelBrk)) &&
      k.r0table[..] == old(k.r0table[..])
    ensures rc == SUCCESS && k.vmEnabled ==> k.kernelBrk == addr
    ensures rc == SUCCESS && k.vmEnabled ==> forall i :: 0 <= i < VMEM_0_PAGE_COUNT ==>
      k.r0table[i].prot == old(k.r0table[i].prot) && k.r0table[i].pfn == old(k.r0table[i].pfn) &&
      k.r0table[i].valid == (if i < KS_BASE_PAGE then i <= PageOf(addr) else old(k.r0table[i].valid) || i <= PageOf(addr))
  {
    if addr > KERNEL_STACK_BASE || addr < k.kernelDataStart {
      return ERROR;
    }
    if !k.vmEnabled {
      if addr > k.kernelBrk {
        k.kernelBrk := addr;
      }
      return SUCCESS;
    }
    var bottomPage := VMEM_0_BASE / PAGESIZE;
    var addrPage := DownToPage(addr) / PAGESIZE;
    assert addrPage == PageOf(addr);
    FlipKernelPages(k.r0table, bottomPage, addrPage);
    k.kernelBrk := addr;
    rc := SUCCESS;
  }
}
