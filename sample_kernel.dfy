/** The earlier boot code of the sample kernel. It fills the free list and
    the region-0 table by the same rules as the later kernel, but its
    region-1 loop builds entries without storing them and its idle process
    gets no stack frames. */
module SampleBoot {
  import opened Hardware
  import opened LinkedList
  import opened KernelState
  import opened ProcessControl
  import opened Boot

  /** The sample KernelStart: the free list holds every frame above region 0,
      region 0 follows the same valid/prot/pfn rules, region 1 keeps whatever
      it held (all zero in static storage), and the idle process, pid 0,
      becomes current with its program counter at `idlePc`. */
  method KernelStart(k: Kernel, pmemSize: nat, uc: UserContext, idlePc: int)
    requires k.Valid() && k.freeFrames == [] && k.procs == map[]
    requires 0 <= k.kernelDataStart && 0 <= k.kernelDataEnd
    modifies k, k.r0table
    ensures k.Valid() && k.vmEnabled
    ensures k.kernelBrk == k.kernelDataEnd == old(k.kernelDataEnd)
    ensures k.totalPframes == pmemSize / PAGESIZE && k.pframesInKernel == VMEM_0_PAGE_COUNT
    ensures k.pframesInUse == PageOf(UpToPage(k.kernelDataEnd))
    ensures k.freeFrames == Range(VMEM_0_PAGE_COUNT, k.totalPframes)
    ensures forall i :: 0 <= i < VMEM_0_PAGE_COUNT ==>
      (k.r0table[i].valid <==> i < k.pframesInUse || i >= KS_BASE_PAGE) &&
      k.r0table[i].prot == (if i < PageOf(k.kernelDataStart) then PROT_RX else PROT_RW) &&
      k.r0table[i].pfn == i
    ensures k.r1table[..] == old(k.r1table[..])
    ensures k.availablePid == 1 && k.curr == 0 && k.processList == [ProcNode(0)]
    ensures k.procs.Keys == {0} && k.procs[0].uc.pc == idlePc && k.procs[0].uc.sp == uc.sp
  {
    k.kernelBrk := k.kernelDataEnd;
    k.availablePid := 0;
    k.vmEnabled := false;
    InitFrames(k, pmemSize);
    FillRegion0(k.r0table, k.pframesInUse, k.kernelDataStart);
    // The region-1 loop computes an invalid read-write entry per page and drops it.
    k.ptbr1 := BootTable;
    k.vmEnabled := true;

    k.processList := [];
    // src/PCB.c's new_process stands in for sample/src/PCB.c's, whose write
    // through an uninitialised pointer has no defined result.
    var idle := NewProcess(k, uc);
    k.processList := Append(k.processList, Proc(idle.pid), 0);
    k.curr := idle.pid;
    k.procs := k.procs[idle.pid := idle.(uc := idle.uc.(pc := idlePc))];
  }

  /** The sample SetKernelBrk: the same bounds check and pre-VM rule, and the
      same post-VM split of region 0, counted from the page of VMEM_BASE. */
  method SetKernelBrk(k: Kernel, addr: int) returns (rc: int)
    requires k.Valid() && 0 <= addr && 0 <= k.kernelDataStart
    modifies k`kernelBrk, k.r0table
    ensures rc == ERROR <==> addr > KERNEL_STACK_BASE || addr < k.kernelDataStart
    ensures rc == ERROR || rc == SUCCESS
    ensures rc == ERROR ==> k.kernelBrk == old(k.kernelBrk) && k.r0table[..] == old(k.r0table[..])
    ensures rc == SUCCESS && !k.vmEnabled ==>
      k.kernelBrk == (if addr > old(k.kernelBrk) then addr else old(k.kernelBrk)) &&
      k.r0table[..] == old(k.r0table[..])
    ensures rc == SUCCESS && k.vmEnabled ==> k.kernelBrk == addr
    ensures rc == SUCCESS && k.vmEnabled ==> forall i :: 0 <= i < VMEM_0_PAGE_COUNT ==>
      k.r0table[i].prot == old(k.r0table[i].prot) && k.r0table[i].pfn == old(k.r0table[i].pfn) &&
      k.r0table[i].valid == (if i < KS_BASE_PAGE then i <= PageOf(addr) else old(k.r0table[i].valid) || i <= PageOf(addr))
  {
    if addr > KERNEL_STACK_BASE || addr < k.kernelDataStart {
      return ERROR;
    }
    if !k.vmEnabled {
      if addr > k.kernelBrk {
        k.kernelBrk := addr;
      }
      return SUCCESS;
    }
    var bottomPage := VMEM_BASE / PAGESIZE;
    var addrPage := DownToPage(addr) / PAGESIZE;
    assert addrPage == PageOf(addr);
    FlipKernelPages(k.r0table, bottomPage, addrPage);
    k.kernelBrk := addr;
    rc := SUCCESS;
  }
}
