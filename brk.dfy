/** The Brk system call: it moves the caller's heap break so that the heap
    pages run from the heap base up to the page holding the new break, and
    gives back every page between the new break and the bottom of the
    stack. */
module BrkCall {
  import opened Hardware
  import opened KernelState
  import opened PageTables

  // ---------------------------------------------------------------------
  // The bounds check as written
  // ---------------------------------------------------------------------

  /** `x << PAGESHIFT` on a 32-bit unsigned value. */
  function ShlU32(x: int): (r: int)
    requires 0 <= x < U32
    ensures 0 <= r < U32
  {
    (x * PAGESIZE) % U32
  }

  /** top_pg_heap: the page above the new break, made relative to region 1
      by an unsigned subtraction. */
  function TopPageU32(addr: int): (r: int)
    requires 0 <= addr < U32 - PAGESIZE
  {
    SubU32(PageOf(UpToPage(addr)), VMEM_0_PAGE_COUNT)
  }

  /** bottom_pg_stack: the page holding the saved stack pointer, relative to
      region 1, by an unsigned subtraction. */
  function StackPageU32(sp: int): (r: int)
    requires 0 <= sp < U32
  {
    SubU32(PageOf(DownToPage(sp)), VMEM_0_PAGE_COUNT)
  }

  /** The check as written: the absolute address is compared with `page <<
      PAGESHIFT` of the two region-relative page numbers. True means Brk
      returns ERROR. */
  predicate RejectedAsWritten(heapBase: int, sp: int, addr: int)
    requires 0 <= heapBase < U32 && 0 <= sp < U32 && 0 <= addr < U32
  {
    addr > ShlU32(StackPageU32(sp)) || addr < ShlU32(heapBase)
  }

  /** As written, Brk refuses every address in region 1: the stack bound it
      compares with is a region-relative offset below VMEM_1_BASE. */
  lemma AsWrittenRejectsRegion1(heapBase: int, sp: int, addr: int)
    requires 0 <= heapBase < U32 && VMEM_1_BASE <= sp < VMEM_1_LIMIT
    requires VMEM_1_BASE <= addr < U32
    ensures RejectedAsWritten(heapBase, sp, addr)
  {
    assert StackPageU32(sp) < VMEM_1_PAGE_COUNT;
  }

  /** An address the as-written check lets through lies in region 0, and
      then top_pg_heap wraps around to a page number far beyond the
      128-entry region-1 table that the mapping loop walks up to. */
  lemma AsWrittenAcceptedOverruns(heapBase: int, sp: int, addr: int)
    requires 0 <= heapBase < U32 && VMEM_1_BASE <= sp < VMEM_1_LIMIT
    requires 0 <= addr < U32 - PAGESIZE && !RejectedAsWritten(heapBase, sp, addr)
    ensures addr < VMEM_1_BASE
    ensures TopPageU32(addr) >= VMEM_1_PAGE_COUNT
  {
    assert StackPageU32(sp) < VMEM_1_PAGE_COUNT;
  }

  /** The input that shows it: heap base page 5, stack at 0x1F0000, and a
      break at 0x120000, between the heap base and the stack, is refused. */
  lemma AsWrittenRefusesInBoundsBreak()
    ensures VMEM_1_BASE + 5 * PAGESIZE <= 0x120000 < 0x1F0000
    ensures RejectedAsWritten(5, 0x1F0000, 0x120000)
  {
  }

  // ---------------------------------------------------------------------
  // Brk with the bounds check on absolute addresses
  // ---------------------------------------------------------------------

  /** The check with both bounds turned into region-1 addresses: the new
      break lies between the heap base and the page holding the stack
      pointer. */
  predicate InBounds(heapBase: int, sp: int, addr: int)
  {
    VMEM_1_BASE + heapBase * PAGESIZE <= addr <= VMEM_1_BASE + (PageOf(DownToPage(sp)) - VMEM_0_PAGE_COUNT) * PAGESIZE
  }

  /** The region-1 page just above the new break. */
  function TopPage(addr: int): int
  {
    PageOf(UpToPage(addr)) - VMEM_0_PAGE_COUNT
  }

  /** The heap pages [heapBase, TopPage(addr)) hold exactly the addresses
      from the heap base up to the break: every address below the break is
      on one of them, and the last of them still holds an address below
      the break. */
  lemma HeapCoversBreak(heapBase: int, sp: int, addr: int)
    requires 0 <= heapBase && VMEM_1_BASE <= sp < VMEM_1_LIMIT && InBounds(heapBase, sp, addr)
    ensures heapBase <= TopPage(addr) <= PageOf(DownToPage(sp)) - VMEM_0_PAGE_COUNT < VMEM_1_PAGE_COUNT
    ensures forall a :: VMEM_1_BASE + heapBase * PAGESIZE <= a < addr ==>
      heapBase <= PageOf(a) - VMEM_0_PAGE_COUNT < TopPage(addr)
    ensures VMEM_1_BASE + TopPage(addr) * PAGESIZE - PAGESIZE < addr <= VMEM_1_BASE + TopPage(addr) * PAGESIZE
  {
  }

  /** The region-1 table `t` after Brk's two loops ran on `t0`, ending with
      `ok`. Whatever the outcome, pages outside [heapBase, stack) keep their
      entries, pages already valid below `top` keep theirs, and a page the
      loop validated is read-write. When every frame was found, the heap
      pages below `top` are all valid and those from `top` up to the stack
      are given back; otherwise the loop stopped inside [heapBase, top] and
      nothing above `top` changed. */
  ghost predicate HeapAfter(t0: seq<Pte>, t: seq<Pte>, heapBase: int, top: int, stack: int, ok: bool)
    requires 0 <= heapBase <= top <= stack < |t0| == |t|
  {
    (forall i :: heapBase <= i < top && t0[i].valid ==> t[i] == t0[i]) &&
    (forall i :: heapBase <= i < top && !t0[i].valid && t[i].valid ==> t[i].prot == PROT_RW) &&
    (ok ==>
      (forall i :: heapBase <= i < top ==> t[i].valid) &&
      (forall i :: top < i < stack ==> t[i] == t0[i].(valid := false)) &&
      (top < stack ==> !t[top].valid) &&
      (top == stack ==> t[top].valid) &&
      (forall i :: 0 <= i < |t| && !(heapBase <= i < top + 1) && !(top <= i < stack) ==> t[i] == t0[i])) &&
    (!ok ==>
      (forall i :: 0 <= i < |t| && !(heapBase <= i <= top) ==> t[i] == t0[i]) &&
      (t0[top].valid ==> t[top] == t0[top]) &&
      (!t0[top].valid && t[top].valid ==> t[top].prot == PROT_RW))
  }

  /** The two loops of Brk on the region-1 table: map [heapBase, top] and
      then give back [top, stack). */
  method ResizeHeap(k: Kernel, t: array<Pte>, heapBase: int, top: int, stack: int) returns (ok: bool)
    requires 0 <= heapBase <= top <= stack < t.Length
    modifies k`freeFrames, t
    ensures Pool(k.freeFrames, t[..]) == Pool(old(k.freeFrames), old(t[..]))
    ensures ok <==> |old(k.freeFrames)| >= Missing(old(t[..]), heapBase, top + 1)
    ensures !ok ==> k.freeFrames == []
    ensures HeapAfter(old(t[..]), t[..], heapBase, top, stack, ok)
  {
    ok := MapRange(k, t, heapBase, top + 1);
    if ok {
      UnmapRange(k, t, top, stack);
    }
  }

  /** Brk for the current process, with the corrected check. The mapping
      loop covers [heap base, top] and may run out of frames, returning
      ERROR with the pages mapped so far kept; the unmapping loop then
      invalidates [top, stack page), so page `top` is mapped and at once
      given back unless it is the stack page itself. */
  method Brk(k: Kernel, addr: int) returns (rc: int)
    requires k.HasCurrent() && 0 <= addr < U32
    requires 0 <= k.procs[k.curr].heapBasePage && VMEM_1_BASE <= k.procs[k.curr].uc.sp < VMEM_1_LIMIT
    modifies k`freeFrames, k`procs, k.procs[k.curr].r1
    ensures k.HasCurrent()
    ensures var p := old(k.procs[k.curr]);
      Pool(k.freeFrames, p.r1[..]) == Pool(old(k.freeFrames), old(p.r1[..]))
    ensures rc == ERROR || rc == SUCCESS
    ensures var p := old(k.procs[k.curr]);
      !InBounds(p.heapBasePage, p.uc.sp, addr) ==>
        rc == ERROR && k.freeFrames == old(k.freeFrames) && p.r1[..] == old(p.r1[..]) && k.procs == old(k.procs)
    ensures var p := old(k.procs[k.curr]);
      rc == SUCCESS <==>
        InBounds(p.heapBasePage, p.uc.sp, addr) &&
        |old(k.freeFrames)| >= Missing(old(p.r1[..]), p.heapBasePage, TopPage(addr) + 1)
    ensures rc == ERROR ==> k.procs == old(k.procs)
    ensures rc == ERROR && InBounds(old(k.procs[k.curr]).heapBasePage, old(k.procs[k.curr]).uc.sp, addr) ==>
      k.freeFrames == []
    ensures var p := old(k.procs[k.curr]);
      rc == SUCCESS ==> k.procs == old(k.procs)[k.curr := p.(brkAddr := TopPage(addr) * PAGESIZE)]
    ensures var p := old(k.procs[k.curr]);
      InBounds(p.heapBasePage, p.uc.sp, addr) ==>
        var stack := PageOf(DownToPage(p.uc.sp)) - VMEM_0_PAGE_COUNT;
        p.heapBasePage <= TopPage(addr) <= stack < VMEM_1_PAGE_COUNT &&
        HeapAfter(old(p.r1[..]), p.r1[..], p.heapBasePage, TopPage(addr), stack, rc == SUCCESS)
  {
    var p := k.procs[k.curr];
    var heapBase := p.heapBasePage;
    var top := UpToPage(addr) / PAGESIZE - VMEM_0_PAGE_COUNT;
    var stack := DownToPage(p.uc.sp) / PAGESIZE - VMEM_0_PAGE_COUNT;
    if addr > VMEM_1_BASE + stack * PAGESIZE || addr < VMEM_1_BASE + heapBase * PAGESIZE {
      return ERROR;
    }
    HeapCoversBreak(heapBase, p.uc.sp, addr);
    var ok := ResizeHeap(k, p.r1, heapBase, top, stack);
    if !ok {
      return ERROR;
    }
    k.procs := k.procs[k.curr := p.(brkAddr := top * PAGESIZE)];
    rc := SUCCESS;
  }
}
