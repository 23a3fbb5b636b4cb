/** LoadProgram: lays out a new region-1 address space for an executable in
    a scratch page table, fills it with frames popped from the free list,
    copies it into the process's region-1 table, and builds argc, argv and
    the argument strings at the top of the new user stack. The bytes of the
    program's text and data are not modelled; whether reading them from the
    file succeeds is part of the input. */
module Loader {
  import opened Hardware
  import opened KernelState
  import opened PageTables

  /** The fields of struct load_info the loader computes with. */
  datatype LoadInfo = LoadInfo(entry: int, tVaddr: int, tNpg: nat, idVaddr: int, idNpg: nat, udNpg: nat)

  /** What opening the executable file yields: it cannot be opened, it is not
      in Yalnix format, or its load information together with whether the
      text segment and the data segment read in full. */
  datatype Executable = CannotOpen | NotYalnix | Program(li: LoadInfo, textReads: bool, dataReads: bool)

  /** ERROR, the internal KILL code, a load that dereferences an empty free
      list or writes outside the scratch table, and SUCCESS. */
  datatype LoadOutcome = LoadError | LoadKilled | LoadCrashed | Loaded

  // ---------------------------------------------------------------------
  // Arguments
  // ---------------------------------------------------------------------

  /** The bytes the argument strings take with their terminating NULs. */
  function ArgSize(args: seq<string>): (n: nat)
    ensures n >= |args|
  {
    if args == [] then 0 else ArgSize(args[..|args| - 1]) + |args[|args| - 1]| + 1
  }

  lemma ArgSizeSnoc(args: seq<string>, i: int)
    requires 0 <= i < |args|
    ensures ArgSize(args[..i + 1]) == ArgSize(args[..i]) + |args[i]| + 1
  {
    assert args[..i + 1][..i] == args[..i];
  }

  lemma {:induction false} ArgSizePrefix(args: seq<string>, i: int)
    requires 0 <= i <= |args|
    ensures ArgSize(args[..i]) + |args| - i <= ArgSize(args)
    decreases |args| - i
  {
    if i < |args| {
      ArgSizePrefix(args, i + 1);
      ArgSizeSnoc(args, i);
    } else {
      assert args[..i] == args;
    }
  }

  /** The loader's counting loop: the argument count and the bytes the
      strings need. */
  method CountArgs(args: seq<string>) returns (argc: nat, size: nat)
    ensures argc == |args| && size == ArgSize(args)
  {
    size := 0;
    var i := 0;
    while i < |args|
      invariant 0 <= i <= |args| && size == ArgSize(args[..i])
    {
      ArgSizeSnoc(args, i);
      size := size + |args[i]| + 1;
      i := i + 1;
    }
    assert args[..i] == args;
    argc := i;
  }

  /** The new stack's contents: the words argc, argv[0..argc-1], NULL, NULL
      stored upward from `wordsAt`, and the argument strings stored upward
      from `stringsAt`. */
  datatype StackImage = StackImage(wordsAt: int, words: seq<int>, stringsAt: int, strings: seq<char>)

  /** The argument strings one after another, each followed by its NUL. */
  function ArgBytes(args: seq<string>): (b: seq<char>)
    ensures |b| == ArgSize(args)
  {
    if args == [] then [] else ArgBytes(args[..|args| - 1]) + args[|args| - 1] + ['\0']
  }

  lemma ArgBytesSnoc(args: seq<string>, i: int)
    requires 0 <= i < |args|
    ensures ArgBytes(args[..i + 1]) == ArgBytes(args[..i]) + args[i] + ['\0']
  {
    assert args[..i + 1][..i] == args[..i];
  }

  /** String i of ArgBytes starts at offset ArgSize(args[..i]) and is
      followed by a NUL. */
  lemma {:induction false} StringAt(args: seq<string>, i: int)
    requires 0 <= i < |args|
    ensures ArgSize(args[..i]) + |args[i]| < ArgSize(args)
    ensures ArgBytes(args)[ArgSize(args[..i])..ArgSize(args[..i]) + |args[i]|] == args[i]
    ensures ArgBytes(args)[ArgSize(args[..i]) + |args[i]|] == '\0'
  {
    var n := |args| - 1;
    var front := args[..n];
    if i < n {
      StringAt(front, i);
      assert front[..i] == args[..i] && front[i] == args[i];
      var o := ArgSize(args[..i]);
      assert ArgBytes(args)[o..o + |args[i]|] == ArgBytes(front)[o..o + |args[i]|];
    } else {
      assert args[..i] == front;
    }
  }

  /** The argv pointers: string i starts ArgSize(args[..i]) bytes above cp. */
  function Argv(args: seq<string>, cp: int): (w: seq<int>)
    ensures |w| == |args|
  {
    if args == [] then [] else Argv(args[..|args| - 1], cp) + [cp + ArgSize(args[..|args| - 1])]
  }

  lemma ArgvSnoc(args: seq<string>, cp: int, i: int)
    requires 0 <= i < |args|
    ensures Argv(args[..i + 1], cp) == Argv(args[..i], cp) + [cp + ArgSize(args[..i])]
  {
    assert args[..i + 1][..i] == args[..i];
  }

  /** argv[i] is the address of string i in ArgBytes(args) placed at cp. */
  lemma {:induction false} ArgvAt(args: seq<string>, cp: int, i: int)
    requires 0 <= i < |args|
    ensures Argv(args, cp)[i] == cp + ArgSize(args[..i])
  {
    var n := |args| - 1;
    if i < n {
      ArgvAt(args[..n], cp, i);
      assert args[..n][..i] == args[..i];
    }
  }

  /** Reading the stack image back: argv[i], taken relative to where the
      strings start, is the offset of string i, which is followed by its
      NUL. */
  lemma ArgvPointsAtStrings(args: seq<string>, cp: int, i: int)
    requires 0 <= i < |args|
    ensures var o := Argv(args, cp)[i] - cp;
      0 <= o && o + |args[i]| < |ArgBytes(args)| &&
      ArgBytes(args)[o..o + |args[i]|] == args[i] && ArgBytes(args)[o + |args[i]|] == '\0'
  {
    ArgvAt(args, cp, i);
    StringAt(args, i);
  }

  /** The argument-building loop: argc first, then for each argument its
      address, with the string and its NUL copied to that address, then two
      NULL words. */
  method BuildArgBlock(args: seq<string>, cpp: int, cp: int) returns (image: StackImage)
    ensures image == StackImage(cpp, [|args|] + Argv(args, cp) + [0, 0], cp, ArgBytes(args))
  {
    var words := [|args|];
    var strings: seq<char> := [];
    var ptr := cp;
    var i := 0;
    while i < |args|
      invariant 0 <= i <= |args|
      invariant words == [|args|] + Argv(args[..i], cp)
      invariant strings == ArgBytes(args[..i]) && ptr == cp + |strings|
    {
      ArgvSnoc(args, cp, i);
      ArgBytesSnoc(args, i);
      words := words + [ptr];
      strings := strings + args[i] + ['\0'];
      ptr := ptr + |args[i]| + 1;
      i := i + 1;
    }
    assert args[..i] == args;
    image := StackImage(cpp, words + [0, 0], cp, strings);
  }

  // ---------------------------------------------------------------------
  // Layout
  // ---------------------------------------------------------------------

  /** `x & ~7` on a two's-complement int: x rounded down to a multiple of 8. */
  function AlignDown8(x: int): (r: int)
    ensures r <= x < r + 8 && r % 8 == 0
  {
    x - x % 8
  }

  /** The page numbers and addresses the loader computes before touching
      any frame. Page numbers are relative to the base of region 1; `brk` is
      the value stored in the PCB's brk_addr. */
  datatype Layout = Layout(
    textPg: int, dataPg: int, dataNpg: nat,
    cp: int, cpp: int, sp: int, stackNpg: int, brk: int)

  /** The loader's layout arithmetic for `argc` arguments taking `size`
      bytes. The shifts are floor divisions and multiplications. */
  function PlanLayout(li: LoadInfo, argc: nat, size: nat): Layout
  {
    var textPg := (li.tVaddr - VMEM_1_BASE) / PAGESIZE;
    var dataPg := (li.idVaddr - VMEM_1_BASE) / PAGESIZE;
    var dataNpg := li.idNpg + li.udNpg;
    var cp := VMEM_1_LIMIT - size;
    var cpp := AlignDown8(cp - (argc + 3 + POST_ARGV_NULL_SPACE) * WORD_SIZE);
    var sp := cpp - INITIAL_STACK_FRAME_SIZE;
    var stackNpg := (VMEM_1_LIMIT - DownToPage(sp)) / PAGESIZE;
    Layout(textPg, dataPg, dataNpg, cp, cpp, sp, stackNpg, (dataPg + li.tNpg + dataNpg) * PAGESIZE)
  }

  /** The check that leaves room between the heap and the stack. */
  predicate HeapStackGap(L: Layout)
  {
    L.stackNpg + L.dataPg + L.dataNpg < MAX_PT_LEN
  }

  /** The stack frame sits below the argument block, the block below the
      strings, the strings end at the top of region 1, the stack pointer is
      double-word aligned, and the stack pages are exactly the pages from
      the one holding the stack pointer to the top of region 1. */
  lemma LayoutFacts(li: LoadInfo, argc: nat, size: nat)
    ensures var L := PlanLayout(li, argc, size);
      L.cp + size == VMEM_1_LIMIT &&
      L.sp + INITIAL_STACK_FRAME_SIZE == L.cpp &&
      L.cpp + (argc + 3) * WORD_SIZE + POST_ARGV_NULL_SPACE * WORD_SIZE <= L.cp &&
      L.cp < L.cpp + (argc + 3 + POST_ARGV_NULL_SPACE) * WORD_SIZE + 8 &&
      L.sp % 8 == 0 && L.stackNpg >= 1 &&
      VMEM_1_LIMIT - L.stackNpg * PAGESIZE <= L.sp < VMEM_1_LIMIT - L.stackNpg * PAGESIZE + PAGESIZE
  {
    ArgBlockFits(li, argc, size);
    StackPages(li, argc, size);
  }

  /** The strings, the argument block and the frame below it. */
  lemma ArgBlockFits(li: LoadInfo, argc: nat, size: nat)
    ensures var L := PlanLayout(li, argc, size);
      L.cp + size == VMEM_1_LIMIT &&
      L.sp + INITIAL_STACK_FRAME_SIZE == L.cpp &&
      L.cpp + (argc + 3) * WORD_SIZE + POST_ARGV_NULL_SPACE * WORD_SIZE <= L.cp &&
      L.cp < L.cpp + (argc + 3 + POST_ARGV_NULL_SPACE) * WORD_SIZE + 8 &&
      L.sp % 8 == 0 && L.sp < VMEM_1_LIMIT
  {
  }

  /** The stack pages run from the page of the stack pointer to the top. */
  lemma StackPages(li: LoadInfo, argc: nat, size: nat)
    ensures var L := PlanLayout(li, argc, size);
      L.stackNpg >= 1 &&
      VMEM_1_LIMIT - L.stackNpg * PAGESIZE <= L.sp < VMEM_1_LIMIT - L.stackNpg * PAGESIZE + PAGESIZE
  {
    var L := PlanLayout(li, argc, size);
    ArgBlockFits(li, argc, size);
    PageMultiple(VMEM_1_LIMIT - DownToPage(L.sp));
  }

  /** A positive multiple of the page size is a whole number of pages, at least one. */
  lemma PageMultiple(x: int)
    requires x > 0 && x % PAGESIZE == 0
    ensures (x / PAGESIZE) * PAGESIZE == x && x / PAGESIZE >= 1
  {
  }

  /** When the gap check passes and the data segment starts inside region 1,
      the page just above the data segment is below the lowest stack page. */
  lemma GapLeavesAPage(L: Layout)
    requires HeapStackGap(L) && 0 <= L.dataPg
    ensures L.dataPg + L.dataNpg < VMEM_1_PAGE_COUNT - L.stackNpg
    ensures L.stackNpg < VMEM_1_PAGE_COUNT
  {
  }

  /** A fill loop over `n` pages from `lo` stays inside the scratch table. */
  predicate InTable(lo: int, n: int)
  {
    n <= 0 || (0 <= lo && lo + n <= VMEM_1_PAGE_COUNT)
  }

  /** The frames the three fill loops pop. */
  function Need(L: Layout, tNpg: nat): int
  {
    tNpg + L.dataNpg + L.stackNpg
  }

  /** The fills neither write outside the scratch table nor pop an empty
      free list. */
  predicate Loadable(L: Layout, tNpg: nat, free: seq<int>)
  {
    InTable(L.textPg, tNpg) && InTable(L.dataPg, L.dataNpg) &&
    1 <= L.stackNpg <= VMEM_1_PAGE_COUNT && |free| >= Need(L, tNpg)
  }

  predicate InText(L: Layout, tNpg: nat, i: int)
  {
    L.textPg <= i < L.textPg + tNpg
  }

  predicate InData(L: Layout, i: int)
  {
    L.dataPg <= i < L.dataPg + L.dataNpg
  }

  predicate InStack(L: Layout, i: int)
  {
    VMEM_1_PAGE_COUNT - L.stackNpg <= i < VMEM_1_PAGE_COUNT
  }

  /** Which pop backs page i of the loaded table: the stack loop runs last
      and the text loop first, so a later loop's frame wins; -1 when no
      loop writes page i. */
  function Slot(L: Layout, tNpg: nat, i: int): (s: int)
    ensures s < 0 <==> !InText(L, tNpg, i) && !InData(L, i) && !InStack(L, i)
    ensures s >= -1
  {
    if InStack(L, i) then tNpg + L.dataNpg + (i - (VMEM_1_PAGE_COUNT - L.stackNpg))
    else if InData(L, i) then tNpg + (i - L.dataPg)
    else if InText(L, tNpg, i) then i - L.textPg
    else -1
  }

  /** Entry i of the region-1 table after a successful load: filled pages are
      valid and backed by their pop, text pages read-execute and the rest
      read-write; the others keep what the scratch table held on entry. */
  function LoadedEntry(stale: Pte, L: Layout, tNpg: nat, free: seq<int>, i: int): Pte
    requires Slot(L, tNpg, i) < |free|
  {
    var s := Slot(L, tNpg, i);
    if s < 0 then stale
    else Pte(true, if InText(L, tNpg, i) then PROT_RX else PROT_RW, FnumToPfn(free[s]))
  }

  lemma SlotBelowNeed(L: Layout, tNpg: nat, i: int)
    requires 0 <= i < VMEM_1_PAGE_COUNT && L.stackNpg >= 1
    ensures Slot(L, tNpg, i) < Need(L, tNpg)
  {
  }

  /** Text, then data, then the gap page, then the stack. */
  predicate Separated(L: Layout, tNpg: nat)
  {
    0 <= L.textPg && L.textPg + tNpg <= L.dataPg && HeapStackGap(L)
  }

  /** On a well-separated layout the three segments are the only valid pages
      of the loaded table (when the scratch table held no valid entry), text
      is read-execute, data and stack read-write, and the page above the
      data segment is left unmapped. */
  lemma LoadedSegments(stale: seq<Pte>, L: Layout, tNpg: nat, free: seq<int>, i: int)
    requires Separated(L, tNpg) && Loadable(L, tNpg, free) && 0 <= i < |stale| == VMEM_1_PAGE_COUNT
    requires !stale[i].valid
    ensures var e := LoadedEntry(stale[i], L, tNpg, free, i);
      (e.valid <==> InText(L, tNpg, i) || InData(L, i) || InStack(L, i)) &&
      (e.valid ==> (e.prot == PROT_RX <==> InText(L, tNpg, i))) &&
      (i == L.dataPg + L.dataNpg ==> e == stale[i])
  {
    SlotBelowNeed(L, tNpg, i);
  }

  /** On a well-separated layout two different pages never get the same pop,
      so, with distinct free frames, no frame backs two pages. */
  lemma LoadedFramesDistinct(L: Layout, tNpg: nat, free: seq<int>, i: int, j: int)
    requires Separated(L, tNpg) && Loadable(L, tNpg, free)
    requires 0 <= i < j < VMEM_1_PAGE_COUNT && Slot(L, tNpg, i) >= 0 && Slot(L, tNpg, j) >= 0
    requires forall a, b :: 0 <= a < b < |free| ==> free[a] != free[b]
    ensures LoadedEntry(InvalidPte, L, tNpg, free, i).pfn != LoadedEntry(InvalidPte, L, tNpg, free, j).pfn
  {
    SlotBelowNeed(L, tNpg, i);
    SlotBelowNeed(L, tNpg, j);
    var si, sj := Slot(L, tNpg, i), Slot(L, tNpg, j);
    assert si < sj;
    assert free[si] != free[sj];
  }

  // ---------------------------------------------------------------------
  // Filling the scratch table
  // ---------------------------------------------------------------------

  /** Entry i after a fill loop over [lo, lo + n) whose first pop takes
      free[base]. */
  function Wrote(t: Pte, lo: int, n: int, free: seq<int>, base: int, i: int): Pte
    requires lo <= i < lo + n ==> 0 <= base + i - lo < |free|
  {
    if lo <= i < lo + n then Pte(true, PROT_RW, FnumToPfn(free[base + i - lo])) else t
  }

  /** One fill loop, a no-op when it covers no page. */
  method FillSegment(k: Kernel, t: array<Pte>, lo: int, n: int, ghost free: seq<int>, ghost base: int)
    requires 0 < n ==> 0 <= lo && lo + n <= t.Length
    requires 0 <= base && base + (if n > 0 then n else 0) <= |free| && k.freeFrames == free[base..]
    modifies k`freeFrames, t
    ensures k.freeFrames == free[base + (if n > 0 then n else 0)..]
    ensures forall i :: 0 <= i < t.Length ==> t[i] == Wrote(old(t[i]), lo, n, free, base, i)
  {
    if n > 0 {
      FillRange(k, t, lo, lo + n);
      forall i | 0 <= i < t.Length ensures t[i] == Wrote(old(t[i]), lo, n, free, base, i) {
        if lo <= i < lo + n {
          assert free[base..][i - lo] == free[base + i - lo];
        }
      }
    }
  }

  /** The three fill loops over a scratch table holding `stale`: text, data,
      then the stack pages at the top of region 1, each page valid
      read-write on the next popped frame. */
  method FillTable(k: Kernel, stale: seq<Pte>, L: Layout, tNpg: nat) returns (t: array<Pte>)
    requires |stale| == VMEM_1_PAGE_COUNT && Loadable(L, tNpg, k.freeFrames)
    modifies k`freeFrames
    ensures fresh(t) && t.Length == VMEM_1_PAGE_COUNT
    ensures k.freeFrames == old(k.freeFrames)[Need(L, tNpg)..]
    ensures forall i :: 0 <= i < VMEM_1_PAGE_COUNT ==>
      Slot(L, tNpg, i) < |old(k.freeFrames)| &&
      t[i] == (if Slot(L, tNpg, i) < 0 then stale[i]
               else Pte(true, PROT_RW, FnumToPfn(old(k.freeFrames)[Slot(L, tNpg, i)])))
  {
    ghost var free := k.freeFrames;
    t := new Pte[VMEM_1_PAGE_COUNT](i requires 0 <= i < VMEM_1_PAGE_COUNT => stale[i]);
    ghost var t0 := t[..];
    assert t0 == stale;
    assert free[0..] == free;
    FillSegment(k, t, L.textPg, tNpg, free, 0);
    ghost var t1 := t[..];
    FillSegment(k, t, L.dataPg, L.dataNpg, free, tNpg);
    ghost var t2 := t[..];
    FillSegment(k, t, VMEM_1_PAGE_COUNT - L.stackNpg, L.stackNpg, free, tNpg + L.dataNpg);
    forall i | 0 <= i < VMEM_1_PAGE_COUNT
      ensures Slot(L, tNpg, i) < |free|
      ensures t[i] == (if Slot(L, tNpg, i) < 0 then stale[i] else Pte(true, PROT_RW, FnumToPfn(free[Slot(L, tNpg, i)])))
    {
      SlotBelowNeed(L, tNpg, i);
      assert t[i] == Wrote(t2[i], VMEM_1_PAGE_COUNT - L.stackNpg, L.stackNpg, free, tNpg + L.dataNpg, i);
      assert t2[i] == Wrote(t1[i], L.dataPg, L.dataNpg, free, tNpg, i);
      assert t1[i] == Wrote(stale[i], L.textPg, tNpg, free, 0, i);
    }
  }

  /** The protection loop: text pages become read-execute. */
  method ProtectText(t: array<Pte>, lo: int, hi: int)
    requires lo < hi ==> 0 <= lo && hi <= t.Length
    modifies t
    ensures forall i :: 0 <= i < t.Length ==>
      t[i] == (if lo <= i < hi then old(t[i]).(prot := PROT_RX) else old(t[i]))
  {
    var i := lo;
    while i < hi
      invariant lo <= i && (lo < hi ==> i <= hi) && (hi <= lo ==> i == lo)
      invariant forall j :: 0 <= j < t.Length ==>
        t[j] == (if lo <= j < i then old(t[j]).(prot := PROT_RX) else old(t[j]))
    {
      t[i] := t[i].(prot := PROT_READ + PROT_EXEC);
      i := i + 1;
    }
  }

  // ---------------------------------------------------------------------
  // LoadProgram
  // ---------------------------------------------------------------------

  /** The layout LoadProgram computes for an executable and its arguments. */
  function LayoutOf(li: LoadInfo, args: seq<string>): Layout
  {
    PlanLayout(li, |args|, ArgSize(args))
  }

  /** LoadProgram after its checks have passed: brk_addr and the stack
      pointer take their new values, then the fills (or the crash of
      popping an empty list or writing outside the scratch table), the
      segment reads (KILL when one falls short), the text protection, the
      copy into the PCB's region-1 table, the entry point, the argument
      block and the heap base; the region-1 base register goes back to
      `saved` on success. */
  method LoadImage(k: Kernel, pid: int, li: LoadInfo, readsAll: bool, args: seq<string>, stale: seq<Pte>,
                   L: Layout, saved: Ptbr)
    returns (out: LoadOutcome, image: StackImage)
    requires k.Valid() && pid in k.procs && |stale| == VMEM_1_PAGE_COUNT
    requires L.cp == VMEM_1_LIMIT - ArgSize(args)
    modifies k`ptbr1, k`procs, k`freeFrames, k.procs[pid].r1
    ensures k.Valid() && k.procs.Keys == old(k.procs.Keys)
    ensures out != LoadError
    ensures out == LoadCrashed <==> !Loadable(L, li.tNpg, old(k.freeFrames))
    ensures out == LoadKilled <==> Loadable(L, li.tNpg, old(k.freeFrames)) && !readsAll
    ensures out == LoadKilled || out == LoadCrashed ==>
      var p := old(k.procs[pid]);
      k.procs == old(k.procs)[pid := p.(brkAddr := L.brk, uc := p.uc.(sp := L.sp))]
    ensures out == LoadKilled ==> k.ptbr1 == old(k.ptbr1) && k.procs[pid].r1[..] == old(k.procs[pid].r1[..])
    ensures out != LoadCrashed ==> k.freeFrames == old(k.freeFrames)[Need(L, li.tNpg)..]
    ensures out == Loaded ==>
      var p := old(k.procs[pid]);
      k.ptbr1 == saved &&
      k.procs == old(k.procs)[pid := p.(brkAddr := L.brk, uc := p.uc.(sp := L.sp, pc := li.entry),
                                        heapBasePage := L.textPg + li.tNpg)] &&
      (forall i :: 0 <= i < VMEM_1_PAGE_COUNT ==>
        Slot(L, li.tNpg, i) < |old(k.freeFrames)| &&
        k.procs[pid].r1[i] == LoadedEntry(stale[i], L, li.tNpg, old(k.freeFrames), i))
    ensures out == Loaded ==>
      image == StackImage(L.cpp, [|args|] + Argv(args, L.cp) + [0, 0], L.cp, ArgBytes(args))
  {
    image := StackImage(0, [], 0, []);
    var p := k.procs[pid];
    p := p.(brkAddr := L.brk, uc := p.uc.(sp := L.sp));
    if !Loadable(L, li.tNpg, k.freeFrames) {
      k.procs := k.procs[pid := p];
      return LoadCrashed, image;
    }
    ghost var free := k.freeFrames;
    var t := FillTable(k, stale, L, li.tNpg);
    if !readsAll {
      k.procs := k.procs[pid := p];
      return LoadKilled, image;
    }
    ProtectText(t, L.textPg, L.textPg + li.tNpg);
    CopyTable(t, p.r1);
    p := p.(uc := p.uc.(pc := li.entry));
    image := BuildArgBlock(args, L.cpp, L.cp);
    p := p.(heapBasePage := L.textPg + li.tNpg);
    k.procs := k.procs[pid := p];
    k.ptbr1 := saved;
    out := Loaded;
    forall i | 0 <= i < VMEM_1_PAGE_COUNT
      ensures k.procs[pid].r1[i] == LoadedEntry(stale[i], L, li.tNpg, free, i)
    {
      assert k.procs[pid].r1[i] == t[i];
    }
  }

  /** LoadProgram into the PCB filed under `pid`. The region-1 base register
      points at the scratch table from the start and is put back only on
      success. brk_addr is set before the gap check and the stack pointer
      right after it, so an ERROR from the gap check or a KILL leaves them
      changed. A KILL comes after the fills, whose frames are then held only
      by the discarded scratch table. */
  method LoadProgram(k: Kernel, pid: int, exe: Executable, args: seq<string>, stale: seq<Pte>)
    returns (out: LoadOutcome, image: StackImage)
    requires k.Valid() && pid in k.procs && |stale| == VMEM_1_PAGE_COUNT
    modifies k`ptbr1, k`procs, k`freeFrames, k.procs[pid].r1
    ensures k.Valid() && k.procs.Keys == old(k.procs.Keys)
    ensures out == LoadError <==>
      !exe.Program? || exe.li.entry < VMEM_1_BASE || !HeapStackGap(LayoutOf(exe.li, args))
    ensures out == LoadCrashed <==>
      exe.Program? && exe.li.entry >= VMEM_1_BASE && HeapStackGap(LayoutOf(exe.li, args)) &&
      !Loadable(LayoutOf(exe.li, args), exe.li.tNpg, old(k.freeFrames))
    ensures out == LoadKilled <==>
      exe.Program? && exe.li.entry >= VMEM_1_BASE && HeapStackGap(LayoutOf(exe.li, args)) &&
      Loadable(LayoutOf(exe.li, args), exe.li.tNpg, old(k.freeFrames)) &&
      !(exe.textReads && exe.dataReads)
    ensures out == LoadError || out == LoadKilled ==>
      k.ptbr1 == LoaderTable && k.procs[pid].r1[..] == old(k.procs[pid].r1[..])
    ensures out == LoadError ==> k.freeFrames == old(k.freeFrames)
    ensures out == LoadError && (!exe.Program? || exe.li.entry < VMEM_1_BASE) ==> k.procs == old(k.procs)
    ensures out == LoadError && exe.Program? && exe.li.entry >= VMEM_1_BASE ==>
      k.procs == old(k.procs)[pid := old(k.procs[pid]).(brkAddr := LayoutOf(exe.li, args).brk)]
    ensures out == LoadKilled || out == Loaded ==>
      k.freeFrames == old(k.freeFrames)[Need(LayoutOf(exe.li, args), exe.li.tNpg)..]
    ensures out == LoadKilled || out == LoadCrashed ==>
      var L := LayoutOf(exe.li, args); var p := old(k.procs[pid]);
      k.procs == old(k.procs)[pid := p.(brkAddr := L.brk, uc := p.uc.(sp := L.sp))]
    ensures out == Loaded ==>
      var L := LayoutOf(exe.li, args); var p := old(k.procs[pid]);
      k.ptbr1 == old(k.ptbr1) &&
      k.procs == old(k.procs)[pid := p.(brkAddr := L.brk, uc := p.uc.(sp := L.sp, pc := exe.li.entry),
                                        heapBasePage := L.textPg + exe.li.tNpg)] &&
      (forall i :: 0 <= i < VMEM_1_PAGE_COUNT ==>
        Slot(L, exe.li.tNpg, i) < |old(k.freeFrames)| &&
        k.procs[pid].r1[i] == LoadedEntry(stale[i], L, exe.li.tNpg, old(k.freeFrames), i))
    ensures out == Loaded ==>
      var L := LayoutOf(exe.li, args);
      image == StackImage(L.cpp, [|args|] + Argv(args, L.cp) + [0, 0], L.cp, ArgBytes(args))
  {
    var saved := k.ptbr1;
    k.ptbr1 := LoaderTable;
    image := StackImage(0, [], 0, []);
    if !exe.Program? {
      return LoadError, image;
    }
    var li := exe.li;
    if li.entry < VMEM_1_BASE {
      return LoadError, image;
    }
    var argc, size := CountArgs(args);
    var L := PlanLayout(li, argc, size);
    assert L == LayoutOf(li, args);
    if !HeapStackGap(L) {
      k.procs := k.procs[pid := k.procs[pid].(brkAddr := L.brk)];
      return LoadError, image;
    }
    out, image := LoadImage(k, pid, li, exe.textReads && exe.dataReads, args, stale, L, saved);
  }
}
