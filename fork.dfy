/** Yalnix_Fork: the child gets a copy of the parent's user context, page
    tables and memory. Fresh frames back the child's kernel stack and every
    valid region-1 page, and the contents are copied frame to frame through
    a staging page just below the kernel stack. */
module Forking {
  import opened Hardware
  import opened LinkedList
  import opened KernelState
  import opened ProcessControl
  import opened PageTables
  import opened Lifecycle

  // ---------------------------------------------------------------------
  // Frame-to-frame copies
  // ---------------------------------------------------------------------

  /** One page copy: the bytes of frame `src` are written over frame `dst`. */
  datatype Copy = Copy(dst: int, src: int)

  /** The bytes a frame holds; a frame the model knows nothing about reads as empty. */
  function Bytes(mem: map<int, seq<bv8>>, f: int): seq<bv8>
  {
    if f in mem then mem[f] else []
  }

  /** Physical memory after the copies of `plan`, made in order. */
  function Apply(mem: map<int, seq<bv8>>, plan: seq<Copy>): map<int, seq<bv8>>
    decreases |plan|
  {
    if plan == [] then mem
    else
      var m := Apply(mem, plan[..|plan| - 1]);
      m[plan[|plan| - 1].dst := Bytes(m, plan[|plan| - 1].src)]
  }

  /** The frames a plan writes. */
  function Dsts(plan: seq<Copy>): set<int>
  {
    set i | 0 <= i < |plan| :: plan[i].dst
  }

  /** A frame no copy writes keeps its bytes. */
  lemma {:induction false} ApplyElsewhere(mem: map<int, seq<bv8>>, plan: seq<Copy>, f: int)
    requires f !in Dsts(plan)
    ensures Bytes(Apply(mem, plan), f) == Bytes(mem, f)
    decreases |plan|
  {
    if plan != [] {
      var init := plan[..|plan| - 1];
      forall i | 0 <= i < |init| ensures init[i].dst != f {
        assert init[i] == plan[i];
      }
      ApplyElsewhere(mem, init, f);
    }
  }

  /** When no two copies write the same frame and no copy writes a frame
      that some copy reads, every destination ends up holding the original
      bytes of its source. */
  lemma {:induction false} ApplyLands(mem: map<int, seq<bv8>>, plan: seq<Copy>)
    requires forall i, j :: 0 <= i < j < |plan| ==> plan[i].dst != plan[j].dst
    requires forall i, j :: 0 <= i < |plan| && 0 <= j < |plan| ==> plan[i].dst != plan[j].src
    ensures forall j :: 0 <= j < |plan| ==> Bytes(Apply(mem, plan), plan[j].dst) == Bytes(mem, plan[j].src)
    decreases |plan|
  {
    if plan != [] {
      var n := |plan| - 1;
      var init := plan[..n];
      ApplyLands(mem, init);
      forall j | 0 <= j < |plan| ensures Bytes(Apply(mem, plan), plan[j].dst) == Bytes(mem, plan[j].src) {
        if j < n {
          assert init[j] == plan[j];
        } else {
          forall i | 0 <= i < |init| ensures init[i].dst != plan[n].src {
            assert init[i] == plan[i];
          }
          ApplyElsewhere(mem, init, plan[n].src);
        }
      }
    }
  }

  lemma ApplySnoc(mem: map<int, seq<bv8>>, plan: seq<Copy>, c: Copy)
    ensures Apply(mem, plan + [c]) == Apply(mem, plan)[c.dst := Bytes(Apply(mem, plan), c.src)]
  {
    assert (plan + [c])[..|plan|] == plan;
  }

  /** The kernel-stack copies: child page i from the frame now under kernel-stack page i. */
  function KsPlan(c0: seq<Pte>, r0: seq<Pte>): (plan: seq<Copy>)
    requires |c0| == KS_NPG && |r0| == VMEM_0_PAGE_COUNT
    ensures |plan| == KS_NPG
    ensures forall i :: 0 <= i < KS_NPG ==> plan[i] == Copy(c0[i].pfn, r0[KS_BASE_PAGE + i].pfn)
  {
    seq(KS_NPG, i requires 0 <= i < KS_NPG => Copy(c0[i].pfn, r0[KS_BASE_PAGE + i].pfn))
  }

  /** The region-1 copies: each valid page of the child, in page order, from
      the frame the parent's table maps there. */
  function R1Plan(c1: seq<Pte>, p1: seq<Pte>): (plan: seq<Copy>)
    requires |c1| == |p1|
    ensures |plan| == CountValid(c1)
  {
    if c1 == [] then []
    else
      var n := |c1| - 1;
      R1Plan(c1[..n], p1[..n]) + (if c1[n].valid then [Copy(c1[n].pfn, p1[n].pfn)] else [])
  }

  /** Every copy R1Plan makes is from a valid parent page to the child's page of the same number. */
  lemma {:induction false} R1PlanPairs(c1: seq<Pte>, p1: seq<Pte>, j: int)
    requires |c1| == |p1| && 0 <= j < |R1Plan(c1, p1)|
    ensures exists i :: 0 <= i < |c1| && c1[i].valid && R1Plan(c1, p1)[j] == Copy(c1[i].pfn, p1[i].pfn)
  {
    var n := |c1| - 1;
    var init := R1Plan(c1[..n], p1[..n]);
    if j < |init| {
      R1PlanPairs(c1[..n], p1[..n], j);
      var i :| 0 <= i < n && c1[..n][i].valid && init[j] == Copy(c1[..n][i].pfn, p1[..n][i].pfn);
      assert c1[i] == c1[..n][i] && p1[i] == p1[..n][i];
    } else {
      assert c1[n].valid && R1Plan(c1, p1)[j] == Copy(c1[n].pfn, p1[n].pfn);
    }
  }

  /** The copy of a valid child page is the one at its rank among the valid pages. */
  lemma {:induction false} R1PlanAt(c1: seq<Pte>, p1: seq<Pte>, i: int)
    requires |c1| == |p1| && 0 <= i < |c1| && c1[i].valid
    ensures CountValid(c1[..i]) < |R1Plan(c1, p1)|
    ensures R1Plan(c1, p1)[CountValid(c1[..i])] == Copy(c1[i].pfn, p1[i].pfn)
    decreases |c1|
  {
    var n := |c1| - 1;
    assert c1[..n][..i] == c1[..i];
    if i < n {
      R1PlanAt(c1[..n], p1[..n], i);
      assert c1[..n][i] == c1[i] && p1[..n][i] == p1[i];
    }
  }

  /** When every valid child page holds the free frame at its rank, counted
      from `base`, the j-th region-1 copy writes free frame base + j. */
  lemma {:induction false} R1PlanDst(c1: seq<Pte>, p1: seq<Pte>, free: seq<int>, base: nat, j: int)
    requires |c1| == |p1| && base + CountValid(c1) <= |free| && 0 <= j < |R1Plan(c1, p1)|
    requires forall i :: 0 <= i < |c1| && c1[i].valid ==>
      base + CountValid(c1[..i]) < |free| && c1[i].pfn == free[base + CountValid(c1[..i])]
    ensures base + j < |free| && R1Plan(c1, p1)[j].dst == free[base + j]
    decreases |c1|
  {
    var n := |c1| - 1;
    var init := R1Plan(c1[..n], p1[..n]);
    assert R1Plan(c1, p1) == init + (if c1[n].valid then [Copy(c1[n].pfn, p1[n].pfn)] else []);
    if j < |init| {
      forall i | 0 <= i < n && c1[..n][i].valid
        ensures base + CountValid(c1[..n][..i]) < |free| && c1[..n][i].pfn == free[base + CountValid(c1[..n][..i])]
      {
        assert c1[..n][..i] == c1[..i] && c1[..n][i] == c1[i];
      }
      R1PlanDst(c1[..n], p1[..n], free, base, j);
    } else {
      assert c1[n].valid && j == CountValid(c1[..n]);
    }
  }

  /** Two tables with the same valid bits count the same valid entries. */
  lemma {:induction false} CountValidSame(a: seq<Pte>, b: seq<Pte>)
    requires |a| == |b| && forall i :: 0 <= i < |a| ==> a[i].valid == b[i].valid
    ensures CountValid(a) == CountValid(b)
    decreases |a|
  {
    if a != [] {
      var n := |a| - 1;
      CountValidSame(a[..n], b[..n]);
    }
  }

  /** The first `need` free frames are distinct, and none of them is a frame
      Fork copies from: the kernel-stack frames of region 0 or a frame the
      parent's region-1 table maps. */
  predicate FreshForCopy(free: seq<int>, need: int, r0: seq<Pte>, p1: seq<Pte>)
    requires |r0| == VMEM_0_PAGE_COUNT
  {
    need <= |free| &&
    (forall a, b :: 0 <= a < b < need ==> free[a] != free[b]) &&
    (forall a, i :: 0 <= a < need && KS_BASE_PAGE <= i < KS_BASE_PAGE + KS_NPG ==> free[a] != r0[i].pfn) &&
    (forall a, i :: 0 <= a < need && 0 <= i < |p1| && p1[i].valid ==> free[a] != p1[i].pfn)
  }

  /** Fork's copies land: when the child's frames are the fresh frames that
      ForkFrames hands out, every child kernel-stack frame ends with the bytes
      of the kernel-stack page it mirrors, and every valid child region-1
      frame with the bytes of the parent's page of the same number. */
  lemma ForkCopiesLand(mem: map<int, seq<bv8>>, free: seq<int>, r0: seq<Pte>,
                       c0: seq<Pte>, c1: seq<Pte>, p1: seq<Pte>)
    requires |r0| == VMEM_0_PAGE_COUNT && |c0| == KS_NPG && |c1| == |p1|
    requires forall i :: 0 <= i < |c1| ==> c1[i].valid == p1[i].valid
    requires FreshForCopy(free, KS_NPG + CountValid(p1), r0, p1)
    requires forall i :: 0 <= i < KS_NPG ==> c0[i].pfn == free[i]
    requires forall i :: 0 <= i < |c1| && c1[i].valid ==>
      KS_NPG + CountValid(p1[..i]) < |free| && c1[i].pfn == free[KS_NPG + CountValid(p1[..i])]
    ensures var m := Apply(mem, KsPlan(c0, r0) + R1Plan(c1, p1));
      (forall i :: 0 <= i < KS_NPG ==> Bytes(m, c0[i].pfn) == Bytes(mem, r0[KS_BASE_PAGE + i].pfn)) &&
      (forall i :: 0 <= i < |c1| && c1[i].valid ==> Bytes(m, c1[i].pfn) == Bytes(mem, p1[i].pfn))
  {
    var ks := KsPlan(c0, r0);
    var r1 := R1Plan(c1, p1);
    var plan := ks + r1;
    CountValidSame(c1, p1);
    forall i | 0 <= i <= |c1| ensures CountValid(c1[..i]) == CountValid(p1[..i]) {
      CountValidSame(c1[..i], p1[..i]);
    }
    var need := KS_NPG + CountValid(p1);
    assert |plan| == need;
    forall j | 0 <= j < |plan| ensures plan[j].dst == free[j] {
      if j >= KS_NPG {
        assert plan[j] == r1[j - KS_NPG];
        R1PlanDst(c1, p1, free, KS_NPG, j - KS_NPG);
      }
    }
    forall a, b | 0 <= a < b < |plan| ensures plan[a].dst != plan[b].dst {
    }
    forall a, b | 0 <= a < |plan| && 0 <= b < |plan| ensures plan[a].dst != plan[b].src {
      if b < KS_NPG {
        assert plan[b].src == r0[KS_BASE_PAGE + b].pfn;
      } else {
        assert plan[b] == r1[b - KS_NPG];
        R1PlanPairs(c1, p1, b - KS_NPG);
      }
    }
    ApplyLands(mem, plan);
    forall i | 0 <= i < |c1| && c1[i].valid
      ensures Bytes(Apply(mem, plan), c1[i].pfn) == Bytes(mem, p1[i].pfn)
    {
      R1PlanAt(c1, p1, i);
      assert plan[KS_NPG + CountValid(c1[..i])] == r1[CountValid(c1[..i])];
    }
  }

  /** The page of region 0 just below the kernel stack, borrowed for the copies. */
  const STAGING_PAGE: nat := KS_BASE_PAGE - 1

  /** Fork's copy loops: the staging page is pointed at each of the child's
      frames in turn and the parent's page is copied into it; afterwards the
      staging entry gets its old valid bit and pfn back. Region-1 pages are
      read through the parent's table, the one in use while it runs. */
  method StageCopies(k: Kernel, c0: array<Pte>, c1: array<Pte>, p1: array<Pte>)
    requires k.Valid() && c0.Length == KS_NPG && c1.Length == p1.Length
    requires c1 != k.r0table && p1 != k.r0table
    modifies k`mem, k.r0table
    ensures k.r0table[..] == old(k.r0table[..])
    ensures k.mem == Apply(old(k.mem), KsPlan(c0[..], old(k.r0table[..])) + R1Plan(c1[..], p1[..]))
  {
    ghost var r0 := k.r0table[..];
    var dest := STAGING_PAGE;
    var savedValid := k.r0table[dest].valid;
    var savedPfn := k.r0table[dest].pfn;
    k.r0table[dest] := k.r0table[dest].(valid := true);
    ghost var mem0 := k.mem;
    ghost var ks := KsPlan(c0[..], r0);
    CopyKernelStack(k, c0, r0);
    CopyRegion1(k, c1, p1, r0, mem0, ks);
    k.r0table[dest] := k.r0table[dest].(valid := savedValid, pfn := savedPfn);
    assert k.r0table[..] == r0;
  }

  /** The kernel-stack loop: child page i is copied from the frame under
      kernel-stack page i through the staging entry. */
  method CopyKernelStack(k: Kernel, c0: array<Pte>, ghost r0: seq<Pte>)
    requires k.r0table.Length == VMEM_0_PAGE_COUNT && c0.Length == KS_NPG && |r0| == VMEM_0_PAGE_COUNT
    requires forall j :: 0 <= j < k.r0table.Length && j != STAGING_PAGE ==> k.r0table[j] == r0[j]
    requires k.r0table[STAGING_PAGE].prot == r0[STAGING_PAGE].prot
    requires c0 != k.r0table
    modifies k`mem, k.r0table
    ensures forall j :: 0 <= j < k.r0table.Length && j != STAGING_PAGE ==> k.r0table[j] == r0[j]
    ensures k.r0table[STAGING_PAGE].prot == r0[STAGING_PAGE].prot
    ensures k.mem == Apply(old(k.mem), KsPlan(c0[..], r0))
  {
    ghost var mem0 := k.mem;
    ghost var ks := KsPlan(c0[..], r0);
    var dest := STAGING_PAGE;
    assert ks[..0] == [];
    var i := 0;
    while i < KS_NPG
      invariant 0 <= i <= KS_NPG
      invariant forall j :: 0 <= j < k.r0table.Length && j != dest ==> k.r0table[j] == r0[j]
      invariant k.r0table[dest].prot == r0[dest].prot
      invariant k.mem == Apply(mem0, ks[..i])
    {
      k.r0table[dest] := k.r0table[dest].(pfn := c0[i].pfn);
      var to := k.r0table[dest].pfn;
      var from := k.r0table[KS_BASE_PAGE + i].pfn;
      ApplySnoc(mem0, ks[..i], ks[i]);
      assert ks[..i + 1] == ks[..i] + [ks[i]];
      k.mem := k.mem[to := Bytes(k.mem, from)];
      i := i + 1;
    }
    assert ks[..KS_NPG] == ks;
  }

  /** The region-1 loop: each valid child page is copied from the parent's
      page through the staging entry, after the copies in `ks`. */
  method CopyRegion1(k: Kernel, c1: array<Pte>, p1: array<Pte>, ghost r0: seq<Pte>,
                     ghost mem0: map<int, seq<bv8>>, ghost ks: seq<Copy>)
    requires k.r0table.Length == VMEM_0_PAGE_COUNT && |r0| == VMEM_0_PAGE_COUNT && c1.Length == p1.Length
    requires c1 != k.r0table && p1 != k.r0table
    requires forall j :: 0 <= j < k.r0table.Length && j != STAGING_PAGE ==> k.r0table[j] == r0[j]
    requires k.r0table[STAGING_PAGE].prot == r0[STAGING_PAGE].prot
    requires k.mem == Apply(mem0, ks)
    modifies k`mem, k.r0table
    ensures forall j :: 0 <= j < k.r0table.Length && j != STAGING_PAGE ==> k.r0table[j] == r0[j]
    ensures k.r0table[STAGING_PAGE].prot == r0[STAGING_PAGE].prot
    ensures k.mem == Apply(mem0, ks + R1Plan(c1[..], p1[..]))
  {
    var dest := STAGING_PAGE;
    assert c1[..0] == [] && p1[..0] == [] && ks + [] == ks;
    var i := 0;
    while i < c1.Length
      invariant 0 <= i <= c1.Length
      invariant forall j :: 0 <= j < k.r0table.Length && j != dest ==> k.r0table[j] == r0[j]
      invariant k.r0table[dest].prot == r0[dest].prot
      invariant k.mem == Apply(mem0, ks + R1Plan(c1[..i], p1[..i]))
    {
      assert c1[..i + 1][..i] == c1[..i] && p1[..i + 1][..i] == p1[..i];
      if c1[i].valid {
        k.r0table[dest] := k.r0table[dest].(pfn := c1[i].pfn);
        var to := k.r0table[dest].pfn;
        var from := p1[i].pfn;
        ApplySnoc(mem0, ks + R1Plan(c1[..i], p1[..i]), Copy(c1[i].pfn, p1[i].pfn));
        assert ks + R1Plan(c1[..i + 1], p1[..i + 1]) == ks + R1Plan(c1[..i], p1[..i]) + [Copy(c1[i].pfn, p1[i].pfn)];
        k.mem := k.mem[to := Bytes(k.mem, from)];
      } else {
        assert R1Plan(c1[..i + 1], p1[..i + 1]) == R1Plan(c1[..i], p1[..i]);
      }
      i := i + 1;
    }
    assert c1[..c1.Length] == c1[..] && p1[..p1.Length] == p1[..];
  }

  // ---------------------------------------------------------------------
  // Fork
  // ---------------------------------------------------------------------

  /** Fork's first phase: the parent's saved context becomes `uc`, and a new
      PCB gets that context, the parent's heap bounds and copies of both of
      its page tables. */
  method ForkShell(k: Kernel, uc: UserContext) returns (child: Pcb)
    requires k.HasCurrent()
    modifies k`procs, k`availablePid
    ensures k.HasCurrent()
    ensures k.procs == old(k.procs)[k.curr := old(k.procs[k.curr]).(uc := uc)]
    ensures child.pid == old(k.availablePid) && k.availablePid == child.pid + 1 && child.pid !in k.procs
    ensures fresh(child.r0) && fresh(child.r1) && fresh(child.block)
    ensures child.r0.Length == KS_NPG && child.r1.Length == VMEM_1_PAGE_COUNT
    ensures child.r0[..] == old(k.procs[k.curr].r0[..]) && child.r1[..] == old(k.procs[k.curr].r1[..])
    ensures child.uc == uc && child.heapBasePage == old(k.procs[k.curr].heapBasePage) &&
      child.brkAddr == old(k.procs[k.curr].brkAddr)
    ensures child.children.None? && child.exited.None? && child.parent.None? && !child.kcSet
  {
    var p := k.procs[k.curr].(uc := uc);
    k.procs := k.procs[k.curr := p];
    child := NewProcess(k, p.uc);
    child := child.(uc := p.uc, heapBasePage := p.heapBasePage, brkAddr := p.brkAddr);
    CopyTable(p.r0, child.r0);
    CopyTable(p.r1, child.r1);
  }

  /** Fork's frame loops: a frame for each kernel-stack page, then one for
      each valid region-1 page, popped from the head of the free list. */
  method ForkFrames(k: Kernel, r0: array<Pte>, r1: array<Pte>, ghost p1: seq<Pte>) returns (ok: bool)
    requires r0 != r1 && r0.Length == KS_NPG && r1[..] == p1
    modifies k`freeFrames, r0, r1
    ensures var free := old(k.freeFrames); var need := KS_NPG + CountValid(p1);
      (ok <==> |free| >= need) &&
      (!ok ==> k.freeFrames == []) &&
      (ok ==> k.freeFrames == free[need..]) &&
      (ok ==> forall i :: 0 <= i < KS_NPG ==> r0[i] == old(r0[i]).(pfn := FnumToPfn(free[i]))) &&
      (ok ==> forall i :: 0 <= i < r1.Length ==>
        r1[i].valid == p1[i].valid && r1[i].prot == p1[i].prot &&
        (p1[i].valid ==> (KS_NPG + CountValid(p1[..i]) < |free| &&
          r1[i].pfn == FnumToPfn(free[KS_NPG + CountValid(p1[..i])]))) &&
        (!p1[i].valid ==> r1[i].pfn == 0))
  {
    ok := AllocEvery(k, r0);
    if !ok {
      return;
    }
    ok := AllocValid(k, r1);
  }

  /** Fork's copy loops, made once the frames are in place. When the frames
      the child was given are fresh, the bytes land: each child kernel-stack
      frame holds what the kernel-stack page it mirrors held, and each valid
      child region-1 frame what the parent's page of the same number held. */
  method CopyAndLand(k: Kernel, c0: array<Pte>, c1: array<Pte>, p1: array<Pte>, ghost free: seq<int>)
    requires k.Valid() && c0.Length == KS_NPG && c1.Length == p1.Length && KS_NPG <= |free|
    requires c1 != k.r0table && p1 != k.r0table
    requires forall i :: 0 <= i < KS_NPG ==> c0[i].pfn == FnumToPfn(free[i])
    requires forall i :: 0 <= i < c1.Length ==>
      c1[i].valid == p1[i].valid &&
      (p1[i].valid ==> (KS_NPG + CountValid(p1[..][..i]) < |free| &&
        c1[i].pfn == FnumToPfn(free[KS_NPG + CountValid(p1[..][..i])])))
    modifies k`mem, k.r0table
    ensures k.r0table[..] == old(k.r0table[..])
    ensures k.mem == Apply(old(k.mem), KsPlan(c0[..], old(k.r0table[..])) + R1Plan(c1[..], p1[..]))
    ensures FreshForCopy(free, KS_NPG + CountValid(p1[..]), old(k.r0table[..]), p1[..]) ==>
      (forall i :: 0 <= i < KS_NPG ==> Bytes(k.mem, c0[i].pfn) == Bytes(old(k.mem), old(k.r0table[KS_BASE_PAGE + i].pfn))) &&
      (forall i :: 0 <= i < c1.Length && c1[i].valid ==> Bytes(k.mem, c1[i].pfn) == Bytes(old(k.mem), p1[i].pfn))
  {
    ghost var mem0 := k.mem;
    ghost var r0 := k.r0table[..];
    StageCopies(k, c0, c1, p1);
    if FreshForCopy(free, KS_NPG + CountValid(p1[..]), r0, p1[..]) {
      ForkCopiesLand(mem0, free, r0, c0[..], c1[..], p1[..]);
    }
  }

  /** Fork's bookkeeping: the child records its parent and is added to the
      tail of the parent's children (created if NULL) and of all_procs, the
      parent joins the ready queue, and the child becomes the current process. */
  method Adopt(k: Kernel, child: Pcb)
    requires k.HasCurrent() && child.pid !in k.procs && 0 <= child.pid < k.availablePid
    requires child.r0.Length == KS_NPG && child.r1.Length == VMEM_1_PAGE_COUNT && child.r0 != child.r1
    requires child.r0 != k.r0table && child.r0 != k.r1table && child.r1 != k.r0table && child.r1 != k.r1table
    modifies k`procs, k`allProcs, k`ready, k`curr
    ensures k.HasCurrent() && k.curr == child.pid
    ensures var p := old(k.procs[k.curr]);
      k.procs == old(k.procs)[old(k.curr) := p.(children := Some(Append(ListOrEmpty(p.children), Proc(child.pid), child.pid)))]
        [child.pid := child.(parent := Some(old(k.curr)))]
    ensures k.allProcs == Append(old(k.allProcs), Proc(child.pid), child.pid)
    ensures k.ready == Append(old(k.ready), Proc(old(k.curr)), old(k.curr))
  {
    var parent := k.curr;
    var p := k.procs[parent];
    var c := child.(parent := Some(parent));
    var children := if p.children.None? then [] else p.children.value;
    p := p.(children := Some(Append(children, Proc(c.pid), c.pid)));
    k.procs := k.procs[parent := p];
    k.allProcs := Append(k.allProcs, Proc(c.pid), c.pid);
    k.ready := Append(k.ready, Proc(parent), parent);
    k.procs := k.procs[c.pid := c];
    k.curr := c.pid;
  }

  /** Fork up to the switch: the child's PCB, its frames and its copies.
      `ok` is false exactly when the free list ran out. */
  method ForkChild(k: Kernel, uc: UserContext) returns (ok: bool, child: Pcb)
    requires k.HasCurrent()
    modifies k`procs, k`availablePid, k`freeFrames, k`mem, k.r0table
    ensures k.HasCurrent() && k.curr == old(k.curr)
    ensures var p := old(k.procs[k.curr]); k.procs == old(k.procs)[k.curr := p.(uc := uc)]
    ensures child.pid == old(k.availablePid) && k.availablePid == child.pid + 1 && child.pid !in k.procs
    ensures fresh(child.r0) && fresh(child.r1) && Shaped(child)
    ensures var p := old(k.procs[k.curr]);
      child.uc == uc && child.heapBasePage == p.heapBasePage && child.brkAddr == p.brkAddr &&
      child.children.None? && child.exited.None? && child.parent.None? && !child.kcSet
    ensures var p := old(k.procs[k.curr]); var free := old(k.freeFrames); var need := KS_NPG + CountValid(old(p.r1[..]));
      (ok <==> |free| >= need) &&
      (!ok ==> k.freeFrames == [] && k.mem == old(k.mem)) &&
      (ok ==> k.freeFrames == free[need..]) &&
      (ok ==> forall i :: 0 <= i < KS_NPG ==> child.r0[i] == old(p.r0[i]).(pfn := FnumToPfn(free[i]))) &&
      (ok ==> forall i :: 0 <= i < VMEM_1_PAGE_COUNT ==>
        child.r1[i].valid == old(p.r1[i].valid) && child.r1[i].prot == old(p.r1[i].prot) &&
        (old(p.r1[i].valid) ==> (KS_NPG + CountValid(old(p.r1[..])[..i]) < |free| &&
          child.r1[i].pfn == FnumToPfn(free[KS_NPG + CountValid(old(p.r1[..])[..i])]))) &&
        (!old(p.r1[i].valid) ==> child.r1[i].pfn == 0))
    ensures var p := old(k.procs[k.curr]);
      ok ==> (k.mem == Apply(old(k.mem), KsPlan(child.r0[..], old(k.r0table[..])) + R1Plan(child.r1[..], old(p.r1[..]))) &&
        k.r0table[..] == old(k.r0table[..]))
    ensures var p := old(k.procs[k.curr]);
      ok && FreshForCopy(old(k.freeFrames), KS_NPG + CountValid(old(p.r1[..])), old(k.r0table[..]), old(p.r1[..])) ==>
        (forall i :: 0 <= i < KS_NPG ==> Bytes(k.mem, child.r0[i].pfn) == Bytes(old(k.mem), old(k.r0table[KS_BASE_PAGE + i].pfn))) &&
        (forall i :: 0 <= i < VMEM_1_PAGE_COUNT && child.r1[i].valid ==> Bytes(k.mem, child.r1[i].pfn) == Bytes(old(k.mem), old(p.r1[i].pfn)))
  {
    ghost var free := k.freeFrames;
    var parent := k.curr;
    var p1 := k.procs[parent].r1;
    child := ForkShell(k, uc);
    assert k.procs[parent].r1 == p1;
    ok := ForkFrames(k, child.r0, child.r1, p1[..]);
    if ok {
      CopyAndLand(k, child.r0, child.r1, p1, free);
    }
  }

  /** How a Fork ends: ERROR to the parent, or the switch to the child. The
      parent's call later returns the child's pid and the child's returns 0. */
  datatype ForkOutcome = ForkFailed | Forked(child: int)

  /** Yalnix_Fork. It fails exactly when the free list holds fewer frames
      than the child's kernel stack and the parent's valid region-1 pages
      need; the frames taken by then stay off the list and the pid is spent. */
  method Fork(k: Kernel, uc: UserContext) returns (out: ForkOutcome)
    requires k.HasCurrent()
    modifies k`procs, k`availablePid, k`freeFrames, k`mem, k`allProcs, k`ready, k`curr, k.r0table
    ensures k.Valid() && k.availablePid == old(k.availablePid) + 1
    ensures var p := old(k.procs[k.curr]);
      out == ForkFailed <==> |old(k.freeFrames)| < KS_NPG + CountValid(old(p.r1[..]))
    ensures out == ForkFailed ==>
      k.procs == old(k.procs)[old(k.curr) := old(k.procs[k.curr]).(uc := uc)] &&
      k.freeFrames == [] && k.curr == old(k.curr) && k.ready == old(k.ready) &&
      k.allProcs == old(k.allProcs) && k.mem == old(k.mem)
    ensures var p := old(k.procs[k.curr]); var free := old(k.freeFrames);
      out.Forked? ==>
        var c := out.child;
        c == old(k.availablePid) && k.curr == c && c in k.procs &&
        k.procs == old(k.procs)[old(k.curr) := p.(uc := uc, children := Some(Append(ListOrEmpty(p.children), Proc(c), c)))]
          [c := k.procs[c]] &&
        var ch := k.procs[c];
        ch.pid == c && ch.uc == uc && ch.parent == Some(old(k.curr)) &&
        ch.heapBasePage == p.heapBasePage && ch.brkAddr == p.brkAddr &&
        ch.children.None? && ch.exited.None? && !ch.kcSet &&
        fresh(ch.r0) && fresh(ch.r1) &&
        (forall i :: 0 <= i < KS_NPG ==> ch.r0[i] == old(p.r0[i]).(pfn := FnumToPfn(free[i]))) &&
        (forall i :: 0 <= i < VMEM_1_PAGE_COUNT ==>
          ch.r1[i].valid == old(p.r1[i].valid) && ch.r1[i].prot == old(p.r1[i].prot) &&
          (old(p.r1[i].valid) ==> (KS_NPG + CountValid(old(p.r1[..])[..i]) < |free| &&
            ch.r1[i].pfn == FnumToPfn(free[KS_NPG + CountValid(old(p.r1[..])[..i])]))) &&
          (!old(p.r1[i].valid) ==> ch.r1[i].pfn == 0)) &&
        k.freeFrames == free[KS_NPG + CountValid(old(p.r1[..]))..] &&
        k.allProcs == Append(old(k.allProcs), Proc(c), c) &&
        k.ready == Append(old(k.ready), Proc(old(k.curr)), old(k.curr)) &&
        k.mem == Apply(old(k.mem), KsPlan(ch.r0[..], old(k.r0table[..])) + R1Plan(ch.r1[..], old(p.r1[..]))) &&
        k.r0table[..] == old(k.r0table[..])
    ensures var p := old(k.procs[k.curr]);
      out.Forked? && FreshForCopy(old(k.freeFrames), KS_NPG + CountValid(old(p.r1[..])), old(k.r0table[..]), old(p.r1[..])) ==>
        var ch := k.procs[out.child];
        (forall i :: 0 <= i < KS_NPG ==> Bytes(k.mem, ch.r0[i].pfn) == Bytes(old(k.mem), old(k.r0table[KS_BASE_PAGE + i].pfn))) &&
        (forall i :: 0 <= i < VMEM_1_PAGE_COUNT && ch.r1[i].valid ==> Bytes(k.mem, ch.r1[i].pfn) == Bytes(old(k.mem), old(p.r1[i].pfn)))
  {
    var ok, child := ForkChild(k, uc);
    if !ok {
      return ForkFailed;
    }
    Adopt(k, child);
    out := Forked(child.pid);
  }
}
