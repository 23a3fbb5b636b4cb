/** The loops the system calls and traps run over a page table: giving
    frames back to the free list, taking frames from it for pages, and the
    bookkeeping that shows no frame is lost or made up on the way. */
module PageTables {
  import opened Hardware
  import opened KernelState

  /** The frame an entry holds, as a multiset: empty for an invalid entry. */
  function Held(e: Pte): multiset<int>
  {
    if e.valid then multiset{e.pfn} else multiset{}
  }

  /** The frames accounted for by a free list and a table together. */
  function Pool(free: seq<int>, t: seq<Pte>): multiset<int>
  {
    multiset(free) + multiset(ValidFrames(t))
  }

  /** Growing a table prefix by one entry adds that entry's frame. */
  lemma ValidFramesSnoc(s: seq<Pte>, i: int)
    requires 0 <= i < |s|
    ensures ValidFrames(s[..i + 1]) == ValidFrames(s[..i]) + (if s[i].valid then [s[i].pfn] else [])
  {
    assert s[..i + 1][..i] == s[..i];
  }

  /** Replacing one entry swaps the frame it held for the frame of the new entry. */
  lemma {:induction false} ValidFramesUpdate(s: seq<Pte>, i: int, e: Pte)
    requires 0 <= i < |s|
    ensures multiset(ValidFrames(s[i := e])) + Held(s[i]) == multiset(ValidFrames(s)) + Held(e)
    decreases |s|
  {
    var n := |s| - 1;
    SplitLast(s);
    if i == n {
      UpdateSplitLast(s, e);
      Swap(multiset(ValidFrames(s[..n])), Held(e), Held(s[n]));
    } else {
      UpdateSplitInner(s, i, e);
      ValidFramesUpdate(s[..n], i, e);
      AddBoth(multiset(ValidFrames(s[..n][i := e])), multiset(ValidFrames(s[..n])), Held(s[i]), Held(e),
        multiset(LastFrame(s[n])));
    }
  }

  /** The frames of a table whose last entry is replaced. */
  lemma UpdateSplitLast(s: seq<Pte>, e: Pte)
    requires |s| > 0
    ensures var n := |s| - 1;
      multiset(ValidFrames(s[n := e])) == multiset(ValidFrames(s[..n])) + Held(e) &&
      multiset(LastFrame(s[n])) == Held(s[n])
  {
    var n := |s| - 1;
    SplitLast(s[n := e]);
    assert s[n := e][..n] == s[..n];
  }

  /** The frames of a table with an entry before the last replaced, split
      at its last entry. */
  lemma UpdateSplitInner(s: seq<Pte>, i: int, e: Pte)
    requires 0 <= i < |s| - 1
    ensures var n := |s| - 1;
      multiset(ValidFrames(s[i := e])) == multiset(ValidFrames(s[..n][i := e])) + multiset(LastFrame(s[n])) &&
      s[..n][i] == s[i]
  {
    var n := |s| - 1;
    SplitLast(s[i := e]);
    assert s[i := e][..n] == s[..n][i := e];
  }

  /** The order in which two multisets are added does not matter. */
  lemma Swap(m: multiset<int>, x: multiset<int>, y: multiset<int>)
    ensures m + x + y == m + y + x
  {
  }

  /** ValidFrames of a non-empty table, as a multiset: the prefix's frames and the last one's. */
  lemma SplitLast(s: seq<Pte>)
    requires |s| > 0
    ensures multiset(ValidFrames(s)) == multiset(ValidFrames(s[..|s| - 1])) + multiset(LastFrame(s[|s| - 1]))
  {
  }

  /** Adding the same multiset to both sides of an equation keeps it. */
  lemma AddBoth(a: multiset<int>, b: multiset<int>, x: multiset<int>, y: multiset<int>, l: multiset<int>)
    requires a + x == b + y
    ensures a + l + x == b + l + y
  {
    assert a + l + x == (a + x) + l;
    assert b + l + y == (b + y) + l;
  }

  /** The frame the last entry adds to ValidFrames. */
  function LastFrame(e: Pte): seq<int>
  {
    if e.valid then [e.pfn] else []
  }

  /** Growing a table prefix by one entry counts that entry if it is valid. */
  lemma CountValidSnoc(s: seq<Pte>, i: int)
    requires 0 <= i < |s|
    ensures CountValid(s[..i + 1]) == CountValid(s[..i]) + (if s[i].valid then 1 else 0)
  {
    assert s[..i + 1][..i] == s[..i];
  }

  /** Mapping an invalid entry to the head of the free list moves that frame
      from the list into the table. */
  lemma PoolAfterMap(free: seq<int>, s: seq<Pte>, i: int, e: Pte)
    requires 0 <= i < |s| && !s[i].valid && free != [] && e.valid && e.pfn == free[0]
    ensures Pool(free[1..], s[i := e]) == Pool(free, s)
  {
    var f := free[0];
    var after := multiset(ValidFrames(s[i := e]));
    var before := multiset(ValidFrames(s));
    ValidFramesUpdate(s, i, e);
    assert Held(s[i]) == multiset{} && Held(e) == multiset{f};
    assert after == before + multiset{f};
    assert free == [f] + free[1..];
    assert multiset(free) == multiset{f} + multiset(free[1..]);
  }

  /** Unmapping a valid entry and appending its frame to the free list moves
      that frame from the table into the list. */
  lemma PoolAfterUnmap(free: seq<int>, s: seq<Pte>, i: int)
    requires 0 <= i < |s| && s[i].valid
    ensures Pool(free + [s[i].pfn], s[i := s[i].(valid := false)]) == Pool(free, s)
  {
    var f := s[i].pfn;
    var e := s[i].(valid := false);
    var after := multiset(ValidFrames(s[i := e]));
    var before := multiset(ValidFrames(s));
    ValidFramesUpdate(s, i, e);
    assert Held(s[i]) == multiset{f} && Held(e) == multiset{};
    assert after + multiset{f} == before;
    assert multiset(free + [f]) == multiset(free) + multiset{f};
  }

  /** A table without valid entries holds no frames. */
  lemma {:induction false} ValidFramesNone(s: seq<Pte>)
    requires forall i :: 0 <= i < |s| ==> !s[i].valid
    ensures ValidFrames(s) == []
    decreases |s|
  {
    if s != [] {
      ValidFramesNone(s[..|s| - 1]);
    }
  }

  /** Counting valid entries over a longer prefix never gives less. */
  lemma {:induction false} CountValidPrefix(s: seq<Pte>, i: int, j: int)
    requires 0 <= i <= j <= |s|
    ensures CountValid(s[..i]) <= CountValid(s[..j])
    decreases j - i
  {
    if i < j {
      CountValidPrefix(s, i, j - 1);
      assert s[..j][..j - 1] == s[..j - 1];
    }
  }

  /** The free-frame loop of Exit and Exec: each valid entry becomes invalid,
      its frame goes to the tail of the free list in table order, and its
      pfn is reset to 0. Invalid entries are left as they are. */
  method ReleaseFrames(k: Kernel, t: array<Pte>)
    modifies k`freeFrames, t
    ensures k.freeFrames == old(k.freeFrames) + ValidFrames(old(t[..]))
    ensures forall i :: 0 <= i < t.Length ==>
      !t[i].valid && t[i].prot == old(t[i].prot) && t[i].pfn == (if old(t[i].valid) then 0 else old(t[i].pfn))
    ensures ValidFrames(t[..]) == []
    ensures Pool(k.freeFrames, t[..]) == Pool(old(k.freeFrames), old(t[..]))
  {
    ghost var s := t[..];
    var i := 0;
    while i < t.Length
      invariant 0 <= i <= t.Length
      invariant k.freeFrames == old(k.freeFrames) + ValidFrames(s[..i])
      invariant forall j :: 0 <= j < i ==>
        !t[j].valid && t[j].prot == s[j].prot && t[j].pfn == (if s[j].valid then 0 else s[j].pfn)
      invariant forall j :: i <= j < t.Length ==> t[j] == s[j]
    {
      ValidFramesSnoc(s, i);
      if t[i].valid {
        t[i] := t[i].(valid := false);
        k.freeFrames := k.freeFrames + [PfnToFnum(t[i].pfn)];
        t[i] := t[i].(pfn := 0);
      }
      i := i + 1;
    }
    assert s[..t.Length] == s;
    ValidFramesNone(t[..]);
  }

  /** Fork's kernel-stack loop over a child's copied table: every entry,
      valid or not, pops the head of the free list for its frame. An empty
      free list stops the loop with false, after the frames already taken
      have left the list for good. */
  method AllocEvery(k: Kernel, t: array<Pte>) returns (ok: bool)
    modifies k`freeFrames, t
    ensures forall i :: 0 <= i < t.Length ==> t[i].valid == old(t[i].valid) && t[i].prot == old(t[i].prot)
    ensures ok <==> |old(k.freeFrames)| >= t.Length
    ensures ok ==> k.freeFrames == old(k.freeFrames)[t.Length..]
    ensures ok ==> forall i :: 0 <= i < t.Length ==> t[i].pfn == FnumToPfn(old(k.freeFrames)[i])
    ensures !ok ==> k.freeFrames == []
  {
    var i := 0;
    while i < t.Length
      invariant 0 <= i <= t.Length && i <= |old(k.freeFrames)|
      invariant k.freeFrames == old(k.freeFrames)[i..]
      invariant forall j :: 0 <= j < t.Length ==> t[j].valid == old(t[j].valid) && t[j].prot == old(t[j].prot)
      invariant forall j :: 0 <= j < i ==> t[j].pfn == FnumToPfn(old(k.freeFrames)[j])
    {
      if |k.freeFrames| <= 0 {
        return false;
      }
      var f := k.freeFrames[0];
      k.freeFrames := k.freeFrames[1..];
      t[i] := t[i].(pfn := FnumToPfn(f));
      i := i + 1;
    }
    ok := true;
  }

  /** Fork's region-1 loop over a child's copied table: each valid entry pops
      the head of the free list for its frame, in table order, and each
      invalid entry gets pfn 0. An empty free list stops the loop with false,
      after the frames already taken have left the list for good. */
  method AllocValid(k: Kernel, t: array<Pte>) returns (ok: bool)
    modifies k`freeFrames, t
    ensures forall i :: 0 <= i < t.Length ==> t[i].valid == old(t[i].valid) && t[i].prot == old(t[i].prot)
    ensures ok <==> |old(k.freeFrames)| >= CountValid(old(t[..]))
    ensures ok ==> k.freeFrames == old(k.freeFrames)[CountValid(old(t[..]))..]
    ensures ok ==> forall i :: 0 <= i < t.Length ==>
      CountValid(old(t[..])[..i]) < |old(k.freeFrames)| || !t[i].valid
    ensures ok ==> forall i :: 0 <= i < t.Length ==>
      t[i].pfn == (if t[i].valid then FnumToPfn(old(k.freeFrames)[CountValid(old(t[..])[..i])]) else 0)
    ensures !ok ==> k.freeFrames == []
  {
    ghost var s := t[..];
    var i;
    ok, i := AllocLoop(k, t);
    if ok {
      assert s[..t.Length] == s;
    }
    AllocInvGives(t[..], s, old(k.freeFrames), i);
  }

  /** The loop of AllocValid, stated through its invariant. */
  method AllocLoop(k: Kernel, t: array<Pte>) returns (ok: bool, i: int)
    modifies k`freeFrames, t
    ensures AllocInv(t[..], old(t[..]), old(k.freeFrames), i)
    ensures ok ==> i == t.Length && k.freeFrames == old(k.freeFrames)[CountValid(old(t[..])[..i])..]
    ensures !ok ==> k.freeFrames == [] && |old(k.freeFrames)| < CountValid(old(t[..]))
  {
    ghost var s := t[..];
    ghost var free := k.freeFrames;
    i := 0;
    while i < t.Length
      invariant 0 <= i <= t.Length
      invariant AllocInv(t[..], s, free, i) && k.freeFrames == free[CountValid(s[..i])..]
    {
      var stepped := AllocStep(k, t, s, free, i);
      if !stepped {
        return false, i;
      }
      i := i + 1;
    }
    ok := true;
  }

  /** One iteration of AllocValid's loop, keeping its invariant; it fails
      only on a valid entry with the free list empty. */
  method AllocStep(k: Kernel, t: array<Pte>, ghost s: seq<Pte>, ghost free: seq<int>, i: int) returns (ok: bool)
    requires i < |s| && AllocInv(t[..], s, free, i) && k.freeFrames == free[CountValid(s[..i])..]
    modifies k`freeFrames, t
    ensures ok ==> AllocInv(t[..], s, free, i + 1) && k.freeFrames == free[CountValid(s[..i + 1])..]
    ensures !ok ==> k.freeFrames == [] && |free| < CountValid(s) && AllocInv(t[..], s, free, i)
  {
    CountValidSnoc(s, i);
    ghost var before := t[..];
    if t[i].valid {
      if |k.freeFrames| <= 0 {
        CountValidPrefix(s, i + 1, |s|);
        assert s[..|s|] == s;
        return false;
      }
      var f := k.freeFrames[0];
      k.freeFrames := k.freeFrames[1..];
      t[i] := t[i].(pfn := FnumToPfn(f));
    } else {
      t[i] := t[i].(pfn := 0);
    }
    AllocInvStep(before, s, free, i);
    assert t[..] == before[i := before[i].(pfn := if s[i].valid then FnumToPfn(free[CountValid(s[..i])]) else 0)];
    ok := true;
  }

  /** The invariant of AllocValid after i entries: valid bits and
      protections as in `s`, the first i pfns drawn from `free` in order of
      the valid entries, and the rest untouched. */
  ghost predicate AllocInv(ts: seq<Pte>, s: seq<Pte>, free: seq<int>, i: int)
  {
    |ts| == |s| && 0 <= i <= |s| && CountValid(s[..i]) <= |free| &&
    (forall j :: 0 <= j < |ts| ==> ts[j].valid == s[j].valid && ts[j].prot == s[j].prot) &&
    (forall j :: 0 <= j < i ==> CountValid(s[..j]) < |free| || !s[j].valid) &&
    (forall j :: 0 <= j < i ==>
      ts[j].pfn == (if s[j].valid then FnumToPfn(free[CountValid(s[..j])]) else 0)) &&
    (forall j :: i <= j < |ts| ==> ts[j] == s[j])
  }

  lemma AllocInvStep(ts: seq<Pte>, s: seq<Pte>, free: seq<int>, i: int)
    requires AllocInv(ts, s, free, i) && i < |s|
    requires CountValid(s[..i + 1]) == CountValid(s[..i]) + (if s[i].valid then 1 else 0)
    requires s[i].valid ==> CountValid(s[..i]) < |free|
    ensures AllocInv(ts[i := ts[i].(pfn := if s[i].valid then FnumToPfn(free[CountValid(s[..i])]) else 0)], s, free, i + 1)
  {
  }

  lemma AllocInvGives(ts: seq<Pte>, s: seq<Pte>, free: seq<int>, i: int)
    requires AllocInv(ts, s, free, i)
    ensures forall j :: 0 <= j < |ts| ==> ts[j].valid == s[j].valid && ts[j].prot == s[j].prot
    ensures forall j :: 0 <= j < i ==> CountValid(s[..j]) < |free| || !ts[j].valid
    ensures forall j :: 0 <= j < i ==>
      ts[j].pfn == (if ts[j].valid then FnumToPfn(free[CountValid(s[..j])]) else 0)
  {
  }

  /** The number of invalid entries of s in [lo, hi). */
  function Missing(s: seq<Pte>, lo: int, hi: int): nat
    requires 0 <= lo && hi <= |s|
    decreases hi - lo
  {
    if hi <= lo then 0 else Missing(s, lo, hi - 1) + (if s[hi - 1].valid then 0 else 1)
  }

  lemma {:induction false} MissingMono(s: seq<Pte>, lo: int, i: int, hi: int)
    requires 0 <= lo <= i <= hi <= |s|
    ensures Missing(s, lo, i) <= Missing(s, lo, hi)
    decreases hi - i
  {
    if i < hi {
      MissingMono(s, lo, i, hi - 1);
    }
  }

  /** One step of the mapping loop: an invalid entry takes the head of the
      free list, or the step reports that the list is empty. */
  method MapOne(k: Kernel, t: array<Pte>, i: int) returns (ok: bool)
    requires 0 <= i < t.Length
    modifies k`freeFrames, t
    ensures Pool(k.freeFrames, t[..]) == Pool(old(k.freeFrames), old(t[..]))
    ensures forall j :: 0 <= j < t.Length && j != i ==> t[j] == old(t[j])
    ensures ok <==> old(t[i].valid) || old(k.freeFrames) != []
    ensures old(t[i].valid) ==> t[i] == old(t[i]) && k.freeFrames == old(k.freeFrames)
    ensures !old(t[i].valid) && ok ==> t[i].valid && t[i].prot == PROT_RW && |k.freeFrames| == |old(k.freeFrames)| - 1
    ensures !ok ==> k.freeFrames == [] && t[i] == old(t[i])
  {
    ok := true;
    if !t[i].valid {
      if |k.freeFrames| <= 0 {
        return false;
      }
      var f := k.freeFrames[0];
      var e := Pte(true, PROT_READ + PROT_WRITE, (PMEM_BASE + f * PAGESIZE) / PAGESIZE);
      ghost var before := t[..];
      PoolAfterMap(k.freeFrames, before, i, e);
      k.freeFrames := k.freeFrames[1..];
      t[i] := e;
      assert t[..] == before[i := e];
    }
  }

  /** The mapping loop of Brk and of the memory trap: every invalid entry in
      [lo, hi) becomes valid read-write with the frame popped from the free
      list; valid entries keep theirs. It succeeds exactly when the free
      list holds a frame for every invalid entry; otherwise an empty free
      list stops the loop with false, keeping the pages mapped so far. */
  method MapRange(k: Kernel, t: array<Pte>, lo: int, hi: int) returns (ok: bool)
    requires 0 <= lo <= hi <= t.Length
    modifies k`freeFrames, t
    ensures Pool(k.freeFrames, t[..]) == Pool(old(k.freeFrames), old(t[..]))
    ensures forall i :: 0 <= i < t.Length && !(lo <= i < hi) ==> t[i] == old(t[i])
    ensures forall i :: lo <= i < hi && old(t[i].valid) ==> t[i] == old(t[i])
    ensures forall i :: lo <= i < hi && !old(t[i].valid) && t[i].valid ==> t[i].prot == PROT_RW
    ensures ok <==> |old(k.freeFrames)| >= Missing(old(t[..]), lo, hi)
    ensures ok ==> (forall i :: lo <= i < hi ==> t[i].valid)
    ensures ok ==> |k.freeFrames| == |old(k.freeFrames)| - Missing(old(t[..]), lo, hi)
    ensures !ok ==> k.freeFrames == []
  {
    ghost var s := t[..];
    var i;
    ok, i := MapLoop(k, t, lo, hi);
    MapInvGives(k.freeFrames, t[..], s, old(k.freeFrames), lo, i);
  }

  /** The loop of MapRange, stated through its invariant. */
  method MapLoop(k: Kernel, t: array<Pte>, lo: int, hi: int) returns (ok: bool, i: int)
    requires 0 <= lo <= hi <= t.Length
    modifies k`freeFrames, t
    ensures Pool(k.freeFrames, t[..]) == Pool(old(k.freeFrames), old(t[..]))
    ensures MapInv(k.freeFrames, t[..], old(t[..]), old(k.freeFrames), lo, i) && i <= hi
    ensures ok ==> i == hi
    ensures !ok ==> k.freeFrames == [] && |old(k.freeFrames)| < Missing(old(t[..]), lo, hi)
  {
    ghost var s := t[..];
    i := lo;
    while i < hi
      invariant lo <= i <= hi
      invariant MapInv(k.freeFrames, t[..], s, old(k.freeFrames), lo, i)
      invariant Pool(k.freeFrames, t[..]) == Pool(old(k.freeFrames), s)
    {
      var stepped := MapStep(k, t, s, old(k.freeFrames), lo, i, hi);
      if !stepped {
        return false, i;
      }
      i := i + 1;
    }
    ok := true;
  }

  /** What the mapping-loop invariant says entry by entry. */
  lemma MapInvGives(free: seq<int>, ts: seq<Pte>, s: seq<Pte>, free0: seq<int>, lo: int, i: int)
    requires MapInv(free, ts, s, free0, lo, i)
    ensures |free| + Missing(s, lo, i) == |free0|
    ensures forall j :: 0 <= j < |ts| && !(lo <= j < i) ==> ts[j] == s[j]
    ensures forall j :: lo <= j < i ==> ts[j].valid
    ensures forall j :: lo <= j < i && s[j].valid ==> ts[j] == s[j]
    ensures forall j :: lo <= j < |ts| && !s[j].valid && ts[j].valid ==> ts[j].prot == PROT_RW
  {
  }

  /** The invariant of the mapping loop after the pages [lo, i). */
  ghost predicate MapInv(free: seq<int>, ts: seq<Pte>, s: seq<Pte>, free0: seq<int>, lo: int, i: int)
  {
    |ts| == |s| && 0 <= lo <= i <= |s| &&
    (forall j :: 0 <= j < |ts| && !(lo <= j < i) ==> ts[j] == s[j]) &&
    (forall j :: lo <= j < i ==> ts[j].valid) &&
    (forall j :: lo <= j < i && s[j].valid ==> ts[j] == s[j]) &&
    (forall j :: lo <= j < i && !s[j].valid ==> ts[j].prot == PROT_RW) &&
    |free| + Missing(s, lo, i) == |free0|
  }

  /** One iteration of the mapping loop, keeping its invariant. */
  method MapStep(k: Kernel, t: array<Pte>, ghost s: seq<Pte>, ghost free0: seq<int>, lo: int, i: int, hi: int)
    returns (ok: bool)
    requires i < hi <= |s| && MapInv(k.freeFrames, t[..], s, free0, lo, i)
    modifies k`freeFrames, t
    ensures Pool(k.freeFrames, t[..]) == Pool(old(k.freeFrames), old(t[..]))
    ensures ok ==> MapInv(k.freeFrames, t[..], s, free0, lo, i + 1)
    ensures !ok ==> k.freeFrames == [] && |free0| < Missing(s, lo, hi) && MapInv(k.freeFrames, t[..], s, free0, lo, i)
  {
    assert t[i] == s[i];
    ghost var before := t[..];
    ok := MapOne(k, t, i);
    assert Missing(s, lo, i + 1) == Missing(s, lo, i) + (if s[i].valid then 0 else 1);
    if !ok {
      MissingMono(s, lo, i + 1, hi);
      assert t[..] == before;
    }
  }

  /** The unmapping loop of Brk: every valid entry in [lo, hi) becomes invalid
      and its frame goes to the tail of the free list; its pfn is kept. */
  method UnmapRange(k: Kernel, t: array<Pte>, lo: int, hi: int)
    requires 0 <= lo && hi <= t.Length
    modifies k`freeFrames, t
    ensures Pool(k.freeFrames, t[..]) == Pool(old(k.freeFrames), old(t[..]))
    ensures forall i :: 0 <= i < t.Length && !(lo <= i < hi) ==> t[i] == old(t[i])
    ensures forall i :: lo <= i < hi ==> t[i] == old(t[i]).(valid := false)
  {
    ghost var s := t[..];
    var i := lo;
    while i < hi
      invariant lo <= i && (i <= hi || i == lo)
      invariant Pool(k.freeFrames, t[..]) == Pool(old(k.freeFrames), s)
      invariant UnmapInv(t[..], s, lo, i)
    {
      ghost var before := t[..];
      UnmapOne(k, t, i);
      UnmapInvStep(before, s, lo, i);
      i := i + 1;
    }
    assert UnmapInv(t[..], s, lo, i);
  }

  /** The entries before `lo` and from `i` on are as in `s`, and the ones
      in [lo, i) are invalidated copies. */
  ghost predicate UnmapInv(ts: seq<Pte>, s: seq<Pte>, lo: int, i: int)
  {
    |ts| == |s| && 0 <= lo &&
    (forall j :: 0 <= j < |ts| && !(lo <= j < i) ==> ts[j] == s[j]) &&
    (forall j :: lo <= j < i && j < |ts| ==> ts[j] == s[j].(valid := false))
  }

  lemma UnmapInvStep(ts: seq<Pte>, s: seq<Pte>, lo: int, i: int)
    requires UnmapInv(ts, s, lo, i) && 0 <= lo <= i < |ts|
    ensures UnmapInv(ts[i := ts[i].(valid := false)], s, lo, i + 1)
  {
  }

  /** One step of the unmapping loop on entry i. */
  method UnmapOne(k: Kernel, t: array<Pte>, i: int)
    requires 0 <= i < t.Length
    modifies k`freeFrames, t
    ensures Pool(k.freeFrames, t[..]) == Pool(old(k.freeFrames), old(t[..]))
    ensures t[..] == old(t[..])[i := old(t[i]).(valid := false)]
  {
    if t[i].valid {
      ghost var before := t[..];
      var e := t[i].(valid := false);
      var frame := (t[i].pfn * PAGESIZE) / PAGESIZE;
      assert frame == before[i].pfn;
      PoolAfterUnmap(k.freeFrames, before, i);
      k.freeFrames := k.freeFrames + [frame];
      t[i] := e;
      assert t[..] == before[i := e];
    } else {
      assert t[i] == t[i].(valid := false);
      assert t[..] == t[..][i := t[i].(valid := false)];
    }
  }

  /** A fill loop of the loader: every entry in [lo, hi) becomes valid
      read-write, backed by the next frame popped from the free list, which
      must hold enough frames (the loader pops without checking). */
  method FillRange(k: Kernel, t: array<Pte>, lo: int, hi: int)
    requires 0 <= lo <= hi <= t.Length && |k.freeFrames| >= hi - lo
    modifies k`freeFrames, t
    ensures k.freeFrames == old(k.freeFrames)[hi - lo..]
    ensures forall i :: lo <= i < hi ==> t[i] == Pte(true, PROT_RW, FnumToPfn(old(k.freeFrames)[i - lo]))
    ensures forall i :: 0 <= i < t.Length && !(lo <= i < hi) ==> t[i] == old(t[i])
  {
    var i := lo;
    while i < hi
      invariant lo <= i <= hi
      invariant k.freeFrames == old(k.freeFrames)[i - lo..]
      invariant forall j :: lo <= j < i ==> t[j] == Pte(true, PROT_RW, FnumToPfn(old(k.freeFrames)[j - lo]))
      invariant forall j :: 0 <= j < t.Length && !(lo <= j < i) ==> t[j] == old(t[j])
    {
      var f := k.freeFrames[0];
      k.freeFrames := k.freeFrames[1..];
      t[i] := Pte(true, PROT_READ + PROT_WRITE, (f * PAGESIZE) / PAGESIZE);
      i := i + 1;
    }
  }

  /** memcpy of a page table into another. */
  method CopyTable(src: array<Pte>, dst: array<Pte>)
    requires src.Length == dst.Length && src != dst
    modifies dst
    ensures dst[..] == src[..]
  {
    var i := 0;
    while i < dst.Length
      invariant 0 <= i <= dst.Length
      invariant forall j :: 0 <= j < i ==> dst[j] == src[j]
    {
      dst[i] := src[i];
      i := i + 1;
    }
    assert dst[..] == src[..];
  }
}
