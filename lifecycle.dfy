/** The process-lifecycle system calls: Wait collects an exited child's
    status or blocks, Exit tears the caller down and moves on to a process
    that has run before, and Delay blocks the caller for some clock ticks. */
module Lifecycle {
  import opened Hardware
  import opened LinkedList
  import opened Blocks
  import opened KernelState
  import opened Scheduler
  import opened PageTables

  // ---------------------------------------------------------------------
  // Dead-process records
  // ---------------------------------------------------------------------

  /** What `*(int *) data` reads from a dead_procs record: an exit-status
      cell holds the status; a record abort_current_process filed points at
      the PCB, whose first field is its pid. */
  function StatusOf(r: Ref): int
  {
    match r
    case StatusBox(_, v) => v
    case Proc(p) => p
    case Null => 0
  }

  /** The pid a dead_procs record belongs to; NULL data belongs to nobody. */
  function OwnerOf(r: Ref): Option<int>
  {
    match r
    case StatusBox(o, _) => Some(o)
    case Proc(p) => Some(p)
    case Null => None
  }

  /** Every dead_procs record has non-NULL data belonging to the pid it is
      filed under, as Exit and abort_current_process file them. */
  predicate DeadWellFormed(dead: seq<Node<Ref>>)
  {
    forall i :: 0 <= i < |dead| ==> OwnerOf(dead[i].data) == Some(dead[i].id)
  }

  /** No pid has two records. */
  predicate UniqueIds(dead: seq<Node<Ref>>)
  {
    forall i, j :: 0 <= i < j < |dead| ==> dead[i].id != dead[j].id
  }

  /** The pids that have a record. */
  function IdSet(dead: seq<Node<Ref>>): set<int>
  {
    set i | 0 <= i < |dead| :: dead[i].id
  }

  /** The result of Wait's collection step. */
  datatype Collected = Collected(rc: int, status: Option<int>, exited: seq<Node<Ref>>, dead: seq<Node<Ref>>)

  /** Wait's collection step on a non-empty exited_children list: pop its
      head, look the pid up in dead_procs, read the status through the
      record's data pointer and unlink the record. A missing record or NULL
      data is an ERROR, after the pop has happened. */
  function CollectExited(exited: seq<Node<Ref>>, dead: seq<Node<Ref>>): (c: Collected)
    requires exited != []
    ensures c.exited == exited[1..]
    ensures c.status.None? ==> c.rc == ERROR && c.dead == dead
    ensures c.status.Some? ==> c.rc == exited[0].id && |c.dead| == |dead| - 1
  {
    var pid := exited[0].id;
    match FindId(dead, pid)
    case None => Collected(ERROR, None, exited[1..], dead)
    case Some(n) =>
      if n.data == Null then Collected(ERROR, None, exited[1..], dead)
      else Collected(pid, Some(StatusOf(n.data)), exited[1..], RemoveData(dead, n.data))
  }

  /** Exit's per-child cleanup: the record of `c`, if any, is unlinked. */
  function DropRecord(dead: seq<Node<Ref>>, c: int): seq<Node<Ref>>
  {
    match FindId(dead, c)
    case None => dead
    case Some(n) => RemoveData(dead, n.data)
  }

  /** Exit's loop over its exited_children list, head first. */
  function Discarded(dead: seq<Node<Ref>>, exited: seq<Node<Ref>>): seq<Node<Ref>>
    decreases |exited|
  {
    if exited == [] then dead else Discarded(DropRecord(dead, exited[0].id), exited[1..])
  }

  /** In a well-formed dead list, unlinking a found record by its data
      pointer removes exactly the record found by id. */
  lemma RemoveFoundRecord(dead: seq<Node<Ref>>, c: int)
    requires DeadWellFormed(dead) && FindId(dead, c).Some?
    ensures var i := IndexOfId(dead, c);
      RemoveData(dead, FindId(dead, c).value.data) == dead[..i] + dead[i + 1..]
  {
    var ki := IndexOfId(dead, c);
    var n := dead[ki];
    var kd := IndexOfData(dead, n.data);
    assert kd != -1 && kd <= ki by {
      assert dead[ki].data == n.data;
    }
    assert dead[kd].id == c by {
      assert OwnerOf(dead[kd].data) == Some(dead[kd].id);
      assert OwnerOf(dead[ki].data) == Some(c);
    }
    assert ki <= kd;
  }

  /** Dropping a record keeps the list well formed and unique, and takes
      exactly `c` out of the recorded pids. */
  lemma DropRecordIds(dead: seq<Node<Ref>>, c: int)
    requires DeadWellFormed(dead) && UniqueIds(dead)
    ensures var r := DropRecord(dead, c);
      DeadWellFormed(r) && UniqueIds(r) && IdSet(r) == IdSet(dead) - {c}
  {
    if FindId(dead, c).None? {
      AbsentId(dead, c);
      assert DropRecord(dead, c) == dead;
    } else {
      var i := IndexOfId(dead, c);
      RemoveFoundRecord(dead, c);
      assert DropRecord(dead, c) == dead[..i] + dead[i + 1..];
      CutKeepsShape(dead, i);
      CutIdSet(dead, i);
    }
  }

  /** A pid that find_by_id does not find is not recorded. */
  lemma AbsentId(dead: seq<Node<Ref>>, c: int)
    requires FindId(dead, c).None?
    ensures c !in IdSet(dead)
  {
  }

  /** Cutting one record out of a well-formed list of unique records keeps
      both properties. */
  lemma CutKeepsShape(dead: seq<Node<Ref>>, i: int)
    requires DeadWellFormed(dead) && UniqueIds(dead) && 0 <= i < |dead|
    ensures DeadWellFormed(dead[..i] + dead[i + 1..]) && UniqueIds(dead[..i] + dead[i + 1..])
  {
    var r := dead[..i] + dead[i + 1..];
    RemovedShift(dead, i, r);
    forall j | 0 <= j < |r| ensures OwnerOf(r[j].data) == Some(r[j].id) {
      if j < i { assert r[j] == dead[j]; } else { assert r[j] == dead[j + 1]; }
    }
    forall a, b | 0 <= a < b < |r| ensures r[a].id != r[b].id {
      var a' := if a < i then a else a + 1;
      var b' := if b < i then b else b + 1;
      assert r[a] == dead[a'] && r[b] == dead[b'];
    }
  }

  /** Cutting the record at index i out of a list of unique records removes
      exactly its pid from the recorded pids. */
  lemma CutIdSet(dead: seq<Node<Ref>>, i: int)
    requires UniqueIds(dead) && 0 <= i < |dead|
    ensures IdSet(dead[..i] + dead[i + 1..]) == IdSet(dead) - {dead[i].id}
  {
    var r := dead[..i] + dead[i + 1..];
    var c := dead[i].id;
    RemovedShift(dead, i, r);
    forall x | x in IdSet(r) ensures x in IdSet(dead) - {c} {
      var j :| 0 <= j < |r| && r[j].id == x;
      var j' := if j < i then j else j + 1;
      assert r[j] == dead[j'] && j' != i;
    }
    forall x | x in IdSet(dead) - {c} ensures x in IdSet(r) {
      var j :| 0 <= j < |dead| && dead[j].id == x;
      assert j != i;
      var j' := if j < i then j else j - 1;
      assert r[j'] == dead[j];
    }
  }

  /** After Exit's cleanup no discarded child has a record left, and every
      other record survives. */
  lemma {:induction false} DiscardedIds(dead: seq<Node<Ref>>, exited: seq<Node<Ref>>)
    requires DeadWellFormed(dead) && UniqueIds(dead)
    ensures var r := Discarded(dead, exited);
      DeadWellFormed(r) && UniqueIds(r) &&
      IdSet(r) == IdSet(dead) - (set i | 0 <= i < |exited| :: exited[i].id)
    decreases |exited|
  {
    if exited != [] {
      var d := DropRecord(dead, exited[0].id);
      DropRecordIds(dead, exited[0].id);
      DiscardedIds(d, exited[1..]);
      var all := set i | 0 <= i < |exited| :: exited[i].id;
      var rest := set i | 0 <= i < |exited[1..]| :: exited[1..][i].id;
      assert all == {exited[0].id} + rest by {
        forall x | x in all ensures x in {exited[0].id} + rest {
          var i :| 0 <= i < |exited| && exited[i].id == x;
          if i > 0 { assert exited[1..][i - 1].id == x; }
        }
      }
    }
  }

  /** Wait after Exit: a child whose exit is at the head of the parent's
      exited_children list is collected with exactly the status it passed
      to Exit, and its record leaves dead_procs. */
  lemma WaitSeesExitStatus(rest: seq<Node<Ref>>, dead: seq<Node<Ref>>, c: int, status: int)
    requires DeadWellFormed(dead) && FindId(dead, c).None?
    ensures CollectExited([Node(c, Null)] + rest, Append(dead, StatusBox(c, status), c)) ==
      Collected(c, Some(status), rest, dead)
  {
    var d := Append(dead, StatusBox(c, status), c);
    FindIdAfterAppend(dead, StatusBox(c, status), c, c);
    forall j | 0 <= j < |dead| ensures d[j].data != StatusBox(c, status) {
      assert d[j] == dead[j];
      assert OwnerOf(dead[j].data) == Some(dead[j].id);
    }
    assert d[|dead|].data == StatusBox(c, status);
    assert IndexOfData(d, StatusBox(c, status)) == |dead|;
    assert d[..|dead|] == dead;
    assert ([Node(c, Null)] + rest)[1..] == rest;
  }

  /** Children are collected in the order they exited: Exit appends to the
      tail of exited_children and Wait collects from its head. */
  lemma CollectInExitOrder(exited: seq<Node<Ref>>, dead: seq<Node<Ref>>, c: int)
    requires exited != []
    ensures var a := CollectExited(Append(exited, Null, c), dead);
      var b := CollectExited(exited, dead);
      a.rc == b.rc && a.status == b.status && a.dead == b.dead &&
      a.exited == Append(b.exited, Null, c)
  {
    var e := Append(exited, Null, c);
    assert e[0] == exited[0];
    assert e[1..] == exited[1..] + [Node(c, Null)];
  }

  // ---------------------------------------------------------------------
  // Wait
  // ---------------------------------------------------------------------

  /** How a Wait ends. */
  datatype WaitOutcome =
    | WaitFailed                     // the call returns ERROR
    | Reaped(pid: int, status: int)  // the call returns the child's pid and stores its status
    | WaitBlocked                    // the caller is blocked and the next ready process runs
    | WaitHalted                     // exit(ERROR): there is nothing to switch to
    | WaitCrashed                    // resumed with a NULL exited_children list

  /** The three ways Wait goes, decided by the caller's family lists. */
  datatype WaitPath = NoChild | CollectNow | BlockFirst

  function WaitPathOf(children: Option<seq<Node<Ref>>>, exited: Option<seq<Node<Ref>>>): WaitPath
  {
    if children.None? then NoChild
    else if exited.None? then (if |children.value| <= 0 then NoChild else BlockFirst)
    else if |children.value| <= 0 && |exited.value| <= 0 then NoChild
    else if |exited.value| > 0 then CollectNow
    else BlockFirst
  }

  /** Wait's decision in closed form: ERROR exactly when the process never
      had children or has neither live nor exited ones; it collects at once
      exactly when an exited child is waiting. */
  lemma WaitPathCases(children: Option<seq<Node<Ref>>>, exited: Option<seq<Node<Ref>>>)
    ensures WaitPathOf(children, exited) == NoChild <==>
      children.None? || (children.value == [] && (exited.None? || exited.value == []))
    ensures WaitPathOf(children, exited) == CollectNow <==>
      children.Some? && exited.Some? && exited.value != []
    ensures WaitPathOf(children, exited) == BlockFirst <==>
      children.Some? && children.value != [] && (exited.None? || exited.value == [])
  {
  }

  /** The collection step on the current process, shared by both halves of Wait. */
  method Reap(k: Kernel) returns (out: WaitOutcome)
    requires k.HasCurrent()
    requires k.procs[k.curr].exited.Some? && k.procs[k.curr].exited.value != []
    modifies k`procs, k`dead
    ensures k.HasCurrent()
    ensures var p := old(k.procs[k.curr]);
      var c := CollectExited(p.exited.value, old(k.dead));
      k.dead == c.dead && k.procs == old(k.procs)[k.curr := p.(exited := Some(c.exited))] &&
      out == (if c.status.Some? then Reaped(c.rc, c.status.value) else WaitFailed)
  {
    var p := k.procs[k.curr];
    var exited := p.exited.value;
    var pid := exited[0].id;
    k.procs := k.procs[k.curr := p.(exited := Some(exited[1..]))];
    var found := FindId(k.dead, pid);
    if found.None? {
      return WaitFailed;
    }
    var data := found.value.data;
    if data == Null {
      return WaitFailed;
    }
    k.dead := RemoveData(k.dead, data);
    out := Reaped(pid, StatusOf(data));
  }

  /** Yalnix_Wait up to the switch: ERROR without children, an immediate
      collection when an exited child is waiting, and otherwise a WAIT block
      on the caller, which joins blocked_procs while the next ready process
      runs. */
  method Wait(k: Kernel) returns (out: WaitOutcome)
    requires k.HasCurrent()
    modifies k`procs, k`dead, k`blocked, k`ready, k`curr, k.procs[k.curr].block
    ensures k.Valid()
    ensures var p := old(k.procs[k.curr]);
      WaitPathOf(p.children, p.exited) == NoChild ==>
        out == WaitFailed && k.procs == old(k.procs) && k.dead == old(k.dead) &&
        k.blocked == old(k.blocked) && k.ready == old(k.ready) && k.curr == old(k.curr) &&
        p.block.State() == old(p.block.State())
    ensures var p := old(k.procs[k.curr]);
      WaitPathOf(p.children, p.exited) == CollectNow ==>
        var c := CollectExited(p.exited.value, old(k.dead));
        k.dead == c.dead && k.procs == old(k.procs)[old(k.curr) := p.(exited := Some(c.exited))] &&
        out == (if c.status.Some? then Reaped(c.rc, c.status.value) else WaitFailed) &&
        k.blocked == old(k.blocked) && k.ready == old(k.ready) && k.curr == old(k.curr) &&
        p.block.State() == old(p.block.State())
    ensures var p := old(k.procs[k.curr]);
      WaitPathOf(p.children, p.exited) == BlockFirst ==>
        p.block.State() == BlockState(BLOCK_ACTIVE, WAIT_BLOCK, 0, old(k.curr)) &&
        k.blocked == Append(old(k.blocked), Proc(old(k.curr)), old(k.curr)) &&
        k.procs == old(k.procs) && k.dead == old(k.dead) &&
        (out == WaitBlocked <==> old(k.ready) != [] && old(k.ready)[0].data.Proc?) &&
        (out == WaitBlocked ==> k.curr == old(k.ready)[0].data.pid && k.ready == old(k.ready)[1..]) &&
        (out != WaitBlocked ==> out == WaitHalted && k.curr == old(k.curr) && k.ready == old(k.ready))
  {
    var p := k.procs[k.curr];
    var path := WaitPathOf(p.children, p.exited);
    if path == NoChild {
      return WaitFailed;
    }
    if path == CollectNow {
      out := Reap(k);
      return;
    }
    p.block.Clear();
    p.block.active := BLOCK_ACTIVE;
    p.block.kind := WAIT_BLOCK;
    p.block.obj := k.curr;
    k.blocked := Append(k.blocked, Proc(k.curr), k.curr);
    if |k.ready| <= 0 {
      return WaitHalted;
    }
    var ok := SwitchToNext(k, false);
    out := if ok then WaitBlocked else WaitHalted;
  }

  /** The second half of Yalnix_Wait, run when the blocked caller is
      scheduled again: it collects the head of its exited_children list. */
  method WaitResume(k: Kernel) returns (out: WaitOutcome)
    requires k.HasCurrent()
    modifies k`procs, k`dead
    ensures k.Valid()
    ensures var p := old(k.procs[k.curr]);
      (p.exited.None? ==> out == WaitCrashed && k.procs == old(k.procs) && k.dead == old(k.dead)) &&
      (p.exited == Some([]) ==> out == WaitFailed && k.procs == old(k.procs) && k.dead == old(k.dead)) &&
      (p.exited.Some? && p.exited.value != [] ==>
        var c := CollectExited(p.exited.value, old(k.dead));
        k.dead == c.dead && k.procs == old(k.procs)[k.curr := p.(exited := Some(c.exited))] &&
        out == (if c.status.Some? then Reaped(c.rc, c.status.value) else WaitFailed))
  {
    var p := k.procs[k.curr];
    if p.exited.None? {
      // count_items dereferences the NULL list.
      return WaitCrashed;
    }
    if |p.exited.value| <= 0 {
      return WaitFailed;
    }
    out := Reap(k);
  }

  // ---------------------------------------------------------------------
  // Exit
  // ---------------------------------------------------------------------

  /** The pids of the PCBs a children list points at. */
  function ChildPids(children: seq<Node<Ref>>): set<int>
  {
    set i | 0 <= i < |children| && children[i].data.Proc? :: children[i].data.pid
  }

  /** A NULL family list read as an empty one. */
  function ListOrEmpty(l: Option<seq<Node<Ref>>>): seq<Node<Ref>>
  {
    if l.Some? then l.value else []
  }

  /** The record `now` differs from `was` at most in its family fields. */
  predicate SameButFamily(now: Pcb, was: Pcb)
  {
    now == was.(parent := now.parent, children := now.children, exited := now.exited)
  }

  /** The PCBs after Exit's first loop: every live child has lost its parent. */
  function Orphaned(procs: map<int, Pcb>, children: seq<Node<Ref>>): map<int, Pcb>
  {
    map q | q in procs :: if q in ChildPids(children) then procs[q].(parent := None) else procs[q]
  }

  /** The parent's children list is NULL, so remove_from_list dereferences NULL. */
  predicate ParentListMissing(procs: map<int, Pcb>, parent: Option<int>)
  {
    parent.Some? && parent.value in procs && procs[parent.value].children.None?
  }

  /** The PCBs after Exit has told the parent: `pid` leaves the parent's
      children and joins the tail of its exited_children, created if NULL. A
      parent that is no longer a PCB would be written through a dangling
      pointer; the model leaves the map alone then. */
  function Reported(procs: map<int, Pcb>, pid: int, parent: Option<int>): map<int, Pcb>
    requires !ParentListMissing(procs, parent)
  {
    if parent.Some? && parent.value in procs then
      var pp := procs[parent.value];
      procs[parent.value := pp.(
        children := Some(RemoveData(pp.children.value, Proc(pid))),
        exited := Some(Append(ListOrEmpty(pp.exited), Null, pid)))]
    else procs
  }

  lemma OrphanedSnoc(procs: map<int, Pcb>, children: seq<Node<Ref>>, n: Node<Ref>)
    ensures Orphaned(procs, children + [n]) ==
      if n.data.Proc? && n.data.pid in procs
      then Orphaned(procs, children)[n.data.pid := procs[n.data.pid].(parent := None)]
      else Orphaned(procs, children)
  {
    var c := children + [n];
    assert ChildPids(c) == ChildPids(children) + (if n.data.Proc? then {n.data.pid} else {}) by {
      assert forall j :: 0 <= j < |children| ==> c[j] == children[j];
      assert c[|children|] == n;
    }
  }

  /** What Exit's bookkeeping does to the PCBs: the same pids; only family
      fields change; the listed children are orphaned and nobody else's
      parent changes; only the parent's lists change, as Reported says. */
  lemma ExitFamilyFacts(procs: map<int, Pcb>, pid: int, children: seq<Node<Ref>>, parent: Option<int>)
    requires !ParentListMissing(procs, parent)
    ensures var r := Reported(Orphaned(procs, children), pid, parent);
      r.Keys == procs.Keys &&
      (forall q :: q in r ==> SameButFamily(r[q], procs[q])) &&
      (forall q :: q in r ==> (r[q].parent == if q in ChildPids(children) then None else procs[q].parent)) &&
      (forall q :: q in r && Some(q) != parent ==>
        r[q].children == procs[q].children && r[q].exited == procs[q].exited) &&
      (parent.Some? && parent.value in procs ==>
        r[parent.value].children == Some(RemoveData(procs[parent.value].children.value, Proc(pid))) &&
        r[parent.value].exited == Some(Append(ListOrEmpty(procs[parent.value].exited), Null, pid)))
  {
  }

  /** Orphaning leaves the family lists alone, so it cannot change whether
      the parent's children list is NULL. */
  lemma OrphanedKeepsLists(procs: map<int, Pcb>, children: seq<Node<Ref>>, parent: Option<int>)
    ensures Orphaned(procs, children).Keys == procs.Keys
    ensures ParentListMissing(Orphaned(procs, children), parent) <==> ParentListMissing(procs, parent)
  {
  }

  /** Exit's first loop: every live child loses its parent pointer. */
  method Orphan(k: Kernel, children: seq<Node<Ref>>)
    requires k.Valid()
    modifies k`procs
    ensures k.Valid() && k.procs == Orphaned(old(k.procs), children)
  {
    ghost var procs0 := k.procs;
    assert Orphaned(procs0, children[..0]) == procs0 by {
      assert ChildPids(children[..0]) == {};
    }
    var i := 0;
    while i < |children|
      invariant 0 <= i <= |children|
      invariant k.Valid() && k.procs == Orphaned(procs0, children[..i])
    {
      var d := children[i].data;
      OrphanedSnoc(procs0, children[..i], children[i]);
      assert children[..i + 1] == children[..i] + [children[i]];
      if d.Proc? && d.pid in k.procs {
        // A child that is no longer a PCB would be written through a dangling pointer.
        k.procs := k.procs[d.pid := k.procs[d.pid].(parent := None)];
      }
      i := i + 1;
    }
    assert children[..i] == children;
  }

  /** Exit's second loop: the records of the exited children are discarded. */
  method DiscardExited(k: Kernel, exited: seq<Node<Ref>>)
    modifies k`dead
    ensures k.dead == Discarded(old(k.dead), exited)
  {
    var i := 0;
    while i < |exited|
      invariant 0 <= i <= |exited|
      invariant Discarded(k.dead, exited[i..]) == Discarded(old(k.dead), exited)
    {
      assert exited[i..][1..] == exited[i + 1..];
      var found := FindId(k.dead, exited[i].id);
      if found.Some? {
        k.dead := RemoveData(k.dead, found.value.data);
      }
      i := i + 1;
    }
  }

  /** Exit's update of the parent's lists; `ok` is false when the parent's
      children list is NULL. */
  method ReportToParent(k: Kernel, pid: int, parent: Option<int>) returns (ok: bool)
    requires k.Valid()
    modifies k`procs
    ensures k.Valid()
    ensures ok <==> !ParentListMissing(old(k.procs), parent)
    ensures ok ==> k.procs == Reported(old(k.procs), pid, parent)
    ensures !ok ==> k.procs == old(k.procs)
  {
    if parent.Some? && parent.value in k.procs {
      var pp := k.procs[parent.value];
      if pp.children.None? {
        return false;
      }
      k.procs := k.procs[parent.value := pp.(
        children := Some(RemoveData(pp.children.value, Proc(pid))),
        exited := Some(Append(ListOrEmpty(pp.exited), Null, pid)))];
    }
    ok := true;
  }

  /** Exit's bookkeeping before the frames go: orphan the children, drop the
      exited children's records, tell the parent, and move the caller from
      all_procs to dead_procs with its status. */
  method ExitFamily(k: Kernel, status: int) returns (ok: bool)
    requires k.HasCurrent()
    modifies k`procs, k`dead, k`allProcs
    ensures k.HasCurrent()
    ensures var p := old(k.procs[k.curr]);
      (ok <==> !ParentListMissing(old(k.procs), p.parent)) &&
      (ok ==>
        k.procs == Reported(Orphaned(old(k.procs), ListOrEmpty(p.children)), k.curr, p.parent) &&
        k.dead == Append(Discarded(old(k.dead), ListOrEmpty(p.exited)), StatusBox(k.curr, status), k.curr) &&
        k.allProcs == RemoveData(old(k.allProcs), Proc(k.curr)))
  {
    var pid := k.curr;
    var p := k.procs[pid];
    ghost var procs0 := k.procs;
    if p.children.Some? {
      Orphan(k, p.children.value);
    }
    assert k.procs == Orphaned(procs0, ListOrEmpty(p.children)) by {
      if p.children.None? {
        assert ChildPids([]) == {};
      }
    }
    if p.exited.Some? {
      DiscardExited(k, p.exited.value);
    }
    OrphanedKeepsLists(procs0, ListOrEmpty(p.children), p.parent);
    var reported := ReportToParent(k, pid, p.parent);
    if !reported {
      return false;
    }
    k.allProcs := RemoveData(k.allProcs, Proc(pid));
    k.dead := Append(k.dead, StatusBox(pid, status), pid);
    ok := true;
  }

  /** A ready process Exit may resume: a live PCB whose kernel context was
      saved. The source reads `kc_set` through whatever the node points at;
      a node whose PCB has been freed is treated here as not runnable, which
      is a choice of the model, not what the source does. */
  predicate Runnable(procs: map<int, Pcb>, r: Ref)
  {
    r.Proc? && r.pid in procs && procs[r.pid].kcSet
  }

  /** The index of the first runnable process of the queue, or -1. */
  function FirstRunnable(procs: map<int, Pcb>, q: seq<Node<Ref>>): (j: int)
    ensures -1 <= j < |q|
    ensures j >= 0 ==> Runnable(procs, q[j].data) && forall i :: 0 <= i < j ==> !Runnable(procs, q[i].data)
    ensures j == -1 ==> forall i :: 0 <= i < |q| ==> !Runnable(procs, q[i].data)
  {
    if q == [] then -1
    else if Runnable(procs, q[0].data) then 0
    else
      var j := FirstRunnable(procs, q[1..]);
      if j == -1 then -1 else j + 1
  }

  /** Two PCB maps with the same pids and the same kc_set flags agree on
      which process Exit picks. */
  lemma {:induction false} RunnableSameFlags(a: map<int, Pcb>, b: map<int, Pcb>, q: seq<Node<Ref>>)
    requires a.Keys == b.Keys && forall x :: x in a ==> a[x].kcSet == b[x].kcSet
    ensures FirstRunnable(a, q) == FirstRunnable(b, q)
  {
    if q != [] {
      RunnableSameFlags(a, b, q[1..]);
    }
  }

  /** Exit's bookkeeping changes no kc_set flag, so the process it picks is
      the one the PCBs before the exit, less the caller's, would give. */
  lemma TeardownKeepsFlags(procs: map<int, Pcb>, pid: int, children: seq<Node<Ref>>, parent: Option<int>,
                           q: seq<Node<Ref>>)
    requires !ParentListMissing(procs, parent)
    ensures FirstRunnable(Reported(Orphaned(procs, children), pid, parent) - {pid}, q) ==
      FirstRunnable(procs - {pid}, q)
  {
    ExitFamilyFacts(procs, pid, children, parent);
    var r := Reported(Orphaned(procs, children), pid, parent);
    forall x | x in r - {pid} ensures (r - {pid})[x].kcSet == (procs - {pid})[x].kcSet {
      assert SameButFamily(r[x], procs[x]);
    }
    RunnableSameFlags(r - {pid}, procs - {pid}, q);
  }

  /** The ready queue after Exit's search stopped at index `j`: the skipped
      processes went back to the tail in their order. */
  function Rotated(q: seq<Node<Ref>>, j: int): seq<Node<Ref>>
    requires 0 <= j < |q|
  {
    q[j + 1..] + q[..j]
  }

  /** The search loses no process but the one it picked. */
  lemma RotatedPermutes(q: seq<Node<Ref>>, j: int)
    requires 0 <= j < |q|
    ensures multiset(Rotated(q, j)) + multiset{q[j]} == multiset(q)
    ensures |Rotated(q, j)| == |q| - 1
  {
    assert q == q[..j] + [q[j]] + q[j + 1..];
  }

  /** How an Exit ends. */
  datatype ExitOutcome =
    | ExitHalted               // exit(SUCCESS): init exits with nothing ready
    | ExitCrashed              // a NULL list is dereferenced
    | ExitSpins                // no ready process ever ran: the search never ends
    | ExitSwitched(next: int)  // the context switch goes to `next`

  /** Exit's search of the ready queue for a process whose kernel context
      was saved; the ones passed over go back to the tail, and the one found
      becomes the current process. The source loops for ever when there is
      none; the model stops after one full round. */
  method PickNext(k: Kernel) returns (out: ExitOutcome)
    modifies k`ready, k`curr
    ensures old(k.ready) == [] ==> out == ExitCrashed && k.ready == []
    ensures var j := FirstRunnable(k.procs, old(k.ready));
      old(k.ready) != [] ==>
        (j >= 0 ==> (out == ExitSwitched(old(k.ready)[j].data.pid) && k.curr == out.next &&
          k.ready == Rotated(old(k.ready), j))) &&
        (j == -1 ==> out == ExitSpins && k.ready == old(k.ready))
  {
    if |k.ready| == 0 {
      // pop returns NULL and its data field is read.
      return ExitCrashed;
    }
    // The queue is popped and pushed in place; `rest` is its contents.
    var q := k.ready;
    var n := 0;
    var node := q[0];
    var rest := q[1..];
    while !Runnable(k.procs, node.data)
      invariant 0 <= n < |q| && node == q[n]
      invariant rest == q[n + 1..] + q[..n]
      invariant forall i :: 0 <= i < n ==> !Runnable(k.procs, q[i].data)
      decreases |q| - n
    {
      rest := rest + [node];
      RotateStep(q, n);
      if n + 1 == |q| {
        k.ready := rest;
        assert FirstRunnable(k.procs, q) == -1;
        return ExitSpins;
      }
      node := rest[0];
      rest := rest[1..];
      n := n + 1;
    }
    k.ready := rest;
    FirstRunnableIs(k.procs, q, n);
    out := ExitSwitched(node.data.pid);
    k.curr := node.data.pid;
  }

  /** Moving the head of the rotated queue to its tail rotates it one further. */
  lemma RotateStep(q: seq<Node<Ref>>, n: int)
    requires 0 <= n < |q|
    ensures q[n + 1..] + q[..n] + [q[n]] == q[n + 1..] + q[..n + 1]
    ensures n + 1 == |q| ==> q[n + 1..] + q[..n + 1] == q
    ensures n + 1 < |q| ==>
      ((q[n + 1..] + q[..n + 1])[0] == q[n + 1] && (q[n + 1..] + q[..n + 1])[1..] == q[n + 2..] + q[..n + 1])
  {
    assert q[..n] + [q[n]] == q[..n + 1];
    if n + 1 < |q| {
      assert q[n + 1..] == [q[n + 1]] + q[n + 2..];
    }
  }

  /** The first runnable entry is the one before which none is runnable. */
  lemma FirstRunnableIs(procs: map<int, Pcb>, q: seq<Node<Ref>>, n: int)
    requires 0 <= n < |q| && Runnable(procs, q[n].data)
    requires forall i :: 0 <= i < n ==> !Runnable(procs, q[i].data)
    ensures FirstRunnable(procs, q) == n
  {
  }

  /** Exit's two frame loops: the kernel-stack table, then the region-1 table. */
  method ReleaseBoth(k: Kernel, r0: array<Pte>, r1: array<Pte>)
    requires r0 != r1
    modifies k`freeFrames, r0, r1
    ensures k.freeFrames == old(k.freeFrames) + ValidFrames(old(r0[..])) + ValidFrames(old(r1[..]))
    ensures ValidFrames(r0[..]) == [] && ValidFrames(r1[..]) == []
  {
    ReleaseFrames(k, r0);
    ReleaseFrames(k, r1);
  }

  /** Everything Exit does to the caller before it picks the next process:
      the bookkeeping, the frames of both tables, and freeing the PCB. */
  method Teardown(k: Kernel, status: int) returns (ok: bool)
    requires k.HasCurrent()
    modifies k`procs, k`dead, k`allProcs, k`freeFrames
    modifies k.procs[k.curr].r0, k.procs[k.curr].r1
    ensures k.Valid()
    ensures var p := old(k.procs[k.curr]);
      (ok <==> !ParentListMissing(old(k.procs), p.parent)) &&
      (ok ==>
        k.procs == Reported(Orphaned(old(k.procs), ListOrEmpty(p.children)), k.curr, p.parent) - {k.curr} &&
        k.dead == Append(Discarded(old(k.dead), ListOrEmpty(p.exited)), StatusBox(k.curr, status), k.curr) &&
        k.allProcs == RemoveData(old(k.allProcs), Proc(k.curr)) &&
        k.freeFrames == old(k.freeFrames) + ValidFrames(old(p.r0[..])) + ValidFrames(old(p.r1[..])) &&
        ValidFrames(p.r0[..]) == [] && ValidFrames(p.r1[..]) == [])
  {
    var pid := k.curr;
    var p := k.procs[pid];
    ok := ExitFamily(k, status);
    if !ok {
      return;
    }
    ReleaseBoth(k, p.r0, p.r1);
    k.procs := k.procs - {pid};
  }

  /** Yalnix_Exit: init with nothing ready halts the machine; otherwise the
      caller's family bookkeeping is done, its status is filed in dead_procs,
      every frame of its kernel stack and region 1 goes back to the free
      list, its PCB is freed, and the first ready process that has run
      before is resumed. */
  method Exit(k: Kernel, status: int) returns (out: ExitOutcome)
    requires k.HasCurrent()
    modifies k`procs, k`dead, k`allProcs, k`freeFrames, k`ready, k`curr
    modifies k.procs[k.curr].r0, k.procs[k.curr].r1
    ensures k.Valid()
    ensures out == ExitHalted <==> old(k.curr) == 0 && old(k.ready) == []
    ensures out == ExitHalted ==> k.procs == old(k.procs) && k.freeFrames == old(k.freeFrames) && k.ready == old(k.ready)
    ensures var p := old(k.procs[k.curr]);
      out == ExitCrashed <==>
        !(old(k.curr) == 0 && old(k.ready) == []) &&
        (ParentListMissing(old(k.procs), p.parent) || old(k.ready) == [])
    ensures var p := old(k.procs[k.curr]);
      out != ExitHalted && !ParentListMissing(old(k.procs), p.parent) ==>
        k.procs == Reported(Orphaned(old(k.procs), ListOrEmpty(p.children)), old(k.curr), p.parent) - {old(k.curr)} &&
        k.dead == Append(Discarded(old(k.dead), ListOrEmpty(p.exited)), StatusBox(old(k.curr), status), old(k.curr)) &&
        k.allProcs == RemoveData(old(k.allProcs), Proc(old(k.curr))) &&
        k.freeFrames == old(k.freeFrames) + ValidFrames(old(p.r0[..])) + ValidFrames(old(p.r1[..])) &&
        ValidFrames(p.r0[..]) == [] && ValidFrames(p.r1[..]) == []
    ensures var p := old(k.procs[k.curr]);
      var j := FirstRunnable(old(k.procs) - {old(k.curr)}, old(k.ready));
      out != ExitHalted && !ParentListMissing(old(k.procs), p.parent) && old(k.ready) != [] ==>
        (j >= 0 ==> (out == ExitSwitched(old(k.ready)[j].data.pid) && k.curr == out.next &&
          k.ready == Rotated(old(k.ready), j))) &&
        (j == -1 ==> out == ExitSpins && k.ready == old(k.ready))
  {
    var pid := k.curr;
    var p := k.procs[pid];
    if pid == 0 && |k.ready| <= 0 {
      return ExitHalted;
    }
    ghost var procs0 := k.procs;
    var ok := Teardown(k, status);
    if !ok {
      return ExitCrashed;
    }
    TeardownKeepsFlags(procs0, pid, ListOrEmpty(p.children), p.parent, k.ready);
    out := PickNext(k);
  }

  // ---------------------------------------------------------------------
  // Delay
  // ---------------------------------------------------------------------

  /** Yalnix_Delay: a negative count is an ERROR and zero returns at once;
      otherwise the caller's block becomes an active DELAY block holding the
      count, the caller joins blocked_procs and the next ready process runs.
      With nothing ready the kernel exits (`halted`). A failed switch is
      still reported as SUCCESS. */
  method Delay(k: Kernel, ticks: int) returns (rc: int, halted: bool)
    requires k.HasCurrent()
    modifies k`blocked, k`ready, k`curr, k.procs[k.curr].block
    ensures var b := old(k.procs[k.curr].block);
      ticks <= 0 ==>
        rc == (if ticks < 0 then ERROR else SUCCESS) && !halted &&
        k.blocked == old(k.blocked) && k.ready == old(k.ready) && k.curr == old(k.curr) &&
        b.State() == old(b.State())
    ensures var b := old(k.procs[k.curr].block);
      ticks > 0 ==>
        b.State() == old(b.State()).(active := BLOCK_ACTIVE, kind := DELAY_BLOCK, count := ticks) &&
        k.blocked == Append(old(k.blocked), Proc(old(k.curr)), old(k.curr)) &&
        (halted <==> old(k.ready) == []) &&
        (!halted ==> rc == SUCCESS) &&
        (!halted && old(k.ready)[0].data.Proc? ==> k.curr == old(k.ready)[0].data.pid && k.ready == old(k.ready)[1..]) &&
        (!halted && !old(k.ready)[0].data.Proc? ==> k.curr == old(k.curr) && k.ready == old(k.ready))
  {
    halted := false;
    if ticks < 0 {
      return ERROR, false;
    }
    if ticks == 0 {
      return SUCCESS, false;
    }
    var b := k.procs[k.curr].block;
    b.active := BLOCK_ACTIVE;
    b.kind := DELAY_BLOCK;
    b.count := ticks;
    k.blocked := Append(k.blocked, Proc(k.curr), k.curr);
    if |k.ready| <= 0 {
      return ERROR, true;
    }
    var ok := SwitchToNext(k, false);
    rc := SUCCESS;
  }
}
