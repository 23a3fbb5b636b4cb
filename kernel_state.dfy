/** The kernel's global state: the frame list, the page tables of region 0
    and region 1, the process queues, the PCB records and the resources.
    A PCB record lives in `procs` under its pid; the lists hold nodes whose
    data says what their void* points at. */
module KernelState {
  import opened Hardware
  import opened LinkedList
  import opened Blocks

  /** What a list node's data pointer points at: nothing, a PCB, or a
      kernel-heap cell holding an exit status (one per exiting pid). */
  datatype Ref = Null | Proc(pid: int) | StatusBox(owner: int, value: int)

  /** The saved UserContext of a process. */
  datatype UserContext = UserContext(vector: int, code: int, addr: int, pc: int, sp: int, regs: seq<int>)

  /** The fields of PCB_t used by the kernel. `r0` is the kernel-stack table
      (KS_NPG entries), `r1` the region-1 table; a NULL children or
      exited_children list is None. */
  datatype Pcb = Pcb(
    pid: int,
    uc: UserContext,
    r0: array<Pte>,
    r1: array<Pte>,
    children: Option<seq<Node<Ref>>>,
    exited: Option<seq<Node<Ref>>>,
    parent: Option<int>,
    block: Block,
    kcSet: bool,
    brkAddr: int,
    heapBasePage: int,
    delayTicks: int)

  /** LOCK_t and the condition-variable record. */
  datatype Lock = Lock(id: int, claimed: bool, owner: int, waiters: seq<Node<Ref>>)
  datatype Cvar = Cvar(id: int, waiters: seq<Node<Ref>>)

  /** Which table the region-1 base register points at. */
  datatype Ptbr = BootTable | ProcTable(pid: int) | LoaderTable

  /** The node a PCB is queued under: its pid as id, the PCB as data. */
  function ProcNode(pid: int): Node<Ref>
  {
    Node(pid, Proc(pid))
  }

  class Kernel {
    var vmEnabled: bool
    var kernelDataStart: int
    var kernelDataEnd: int
    var kernelBrk: int
    var pframesInUse: int
    var pframesInKernel: int
    var totalPframes: int
    var availablePid: int
    var curr: int
    /** FrameList: the node ids are the free frame numbers; their data is NULL. */
    var freeFrames: seq<int>
    var processList: seq<Node<Ref>>
    var allProcs: seq<Node<Ref>>
    var ready: seq<Node<Ref>>
    var blocked: seq<Node<Ref>>
    var dead: seq<Node<Ref>>
    var procs: map<int, Pcb>
    /** The bytes held by each physical frame. */
    var mem: map<int, seq<bv8>>
    var locks: seq<Node<Lock>>
    var cvars: seq<Node<Cvar>>
    var nextResourceId: int
    var ptbr1: Ptbr
    /** The statically allocated r0_pagetable and r1_pagetable. */
    const r0table: array<Pte>
    const r1table: array<Pte>

    /** The kernel's globals before boot: static storage is zero. */
    constructor ()
      ensures Valid()
      ensures freeFrames == [] && processList == [] && procs == map[] && !vmEnabled
      ensures forall i :: 0 <= i < r1table.Length ==> r1table[i] == InvalidPte
      ensures fresh(r0table) && fresh(r1table)
    {
      vmEnabled := false;
      kernelDataStart, kernelDataEnd, kernelBrk := 0, 0, 0;
      pframesInUse, pframesInKernel, totalPframes := 0, 0, 0;
      availablePid, curr := 0, 0;
      freeFrames, processList, allProcs := [], [], [];
      ready, blocked, dead := [], [], [];
      procs, mem := map[], map[];
      locks, cvars, nextResourceId := [], [], 0;
      ptbr1 := BootTable;
      r0table := new Pte[VMEM_0_PAGE_COUNT](_ => InvalidPte);
      r1table := new Pte[VMEM_1_PAGE_COUNT](_ => InvalidPte);
    }

    /** The shape every kernel operation keeps: tables of the right sizes and
        each PCB filed under its own pid, below the next pid to hand out. */
    ghost predicate Valid()
      reads this
    {
      r0table.Length == VMEM_0_PAGE_COUNT && r1table.Length == VMEM_1_PAGE_COUNT &&
      r0table != r1table &&
      forall p :: p in procs ==>
        0 <= p < availablePid && procs[p].pid == p && Shaped(procs[p]) &&
        procs[p].r0 != r0table && procs[p].r0 != r1table && procs[p].r1 != r0table && procs[p].r1 != r1table
    }

    /** curr_proc is a live PCB. */
    ghost predicate HasCurrent()
      reads this
    {
      Valid() && curr in procs && Shaped(procs[curr]) &&
      procs[curr].r0 != r0table && procs[curr].r0 != r1table && procs[curr].r1 != r0table && procs[curr].r1 != r1table
    }
  }

  /** A PCB's own tables: KS_NPG kernel-stack entries and a full region-1
      table, two distinct arrays. */
  predicate Shaped(p: Pcb)
  {
    p.r0.Length == KS_NPG && p.r1.Length == VMEM_1_PAGE_COUNT && p.r0 != p.r1
  }

  /** The pfns of the valid entries of a page table, in table order. */
  function ValidFrames(s: seq<Pte>): (r: seq<int>)
    ensures |r| <= |s|
  {
    if s == [] then []
    else ValidFrames(s[..|s| - 1]) + (if s[|s| - 1].valid then [s[|s| - 1].pfn] else [])
  }

  /** No valid entry of the table is backed by a frame that is on the free list. */
  ghost predicate Unmapped(free: seq<int>, t: seq<Pte>)
  {
    forall i :: 0 <= i < |t| && t[i].valid ==> t[i].pfn !in free
  }

  /** The number of valid entries of a page table. */
  function CountValid(s: seq<Pte>): nat
  {
    if s == [] then 0
    else CountValid(s[..|s| - 1]) + (if s[|s| - 1].valid then 1 else 0)
  }

  lemma {:induction false} ValidFramesCount(s: seq<Pte>)
    ensures |ValidFrames(s)| == CountValid(s)
  {
    if s != [] {
      ValidFramesCount(s[..|s| - 1]);
    }
  }

  /** Every frame ValidFrames reports backs a valid entry of the table. */
  lemma {:induction false} ValidFramesBacked(s: seq<Pte>, f: int)
    requires f in ValidFrames(s)
    ensures exists i :: 0 <= i < |s| && s[i].valid && s[i].pfn == f
  {
    var n := |s| - 1;
    if f in ValidFrames(s[..n]) {
      ValidFramesBacked(s[..n], f);
      var i :| 0 <= i < n && s[..n][i].valid && s[..n][i].pfn == f;
      assert s[i] == s[..n][i];
    } else {
      assert s[n].valid && s[n].pfn == f;
    }
  }
}
