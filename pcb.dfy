/** PCB construction: new_process copies part of a UserContext into a fresh
    record and hands out the next process id. */
module ProcessControl {
  import opened Hardware
  import opened Blocks
  import opened KernelState

  /** new_process(uc): a PCB whose pid is the old available_process_id,
      which goes up by one, so a pid is never handed out twice. */
  method NewProcess(k: Kernel, uc: UserContext) returns (p: Pcb)
    modifies k`availablePid
    ensures p.pid == old(k.availablePid) && k.availablePid == old(k.availablePid) + 1
    ensures p.uc.vector == uc.vector && p.uc.code == uc.code
    ensures p.uc.pc == uc.pc && p.uc.sp == uc.sp
    ensures p.r0.Length == KS_NPG && p.r1.Length == VMEM_1_PAGE_COUNT
    ensures fresh(p.r0) && fresh(p.r1) && fresh(p.block)
    ensures p.children.None? && p.exited.None? && p.parent.None? && !p.kcSet
  {
    // The fields new_process does not write get fixed placeholder values.
    var newUc := UserContext(uc.vector, uc.code, 0, uc.pc, uc.sp, seq(8, _ => 0));
    var r0 := new Pte[KS_NPG](_ => InvalidPte);
    var r1 := new Pte[VMEM_1_PAGE_COUNT](_ => InvalidPte);
    var block := new Block();
    p := Pcb(k.availablePid, newUc, r0, r1, None, None, None, block, false, 0, 0, 0);
    k.availablePid := k.availablePid + 1;
  }

  /** Two successive constructions give strictly increasing pids. */
  method NewProcessTwice(k: Kernel, uc: UserContext) returns (a: Pcb, b: Pcb)
    modifies k`availablePid
    ensures a.pid < b.pid && b.pid < k.availablePid
    ensures a.pid == old(k.availablePid)
  {
    a := NewProcess(k, uc);
    b := NewProcess(k, uc);
  }
}
