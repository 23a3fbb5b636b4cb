/** Constants and page-table entries of the simulated Yalnix machine, and the
    small result wrappers shared by the kernel modules. */
module Hardware {

  datatype Option<T> = None | Some(value: T)

  // Return codes of kernel calls.
  const ERROR: int := -1
  const SUCCESS: int := 0

  // Page geometry.
  const PAGESHIFT: nat := 13
  const PAGESIZE: nat := 0x2000

  // Region 0 (kernel) and region 1 (user) of virtual memory.
  const VMEM_0_BASE: nat := 0
  const VMEM_0_LIMIT: nat := 0x100000
  const VMEM_1_BASE: nat := 0x100000
  const VMEM_1_LIMIT: nat := 0x200000
  const VMEM_BASE: nat := 0
  const VMEM_0_PAGE_COUNT: nat := 128
  const VMEM_1_PAGE_COUNT: nat := 128
  const MAX_PT_LEN: nat := 128

  // The kernel stack occupies the top two pages of region 0.
  const KERNEL_STACK_BASE: nat := 0xFC000
  const KS_NPG: nat := 2
  const KS_BASE_PAGE: nat := 126

  const PMEM_BASE: nat := 0

  // Protection bits.
  const PROT_READ: int := 1
  const PROT_WRITE: int := 2
  const PROT_EXEC: int := 4
  const PROT_RW: int := 3
  const PROT_RX: int := 5

  // Memory-trap codes.
  const YALNIX_MAPERR: int := 1
  const YALNIX_ACCERR: int := 2

  // Loader constants of the 32-bit machine.
  const WORD_SIZE: nat := 4
  const INITIAL_STACK_FRAME_SIZE: nat := 16
  const POST_ARGV_NULL_SPACE: nat := 4

  const U32: nat := 0x1_0000_0000

  /** One page-table entry {valid, prot, pfn}. */
  datatype Pte = Pte(valid: bool, prot: int, pfn: int)

  const InvalidPte: Pte := Pte(false, 0, 0)

  /** Page number of an address, as `addr >> PAGESHIFT` on a non-negative value. */
  function PageOf(addr: int): int { addr / PAGESIZE }

  /** DOWN_TO_PAGE: the address rounded down to a page boundary. */
  function DownToPage(addr: int): (r: int)
    ensures r <= addr < r + PAGESIZE && r % PAGESIZE == 0
  {
    addr - addr % PAGESIZE
  }

  /** UP_TO_PAGE: the address rounded up to a page boundary. */
  function UpToPage(addr: int): (r: int)
    ensures r - PAGESIZE < addr <= r && r % PAGESIZE == 0
  {
    if addr % PAGESIZE == 0 then addr else addr - addr % PAGESIZE + PAGESIZE
  }

  /** Subtraction of two 32-bit unsigned values, wrapping modulo 2^32. */
  function SubU32(a: int, b: int): (r: int)
    requires 0 <= a < U32 && 0 <= b < U32
    ensures 0 <= r < U32
    ensures a >= b ==> r == a - b
    ensures a < b ==> r == a - b + U32
  {
    (a - b) % U32
  }

  /** PFN_TO_FNUM and FNUM_TO_PFN are the identity because PMEM_BASE is 0. */
  function FnumToPfn(f: int): int { f + PMEM_BASE / PAGESIZE }
  function PfnToFnum(p: int): int { p - PMEM_BASE / PAGESIZE }
}
