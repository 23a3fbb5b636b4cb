/** Block descriptors (block_t) and the check_block state machine that
    decides whether a blocked process may run again. */
module Blocks {
  import opened Hardware

  // Activity constants.
  const BLOCK_INACTIVE: int := 0
  const BLOCK_ACTIVE: int := 1

  // Block types.
  const NO_BLOCK: int := 0
  const DELAY_BLOCK: int := 1
  const WAIT_BLOCK: int := 2
  const PIPE_BLOCK: int := 3
  const TTY_READ_BLOCK: int := 4
  const TTY_WRITE_BLOCK: int := 5

  // Results of check_block besides ERROR.
  const UNBLOCKED: int := 0
  const BLOCKED: int := 1

  const INT32_MIN: int := -0x8000_0000
  const INT32_MAX: int := 0x7FFF_FFFF

  /** The value of a block_t: `count` is the delay_count/ret_val union, `obj`
      the object pointer (for a wait, the blocked PCB). */
  datatype BlockState = BlockState(active: int, kind: int, count: int, obj: int)

  /** What bzero leaves in a block_t. */
  const ZeroBlock: BlockState := BlockState(0, 0, 0, 0)

  /** delay_count read as an unsigned int. */
  function AsUnsigned(c: int): int
  {
    if c < 0 then c + U32 else c
  }

  /** delay_count-- on a 32-bit int, taken to wrap at the minimum. */
  function Decrement32(c: int): int
  {
    if c == INT32_MIN then INT32_MAX else c - 1
  }

  /** check_block: the block afterwards and the result. `exited` is what the
      blocked PCB's exited_children list looks like through obj_ptr: NULL, or
      a list with that many items. */
  function Check(b: BlockState, exited: Option<nat>): (BlockState, int)
  {
    if b.active == BLOCK_INACTIVE then (b, UNBLOCKED)
    else if b.active != BLOCK_ACTIVE then (b, ERROR)
    else if b.kind == NO_BLOCK then (ZeroBlock, UNBLOCKED)
    else if b.kind == DELAY_BLOCK then
      if AsUnsigned(b.count) > 1 then (b.(count := Decrement32(b.count)), BLOCKED)
      else (ZeroBlock, UNBLOCKED)
    else if b.kind == WAIT_BLOCK then
      if exited.Some? && exited.value > 0 then (ZeroBlock, UNBLOCKED)
      else (b, BLOCKED)
    else (b, ERROR)
  }

  /** The outcome of check_block for every kind of block. */
  lemma CheckOutcomes(b: BlockState, exited: Option<nat>)
    ensures b.active == BLOCK_INACTIVE ==> Check(b, exited) == (b, UNBLOCKED)
    ensures b.active != BLOCK_INACTIVE && b.active != BLOCK_ACTIVE ==> Check(b, exited) == (b, ERROR)
    ensures b.active == BLOCK_ACTIVE && b.kind == NO_BLOCK ==> Check(b, exited) == (ZeroBlock, UNBLOCKED)
    ensures b.active == BLOCK_ACTIVE && b.kind == DELAY_BLOCK && (b.count == 0 || b.count == 1) ==>
      Check(b, exited) == (ZeroBlock, UNBLOCKED)
    ensures b.active == BLOCK_ACTIVE && b.kind == DELAY_BLOCK && (b.count > 1 || INT32_MIN < b.count < 0) ==>
      Check(b, exited) == (b.(count := b.count - 1), BLOCKED)
    ensures b.active == BLOCK_ACTIVE && b.kind == WAIT_BLOCK ==>
      (Check(b, exited).1 == UNBLOCKED <==> exited.Some? && exited.value > 0)
    ensures b.active == BLOCK_ACTIVE && b.kind == WAIT_BLOCK && Check(b, exited).1 == BLOCKED ==>
      Check(b, exited).0 == b
    ensures b.active == BLOCK_ACTIVE && !(NO_BLOCK <= b.kind <= WAIT_BLOCK) ==> Check(b, exited) == (b, ERROR)
  {
  }

  /** The results of `n` successive checks of a block, and the block left behind. */
  function Run(b: BlockState, exited: Option<nat>, n: nat): (BlockState, seq<int>)
    decreases n
  {
    if n == 0 then (b, [])
    else
      var (b1, r1) := Check(b, exited);
      var (bn, rs) := Run(b1, exited, n - 1);
      (bn, [r1] + rs)
  }

  function Repeat(x: int, n: nat): (r: seq<int>)
    ensures |r| == n && forall i :: 0 <= i < n ==> r[i] == x
  {
    seq(n, _ => x)
  }

  /** A delay of n >= 1 reports BLOCKED on the first n - 1 checks and
      UNBLOCKED on the n-th, which zeroes the block. */
  lemma {:induction false} DelayUnblocksOnNthCheck(b: BlockState, exited: Option<nat>)
    requires b.active == BLOCK_ACTIVE && b.kind == DELAY_BLOCK && 1 <= b.count <= INT32_MAX
    ensures Run(b, exited, b.count) == (ZeroBlock, Repeat(BLOCKED, b.count - 1) + [UNBLOCKED])
    decreases b.count
  {
    if b.count > 1 {
      var b1 := b.(count := b.count - 1);
      assert Check(b, exited) == (b1, BLOCKED);
      DelayUnblocksOnNthCheck(b1, exited);
      assert [BLOCKED] + (Repeat(BLOCKED, b.count - 2) + [UNBLOCKED])
          == Repeat(BLOCKED, b.count - 1) + [UNBLOCKED];
    } else {
      assert Check(b, exited) == (ZeroBlock, UNBLOCKED);
      assert Run(ZeroBlock, exited, 0) == (ZeroBlock, []);
      assert Run(b, exited, 1) == (ZeroBlock, [UNBLOCKED] + []);
      assert Repeat(BLOCKED, b.count - 1) + [UNBLOCKED] == [UNBLOCKED] + [];
    }
  }

  /** A negative delay count is larger than 1 as an unsigned value: every
      check counts it further down and reports BLOCKED, for as long as it does
      not wrap around. */
  lemma {:induction false} NegativeDelayStaysBlocked(b: BlockState, exited: Option<nat>, m: nat)
    requires b.active == BLOCK_ACTIVE && b.kind == DELAY_BLOCK
    requires INT32_MIN + m <= b.count < 0
    ensures Run(b, exited, m) == (b.(count := b.count - m), Repeat(BLOCKED, m))
    decreases m
  {
    if m > 0 {
      var b1 := b.(count := b.count - 1);
      assert Check(b, exited) == (b1, BLOCKED);
      NegativeDelayStaysBlocked(b1, exited, m - 1);
      assert [BLOCKED] + Repeat(BLOCKED, m - 1) == Repeat(BLOCKED, m);
    }
  }

  /** A block_t in memory; check_block updates it in place. */
  class Block {
    var active: int
    var kind: int
    var count: int
    var obj: int

    function State(): BlockState
      reads this
    {
      BlockState(active, kind, count, obj)
    }

    constructor ()
      ensures State() == ZeroBlock
    {
      active, kind, count, obj := 0, 0, 0, 0;
    }

    /** bzero on the block. */
    method Clear()
      modifies this
      ensures State() == ZeroBlock
    {
      active, kind, count, obj := 0, 0, 0, 0;
    }

    /** check_block: decrements a delay, zeroes a finished block, or reports
        the block's state; an unknown activity or type is an ERROR. */
    method CheckBlock(exited: Option<nat>) returns (rc: int)
      modifies this
      ensures (State(), rc) == Check(old(State()), exited)
    {
      if active == BLOCK_INACTIVE {
        return UNBLOCKED;
      } else if active != BLOCK_ACTIVE {
        return ERROR;
      }
      if kind == NO_BLOCK {
        Clear();
        return UNBLOCKED;
      } else if kind == DELAY_BLOCK {
        var ticks := if count < 0 then count + U32 else count;
        if ticks > 1 {
          count := if count == INT32_MIN then INT32_MAX else count - 1;
          return BLOCKED;
        } else {
          Clear();
          return UNBLOCKED;
        }
      } else if kind == WAIT_BLOCK {
        if exited.Some? && exited.value > 0 {
          Clear();
          return UNBLOCKED;
        } else {
          return BLOCKED;
        }
      }
      // PIPE, TTY_READ and TTY_WRITE break out of the switch; others hit its default.
      return ERROR;
    }
  }
}
