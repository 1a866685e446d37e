/**
 * Helpers of src/ssmp.c: the power-of-two round-up, the two colour
 * functions, the barrier lookup and the target computation of wait_cycles.
 */
module Ssmp {
  import opened Wrappers

  const U32: int := 0x1_0000_0000
  const U64: int := 0x1_0000_0000_0000_0000

  /** A colour function `int (*)(int)`: its C `int` result is read as a
      participant flag (non-zero) or, by the barrier, summed. */
  type Color = int -> int

  /** ssmp_color_app: 1 for ids not divisible by 3, otherwise 0. C's
      truncating `%` is non-zero exactly when Dafny's Euclidean `%` is. */
  function ColorApp(id: int): (r: int)
    ensures r == 0 || r == 1
    ensures r == 1 <==> id % 3 != 0
  {
    if id % 3 != 0 then 1 else 0
  }

  /** color: the sample colour of ssmp.c, returning 10 * id. */
  function TenfoldColor(id: int): (r: int)
    ensures r != 0 <==> id != 0
    ensures r == 0 || r >= 10 || r <= -10
  {
    10 * id
  }

  /** The range test the barrier functions apply, as written:
      `barrier_num < SSMP_NUM_BARRIERS` with a signed `barrier_num`. */
  predicate GuardAsWritten(barrierNum: int, numBarriers: nat)
  {
    barrierNum < numBarriers
  }

  /** The range test the table needs: a real index into the table. */
  predicate InTable(barrierNum: int, numBarriers: nat)
  {
    0 <= barrierNum < numBarriers
  }

  /** ssmp_get_barrier as written: the table address offset by
      `barrierNum` whenever the guard passes, negative offsets included;
      NULL otherwise. */
  function GetBarrierAsWritten(barrierNum: int, numBarriers: nat): (r: Option<int>)
    ensures r.Some? <==> barrierNum < numBarriers
    ensures r.Some? ==> r.value == barrierNum
  {
    if GuardAsWritten(barrierNum, numBarriers) then Some(barrierNum) else None
  }

  /** ssmp_get_barrier: the slot of `barrierNum` when it is in the table,
      NULL otherwise (negative numbers mapped to NULL; see Findings). */
  function GetBarrier(barrierNum: int, numBarriers: nat): (r: Option<nat>)
    ensures r.Some? <==> 0 <= barrierNum < numBarriers
    ensures r.Some? ==> r.value == barrierNum && r.value < numBarriers
  {
    if InTable(barrierNum, numBarriers) then Some(barrierNum) else None
  }

  /** The as-written lookup hands out -1, an address before the table,
      where the corrected one returns NULL. */
  lemma GetBarrierAsWrittenEscapes(numBarriers: nat)
    requires numBarriers > 0
    ensures GetBarrierAsWritten(-1, numBarriers) == Some(-1)
    ensures GetBarrier(-1, numBarriers) == None
  {
  }

  /** On non-negative numbers the two lookups agree. */
  lemma GetBarrierAgrees(barrierNum: int, numBarriers: nat)
    requires barrierNum >= 0
    ensures GetBarrier(barrierNum, numBarriers).Some? <==> GetBarrierAsWritten(barrierNum, numBarriers).Some?
    ensures GetBarrier(barrierNum, numBarriers).Some? ==>
              GetBarrier(barrierNum, numBarriers).value == GetBarrierAsWritten(barrierNum, numBarriers).value
  {
  }

  predicate IsPow2(v: bv32)
  {
    v != 0 && v & (v - 1) == 0
  }

  /** pow2roundup on uint32_t: smear the highest set bit of x - 1 to the
      right, then add one. */
  function Pow2RoundUp(x: bv32): (r: bv32)
    ensures x == 0 ==> r == 1
    ensures 1 <= x <= 0x8000_0000 ==> IsPow2(r) && x <= r && (r as int) < 2 * (x as int)
    ensures IsPow2(x) ==> r == x
    ensures x > 0x8000_0000 ==> r == 0
  {
    if x == 0 then 1
    else
      var y0 := x - 1;
      var y1 := y0 | (y0 >> 1);
      var y2 := y1 | (y1 >> 2);
      var y3 := y2 | (y2 >> 4);
      var y4 := y3 | (y3 >> 8);
      var y5 := y4 | (y4 >> 16);
      y5 + 1
  }

  /** The end tick wait_cycles spins towards, in 64-bit unsigned arithmetic
      (`2 * getticks_correction` and the sum both wrap). 0 means no wait. */
  function WaitTarget(start: nat, cycles: nat, correction: nat): (r: nat)
    requires start < U64 && cycles < U64 && correction < U64
    ensures r < U64
  {
    var twice := (2 * correction) % U64;
    if cycles > twice then (start + cycles - twice) % U64 else 0
  }

  /** The spin condition of wait_cycles: `getticks() < _end_ticks`. */
  predicate StillWaiting(now: nat, target: nat)
  {
    now < target
  }

  /** Without wrap-around the target lies `cycles - 2 * correction` ticks
      after the start; otherwise the target is 0 and no reading of the
      counter keeps the loop spinning. */
  lemma WaitTargetMeaning(start: nat, cycles: nat, correction: nat)
    requires start < U64 && cycles < U64 && 2 * correction < U64
    requires start + cycles < U64
    ensures cycles > 2 * correction ==>
              WaitTarget(start, cycles, correction) == start + (cycles - 2 * correction)
              && StillWaiting(start, WaitTarget(start, cycles, correction))
    ensures cycles <= 2 * correction ==>
              forall now: nat :: !StillWaiting(now, WaitTarget(start, cycles, correction))
  {
  }
}
