/**
 * Size arithmetic of the shared region and of the colour-buffer arrays:
 * rounding a byte count up to the cache line, in the two spellings the
 * architecture files use, and the record of section offsets that
 * ssmp_init_platf computes.
 */
module Layout {
  import Arith

  /** sizeof(int) in the region's initialised-flag array. */
  const IntSize: nat := 4

  /**
   * The x86 colour-buffer padding (`if (s % L) s += L - s % L`). The
   * alignment macro SSMP_INC_ALIGN is not part of this model; the region
   * layout assumes it performs this same rounding.
   */
  function RoundUp(s: nat, line: nat): (r: nat)
    requires line > 0
    ensures r % line == 0
    ensures s <= r < s + line
    ensures s % line == 0 ==> r == s
  {
    RoundUpFacts(s, line);
    if s % line != 0 then s + (line - s % line) else s
  }

  lemma RoundUpFacts(s: nat, line: nat)
    requires line > 0
    ensures (s + (line - s % line)) % line == 0
  {
    var q := s / line;
    assert s == q * line + s % line;
    assert s + (line - s % line) == (q + 1) * line;
    Arith.DivModOfSum(q + 1, 0, line);
  }

  /** RoundUp yields the least multiple of the line at or above s. */
  lemma RoundUpIsLeast(s: nat, line: nat, k: nat)
    requires line > 0
    requires s <= k * line
    ensures RoundUp(s, line) <= k * line
  {
    var r := RoundUp(s, line);
    var j := r / line;
    Arith.DivModOfSum(j, 0, line);
    assert r == j * line;
    Arith.MulCompare(j, k + 1, line);
    Arith.MulCompare(j, k, line);
  }

  /**
   * The SPARC colour-buffer padding: the remainder of the cache line is
   * converted to whole elements of `unit` bytes by integer division, and
   * that many elements are added.
   */
  function SparcPad(s: nat, line: nat, unit: nat): (r: nat)
    requires line > 0 && unit > 0
    ensures s <= r < s + line
    ensures (r - s) % unit == 0
    ensures s % line == 0 ==> r == s
  {
    if s % line != 0 then
      var gap := line - s % line;
      Arith.RoundDown(gap, unit);
      Arith.DivModOfSum(gap / unit, 0, unit);
      s + (gap / unit) * unit
    else s
  }

  /** When the element size divides both the line and the byte count, as it
      does for arrays of addresses or of bytes, the two paddings agree. */
  lemma SparcPadAgrees(count: nat, line: nat, unit: nat)
    requires line > 0 && unit > 0 && line % unit == 0
    ensures SparcPad(count * unit, line, unit) == RoundUp(count * unit, line)
  {
    var s := count * unit;
    if s % line != 0 {
      Arith.DivModOfSum(count, 0, unit);
      Arith.RemainderOfMultiple(s, line, unit);
      var gap := line - s % line;
      assert line == (line / unit) * unit by { Arith.RoundDown(line, unit); }
      assert s % line == ((s % line) / unit) * unit by { Arith.RoundDown(s % line, unit); }
      assert gap == (line / unit - (s % line) / unit) * unit;
      Arith.DivModOfSum(line / unit - (s % line) / unit, 0, unit);
    }
  }

  /** Byte offsets of the sections of the shared region and its size. */
  datatype Region = Region(barriers: nat, initialized: nat, chunks: nat, size: nat)

  /** sizeof of the records that live in the region, and the cache line. */
  datatype Sizes = Sizes(msg: nat, barrier: nat, chunk: nat, line: nat)

  /** A region that holds `mailboxes` bytes of mailboxes, the barrier table,
      one int per endpoint and one chunk per endpoint, in that order, each
      section after the first starting on a cache line of the region and
      padded by less than a line. */
  predicate WellLaidOut(r: Region, mailboxes: nat, n: nat, numBarriers: nat, z: Sizes)
    requires z.line > 0
  {
    r.barriers == mailboxes
    && r.barriers + numBarriers * z.barrier <= r.initialized < r.barriers + numBarriers * z.barrier + z.line
    && r.initialized + n * IntSize <= r.chunks < r.initialized + n * IntSize + z.line
    && r.chunks + n * z.chunk <= r.size < r.chunks + n * z.chunk + z.line
    && (r.initialized - r.barriers) % z.line == 0
    && (r.chunks - r.initialized) % z.line == 0
    && (r.size - r.chunks) % z.line == 0
  }

  /** The section offsets for a region whose first `mailboxes` bytes hold
      mailboxes (zero on x86, which keeps mailboxes in separate segments). */
  function Sections(mailboxes: nat, n: nat, numBarriers: nat, z: Sizes): (r: Region)
    requires z.line > 0
    ensures WellLaidOut(r, mailboxes, n, numBarriers, z)
    ensures r.size == mailboxes + (r.initialized - r.barriers) + (r.chunks - r.initialized) + (r.size - r.chunks)
  {
    var sizeb := RoundUp(numBarriers * z.barrier, z.line);
    var sizeui := RoundUp(n * IntSize, z.line);
    var sizecnk := RoundUp(n * z.chunk, z.line);
    Region(mailboxes, mailboxes + sizeb, mailboxes + sizeb + sizeui, mailboxes + sizeb + sizeui + sizecnk)
  }
}
