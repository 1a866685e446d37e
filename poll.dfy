/**
 * What the receive loops of both platform files poll for, and the cyclic
 * order in which ssmp_recv_color_start_platf visits a colour buffer
 * (src/platform/xeon/ssmp_platf.c:193-237,
 * src/platform/niagara/ssmp_platf.c:112-140).
 */
module Poll {
  import opened Msg

  /** The cell holds a message that has not been taken yet. */
  predicate Ready(cells: array<Line>, cell: nat)
    reads cells
  {
    cell < cells.Length && cells[cell].State() == BufMessg
  }

  /** The cell can be written by a blocking send. */
  predicate Free(cells: array<Line>, cell: nat)
    reads cells
  {
    cell < cells.Length && cells[cell].State() == BufEmpty
  }

  /** The mailbox array after a receiver has copied the line out of `cell`
      and marked it empty. */
  function Take(cells: seq<Line>, cell: nat): (r: seq<Line>)
    requires cell < |cells|
  {
    cells[cell := cells[cell].(tag := BufEmpty)]
  }

  /** Where a scan of `num` entries starting at `cursor` really starts: the
      first loop does nothing when the cursor is past the end, and the
      second pass starts at 0. */
  function ScanStart(cursor: nat, num: nat): (r: nat)
    ensures num > 0 ==> r < num
    ensures cursor < num ==> r == cursor
  {
    if cursor < num then cursor else 0
  }

  /** The number of entries a scan starting at `start` visits before entry
      `i`, wrapping round once. */
  function Dist(start: nat, i: nat, num: nat): (r: nat)
    requires start < num && i < num
    ensures r < num
    ensures r == 0 <==> i == start
  {
    if i >= start then i - start else i + num - start
  }

  /** The cursor after entry `i` was served: the entry after `i`, or 0 when
      `i` was the last one. */
  function NextCursor(i: nat, num: nat): (r: nat)
    requires i < num
    ensures r < num
  {
    if i + 1 == num then 0 else i + 1
  }

  /** The entry after the served one is visited first next time. */
  lemma NextCursorIsSuccessor(i: nat, num: nat)
    requires i < num
    ensures Dist(i, NextCursor(i, num), num) == (if num == 1 then 0 else 1)
  {
  }

  /**
   * Serving the nearest ready entry `i` moves every other entry `k` that
   * was further away exactly `Dist(start, i) + 1` places closer to the
   * start of the next scan. An entry that stays ready is therefore served
   * after at most `num - 1` other services.
   */
  lemma CursorProgress(start: nat, i: nat, k: nat, num: nat)
    requires start < num && i < num && k < num
    requires Dist(start, i, num) < Dist(start, k, num)
    ensures Dist(NextCursor(i, num), k, num) == Dist(start, k, num) - Dist(start, i, num) - 1
  {
  }

  /** `served` is a run of services starting at cursor `start` in which
      entry `k` is ready throughout but never chosen: since each scan takes
      the nearest ready entry, each served entry lies ahead of `k`. */
  predicate Round(start: nat, served: seq<nat>, k: nat, num: nat)
    requires start < num && k < num
    decreases |served|
  {
    |served| == 0
    || (served[0] < num && served[0] != k
        && Dist(start, served[0], num) < Dist(start, k, num)
        && Round(NextCursor(served[0], num), served[1..], k, num))
  }

  /** Bounded waiting: while `k` stays ready, every service of another
      entry brings it strictly closer, so at most Dist(start, k) < num
      other entries are served before it. */
  lemma {:induction false} BoundedWaiting(start: nat, served: seq<nat>, k: nat, num: nat)
    requires start < num && k < num
    requires Round(start, served, k, num)
    ensures |served| <= Dist(start, k, num) < num
    decreases |served|
  {
    if |served| > 0 {
      CursorProgress(start, served[0], k, num);
      BoundedWaiting(NextCursor(served[0], num), served[1..], k, num);
    }
  }
}
