/**
 * The Niagara platform file (src/platform/niagara/ssmp_platf.c): one-line
 * messaging over the SPARC mailbox grid. Only the first two double words
 * of a line travel (memcpy64 with SPARC_SMALL_MSG); the state/sender byte
 * is written separately. Each operation is one atomic step; its busy-wait
 * becomes its precondition.
 */
module Niagara {
  import opened Msg
  import opened Context
  import opened Poll
  import ColorBuf
  import SparcArch

  /** Every mailbox line has the two double words memcpy64 moves. */
  predicate Lines(cells: array<Line>)
    reads cells
  {
    forall k :: 0 <= k < cells.Length ==> |cells[k].words| >= 2
  }

  /** The caller's message after a receive copied `line` into it: the two
      payload double words change, nothing else. */
  function CopyIn(msg: Line, line: Line): (r: Line)
    requires |msg.words| >= 2 && |line.words| >= 2
  {
    msg.(words := Memcpy64Small(msg.words, line.words))
  }

  /** The mailbox array after a send of `msg` into `cell`: the payload
      double words are copied and then the state becomes MESSG. */
  function Post(cells: seq<Line>, cell: nat, msg: Line): (r: seq<Line>)
    requires cell < |cells| && |cells[cell].words| >= 2 && |msg.words| >= 2
  {
    cells[cell := Line(Memcpy64Small(cells[cell].words, msg.words), BufMessg)]
  }

  /** ssmp_recv_from_platf: wait for the mailbox from `from` to be full,
      copy its payload into the caller's message and mark it empty. The
      caller's state/sender byte is left as it was. */
  method RecvFrom(e: Endpoint, cells: array<Line>, from: nat, msg: Line) returns (got: Line)
    requires e.Valid(cells) && from in e.recvBuf && Lines(cells) && |msg.words| >= 2
    requires Ready(cells, e.recvBuf[from])
    modifies cells
    ensures got == CopyIn(msg, old(cells[e.recvBuf[from]]))
    ensures cells[..] == Take(old(cells[..]), e.recvBuf[from])
  {
    var cell := e.recvBuf[from];
    got := msg.(words := Memcpy64Small(msg.words, cells[cell].words));
    cells[cell] := cells[cell].(tag := BufEmpty);
  }

  /** ssmp_recv_platf: take the message of the lowest-numbered peer whose
      mailbox is full, recording that peer as the sender. */
  method Recv(e: Endpoint, cells: array<Line>, msg: Line) returns (got: Line, ghost from: nat)
    requires e.Valid(cells) && e.Wired() && Lines(cells) && |msg.words| >= 2
    requires exists c :: 0 <= c < e.n && c != e.id && Ready(cells, e.recvBuf[c])
    modifies cells
    ensures from < e.n && from != e.id && from in e.recvBuf
    ensures old(Ready(cells, e.recvBuf[from]))
    ensures forall c :: 0 <= c < from && c != e.id ==> !old(Ready(cells, e.recvBuf[c]))
    ensures got == CopyIn(msg, old(cells[e.recvBuf[from]])).(tag := from % 256)
    ensures cells[..] == Take(old(cells[..]), e.recvBuf[from])
  {
    var c := 0;
    while c < e.n
      invariant c <= e.n
      invariant cells[..] == old(cells[..])
      invariant forall k :: 0 <= k < c && k != e.id ==> !Ready(cells, e.recvBuf[k])
    {
      if c != e.id && Ready(cells, e.recvBuf[c]) {
        var cell := e.recvBuf[c];
        got := msg.(words := Memcpy64Small(msg.words, cells[cell].words));
        got := got.(tag := c % 256);
        cells[cell] := cells[cell].(tag := BufEmpty);
        from := c;
        return;
      }
      c := c + 1;
    }
    assert false;
  }

  /** The scan loop of both colour receives: entries lo .. numUes - 1 in
      order, the first full one is taken. */
  method ScanFrom(cells: array<Line>, cb: ColorBuf.ColorBuf, lo: nat, msg: Line)
    returns (found: bool, got: Line, i: nat)
    requires cb.Valid(cells) && Lines(cells) && |msg.words| >= 2
    modifies cells
    ensures found ==> lo <= i < cb.numUes && old(Ready(cells, cb.bufState[i]))
    ensures found ==> forall k :: lo <= k < i ==> !old(Ready(cells, cb.bufState[k]))
    ensures found ==> got == CopyIn(msg, old(cells[cb.buf[i]])).(tag := cb.from[i])
    ensures found ==> cells[..] == Take(old(cells[..]), cb.buf[i])
    ensures !found ==> forall k :: lo <= k < cb.numUes ==> !Ready(cells, cb.bufState[k])
    ensures !found ==> cells[..] == old(cells[..])
  {
    var k := lo;
    while k < cb.numUes
      invariant lo <= k && (k <= cb.numUes || k == lo)
      invariant cells[..] == old(cells[..])
      invariant forall j :: lo <= j < k ==> !Ready(cells, cb.bufState[j])
    {
      if Ready(cells, cb.bufState[k]) {
        var cell := cb.buf[k];
        got := msg.(words := Memcpy64Small(msg.words, cells[cell].words));
        cells[cell] := cells[cell].(tag := BufEmpty);
        got := got.(tag := cb.from[k]);
        found, i := true, k;
        return;
      }
      k := k + 1;
    }
    found, got, i := false, msg, k;
  }

  /** ssmp_recv_color_platf: every call scans from entry 0, so the lowest
      full entry wins. */
  method RecvColor(cells: array<Line>, cb: ColorBuf.ColorBuf, msg: Line) returns (got: Line, ghost i: nat)
    requires cb.Valid(cells) && Lines(cells) && |msg.words| >= 2
    requires exists k :: 0 <= k < cb.numUes && Ready(cells, cb.bufState[k])
    modifies cells
    ensures i < cb.numUes && old(Ready(cells, cb.bufState[i]))
    ensures forall k :: 0 <= k < i ==> !old(Ready(cells, cb.bufState[k]))
    ensures got == CopyIn(msg, old(cells[cb.buf[i]])).(tag := cb.from[i])
    ensures cells[..] == Take(old(cells[..]), cb.buf[i])
  {
    var found, k;
    found, got, k := ScanFrom(cells, cb, 0, msg);
    if !found {
      assert false;
    }
    i := k;
  }

  /** ssmp_recv_color_start_platf: the scan resumes at the process-wide
      cursor, wraps round once, serves the nearest full entry in that
      cyclic order and leaves the cursor just after it. */
  method RecvColorStart(e: Endpoint, cells: array<Line>, cb: ColorBuf.ColorBuf, msg: Line)
    returns (got: Line, ghost i: nat)
    requires cb.Valid(cells) && Lines(cells) && |msg.words| >= 2
    requires exists k :: 0 <= k < cb.numUes && Ready(cells, cb.bufState[k])
    modifies cells, e`cursor
    ensures i < cb.numUes && old(Ready(cells, cb.bufState[i]))
    ensures forall k :: 0 <= k < cb.numUes
              && Dist(ScanStart(old(e.cursor), cb.numUes), k, cb.numUes)
                 < Dist(ScanStart(old(e.cursor), cb.numUes), i, cb.numUes)
              ==> !old(Ready(cells, cb.bufState[k]))
    ensures got == CopyIn(msg, old(cells[cb.buf[i]])).(tag := cb.from[i])
    ensures cells[..] == Take(old(cells[..]), cb.buf[i])
    ensures e.cursor == NextCursor(i, cb.numUes)
  {
    var found, k;
    found, got, k := ScanFrom(cells, cb, e.cursor, msg);
    if !found {
      found, got, k := ScanFrom(cells, cb, 0, msg);
      if !found {
        assert false;
      }
    }
    e.cursor := NextCursor(k, cb.numUes);
    i := k;
  }

  /** ssmp_send_platf: wait for the mailbox to `to` to be empty, copy the
      payload in, then mark it MESSG. The caller's message is unchanged. */
  method Send(e: Endpoint, cells: array<Line>, to: nat, msg: Line)
    requires e.Valid(cells) && to in e.sendBuf && Lines(cells) && |msg.words| >= 2
    requires Free(cells, e.sendBuf[to])
    modifies cells
    ensures cells[..] == Post(old(cells[..]), e.sendBuf[to], msg)
  {
    var cell := e.sendBuf[to];
    cells[cell] := cells[cell].(words := Memcpy64Small(cells[cell].words, msg.words));
    cells[cell] := cells[cell].(tag := BufMessg);
  }

  /** ssmp_send_is_free_platf: true exactly when a blocking send to `to`
      would not wait. */
  method SendIsFree(e: Endpoint, cells: array<Line>, to: nat) returns (free: bool)
    requires e.Valid(cells) && to in e.sendBuf
    ensures free <==> Free(cells, e.sendBuf[to])
  {
    free := cells[e.sendBuf[to]].State() == BufEmpty;
  }

  /** ssmp_send_no_sync_platf: a send without the wait. */
  method SendNoSync(e: Endpoint, cells: array<Line>, to: nat, msg: Line)
    requires e.Valid(cells) && to in e.sendBuf && Lines(cells) && |msg.words| >= 2
    modifies cells
    ensures cells[..] == Post(old(cells[..]), e.sendBuf[to], msg)
  {
    var cell := e.sendBuf[to];
    cells[cell] := cells[cell].(words := Memcpy64Small(cells[cell].words, msg.words));
    cells[cell] := cells[cell].(tag := BufMessg);
  }

  /**
   * A send from `s` to `r` followed by `r`'s receive from `s` into any
   * buffer: the receiver's wait ends, it gets the two payload double words
   * sent, its own state/sender byte is untouched, and the mailbox is empty
   * again.
   */
  lemma Delivery(cells: seq<Line>, n: nat, s: nat, r: nat, msg: Line, buf: Line)
    requires s < n && r < n
    requires |cells| == n * n
    requires forall k :: 0 <= k < |cells| ==> |cells[k].words| >= 2
    requires |msg.words| >= 2 && |buf.words| >= 2
    requires SparcArch.SendCell(n, s, r) < |cells|
    requires cells[SparcArch.SendCell(n, s, r)].State() == BufEmpty
    ensures SparcArch.SendCell(n, s, r) == SparcArch.RecvCell(n, r, s)
    ensures Post(cells, SparcArch.SendCell(n, s, r), msg)[SparcArch.SendCell(n, s, r)].State() == BufMessg
    ensures CopyIn(buf, Post(cells, SparcArch.SendCell(n, s, r), msg)[SparcArch.SendCell(n, s, r)]).words[..2]
            == msg.words[..2]
    ensures CopyIn(buf, Post(cells, SparcArch.SendCell(n, s, r), msg)[SparcArch.SendCell(n, s, r)]).tag == buf.tag
    ensures Take(Post(cells, SparcArch.SendCell(n, s, r), msg), SparcArch.SendCell(n, s, r))[SparcArch.SendCell(n, s, r)].State()
            == BufEmpty
  {
    SparcArch.CellsAgree(n, s, r);
  }

  /** A send from `s` to `r` leaves the mailbox of every other ordered pair
      of endpoints as it was. */
  lemma Isolation(cells: seq<Line>, n: nat, s: nat, r: nat, s2: nat, r2: nat, msg: Line)
    requires s < n && r < n && s2 < n && r2 < n
    requires s2 != s || r2 != r
    requires |cells| == n * n
    requires forall k :: 0 <= k < |cells| ==> |cells[k].words| >= 2
    requires |msg.words| >= 2
    ensures SparcArch.SendCell(n, s, r) < |cells| && SparcArch.RecvCell(n, r2, s2) < |cells|
    ensures Post(cells, SparcArch.SendCell(n, s, r), msg)[SparcArch.RecvCell(n, r2, s2)]
            == cells[SparcArch.RecvCell(n, r2, s2)]
  {
    SparcArch.CellsAgree(n, s, r);
    SparcArch.CellsAgree(n, s2, r2);
    if SparcArch.SendCell(n, s, r) == SparcArch.RecvCell(n, r2, s2) {
      SparcArch.CellsInjective(n, r, s, r2, s2);
    }
  }
}
