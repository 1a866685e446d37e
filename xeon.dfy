/**
 * The Xeon platform file (src/platform/xeon/ssmp_platf.c): socket tables,
 * blocking and non-blocking one-line messaging over the x86 mailboxes.
 * Each operation is one atomic step of the shared memory; the busy-wait
 * that precedes it becomes its precondition.
 */
module Xeon {
  import opened Msg
  import opened Context
  import opened Poll
  import ColorBuf
  import Ssmp
  import X86Arch

  /** id_to_core: ids 0 .. 39 run on cores 1 .. 40, id 40 on core 0, every
      other id on the core of the same number. */
  const IdToCore: seq<nat> := LowCores + Count(80, 256)

  /** The first eight rows of id_to_core: the cores of ids 0 .. 79. */
  const LowCores: seq<nat> :=
    [1, 2, 3, 4, 5, 6, 7, 8, 9, 10]
    + [11, 12, 13, 14, 15, 16, 17, 18, 19, 20]
    + [21, 22, 23, 24, 25, 26, 27, 28, 29, 30]
    + [31, 32, 33, 34, 35, 36, 37, 38, 39, 40]
    + [0, 41, 42, 43, 44, 45, 46, 47, 48, 49]
    + [50, 51, 52, 53, 54, 55, 56, 57, 58, 59]
    + [60, 61, 62, 63, 64, 65, 66, 67, 68, 69]
    + [70, 71, 72, 73, 74, 75, 76, 77, 78, 79]

  /** The ids lo .. hi - 1 in order: the last eleven rows of the table. */
  function Count(lo: nat, hi: nat): (r: seq<nat>)
    requires lo <= hi
    ensures |r| == hi - lo
    ensures forall k :: 0 <= k < |r| ==> r[k] == lo + k
    decreases hi - lo
  {
    if lo == hi then [] else [lo] + Count(lo + 1, hi)
  }

  /** id_to_node: the socket of each of the 80 cores. */
  const IdToNode: seq<nat> :=
    [4, 0, 0, 0, 0, 0, 0, 0, 0, 0]
    + [0, 1, 1, 1, 1, 1, 1, 1, 1, 1, 1]
    + [2, 2, 2, 2, 2, 2, 2, 2, 2, 2]
    + [3, 3, 3, 3, 3, 3, 3, 3, 3, 3]
    + [4, 4, 4, 4, 4, 4, 4, 4, 4]
    + [5, 5, 5, 5, 5, 5, 5, 5, 5, 5]
    + [6, 6, 6, 6, 6, 6, 6, 6, 6, 6]
    + [7, 7, 7, 7, 7, 7, 7, 7, 7, 7]

  /** id_to_core on ids 0 .. 79, in closed form. */
  function CoreOf(i: nat): nat
  {
    if i < 40 then i + 1 else if i == 40 then 0 else i
  }

  /** id_to_node in closed form: the odd entries at cores 0 and 40 .. 49
      belong to socket 4; otherwise ten consecutive cores per socket, the
      first four sockets starting at core 1. */
  function NodeOf(c: nat): nat
  {
    if c == 0 || 41 <= c <= 49 then 4 else if c <= 40 then (c - 1) / 10 else c / 10
  }

  lemma CoreRow0()
    ensures forall i :: 0 <= i < 10 ==> LowCores[i] == CoreOf(i)
  {
  }

  lemma CoreRow1()
    ensures forall i :: 10 <= i < 20 ==> LowCores[i] == CoreOf(i)
  {
  }

  lemma CoreRow2()
    ensures forall i :: 20 <= i < 30 ==> LowCores[i] == CoreOf(i)
  {
  }

  lemma CoreRow3()
    ensures forall i :: 30 <= i < 40 ==> LowCores[i] == CoreOf(i)
  {
  }

  lemma CoreRow4()
    ensures forall i :: 40 <= i < 50 ==> LowCores[i] == CoreOf(i)
  {
  }

  lemma CoreRow5()
    ensures forall i :: 50 <= i < 60 ==> LowCores[i] == CoreOf(i)
  {
  }

  lemma CoreRow6()
    ensures forall i :: 60 <= i < 70 ==> LowCores[i] == CoreOf(i)
  {
  }

  lemma CoreRow7()
    ensures forall i :: 70 <= i < 80 ==> LowCores[i] == CoreOf(i)
  {
  }

  lemma NodeRow0()
    ensures forall c :: 0 <= c < 10 ==> IdToNode[c] == NodeOf(c)
  {
  }

  lemma NodeRow1()
    ensures forall c :: 10 <= c < 20 ==> IdToNode[c] == NodeOf(c)
  {
  }

  lemma NodeRow2()
    ensures forall c :: 20 <= c < 30 ==> IdToNode[c] == NodeOf(c)
  {
  }

  lemma NodeRow3()
    ensures forall c :: 30 <= c < 40 ==> IdToNode[c] == NodeOf(c)
  {
  }

  lemma NodeRow4()
    ensures forall c :: 40 <= c < 50 ==> IdToNode[c] == NodeOf(c)
  {
  }

  lemma NodeRow5()
    ensures forall c :: 50 <= c < 60 ==> IdToNode[c] == NodeOf(c)
  {
  }

  lemma NodeRow6()
    ensures forall c :: 60 <= c < 70 ==> IdToNode[c] == NodeOf(c)
  {
  }

  lemma NodeRow7()
    ensures forall c :: 70 <= c < 80 ==> IdToNode[c] == NodeOf(c)
  {
  }

  /** The eight rows of id_to_core's first part agree with CoreOf. */
  lemma LowCoresClosedForm()
    ensures |LowCores| == 80
    ensures forall i :: 0 <= i < 80 ==> LowCores[i] == CoreOf(i)
  {
    CoreRow0(); CoreRow1(); CoreRow2(); CoreRow3();
    CoreRow4(); CoreRow5(); CoreRow6(); CoreRow7();
  }

  /** The eight rows of id_to_node agree with NodeOf. */
  lemma IdToNodeClosedForm()
    ensures |IdToNode| == 80
    ensures forall c :: 0 <= c < 80 ==> IdToNode[c] == NodeOf(c)
  {
    NodeRow0(); NodeRow1(); NodeRow2(); NodeRow3();
    NodeRow4(); NodeRow5(); NodeRow6(); NodeRow7();
  }

  /** id_to_core sends the ids 0 .. 79 onto the cores 0 .. 79 and leaves
      every higher id in place, so the node lookup is in range exactly for
      ids below 80. */
  lemma CoreLookup(i: nat)
    requires i < 256
    ensures |IdToCore| == 256 && |IdToNode| == 80
    ensures i < 80 ==> IdToCore[i] == CoreOf(i)
    ensures IdToCore[i] < 80 <==> i < 80
  {
    LowCoresClosedForm();
    IdToNodeClosedForm();
    if i < 80 {
      assert IdToCore[i] == LowCores[i];
    } else {
      assert IdToCore[i] == Count(80, 256)[i - 80];
    }
  }

  /** The socket of id i, through both tables. */
  function Node(i: nat): nat
    requires i < 80
  {
    CoreLookup(i);
    IdToNode[IdToCore[i]]
  }

  /** Sockets hold ten consecutive ids each: the shift of id_to_core and
      the odd rows of id_to_node cancel out. */
  lemma NodeIsTenth(i: nat)
    requires i < 80
    ensures Node(i) == i / 10
  {
    CoreLookup(i);
    IdToNodeClosedForm();
    assert Node(i) == NodeOf(CoreOf(i));
  }

  /** ssmp_cores_on_same_socket_platf. */
  function SameSocket(core1: nat, core2: nat): bool
    requires core1 < 80 && core2 < 80
  {
    Node(core1) == Node(core2)
  }

  /** Two ids share a socket iff they lie in the same block of ten. */
  lemma SameSocketMeaning(core1: nat, core2: nat)
    requires core1 < 80 && core2 < 80
    ensures SameSocket(core1, core2) <==> core1 / 10 == core2 / 10
  {
    NodeIsTenth(core1);
    NodeIsTenth(core2);
  }

  /** The mailbox array after a send of `msg` into `cell`: the whole line
      is copied, with the state set to MESSG. */
  function Post(cells: seq<Line>, cell: nat, msg: Line): (r: seq<Line>)
    requires cell < |cells|
    ensures |r| == |cells|
  {
    cells[cell := msg.(tag := BufMessg)]
  }

  /**
   * ssmp_recv_from_platf: wait for the mailbox from `from` to hold a
   * message (locking it with a compare-and-swap when `from` is on another
   * socket), copy the line out and mark the mailbox empty. The copy keeps
   * the state byte it read: MESSG, or LOCKD after the swap.
   */
  method RecvFrom(e: Endpoint, cells: array<Line>, from: nat) returns (msg: Line)
    requires e.Valid(cells) && from in e.recvBuf
    requires e.id < 80 && from < 80
    requires Ready(cells, e.recvBuf[from])
    modifies cells
    ensures msg.words == old(cells[e.recvBuf[from]]).words
    ensures msg.tag == (if SameSocket(e.id, from) then BufMessg else BufLockd)
    ensures cells[..] == Take(old(cells[..]), e.recvBuf[from])
  {
    var cell := e.recvBuf[from];
    if !SameSocket(e.id, from) {
      cells[cell] := cells[cell].(tag := BufLockd);
    }
    msg := cells[cell];
    cells[cell] := cells[cell].(tag := BufEmpty);
  }

  /**
   * ssmp_recv_platf: scan the peers in id order and take the message of
   * the first one whose mailbox is full, recording it as the sender.
   * `from` is that peer; the caller learns it only through `msg.tag`.
   */
  method Recv(e: Endpoint, cells: array<Line>) returns (msg: Line, ghost from: nat)
    requires e.Valid(cells) && e.Wired()
    requires exists c :: 0 <= c < e.n && c != e.id && Ready(cells, e.recvBuf[c])
    modifies cells
    ensures from < e.n && from != e.id && from in e.recvBuf
    ensures old(Ready(cells, e.recvBuf[from]))
    ensures forall c :: 0 <= c < from && c != e.id ==> !old(Ready(cells, e.recvBuf[c]))
    ensures msg == old(cells[e.recvBuf[from]]).(tag := from % 256)
    ensures cells[..] == Take(old(cells[..]), e.recvBuf[from])
  {
    var c := 0;
    while c < e.n
      invariant c <= e.n
      invariant cells[..] == old(cells[..])
      invariant forall k :: 0 <= k < c && k != e.id ==> !Ready(cells, e.recvBuf[k])
    {
      if c != e.id && Ready(cells, e.recvBuf[c]) {
        var cell := e.recvBuf[c];
        msg := cells[cell].(tag := c % 256);
        cells[cell] := cells[cell].(tag := BufEmpty);
        from := c;
        return;
      }
      c := c + 1;
    }
    assert false;
  }

  /**
   * The scan loop shared by both colour receives: visit the entries lo ..
   * numUes - 1 in order, locking with a compare-and-swap when the entry's
   * index is not on this endpoint's socket, and take the first full one.
   */
  method ScanFrom(e: Endpoint, cells: array<Line>, cb: ColorBuf.ColorBuf, lo: nat)
    returns (found: bool, msg: Line, i: nat)
    requires e.Valid(cells) && cb.Valid(cells)
    requires e.id < 80 && cb.numUes <= 80
    modifies cells
    ensures found ==> lo <= i < cb.numUes && old(Ready(cells, cb.bufState[i]))
    ensures found ==> forall k :: lo <= k < i ==> !old(Ready(cells, cb.bufState[k]))
    ensures found ==> msg == old(cells[cb.buf[i]]).(tag := cb.from[i])
    ensures found ==> cells[..] == Take(old(cells[..]), cb.buf[i])
    ensures !found ==> forall k :: lo <= k < cb.numUes ==> !Ready(cells, cb.bufState[k])
    ensures !found ==> cells[..] == old(cells[..])
  {
    var k := lo;
    while k < cb.numUes
      invariant lo <= k && (k <= cb.numUes || k == lo)
      invariant cells[..] == old(cells[..])
      invariant forall j :: lo <= j < k ==> !Ready(cells, cb.bufState[j])
    {
      // Both the swap and the plain read succeed exactly on a full mailbox.
      if Ready(cells, cb.bufState[k]) {
        msg := TakeEntry(e, cells, cb, k);
        found, i := true, k;
        return;
      }
      k := k + 1;
    }
    found, msg, i := false, Line([], BufEmpty), k;
  }

  /** The body of the scan on a full entry k: lock it with the swap when
      the socket test fails, copy the line with the sender's id, and empty
      the slot. */
  method TakeEntry(e: Endpoint, cells: array<Line>, cb: ColorBuf.ColorBuf, k: nat) returns (msg: Line)
    requires cb.Valid(cells) && e.id < 80 && k < cb.numUes <= 80
    requires Ready(cells, cb.bufState[k])
    modifies cells
    ensures msg == old(cells[cb.buf[k]]).(tag := cb.from[k])
    ensures cells[..] == Take(old(cells[..]), cb.buf[k])
  {
    var state := cb.bufState[k];
    if !SameSocket(e.id, k) {
      cells[state] := cells[state].(tag := BufLockd);
    }
    var cell := cb.buf[k];
    msg := cells[cell].(tag := cb.from[k]);
    cells[cell] := cells[cell].(tag := BufEmpty);
  }

  /** ssmp_recv_color_platf: a scan from entry 0 every time, so the lowest
      full entry wins. */
  method RecvColor(e: Endpoint, cells: array<Line>, cb: ColorBuf.ColorBuf) returns (msg: Line, ghost i: nat)
    requires e.Valid(cells) && cb.Valid(cells)
    requires e.id < 80 && cb.numUes <= 80
    requires exists k :: 0 <= k < cb.numUes && Ready(cells, cb.bufState[k])
    modifies cells
    ensures i < cb.numUes && old(Ready(cells, cb.bufState[i]))
    ensures forall k :: 0 <= k < i ==> !old(Ready(cells, cb.bufState[k]))
    ensures msg == old(cells[cb.buf[i]]).(tag := cb.from[i])
    ensures cells[..] == Take(old(cells[..]), cb.buf[i])
  {
    var found, k;
    found, msg, k := ScanFrom(e, cells, cb, 0);
    if !found {
      assert false;
    }
    i := k;
  }

  /**
   * ssmp_recv_color_start_platf: the scan resumes at the process-wide
   * cursor, wraps round to entry 0 once, and leaves the cursor just after
   * the entry it served. The entry served is the nearest full one in that
   * cyclic order.
   */
  method RecvColorStart(e: Endpoint, cells: array<Line>, cb: ColorBuf.ColorBuf) returns (msg: Line, ghost i: nat)
    requires e.Valid(cells) && cb.Valid(cells)
    requires e.id < 80 && cb.numUes <= 80
    requires exists k :: 0 <= k < cb.numUes && Ready(cells, cb.bufState[k])
    modifies cells, e`cursor
    ensures i < cb.numUes && old(Ready(cells, cb.bufState[i]))
    ensures forall k :: 0 <= k < cb.numUes
              && Dist(ScanStart(old(e.cursor), cb.numUes), k, cb.numUes)
                 < Dist(ScanStart(old(e.cursor), cb.numUes), i, cb.numUes)
              ==> !old(Ready(cells, cb.bufState[k]))
    ensures msg == old(cells[cb.buf[i]]).(tag := cb.from[i])
    ensures cells[..] == Take(old(cells[..]), cb.buf[i])
    ensures e.cursor == NextCursor(i, cb.numUes)
  {
    var found, k;
    found, msg, k := ScanFrom(e, cells, cb, e.cursor);
    if !found {
      found, msg, k := ScanFrom(e, cells, cb, 0);
      if !found {
        assert false;
      }
    }
    e.cursor := NextCursor(k, cb.numUes);
    i := k;
  }

  /**
   * ssmp_send_platf: wait for the mailbox to `to` to be empty (locking it
   * with a compare-and-swap when `to` is on another socket), mark the
   * caller's message as MESSG and copy the whole line into the mailbox.
   * `sent` is the caller's message after the call.
   */
  method Send(e: Endpoint, cells: array<Line>, to: nat, msg: Line) returns (sent: Line)
    requires e.Valid(cells) && to in e.sendBuf
    requires e.id < 80 && to < 80
    requires Free(cells, e.sendBuf[to])
    modifies cells
    ensures sent == msg.(tag := BufMessg)
    ensures cells[..] == Post(old(cells[..]), e.sendBuf[to], msg)
  {
    var cell := e.sendBuf[to];
    if !SameSocket(e.id, to) {
      cells[cell] := cells[cell].(tag := BufLockd);
    }
    sent := msg.(tag := BufMessg);
    cells[cell] := sent;
  }

  /** ssmp_send_is_free_platf: true exactly when a blocking send to `to`
      would not wait. */
  method SendIsFree(e: Endpoint, cells: array<Line>, to: nat) returns (free: bool)
    requires e.Valid(cells) && to in e.sendBuf
    ensures free <==> Free(cells, e.sendBuf[to])
  {
    free := cells[e.sendBuf[to]].State() == BufEmpty;
  }

  /** ssmp_send_no_sync_platf: the copy of a send without the wait, so a
      message not yet taken is overwritten. */
  method SendNoSync(e: Endpoint, cells: array<Line>, to: nat, msg: Line) returns (sent: Line)
    requires e.Valid(cells) && to in e.sendBuf
    modifies cells
    ensures sent == msg.(tag := BufMessg)
    ensures cells[..] == Post(old(cells[..]), e.sendBuf[to], msg)
  {
    var cell := e.sendBuf[to];
    sent := msg.(tag := BufMessg);
    cells[cell] := sent;
  }

  /**
   * A send from `s` to `r` followed by `r`'s receive from `s` goes through
   * one mailbox: the send makes the receiver's wait end, the receiver
   * copies exactly the words sent, and the mailbox is empty again, so the
   * next send does not wait. Nothing else changes.
   */
  lemma Delivery(cells: seq<Line>, n: nat, s: nat, r: nat, msg: Line)
    requires s < n && r < n && s != r
    requires X86Arch.SendCell(n, s, r) < |cells|
    requires cells[X86Arch.SendCell(n, s, r)].State() == BufEmpty
    ensures X86Arch.SendCell(n, s, r) == X86Arch.RecvCell(n, r, s)
    ensures Post(cells, X86Arch.SendCell(n, s, r), msg)[X86Arch.SendCell(n, s, r)].State() == BufMessg
    ensures Post(cells, X86Arch.SendCell(n, s, r), msg)[X86Arch.SendCell(n, s, r)].words == msg.words
    ensures Take(Post(cells, X86Arch.SendCell(n, s, r), msg), X86Arch.SendCell(n, s, r))
            == cells[X86Arch.SendCell(n, s, r) := Line(msg.words, BufEmpty)]
  {
    X86Arch.CellsAgree(n, s, r);
  }

  /** A send from `s` to `r` leaves the mailbox of every other ordered pair
      of endpoints as it was. */
  lemma Isolation(cells: seq<Line>, n: nat, s: nat, r: nat, s2: nat, r2: nat, msg: Line)
    requires s < n && r < n && s != r
    requires s2 < n && r2 < n && s2 != r2
    requires s2 != s || r2 != r
    requires |cells| == n * (n - 1)
    ensures X86Arch.SendCell(n, s, r) < |cells| && X86Arch.RecvCell(n, r2, s2) < |cells|
    ensures Post(cells, X86Arch.SendCell(n, s, r), msg)[X86Arch.RecvCell(n, r2, s2)]
            == cells[X86Arch.RecvCell(n, r2, s2)]
  {
    X86Arch.CellsAgree(n, s, r);
    X86Arch.CellsAgree(n, s2, r2);
    if X86Arch.SendCell(n, s, r) == X86Arch.RecvCell(n, r2, s2) {
      X86Arch.CellsInjective(n, r, s, r2, s2);
    }
  }

  /** The colour receives test the socket of the buffer index, not of the
      peer behind it: for endpoint 0 selecting everyone out of 11, entry 9
      is peer 10, which is on socket 1, while index 9 is on socket 0. The two
      paths differ only in the lock taken, not in what is received. */
  lemma SocketTestUsesIndex()
    ensures ColorBuf.Selected(0, 11, _ => 1)[9] == 10
    ensures SameSocket(0, 9) && !SameSocket(0, 10)
  {
    var all: Ssmp.Color := _ => 1;
    assert ColorBuf.SelectedFrom(0, 11, all, 10) == [10];
    assert ColorBuf.SelectedFrom(0, 11, all, 9) == [9, 10];
    assert ColorBuf.SelectedFrom(0, 11, all, 8) == [8, 9, 10];
    assert ColorBuf.SelectedFrom(0, 11, all, 7) == [7, 8, 9, 10];
    assert ColorBuf.SelectedFrom(0, 11, all, 6) == [6, 7, 8, 9, 10];
    assert ColorBuf.SelectedFrom(0, 11, all, 5) == [5, 6, 7, 8, 9, 10];
    assert ColorBuf.SelectedFrom(0, 11, all, 4) == [4, 5, 6, 7, 8, 9, 10];
    assert ColorBuf.SelectedFrom(0, 11, all, 3) == [3, 4, 5, 6, 7, 8, 9, 10];
    assert ColorBuf.SelectedFrom(0, 11, all, 2) == [2, 3, 4, 5, 6, 7, 8, 9, 10];
    assert ColorBuf.SelectedFrom(0, 11, all, 1) == [1, 2, 3, 4, 5, 6, 7, 8, 9, 10];
    assert ColorBuf.SelectedFrom(0, 11, all, 0) == [1, 2, 3, 4, 5, 6, 7, 8, 9, 10];
    SameSocketMeaning(0, 9);
    SameSocketMeaning(0, 10);
  }
}
