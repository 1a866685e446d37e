/**
 * ssmp_broadcast (src/ssmp_broadcast.c:39-52): one blocking send of the
 * same message to every other endpoint, in id order, here over the Xeon
 * platform's send.
 */
module Broadcast {
  import opened Msg
  import opened Context
  import opened Poll
  import Xeon
  import X86Arch

  /** The endpoints below `upto` other than self, in the order the loop
      sends to them; Targets(self, n) is the whole broadcast. */
  function Targets(self: nat, upto: nat): seq<nat>
    decreases upto
  {
    if upto == 0 then [] else Targets(self, upto - 1) + (if upto - 1 == self then [] else [upto - 1])
  }

  /** The targets below `upto` are exactly the endpoints below it other
      than self. */
  lemma {:induction false} TargetsMembers(self: nat, upto: nat)
    ensures forall x :: x in Targets(self, upto) <==> 0 <= x < upto && x != self
    decreases upto
  {
    if upto > 0 {
      TargetsMembers(self, upto - 1);
    }
  }

  /** Each endpoint is sent to once, in ascending order: upto - 1 sends
      when self is below upto. */
  lemma {:induction false} TargetsOrder(self: nat, upto: nat)
    ensures forall i, j :: 0 <= i < j < |Targets(self, upto)| ==> Targets(self, upto)[i] < Targets(self, upto)[j]
    ensures |Targets(self, upto)| == if self < upto then upto - 1 else upto
    decreases upto
  {
    if upto > 0 {
      var init := Targets(self, upto - 1);
      TargetsOrder(self, upto - 1);
      TargetsMembers(self, upto - 1);
      assert forall i :: 0 <= i < |init| ==> init[i] in init;
    }
  }

  /** The cells a table gives for a list of peers, in the same order. */
  function Mailboxes(table: map<nat, nat>, peers: seq<nat>): (r: seq<nat>)
    requires forall p :: p in peers ==> p in table
    ensures |r| == |peers|
    ensures forall i :: 0 <= i < |peers| ==> r[i] == table[peers[i]]
  {
    if |peers| == 0 then [] else Mailboxes(table, peers[..|peers| - 1]) + [table[peers[|peers| - 1]]]
  }

  /** The mailbox array after a send of `msg` into each of `targets`, in
      order. */
  function PostAll(cells: seq<Line>, targets: seq<nat>, msg: Line): (r: seq<Line>)
    requires forall i :: 0 <= i < |targets| ==> targets[i] < |cells|
    ensures |r| == |cells|
    decreases |targets|
  {
    if |targets| == 0 then cells
    else Xeon.Post(PostAll(cells, targets[..|targets| - 1], msg), targets[|targets| - 1], msg)
  }

  /** After the sends a target cell holds the message marked MESSG and any
      other cell is unchanged. */
  lemma {:induction false} PostAllAt(cells: seq<Line>, targets: seq<nat>, msg: Line, k: nat)
    requires forall i :: 0 <= i < |targets| ==> targets[i] < |cells|
    requires k < |cells|
    ensures PostAll(cells, targets, msg)[k] == if k in targets then msg.(tag := BufMessg) else cells[k]
    decreases |targets|
  {
    if |targets| > 0 {
      var init := targets[..|targets| - 1];
      PostAllAt(cells, init, msg, k);
      assert k in targets <==> k in init || k == targets[|targets| - 1];
    }
  }

  /** The same for every cell at once. */
  lemma PostAllEffect(cells: seq<Line>, targets: seq<nat>, msg: Line)
    requires forall i :: 0 <= i < |targets| ==> targets[i] < |cells|
    ensures forall k :: 0 <= k < |cells| ==>
              PostAll(cells, targets, msg)[k] == if k in targets then msg.(tag := BufMessg) else cells[k]
  {
    forall k | 0 <= k < |cells|
      ensures PostAll(cells, targets, msg)[k] == if k in targets then msg.(tag := BufMessg) else cells[k]
    {
      PostAllAt(cells, targets, msg, k);
    }
  }

  /** One more send extends the run by the peer's mailbox; whether the
      caller's copy was already marked MESSG does not matter. */
  lemma PostAllSnoc(cells: seq<Line>, table: map<nat, nat>, order: seq<nat>, c: nat, msg: Line, sent: Line)
    requires forall p :: p in order ==> p in table && table[p] < |cells|
    requires c in table && table[c] < |cells|
    requires sent.(tag := BufMessg) == msg.(tag := BufMessg)
    ensures forall i :: 0 <= i < |Mailboxes(table, order)| ==> Mailboxes(table, order)[i] < |cells|
    ensures PostAll(cells, Mailboxes(table, order + [c]), msg)
            == Xeon.Post(PostAll(cells, Mailboxes(table, order), msg), table[c], sent)
  {
    var longer := order + [c];
    assert longer[..|longer| - 1] == order;
  }

  /** A peer not yet sent to has a mailbox no earlier send touched, when
      distinct peers have distinct mailboxes. */
  lemma FreshMailbox(table: map<nat, nat>, peers: seq<nat>, c: nat)
    requires forall p :: p in peers ==> p in table
    requires c in table && c !in peers
    requires forall p :: p in peers ==> table[p] != table[c]
    ensures table[c] !in Mailboxes(table, peers)
  {
  }

  /** The mailbox array a broadcast may start from: every peer has a table
      entry naming an empty cell, and distinct peers have distinct cells. */
  ghost predicate AllFree(self: nat, n: nat, table: map<nat, nat>, start: seq<Line>)
  {
    (forall c :: 0 <= c < n && c != self ==> c in table && table[c] < |start| && start[table[c]].State() == BufEmpty)
    && (forall c1, c2 :: 0 <= c1 < n && 0 <= c2 < n && c1 != self && c2 != self && c1 != c2 ==>
          table[c1] != table[c2])
  }

  /** The caller's message and the mailbox array once the loop has
      visited the endpoints below `core`: those peers have been sent to, in
      order, and nothing else has changed. */
  ghost function AfterVisits(self: nat, n: nat, table: map<nat, nat>, start: seq<Line>, msg: Line, core: nat)
    : (Line, seq<Line>)
    requires core <= n && AllFree(self, n, table, start)
  {
    TargetsMembers(self, core);
    var done := Targets(self, core);
    assert forall i :: 0 <= i < |done| ==> done[i] in done;
    (if done == [] then msg else msg.(tag := BufMessg), PostAll(start, Mailboxes(table, done), msg))
  }

  /**
   * ssmp_broadcast over endpoint `e`. Each send's wait becomes the
   * requirement that every peer's mailbox is empty; the mailboxes of
   * distinct peers are distinct cells (as the send table mem_init builds
   * has them). The mailbox array ends as the run of sends to the targets
   * in their order, and the caller's message is marked MESSG once any
   * send happened.
   */
  method Broadcast(e: Endpoint, cells: array<Line>, msg: Line) returns (sent: Line)
    requires e.Valid(cells) && e.n <= 80 && e.sendBuf == X86Arch.SendTable(e.id, e.n)
    requires forall c :: 0 <= c < e.n && c != e.id ==> Free(cells, X86Arch.SendCell(e.n, e.id, c))
    modifies cells
    ensures forall p :: p in Targets(e.id, e.n) ==> p in e.sendBuf && e.sendBuf[p] < cells.Length
    ensures sent == if e.n > 1 then msg.(tag := BufMessg) else msg
    ensures cells[..] == PostAll(old(cells[..]), Mailboxes(e.sendBuf, Targets(e.id, e.n)), msg)
  {
    ghost var start := cells[..];
    StartsFree(e, cells);
    sent := VisitAll(e, cells, msg, start);
    AllVisited(e.id, e.n, e.sendBuf, start, msg, sent, cells[..]);
  }

  /** The loop of ssmp_broadcast over the ids 0 .. n - 1. */
  method VisitAll(e: Endpoint, cells: array<Line>, msg: Line, ghost start: seq<Line>) returns (sent: Line)
    requires e.Valid(cells) && e.n <= 80 && AllFree(e.id, e.n, e.sendBuf, start) && start == cells[..]
    modifies cells
    ensures (sent, cells[..]) == AfterVisits(e.id, e.n, e.sendBuf, start, msg, e.n)
  {
    sent := msg;
    var core := 0;
    while core < e.n
      invariant core <= e.n
      invariant (sent, cells[..]) == AfterVisits(e.id, e.n, e.sendBuf, start, msg, core)
    {
      sent := Visit(e, cells, msg, sent, core, start);
      core := core + 1;
    }
  }

  /** The requirements of Broadcast, restated over the values of the
      endpoint's table and the mailbox array. */
  lemma StartsFree(e: Endpoint, cells: array<Line>)
    requires e.Valid(cells) && e.sendBuf == X86Arch.SendTable(e.id, e.n)
    requires forall c :: 0 <= c < e.n && c != e.id ==> Free(cells, X86Arch.SendCell(e.n, e.id, c))
    ensures e.id < e.n && AllFree(e.id, e.n, e.sendBuf, cells[..])
  {
    X86Arch.TablesWellFormed(e.id, e.n);
  }

  /** Once every endpoint is visited, the loop has sent to exactly the
      targets, in their order. */
  lemma AllVisited(self: nat, n: nat, table: map<nat, nat>, start: seq<Line>, msg: Line, sent: Line, now: seq<Line>)
    requires self < n && AllFree(self, n, table, start)
    requires (sent, now) == AfterVisits(self, n, table, start, msg, n)
    ensures forall p :: p in Targets(self, n) ==> p in table && table[p] < |start|
    ensures sent == if n > 1 then msg.(tag := BufMessg) else msg
    ensures now == PostAll(start, Mailboxes(table, Targets(self, n)), msg)
  {
    TargetsMembers(self, n);
    TargetsOrder(self, n);
  }

  /** One pass of the loop: endpoint `core` is sent to unless it is the
      caller itself. Its mailbox is one no earlier send touched, so the
      send does not wait. */
  method Visit(e: Endpoint, cells: array<Line>, msg: Line, sent: Line, core: nat, ghost start: seq<Line>)
    returns (next: Line)
    requires e.Valid(cells) && e.n <= 80 && core < e.n && AllFree(e.id, e.n, e.sendBuf, start)
    requires (sent, cells[..]) == AfterVisits(e.id, e.n, e.sendBuf, start, msg, core)
    modifies cells
    ensures (next, cells[..]) == AfterVisits(e.id, e.n, e.sendBuf, start, msg, core + 1)
  {
    ghost var done := Targets(e.id, core);
    TargetsMembers(e.id, core);
    TargetsMembers(e.id, core + 1);
    if core != e.id {
      FreshMailbox(e.sendBuf, done, core);
      PostAllAt(start, Mailboxes(e.sendBuf, done), msg, e.sendBuf[core]);
      PostAllSnoc(start, e.sendBuf, done, core, msg, sent);
      next := Xeon.Send(e, cells, core, sent);
      assert Targets(e.id, core + 1) == done + [core];
    } else {
      next := sent;
      assert Targets(e.id, core + 1) == done;
    }
  }
}
