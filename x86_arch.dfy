/**
 * Mailbox addressing and per-endpoint setup of the x86 architecture file
 * (src/arch/x86/ssmp_arch.c). Every receiver owns a segment of n - 1
 * mailboxes, one per peer; the model lays the n segments end to end in
 * one array of lines, receiver r's segment starting at cell r * (n - 1).
 */
module X86Arch {
  import opened Msg
  import opened Context
  import Arith
  import Layout

  /** Slot of sender `core` in receiver `id`'s segment, as the receiver
      computes it: the receiver itself has no slot, so later senders move
      down by one. */
  function RecvSlot(id: nat, core: nat): nat
  {
    if core > id then core - 1 else core
  }

  /** Slot that sender `id` writes in receiver `core`'s segment, as the
      sender computes it. */
  function SendSlot(id: nat, core: nat): nat
  {
    if core < id then id - 1 else id
  }

  /** The sender owning a slot of receiver `id`'s segment. */
  function SlotPeer(id: nat, slot: nat): nat
  {
    if slot < id then slot else slot + 1
  }

  /** Slots of a segment are exactly 0 .. n - 2, one per peer: RecvSlot
      and SlotPeer are inverse bijections between the peers of `id` and the
      slots of its segment. */
  lemma RecvSlotBijection(id: nat, n: nat)
    requires id < n
    ensures forall core :: 0 <= core < n && core != id ==>
              RecvSlot(id, core) < n - 1 && SlotPeer(id, RecvSlot(id, core)) == core
    ensures forall slot :: 0 <= slot < n - 1 ==>
              SlotPeer(id, slot) < n && SlotPeer(id, slot) != id && RecvSlot(id, SlotPeer(id, slot)) == slot
  {
  }

  /** Distinct senders land in distinct slots of a receiver's segment. */
  lemma RecvSlotInjective(id: nat, c1: nat, c2: nat)
    requires c1 != id && c2 != id && c1 != c2
    ensures RecvSlot(id, c1) != RecvSlot(id, c2)
  {
  }

  /** The sender and the receiver of a pair compute the same slot. */
  lemma SlotsAgree(sender: nat, receiver: nat)
    requires sender != receiver
    ensures SendSlot(sender, receiver) == RecvSlot(receiver, sender)
  {
  }

  /** Cell read by `id` for messages from `core`. */
  function RecvCell(n: nat, id: nat, core: nat): nat
    requires n > 0
  {
    id * (n - 1) + RecvSlot(id, core)
  }

  /** Cell written by `id` for messages to `core`. */
  function SendCell(n: nat, id: nat, core: nat): nat
    requires n > 0
  {
    core * (n - 1) + SendSlot(id, core)
  }

  /** ssmp_recv_buf after mem_init: an entry for every peer, none for self. */
  function RecvTable(id: nat, n: nat): map<nat, nat>
  {
    map c | 0 <= c < n && c != id :: RecvCell(n, id, c)
  }

  /** ssmp_send_buf after mem_init: an entry for every peer, none for self. */
  function SendTable(id: nat, n: nat): map<nat, nat>
  {
    map c | 0 <= c < n && c != id :: SendCell(n, id, c)
  }

  /** The cell a sender writes for a receiver is the cell that receiver
      reads for that sender, and it lies in the receiver's segment. */
  lemma CellsAgree(n: nat, sender: nat, receiver: nat)
    requires sender < n && receiver < n && sender != receiver
    ensures SendCell(n, sender, receiver) == RecvCell(n, receiver, sender)
    ensures receiver * (n - 1) <= RecvCell(n, receiver, sender) < (receiver + 1) * (n - 1)
    ensures RecvCell(n, receiver, sender) < n * (n - 1)
  {
    SlotsAgree(sender, receiver);
    RecvSlotBijection(receiver, n);
    Arith.MulCompare(receiver + 1, n, n - 1);
  }

  /** The cell of a pair determines the pair: no two ordered pairs share a
      mailbox. */
  lemma CellsInjective(n: nat, r1: nat, s1: nat, r2: nat, s2: nat)
    requires r1 < n && s1 < n && r1 != s1
    requires r2 < n && s2 < n && r2 != s2
    requires RecvCell(n, r1, s1) == RecvCell(n, r2, s2)
    ensures r1 == r2 && s1 == s2
  {
    RecvSlotBijection(r1, n);
    RecvSlotBijection(r2, n);
    Arith.DivModOfSum(r1, RecvSlot(r1, s1), n - 1);
    Arith.DivModOfSum(r2, RecvSlot(r2, s2), n - 1);
  }

  /** Both tables of endpoint `id` have one distinct cell per peer, all
      inside the n * (n - 1) cells of the segments. */
  lemma TablesWellFormed(id: nat, n: nat)
    requires id < n
    ensures forall c :: c in RecvTable(id, n) ==> RecvTable(id, n)[c] < n * (n - 1)
    ensures forall c :: c in SendTable(id, n) ==> SendTable(id, n)[c] < n * (n - 1)
    ensures forall c1, c2 :: c1 in SendTable(id, n) && c2 in SendTable(id, n) && c1 != c2 ==>
              SendTable(id, n)[c1] != SendTable(id, n)[c2]
  {
    forall c | c in RecvTable(id, n)
      ensures RecvTable(id, n)[c] < n * (n - 1)
    {
      CellsAgree(n, c, id);
    }
    forall c | c in SendTable(id, n)
      ensures SendTable(id, n)[c] < n * (n - 1)
    {
      CellsAgree(n, id, c);
    }
    forall c1, c2 | c1 in SendTable(id, n) && c2 in SendTable(id, n) && c1 != c2
      ensures SendTable(id, n)[c1] != SendTable(id, n)[c2]
    {
      CellsAgree(n, id, c1);
      CellsAgree(n, id, c2);
      if SendTable(id, n)[c1] == SendTable(id, n)[c2] {
        CellsInjective(n, c1, id, c2, id);
      }
    }
  }

  /** Offsets of the x86 shared region: barrier table, initialised flags,
      chunk buffers; the mailboxes live in per-receiver segments. */
  function RegionLayout(n: nat, numBarriers: nat, z: Layout.Sizes): (r: Layout.Region)
    requires z.line > 0
    ensures Layout.WellLaidOut(r, 0, n, numBarriers, z)
  {
    Layout.Sections(0, n, numBarriers, z)
  }

  /** Cells of the segment starting at `base` whose slot belongs to a
      sender below `core`: the ones the first loop of mem_init has reset. */
  predicate ResetSoFar(base: nat, id: nat, core: nat, k: nat)
  {
    base <= k < base + (if core <= id then core else core - 1)
  }

  /**
   * ssmp_mem_init_platf. With one endpoint it returns right after
   * allocating the tables, which stay empty. Otherwise the first loop
   * points chunk_buf at the chunk records and clears every chunk state,
   * and points recv_buf at the endpoint's own segment, clearing each
   * slot's state; the second loop points send_buf at the slot the endpoint
   * owns in every peer's segment.
   */
  method MemInit(e: Endpoint, cells: array<Line>, chunks: array<Chunk>, id: nat, n: nat)
    requires id < n
    requires cells.Length == n * (n - 1) && chunks.Length == n
    modifies e, cells, chunks
    ensures e.id == id && e.n == n && e.lastRecvFrom == (id + 1) % n && e.cursor == old(e.cursor)
    ensures e.Valid(cells)
    ensures n == 1 ==> e.recvBuf == map[] && e.sendBuf == map[]
    ensures n == 1 ==> cells[..] == old(cells[..]) && chunks[..] == old(chunks[..])
    ensures n > 1 ==> e.recvBuf == RecvTable(id, n) && e.sendBuf == SendTable(id, n) && e.Wired()
    ensures n > 1 ==> forall k :: 0 <= k < n ==> chunks[k] == old(chunks[k]).(state := 0)
    ensures n > 1 ==> forall k :: 0 <= k < cells.Length ==>
              cells[k] == if id * (n - 1) <= k < id * (n - 1) + (n - 1)
                          then old(cells[k]).(tag := BufEmpty) else old(cells[k])
  {
    e.id := id;
    e.n := n;
    e.lastRecvFrom := (id + 1) % n;
    e.recvBuf := map[];
    e.sendBuf := map[];
    if n == 1 {
      return;
    }
    TablesWellFormed(id, n);
    Arith.MulCompare(id + 1, n, n - 1);
    InitOwnSegment(e, cells, chunks, id, n);
    InitSendTable(e, id, n);
  }

  /** The first loop of mem_init. */
  method InitOwnSegment(e: Endpoint, cells: array<Line>, chunks: array<Chunk>, id: nat, n: nat)
    requires 1 < n && id < n && chunks.Length == n
    requires id * (n - 1) + (n - 1) <= cells.Length
    modifies e`recvBuf, cells, chunks
    ensures e.recvBuf == RecvTable(id, n)
    ensures forall k :: 0 <= k < n ==> chunks[k] == old(chunks[k]).(state := 0)
    ensures forall k :: 0 <= k < cells.Length ==>
              cells[k] == if id * (n - 1) <= k < id * (n - 1) + (n - 1)
                          then old(cells[k]).(tag := BufEmpty) else old(cells[k])
  {
    var base := id * (n - 1);
    e.recvBuf := map[];
    var core := 0;
    while core < n
      invariant core <= n
      invariant e.recvBuf == map c | 0 <= c < core && c != id :: RecvCell(n, id, c)
      invariant forall k :: 0 <= k < core ==> chunks[k] == old(chunks[k]).(state := 0)
      invariant forall k :: core <= k < n ==> chunks[k] == old(chunks[k])
      invariant forall k :: 0 <= k < cells.Length ==>
                  cells[k] == if ResetSoFar(base, id, core, k) then old(cells[k]).(tag := BufEmpty) else old(cells[k])
    {
      chunks[core] := chunks[core].(state := 0);
      if core != id {
        var cell := base + RecvSlot(id, core);
        e.recvBuf := e.recvBuf[core := cell];
        cells[cell] := cells[cell].(tag := BufEmpty);
      }
      core := core + 1;
    }
  }

  /** The second loop of mem_init. */
  method InitSendTable(e: Endpoint, id: nat, n: nat)
    requires 1 < n && id < n
    modifies e`sendBuf
    ensures e.sendBuf == SendTable(id, n)
  {
    e.sendBuf := map[];
    var core := 0;
    while core < n
      invariant core <= n
      invariant e.sendBuf == map c | 0 <= c < core && c != id :: SendCell(n, id, c)
    {
      if core != id {
        e.sendBuf := e.sendBuf[core := core * (n - 1) + SendSlot(id, core)];
      }
      core := core + 1;
    }
  }
}
