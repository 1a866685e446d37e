/**
 * The SPARC architecture file (src/arch/sparc/ssmp_arch.c): the id-to-core
 * table, the flat n * n mailbox grid at the start of the shared region,
 * and per-endpoint setup.
 */
module SparcArch {
  import opened Msg
  import opened Context
  import Arith
  import Layout

  /** id_to_core: the Niagara's 64 hardware threads, listed core by core. */
  const IdToCore: seq<nat> :=
    [0, 8, 16, 24, 32, 40, 48, 56]
    + [9, 17, 25, 33, 41, 49, 57]
    + [10, 18, 26, 34, 42, 50, 58]
    + [11, 19, 27, 35, 43, 51, 59]
    + [12, 20, 28, 36, 44, 52, 60]
    + [13, 21, 29, 37, 45, 53, 61]
    + [14, 22, 30, 38, 46, 54, 62]
    + [15, 23, 31, 39, 47, 55, 63]
    + [1, 2, 3, 4, 5, 6, 7]

  /** Where row r of the table starts (row 0 has eight entries, the others
      seven). */
  function RowStart(r: nat): nat
  {
    if r == 0 then 0 else 1 + 7 * r
  }

  /** The position of core c in the table. */
  function CoreToId(c: nat): nat
    requires c < 64
  {
    if c % 8 == 0 then c / 8
    else if c < 8 then 56 + c
    else RowStart(c % 8) + c / 8 - 1
  }

  lemma FirstRow()
    ensures forall i :: 0 <= i < 8 ==> IdToCore[i] == 8 * i
  {
  }

  lemma MiddleRow(r: nat)
    requires 1 <= r < 8
    ensures forall i :: RowStart(r) <= i < RowStart(r) + 7 ==> IdToCore[i] == 8 * (i - RowStart(r) + 1) + r
  {
    if r == 1 {
    } else if r == 2 {
    } else if r == 3 {
    } else if r == 4 {
    } else if r == 5 {
    } else if r == 6 {
    } else {
    }
  }

  lemma LastRow()
    ensures forall i :: 57 <= i < 64 ==> IdToCore[i] == i - 56
  {
  }

  /** CoreToId finds every core. */
  lemma CoreToIdFinds(c: nat)
    requires c < 64
    ensures CoreToId(c) < 64 && IdToCore[CoreToId(c)] == c
  {
    if c % 8 == 0 {
      FirstRow();
    } else if c < 8 {
      LastRow();
    } else {
      MiddleRow(c % 8);
    }
  }

  /** CoreToId undoes the table. */
  lemma CoreToIdUndoes(i: nat)
    requires i < 64
    ensures IdToCore[i] < 64 && CoreToId(IdToCore[i]) == i
  {
    if i < 8 {
      FirstRow();
      Arith.DivModOfSum(i, 0, 8);
    } else if i < 57 {
      var r := (i - 1) / 7;
      assert RowStart(r) <= i < RowStart(r) + 7;
      MiddleRow(r);
      Arith.DivModOfSum(i - RowStart(r) + 1, r, 8);
    } else {
      LastRow();
    }
  }

  /** The table has 64 entries and lists every core 0 .. 63 exactly once. */
  lemma IdToCoreIsPermutation()
    ensures |IdToCore| == 64
    ensures forall c :: 0 <= c < 64 ==> c in IdToCore
    ensures forall i, j :: 0 <= i < j < 64 ==> IdToCore[i] != IdToCore[j]
  {
    forall c | 0 <= c < 64
      ensures c in IdToCore
    {
      CoreToIdFinds(c);
    }
    forall i, j | 0 <= i < j < 64
      ensures IdToCore[i] != IdToCore[j]
    {
      CoreToIdUndoes(i);
      CoreToIdUndoes(j);
    }
  }

  /** Cell of the grid that `id` reads for messages from `core`. */
  function RecvCell(n: nat, id: nat, core: nat): nat
  {
    id * n + core
  }

  /** Cell of the grid that `id` writes for messages to `core`. */
  function SendCell(n: nat, id: nat, core: nat): nat
  {
    core * n + id
  }

  /** ssmp_recv_buf after mem_init: an entry for every endpoint, self
      included. */
  function RecvTable(id: nat, n: nat): map<nat, nat>
  {
    map c | 0 <= c < n :: RecvCell(n, id, c)
  }

  /** ssmp_send_buf after mem_init: an entry for every endpoint, self
      included. */
  function SendTable(id: nat, n: nat): map<nat, nat>
  {
    map c | 0 <= c < n :: SendCell(n, id, c)
  }

  /** Sender s's send cell for receiver r is receiver r's receive cell for
      s, and lies inside the grid. */
  lemma CellsAgree(n: nat, s: nat, r: nat)
    requires s < n && r < n
    ensures SendCell(n, s, r) == RecvCell(n, r, s)
    ensures RecvCell(n, r, s) < n * n
  {
    Arith.MulCompare(r + 1, n, n);
  }

  /** Distinct (receiver, sender) pairs have distinct cells. */
  lemma CellsInjective(n: nat, r1: nat, s1: nat, r2: nat, s2: nat)
    requires r1 < n && s1 < n && r2 < n && s2 < n
    requires RecvCell(n, r1, s1) == RecvCell(n, r2, s2)
    ensures r1 == r2 && s1 == s2
  {
    Arith.DivModOfSum(r1, s1, n);
    Arith.DivModOfSum(r2, s2, n);
  }

  /** Both tables of endpoint `id` point into the grid; distinct peers get
      distinct send cells. */
  lemma TablesWellFormed(id: nat, n: nat)
    requires id < n
    ensures forall c :: c in RecvTable(id, n) ==> RecvTable(id, n)[c] < n * n
    ensures forall c :: c in SendTable(id, n) ==> SendTable(id, n)[c] < n * n
    ensures forall c1, c2 :: c1 in SendTable(id, n) && c2 in SendTable(id, n) && c1 != c2 ==>
              SendTable(id, n)[c1] != SendTable(id, n)[c2]
  {
    forall c | c in RecvTable(id, n)
      ensures RecvTable(id, n)[c] < n * n
    {
      CellsAgree(n, c, id);
    }
    forall c | c in SendTable(id, n)
      ensures SendTable(id, n)[c] < n * n
    {
      CellsAgree(n, id, c);
    }
    forall c1, c2 | c1 in SendTable(id, n) && c2 in SendTable(id, n) && c1 != c2
      ensures SendTable(id, n)[c1] != SendTable(id, n)[c2]
    {
      if SendTable(id, n)[c1] == SendTable(id, n)[c2] {
        CellsInjective(n, c1, id, c2, id);
      }
    }
  }

  /** Offsets of the SPARC shared region: n * n mailboxes, then barrier
      table, initialised flags and chunk buffers. */
  function RegionLayout(n: nat, numBarriers: nat, z: Layout.Sizes): (r: Layout.Region)
    requires z.line > 0
    ensures Layout.WellLaidOut(r, n * n * z.msg, n, numBarriers, z)
  {
    Layout.Sections(n * n * z.msg, n, numBarriers, z)
  }

  /**
   * ssmp_mem_init_platf: points recv_buf at row `id` of the grid and
   * clears the state of each of those n cells, points send_buf at column
   * `id`, and clears the state of the endpoint's own chunk buffer only.
   */
  method MemInit(e: Endpoint, cells: array<Line>, chunks: array<Chunk>, id: nat, n: nat)
    requires id < n
    requires cells.Length == n * n && chunks.Length == n
    modifies e, cells, chunks
    ensures e.id == id && e.n == n && e.lastRecvFrom == (id + 1) % n && e.cursor == old(e.cursor)
    ensures e.recvBuf == RecvTable(id, n) && e.sendBuf == SendTable(id, n)
    ensures e.Valid(cells) && e.Wired()
    ensures chunks[..] == old(chunks[..])[id := old(chunks[id]).(state := 0)]
    ensures forall k :: 0 <= k < cells.Length ==>
              cells[k] == if id * n <= k < id * n + n then old(cells[k]).(tag := BufEmpty) else old(cells[k])
  {
    e.id := id;
    e.n := n;
    e.lastRecvFrom := (id + 1) % n;
    TablesWellFormed(id, n);
    Arith.MulCompare(id + 1, n, n);
    InitGrid(e, cells, id, n);
    chunks[id] := chunks[id].(state := 0);
  }

  /** The loop of mem_init over the n endpoints. */
  method InitGrid(e: Endpoint, cells: array<Line>, id: nat, n: nat)
    requires id < n && id * n + n <= cells.Length
    modifies e`recvBuf, e`sendBuf, cells
    ensures e.recvBuf == RecvTable(id, n) && e.sendBuf == SendTable(id, n)
    ensures forall k :: 0 <= k < cells.Length ==>
              cells[k] == if id * n <= k < id * n + n then old(cells[k]).(tag := BufEmpty) else old(cells[k])
  {
    var base := id * n;
    e.recvBuf := map[];
    e.sendBuf := map[];
    var core := 0;
    while core < n
      invariant core <= n
      invariant e.recvBuf == map c | 0 <= c < core :: RecvCell(n, id, c)
      invariant e.sendBuf == map c | 0 <= c < core :: SendCell(n, id, c)
      invariant forall k :: 0 <= k < cells.Length ==>
                  cells[k] == if base <= k < base + core then old(cells[k]).(tag := BufEmpty) else old(cells[k])
    {
      e.recvBuf := e.recvBuf[core := base + core];
      cells[base + core] := cells[base + core].(tag := BufEmpty);
      e.sendBuf := e.sendBuf[core := core * n + id];
      core := core + 1;
    }
  }
}
