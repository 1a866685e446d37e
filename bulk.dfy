/**
 * Bulk transfer through the per-sender chunk buffers
 * (ssmp_send_big_platf and ssmp_recv_from_big_platf,
 * src/platform/xeon/ssmp_platf.c:240-270 and 320-352,
 * src/platform/niagara/ssmp_platf.c:143-176 and 213-247; the two files
 * agree). The sender cuts the data into length / SSMP_CHUNK_SIZE full
 * chunks and a last partial one of length % SSMP_CHUNK_SIZE bytes when
 * that is not 0, and passes them one at a time through its own chunk
 * buffer: it fills the buffer while the state is 0 and sets it to 1, the
 * receiver copies the buffer out while the state is non-zero and sets it
 * back to 0.
 */
module Bulk {
  import opened Msg
  import Arith

  /** How many chunks a transfer of `length` bytes uses. */
  function NumPieces(length: nat, cs: nat): (r: nat)
    requires cs > 0
  {
    length / cs + (if length % cs != 0 then 1 else 0)
  }

  /** The size of chunk k: a full chunk, or the remainder for the last. */
  function PieceSize(length: nat, cs: nat, k: nat): (r: nat)
    requires cs > 0 && k < NumPieces(length, cs)
    ensures 0 < r <= cs
  {
    if k < length / cs then cs else length % cs
  }

  /** Where chunk k starts in the data. */
  function Offset(length: nat, cs: nat, k: nat): (r: nat)
    requires cs > 0 && k <= NumPieces(length, cs)
    ensures r <= length
  {
    if k <= length / cs then OffsetBound(length, cs, k); k * cs else length
  }

  lemma OffsetBound(length: nat, cs: nat, k: nat)
    requires cs > 0 && k <= length / cs
    ensures k * cs <= length
  {
    Arith.RoundDown(length, cs);
    Arith.MulCompare(k, length / cs, cs);
  }

  /** The transfer needs the ceiling of length / cs chunks, none at all for
      an empty transfer. */
  lemma NumPiecesIsCeiling(length: nat, cs: nat)
    requires cs > 0
    ensures NumPieces(length, cs) == (length + cs - 1) / cs
    ensures NumPieces(length, cs) == 0 <==> length == 0
  {
    var q, s := length / cs, length % cs;
    assert length == q * cs + s;
    if s == 0 {
      Arith.DivModOfSum(q, cs - 1, cs);
    } else {
      assert length + cs - 1 == (q + 1) * cs + (s - 1);
      Arith.DivModOfSum(q + 1, s - 1, cs);
    }
  }

  /** The chunks tile the data in order: each starts where the previous one
      ended, the first at 0 and the last ending at `length`. */
  lemma Tiling(length: nat, cs: nat, k: nat)
    requires cs > 0 && k < NumPieces(length, cs)
    ensures Offset(length, cs, 0) == 0
    ensures Offset(length, cs, k + 1) == Offset(length, cs, k) + PieceSize(length, cs, k)
    ensures Offset(length, cs, NumPieces(length, cs)) == length
  {
    var q, s := length / cs, length % cs;
    assert length == q * cs + s;
    if k < q {
      assert (k + 1) * cs == k * cs + cs;
    }
  }

  /** The bytes of chunk k. */
  function Piece(data: seq<byte>, cs: nat, k: nat): (r: seq<byte>)
    requires cs > 0 && k < NumPieces(|data|, cs)
    ensures |r| == PieceSize(|data|, cs, k)
  {
    Tiling(|data|, cs, k);
    data[Offset(|data|, cs, k)..Offset(|data|, cs, k + 1)]
  }

  /**
   * Both loops of one transfer, abstractly: chunks handed over by the
   * sender so far, chunks copied out by the receiver, the sender's chunk
   * buffer, and the bytes the receiver has so far.
   */
  datatype Transfer = Transfer(sent: nat, taken: nat, chunk: Chunk, received: seq<byte>)

  /** The transfer before either loop runs: mem_init left the chunk state 0. */
  function Begin(buffer: seq<byte>): Transfer
  {
    Transfer(0, 0, Chunk(buffer, 0), [])
  }

  /** One step of the sender: if its buffer is empty and data remains, the
      next chunk goes into the front of the buffer and the state becomes 1;
      otherwise it spins. */
  function SenderStep(t: Transfer, data: seq<byte>, cs: nat): (r: Transfer)
    requires cs > 0 && |t.chunk.data| == cs
    ensures |r.chunk.data| == cs
  {
    if t.chunk.state == 0 && t.sent < NumPieces(|data|, cs) then
      var size := PieceSize(|data|, cs, t.sent);
      t.(sent := t.sent + 1, chunk := Chunk(Piece(data, cs, t.sent) + t.chunk.data[size..], 1))
    else t
  }

  /** One step of the receiver: if the buffer is full and chunks remain, the
      next chunk's bytes are copied out of the front of the buffer and the
      state becomes 0; otherwise it spins. */
  function ReceiverStep(t: Transfer, length: nat, cs: nat): (r: Transfer)
    requires cs > 0 && |t.chunk.data| == cs
    ensures |r.chunk.data| == cs
  {
    if t.chunk.state != 0 && t.taken < NumPieces(length, cs) then
      var size := PieceSize(length, cs, t.taken);
      t.(taken := t.taken + 1, received := t.received + t.chunk.data[..size], chunk := t.chunk.(state := 0))
    else t
  }

  /**
   * The one-slot handoff: the sender is at most one chunk ahead, the state
   * says which side may move, the receiver holds exactly the bytes of the
   * chunks it took, and a full buffer holds the next chunk it will take.
   */
  predicate Inv(t: Transfer, data: seq<byte>, cs: nat)
    requires cs > 0
  {
    |t.chunk.data| == cs
    && t.taken <= t.sent <= NumPieces(|data|, cs) && t.sent <= t.taken + 1
    && t.chunk.state == (if t.sent == t.taken then 0 else 1)
    && t.received == data[..Offset(|data|, cs, t.taken)]
    && (t.sent == t.taken + 1 ==>
          t.chunk.data[..PieceSize(|data|, cs, t.taken)] == Piece(data, cs, t.taken))
  }

  lemma BeginInv(buffer: seq<byte>, data: seq<byte>, cs: nat)
    requires cs > 0 && |buffer| == cs
    ensures Inv(Begin(buffer), data, cs)
  {
  }

  lemma SenderStepInv(t: Transfer, data: seq<byte>, cs: nat)
    requires cs > 0 && Inv(t, data, cs)
    ensures Inv(SenderStep(t, data, cs), data, cs)
  {
  }

  lemma ReceiverStepInv(t: Transfer, data: seq<byte>, cs: nat)
    requires cs > 0 && Inv(t, data, cs)
    ensures Inv(ReceiverStep(t, |data|, cs), data, cs)
  {
    if t.chunk.state != 0 && t.taken < NumPieces(|data|, cs) {
      var size := PieceSize(|data|, cs, t.taken);
      Tiling(|data|, cs, t.taken);
      assert t.chunk.data[..size] == Piece(data, cs, t.taken);
      assert data[..Offset(|data|, cs, t.taken + 1)]
             == data[..Offset(|data|, cs, t.taken)] + Piece(data, cs, t.taken);
    }
  }

  /** An interleaving of the two loops: true moves the sender, false the
      receiver. */
  function Run(t: Transfer, data: seq<byte>, cs: nat, schedule: seq<bool>): Transfer
    requires cs > 0 && |t.chunk.data| == cs
    decreases |schedule|
  {
    if |schedule| == 0 then t
    else
      var next := if schedule[0] then SenderStep(t, data, cs) else ReceiverStep(t, |data|, cs);
      Run(next, data, cs, schedule[1..])
  }

  /** Whatever the interleaving, the handoff invariant holds. */
  lemma {:induction false} RunInv(t: Transfer, data: seq<byte>, cs: nat, schedule: seq<bool>)
    requires cs > 0 && Inv(t, data, cs)
    ensures Inv(Run(t, data, cs, schedule), data, cs)
    decreases |schedule|
  {
    if |schedule| > 0 {
      var next := if schedule[0] then SenderStep(t, data, cs) else ReceiverStep(t, |data|, cs);
      if schedule[0] {
        SenderStepInv(t, data, cs);
      } else {
        ReceiverStepInv(t, data, cs);
      }
      RunInv(next, data, cs, schedule[1..]);
    }
  }

  /** Once the receiver has taken every chunk it holds exactly the data
      sent, in order. */
  lemma Complete(t: Transfer, data: seq<byte>, cs: nat)
    requires cs > 0 && Inv(t, data, cs)
    requires t.taken == NumPieces(|data|, cs)
    ensures t.received == data
  {
    if NumPieces(|data|, cs) > 0 {
      Tiling(|data|, cs, 0);
    } else {
      NumPiecesIsCeiling(|data|, cs);
    }
  }

  /** No deadlock: until the receiver has every chunk, exactly one side can
      move, and its move advances the transfer. */
  lemma Progress(t: Transfer, data: seq<byte>, cs: nat)
    requires cs > 0 && Inv(t, data, cs)
    requires t.taken < NumPieces(|data|, cs)
    ensures (SenderStep(t, data, cs) == t) != (ReceiverStep(t, |data|, cs) == t)
    ensures SenderStep(t, data, cs).sent + ReceiverStep(t, |data|, cs).taken == t.sent + t.taken + 1
  {
  }

  /** The sender's loop body once its wait is over: copy chunk k into the
      front of its buffer, then set the state to 1. */
  method PutPiece(chunks: array<Chunk>, id: nat, data: seq<byte>, cs: nat, k: nat)
    requires cs > 0 && id < chunks.Length && |chunks[id].data| == cs
    requires k < NumPieces(|data|, cs)
    requires chunks[id].state == 0
    modifies chunks
    ensures chunks[..] == old(chunks[..])[id := SenderStep(Transfer(k, k, old(chunks[id]), []), data, cs).chunk]
  {
    var size := PieceSize(|data|, cs, k);
    Tiling(|data|, cs, k);
    var at := Offset(|data|, cs, k);
    chunks[id] := chunks[id].(data := data[at..at + size] + chunks[id].data[size..]);
    chunks[id] := chunks[id].(state := 1);
  }

  /** The receiver's loop body once its wait is over: copy chunk k's bytes
      from the sender's buffer to their place in `dst`, then set the state
      to 0. */
  method TakePiece(chunks: array<Chunk>, from: nat, dst: array<byte>, length: nat, cs: nat, k: nat)
    requires cs > 0 && from < chunks.Length && |chunks[from].data| == cs
    requires k < NumPieces(length, cs) && length <= dst.Length
    requires chunks[from].state != 0
    modifies chunks, dst
    ensures chunks[..] == old(chunks[..])[from := old(chunks[from]).(state := 0)]
    ensures Offset(length, cs, k) + PieceSize(length, cs, k) <= length
    ensures dst[..] == old(dst[..Offset(length, cs, k)])
                       + old(chunks[from].data[..PieceSize(length, cs, k)])
                       + old(dst[Offset(length, cs, k) + PieceSize(length, cs, k)..])
  {
    Tiling(length, cs, k);
    var size := PieceSize(length, cs, k);
    var at := Offset(length, cs, k);
    var j := 0;
    while j < size
      invariant j <= size
      invariant chunks[..] == old(chunks[..])
      invariant dst[..] == old(dst[..at]) + chunks[from].data[..j] + old(dst[at + j..])
    {
      dst[at + j] := chunks[from].data[j];
      assert chunks[from].data[..j + 1] == chunks[from].data[..j] + [chunks[from].data[j]];
      j := j + 1;
    }
    chunks[from] := chunks[from].(state := 0);
  }

  /**
   * A whole transfer of `data` from endpoint `id` into `dst`, the two loops
   * running in the alternation the handoff forces: the receiver ends with
   * the data, and the sender's buffer is empty again.
   */
  method Exchange(chunks: array<Chunk>, id: nat, data: seq<byte>, dst: array<byte>, cs: nat)
    requires cs > 0 && id < chunks.Length && |chunks[id].data| == cs
    requires chunks[id].state == 0 && |data| <= dst.Length
    modifies chunks, dst
    ensures dst[..|data|] == data
    ensures dst[|data|..] == old(dst[|data|..])
    ensures chunks[id].state == 0 && |chunks[id].data| == cs
    ensures forall j :: 0 <= j < chunks.Length && j != id ==> chunks[j] == old(chunks[j])
  {
    var k := 0;
    while k < NumPieces(|data|, cs)
      invariant k <= NumPieces(|data|, cs)
      invariant chunks[id].state == 0 && |chunks[id].data| == cs
      invariant forall j :: 0 <= j < chunks.Length && j != id ==> chunks[j] == old(chunks[j])
      invariant dst[..Offset(|data|, cs, k)] == data[..Offset(|data|, cs, k)]
      invariant dst[|data|..] == old(dst[|data|..])
    {
      Tiling(|data|, cs, k);
      ghost var before := dst[..];
      PutPiece(chunks, id, data, cs, k);
      TakePiece(chunks, id, dst, |data|, cs, k);
      assert dst[..Offset(|data|, cs, k + 1)]
             == before[..Offset(|data|, cs, k)] + Piece(data, cs, k);
      k := k + 1;
    }
    if NumPieces(|data|, cs) > 0 {
      Tiling(|data|, cs, 0);
    } else {
      NumPiecesIsCeiling(|data|, cs);
    }
  }
}
