/**
 * The per-process state of one endpoint: the globals that
 * ssmp_mem_init_platf fills in (src/arch/x86/ssmp_arch.c:36-48,
 * src/arch/sparc/ssmp_arch.c:53-64) and the file-static receive cursor of
 * the platform layer. Mailboxes themselves live in a shared array of
 * lines; the two address tables become maps from peer id to the index of
 * that peer's cell.
 */
module Context {
  import opened Msg

  class Endpoint {
    /** ssmp_id_ */
    var id: nat
    /** ssmp_num_ues_ */
    var n: nat
    /** last_recv_from: written by mem_init, read by no core operation. */
    var lastRecvFrom: nat
    /** ssmp_recv_buf: peer -> cell of the mailbox this endpoint reads. */
    var recvBuf: map<nat, nat>
    /** ssmp_send_buf: peer -> cell of the mailbox this endpoint writes. */
    var sendBuf: map<nat, nat>
    /** start_recv_from: one cursor per process, shared by every colour
        buffer the process receives from. */
    var cursor: nat

    /** The state before mem_init: static storage is zero. */
    constructor ()
      ensures id == 0 && n == 0 && lastRecvFrom == 0 && cursor == 0
      ensures recvBuf == map[] && sendBuf == map[]
    {
      id := 0;
      n := 0;
      lastRecvFrom := 0;
      recvBuf := map[];
      sendBuf := map[];
      cursor := 0;
    }

    /** The endpoint's id is in range and every table entry names a cell
        of the shared mailbox array. */
    predicate Valid(cells: array<Line>)
      reads this
    {
      id < n
      && (forall c :: c in recvBuf ==> recvBuf[c] < cells.Length)
      && (forall c :: c in sendBuf ==> sendBuf[c] < cells.Length)
    }

    /** Both tables have an entry for every peer other than the endpoint. */
    predicate Wired()
      reads this
    {
      forall c :: 0 <= c < n && c != id ==> c in recvBuf && c in sendBuf
    }
  }
}
