/**
 * The message record, the slot states and the copy primitive of the SPARC
 * header (include/ssmp_sparc.h), plus the chunk record used for bulk transfer.
 */
module Msg {

  /** Slot states. Only EMPTY = 0 is fixed by the code (mem_init resets a
      slot by storing 0); the other two values are chosen distinct. */
  const BufEmpty: int := 0
  const BufMessg: int := 1
  const BufLockd: int := 2

  /** SPARC_SMALL_MSG is defined unconditionally by the header. */
  const SparcSmallMsg: bool := true

  /** SSMP_CACHE_LINE_DW: payload double words copied by memcpy64. */
  const CacheLineDw: nat := if SparcSmallMsg then 2 else 7

  /** SSMP_CHUNK_SIZE: 1024 bytes on sparcv8, 8192 otherwise. */
  function ChunkSize(sparcv8: bool): (r: nat)
    ensures r == 1024 || r == 8192
    ensures sparcv8 <==> r < 8192
  {
    if sparcv8 then 1024 else 8192
  }

  /**
   * One cache line holding a message. `words` is the payload (in 64-bit
   * units where memcpy64 is used); `tag` is the byte that the record's
   * anonymous union shares between `state` and `sender`, so writing the
   * sender overwrites the state and vice versa.
   */
  datatype Line = Line(words: seq<int>, tag: int)
  {
    function State(): int { tag }
    function Sender(): int { tag }
  }

  type byte = x: int | 0 <= x < 256

  /** A chunk buffer: SSMP_CHUNK_SIZE payload bytes and a full/empty flag. */
  datatype Chunk = Chunk(data: seq<byte>, state: int)

  /** Value effect of memcpy64 with SPARC_SMALL_MSG: exactly two double
      words are copied, whatever the requested count. */
  function Memcpy64Small(dst: seq<int>, src: seq<int>): (r: seq<int>)
    requires |dst| >= 2 && |src| >= 2
    ensures |r| == |dst|
    ensures r[0] == src[0] && r[1] == src[1]
    ensures forall k :: 2 <= k < |r| ==> r[k] == dst[k]
  {
    dst[0 := src[0]][1 := src[1]]
  }

  /** Value effect of memcpy64 without SPARC_SMALL_MSG: the first `dwords`
      double words are copied in order. */
  function Memcpy64Words(dst: seq<int>, src: seq<int>, dwords: nat): (r: seq<int>)
    requires dwords <= |dst| && dwords <= |src|
    ensures |r| == |dst|
    ensures forall k :: 0 <= k < dwords ==> r[k] == src[k]
    ensures forall k :: dwords <= k < |r| ==> r[k] == dst[k]
  {
    src[..dwords] + dst[dwords..]
  }

  /** memcpy64 as compiled (SPARC_SMALL_MSG): two stores into `dst`. */
  method Memcpy64(dst: array<int>, src: seq<int>, dwords: nat)
    requires dst.Length >= 2 && |src| >= 2
    modifies dst
    ensures dst[..] == Memcpy64Small(old(dst[..]), src)
  {
    dst[0] := src[0];
    dst[1] := src[1];
  }

  /** memcpy64 without SPARC_SMALL_MSG: the word loop. */
  method Memcpy64Loop(dst: array<int>, src: seq<int>, dwords: nat)
    requires dwords <= dst.Length && dwords <= |src|
    modifies dst
    ensures dst[..] == Memcpy64Words(old(dst[..]), src, dwords)
  {
    var w: nat := 0;
    while w < dwords
      invariant w <= dwords
      invariant forall k :: 0 <= k < w ==> dst[k] == src[k]
      invariant forall k :: w <= k < dst.Length ==> dst[k] == old(dst[k])
    {
      dst[w] := src[w];
      w := w + 1;
    }
  }
}
