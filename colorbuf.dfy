/**
 * Colour buffers (ssmp_color_buf_init_platf, src/arch/x86/ssmp_arch.c:282-367
 * and src/arch/sparc/ssmp_arch.c:205-283): the peers a colour function
 * selects, in ascending order, with the mailbox each one writes to.
 */
module ColorBuf {
  import opened Msg
  import opened Context
  import opened Ssmp
  import Layout

  /** Which architecture file's padding arithmetic is used. */
  datatype Arch = X86 | Sparc

  /**
   * ssmp_color_buf_t: `buf[k]` is the cell of the k-th selected peer's
   * mailbox and `bufState[k]` the cell whose state byte is polled (the same
   * cell); `from[k]` is that peer's id stored in a uint8_t. The two sizes
   * are the byte counts allocated for the address arrays and for `from`.
   */
  datatype ColorBuf = ColorBuf(numUes: nat, buf: seq<nat>, bufState: seq<nat>, from: seq<nat>,
                               bufBytes: nat, fromBytes: nat)
  {
    /** The three arrays have numUes entries, buf and bufState name the
        same cells, and those cells exist. */
    predicate Valid(cells: array<Line>)
    {
      |buf| == numUes && |bufState| == numUes && |from| == numUes
      && (forall k :: 0 <= k < numUes ==> bufState[k] == buf[k])
      && (forall k :: 0 <= k < numUes ==> buf[k] < cells.Length)
    }
  }

  /** The participants array entry: the colour value stored in a uint32_t,
      read as a flag. */
  predicate Chosen(color: Color, ue: nat)
  {
    color(ue) % U32 != 0
  }

  /** Ids lo .. n - 1 other than self that the colour selects, ascending. */
  function SelectedFrom(self: nat, n: nat, color: Color, lo: nat): (r: seq<nat>)
    decreases n - lo
  {
    if lo >= n then []
    else if lo != self && Chosen(color, lo) then [lo] + SelectedFrom(self, n, color, lo + 1)
    else SelectedFrom(self, n, color, lo + 1)
  }

  /** The peers of `self` selected by the colour. */
  function Selected(self: nat, n: nat, color: Color): seq<nat>
  {
    SelectedFrom(self, n, color, 0)
  }

  /** An id is listed iff it lies in lo .. n - 1, is not self and is
      chosen; and every listed id is at least lo. */
  lemma {:induction false} SelectedFromMembers(self: nat, n: nat, color: Color, lo: nat)
    ensures forall x :: x in SelectedFrom(self, n, color, lo) <==> lo <= x < n && x != self && Chosen(color, x)
    decreases n - lo
  {
    if lo < n {
      SelectedFromMembers(self, n, color, lo + 1);
    }
  }

  /** The list is strictly ascending. */
  lemma {:induction false} SelectedFromAscending(self: nat, n: nat, color: Color, lo: nat)
    ensures forall i, j :: 0 <= i < j < |SelectedFrom(self, n, color, lo)| ==>
              SelectedFrom(self, n, color, lo)[i] < SelectedFrom(self, n, color, lo)[j]
    decreases n - lo
  {
    if lo < n {
      SelectedFromAscending(self, n, color, lo + 1);
      SelectedFromMembers(self, n, color, lo + 1);
      var rest := SelectedFrom(self, n, color, lo + 1);
      if lo != self && Chosen(color, lo) {
        assert forall j :: 0 <= j < |rest| ==> rest[j] in rest;
      }
    }
  }

  /** The selected peers: exactly the chosen ids below n other than self,
      strictly ascending, so each of them listed once. */
  lemma SelectedSpec(self: nat, n: nat, color: Color)
    ensures forall x: nat :: x in Selected(self, n, color) <==> x < n && x != self && Chosen(color, x)
    ensures forall i, j :: 0 <= i < j < |Selected(self, n, color)| ==>
              Selected(self, n, color)[i] < Selected(self, n, color)[j]
    ensures self !in Selected(self, n, color)
  {
    SelectedFromMembers(self, n, color, 0);
    SelectedFromAscending(self, n, color, 0);
  }

  /** The number of selected peers is the number of chosen ids other than
      self. */
  lemma {:induction false} SelectedFromCount(self: nat, n: nat, color: Color, lo: nat)
    ensures |SelectedFrom(self, n, color, lo)| == |set x | lo <= x < n && x != self && Chosen(color, x)|
    decreases n - lo
  {
    var s := set x | lo <= x < n && x != self && Chosen(color, x);
    if lo < n {
      SelectedFromCount(self, n, color, lo + 1);
      var t := set x | lo + 1 <= x < n && x != self && Chosen(color, x);
      if lo != self && Chosen(color, lo) {
        assert s == t + {lo};
        assert lo !in t;
      } else {
        assert s == t;
      }
    } else {
      assert s == {};
    }
  }

  /** The allocated size of an array of `count` elements of `unit` bytes. */
  function Padded(arch: Arch, count: nat, unit: nat, line: nat): nat
    requires unit > 0 && line > 0
  {
    if arch == X86 then Layout.RoundUp(count * unit, line)
    else Layout.SparcPad(count * unit, line, unit)
  }

  /** Both allocation sizes are whole cache lines holding the array, the
      same on both architectures. */
  lemma PaddedSize(arch: Arch, count: nat, unit: nat, line: nat)
    requires unit > 0 && line > 0 && line % unit == 0
    ensures Padded(arch, count, unit, line) == Layout.RoundUp(count * unit, line)
    ensures Padded(arch, count, unit, line) % line == 0
    ensures count * unit <= Padded(arch, count, unit, line) < count * unit + line
  {
    Layout.SparcPadAgrees(count, line, unit);
  }

  /**
   * ssmp_color_buf_init_platf for the endpoint `e`: the participants loop
   * stores every peer's colour (and 0 for the endpoint itself) and counts
   * the non-zero ones; the second loop lists them with their mailboxes.
   */
  method Init(e: Endpoint, color: Color, arch: Arch, ptrSize: nat, line: nat) returns (cb: ColorBuf)
    requires e.id < e.n && e.Wired()
    requires ptrSize > 0 && line > 0
    ensures cb.numUes == |Selected(e.id, e.n, color)|
    ensures |cb.from| == cb.numUes && |cb.buf| == cb.numUes && |cb.bufState| == cb.numUes
    ensures forall k :: 0 <= k < cb.numUes ==>
              Selected(e.id, e.n, color)[k] in e.recvBuf
              && cb.from[k] == Selected(e.id, e.n, color)[k] % 256
              && cb.buf[k] == e.recvBuf[Selected(e.id, e.n, color)[k]]
              && cb.bufState[k] == cb.buf[k]
    ensures cb.bufBytes == Padded(arch, cb.numUes, ptrSize, line)
    ensures cb.fromBytes == Padded(arch, cb.numUes, 1, line)
  {
    var participants, numUes := MarkParticipants(e.id, e.n, color);
    var bufBytes := Padded(arch, numUes, ptrSize, line);
    var fromBytes := Padded(arch, numUes, 1, line);
    var buf, bufState, from := Gather(e.id, e.n, e.recvBuf, color, participants);
    cb := ColorBuf(numUes, buf, bufState, from, bufBytes, fromBytes);
  }

  /** The participants loop: entry ue is the stored colour of ue (0 for
      self), and the count is the number of selected peers. */
  method MarkParticipants(self: nat, n: nat, color: Color) returns (participants: array<nat>, numUes: nat)
    ensures fresh(participants) && participants.Length == n
    ensures forall k :: 0 <= k < n ==> (participants[k] != 0 <==> k != self && Chosen(color, k))
    ensures numUes == |Selected(self, n, color)|
  {
    participants := new nat[n];
    numUes := 0;
    var ue := 0;
    while ue < n
      invariant ue <= n
      invariant forall k :: 0 <= k < ue ==> (participants[k] != 0 <==> k != self && Chosen(color, k))
      invariant numUes + |SelectedFrom(self, n, color, ue)| == |Selected(self, n, color)|
    {
      if ue == self {
        participants[ue] := 0;
      } else {
        participants[ue] := color(ue) % U32;
        if participants[ue] != 0 {
          numUes := numUes + 1;
        }
      }
      SuffixLength(self, n, color, ue);
      ue := ue + 1;
    }
  }

  /** The second loop: one entry per marked peer, in id order, with the
      mailbox recorded for it in the endpoint's receive table. */
  method Gather(self: nat, n: nat, recvBuf: map<nat, nat>, color: Color, participants: array<nat>)
    returns (buf: seq<nat>, bufState: seq<nat>, from: seq<nat>)
    requires forall c :: 0 <= c < n && c != self ==> c in recvBuf
    requires participants.Length == n
    requires forall k :: 0 <= k < n ==> (participants[k] != 0 <==> k != self && Chosen(color, k))
    ensures |buf| == |bufState| == |from| == |Selected(self, n, color)|
    ensures forall k :: 0 <= k < |buf| ==>
              Selected(self, n, color)[k] in recvBuf
              && from[k] == Selected(self, n, color)[k] % 256
              && buf[k] == recvBuf[Selected(self, n, color)[k]]
              && bufState[k] == buf[k]
  {
    buf, bufState, from := [], [], [];
    ghost var listed: seq<nat> := [];
    var ue := 0;
    while ue < n
      invariant ue <= n
      invariant listed == Prefix(self, n, color, ue)
      invariant |buf| == |bufState| == |from| == |listed|
      invariant forall k :: 0 <= k < |listed| ==> listed[k] < n && listed[k] != self
      invariant forall k :: 0 <= k < |listed| ==>
                  listed[k] in recvBuf && from[k] == listed[k] % 256
                  && buf[k] == recvBuf[listed[k]] && bufState[k] == buf[k]
    {
      if participants[ue] != 0 {
        buf := buf + [recvBuf[ue]];
        bufState := bufState + [recvBuf[ue]];
        from := from + [ue % 256];
        listed := listed + [ue];
      }
      ue := ue + 1;
    }
    PrefixSuffix(self, n, color, n);
  }

  /** The selected ids below `hi`. */
  function Prefix(self: nat, n: nat, color: Color, hi: nat): seq<nat>
    decreases hi
  {
    if hi == 0 || hi > n then []
    else Prefix(self, n, color, hi - 1) + (if hi - 1 != self && Chosen(color, hi - 1) then [hi - 1] else [])
  }

  /** Dropping the first candidate shortens the list by one iff that
      candidate is selected. */
  lemma SuffixLength(self: nat, n: nat, color: Color, ue: nat)
    requires ue < n
    ensures |SelectedFrom(self, n, color, ue)|
            == |SelectedFrom(self, n, color, ue + 1)| + (if ue != self && Chosen(color, ue) then 1 else 0)
  {
  }

  /** The selected ids below hi followed by those from hi onwards are all of
      them. */
  lemma {:induction false} PrefixSuffix(self: nat, n: nat, color: Color, hi: nat)
    requires hi <= n
    ensures Selected(self, n, color) == Prefix(self, n, color, hi) + SelectedFrom(self, n, color, hi)
    decreases hi
  {
    if hi > 0 {
      PrefixSuffix(self, n, color, hi - 1);
    }
  }
}
