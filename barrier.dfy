/**
 * The barrier table and the two-phase ticket barrier of the architecture
 * files (src/arch/x86/ssmp_arch.c:109-114, 379-466; the SPARC file repeats
 * them at src/arch/sparc/ssmp_arch.c:132-137, 294-382) over the record of
 * include/ssmp_sparc.h:117-125.
 */
module Barrier {
  import opened Wrappers
  import opened Ssmp
  import Arith

  type uint64 = x: int | 0 <= x < U64

  /** 0xFFFFFFFFFFFFFFFF */
  const AllOnes: uint64 := U64 - 1

  /** ssmp_barrier_t: a participant mask, an optional colour function that
      takes priority over the mask, a ticket and a cleared flag. */
  datatype Barrier = Barrier(participants: uint64, color: Option<Color>, ticket: nat, cleared: nat)

  /** The mask after `k` steps of `bpar >>= 1`. */
  function Shifted(mask: nat, k: nat): nat
  {
    if k == 0 then mask else Shifted(mask, k - 1) / 2
  }

  /** Whether endpoint i takes part: the colour function when there is one,
      otherwise the low bit of the mask once it has been shifted i times. */
  predicate IsMember(b: Barrier, i: nat)
  {
    if b.color.Some? then b.color.value(i) != 0 else Shifted(b.participants, i) % 2 == 1
  }

  /** What endpoint i adds to num_part: the colour value converted to
      uint32, or the mask bit. */
  function Contribution(b: Barrier, i: nat): nat
  {
    if b.color.Some? then b.color.value(i) % U32 else Shifted(b.participants, i) % 2
  }

  function Sum(b: Barrier, k: nat): nat
  {
    if k == 0 then 0 else Sum(b, k - 1) + Contribution(b, k - 1)
  }

  /** num_part: the contributions of ids 0 .. n - 1 summed in a uint32. */
  function NumPart(b: Barrier, n: nat): nat
  {
    Sum(b, n) % U32
  }

  /** The participants among ids 0 .. n - 1. */
  function Members(b: Barrier, n: nat): set<nat>
  {
    set i | 0 <= i < n && IsMember(b, i)
  }

  function Pow2(k: nat): nat
  {
    if k == 0 then 1 else 2 * Pow2(k - 1)
  }

  lemma {:induction false} Pow2Add(a: nat, b: nat)
    ensures Pow2(a + b) == Pow2(a) * Pow2(b)
  {
    if a > 0 {
      Pow2Add(a - 1, b);
    }
  }

  lemma Pow2Of64()
    ensures Pow2(64) == U64
  {
    assert Pow2(8) == 256;
    Pow2Add(8, 8);
    Pow2Add(16, 16);
    Pow2Add(32, 32);
  }

  /** After k shifts a 64-bit mask fits in 64 - k bits. */
  lemma {:induction false} ShiftedBound(mask: uint64, k: nat)
    requires k <= 64
    ensures Shifted(mask, k) < Pow2(64 - k)
  {
    if k > 0 {
      ShiftedBound(mask, k - 1);
    } else {
      Pow2Of64();
    }
  }

  /** Once 64 shifts have emptied the mask it stays empty. */
  lemma {:induction false} ShiftedOut(mask: uint64, k: nat)
    requires k >= 64
    ensures Shifted(mask, k) == 0
  {
    if k == 64 {
      ShiftedBound(mask, 64);
    } else {
      ShiftedOut(mask, k - 1);
    }
  }

  /** Ids from 64 on are never members of a barrier given by its mask. */
  lemma HighIdsExcluded(b: Barrier, i: nat)
    requires b.color.None? && i >= 64
    ensures !IsMember(b, i)
  {
    ShiftedOut(b.participants, i);
  }

  /** The all-ones mask after k shifts is 2^(64-k) - 1. */
  lemma {:induction false} ShiftedAllOnes(k: nat)
    requires k <= 64
    ensures Shifted(AllOnes, k) == Pow2(64 - k) - 1
  {
    if k == 0 {
      Pow2Of64();
    } else {
      ShiftedAllOnes(k - 1);
    }
  }

  /** With the all-ones mask and no colour, exactly the ids below 64 take
      part. */
  lemma AllOnesMembers(b: Barrier, i: nat)
    requires b.color.None? && b.participants == AllOnes
    ensures IsMember(b, i) <==> i < 64
  {
    if i < 64 {
      ShiftedAllOnes(i);
      var half := Pow2(63 - i);
      assert Shifted(AllOnes, i) == (half - 1) * 2 + 1;
      Arith.DivModOfSum(half - 1, 1, 2);
    } else {
      HighIdsExcluded(b, i);
    }
  }

  /** Colour functions and masks whose contribution is a 0/1 flag. */
  predicate Flags(b: Barrier, n: nat)
  {
    forall i :: 0 <= i < n ==> Contribution(b, i) == (if IsMember(b, i) then 1 else 0)
  }

  /** When every contribution is a 0/1 flag, the sum counts the members. */
  lemma {:induction false} SumCountsMembers(b: Barrier, n: nat)
    requires Flags(b, n)
    ensures Sum(b, n) == |Members(b, n)|
  {
    if n > 0 {
      SumCountsMembers(b, n - 1);
      if IsMember(b, n - 1) {
        assert Members(b, n) == Members(b, n - 1) + {n - 1};
      } else {
        assert Members(b, n) == Members(b, n - 1);
      }
    } else {
      assert Members(b, 0) == {};
    }
  }

  /** num_part is the number of participants for 0/1 colour functions and
      for masks, as long as that number fits in a uint32. */
  lemma NumPartCountsMembers(b: Barrier, n: nat)
    requires b.color.None? || forall i :: 0 <= i < n ==> b.color.value(i) == 0 || b.color.value(i) == 1
    requires n < U32
    ensures NumPart(b, n) == |Members(b, n)|
  {
    assert Flags(b, n);
    SumCountsMembers(b, n);
    MembersBound(b, n);
  }

  lemma {:induction false} MembersBound(b: Barrier, n: nat)
    ensures |Members(b, n)| <= n
  {
    if n > 0 {
      MembersBound(b, n - 1);
      assert Members(b, n) <= Members(b, n - 1) + {n - 1};
      SubsetSize(Members(b, n), Members(b, n - 1) + {n - 1});
    } else {
      assert Members(b, 0) == {};
    }
  }

  /** ssmp_color_app is a 0/1 colour. */
  lemma ColorAppCounts(b: Barrier, n: nat)
    requires b.color == Some(ColorApp) && n < U32
    ensures NumPart(b, n) == |Members(b, n)|
  {
    NumPartCountsMembers(b, n);
  }

  /** A colour returning other values miscounts: under `color` (10 * id)
      with two endpoints only endpoint 1 takes part, yet num_part is 10. */
  lemma TenfoldMiscounts(b: Barrier)
    requires b.color == Some(TenfoldColor)
    ensures Members(b, 2) == {1}
    ensures NumPart(b, 2) == 10
  {
    assert Members(b, 2) == {1} by {
      assert IsMember(b, 1) && !IsMember(b, 0);
    }
    assert Contribution(b, 0) == 0 && Contribution(b, 1) == 10;
    assert Sum(b, 1) == 0;
    assert Sum(b, 2) == 10;
  }

  /**
   * ssmp_barrier_init_platf: a number in the table resets that barrier to
   * the all-ones mask (the `participants` argument is not stored), the
   * given colour, and ticket = cleared = 0. A number outside the table
   * changes nothing (the table test is the corrected one; see Findings).
   */
  method Init(bars: array<Barrier>, barrierNum: int, participants: int, color: Option<Color>)
    modifies bars
    ensures InTable(barrierNum, bars.Length) ==>
              bars[..] == old(bars[..])[barrierNum := Barrier(AllOnes, color, 0, 0)]
    ensures !InTable(barrierNum, bars.Length) ==> bars[..] == old(bars[..])
  {
    if !InTable(barrierNum, bars.Length) {
      return;
    }
    bars[barrierNum] := bars[barrierNum].(participants := AllOnes);
    bars[barrierNum] := bars[barrierNum].(color := color);
    bars[barrierNum] := bars[barrierNum].(ticket := 0);
    bars[barrierNum] := bars[barrierNum].(cleared := 0);
  }

  /** The barrier setup at the end of ssmp_init_platf: every barrier gets
      the all-ones mask and no colour, then barrier 1 gets ssmp_color_app. */
  method InitDefaults(bars: array<Barrier>)
    modifies bars
    ensures forall k :: 0 <= k < bars.Length ==>
              bars[k] == Barrier(AllOnes, if k == 1 then Some(ColorApp) else None, 0, 0)
  {
    var bar := 0;
    while bar < bars.Length
      invariant bar <= bars.Length
      invariant forall k :: 0 <= k < bar ==> bars[k] == Barrier(AllOnes, None, 0, 0)
    {
      Init(bars, bar, -1, None);
      bar := bar + 1;
    }
    Init(bars, 1, -1, Some(ColorApp));
  }

  /**
   * The counting loop of ssmp_barrier_wait_platf, for the calling
   * endpoint `id`: it returns early (member = false) at the caller's own
   * id when the caller does not take part; otherwise it has summed num_part
   * over all n ids.
   */
  method CountParticipants(b: Barrier, id: nat, n: nat) returns (member: bool, numPart: nat)
    requires id < n
    ensures member <==> IsMember(b, id)
    ensures member ==> numPart == NumPart(b, n)
  {
    var bpar: nat := b.participants;
    numPart := 0;
    var from := 0;
    while from < n
      invariant from <= n
      invariant numPart == Sum(b, from) % U32
      invariant b.color.None? ==> bpar == Shifted(b.participants, from)
      invariant id < from ==> IsMember(b, id)
    {
      if b.color.Some? {
        SumStep(b, from, numPart, b.color.value(from));
        numPart := (numPart + b.color.value(from)) % U32;
        if from == id && b.color.value(from) == 0 {
          return false, numPart;
        }
      } else {
        var isPart := bpar % 2;
        SumStep(b, from, numPart, isPart);
        numPart := (numPart + isPart) % U32;
        if id == from && isPart == 0 {
          return false, numPart;
        }
        bpar := bpar / 2;
      }
      from := from + 1;
    }
    member := true;
  }

  /** One step of the uint32 sum: adding any value congruent to id k's
      contribution to the running remainder gives the next remainder. */
  lemma SumStep(b: Barrier, k: nat, acc: int, add: int)
    requires acc == Sum(b, k) % U32 && add % U32 == Contribution(b, k)
    ensures (acc + add) % U32 == Sum(b, k + 1) % U32
  {
    var total, c := Sum(b, k), Contribution(b, k);
    assert acc == total - (total / U32) * U32;
    assert add == c + (add / U32) * U32;
    Arith.ModAddMultiple(total + c, add / U32 - total / U32, U32);
  }

  /** The part of ssmp_barrier_wait_platf before the first spin: None when
      it returns at once (number outside the table, caller not a member),
      otherwise the num_part it goes on with. */
  method Enter(bars: array<Barrier>, barrierNum: int, id: nat, n: nat) returns (r: Option<nat>)
    requires id < n
    ensures r.Some? <==> InTable(barrierNum, bars.Length) && IsMember(bars[barrierNum], id)
    ensures r.Some? ==> r.value == NumPart(bars[barrierNum], n)
  {
    if !InTable(barrierNum, bars.Length) {
      return None;
    }
    var member, numPart := CountParticipants(bars[barrierNum], id, n);
    if !member {
      return None;
    }
    return Some(numPart);
  }

  /** Arrival, enabled once cleared is not 1: the ticket is incremented
      (uint32) and the arrival that brings it to num_part sets cleared. */
  function ArriveStep(b: Barrier, numPart: nat): Barrier
    requires b.cleared != 1
  {
    var t := (b.ticket + 1) % U32;
    b.(ticket := t, cleared := if t == numPart then 1 else b.cleared)
  }

  /** Departure, enabled once cleared is not 0: the ticket is decremented
      (uint32) and the departure that brings it to 0 resets cleared. */
  function DepartStep(b: Barrier): Barrier
    requires b.cleared != 0
  {
    var t := (b.ticket + U32 - 1) % U32;
    b.(ticket := t, cleared := if t == 0 then 0 else b.cleared)
  }

  /** The first spin and the atomic increment of barrier_wait as one step. */
  method Arrive(bars: array<Barrier>, k: nat, numPart: nat)
    requires k < bars.Length && bars[k].cleared != 1
    modifies bars
    ensures bars[..] == old(bars[..])[k := ArriveStep(old(bars[k]), numPart)]
  {
    var myTicket := (bars[k].ticket + 1) % U32;
    bars[k] := bars[k].(ticket := myTicket);
    if myTicket == numPart {
      bars[k] := bars[k].(cleared := 1);
    }
  }

  /** The second spin and the atomic decrement of barrier_wait as one step. */
  method Depart(bars: array<Barrier>, k: nat)
    requires k < bars.Length && bars[k].cleared != 0
    modifies bars
    ensures bars[..] == old(bars[..])[k := DepartStep(old(bars[k]))]
  {
    var myTicket := (bars[k].ticket + U32 - 1) % U32;
    bars[k] := bars[k].(ticket := myTicket);
    if myTicket == 0 {
      bars[k] := bars[k].(cleared := 0);
    }
  }

  /**
   * One round of a barrier: its record, the participants, those that have
   * arrived and not yet left (`waiting`), and those that have left
   * (`passed`).
   */
  datatype Round = Round(bar: Barrier, parts: set<nat>, waiting: set<nat>, passed: set<nat>)

  /**
   * The round invariant: the ticket counts the waiting participants; while
   * cleared is 0 either nobody has left and not everybody has arrived, or
   * the round is over (everybody has left); while cleared is 1 everybody
   * has arrived and someone is still waiting.
   */
  predicate Inv(g: Round)
  {
    0 < |g.parts| < U32
    && g.waiting <= g.parts && g.passed <= g.parts && g.waiting !! g.passed
    && g.bar.ticket == |g.waiting|
    && (g.bar.cleared == 0 || g.bar.cleared == 1)
    && (g.bar.cleared == 0 ==>
          (g.passed == {} && |g.waiting| < |g.parts|) || (g.waiting == {} && g.passed == g.parts))
    && (g.bar.cleared == 1 ==> g.waiting + g.passed == g.parts && g.waiting != {})
  }

  /** A fresh round on an idle record. */
  function Start(b: Barrier, parts: set<nat>): Round
  {
    Round(b, parts, {}, {})
  }

  lemma StartInv(b: Barrier, parts: set<nat>)
    requires b.ticket == 0 && b.cleared == 0 && 0 < |parts| < U32
    ensures Inv(Start(b, parts))
  {
  }

  function ArriveR(g: Round, who: nat): Round
    requires g.bar.cleared != 1
  {
    Round(ArriveStep(g.bar, |g.parts|), g.parts, g.waiting + {who}, g.passed)
  }

  function DepartR(g: Round, who: nat): Round
    requires g.bar.cleared != 0
  {
    Round(DepartStep(g.bar), g.parts, g.waiting - {who}, g.passed + {who})
  }

  /** The array steps are the round's steps. When the round's participants
      are the members of its own record, the num_part that `Enter` returns
      is |parts|, so `Arrive` with that num_part performs `ArriveR`; and
      neither step changes who the members are. */
  lemma ConcreteArrive(g: Round, n: nat, who: nat)
    requires g.bar.color.None? || forall i :: 0 <= i < n ==> g.bar.color.value(i) == 0 || g.bar.color.value(i) == 1
    requires n < U32 && g.parts == Members(g.bar, n) && g.bar.cleared != 1
    ensures ArriveStep(g.bar, NumPart(g.bar, n)) == ArriveR(g, who).bar
    ensures Members(ArriveR(g, who).bar, n) == g.parts
  {
    NumPartCountsMembers(g.bar, n);
  }

  lemma ConcreteDepart(g: Round, n: nat, who: nat)
    requires g.parts == Members(g.bar, n) && g.bar.cleared != 0
    ensures DepartStep(g.bar) == DepartR(g, who).bar
    ensures Members(DepartR(g, who).bar, n) == g.parts
  {
  }

  lemma SubsetSameSize(a: set<nat>, b: set<nat>)
    requires a <= b && |a| == |b|
    ensures a == b
  {
    assert |b - a| == |b| - |a|;
  }

  lemma SubsetSize(a: set<nat>, b: set<nat>)
    requires a <= b
    ensures |a| <= |b|
    ensures a != b ==> |a| < |b|
  {
    assert |b - a| == |b| - |a|;
    if a != b {
      var x :| x in b - a;
    }
  }

  /** An arrival keeps the invariant, adds one to the ticket, and sets
      cleared exactly when everybody has then arrived. */
  lemma ArrivePreserves(g: Round, who: nat)
    requires Inv(g) && g.bar.cleared != 1
    requires who in g.parts && who !in g.waiting && who !in g.passed
    ensures Inv(ArriveR(g, who))
    ensures ArriveR(g, who).bar.ticket == g.bar.ticket + 1
    ensures ArriveR(g, who).bar.cleared == 1 <==> ArriveR(g, who).waiting == g.parts
  {
    var w := g.waiting + {who};
    assert |w| == |g.waiting| + 1;
    SubsetSize(w, g.parts);
    if |w| == |g.parts| {
      SubsetSameSize(w, g.parts);
    }
  }

  /** A departure keeps the invariant, takes one from the ticket, and
      resets cleared exactly when everybody has then left. */
  lemma DepartPreserves(g: Round, who: nat)
    requires Inv(g) && g.bar.cleared != 0
    requires who in g.waiting
    ensures Inv(DepartR(g, who))
    ensures DepartR(g, who).bar.ticket == g.bar.ticket - 1
    ensures DepartR(g, who).bar.cleared == 0 <==> DepartR(g, who).passed == g.parts
  {
    var w := g.waiting - {who};
    assert |w| == |g.waiting| - 1;
    var p := g.passed + {who};
    assert g.passed !! {who};
    SubsetSize(p, g.parts);
    if w == {} {
      assert p == g.parts;
    } else {
      assert p != g.parts by {
        var x :| x in w;
      }
    }
  }

  /** Nobody leaves before everybody has arrived, and the ticket never
      exceeds the number of participants. */
  lemma Safety(g: Round)
    requires Inv(g)
    ensures g.bar.cleared != 0 ==> g.waiting + g.passed == g.parts
    ensures g.bar.ticket <= |g.parts|
  {
    SubsetSize(g.waiting, g.parts);
  }

  predicate Distinct(order: seq<nat>)
  {
    forall i, j :: 0 <= i < j < |order| ==> order[i] != order[j]
  }

  function Elems(order: seq<nat>): set<nat>
  {
    set x | x in order
  }

  /** Participants that have not arrived, listed once each. */
  predicate Fresh(g: Round, order: seq<nat>)
  {
    Distinct(order) && forall x :: x in order ==> x in g.parts && x !in g.waiting && x !in g.passed
  }

  /** The round after the participants in `order` arrive, in that order. */
  function Arrivals(g: Round, order: seq<nat>): (r: Round)
    requires Inv(g) && g.passed == {} && Fresh(g, order)
    ensures Inv(r) && r.parts == g.parts && r.passed == {}
    ensures r.waiting == g.waiting + Elems(order)
    decreases |order|
  {
    if order == [] then g
    else
      ArrivalFacts(g, order);
      Arrivals(ArriveR(g, order[0]), order[1..])
  }

  /** One arrival of a run of arrivals. */
  lemma ArrivalFacts(g: Round, order: seq<nat>)
    requires Inv(g) && g.passed == {} && Fresh(g, order) && order != []
    ensures g.bar.cleared != 1
    ensures Inv(ArriveR(g, order[0])) && ArriveR(g, order[0]).passed == {}
    ensures Fresh(ArriveR(g, order[0]), order[1..])
    ensures ArriveR(g, order[0]).waiting + Elems(order[1..]) == g.waiting + Elems(order)
  {
    var who, rest := order[0], order[1..];
    assert who in order;
    assert g.waiting != g.parts by { assert who in g.parts - g.waiting; }
    ArrivePreserves(g, who);
    TailFacts(order);
    var g1 := ArriveR(g, who);
    assert g1.waiting == g.waiting + {who} && g1.parts == g.parts && g1.passed == g.passed;
    forall x | x in rest
      ensures x in g1.parts && x !in g1.waiting && x !in g1.passed
    {
      assert x in order;
    }
    HeadAdded(g.waiting, order);
  }

  /** Adding the head of a list to a set, then the tail, adds the whole
      list. */
  lemma HeadAdded(w: set<nat>, order: seq<nat>)
    requires order != [] && Elems(order) == {order[0]} + Elems(order[1..])
    ensures (w + {order[0]}) + Elems(order[1..]) == w + Elems(order)
  {
  }

  /** The head of a list of distinct ids is not in its tail, which is
      itself distinct. */
  lemma TailFacts(order: seq<nat>)
    requires Distinct(order) && order != []
    ensures Distinct(order[1..]) && order[0] !in order[1..]
    ensures Elems(order) == {order[0]} + Elems(order[1..])
    ensures forall x :: x in order[1..] ==> x in order
  {
    var rest := order[1..];
    assert order == [order[0]] + rest;
    forall i | 0 <= i < |rest|
      ensures rest[i] != order[0]
    {
      assert rest[i] == order[i + 1];
    }
    forall i, j | 0 <= i < j < |rest|
      ensures rest[i] != rest[j]
    {
      assert rest[i] == order[i + 1] && rest[j] == order[j + 1];
    }
  }

  /** The round after the waiting participants in `order` leave, in that
      order. */
  function Departures(g: Round, order: seq<nat>): (r: Round)
    requires Inv(g) && Distinct(order) && Elems(order) <= g.waiting
    requires order != [] ==> g.bar.cleared == 1
    ensures Inv(r) && r.parts == g.parts
    ensures r.waiting == g.waiting - Elems(order) && r.passed == g.passed + Elems(order)
    decreases |order|
  {
    if order == [] then g
    else
      DepartureFacts(g, order);
      Departures(DepartR(g, order[0]), order[1..])
  }

  /** One departure of a run of departures. */
  lemma DepartureFacts(g: Round, order: seq<nat>)
    requires Inv(g) && Distinct(order) && Elems(order) <= g.waiting
    requires order != [] && g.bar.cleared == 1
    ensures Inv(DepartR(g, order[0])) && DepartR(g, order[0]).parts == g.parts
    ensures Distinct(order[1..]) && Elems(order[1..]) <= DepartR(g, order[0]).waiting
    ensures order[1..] != [] ==> DepartR(g, order[0]).bar.cleared == 1
    ensures DepartR(g, order[0]).waiting - Elems(order[1..]) == g.waiting - Elems(order)
    ensures DepartR(g, order[0]).passed + Elems(order[1..]) == g.passed + Elems(order)
  {
    var who, rest := order[0], order[1..];
    assert who in Elems(order);
    DepartPreserves(g, who);
    var g1 := DepartR(g, who);
    assert g1.waiting == g.waiting - {who} && g1.passed == g.passed + {who};
    TailFacts(order);
    HeadRemoved(g.waiting, g.passed, order);
    if rest != [] {
      assert rest[0] in Elems(rest);
      StillOpen(g1, rest[0], who);
    }
  }

  /** Moving the head of a list of distinct waiting ids from one set to
      another, then the tail, moves the whole list. */
  lemma HeadRemoved(w: set<nat>, p: set<nat>, order: seq<nat>)
    requires order != [] && Elems(order) <= w
    requires order[0] !in Elems(order[1..]) && Elems(order) == {order[0]} + Elems(order[1..])
    ensures Elems(order[1..]) <= w - {order[0]}
    ensures (w - {order[0]}) - Elems(order[1..]) == w - Elems(order)
    ensures (p + {order[0]}) + Elems(order[1..]) == p + Elems(order)
  {
  }

  /** While someone has left and someone is still waiting, the barrier
      stays open. */
  lemma StillOpen(g: Round, w: nat, p: nat)
    requires Inv(g) && w in g.waiting && p in g.passed
    ensures g.bar.cleared == 1
  {
  }

  /** When every participant arrives, the last arrival opens the barrier:
      cleared is 1 and the ticket equals the number of participants. */
  lemma AllArrive(g: Round, order: seq<nat>)
    requires Inv(g) && g.passed == {} && Fresh(g, order)
    requires g.waiting + Elems(order) == g.parts
    ensures Arrivals(g, order).bar.cleared == 1
    ensures Arrivals(g, order).bar.ticket == |g.parts|
  {
    var r := Arrivals(g, order);
    assert r.waiting == g.parts;
    OpenWhenAllWaiting(r);
  }

  lemma OpenWhenAllWaiting(r: Round)
    requires Inv(r) && r.waiting == r.parts && r.passed == {}
    ensures r.bar.cleared == 1 && r.bar.ticket == |r.parts|
  {
  }

  lemma IdleWhenAllPassed(r: Round)
    requires Inv(r) && r.waiting == {} && r.passed == r.parts
    ensures r.bar.cleared == 0 && r.bar.ticket == 0
  {
  }

  /** When every waiting participant leaves, the barrier is idle again:
      ticket and cleared are back to 0 and everybody has passed. */
  lemma AllDepart(g: Round, order: seq<nat>)
    requires Inv(g) && g.bar.cleared == 1
    requires Distinct(order) && Elems(order) == g.waiting
    ensures |order| == |g.waiting|
    ensures Departures(g, order).bar.ticket == 0
    ensures Departures(g, order).bar.cleared == 0
    ensures Departures(g, order).passed == g.parts
  {
    DistinctSize(order);
    var r := Departures(g, order);
    assert r.waiting == {} && r.passed == g.parts;
    IdleWhenAllPassed(r);
  }

  lemma {:induction false} DistinctSize(order: seq<nat>)
    requires Distinct(order)
    ensures |Elems(order)| == |order|
  {
    if order != [] {
      var tail := order[1..];
      assert Distinct(tail);
      DistinctSize(tail);
      assert order[0] !in Elems(tail);
      assert Elems(order) == Elems(tail) + {order[0]};
    } else {
      assert Elems(order) == {};
    }
  }

  /** Under `color` with two endpoints the barrier never opens: after the
      only participant arrives the ticket is 1, not 10. */
  lemma TenfoldNeverOpens(b: Barrier)
    requires b.color == Some(TenfoldColor) && b.ticket == 0 && b.cleared == 0
    ensures ArriveStep(b, NumPart(b, 2)).cleared == 0
  {
    TenfoldMiscounts(b);
  }
}
