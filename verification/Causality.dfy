/** Several nodes that pass stamps to each other: stamps respect happened-before, and
    their time parts follow the physical clocks of the causal past. */
module Causality {
  import opened Wrappers
  import opened Clock

  /** An event takes a stamp at a node, possibly on receipt of the stamp of an earlier event. */
  datatype Event = Event(node: nat, physical: nat, received: Option<nat>)

  type Trace = seq<Event>

  predicate WellOrdered(tr: Trace) {
    forall i | 0 <= i < |tr| && tr[i].received.Some? :: tr[i].received.value < i
  }

  /** The last event before `i` at a node. */
  function PreviousAt(tr: Trace, i: nat, node: nat): (r: Option<nat>)
    requires i <= |tr|
    ensures r.Some? ==> r.value < i && tr[r.value].node == node
    ensures forall j | 0 <= j < i && tr[j].node == node :: r.Some? && j <= r.value
  {
    if i == 0 then None
    else if tr[i - 1].node == node then Some(i - 1)
    else PreviousAt(tr, i - 1, node)
  }

  function Previous(tr: Trace, i: nat): (r: Option<nat>)
    requires i < |tr|
    ensures r.Some? ==> r.value < i
  {
    PreviousAt(tr, i, tr[i].node)
  }

  /** The word of the node before event `i`. */
  function Before(tr: Trace, i: nat): nat
    requires WellOrdered(tr) && i < |tr|
    decreases i, 0
  {
    if Previous(tr, i).Some? then Stamp(tr, Previous(tr, i).value) else 0
  }

  function Stamp(tr: Trace, i: nat): nat
    requires WellOrdered(tr) && i < |tr|
    decreases i, 1
  {
    match tr[i].received
    case None => Tick(Before(tr, i), tr[i].physical)
    case Some(k) => Receive(Before(tr, i), tr[i].physical, Stamp(tr, k))
  }

  /** The larger of the two stamps an event builds on. */
  function Base(tr: Trace, i: nat): nat
    requires WellOrdered(tr) && i < |tr|
  {
    Max(Before(tr, i), if tr[i].received.Some? then Stamp(tr, tr[i].received.value) else 0)
  }

  lemma StampIsTick(tr: Trace, i: nat)
    requires WellOrdered(tr) && i < |tr|
    ensures Stamp(tr, i) == Tick(Base(tr, i), tr[i].physical)
  {
    if tr[i].received.Some? {
      ReceiveIsTick(Before(tr, i), tr[i].physical, Stamp(tr, tr[i].received.value));
    }
  }

  // ---------- Happened before ----------

  /** `i` is an immediate cause of `j`. */
  predicate Causes(tr: Trace, i: nat, j: nat)
    requires i < |tr| && j < |tr|
  {
    Previous(tr, j) == Some(i) || tr[j].received == Some(i)
  }

  /** Transitive closure of the immediate causes. */
  ghost predicate HappenedBefore(tr: Trace, i: nat, j: nat)
    requires WellOrdered(tr) && i < |tr| && j < |tr|
    decreases j
  {
    exists k: nat :: k < j && Causes(tr, k, j) && (i == k || HappenedBefore(tr, i, k))
  }

  /** Order at one node is part of happened-before. */
  lemma {:induction false} SameNodeInOrder(tr: Trace, i: nat, j: nat)
    requires WellOrdered(tr) && i < j < |tr| && tr[i].node == tr[j].node
    ensures HappenedBefore(tr, i, j)
    decreases j
  {
    var k := Previous(tr, j).value;
    if i < k {
      SameNodeInOrder(tr, i, k);
    }
    assert Causes(tr, k, j);
  }

  /** The readings (as words) stay below a bound that leaves the 64-bit word room for
      the length of the trace; they may go backwards. */
  predicate Reasonable(tr: Trace, bound: nat) {
    WellOrdered(tr) && bound + |tr| < WordBound &&
    forall i | 0 <= i < |tr| :: tr[i].physical * Unit <= bound
  }

  lemma {:induction false} StampBounded(tr: Trace, i: nat, bound: nat)
    requires Reasonable(tr, bound) && i < |tr|
    ensures Base(tr, i) <= bound + i && Stamp(tr, i) <= bound + i + 1
    decreases i
  {
    if Previous(tr, i).Some? { StampBounded(tr, Previous(tr, i).value, bound); }
    if tr[i].received.Some? { StampBounded(tr, tr[i].received.value, bound); }
    StampIsTick(tr, i);
    TickValue(Base(tr, i), tr[i].physical);
  }

  /** A stamp is the least word above everything it builds on that is not below the reading. */
  lemma StampIsLeast(tr: Trace, i: nat, bound: nat)
    requires Reasonable(tr, bound) && i < |tr|
    ensures IsLeast(Stamp(tr, i), Base(tr, i), tr[i].physical)
  {
    StampBounded(tr, i, bound);
    StampIsTick(tr, i);
    TickIsLeast(Base(tr, i), tr[i].physical);
  }

  lemma CauseIsSmaller(tr: Trace, i: nat, j: nat, bound: nat)
    requires Reasonable(tr, bound) && i < |tr| && j < |tr| && Causes(tr, i, j)
    ensures Stamp(tr, i) < Stamp(tr, j)
  {
    StampBounded(tr, j, bound);
    StampIsTick(tr, j);
    TickValue(Base(tr, j), tr[j].physical);
  }

  /** Main result: happened-before implies a strictly smaller stamp. */
  lemma {:induction false} StampsRespectCausality(tr: Trace, i: nat, j: nat, bound: nat)
    requires Reasonable(tr, bound) && i < |tr| && j < |tr| && HappenedBefore(tr, i, j)
    ensures Stamp(tr, i) < Stamp(tr, j)
    decreases j
  {
    var k: nat :| k < j && Causes(tr, k, j) && (i == k || HappenedBefore(tr, i, k));
    CauseIsSmaller(tr, k, j, bound);
    if i != k {
      StampsRespectCausality(tr, i, k, bound);
    }
  }

  // ---------- Time parts ----------

  /** The largest physical reading of an event and everything before it. */
  function LatestReading(tr: Trace, i: nat): nat
    requires WellOrdered(tr) && i < |tr|
    decreases i
  {
    var p := if Previous(tr, i).Some? then LatestReading(tr, Previous(tr, i).value) else 0;
    var r := if tr[i].received.Some? then LatestReading(tr, tr[i].received.value) else 0;
    Max(tr[i].physical, Max(p, r))
  }

  /** The counter overflows into the time part at event `i`. */
  predicate Carries(tr: Trace, i: nat)
    requires WellOrdered(tr) && i < |tr|
  {
    tr[i].physical <= ExtractTime(Base(tr, i)) && ExtractCount(Base(tr, i)) == Unit - 1
  }

  /** Never behind the local clock; exactly the latest reading of the causal past while
      no counter carries. */
  lemma {:induction false} TimeIsLatestReading(tr: Trace, i: nat, bound: nat)
    requires Reasonable(tr, bound) && i < |tr|
    ensures ExtractTime(Stamp(tr, i)) >= tr[i].physical
    ensures (forall k | 0 <= k <= i :: !Carries(tr, k)) ==> ExtractTime(Stamp(tr, i)) == LatestReading(tr, i)
    decreases i
  {
    StampBounded(tr, i, bound);
    StampIsTick(tr, i);
    TickTimeIff(Base(tr, i), tr[i].physical);
    if Previous(tr, i).Some? { TimeIsLatestReading(tr, Previous(tr, i).value, bound); }
    if tr[i].received.Some? { TimeIsLatestReading(tr, tr[i].received.value, bound); }
    hide Stamp, Base, Tick, ExtractTime, Before;
    if forall k | 0 <= k <= i :: !Carries(tr, k) {
      assert !Carries(tr, i);
      TimeOfBase(tr, i);
      BaseTimeUnlessCarry(tr, i);
    }
  }

  lemma BaseTimeUnlessCarry(tr: Trace, i: nat)
    requires WellOrdered(tr) && i < |tr| && !Carries(tr, i)
    ensures tr[i].physical > ExtractTime(Base(tr, i)) || ExtractCount(Base(tr, i)) < Unit - 1
  {
  }

  lemma TimeOfBase(tr: Trace, i: nat)
    requires WellOrdered(tr) && i < |tr|
    ensures ExtractTime(Base(tr, i)) ==
            Max(if Previous(tr, i).Some? then ExtractTime(Stamp(tr, Previous(tr, i).value)) else 0,
                if tr[i].received.Some? then ExtractTime(Stamp(tr, tr[i].received.value)) else 0)
  {
    TimeOfMax(Before(tr, i), if tr[i].received.Some? then Stamp(tr, tr[i].received.value) else 0);
  }

  lemma TimeOfMax(a: nat, b: nat)
    ensures ExtractTime(Max(a, b)) == Max(ExtractTime(a), ExtractTime(b))
  {
  }

  /** A carry needs 2^20 stamps in one millisecond: short traces have none. */
  lemma {:induction false} ShortTracesDoNotCarry(tr: Trace, i: nat, bound: nat)
    requires Reasonable(tr, bound) && i < |tr| && i < Unit - 1
    ensures !Carries(tr, i) && ExtractCount(Stamp(tr, i)) <= i + 1
    decreases i
  {
    StampBounded(tr, i, bound);
    StampIsTick(tr, i);
    if Previous(tr, i).Some? { ShortTracesDoNotCarry(tr, Previous(tr, i).value, bound); }
    if tr[i].received.Some? { ShortTracesDoNotCarry(tr, tr[i].received.value, bound); }
    TickValue(Base(tr, i), tr[i].physical);
    CountOfSuccessor(Base(tr, i), tr[i].physical);
    hide Stamp, Tick, ExtractTime, ExtractCount;
  }

  lemma CountOfSuccessor(t: nat, p: nat)
    ensures ExtractCount(t) < Unit - 1 ==> ExtractCount(t + 1) == ExtractCount(t) + 1
    ensures ExtractCount(p * Unit) == 0
  {
  }
}
