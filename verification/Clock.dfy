/** `HybridLogicalClock`: one 64-bit word, 44 bits of milliseconds above a 20-bit counter. */
module Clock {

  const Unit: nat := 0x10_0000
  const WordBound: nat := 0x1_0000_0000_0000_0000
  const TimeBound: nat := 0x1000_0000_0000

  function ExtractTime(t: nat): nat { t / 0x10_0000 }
  function ExtractCount(t: nat): nat { t % 0x10_0000 }

  /** `(time << 20) + count` on 64-bit words. */
  function AssembleTimeStamp(time: nat, count: nat): nat {
    (time * 0x10_0000 + count) % 0x1_0000_0000_0000_0000
  }

  function Max(a: nat, b: nat): nat { if a >= b then a else b }

  /** The word computed for a local event. */
  function Tick(prev: nat, physical: nat): nat {
    if physical <= ExtractTime(prev) then AssembleTimeStamp(ExtractTime(prev), ExtractCount(prev) + 1)
    else AssembleTimeStamp(physical, 0)
  }

  /** The word computed when a stamp is received. */
  function Receive(prev: nat, physical: nat, received: nat): nat {
    var oldTime, recTime := ExtractTime(prev), ExtractTime(received);
    var newTime := Max(Max(oldTime, physical), recTime);
    var newCount :=
      if newTime == oldTime then
        if newTime == recTime then Max(ExtractCount(prev), ExtractCount(received)) + 1
        else ExtractCount(prev) + 1
      else if newTime == recTime then ExtractCount(received) + 1
      else 0;
    AssembleTimeStamp(newTime, newCount)
  }

  /** The three-way case analysis amounts to a local event after the larger stamp. */
  lemma ReceiveIsTick(prev: nat, physical: nat, received: nat)
    ensures Receive(prev, physical, received) == Tick(Max(prev, received), physical)
  {
  }

  /** Without the counter overflowing the word, a tie adds one to the word: the carry out
      of the counter goes into the time. */
  lemma TickValue(prev: nat, physical: nat)
    requires prev < WordBound - 1 && physical < TimeBound
    ensures Tick(prev, physical) == if physical <= ExtractTime(prev) then prev + 1 else physical * Unit
  {
  }

  /** Above `prev` and not below the reading, counter 0. */
  predicate Admissible(w: nat, prev: nat, physical: nat) { w > prev && w >= physical * Unit }

  ghost predicate IsLeast(stamp: nat, prev: nat, physical: nat) {
    Admissible(stamp, prev, physical) && forall w: nat | Admissible(w, prev, physical) :: stamp <= w
  }

  /** So the computed word is known without its computation. */
  lemma TickIsLeast(prev: nat, physical: nat)
    requires prev < WordBound - 1 && physical < TimeBound
    ensures forall stamp: nat :: stamp == Tick(prev, physical) <==> IsLeast(stamp, prev, physical)
  {
    TickValue(prev, physical);
    assert IsLeast(Tick(prev, physical), prev, physical);
    hide Tick;
  }

  /** A stamp is larger than the word it replaces iff the word is not exhausted (on a
      tie) or the time, cut to 44 bits, is still ahead. */
  lemma TickAdvancesIff(prev: nat, physical: nat)
    requires prev < WordBound
    ensures Tick(prev, physical) > prev
       <==> (if physical <= ExtractTime(prev) then prev < WordBound - 1 else physical % TimeBound > ExtractTime(prev))
  {
    if physical > ExtractTime(prev) {
      var h, low := physical / TimeBound, physical % TimeBound;
      assert physical * Unit == h * WordBound + low * Unit;
      ModOfSum(h, low * Unit);
      assert Tick(prev, physical) == low * Unit;
    }
  }

  lemma ModOfSum(h: nat, x: nat)
    requires x < WordBound
    ensures (h * WordBound + x) % WordBound == x
  {
    if h > 0 {
      ModOfSum(h - 1, x);
      assert h * WordBound + x == (h - 1) * WordBound + x + WordBound;
    }
  }

  /** The time part of a stamp is the largest of the times it was made from, iff the
      counter does not carry. */
  lemma TickTimeIff(prev: nat, physical: nat)
    requires prev < WordBound - 1 && physical < TimeBound
    ensures ExtractTime(Tick(prev, physical)) >= Max(ExtractTime(prev), physical)
    ensures ExtractTime(Tick(prev, physical)) == Max(ExtractTime(prev), physical)
       <==> physical > ExtractTime(prev) || ExtractCount(prev) < Unit - 1
  {
    TickValue(prev, physical);
  }

  /** The word after other threads have left the given words one after the other. */
  function LastWord(first: nat, words: seq<nat>): nat {
    if words == [] then first else words[|words| - 1]
  }

  /** Successful swaps only ever raise the word. */
  predicate Rising(first: nat, words: seq<nat>) {
    (forall i | 0 <= i < |words| :: first <= words[i]) && forall i, j | 0 <= i < j < |words| :: words[i] <= words[j]
  }

  lemma NoWords(first: nat)
    ensures Rising(first, []) && LastWord(first, []) == first
  {
  }

  lemma RisingWords(last: nat, first: nat, words: seq<nat>)
    requires Rising(first, words) && last == LastWord(first, words)
    ensures first <= last && forall i | 0 <= i < |words| :: words[i] <= last
  {
  }

  class HybridLogicalClock {
    var lastTimeStamp: nat

    constructor ()
      ensures lastTimeStamp == 0
    {
      lastTimeStamp := 0;
    }

    /** The retry loop. Attempt `i` reads `readings[i]` from the physical clock. Where the
        compare-and-swap of an attempt fails, it leaves the word as other threads have
        made it meanwhile, `words[i]`, which is the same word for a spurious failure;
        only the last attempt succeeds. */
    method GetTimeStamp(readings: seq<nat>, words: seq<nat>) returns (stamp: nat)
      requires |readings| == |words| + 1 && forall i | 0 <= i < |readings| :: readings[i] < 0x1000_0000_0000
      requires Rising(lastTimeStamp, words) && LastWord(lastTimeStamp, words) < 0xFFFF_FFFF_FFFF_FFFF
      modifies this
      ensures stamp == lastTimeStamp == Tick(LastWord(old(lastTimeStamp), words), readings[|words|])
      ensures old(lastTimeStamp) < stamp < 0x1_0000_0000_0000_0000 && forall i | 0 <= i < |words| :: words[i] < stamp
      ensures stamp == LastWord(old(lastTimeStamp), words) + 1 || stamp == readings[|words|] * 0x10_0000
    {
      var i := 0;
      while true
        invariant 0 <= i <= |words|
        invariant lastTimeStamp == LastWord(old(lastTimeStamp), words[..i])
        decreases |words| - i
      {
        var physical := readings[i];
        var oldTimeStamp := lastTimeStamp;
        var oldTime := ExtractTime(oldTimeStamp);
        var newTimeStamp := if physical <= oldTime then AssembleTimeStamp(oldTime, ExtractCount(oldTimeStamp) + 1)
                            else AssembleTimeStamp(physical, 0);
        if i == |words| {
          assert words[..i] == words;
          RisingWords(lastTimeStamp, old(lastTimeStamp), words);
          TickValue(lastTimeStamp, physical);
          lastTimeStamp := newTimeStamp;
          return newTimeStamp;
        }
        lastTimeStamp := words[i];
        i := i + 1;
        assert words[..i][i - 1] == words[i - 1];
      }
    }

    /** The same loop for a received stamp. */
    method ReceiveTimeStamp(received: nat, readings: seq<nat>, words: seq<nat>) returns (stamp: nat)
      requires |readings| == |words| + 1 && forall i | 0 <= i < |readings| :: readings[i] < 0x1000_0000_0000
      requires Rising(lastTimeStamp, words) && LastWord(lastTimeStamp, words) < 0xFFFF_FFFF_FFFF_FFFF
      requires received < 0xFFFF_FFFF_FFFF_FFFF
      modifies this
      ensures stamp == lastTimeStamp == Tick(Max(LastWord(old(lastTimeStamp), words), received), readings[|words|])
      ensures received < stamp && old(lastTimeStamp) < stamp < 0x1_0000_0000_0000_0000
      ensures forall i | 0 <= i < |words| :: words[i] < stamp
    {
      var i := 0;
      while true
        invariant 0 <= i <= |words|
        invariant lastTimeStamp == LastWord(old(lastTimeStamp), words[..i])
        decreases |words| - i
      {
        var physical := readings[i];
        var oldTimeStamp := lastTimeStamp;
        var oldTime, recTime := ExtractTime(oldTimeStamp), ExtractTime(received);
        var newTime := Max(Max(oldTime, physical), recTime);
        var newCount;
        if newTime == oldTime {
          newCount := (if newTime == recTime then Max(ExtractCount(oldTimeStamp), ExtractCount(received))
                       else ExtractCount(oldTimeStamp)) + 1;
        } else {
          newCount := if newTime == recTime then ExtractCount(received) + 1 else 0;
        }
        var newTimeStamp := AssembleTimeStamp(newTime, newCount);
        if i == |words| {
          assert words[..i] == words;
          RisingWords(lastTimeStamp, old(lastTimeStamp), words);
          ReceiveIsTick(lastTimeStamp, physical, received);
          assert newTimeStamp == Receive(lastTimeStamp, physical, received);
          TickValue(Max(lastTimeStamp, received), physical);
          lastTimeStamp := newTimeStamp;
          return newTimeStamp;
        }
        lastTimeStamp := words[i];
        i := i + 1;
        assert words[..i][i - 1] == words[i - 1];
      }
    }
  }
}
