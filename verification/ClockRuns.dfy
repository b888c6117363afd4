/** The clock under concurrency: any number of threads, each between reading the physical
    clock, loading the word and the compare-and-swap, in any interleaving. */
module ClockRuns {
  import opened Clock

  /** What a thread has in hand. `received` is 0 for a local event: no stamp is 0, and
      receiving 0 is computing a local event. */
  datatype Thread =
    | Idle
    | Sampled(physical: nat, received: nat)
    | Loaded(physical: nat, received: nat, prev: nat)

  datatype Issue = Issue(stamp: nat, physical: nat, received: nat)

  datatype State = State(last: nat, threads: map<nat, Thread>, issued: seq<Issue>)

  datatype Step =
    | Sample(t: nat, physical: nat, received: nat)  // enter the call, read the physical clock
    | Load(t: nat)
    | Swap(t: nat)                                  // the compare-and-swap succeeds
    | Fail(t: nat, physical: nat)                   // it fails, perhaps spuriously; read again

  function ThreadOf(s: State, t: nat): Thread { if t in s.threads then s.threads[t] else Idle }

  /** The word a thread proposes. */
  function Proposal(th: Thread): nat
    requires th.Loaded?
  {
    if th.received == 0 then Tick(th.prev, th.physical) else Receive(th.prev, th.physical, th.received)
  }

  predicate Enabled(s: State, a: Step) {
    match a
    case Sample(t, _, _) => ThreadOf(s, t).Idle?
    case Load(t) => ThreadOf(s, t).Sampled?
    case Swap(t) => ThreadOf(s, t).Loaded? && ThreadOf(s, t).prev == s.last
    case Fail(t, _) => ThreadOf(s, t).Loaded?
  }

  function Apply(s: State, a: Step): State
    requires Enabled(s, a)
  {
    match a
    case Sample(t, p, r) => s.(threads := s.threads[t := Sampled(p, r)])
    case Load(t) =>
      var th := ThreadOf(s, t);
      s.(threads := s.threads[t := Loaded(th.physical, th.received, s.last)])
    case Swap(t) =>
      var th := ThreadOf(s, t);
      State(Proposal(th), s.threads[t := Idle], s.issued + [Issue(Proposal(th), th.physical, th.received)])
    case Fail(t, p) => s.(threads := s.threads[t := Sampled(p, ThreadOf(s, t).received)])
  }

  const Start := State(0, map[], [])

  /** Every step of the run is enabled when it is taken. */
  predicate IsRun(s: State, run: seq<Step>)
    decreases |run|
  {
    run == [] || (Enabled(s, run[0]) && IsRun(Apply(s, run[0]), run[1..]))
  }

  function End(s: State, run: seq<Step>): State
    requires IsRun(s, run)
    decreases |run|
  {
    if run == [] then s else End(Apply(s, run[0]), run[1..])
  }

  // ---------- The invariant ----------

  /** What the environment supplies, readings (as words) and received stamps, stays
      below a bound of its choice; readings and received stamps may go backwards. */
  predicate Reasonable(a: Step, bound: nat) {
    match a
    case Sample(_, p, r) => p * Unit <= bound && r <= bound
    case Fail(_, p) => p * Unit <= bound
    case _ => true
  }

  predicate Increasing(issued: seq<Issue>) {
    forall i, j | 0 <= i < j < |issued| :: issued[i].stamp < issued[j].stamp
  }

  /** The stamp issued before the `i`-th, 0 for the first. */
  function Before(issued: seq<Issue>, i: nat): nat
    requires i <= |issued|
  {
    if i == 0 then 0 else issued[i - 1].stamp
  }

  ghost predicate AllLeast(issued: seq<Issue>) {
    forall i | 0 <= i < |issued| :: IsLeast(issued[i].stamp, Max(Before(issued, i), issued[i].received), issued[i].physical)
  }

  lemma IssueKeeps(issued: seq<Issue>, e: Issue)
    requires Increasing(issued) && AllLeast(issued) && e.stamp > Before(issued, |issued|)
    requires IsLeast(e.stamp, Max(Before(issued, |issued|), e.received), e.physical)
    ensures Increasing(issued + [e]) && AllLeast(issued + [e]) && Before(issued + [e], |issued| + 1) == e.stamp
  {
    hide *;
    IssueKeepsOrder(issued, e);
    IssueKeepsLeast(issued, e);
    LastIssue(issued, e);
  }

  lemma LastIssue(issued: seq<Issue>, e: Issue)
    ensures Before(issued + [e], |issued| + 1) == e.stamp
    ensures forall i | 0 <= i <= |issued| :: Before(issued + [e], i) == Before(issued, i)
  {
  }

  lemma IssueKeepsOrder(issued: seq<Issue>, e: Issue)
    requires Increasing(issued) && e.stamp > Before(issued, |issued|)
    ensures Increasing(issued + [e])
  {
    if issued != [] {
      var last := |issued| - 1;
      assert forall i | 0 <= i <= last :: issued[i].stamp <= issued[last].stamp;
    }
  }

  lemma IssueKeepsLeast(issued: seq<Issue>, e: Issue)
    requires AllLeast(issued) && IsLeast(e.stamp, Max(Before(issued, |issued|), e.received), e.physical)
    ensures AllLeast(issued + [e])
  {
    LastIssue(issued, e);
    hide IsLeast, Before;
    var all := issued + [e];
    forall i | 0 <= i < |all| ensures IsLeast(all[i].stamp, Max(Before(all, i), all[i].received), all[i].physical) {
      if i < |issued| {
        assert all[i] == issued[i];
      }
    }
  }

  ghost predicate Inv(s: State, bound: nat) {
    Increasing(s.issued) &&
    s.last == Before(s.issued, |s.issued|) &&
    s.last <= bound + |s.issued| &&
    AllLeast(s.issued) &&
    (forall t | t in s.threads && !s.threads[t].Idle? ::
      s.threads[t].physical * Unit <= bound && s.threads[t].received <= bound)
  }

  /** A proposal is the least word above both the word it replaces and the stamp received,
      and not below the reading. */
  lemma ProposalAdvances(th: Thread, bound: nat)
    requires th.Loaded? && th.physical * Unit <= bound < WordBound - 1
    requires th.received <= bound && th.prev < WordBound - 1
    ensures IsLeast(Proposal(th), Max(th.prev, th.received), th.physical)
    ensures th.prev < Proposal(th) && th.received < Proposal(th)
    ensures Proposal(th) <= Max(bound, th.prev) + 1
  {
    var m := Max(th.prev, th.received);
    ReceiveIsTick(th.prev, th.physical, th.received);
    TickValue(m, th.physical);
    TickIsLeast(m, th.physical);
  }

  lemma StepKeepsInv(s: State, a: Step, bound: nat)
    requires Inv(s, bound) && Enabled(s, a) && Reasonable(a, bound) && bound + |s.issued| < WordBound - 1
    ensures Inv(Apply(s, a), bound) && |Apply(s, a).issued| <= |s.issued| + 1
    ensures s.issued <= Apply(s, a).issued
  {
    hide IsLeast, Proposal, AllLeast, Increasing, Before;
    if a.Swap? {
      var th := ThreadOf(s, a.t);
      ProposalAdvances(th, bound);
      IssueKeeps(s.issued, Issue(Proposal(th), th.physical, th.received));
    }
  }

  lemma {:induction false} RunKeepsInv(s: State, run: seq<Step>, bound: nat)
    requires Inv(s, bound) && IsRun(s, run) && bound + |s.issued| + |run| < WordBound
    requires forall i | 0 <= i < |run| :: Reasonable(run[i], bound)
    ensures Inv(End(s, run), bound)
    decreases |run|
  {
    if run != [] {
      StepKeepsInv(s, run[0], bound);
      RunKeepsInv(Apply(s, run[0]), run[1..], bound);
    }
  }

  /** Main result: in every interleaving the issued stamps are positive and strictly
      increasing in swap order, hence distinct, and each exceeds the stamp it received,
      as long as the bound leaves the 64-bit word room for the length of the run. */
  lemma StampsIncrease(run: seq<Step>, bound: nat)
    requires IsRun(Start, run) && bound + |run| < WordBound
    requires forall i | 0 <= i < |run| :: Reasonable(run[i], bound)
    ensures var issued := End(Start, run).issued;
            (forall i, j | 0 <= i < j < |issued| :: 0 < issued[i].stamp < issued[j].stamp) &&
            (forall i | 0 <= i < |issued| ::
              issued[i].stamp > issued[i].received && ExtractTime(issued[i].stamp) >= issued[i].physical)
  {
    RunKeepsInv(Start, run, bound);
    var issued := End(Start, run).issued;
    forall i | 0 <= i < |issued|
      ensures issued[i].stamp > issued[i].received && ExtractTime(issued[i].stamp) >= issued[i].physical && issued[i].stamp > 0
    {
      assert IsLeast(issued[i].stamp, Max(Before(issued, i), issued[i].received), issued[i].physical);
    }
  }

  /** And each is determined: the least word that exceeds the stamp issued before it (0 for
      the first) and the stamp received, and is not below the reading of its attempt. */
  lemma StampsAreLeast(run: seq<Step>, bound: nat, i: nat)
    requires IsRun(Start, run) && bound + |run| < WordBound
    requires forall j | 0 <= j < |run| :: Reasonable(run[j], bound)
    requires i < |End(Start, run).issued|
    ensures var issued := End(Start, run).issued;
            IsLeast(issued[i].stamp, Max(Before(issued, i), issued[i].received), issued[i].physical)
  {
    RunKeepsInv(Start, run, bound);
  }

  // ---------- The retry loop as a run ----------

  /** Another thread moves the word from `last` to `w`: on receipt of the stamp below `w`. */
  function Other(u: nat, last: nat, w: nat): seq<Step>
    requires last <= w
  {
    if w == last then [] else [Sample(u, 0, w - 1), Load(u), Swap(u)]
  }

  /** The attempts of thread `t` after it has read the clock: each but the last fails, with
      the word left as given, by another thread or, where it is the same, spuriously. */
  function Attempts(t: nat, u: nat, last: nat, readings: seq<nat>, words: seq<nat>): seq<Step>
    requires |readings| == |words| + 1 && Rising(last, words)
    decreases |words|
  {
    if words == [] then [Load(t), Swap(t)]
    else [Load(t)] + Other(u, last, words[0]) + [Fail(t, readings[1])] + Attempts(t, u, words[0], readings[1..], words[1..])
  }

  lemma {:induction false} RunConcat(s: State, a: seq<Step>, b: seq<Step>)
    requires IsRun(s, a) && IsRun(End(s, a), b)
    ensures IsRun(s, a + b) && End(s, a + b) == End(End(s, a), b)
    decreases |a|
  {
    if a == [] {
      assert a + b == b;
    } else {
      assert (a + b)[1..] == a[1..] + b;
      RunConcat(Apply(s, a[0]), a[1..], b);
    }
  }

  lemma OneStep(s: State, a: Step)
    requires Enabled(s, a)
    ensures IsRun(s, [a]) && End(s, [a]) == Apply(s, a)
  {
    assert [a][1..] == [];
    assert IsRun(Apply(s, a), []);
  }

  /** Without changing what `t` has in hand, the other thread brings the word to `w`. */
  lemma OtherMoves(s: State, t: nat, u: nat, w: nat)
    requires t != u && ThreadOf(s, u).Idle? && s.last <= w < WordBound - 1
    ensures IsRun(s, Other(u, s.last, w))
    ensures var e := End(s, Other(u, s.last, w)); e.last == w && ThreadOf(e, t) == ThreadOf(s, t) && ThreadOf(e, u).Idle?
  {
    if w != s.last {
      var a, b, c := Sample(u, 0, w - 1), Load(u), Swap(u);
      var s1 := Apply(s, a);
      var s2 := Apply(s1, b);
      OneStep(s, a);
      OneStep(s1, b);
      OneStep(s2, c);
      RunConcat(s, [a], [b]);
      RunConcat(s, [a] + [b], [c]);
      assert [a] + [b] + [c] == Other(u, s.last, w);
      ReceiveIsTick(s.last, 0, w - 1);
      TickValue(w - 1, 0);
      TickValue(s.last, 0);
    }
  }

  /** The attempts of one call are a run of the machine, and the stamp it issues last is
      the one `GetTimeStamp` returns, or `ReceiveTimeStamp` for a received stamp. */
  lemma {:induction false} AttemptsAreRun(s: State, t: nat, u: nat, received: nat, readings: seq<nat>, words: seq<nat>)
    requires t != u && ThreadOf(s, u).Idle? && |readings| == |words| + 1 && Rising(s.last, words)
    requires LastWord(s.last, words) < WordBound - 1 && ThreadOf(s, t) == Sampled(readings[0], received)
    ensures var run := Attempts(t, u, s.last, readings, words);
            IsRun(s, run) && End(s, run).issued != [] &&
            var last := End(s, run).issued[|End(s, run).issued| - 1];
            last.stamp == End(s, run).last == Tick(Max(LastWord(s.last, words), received), readings[|words|]) &&
            last.received == received && last.physical == readings[|words|]
    decreases |words|
  {
    if words == [] {
      LastAttempt(s, t, readings[0], received);
      assert [Load(t), Swap(t)] == Attempts(t, u, s.last, readings, words);
    } else {
      var head := [Load(t)] + Other(u, s.last, words[0]) + [Fail(t, readings[1])];
      RisingWords(LastWord(s.last, words), s.last, words);
      FailedAttempt(s, t, u, readings, received, words[0]);
      hide End, IsRun, Tick, ThreadOf, Other;
      AttemptsAreRun(End(s, head), t, u, received, readings[1..], words[1..]);
      RunConcat(s, head, Attempts(t, u, words[0], readings[1..], words[1..]));
    }
  }

  lemma LastAttempt(s: State, t: nat, physical: nat, received: nat)
    requires ThreadOf(s, t) == Sampled(physical, received)
    ensures var run := [Load(t), Swap(t)];
            IsRun(s, run) && End(s, run).last == Tick(Max(s.last, received), physical) &&
            End(s, run).issued == s.issued + [Issue(Tick(Max(s.last, received), physical), physical, received)]
  {
    OneStep(s, Load(t));
    var s1 := Apply(s, Load(t));
    OneStep(s1, Swap(t));
    RunConcat(s, [Load(t)], [Swap(t)]);
    assert [Load(t)] + [Swap(t)] == [Load(t), Swap(t)];
    ReceiveIsTick(s.last, physical, received);
  }

  lemma FailedAttempt(s: State, t: nat, u: nat, readings: seq<nat>, received: nat, w: nat)
    requires t != u && ThreadOf(s, u).Idle? && |readings| > 1 && s.last <= w < WordBound - 1
    requires ThreadOf(s, t) == Sampled(readings[0], received)
    ensures var head := [Load(t)] + Other(u, s.last, w) + [Fail(t, readings[1])];
            IsRun(s, head) && End(s, head).last == w && ThreadOf(End(s, head), u).Idle? &&
            ThreadOf(End(s, head), t) == Sampled(readings[1], received)
  {
    hide Tick, Receive, Other;
    OneStep(s, Load(t));
    var s1, fail := Apply(s, Load(t)), Fail(t, readings[1]);
    var others := Other(u, s.last, w);
    OtherMoves(s1, t, u, w);
    OneStep(End(s1, others), fail);
    RunConcat(s, [Load(t)], others);
    RunConcat(s, [Load(t)] + others, [fail]);
  }
}
