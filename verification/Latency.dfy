/**
 The lock-free log-bucket histogram of latency_histogram.rs: `record_us` as atomic steps that
 interleave freely, the percentile read from a quiescent snapshot, and how far it is from the
 true one. Counters are unbounded.
 */
module Latency {
  import opened Bytes
  import opened Tallies

  const HISTOGRAM_BUCKETS: nat := 30

  // ---- buckets -------------------------------------------------------------

  /** `63 - leading_zeros` */
  function Log2(us: nat): (k: nat)
    requires us >= 1
  {
    if us == 1 then 0 else 1 + Log2(us / 2)
  }

  function BucketFor(us: nat): (b: nat)
    ensures b <= HISTOGRAM_BUCKETS
  {
    if us <= 1 then 0
    else if Log2(us) < HISTOGRAM_BUCKETS then Log2(us)
    else HISTOGRAM_BUCKETS
  }

  lemma {:induction false} Log2Below(us: nat, k: nat)
    requires us >= 1
    ensures Log2(us) < k <==> us < Pow2(k)
    decreases us
  {
    if us > 1 && k > 0 {
      Log2Below(us / 2, k - 1);
    }
  }

  /** Bucket `b` holds the samples from 2^b up to 2^(b+1); bucket 0 also holds 0. */
  lemma BucketBelow(us: nat, k: nat)
    requires 1 <= k <= HISTOGRAM_BUCKETS
    ensures BucketFor(us) < k <==> us < Pow2(k)
  {
    if us <= 1 {
      assert Pow2(k) >= 2;
    } else {
      Log2Below(us, k);
    }
  }

  // ---- recording -------------------------------------------------------------

  /** Where a `record_us` call stands; while comparing it holds the maximum it last observed. */
  datatype Phase = ToBucket | ToSum | ToCount | ToLoad | Comparing(cur: nat) | Finished

  datatype Call = Call(us: nat, phase: Phase)

  /** `held`: every value `max` has had. A relaxed load may return any of them. */
  datatype State = State(
    buckets: seq<nat>, overflow: nat, sum: nat, count: nat, max: nat, held: set<nat>, calls: seq<Call>)

  datatype Action =
    | Begin(us: nat)
    | AddBucket(i: nat)
    | AddSum(i: nat)
    | AddCount(i: nat)
    | LoadMax(i: nat, seen: nat)
    | Leave(i: nat)
    | Swap(i: nat)
    | SwapFails(i: nat, seen: nat)

  function Initial(): (s: State)
  {
    State(seq(HISTOGRAM_BUCKETS, _ => 0), 0, 0, 0, 0, {0}, [])
  }

  predicate At(s: State, i: nat, phase: Phase)
  {
    i < |s.calls| && s.calls[i].phase == phase
  }

  predicate Compares(s: State, i: nat)
  {
    i < |s.calls| && s.calls[i].phase.Comparing?
  }

  /** The weak exchange succeeds only on the current value, and may fail for no reason. */
  predicate Enabled(s: State, a: Action)
  {
    match a
    case Begin(_) => true
    case AddBucket(i) => At(s, i, ToBucket) && |s.buckets| == HISTOGRAM_BUCKETS
    case AddSum(i) => At(s, i, ToSum)
    case AddCount(i) => At(s, i, ToCount)
    case LoadMax(i, seen) => At(s, i, ToLoad) && seen in s.held
    case Leave(i) => Compares(s, i) && s.calls[i].us <= s.calls[i].phase.cur
    case Swap(i) => Compares(s, i) && s.calls[i].us > s.calls[i].phase.cur && s.max == s.calls[i].phase.cur
    case SwapFails(i, seen) => Compares(s, i) && s.calls[i].us > s.calls[i].phase.cur && seen in s.held
  }

  function Moved(s: State, i: nat, phase: Phase): (calls: seq<Call>)
    requires i < |s.calls|
  {
    s.calls[i := s.calls[i].(phase := phase)]
  }

  function Step(s: State, a: Action): (r: State)
    requires Enabled(s, a)
  {
    match a
    case Begin(us) => s.(calls := s.calls + [Call(us, ToBucket)])
    case AddBucket(i) =>
      var b := BucketFor(s.calls[i].us);
      if b >= HISTOGRAM_BUCKETS then s.(overflow := s.overflow + 1, calls := Moved(s, i, ToSum))
      else s.(buckets := s.buckets[b := s.buckets[b] + 1], calls := Moved(s, i, ToSum))
    case AddSum(i) => s.(sum := s.sum + s.calls[i].us, calls := Moved(s, i, ToCount))
    case AddCount(i) => s.(count := s.count + 1, calls := Moved(s, i, ToLoad))
    case LoadMax(i, seen) => s.(calls := Moved(s, i, Comparing(seen)))
    case Leave(i) => s.(calls := Moved(s, i, Finished))
    case Swap(i) => s.(max := s.calls[i].us, held := s.held + {s.calls[i].us}, calls := Moved(s, i, Finished))
    case SwapFails(i, seen) => s.(calls := Moved(s, i, Comparing(seen)))
  }

  // ---- the invariant -----------------------------------------------------------

  function InBucket(b: nat): (f: Call -> nat)
  {
    (c: Call) => if !c.phase.ToBucket? && BucketFor(c.us) == b then 1 else 0
  }

  function InSum(): (f: Call -> nat)
  {
    (c: Call) => if c.phase.ToBucket? || c.phase.ToSum? then 0 else c.us
  }

  function InCount(): (f: Call -> nat)
  {
    (c: Call) => if c.phase.ToBucket? || c.phase.ToSum? || c.phase.ToCount? then 0 else 1
  }

  function Cell(s: State, b: nat): (n: nat)
    requires |s.buckets| == HISTOGRAM_BUCKETS && b <= HISTOGRAM_BUCKETS
  {
    if b < HISTOGRAM_BUCKETS then s.buckets[b] else s.overflow
  }

  predicate CellsOk(s: State)
  {
    && |s.buckets| == HISTOGRAM_BUCKETS
    && forall b {:trigger Cell(s, b)} :: 0 <= b <= HISTOGRAM_BUCKETS ==> Cell(s, b) == Tally(s.calls, InBucket(b))
  }

  predicate SumsOk(s: State)
  {
    s.sum == Tally(s.calls, InSum()) && s.count == Tally(s.calls, InCount())
  }

  predicate CallOk(s: State, c: Call)
  {
    (c.phase.Finished? ==> c.us <= s.max) && (c.phase.Comparing? ==> c.phase.cur in s.held)
  }

  predicate MaxOk(s: State)
  {
    && s.max in s.held && 0 in s.held
    && (forall v :: v in s.held ==> v <= s.max)
    && (s.max == 0 || exists i :: 0 <= i < |s.calls| && s.calls[i].us == s.max)
    && (forall i {:trigger CallOk(s, s.calls[i])} :: 0 <= i < |s.calls| ==> CallOk(s, s.calls[i]))
  }

  predicate Inv(s: State) { CellsOk(s) && SumsOk(s) && MaxOk(s) }

  /** How a tally over the calls changes in one step. */
  lemma TallyStep(s: State, a: Action, f: Call -> nat)
    requires Enabled(s, a)
    ensures a.Begin? ==> Tally(Step(s, a).calls, f) == Tally(s.calls, f) + f(Call(a.us, ToBucket))
    ensures !a.Begin? ==> a.i < |s.calls| == |Step(s, a).calls|
    ensures !a.Begin? ==> Tally(Step(s, a).calls, f) + f(s.calls[a.i]) == Tally(s.calls, f) + f(Step(s, a).calls[a.i])
  {
    if a.Begin? {
      TallyMore(s.calls, Call(a.us, ToBucket), f);
    } else {
      TallyUpdate(s.calls, a.i, Step(s, a).calls[a.i], f);
    }
  }

  lemma CellKept(s: State, a: Action, b: nat)
    requires |s.buckets| == HISTOGRAM_BUCKETS && b <= HISTOGRAM_BUCKETS && Enabled(s, a)
    requires Cell(s, b) == Tally(s.calls, InBucket(b))
    ensures |Step(s, a).buckets| == HISTOGRAM_BUCKETS
    ensures Cell(Step(s, a), b) == Tally(Step(s, a).calls, InBucket(b))
  {
    TallyStep(s, a, InBucket(b));
  }

  lemma CellsKept(s: State, a: Action)
    requires CellsOk(s) && Enabled(s, a)
    ensures CellsOk(Step(s, a))
  {
    var s' := Step(s, a);
    forall b | 0 <= b <= HISTOGRAM_BUCKETS
      ensures |s'.buckets| == HISTOGRAM_BUCKETS && Cell(s', b) == Tally(s'.calls, InBucket(b))
    {
      assert Cell(s, b) == Tally(s.calls, InBucket(b));
      CellKept(s, a, b);
    }
    CellKept(s, a, 0);
  }

  lemma SumKept(s: State, a: Action)
    requires s.sum == Tally(s.calls, InSum()) && Enabled(s, a)
    ensures Step(s, a).sum == Tally(Step(s, a).calls, InSum())
  {
    TallyStep(s, a, InSum());
  }

  lemma CountKept(s: State, a: Action)
    requires s.count == Tally(s.calls, InCount()) && Enabled(s, a)
    ensures Step(s, a).count == Tally(Step(s, a).calls, InCount())
  {
    TallyStep(s, a, InCount());
  }

  lemma MaxKept(s: State, a: Action)
    requires MaxOk(s) && Enabled(s, a)
    ensures MaxOk(Step(s, a))
  {
    var s' := Step(s, a);
    forall i | 0 <= i < |s'.calls|
      ensures CallOk(s', s'.calls[i])
    {
      if i < |s.calls| {
        assert CallOk(s, s.calls[i]);
      }
    }
    if s'.max != 0 {
      if a.Swap? {
        assert s'.calls[a.i].us == s'.max;
      } else {
        var i :| 0 <= i < |s.calls| && s.calls[i].us == s.max;
        assert s'.calls[i].us == s'.max;
      }
    }
  }

  // ---- runs --------------------------------------------------------------------

  predicate Runs(s: State, actions: seq<Action>)
    decreases |actions|
  {
    actions == [] || (Enabled(s, actions[0]) && Runs(Step(s, actions[0]), actions[1..]))
  }

  function Exec(s: State, actions: seq<Action>): (r: State)
    requires Runs(s, actions)
    decreases |actions|
  {
    if actions == [] then s else Exec(Step(s, actions[0]), actions[1..])
  }

  lemma StepKeeps(s: State, a: Action)
    requires Inv(s) && Enabled(s, a)
    ensures Inv(Step(s, a))
  {
    CellsKept(s, a);
    SumKept(s, a);
    CountKept(s, a);
    MaxKept(s, a);
  }

  lemma {:induction false} RunKeeps(s: State, actions: seq<Action>)
    requires Inv(s) && Runs(s, actions)
    ensures Inv(Exec(s, actions))
    decreases |actions|
  {
    if actions != [] {
      StepKeeps(s, actions[0]);
      RunKeeps(Step(s, actions[0]), actions[1..]);
    }
  }

  lemma InitialInv()
    ensures Inv(Initial())
  {
  }

  // ---- a quiescent snapshot --------------------------------------------------------

  datatype HistogramSnapshot = HistogramSnapshot(buckets: seq<nat>, overflow: nat, sum: nat, count: nat, max: nat)

  function Snapshot(s: State): (r: HistogramSnapshot)
  {
    HistogramSnapshot(s.buckets, s.overflow, s.sum, s.count, s.max)
  }

  function Samples(calls: seq<Call>): (r: seq<nat>)
    ensures |r| == |calls|
  {
    seq(|calls|, i requires 0 <= i < |calls| => calls[i].us)
  }

  predicate Quiescent(s: State)
  {
    forall i :: 0 <= i < |s.calls| ==> s.calls[i].phase.Finished?
  }

  function OfBucket(b: nat): (f: nat -> nat) { (us: nat) => if BucketFor(us) == b then 1 else 0 }

  function Below(v: nat): (f: nat -> nat) { (us: nat) => if us < v then 1 else 0 }

  function Itself(): (f: nat -> nat) { (us: nat) => us }

  predicate IsMax(samples: seq<nat>, m: nat)
  {
    (forall i :: 0 <= i < |samples| ==> samples[i] <= m) && (if samples == [] then m == 0 else m in samples)
  }

  /** The snapshot says exactly what the samples are, up to their bucket. */
  predicate Describes(h: HistogramSnapshot, samples: seq<nat>)
  {
    && |h.buckets| == HISTOGRAM_BUCKETS
    && (forall b {:trigger h.buckets[b]} :: 0 <= b < HISTOGRAM_BUCKETS ==> h.buckets[b] == Tally(samples, OfBucket(b)))
    && h.overflow == Tally(samples, OfBucket(HISTOGRAM_BUCKETS))
    && h.sum == Tally(samples, Itself())
    && h.count == |samples|
    && IsMax(samples, h.max)
  }

  lemma QuiescentCell(s: State, b: nat)
    requires Quiescent(s)
    ensures Tally(s.calls, InBucket(b)) == Tally(Samples(s.calls), OfBucket(b))
  {
    TallySame(s.calls, InBucket(b), Samples(s.calls), OfBucket(b));
  }

  lemma QuiescentMax(s: State)
    requires MaxOk(s) && Quiescent(s)
    ensures IsMax(Samples(s.calls), s.max)
  {
    var samples := Samples(s.calls);
    forall i | 0 <= i < |samples|
      ensures samples[i] <= s.max
    {
      assert CallOk(s, s.calls[i]);
    }
    if s.max != 0 {
      var i :| 0 <= i < |s.calls| && s.calls[i].us == s.max;
      assert samples[i] == s.max;
    } else if samples != [] {
      assert samples[0] <= s.max;
    }
  }

  /** For every interleaving: once all calls have finished the snapshot describes exactly their samples. */
  lemma QuiescentSnapshotIsExact(actions: seq<Action>)
    requires Runs(Initial(), actions) && Quiescent(Exec(Initial(), actions))
    ensures var s := Exec(Initial(), actions); Describes(Snapshot(s), Samples(s.calls))
  {
    InitialInv();
    RunKeeps(Initial(), actions);
    var s := Exec(Initial(), actions);
    forall b | 0 <= b <= HISTOGRAM_BUCKETS
      ensures Cell(s, b) == Tally(Samples(s.calls), OfBucket(b))
    {
      QuiescentCell(s, b);
    }
    assert forall b {:trigger s.buckets[b]} :: 0 <= b < HISTOGRAM_BUCKETS ==> s.buckets[b] == Cell(s, b);
    assert s.overflow == Cell(s, HISTOGRAM_BUCKETS);
    TallySame(s.calls, InSum(), Samples(s.calls), Itself());
    TallyOnes(s.calls, InCount());
    QuiescentMax(s);
  }

  // ---- recording can always be finished --------------------------------------------

  /** Steps left for call `i` if nobody else moves: a stale maximum costs one failed exchange. */
  function Left(s: State, i: nat): (n: nat)
    requires i < |s.calls|
  {
    match s.calls[i].phase
    case ToBucket => 5
    case ToSum => 4
    case ToCount => 3
    case ToLoad => 2
    case Comparing(cur) => if s.calls[i].us <= cur || s.max == cur then 1 else 2
    case Finished => 0
  }

  function NextStep(s: State, i: nat): (a: Action)
    requires i < |s.calls|
  {
    match s.calls[i].phase
    case ToBucket => AddBucket(i)
    case ToSum => AddSum(i)
    case ToCount => AddCount(i)
    case ToLoad => LoadMax(i, s.max)
    case Comparing(cur) => if s.calls[i].us <= cur then Leave(i) else if s.max == cur then Swap(i) else SwapFails(i, s.max)
    case Finished => Leave(i)
  }

  lemma RunFirst(s: State, a: Action, rest: seq<Action>)
    requires Enabled(s, a) && Runs(Step(s, a), rest)
    ensures Runs(s, [a] + rest) && Exec(s, [a] + rest) == Exec(Step(s, a), rest)
  {
    assert ([a] + rest)[1..] == rest;
  }

  /** Left alone, a call finishes within five steps, whatever the others are in the middle of. */
  lemma {:induction false} FinishCall(s: State, i: nat) returns (actions: seq<Action>)
    requires Inv(s) && i < |s.calls|
    ensures |actions| == Left(s, i) && Runs(s, actions) && Inv(Exec(s, actions))
    ensures Exec(s, actions).calls == s.calls[i := Call(s.calls[i].us, Finished)]
    decreases Left(s, i)
  {
    if s.calls[i].phase.Finished? {
      actions := [];
    } else {
      var a := NextStep(s, i);
      StepKeeps(s, a);
      var s' := Step(s, a);
      var rest := FinishCall(s', i);
      RunFirst(s, a, rest);
      actions := [a] + rest;
    }
  }

  /** Every list of samples is what some run records, so the exactness of its snapshot is never empty. */
  lemma {:induction false} EverySampleListIsRecorded(samples: seq<nat>) returns (actions: seq<Action>)
    ensures Runs(Initial(), actions)
    ensures var s := Exec(Initial(), actions); Inv(s) && Quiescent(s) && Samples(s.calls) == samples
  {
    if samples == [] {
      actions := [];
      InitialInv();
    } else {
      var n := |samples| - 1;
      var front := EverySampleListIsRecorded(samples[..n]);
      var s := Exec(Initial(), front);
      StepKeeps(s, Begin(samples[n]));
      var more := FinishCall(Step(s, Begin(samples[n])), n);
      RunFirst(s, Begin(samples[n]), more);
      RunOn(Initial(), front, [Begin(samples[n])] + more);
      actions := front + ([Begin(samples[n])] + more);
      assert samples == samples[..n] + [samples[n]];
    }
  }

  lemma {:induction false} RunOn(s: State, before: seq<Action>, after: seq<Action>)
    requires Runs(s, before) && Runs(Exec(s, before), after)
    ensures Runs(s, before + after) && Exec(s, before + after) == Exec(Exec(s, before), after)
    decreases |before|
  {
    if before == [] {
      assert before + after == after;
    } else {
      RunOn(Step(s, before[0]), before[1..], after);
      assert (before + after)[1..] == before[1..] + after;
    }
  }

  // ---- the percentile --------------------------------------------------------------

  function Cumulative(buckets: seq<nat>, i: nat): (n: nat)
    requires i <= |buckets|
  {
    if i == 0 then 0 else Cumulative(buckets, i - 1) + buckets[i - 1]
  }

  /** The first `i` buckets hold exactly the samples below 2^i. */
  lemma {:induction false} CumulativeCounts(h: HistogramSnapshot, samples: seq<nat>, i: nat)
    requires Describes(h, samples) && 1 <= i <= HISTOGRAM_BUCKETS
    ensures Cumulative(h.buckets, i) == Tally(samples, Below(Pow2(i)))
  {
    if i == 1 {
      assert Cumulative(h.buckets, 0) == 0;
      forall k | 0 <= k < |samples|
        ensures OfBucket(0)(samples[k]) == Below(Pow2(1))(samples[k])
      {
        BucketBelow(samples[k], 1);
      }
      TallySame(samples, OfBucket(0), samples, Below(Pow2(1)));
    } else {
      CumulativeCounts(h, samples, i - 1);
      forall k | 0 <= k < |samples|
        ensures Below(Pow2(i))(samples[k]) == Below(Pow2(i - 1))(samples[k]) + OfBucket(i - 1)(samples[k])
      {
        BucketBelow(samples[k], i - 1);
        BucketBelow(samples[k], i);
      }
      TallyAdds(samples, Below(Pow2(i)), Below(Pow2(i - 1)), OfBucket(i - 1));
    }
  }

  /** Buckets and overflow add up to the count. */
  lemma BucketsAddUp(h: HistogramSnapshot, samples: seq<nat>)
    requires Describes(h, samples)
    ensures Cumulative(h.buckets, HISTOGRAM_BUCKETS) + h.overflow == h.count
  {
    CumulativeCounts(h, samples, HISTOGRAM_BUCKETS);
    var all := (us: nat) => 1 as nat;
    forall k | 0 <= k < |samples|
      ensures all(samples[k]) == Below(Pow2(HISTOGRAM_BUCKETS))(samples[k]) + OfBucket(HISTOGRAM_BUCKETS)(samples[k])
    {
      BucketBelow(samples[k], HISTOGRAM_BUCKETS);
    }
    TallyAdds(samples, all, Below(Pow2(HISTOGRAM_BUCKETS)), OfBucket(HISTOGRAM_BUCKETS));
    TallyOnes(samples, all);
  }

  function Ceil(x: real): (n: int)
    ensures (n - 1) as real < x <= n as real
  {
    -((-x).Floor)
  }

  /** `(count * (p / 100)).ceil()`, exactly. */
  function Target(count: nat, p: real): (n: int)
  {
    Ceil(count as real * (p / 100.0))
  }

  /** `k` is the rank of the p-th percentile of `count` samples: p/100 of them, rounded up. */
  predicate IsRank(count: nat, p: real, k: int)
  {
    (k - 1) as real * 100.0 < p * count as real <= k as real * 100.0
  }

  lemma TargetIsRank(count: nat, p: real, k: int)
    ensures Target(count, p) == k <==> IsRank(count, p, k)
  {
    var x, c := Target(count, p), count as real;
    assert c * (p / 100.0) * 100.0 == p * c by { Hundredth(c, p); }
    assert (x - 1) as real * 100.0 < p * c <= x as real * 100.0;
  }

  lemma Hundredth(c: real, p: real)
    ensures c * (p / 100.0) * 100.0 == p * c
  {
    var x := p / 100.0;
    assert p == x * 100.0;
  }

  lemma TargetInRange(count: nat, p: real)
    requires count > 0 && 0.0 < p <= 100.0
    ensures 1 <= Target(count, p) <= count
  {
    var x := p / 100.0;
    assert 0.0 < x <= 1.0;
    var c := count as real;
    assert 0.0 < c * x;
    assert c * x <= c * 1.0 by { Monotone(c, x, 1.0); }
  }

  lemma Monotone(c: real, x: real, y: real)
    requires c > 0.0 && x <= y
    ensures c * x <= c * y
  {
    assert c * (y - x) >= 0.0;
  }

  /** The upper bound of the first bucket from `i` on that reaches the target, or the maximum. */
  function Scan(h: HistogramSnapshot, target: int, i: nat): (u: nat)
    requires i <= |h.buckets|
    decreases |h.buckets| - i
  {
    if i == |h.buckets| then h.max
    else if Cumulative(h.buckets, i + 1) >= target then Pow2(i + 1)
    else Scan(h, target, i + 1)
  }

  function PercentileUs(h: HistogramSnapshot, p: real): (r: Option<nat>)
  {
    if h.count == 0 then None else Some(Scan(h, Target(h.count, p), 0))
  }

  method PercentileLoop(h: HistogramSnapshot, p: real) returns (r: Option<nat>)
    ensures r == PercentileUs(h, p)
  {
    if h.count == 0 {
      return None;
    }
    var target := Target(h.count, p);
    var cumulative := 0;
    for i := 0 to |h.buckets|
      invariant cumulative == Cumulative(h.buckets, i)
      invariant Scan(h, target, 0) == Scan(h, target, i)
    {
      cumulative := cumulative + h.buckets[i];
      if cumulative >= target {
        return Some(Pow2(i + 1));
      }
    }
    return Some(h.max);
  }

  // ---- how good it is -----------------------------------------------------------

  /** `t` is the k-th smallest sample: fewer than `k` lie below it and at least `k` do not lie above it. */
  predicate IsKth(samples: seq<nat>, k: int, t: nat)
  {
    t in samples && Tally(samples, Below(t)) < k <= Tally(samples, Below(t + 1))
  }

  lemma {:induction false} BelowMonotone(samples: seq<nat>, u: nat, v: nat)
    requires u <= v
    ensures Tally(samples, Below(u)) <= Tally(samples, Below(v))
  {
    if samples != [] {
      BelowMonotone(samples[..|samples| - 1], u, v);
    }
  }

  /** Position in the order is decided by how many samples lie below a value. */
  lemma KthBelowIff(samples: seq<nat>, k: int, t: nat, v: nat)
    requires IsKth(samples, k, t)
    ensures t < v <==> Tally(samples, Below(v)) >= k
  {
    if t < v {
      BelowMonotone(samples, t + 1, v);
    } else {
      BelowMonotone(samples, v, t);
    }
  }

  /** `u` overestimates `t` at most twofold, or is the maximum when `t` is off the scale. */
  predicate Near(h: HistogramSnapshot, t: nat, u: nat)
  {
    if t < Pow2(HISTOGRAM_BUCKETS) then t < u <= 2 * (if t < 1 then 1 else t) else u == h.max
  }

  lemma HitIsNear(h: HistogramSnapshot, t: nat, i: nat)
    requires i < HISTOGRAM_BUCKETS && (i > 0 ==> t >= Pow2(i)) && t < Pow2(i + 1)
    ensures Near(h, t, Pow2(i + 1))
  {
    PowMonotone(i + 1, HISTOGRAM_BUCKETS);
    if i == 0 {
      assert Pow2(1) == 2;
    }
  }

  lemma {:induction false} ScanBound(h: HistogramSnapshot, samples: seq<nat>, k: int, t: nat, i: nat)
    requires Describes(h, samples) && IsKth(samples, k, t) && i <= HISTOGRAM_BUCKETS
    requires i > 0 ==> t >= Pow2(i)
    ensures Near(h, t, Scan(h, k, i))
    decreases HISTOGRAM_BUCKETS - i
  {
    if i < HISTOGRAM_BUCKETS {
      CumulativeCounts(h, samples, i + 1);
      KthBelowIff(samples, k, t, Pow2(i + 1));
      if Cumulative(h.buckets, i + 1) >= k {
        HitIsNear(h, t, i);
      } else {
        ScanBound(h, samples, k, t, i + 1);
      }
    }
  }

  lemma {:induction false} PowMonotone(i: nat, j: nat)
    requires i <= j
    ensures Pow2(i) <= Pow2(j)
    decreases j
  {
    if i < j {
      PowMonotone(i, j - 1);
    }
  }

  /**
   * For p in (0, 100], with t the ceil(p n / 100)-th smallest sample: the reported value is above
   * t and at most twice t (or 2) while t is below 2^30, and the true maximum otherwise.
   */
  lemma PercentileBound(h: HistogramSnapshot, samples: seq<nat>, p: real, k: int, t: nat)
    requires Describes(h, samples) && samples != [] && 0.0 < p <= 100.0
    requires IsRank(|samples|, p, k) && IsKth(samples, k, t)
    ensures 1 <= k <= |samples|
    ensures PercentileUs(h, p).Some?
    ensures var u := PercentileUs(h, p).value;
            && (t < Pow2(HISTOGRAM_BUCKETS) ==> t < u <= 2 * (if t < 1 then 1 else t))
            && (t >= Pow2(HISTOGRAM_BUCKETS) ==> IsMax(samples, u))
  {
    TargetIsRank(|samples|, p, k);
    TargetBound(h, samples, p, k, t);
  }

  lemma TargetBound(h: HistogramSnapshot, samples: seq<nat>, p: real, k: int, t: nat)
    requires Describes(h, samples) && samples != [] && 0.0 < p <= 100.0
    requires k == Target(|samples|, p) && IsKth(samples, k, t)
    ensures 1 <= k <= |samples| && PercentileUs(h, p).Some? && Near(h, t, PercentileUs(h, p).value)
  {
    TargetInRange(|samples|, p);
    ScanBound(h, samples, k, t, 0);
  }

  /** Outside (0, 100]: the lowest bound at or below zero, the maximum above a hundred, and nothing without samples. */
  lemma PercentileOutside(h: HistogramSnapshot, samples: seq<nat>, p: real)
    requires Describes(h, samples)
    ensures samples == [] <==> PercentileUs(h, p).None?
    ensures samples != [] && p <= 0.0 ==> PercentileUs(h, p) == Some(2)
    ensures samples != [] && p > 100.0 ==> PercentileUs(h, p).Some? && IsMax(samples, PercentileUs(h, p).value)
  {
    if samples != [] {
      var target, c := Target(|samples|, p), |samples| as real;
      TargetIsRank(|samples|, p, target);
      if p <= 0.0 {
        assert p * c <= 0.0;
        assert target <= 0;
        assert Pow2(1) == 2;
      } else if p > 100.0 {
        assert (p - 100.0) * c > 0.0;
        assert target > |samples|;
        NeverReached(h, samples, target, 0);
      }
    }
  }

  lemma {:induction false} NeverReached(h: HistogramSnapshot, samples: seq<nat>, target: int, i: nat)
    requires Describes(h, samples) && target > |samples| && i <= HISTOGRAM_BUCKETS
    ensures Scan(h, target, i) == h.max
    decreases HISTOGRAM_BUCKETS - i
  {
    if i < HISTOGRAM_BUCKETS {
      CumulativeCounts(h, samples, i + 1);
      TallyAtMost(samples, Below(Pow2(i + 1)));
      NeverReached(h, samples, target, i + 1);
    }
  }

  lemma AtLeast(s: seq<nat>, k: nat, t: nat)
    requires k <= |s| && forall i {:trigger s[i]} :: 0 <= i < k ==> s[i] <= t
    ensures Tally(s, Below(t + 1)) >= k
  {
    var low, high := s[..k], s[k..];
    assert s == low + high;
    TallySplits(low, high, Below(t + 1));
    TallyOnes(low, Below(t + 1));
  }

  lemma AtMost(s: seq<nat>, k: nat, t: nat)
    requires k <= |s| && forall i {:trigger s[i]} :: k <= i < |s| ==> s[i] >= t
    ensures Tally(s, Below(t)) <= k
  {
    var low, high := s[..k], s[k..];
    assert s == low + high;
    TallySplits(low, high, Below(t));
    TallyAtMost(low, Below(t));
    TallyZeros(high, Below(t));
  }

  predicate Ascending(s: seq<nat>)
  {
    forall i, j {:trigger s[i], s[j]} :: 0 <= i < j < |s| ==> s[i] <= s[j]
  }

  /** The k-th smallest sample is what a sorted list has at position k. */
  lemma SortedKth(sorted: seq<nat>, k: nat)
    requires Ascending(sorted) && 1 <= k <= |sorted|
    ensures IsKth(sorted, k, sorted[k - 1])
  {
    AtLeast(sorted, k, sorted[k - 1]);
    AtMost(sorted, k - 1, sorted[k - 1]);
  }

  /** Some sample is the k-th smallest, whatever order the samples came in. */
  lemma KthExists(samples: seq<nat>, sorted: seq<nat>, k: nat)
    requires Ascending(sorted) && multiset(sorted) == multiset(samples) && 1 <= k <= |samples|
    ensures |sorted| == |samples| && IsKth(samples, k, sorted[k - 1])
  {
    assert |multiset(sorted)| == |multiset(samples)|;
    SortedKth(sorted, k);
    var t := sorted[k - 1];
    TallyOrderless(sorted, samples, Below(t));
    TallyOrderless(sorted, samples, Below(t + 1));
    assert t in multiset(sorted);
  }

}
