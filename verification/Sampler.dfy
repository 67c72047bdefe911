/** The K-best sampler of `malloclab/fcyc.c`, with measurements as reals. */
module Sampler {

  // ---- What the sampler keeps, as a function of the samples in the order they came ----

  ghost predicate Sorted(s: seq<real>) {
    forall i, j | 0 <= i < j < |s| :: s[i] <= s[j]
  }

  /** `x` goes behind everything not larger than it. */
  function Insert(s: seq<real>, x: real): (r: seq<real>)
    ensures |r| == |s| + 1
  {
    if s == [] || s[|s| - 1] <= x then s + [x] else Insert(s[..|s| - 1], x) + [s[|s| - 1]]
  }

  function Keep(best: seq<real>, x: real, k: nat): (r: seq<real>)
    ensures |r| == if |best| < k then |best| + 1 else k
  {
    var all := Insert(best, x);
    if |all| > k then all[..k] else all
  }

  function Best(samples: seq<real>, k: nat): (r: seq<real>)
    ensures |r| == if |samples| < k then |samples| else k
  {
    if samples == [] then [] else Keep(Best(samples[..|samples| - 1], k), samples[|samples| - 1], k)
  }

  ghost predicate AllAtMost(s: seq<real>, bound: real) {
    forall i | 0 <= i < |s| :: s[i] <= bound
  }

  ghost predicate AllAtLeast(others: multiset<real>, s: seq<real>) {
    forall y | y in others :: AllAtMost(s, y)
  }

  /** `best` is sorted, taken from `all`, and none of the rest of `all` is smaller than any of it. */
  ghost predicate Smallest(best: seq<real>, all: multiset<real>) {
    Sorted(best) && multiset(best) <= all && AllAtLeast(all - multiset(best), best)
  }

  lemma {:induction false} InsertElements(s: seq<real>, x: real)
    ensures multiset(Insert(s, x)) == multiset(s) + multiset{x}
  {
    if s != [] && s[|s| - 1] > x {
      var front, last := s[..|s| - 1], s[|s| - 1];
      InsertElements(front, x);
      assert s == front + [last];
    }
  }

  lemma {:induction false} InsertAtMost(s: seq<real>, x: real, bound: real)
    requires AllAtMost(s, bound) && x <= bound
    ensures AllAtMost(Insert(s, x), bound)
  {
    if s != [] && s[|s| - 1] > x {
      InsertAtMost(s[..|s| - 1], x, bound);
    }
  }

  lemma {:induction false} InsertSorted(s: seq<real>, x: real)
    requires Sorted(s)
    ensures Sorted(Insert(s, x))
  {
    if s != [] && s[|s| - 1] > x {
      InsertSorted(s[..|s| - 1], x);
      InsertAtMost(s[..|s| - 1], x, s[|s| - 1]);
    }
  }

  /** Cutting the largest off a sorted sequence of smallest values leaves a sequence of smallest values. */
  lemma CutSmallest(s: seq<real>, all: multiset<real>)
    requires s != [] && Smallest(s, all)
    ensures Smallest(s[..|s| - 1], all)
  {
    var front, last := s[..|s| - 1], s[|s| - 1];
    assert s == front + [last];
    assert multiset(s) == multiset(front) + multiset{last};
    forall y | y in all - multiset(front) ensures AllAtMost(front, y) {
      if y != last {
        assert y in all - multiset(s);
        assert AllAtMost(s, y);
      }
    }
  }

  lemma InsertSmallest(best: seq<real>, all: multiset<real>, x: real)
    requires Smallest(best, all) && (multiset(best) == all || (best != [] && best[|best| - 1] > x))
    ensures Smallest(Insert(best, x), all + multiset{x})
  {
    InsertElements(best, x);
    InsertSorted(best, x);
    assert all + multiset{x} - multiset(Insert(best, x)) == all - multiset(best);
    forall y | y in all - multiset(best) ensures AllAtMost(Insert(best, x), y) {
      assert AllAtMost(best, y);
      InsertAtMost(best, x, y);
    }
  }

  lemma SkipSmallest(best: seq<real>, all: multiset<real>, x: real)
    requires Smallest(best, all) && AllAtMost(best, x)
    ensures Smallest(best, all + multiset{x})
  {
    forall y | y in all + multiset{x} - multiset(best) ensures AllAtMost(best, y) {
      if y != x {
        assert y in all - multiset(best);
      }
    }
  }

  lemma KeepSmallest(best: seq<real>, all: multiset<real>, x: real, k: nat)
    requires k > 0 && |best| <= k && Smallest(best, all) && (|best| < k ==> multiset(best) == all)
    ensures Smallest(Keep(best, x, k), all + multiset{x})
    ensures |Keep(best, x, k)| < k ==> multiset(Keep(best, x, k)) == all + multiset{x}
  {
    if |best| == k && best[k - 1] <= x {
      assert Keep(best, x, k) == best;
      SkipSmallest(best, all, x);
    } else {
      InsertElements(best, x);
      InsertSmallest(best, all, x);
      if |best| == k {
        CutSmallest(Insert(best, x), all + multiset{x});
      }
    }
  }

  /** Whatever came, the values kept are sorted and are, as a multiset, the smallest ones seen. */
  lemma {:induction false} BestAreSmallest(samples: seq<real>, k: nat)
    requires k > 0
    ensures Smallest(Best(samples, k), multiset(samples))
    ensures |samples| < k ==> multiset(Best(samples, k)) == multiset(samples)
  {
    if samples != [] {
      var front, last := samples[..|samples| - 1], samples[|samples| - 1];
      BestAreSmallest(front, k);
      assert samples == front + [last];
      KeepSmallest(Best(front, k), multiset(front), last, k);
    }
  }

  /** There is no other sorted choice of as many smallest values: the order of the samples does not matter. */
  lemma {:induction false} SmallestIsUnique(s: seq<real>, t: seq<real>, all: multiset<real>)
    requires Smallest(s, all) && Smallest(t, all) && |s| == |t|
    ensures s == t
    decreases |s|, 1
  {
    if s != [] {
      var k := |s| - 1;
      SameFront(s, t, all);
      LastAtMost(s, t, all);
      LastAtMost(t, s, all);
      assert s == s[..k] + [s[k]] && t == t[..k] + [t[k]];
    }
  }

  lemma {:induction false} SameFront(s: seq<real>, t: seq<real>, all: multiset<real>)
    requires s != [] && Smallest(s, all) && Smallest(t, all) && |s| == |t|
    ensures s[..|s| - 1] == t[..|s| - 1]
    decreases |s|, 0
  {
    CutSmallest(s, all);
    CutSmallest(t, all);
    SmallestIsUnique(s[..|s| - 1], t[..|s| - 1], all);
  }

  lemma LastAtMost(s: seq<real>, t: seq<real>, all: multiset<real>)
    requires s != [] && |s| == |t| && s[..|s| - 1] == t[..|t| - 1]
    requires Smallest(s, all) && Smallest(t, all)
    ensures s[|s| - 1] <= t[|t| - 1]
  {
    var x, y := s[|s| - 1], t[|t| - 1];
    if x != y {
      OtherLast(s, t, all);
      assert AllAtMost(s, y);
    }
  }

  lemma OtherLast(s: seq<real>, t: seq<real>, all: multiset<real>)
    requires s != [] && |s| == |t| && s[..|s| - 1] == t[..|t| - 1] && s[|s| - 1] != t[|t| - 1]
    requires multiset(s) <= all && multiset(t) <= all
    ensures t[|t| - 1] in all - multiset(s)
  {
    var front, x, y := s[..|s| - 1], s[|s| - 1], t[|t| - 1];
    assert s == front + [x] && t == front + [y];
    assert multiset(s)[y] == multiset(front)[y] && multiset(t)[y] == multiset(front)[y] + 1;
  }

  lemma SamplesInAnyOrder(samples: seq<real>, others: seq<real>, k: nat)
    requires k > 0 && multiset(samples) == multiset(others)
    ensures Best(samples, k) == Best(others, k)
  {
    BestAreSmallest(samples, k);
    BestAreSmallest(others, k);
    assert |samples| == |multiset(samples)| == |multiset(others)| == |others|;
    SmallestIsUnique(Best(samples, k), Best(others, k), multiset(samples));
  }

  /** The first value kept is the minimum of the samples. */
  lemma FirstIsMinimum(samples: seq<real>, k: nat)
    requires k > 0 && samples != []
    ensures Best(samples, k)[0] in samples && forall i | 0 <= i < |samples| :: Best(samples, k)[0] <= samples[i]
  {
    var best := Best(samples, k);
    BestAreSmallest(samples, k);
    assert best[0] in multiset(best);
    assert best[0] in multiset(samples);
    forall i | 0 <= i < |samples| ensures best[0] <= samples[i] {
      var y := samples[i];
      assert y in multiset(samples);
      if y in multiset(best) {
        assert y in best;
      } else {
        assert y in multiset(samples) - multiset(best);
      }
    }
  }

  // ---- Convergence ----

  /** `has_converged` after these samples. */
  predicate Converged(samples: seq<real>, k: nat, epsilon: real)
    requires k > 0
  {
    |samples| >= k && (1.0 + epsilon) * Best(samples, k)[0] >= Best(samples, k)[k - 1]
  }

  /** How many samples are at most `bound`. */
  function CountAtMost(s: seq<real>, bound: real): (n: nat)
    ensures n <= |s|
  {
    if s == [] then 0 else CountAtMost(s[..|s| - 1], bound) + if s[|s| - 1] <= bound then 1 else 0
  }

  lemma {:induction false} CountAll(s: seq<real>, bound: real)
    ensures CountAtMost(s, bound) == |s| <==> AllAtMost(s, bound)
    decreases |s|
  {
    if s != [] {
      CountAll(s[..|s| - 1], bound);
      assert AllAtMost(s, bound) <==> AllAtMost(s[..|s| - 1], bound) && s[|s| - 1] <= bound;
    }
  }

  lemma {:induction false} CountInsert(s: seq<real>, x: real, bound: real)
    ensures CountAtMost(Insert(s, x), bound) == CountAtMost(s, bound) + if x <= bound then 1 else 0
    decreases |s|
  {
    if s == [] || s[|s| - 1] <= x {
      assert (s + [x])[..|s|] == s;
    } else {
      var front, last := s[..|s| - 1], s[|s| - 1];
      CountInsert(front, x, bound);
      assert (Insert(front, x) + [last])[..|s|] == Insert(front, x);
    }
  }

  /** Of a sorted sequence the first values are those a bound admits. */
  lemma CountCut(s: seq<real>, bound: real)
    requires s != [] && Sorted(s)
    ensures var front := s[..|s| - 1];
            CountAtMost(front, bound) == if CountAtMost(s, bound) < |front| then CountAtMost(s, bound) else |front|
  {
    CountAll(s[..|s| - 1], bound);
    CountAll(s, bound);
  }

  lemma CountKeep(best: seq<real>, x: real, k: nat, bound: real)
    requires Sorted(best) && |best| <= k
    ensures var n := CountAtMost(best, bound) + if x <= bound then 1 else 0;
            CountAtMost(Keep(best, x, k), bound) == if n < k then n else k
  {
    var all := Insert(best, x);
    InsertSorted(best, x);
    CountInsert(best, x, bound);
    if |all| > k {
      CountCut(all, bound);
    }
  }

  /** A bound admits as many of the values kept as of all samples, up to `k`. */
  lemma {:induction false} CountBest(samples: seq<real>, k: nat, bound: real)
    requires k > 0
    ensures var n := CountAtMost(samples, bound); CountAtMost(Best(samples, k), bound) == if n < k then n else k
    decreases |samples|
  {
    if samples != [] {
      var front := samples[..|samples| - 1];
      CountBest(front, k, bound);
      BestAreSmallest(front, k);
      CountKeep(Best(front, k), samples[|samples| - 1], k, bound);
    }
  }

  lemma LastBoundsAll(s: seq<real>, bound: real)
    requires s != [] && Sorted(s)
    ensures s[|s| - 1] <= bound <==> CountAtMost(s, bound) == |s|
  {
    CountAll(s, bound);
  }

  lemma BestIsMinimum(samples: seq<real>, k: nat, least: real)
    requires k > 0 && least in samples && forall x | x in samples :: least <= x
    ensures Best(samples, k)[0] == least
  {
    FirstIsMinimum(samples, k);
    var i :| 0 <= i < |samples| && samples[i] == least;
    assert Best(samples, k)[0] <= samples[i];
  }

  /** A bound admits the last of the values kept exactly when it admits `k` samples. */
  lemma BoundsBest(samples: seq<real>, k: nat, bound: real)
    requires 0 < k <= |samples|
    ensures Best(samples, k)[k - 1] <= bound <==> CountAtMost(samples, bound) >= k
  {
    BestAreSmallest(samples, k);
    CountBest(samples, k, bound);
    LastBoundsAll(Best(samples, k), bound);
  }

  /** The measurements have converged exactly when at least `k` of them lie within the tolerance of the least one. */
  lemma ConvergedIff(samples: seq<real>, k: nat, epsilon: real, least: real)
    requires k > 0 && least in samples && forall x | x in samples :: least <= x
    ensures Converged(samples, k, epsilon) <==> CountAtMost(samples, (1.0 + epsilon) * least) >= k
  {
    var factor := 1.0 + epsilon;
    if |samples| >= k {
      BestIsMinimum(samples, k, least);
      BoundsBest(samples, k, factor * least);
    }
  }

  // ---- The sampler ----

  /** The next sample is among the best so far. */
  predicate Enters(samples: seq<real>, k: nat, x: real)
    requires k > 0
  {
    |samples| < k || x < Best(samples, k)[k - 1]
  }

  /** What stays of the values kept when another one enters. */
  function Front(samples: seq<real>, k: nat): (r: seq<real>)
    requires k > 0
    ensures |r| < k
  {
    if |samples| < k then Best(samples, k) else Best(samples, k)[..k - 1]
  }

  lemma BestNext(samples: seq<real>, k: nat, x: real)
    requires k > 0
    ensures Best(samples + [x], k) == if Enters(samples, k, x) then Insert(Front(samples, k), x) else Best(samples, k)
  {
    assert (samples + [x])[..|samples|] == samples;
    var best := Best(samples, k);
    if |samples| >= k {
      if x < best[k - 1] {
        assert best == best[..k - 1] + [best[k - 1]];
        assert Insert(best, x) == Insert(best[..k - 1], x) + [best[k - 1]];
      } else {
        assert Insert(best, x) == best + [x];
      }
    }
  }

  class Sampler {
    const kbest: nat
    const maxsamples: int
    const epsilon: real
    var values: array<real>
    var samplecount: nat
    /** All samples since `init_sampler`. */
    ghost var samples: seq<real>

    ghost predicate Valid()
      reads this, values
    {
      kbest > 0 && values.Length == kbest && samplecount == |samples|
      && values[..|Best(samples, kbest)|] == Best(samples, kbest)
    }

    constructor (kbest: nat, maxsamples: int, epsilon: real)
      requires kbest > 0
      ensures Valid() && fresh(values) && samples == []
      ensures this.kbest == kbest && this.maxsamples == maxsamples && this.epsilon == epsilon
    {
      this.kbest, this.maxsamples, this.epsilon := kbest, maxsamples, epsilon;
      values := new real[kbest](_ => 0.0);
      samplecount, samples := 0, [];
    }

    /** `init_sampler`. */
    method InitSampler()
      requires Valid()
      modifies this
      ensures Valid() && fresh(values) && samples == []
    {
      values := new real[kbest](_ => 0.0);
      samplecount, samples := 0, [];
    }

    /** The insertion sort of `add_sample`: the value at `start` sinks into the sorted part before it. */
    method InsertionSort(start: nat)
      requires start < values.Length
      modifies values
      ensures values[..start + 1] == Insert(old(values[..start]), old(values[start]))
      ensures start == 0 ==> values[..] == old(values[..])
    {
      ghost var goal := Insert(values[..start], values[start]);
      var pos := start;
      while pos > 0 && values[pos - 1] > values[pos]
        invariant 0 <= pos <= start
        invariant Insert(values[..pos], values[pos]) + values[pos + 1..start + 1] == goal
        invariant start == 0 ==> values[..] == old(values[..])
      {
        Swap(pos, start, goal);
        pos := pos - 1;
      }
      assert values[..start + 1] == values[..pos] + [values[pos]] + values[pos + 1..start + 1];
    }

    method Swap(pos: nat, start: nat, ghost goal: seq<real>)
      requires 0 < pos <= start < values.Length && values[pos - 1] > values[pos]
      requires Insert(values[..pos], values[pos]) + values[pos + 1..start + 1] == goal
      modifies values
      ensures Insert(values[..pos - 1], values[pos - 1]) + values[pos..start + 1] == goal
    {
      ghost var front, last, rest := values[..pos - 1], values[pos - 1], values[pos + 1..start + 1];
      assert values[..pos] == front + [last];
      assert values[..pos][..pos - 1] == front;
      var temp := values[pos - 1];
      values[pos - 1] := values[pos];
      values[pos] := temp;
      assert values[..pos - 1] == front;
      assert values[pos..start + 1] == [last] + rest;
    }

    /** The first part of `add_sample`: `val` replaces a value, or takes a free place, at `pos`. */
    method Enter(val: real) returns (pos: nat)
      requires Valid()
      modifies values
      ensures pos < kbest && values[pos] == (if Enters(samples, kbest, val) then val else old(values[0]))
      ensures Enters(samples, kbest, val) ==> values[..pos] == Front(samples, kbest)
      ensures pos == if Enters(samples, kbest, val) then |Front(samples, kbest)| else 0
      ensures !Enters(samples, kbest, val) ==> values[..] == old(values[..])
    {
      ghost var best := Best(samples, kbest);
      assert values[..|best|] == best;
      pos := 0;
      if samplecount < kbest {
        pos := samplecount;
        values[pos] := val;
      } else if val < values[kbest - 1] {
        assert best[kbest - 1] == values[kbest - 1];
        pos := kbest - 1;
        values[pos] := val;
        assert values[..pos] == best[..pos];
      }
    }

    /** `add_sample`. */
    method AddSample(val: real)
      requires Valid()
      modifies this`samplecount, this`samples, values
      ensures Valid() && samples == old(samples) + [val]
    {
      BestNext(samples, kbest, val);
      var pos := Enter(val);
      samplecount := samplecount + 1;
      InsertionSort(pos);
      samples := samples + [val];
      assert values[..kbest] == values[..];
    }

    /** `has_converged`. */
    method HasConverged() returns (yes: bool)
      requires Valid()
      ensures yes <==> Converged(samples, kbest, epsilon)
    {
      if samplecount < kbest {
        return false;
      }
      assert values[..kbest] == Best(samples, kbest);
      return (1.0 + epsilon) * values[0] >= values[kbest - 1];
    }

    /** Sampling goes on after these samples. */
    ghost predicate GoesOn(taken: seq<real>)
      requires kbest > 0
      reads this
    {
      |taken| < maxsamples && !Converged(taken, kbest, epsilon)
    }

    /** The body of the loop of `fcyc`, with its test. */
    method Measure(cyc: real) returns (more: bool)
      requires Valid()
      modifies this`samplecount, this`samples, values
      ensures Valid() && samples == old(samples) + [cyc] && (more <==> GoesOn(samples))
    {
      AddSample(cyc);
      var done := HasConverged();
      more := !done && samplecount < maxsamples;
    }

    /** The loop of `fcyc`; `n` calls are made. */
    method TakeSamples(times: seq<real>) returns (n: nat)
      requires Valid() && samples == [] && |times| >= 1 && |times| >= maxsamples
      modifies this`samplecount, this`samples, values
      ensures 1 <= n <= |times| && (n > 1 ==> n <= maxsamples)
      ensures Valid() && samples == times[..n]
      ensures !GoesOn(times[..n]) && forall i | 1 <= i < n :: GoesOn(times[..i])
    {
      var more := Measure(times[0]);
      n := 1;
      assert times[..0] + [times[0]] == times[..1];
      while more
        invariant Valid() && 1 <= n <= |times| && samples == times[..n]
        invariant (more <==> GoesOn(samples)) && (n > 1 ==> n <= maxsamples)
        invariant forall i | 1 <= i < n :: GoesOn(times[..i])
        decreases |times| - n
      {
        assert times[..n] + [times[n]] == times[..n + 1];
        more := Measure(times[n]);
        n := n + 1;
      }
    }

    /** `fcyc`, where the call numbered `i` takes `times[i]`; `n` calls are made. */
    method Fcyc(times: seq<real>) returns (result: real, n: nat)
      requires Valid() && |times| >= 1 && |times| >= maxsamples
      modifies this, values
      ensures 1 <= n <= |times| && (n > 1 ==> n <= maxsamples)
      ensures Valid() && samples == times[..n]
      ensures !GoesOn(times[..n]) && forall i | 1 <= i < n :: GoesOn(times[..i])
      ensures result in times[..n] && forall i | 0 <= i < n :: result <= times[i]
    {
      InitSampler();
      n := TakeSamples(times);
      result := values[0];
      assert result == Best(samples, kbest)[0];
      FirstIsMinimum(samples, kbest);
    }
  }
}
