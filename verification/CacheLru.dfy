/** When the age counters of `check_cache` are exactly LRU: for one and two ways, and for no more. */
module CacheLru {
  import opened CacheRow

  /** The set after a sequence of accesses, and the number of misses. */
  function RunRow(ways: nat, tags: seq<nat>): (r: (seq<Entry>, nat))
    requires ways > 0
    ensures |r.0| == ways
    decreases |tags|
  {
    if tags == [] then (EmptyRow(ways), 0)
    else
      var (row, misses) := RunRow(ways, tags[..|tags| - 1]);
      var (next, o) := Access(row, tags[|tags| - 1]);
      (next, if o == Hit then misses else misses + 1)
  }

  /** The same accesses under the LRU policy. */
  function RunLru(ways: nat, tags: seq<nat>): (seq<nat>, nat)
    requires ways > 0
    decreases |tags|
  {
    if tags == [] then ([], 0)
    else
      var (list, misses) := RunLru(ways, tags[..|tags| - 1]);
      var (next, o) := LruAccess(list, ways, tags[|tags| - 1]);
      (next, if o == Hit then misses else misses + 1)
  }

  lemma {:induction false} ExactUpToTwo(ways: nat, tags: seq<nat>)
    requires 1 <= ways <= 2
    ensures RunRow(ways, tags).1 == RunLru(ways, tags).1
    ensures if ways == 1 then Follows1(RunRow(ways, tags).0, RunLru(ways, tags).0) else Follows2(RunRow(ways, tags).0, RunLru(ways, tags).0)
    decreases |tags|
  {
    if tags != [] {
      var pre, tag := tags[..|tags| - 1], tags[|tags| - 1];
      ExactUpToTwo(ways, pre);
      if ways == 1 {
        Step1(RunRow(ways, pre).0, RunLru(ways, pre).0, tag);
      } else {
        Step2(RunRow(ways, pre).0, RunLru(ways, pre).0, tag);
      }
    }
  }

  // ---- Three ways or more: a trace on which the two policies differ ----

  /** Tags 0 up to `n - 1`, once each. */
  function Ramp(n: nat): seq<nat> {
    seq(n, i => i)
  }

  function Times(n: nat, tag: nat): seq<nat> {
    seq(n, _ => tag)
  }

  lemma RowStep(ways: nat, tags: seq<nat>, tag: nat)
    requires ways > 0
    ensures var (row, misses) := RunRow(ways, tags); var (next, o) := Access(row, tag);
            RunRow(ways, tags + [tag]) == (next, if o == Hit then misses else misses + 1)
  {
    assert (tags + [tag])[..|tags|] == tags;
  }

  lemma LruStep(ways: nat, tags: seq<nat>, tag: nat)
    requires ways > 0
    ensures var (list, misses) := RunLru(ways, tags); var (next, o) := LruAccess(list, ways, tag);
            RunLru(ways, tags + [tag]) == (next, if o == Hit then misses else misses + 1)
  {
    assert (tags + [tag])[..|tags|] == tags;
  }

  /** The set after its first `n` lines were filled in order. */
  function FilledRow(ways: nat, n: nat): seq<Entry>
    requires n <= ways
  {
    seq(ways, i requires 0 <= i < ways => if i < n then Entry(true, n - 1 - i, i) else Entry(false, 0, 0))
  }

  /** The tags from `hi - 1` down to `lo`. */
  function Down(hi: nat, lo: nat): seq<nat>
    requires lo <= hi
  {
    seq(hi - lo, i requires 0 <= i < hi - lo => hi - 1 - i)
  }

  lemma {:induction false} FillPhase(ways: nat, n: nat)
    requires ways > 0 && n <= ways
    ensures RunRow(ways, Ramp(n)) == (FilledRow(ways, n), n)
    ensures RunLru(ways, Ramp(n)) == (Down(n, 0), n)
  {
    if n == 0 {
      assert EmptyRow(ways) == FilledRow(ways, 0);
      assert Ramp(0) == [] && Down(0, 0) == [];
    } else {
      FillPhase(ways, n - 1);
      assert Ramp(n) == Ramp(n - 1) + [n - 1];
      RowStep(ways, Ramp(n - 1), n - 1);
      LruStep(ways, Ramp(n - 1), n - 1);
      FillStep(ways, n - 1);
      LruFill(ways, n - 1);
    }
  }

  lemma LruFill(ways: nat, n: nat)
    requires n < ways
    ensures LruAccess(Down(n, 0), ways, n) == (Down(n + 1, 0), Fill)
  {
    assert n !in Down(n, 0);
    assert [n] + Down(n, 0) == Down(n + 1, 0);
  }

  lemma FillStep(ways: nat, n: nat)
    requires n < ways
    ensures Access(FilledRow(ways, n), n) == (FilledRow(ways, n + 1), Fill)
  {
    var row := FilledRow(ways, n);
    assert !row[n].valid;
    assert Find(row, n, 0) == ways && FirstInvalid(row, 0) == n;
    assert Access(row, n).0 == FilledRow(ways, n + 1);
  }

  /** The full set after line 0 was hit and then line 1 was hit `k` times. */
  function UnevenRow(ways: nat, k: nat): seq<Entry>
    requires ways >= 3
  {
    seq(ways, i requires 0 <= i < ways => if i == 0 then Entry(true, k, 0) else if i == 1 && k > 0 then Entry(true, 0, 1) else Entry(true, ways - 1 - i, i))
  }

  lemma {:induction false} UnevenPhase(ways: nat, k: nat)
    requires ways >= 3
    ensures RunRow(ways, Ramp(ways) + [0] + Times(k, 1)) == (UnevenRow(ways, k), ways)
    decreases k
  {
    if k == 0 {
      FillPhase(ways, ways);
      RowStep(ways, Ramp(ways), 0);
      UnevenStart(ways);
      assert Ramp(ways) + [0] + Times(0, 1) == Ramp(ways) + [0];
    } else {
      UnevenPhase(ways, k - 1);
      assert Ramp(ways) + [0] + Times(k, 1) == Ramp(ways) + [0] + Times(k - 1, 1) + [1];
      RowStep(ways, Ramp(ways) + [0] + Times(k - 1, 1), 1);
      UnevenNext(ways, k);
    }
  }

  lemma UnevenStart(ways: nat)
    requires ways >= 3
    ensures Access(FilledRow(ways, ways), 0) == (UnevenRow(ways, 0), Hit)
  {
    assert Find(FilledRow(ways, ways), 0, 0) == 0;
    assert Access(FilledRow(ways, ways), 0).0 == UnevenRow(ways, 0);
  }

  lemma UnevenNext(ways: nat, k: nat)
    requires ways >= 3 && k > 0
    ensures Access(UnevenRow(ways, k - 1), 1) == (UnevenRow(ways, k), Hit)
  {
    assert Find(UnevenRow(ways, k - 1), 1, 0) == 1;
    assert Access(UnevenRow(ways, k - 1), 1).0 == UnevenRow(ways, k);
  }

  lemma {:induction false} WithoutAbsent(list: seq<nat>, tag: nat)
    requires tag !in list
    ensures Without(list, tag) == list && Without(list + [tag], tag) == list
  {
    if list != [] {
      WithoutAbsent(list[1..], tag);
      assert (list + [tag])[1..] == list[1..] + [tag];
    } else {
      assert [tag][1..] == [] && list + [tag] == [tag];
    }
  }

  /** The recency list after the hit on tag 0 and `k` hits on tag 1. */
  function UnevenList(ways: nat, k: nat): seq<nat>
    requires ways >= 3
  {
    if k == 0 then [0] + Down(ways, 1) else [1, 0] + Down(ways, 2)
  }

  lemma {:induction false} LruPhase(ways: nat, k: nat)
    requires ways >= 3
    ensures RunLru(ways, Ramp(ways) + [0] + Times(k, 1)) == (UnevenList(ways, k), ways)
    decreases k
  {
    if k == 0 {
      FillPhase(ways, ways);
      LruStep(ways, Ramp(ways), 0);
      assert Down(ways, 0) == Down(ways, 1) + [0] && Down(ways, 0)[ways - 1] == 0;
      WithoutAbsent(Down(ways, 1), 0);
      assert Ramp(ways) + [0] + Times(0, 1) == Ramp(ways) + [0];
    } else {
      LruPhase(ways, k - 1);
      assert Ramp(ways) + [0] + Times(k, 1) == Ramp(ways) + [0] + Times(k - 1, 1) + [1];
      LruStep(ways, Ramp(ways) + [0] + Times(k - 1, 1), 1);
      LruHitOne(ways, k - 1);
    }
  }

  lemma LruHitOne(ways: nat, k: nat)
    requires ways >= 3
    ensures LruAccess(UnevenList(ways, k), ways, 1) == (UnevenList(ways, 1), Hit)
  {
    var list := UnevenList(ways, k);
    if k == 0 {
      assert list == [0] + Down(ways, 2) + [1] && list[ways - 1] == 1;
      WithoutAbsent([0] + Down(ways, 2), 1);
      assert [1] + ([0] + Down(ways, 2)) == [1, 0] + Down(ways, 2);
    } else {
      assert list[0] == 1 && list[1..] == [0] + Down(ways, 2);
      WithoutAbsent(list[1..], 1);
      WithoutHead(list, 1);
      assert Without(list, 1) == list[1..] && 1 in list;
      assert [1] + list[1..] == list;
    }
  }

  /** Filling the set, one hit on line 0, many on line 1, one new tag, and tag 0 again. */
  function Witness(ways: nat): seq<nat> {
    Ramp(ways) + [0] + Times(ways, 1) + [ways] + [0]
  }

  /** On the witness trace `check_cache` misses once more than LRU. */
  lemma WitnessDiffers(ways: nat)
    requires ways >= 3
    ensures RunRow(ways, Witness(ways)).1 == RunLru(ways, Witness(ways)).1 + 1
  {
    var pre := Ramp(ways) + [0] + Times(ways, 1);
    UnevenPhase(ways, ways);
    LruPhase(ways, ways);
    RowStep(ways, pre, ways);
    LruStep(ways, pre, ways);
    RowStep(ways, pre + [ways], 0);
    LruStep(ways, pre + [ways], 0);
    VictimIsZero(ways);
    assert LruAccess(UnevenList(ways, ways), ways, ways).0[2] == 0;
  }

  lemma VictimIsZero(ways: nat)
    requires ways >= 3
    ensures var (row, o) := Access(UnevenRow(ways, ways), ways); o != Hit && Access(row, 0).1 != Hit
  {
    var row := UnevenRow(ways, ways);
    var aged := Aged(row, ways);
    assert aged[0].age == ways + 1;
    assert forall i | 0 < i < ways :: aged[i].age <= ways;
    assert Oldest(aged, ways) == 0;
  }

  /** The miss counts agree with LRU on every trace exactly when there are at most two ways. */
  lemma ExactlyLruIff(ways: nat)
    requires ways > 0
    ensures (forall tags :: RunRow(ways, tags).1 == RunLru(ways, tags).1) <==> ways <= 2
  {
    if ways <= 2 {
      forall tags
        ensures RunRow(ways, tags).1 == RunLru(ways, tags).1
      {
        ExactUpToTwo(ways, tags);
      }
    } else {
      WitnessDiffers(ways);
    }
  }
}
