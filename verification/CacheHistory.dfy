/**
 * The state of a set, told by its history alone: which line each access touched, and which hits it passed.
 */
module CacheHistory {
  import opened CacheRow
  import opened CacheLru
  import opened CacheBits
  import opened CacheRuns

  /** Access `n` finds its tag in the set. */
  ghost predicate HitAt(ways: nat, tags: seq<nat>, n: nat)
    requires ways > 0 && n < |tags|
  {
    Resident(RunRow(ways, tags[..n]).0, tags[n])
  }

  /** The line that holds the tag of access `n` right after it: it was hit there, or put there. */
  function TouchedAt(ways: nat, tags: seq<nat>, n: nat): nat
    requires ways > 0 && n < |tags|
  {
    Find(RunRow(ways, tags[..n + 1]).0, tags[n], 0)
  }

  /** Access `n` was the last that hit or filled line `i`. */
  ghost predicate LastTouched(ways: nat, tags: seq<nat>, i: nat, n: nat)
    requires ways > 0
  {
    n < |tags| && TouchedAt(ways, tags, n) == i && forall m | n < m < |tags| :: TouchedAt(ways, tags, m) != i
  }

  ghost predicate Touched(ways: nat, tags: seq<nat>, i: nat)
    requires ways > 0
  {
    exists n: nat :: LastTouched(ways, tags, i, n)
  }

  /** Access `m` does not hit a line in front of line `i`. */
  ghost predicate Reaches(ways: nat, tags: seq<nat>, m: nat, i: nat)
    requires ways > 0 && m < |tags|
  {
    !(HitAt(ways, tags, m) && TouchedAt(ways, tags, m) < i)
  }

  /** The accesses after `n` that do not hit a line in front of line `i`. */
  ghost function Since(ways: nat, tags: seq<nat>, n: nat, i: nat): set<nat>
    requires ways > 0
  {
    set m | n < m < |tags| && Reaches(ways, tags, m, i)
  }

  // ---- One more access ----

  lemma Earlier(ways: nat, tags: seq<nat>, tag: nat, n: nat)
    requires ways > 0 && n < |tags|
    ensures TouchedAt(ways, tags + [tag], n) == TouchedAt(ways, tags, n)
    ensures HitAt(ways, tags + [tag], n) <==> HitAt(ways, tags, n)
  {
    assert (tags + [tag])[..n + 1] == tags[..n + 1] && (tags + [tag])[..n] == tags[..n];
  }

  lemma Latest(ways: nat, tags: seq<nat>, tag: nat)
    requires ways > 0
    ensures var row := RunRow(ways, tags).0;
            && RunRow(ways, tags + [tag]).0 == Access(row, tag).0
            && TouchedAt(ways, tags + [tag], |tags|) == Find(Access(row, tag).0, tag, 0)
            && (HitAt(ways, tags + [tag], |tags|) <==> Resident(row, tag))
  {
    RowStep(ways, tags, tag);
    assert (tags + [tag])[..|tags| + 1] == tags + [tag] && (tags + [tag])[..|tags|] == tags;
  }

  lemma LastTouchedStep(ways: nat, tags: seq<nat>, tag: nat, i: nat, n: nat)
    requires ways > 0 && LastTouched(ways, tags + [tag], i, n) && n < |tags|
    ensures LastTouched(ways, tags, i, n) && TouchedAt(ways, tags + [tag], |tags|) != i
  {
    Earlier(ways, tags, tag, n);
    forall m | n < m < |tags|
      ensures TouchedAt(ways, tags, m) != i
    {
      Earlier(ways, tags, tag, m);
    }
  }

  lemma SinceStep(ways: nat, tags: seq<nat>, tag: nat, n: nat, i: nat)
    requires ways > 0 && n < |tags|
    ensures |Since(ways, tags + [tag], n, i)| == |Since(ways, tags, n, i)| + if Reaches(ways, tags + [tag], |tags|, i) then 1 else 0
  {
    var old_, new_ := Since(ways, tags, n, i), Since(ways, tags + [tag], n, i);
    forall m | n < m < |tags|
      ensures m in old_ <==> m in new_
    {
      Earlier(ways, tags, tag, m);
    }
    assert new_ == old_ + if Reaches(ways, tags + [tag], |tags|, i) then {|tags|} else {};
  }

  /** What an access does to the line it touches, and to any other. */
  lemma AccessLine(row: seq<Entry>, tag: nat, i: nat)
    requires |row| > 0 && Proper(row) && i < |row|
    ensures var (r, o) := Access(row, tag); var v := Find(r, tag, 0);
            && v < |r| == |row|
            && (i == v ==> r[i] == Entry(true, 0, tag))
            && (i != v ==> r[i].valid == row[i].valid && r[i].tag == row[i].tag
                           && r[i].age == row[i].age + if row[i].valid && !(Resident(row, tag) && v < i) then 1 else 0)
  {
    HitIffResident(row, tag);
    var k := Find(row, tag, 0);
    var r := Access(row, tag).0;
    if k < |row| {
      FindsAt(r, tag, k);
    } else {
      var f := FirstInvalid(row, 0);
      FindsAt(r, tag, if f < |row| then f else Oldest(Aged(row, |row|), |row|));
    }
  }

  lemma FindsAt(r: seq<Entry>, tag: nat, k: nat)
    requires k < |r| && Holds(r[k], tag) && forall j | 0 <= j < |r| && j != k :: !Holds(r[j], tag)
    ensures Find(r, tag, 0) == k
  {
  }

  lemma {:induction false} RunProper(ways: nat, tags: seq<nat>)
    requires ways > 0
    ensures Proper(RunRow(ways, tags).0)
    decreases |tags|
  {
    if tags != [] {
      RunProper(ways, tags[..|tags| - 1]);
      AccessProper(RunRow(ways, tags[..|tags| - 1]).0, tags[|tags| - 1]);
    }
  }

  // ---- The state by history ----

  /**
   * A line that was touched is valid, holds the tag of its last access, and is as old as the number of
   * accesses since then that did not hit a line in front of it.
   */
  lemma {:induction false} LineByHistory(ways: nat, tags: seq<nat>, i: nat, n: nat)
    requires ways > 0 && i < ways && LastTouched(ways, tags, i, n)
    ensures RunRow(ways, tags).0[i] == Entry(true, |Since(ways, tags, n, i)|, tags[n])
    decreases |tags|
  {
    var pre, tag := tags[..|tags| - 1], tags[|tags| - 1];
    assert tags == pre + [tag];
    LineStep(ways, pre, tag, i);
    if n < |pre| {
      LastTouchedStep(ways, pre, tag, i, n);
      LineByHistory(ways, pre, i, n);
      SinceStep(ways, pre, tag, n, i);
    } else {
      assert Since(ways, tags, n, i) == {};
    }
  }

  /** One more access resets the line it touches, and ages any other in use that it reaches. */
  lemma LineStep(ways: nat, tags: seq<nat>, tag: nat, i: nat)
    requires ways > 0 && i < ways
    ensures var e, all := RunRow(ways, tags).0[i], tags + [tag];
            RunRow(ways, all).0[i] == if TouchedAt(ways, all, |tags|) == i then Entry(true, 0, tag)
                                      else if e.valid && Reaches(ways, all, |tags|, i) then Entry(true, e.age + 1, e.tag) else e
  {
    Latest(ways, tags, tag);
    RunProper(ways, tags);
    AccessLine(RunRow(ways, tags).0, tag, i);
  }

  lemma {:induction false} UntouchedInvalid(ways: nat, tags: seq<nat>, i: nat)
    requires ways > 0 && i < ways && forall n | 0 <= n < |tags| :: TouchedAt(ways, tags, n) != i
    ensures !RunRow(ways, tags).0[i].valid
    decreases |tags|
  {
    if tags != [] {
      var pre, tag := tags[..|tags| - 1], tags[|tags| - 1];
      assert tags == pre + [tag];
      Latest(ways, pre, tag);
      RunProper(ways, pre);
      AccessLine(RunRow(ways, pre).0, tag, i);
      forall n | 0 <= n < |pre|
        ensures TouchedAt(ways, pre, n) != i
      {
        Earlier(ways, pre, tag, n);
      }
      UntouchedInvalid(ways, pre, i);
    }
  }

  /** The lines in use are those touched at least once. */
  lemma ValidIffTouched(ways: nat, tags: seq<nat>, i: nat)
    requires ways > 0 && i < ways
    ensures RunRow(ways, tags).0[i].valid <==> Touched(ways, tags, i)
  {
    if exists n :: 0 <= n < |tags| && TouchedAt(ways, tags, n) == i {
      var n := LastOf(ways, tags, i, |tags|);
      LineByHistory(ways, tags, i, n);
    } else {
      UntouchedInvalid(ways, tags, i);
    }
  }

  lemma {:induction false} LastOf(ways: nat, tags: seq<nat>, i: nat, k: nat) returns (n: nat)
    requires ways > 0 && k <= |tags| && exists n :: 0 <= n < k && TouchedAt(ways, tags, n) == i
    requires forall m | k <= m < |tags| :: TouchedAt(ways, tags, m) != i
    ensures LastTouched(ways, tags, i, n)
    decreases k
  {
    n := k - 1;
    if TouchedAt(ways, tags, k - 1) != i {
      n := LastOf(ways, tags, i, k - 1);
    }
  }

  /**
   * A miss fills the first line never touched; when there is none, the tag that leaves is the one in the
   * last of the lines that the most accesses have reached since they were touched.
   */
  lemma MissByHistory(ways: nat, tags: seq<nat>, tag: nat, v: nat)
    requires ways > 0 && !Resident(RunRow(ways, tags).0, tag) && v == TouchedAt(ways, tags + [tag], |tags|)
    ensures v < ways
    ensures !Touched(ways, tags, v) ==> forall i | 0 <= i < v :: Touched(ways, tags, i)
    ensures Touched(ways, tags, v) ==> forall i | 0 <= i < ways :: Touched(ways, tags, i)
    ensures forall i, n, m | 0 <= i < ways && LastTouched(ways, tags, i, n) && LastTouched(ways, tags, v, m) ::
              if i <= v then |Since(ways, tags, n, i)| <= |Since(ways, tags, m, v)| else |Since(ways, tags, n, i)| < |Since(ways, tags, m, v)|
  {
    var row := RunRow(ways, tags).0;
    Latest(ways, tags, tag);
    VictimIs(row, tag, v);
    forall i | 0 <= i < ways
      ensures row[i].valid <==> Touched(ways, tags, i)
    {
      ValidIffTouched(ways, tags, i);
    }
    forall i, n, m | 0 <= i < ways && LastTouched(ways, tags, i, n) && LastTouched(ways, tags, v, m)
      ensures if i <= v then |Since(ways, tags, n, i)| <= |Since(ways, tags, m, v)| else |Since(ways, tags, n, i)| < |Since(ways, tags, m, v)|
    {
      LineByHistory(ways, tags, i, n);
      LineByHistory(ways, tags, v, m);
    }
  }

  /** Where a miss puts its tag, by validity and age. */
  lemma VictimIs(row: seq<Entry>, tag: nat, v: nat)
    requires |row| > 0 && !Resident(row, tag) && v == Find(Access(row, tag).0, tag, 0)
    ensures v < |row|
    ensures !row[v].valid ==> forall i | 0 <= i < v :: row[i].valid
    ensures row[v].valid ==> forall i | 0 <= i < |row| :: row[i].valid && if i <= v then row[i].age <= row[v].age else row[i].age < row[v].age
  {
    var aged, f := Aged(row, |row|), FirstInvalid(row, 0);
    var k := if f < |row| then f else Oldest(aged, |row|);
    FindsAt(Access(row, tag).0, tag, k);
    assert forall i | 0 <= i < |row| :: aged[i] == Older(row[i]);
  }

  // ---- Every set of the cache ----

  /** The tags of the accesses that fall into set `i`, in order. */
  function TagsIn(g: Geometry, addrs: seq<nat>, i: nat): seq<nat> {
    if addrs == [] then []
    else
      var pre, addr := TagsIn(g, addrs[..|addrs| - 1], i), addrs[|addrs| - 1];
      if SetOf(g, addr) == i then pre + [TagOf(g, addr)] else pre
  }

  /** Each set of the cache is where the accesses to it alone have left it. */
  lemma {:induction false} SetsApart(g: Geometry, addrs: seq<nat>, i: nat)
    requires g.ways > 0 && i < Pow2(g.s)
    ensures Run(g, addrs).rows[i] == RunRow(g.ways, TagsIn(g, addrs, i)).0
    decreases |addrs|
  {
    if addrs != [] {
      var pre, addr := addrs[..|addrs| - 1], addrs[|addrs| - 1];
      SetsApart(g, pre, i);
      RowStep(g.ways, TagsIn(g, pre, i), TagOf(g, addr));
    }
  }

  // ---- An example ----

  function Row3(a0: nat, t0: nat, a1: nat, t1: nat, a2: nat, t2: nat): seq<Entry> {
    [Entry(true, a0, t0), Entry(true, a1, t1), Entry(true, a2, t2)]
  }

  /** A miss on a full set of three lines, of which line `k` is the oldest. */
  lemma Evicts(row: seq<Entry>, tag: nat, k: nat)
    requires |row| == 3 && k < 3 && forall i | 0 <= i < 3 :: row[i].valid && row[i].tag != tag && (i != k ==> row[i].age < row[k].age)
    ensures Access(row, tag) == ([Older(row[0]), Older(row[1]), Older(row[2])][k := Entry(true, 0, tag)], Evict)
  {
    var aged := Aged(row, 3);
    assert forall i | 0 <= i < 3 :: aged[i] == Older(row[i]);
    assert aged == [aged[0], aged[1], aged[2]];
    assert Oldest(aged, 3) == k;
  }

  lemma FirstThree()
    ensures RunRow(3, [0, 1, 2]) == (Row3(2, 0, 1, 1, 0, 2), 3)
  {
    FillPhase(3, 3);
    assert Ramp(3) == [0, 1, 2];
    assert FilledRow(3, 3) == Row3(2, 0, 1, 1, 0, 2);
  }

  lemma OneMoreMiss(tags: seq<nat>, row: seq<Entry>, misses: nat, tag: nat, k: nat, next: seq<Entry>)
    requires RunRow(3, tags) == (row, misses)
    requires |row| == 3 && k < 3 && forall i | 0 <= i < 3 :: row[i].valid && row[i].tag != tag && (i != k ==> row[i].age < row[k].age)
    requires |next| == 3 && forall i | 0 <= i < 3 :: next[i] == if i == k then Entry(true, 0, tag) else Older(row[i])
    ensures RunRow(3, tags + [tag]) == (next, misses + 1)
  {
    Evicts(row, tag, k);
    RowStep(3, tags, tag);
    assert [Older(row[0]), Older(row[1]), Older(row[2])][k := Entry(true, 0, tag)] == next;
  }

  lemma FourMisses()
    ensures RunRow(3, [0, 1, 2] + [3]) == (Row3(0, 3, 2, 1, 1, 2), 4)
  {
    FirstThree();
    OneMoreMiss([0, 1, 2], Row3(2, 0, 1, 1, 0, 2), 3, 3, 0, Row3(0, 3, 2, 1, 1, 2));
  }

  lemma FiveMisses()
    ensures RunRow(3, [0, 1, 2] + [3] + [4]) == (Row3(1, 3, 0, 4, 2, 2), 5)
  {
    FourMisses();
    OneMoreMiss([0, 1, 2] + [3], Row3(0, 3, 2, 1, 1, 2), 4, 4, 1, Row3(1, 3, 0, 4, 2, 2));
  }

  /** In a set of three lines the tags 0, 1, 2, 3, 4, 1 miss every time: 3 takes the line of 0, and 4 that of 1. */
  lemma SixMisses()
    ensures RunRow(3, [0, 1, 2] + [3] + [4] + [1]) == (Row3(2, 3, 1, 4, 0, 1), 6)
  {
    FiveMisses();
    OneMoreMiss([0, 1, 2] + [3] + [4], Row3(1, 3, 0, 4, 2, 2), 5, 1, 2, Row3(2, 3, 1, 4, 0, 1));
  }
}
