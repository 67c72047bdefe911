/** The whole cache on whole traces: accounting, the reference LRU cache, and inclusion. */
module CacheRuns {
  import opened CacheBits
  import opened CacheRow

  /** `s` set index bits, `b` block bits, `ways` lines per set. */
  datatype Geometry = Geometry(s: nat, b: nat, ways: nat)

  /** `ways` is an `int`, and the set mask fits the `int` it is converted to. */
  ghost predicate Sensible(g: Geometry) {
    1 <= g.ways < Pow2(31) && 1 <= g.s + g.b <= 31
  }

  function BlockOf(g: Geometry, addr: nat): nat {
    Shr(addr, g.b)
  }

  function SetOf(g: Geometry, addr: nat): (i: nat)
    ensures i < Pow2(g.s)
  {
    Low(BlockOf(g, addr), g.s)
  }

  function TagOf(g: Geometry, addr: nat): nat {
    Shr(addr, g.b + g.s)
  }

  /** Two addresses lie in one block exactly when set index and tag agree. */
  lemma SameBlock(g: Geometry, x: nat, y: nat)
    ensures BlockOf(g, x) == BlockOf(g, y) <==> SetOf(g, x) == SetOf(g, y) && TagOf(g, x) == TagOf(g, y)
  {
    ShrTwice(x, g.b, g.s);
    ShrTwice(y, g.b, g.s);
    if SetOf(g, x) == SetOf(g, y) && TagOf(g, x) == TagOf(g, y) {
      SplitUnique(BlockOf(g, x), BlockOf(g, y), g.s);
    }
  }

  // ---- Runs ----

  datatype Cache = Cache(rows: seq<seq<Entry>>, hits: nat, misses: nat, evictions: nat)

  datatype Op = Instr(addr: nat) | Load(addr: nat) | Store(addr: nat) | Modify(addr: nat)

  ghost predicate Shaped(g: Geometry, c: Cache) {
    g.ways > 0 && |c.rows| == Pow2(g.s) && forall i | 0 <= i < |c.rows| :: |c.rows[i]| == g.ways
  }

  function Empty(g: Geometry): Cache {
    Cache(seq(Pow2(g.s), _ => EmptyRow(g.ways)), 0, 0, 0)
  }

  function Step(g: Geometry, c: Cache, addr: nat): (r: Cache)
    requires Shaped(g, c)
    ensures Shaped(g, r)
  {
    var i := SetOf(g, addr);
    var (row, o) := Access(c.rows[i], TagOf(g, addr));
    Cache(c.rows[i := row],
          c.hits + if o == Hit then 1 else 0,
          c.misses + if o == Hit then 0 else 1,
          c.evictions + if o == Evict then 1 else 0)
  }

  function Run(g: Geometry, addrs: seq<nat>): (c: Cache)
    requires g.ways > 0
    ensures Shaped(g, c)
    decreases |addrs|
  {
    if addrs == [] then Empty(g) else Step(g, Run(g, addrs[..|addrs| - 1]), addrs[|addrs| - 1])
  }

  /** The accesses a trace makes: instruction fetches none, a modify two. */
  function Accesses(ops: seq<Op>): seq<nat>
    decreases |ops|
  {
    if ops == [] then []
    else
      var pre, op := Accesses(ops[..|ops| - 1]), ops[|ops| - 1];
      match op
      case Instr(_) => pre
      case Load(a) => pre + [a]
      case Store(a) => pre + [a]
      case Modify(a) => pre + [a, a]
  }

  // ---- Accounting ----

  function Weight(op: Op): nat {
    match op
    case Instr(_) => 0
    case Load(_) => 1
    case Store(_) => 1
    case Modify(_) => 2
  }

  function TotalWeight(ops: seq<Op>): nat
    decreases |ops|
  {
    if ops == [] then 0 else TotalWeight(ops[..|ops| - 1]) + Weight(ops[|ops| - 1])
  }

  function ValidLines(rows: seq<seq<Entry>>): nat {
    if rows == [] then 0 else Valid(rows[0]) + ValidLines(rows[1..])
  }

  lemma {:induction false} ValidLinesUpdate(rows: seq<seq<Entry>>, i: nat, row: seq<Entry>)
    requires i < |rows|
    ensures ValidLines(rows[i := row]) + Valid(rows[i]) == ValidLines(rows) + Valid(row)
  {
    if i == 0 {
      assert rows[i := row][1..] == rows[1..];
    } else {
      ValidLinesUpdate(rows[1..], i - 1, row);
      assert rows[i := row][1..] == rows[1..][i - 1 := row];
    }
  }

  lemma {:induction false} ValidEmpty(g: Geometry, n: nat)
    ensures ValidLines(seq(n, _ => EmptyRow(g.ways))) == 0
  {
    if n > 0 {
      ValidEmpty(g, n - 1);
      assert seq(n, _ => EmptyRow(g.ways))[1..] == seq(n - 1, _ => EmptyRow(g.ways));
      ValidNone(EmptyRow(g.ways));
    }
  }

  lemma {:induction false} ValidNone(row: seq<Entry>)
    requires forall i | 0 <= i < |row| :: !row[i].valid
    ensures Valid(row) == 0
  {
    if row != [] {
      ValidNone(row[1..]);
    }
  }

  /** Lines fill from the left, no set holds a tag twice, and evictions account for the rest. */
  lemma {:induction false} RunAccounting(g: Geometry, addrs: seq<nat>)
    requires g.ways > 0
    ensures var c := Run(g, addrs);
            && c.hits + c.misses == |addrs|
            && c.misses == c.evictions + ValidLines(c.rows)
            && forall i | 0 <= i < |c.rows| :: Proper(c.rows[i])
    decreases |addrs|
  {
    if addrs == [] {
      ValidEmpty(g, Pow2(g.s));
    } else {
      var pre, addr := addrs[..|addrs| - 1], addrs[|addrs| - 1];
      RunAccounting(g, pre);
      var c, i := Run(g, pre), SetOf(g, addr);
      AccessProper(c.rows[i], TagOf(g, addr));
      AccessValid(c.rows[i], TagOf(g, addr));
      ValidLinesUpdate(c.rows, i, Access(c.rows[i], TagOf(g, addr)).0);
    }
  }

  lemma {:induction false} AccessesCount(ops: seq<Op>)
    ensures |Accesses(ops)| == TotalWeight(ops)
    decreases |ops|
  {
    if ops != [] {
      AccessesCount(ops[..|ops| - 1]);
    }
  }

  /** After every trace: hits and misses count the accesses, misses less evictions the valid lines. */
  lemma TraceAccounting(g: Geometry, ops: seq<Op>)
    requires g.ways > 0
    ensures var c := Run(g, Accesses(ops));
            && c.hits + c.misses == TotalWeight(ops)
            && c.misses - c.evictions == ValidLines(c.rows)
            && forall i | 0 <= i < |c.rows| :: Proper(c.rows[i])
  {
    AccessesCount(ops);
    RunAccounting(g, Accesses(ops));
  }

  /** The block of `addr` is in the cache. */
  predicate BlockResident(g: Geometry, c: Cache, addr: nat)
    requires Shaped(g, c)
  {
    Resident(c.rows[SetOf(g, addr)], TagOf(g, addr))
  }

  /** An access hits exactly when its block is resident; doing it again right away hits. */
  lemma HitIffBlockResident(g: Geometry, c: Cache, addr: nat)
    requires Shaped(g, c)
    ensures Step(g, c, addr).hits == c.hits + 1 <==> BlockResident(g, c, addr)
    ensures BlockResident(g, Step(g, c, addr), addr)
    ensures Step(g, Step(g, c, addr), addr).hits == Step(g, c, addr).hits + 1
  {
    HitIffResident(c.rows[SetOf(g, addr)], TagOf(g, addr));
    HitIffResident(Step(g, c, addr).rows[SetOf(g, addr)], TagOf(g, addr));
  }

  // ---- The reference LRU cache ----

  /** Per set, the tags in order of last use. */
  datatype Lru = Lru(lists: seq<seq<nat>>, hits: nat, misses: nat, evictions: nat)

  function LruStep(g: Geometry, c: Lru, addr: nat): (r: Lru)
    requires g.ways > 0 && |c.lists| == Pow2(g.s)
    ensures |r.lists| == |c.lists|
  {
    var i := SetOf(g, addr);
    var (list, o) := LruAccess(c.lists[i], g.ways, TagOf(g, addr));
    Lru(c.lists[i := list],
        c.hits + if o == Hit then 1 else 0,
        c.misses + if o == Hit then 0 else 1,
        c.evictions + if o == Evict then 1 else 0)
  }

  function LruRun(g: Geometry, addrs: seq<nat>): (c: Lru)
    requires g.ways > 0
    ensures |c.lists| == Pow2(g.s)
    decreases |addrs|
  {
    if addrs == [] then Lru(seq(Pow2(g.s), _ => []), 0, 0, 0)
    else LruStep(g, LruRun(g, addrs[..|addrs| - 1]), addrs[|addrs| - 1])
  }

  ghost predicate Matches(g: Geometry, c: Cache, l: Lru)
    requires Shaped(g, c) && |l.lists| == Pow2(g.s)
  {
    && c.hits == l.hits && c.misses == l.misses && c.evictions == l.evictions
    && forall i | 0 <= i < |c.rows| :: if g.ways == 1 then Follows1(c.rows[i], l.lists[i]) else Follows2(c.rows[i], l.lists[i])
  }

  /** For one and two ways: counts and contents are those of the reference LRU cache, on every trace. */
  lemma {:induction false} ExactlyLru(g: Geometry, addrs: seq<nat>)
    requires 1 <= g.ways <= 2
    ensures Matches(g, Run(g, addrs), LruRun(g, addrs))
    decreases |addrs|
  {
    if addrs != [] {
      var pre, addr := addrs[..|addrs| - 1], addrs[|addrs| - 1];
      ExactlyLru(g, pre);
      var i := SetOf(g, addr);
      if g.ways == 1 {
        Step1(Run(g, pre).rows[i], LruRun(g, pre).lists[i], TagOf(g, addr));
      } else {
        Step2(Run(g, pre).rows[i], LruRun(g, pre).lists[i], TagOf(g, addr));
      }
    }
  }

  /** The contents under `Matches`: a tag is resident exactly when it is in the recency list. */
  lemma ResidentIffListed(g: Geometry, addrs: seq<nat>, addr: nat)
    requires 1 <= g.ways <= 2
    ensures BlockResident(g, Run(g, addrs), addr) <==> TagOf(g, addr) in LruRun(g, addrs).lists[SetOf(g, addr)]
  {
    ExactlyLru(g, addrs);
    var row, list := Run(g, addrs).rows[SetOf(g, addr)], LruRun(g, addrs).lists[SetOf(g, addr)];
    if g.ways == 1 {
      ResidentIn1(row, list, TagOf(g, addr));
    } else {
      ResidentIn2(row, list, TagOf(g, addr));
    }
  }

  // ---- Inclusion ----

  /** Where an address goes does not depend on the number of ways. */
  lemma SameIndex(g: Geometry, ways: nat, addr: nat)
    ensures SetOf(g.(ways := ways), addr) == SetOf(g, addr) && TagOf(g.(ways := ways), addr) == TagOf(g, addr)
  {
  }

  ghost predicate ProtectsAll(rows: seq<seq<Entry>>, lists: seq<seq<nat>>) {
    |rows| == |lists| && forall i | 0 <= i < |rows| :: Protects(rows[i], lists[i])
  }

  /** Every cache with two ways or more holds the two tags of each set that were used last. */
  lemma {:induction false} RunProtects(g: Geometry, addrs: seq<nat>)
    requires g.ways >= 2
    ensures ProtectsAll(Run(g, addrs).rows, LruRun(g.(ways := 2), addrs).lists)
    decreases |addrs|
  {
    if addrs != [] {
      var pre, addr := addrs[..|addrs| - 1], addrs[|addrs| - 1];
      RunProtects(g, pre);
      var c, l, i := Run(g, pre), LruRun(g.(ways := 2), pre), SetOf(g, addr);
      SameIndex(g, 2, addr);
      ProtectsStep(c.rows[i], l.lists[i], TagOf(g, addr));
    }
  }

  ghost predicate Heads(l1: seq<nat>, l2: seq<nat>) {
    |l2| <= 2 && l1 == (if l2 == [] then [] else [l2[0]]) && (|l2| == 2 ==> l2[0] != l2[1])
  }

  ghost predicate AllHeads(lists1: seq<seq<nat>>, lists2: seq<seq<nat>>) {
    |lists1| == |lists2| && forall i | 0 <= i < |lists1| :: Heads(lists1[i], lists2[i])
  }

  /** The recency list of a direct-mapped set is the head of the list of a two-way set. */
  lemma {:induction false} OneIsHeadOfTwo(g: Geometry, addrs: seq<nat>)
    ensures AllHeads(LruRun(g.(ways := 1), addrs).lists, LruRun(g.(ways := 2), addrs).lists)
    decreases |addrs|
  {
    if addrs != [] {
      var pre, addr := addrs[..|addrs| - 1], addrs[|addrs| - 1];
      OneIsHeadOfTwo(g, pre);
      var l1, l2, i := LruRun(g.(ways := 1), pre), LruRun(g.(ways := 2), pre), SetOf(g, addr);
      SameIndex(g, 1, addr);
      SameIndex(g, 2, addr);
      HeadStep(l1.lists[i], l2.lists[i], TagOf(g, addr));
    }
  }

  lemma HeadStep(l1: seq<nat>, l2: seq<nat>, tag: nat)
    requires Heads(l1, l2)
    ensures Heads(LruAccess(l1, 1, tag).0, LruAccess(l2, 2, tag).0)
  {
    SecondOf(l2, tag);
    if l1 != [] {
      WithoutHead(l1, tag);
    }
  }

  lemma ListedInclusion(g: Geometry, addrs: seq<nat>, addr: nat)
    requires g.ways >= 2
    ensures var l1, l2 := LruRun(g.(ways := 1), addrs).lists[SetOf(g, addr)], LruRun(g.(ways := 2), addrs).lists[SetOf(g, addr)];
            && (TagOf(g, addr) in l1 ==> TagOf(g, addr) in l2)
            && (TagOf(g, addr) in l2 ==> BlockResident(g, Run(g, addrs), addr))
  {
    OneIsHeadOfTwo(g, addrs);
    RunProtects(g, addrs);
    var i := SetOf(g, addr);
    assert Heads(LruRun(g.(ways := 1), addrs).lists[i], LruRun(g.(ways := 2), addrs).lists[i]);
    assert Protects(Run(g, addrs).rows[i], LruRun(g.(ways := 2), addrs).lists[i]);
  }

  /** What the direct-mapped cache holds the two-way cache holds, and what that holds any larger one holds. */
  lemma Inclusion(g: Geometry, addrs: seq<nat>, addr: nat)
    requires g.ways >= 2
    ensures BlockResident(g.(ways := 1), Run(g.(ways := 1), addrs), addr) ==> BlockResident(g.(ways := 2), Run(g.(ways := 2), addrs), addr)
    ensures BlockResident(g.(ways := 2), Run(g.(ways := 2), addrs), addr) ==> BlockResident(g, Run(g, addrs), addr)
  {
    SameIndex(g, 1, addr);
    SameIndex(g, 2, addr);
    ResidentIffListed(g.(ways := 1), addrs, addr);
    ResidentIffListed(g.(ways := 2), addrs, addr);
    ListedInclusion(g, addrs, addr);
  }

  /** More ways never miss more: from one way to two, and from two to any number. */
  lemma {:induction false} MissesShrink(g: Geometry, addrs: seq<nat>)
    requires g.ways >= 2
    ensures Run(g, addrs).misses <= Run(g.(ways := 2), addrs).misses <= Run(g.(ways := 1), addrs).misses
    decreases |addrs|
  {
    if addrs != [] {
      var pre, addr := addrs[..|addrs| - 1], addrs[|addrs| - 1];
      MissesShrink(g, pre);
      Inclusion(g, pre, addr);
      HitIffBlockResident(g, Run(g, pre), addr);
      HitIffBlockResident(g.(ways := 2), Run(g.(ways := 2), pre), addr);
      HitIffBlockResident(g.(ways := 1), Run(g.(ways := 1), pre), addr);
    }
  }
}
