/** The live payloads of a first-fit heap, and the ranges the driver records for them. */
module Payloads {
  import opened Words
  import opened Requests
  import opened MemLib
  import opened Blocks
  import opened BoundaryTags
  import opened FirstFitSpec
  import R = FirstFitRuns
  import FirstFit

  datatype Range = Range(lo: nat, hi: nat)

  /** The overlap test of `add_range`. */
  predicate Touches(r: Range, lo: nat, hi: nat) {
    (r.lo <= lo <= r.hi) || (r.lo <= hi <= r.hi)
  }

  predicate Covers(r: Range, a: nat) {
    r.lo <= a <= r.hi
  }

  /** The test sees a shared byte exactly when the new range does not reach beyond the old one on both sides. */
  lemma OverlapTestExact(r: Range, lo: nat, hi: nat)
    requires r.lo <= r.hi && lo <= hi
    ensures Touches(r, lo, hi) <==> (exists a :: Covers(r, a) && Covers(Range(lo, hi), a)) && !(lo < r.lo && r.hi < hi)
  {
    assert Touches(r, lo, hi) ==> Covers(r, lo) || Covers(r, hi);
    assert Covers(Range(lo, hi), lo) && Covers(Range(lo, hi), hi);
  }

  /** So it misses an overlap where the new range surrounds the old one. */
  lemma OverlapMissed()
    ensures var r := Range(8, 15); !Touches(r, 0, 23) && Covers(r, 8) && Covers(Range(0, 23), 8)
  {
  }

  function Without(ranges: seq<Range>, lo: nat): seq<Range> {
    if ranges == [] then []
    else if ranges[0].lo == lo then ranges[1..]
    else [ranges[0]] + Without(ranges[1..], lo)
  }

  ghost predicate Recorded(ranges: seq<Range>, p: nat) {
    exists r :: r in ranges && r.lo == p
  }

  /** Each range is a live payload, and each live payload has one range. */
  ghost predicate RangesLive(ranges: seq<Range>, live: map<nat, nat>) {
    && (forall r | r in ranges :: r.lo in live && live[r.lo] > 0 && r.hi == r.lo + live[r.lo] - 1)
    && (forall i, j | 0 <= i < j < |ranges| :: ranges[i].lo != ranges[j].lo)
    && (forall p | p in live :: Recorded(ranges, p))
  }

  ghost predicate DistinctLows(ranges: seq<Range>) {
    forall i, j | 0 <= i < j < |ranges| :: ranges[i].lo != ranges[j].lo
  }

  /** Dropping the range at `lo` drops it and no other. */
  lemma {:induction false} WithoutMembers(ranges: seq<Range>, lo: nat)
    requires DistinctLows(ranges)
    ensures DistinctLows(Without(ranges, lo)) && forall r :: r in Without(ranges, lo) <==> r in ranges && r.lo != lo
  {
    if ranges != [] {
      var rest, w := ranges[1..], Without(ranges[1..], lo);
      assert forall i | 0 <= i < |rest| :: rest[i] == ranges[i + 1];
      WithoutMembers(rest, lo);
      FirstIsNew(ranges);
      assert forall r :: r in ranges <==> r == ranges[0] || r in rest;
      assert forall j | 0 <= j < |w| :: w[j] in w;
    }
  }

  lemma WithoutLive(ranges: seq<Range>, live: map<nat, nat>, lo: nat)
    requires RangesLive(ranges, live)
    ensures RangesLive(Without(ranges, lo), live - {lo})
  {
    WithoutMembers(ranges, lo);
    forall p | p in live - {lo}
      ensures Recorded(Without(ranges, lo), p)
    {
      var r :| r in ranges && r.lo == p;
      assert r in Without(ranges, lo);
    }
  }

  lemma FirstIsNew(ranges: seq<Range>)
    requires |ranges| > 0 && forall i, j | 0 <= i < j < |ranges| :: ranges[i].lo != ranges[j].lo
    ensures forall r | r in ranges[1..] :: r.lo != ranges[0].lo
  {
    forall r | r in ranges[1..]
      ensures r.lo != ranges[0].lo
    {
      var k :| 0 <= k < |ranges[1..]| && ranges[1..][k] == r;
      assert ranges[k + 1] == r;
    }
  }

  // ---- Live payloads ----

  /** Two live payloads share no byte; each is 8-aligned and lies between prologue and epilogue. */
  lemma LivePayloadsApart(s: R.State, maxHeap: nat, p: nat, q: nat)
    requires R.Good(s, maxHeap) && p in s.live && q in s.live
    ensures p % 8 == 0 && 16 <= p && p + s.live[p] + 8 <= 8 * s.heap.top <= maxHeap
    ensures p != q ==> p + s.live[p] + 8 <= q || q + s.live[q] + 8 <= p
  {
    var b := BlockOf(s, maxHeap, p);
    var c := BlockOf(s, maxHeap, q);
    if b != c {
      BlocksApart(s.heap.blocks, s.heap.top, b, c);
    } else {
      BlockBounds(s.heap.blocks, s.heap.top, b);
    }
  }

  lemma BlockOf(s: R.State, maxHeap: nat, p: nat) returns (b: Block)
    requires R.Good(s, maxHeap) && p in s.live
    ensures b in UsedSet(s.heap.blocks) && b.Ptr() == p && R.Serves(b, s.live[p])
  {
    b :| b in s.heap.blocks && b.kind == Used && b != PROLOGUE && b.Ptr() == p;
    assert b in UsedSet(s.heap.blocks);
  }

  lemma ZeroNotLive(s: R.State, maxHeap: nat)
    requires R.Good(s, maxHeap)
    ensures 0 !in s.live
  {
    if 0 in s.live {
      var b := BlockOf(s, maxHeap, 0);
    }
  }

  /** Every live payload of `s` other than the one at `p` has the same bytes in both memories. */
  lemma LiveKept(s: R.State, maxHeap: nat, m: seq<Word>, m': seq<Word>, p: nat, q: nat, fill: Byte)
    requires R.Good(s, maxHeap) && q in s.live && q != p && q + s.live[q] <= 4 * |m|
    requires UsedKept(m, m', s.heap.blocks, p) && Filled(m, q, s.live[q], fill)
    ensures |m'| == |m| && Filled(m', q, s.live[q], fill)
  {
    var b := BlockOf(s, maxHeap, q);
    assert Kept(m, m', b);
    KeptBytes(m, m', b);
  }

  // ---- Ranges of live payloads ----

  /** A new live payload meets none of the recorded ranges and lies inside the heap. */
  lemma NewRangeApart(t: R.State, live: map<nat, nat>, maxHeap: nat, ranges: seq<Range>, p: nat, size: nat)
    requires R.Good(t, maxHeap) && RangesLive(ranges, live) && size > 0
    requires p !in live && t.live == live[p := size]
    ensures forall r | r in ranges :: !Touches(r, p, p + size - 1)
    ensures p % 8 == 0 && p + size <= 8 * t.heap.top
  {
    LivePayloadsApart(t, maxHeap, p, p);
    forall r | r in ranges
      ensures !Touches(r, p, p + size - 1)
    {
      LivePayloadsApart(t, maxHeap, p, r.lo);
    }
  }

  lemma RangesExtended(live: map<nat, nat>, ranges: seq<Range>, p: nat, size: nat)
    requires RangesLive(ranges, live) && size > 0 && p !in live
    ensures RangesLive([Range(p, p + size - 1)] + ranges, live[p := size])
  {
    var rs := [Range(p, p + size - 1)] + ranges;
    forall i, j | 0 <= i < j < |rs|
      ensures rs[i].lo != rs[j].lo
    {
      assert rs[j] in ranges;
      assert i > 0 ==> rs[i] == ranges[i - 1] && rs[j] == ranges[j - 1];
    }
    forall q | q in live[p := size]
      ensures Recorded(rs, q)
    {
      if q != p {
        var r :| r in ranges && r.lo == q;
        assert r in rs;
      } else {
        assert rs[0] in rs;
      }
    }
  }

  // ---- Fill bytes ----

  /** The payload at the address of every id, but the one at `p`, is full of the low byte of that id. */
  ghost predicate FilledBut(table: map<nat, nat>, live: map<nat, nat>, m: seq<Word>, p: nat) {
    forall id | id in table && table[id] in live && table[id] != p :: FilledAt(m, table[id], live[table[id]], id % 256)
  }

  lemma FilledKept(s: R.State, table: map<nat, nat>, maxHeap: nat, m: seq<Word>, m': seq<Word>, p: nat)
    requires R.Good(s, maxHeap) && FilledBut(table, s.live, m, p) && UsedKept(m, m', s.heap.blocks, p)
    ensures FilledBut(table, s.live, m', p)
  {
    forall id | id in table && table[id] in s.live && table[id] != p
      ensures FilledAt(m', table[id], s.live[table[id]], id % 256)
    {
      assert FilledAt(m, table[id], s.live[table[id]], id % 256);
      LiveKept(s, maxHeap, m, m', p, table[id], id % 256);
    }
  }

  /** After the payload of a new id is filled, all are. */
  lemma FilledExtended(t: R.State, table: map<nat, nat>, live: map<nat, nat>, id: nat, p: nat, size: nat, m1: seq<Word>, m2: seq<Word>, maxHeap: nat)
    requires R.Good(t, maxHeap) && id !in table && p !in live && t.live == live[p := size]
    requires forall jd | jd in table :: table[jd] in live
    requires FilledBut(table, live, m1, 0) && UsedKept(m1, m2, t.heap.blocks, p) && FilledAt(m2, p, size, id % 256)
    ensures FilledBut(table[id := p], t.live, m2, 0)
  {
    forall jd | jd in table && table[jd] in live
      ensures FilledAt(m2, table[jd], t.live[table[jd]], jd % 256)
    {
      LivePayloadsApart(t, maxHeap, table[jd], p);
      assert FilledAt(m1, table[jd], live[table[jd]], jd % 256);
      LiveKept(t, maxHeap, m1, m2, p, table[jd], jd % 256);
    }
  }

  lemma FilledLess(table: map<nat, nat>, live: map<nat, nat>, m: seq<Word>, p: nat)
    requires FilledBut(table, live, m, 0) && 0 !in live
    ensures FilledBut(table, live, m, p)
  {
  }

  /** Without the id at `p`, nothing is left out. */
  lemma FilledWithout(table: map<nat, nat>, live: map<nat, nat>, m: seq<Word>, id: nat)
    requires id in table && FilledBut(table, live, m, table[id])
    requires forall jd | jd in table && jd != id :: table[jd] != table[id]
    ensures FilledBut(table - {id}, live - {table[id]}, m, 0)
  {
    forall jd | jd in table - {id} && table[jd] in live - {table[id]}
      ensures FilledAt(m, table[jd], live[table[jd]], jd % 256)
    {
    }
  }

  /** The bytes of the payload at `p` that `mm_realloc` copied to `q` are still the low byte of the id. */
  lemma MovedFilled(s: R.State, maxHeap: nat, m0: seq<Word>, m1: seq<Word>, p: nat, q: nat, size: nat, b: Byte)
    requires R.Good(s, maxHeap) && p in s.live && FilledAt(m0, p, s.live[p], b)
    requires var n := FirstFit.Min(size, FirstFit.PayloadSize(s.heap.blocks, p));
             p + n <= 4 * |m0| && q + n <= 4 * |m1| && Copied(m0, m1, q, p, n)
    ensures FilledAt(m1, q, FirstFit.Min(size, s.live[p]), b)
  {
    var c := BlockOf(s, maxHeap, p);
    var i :| 0 <= i < |s.heap.blocks| && s.heap.blocks[i] == c;
    IndexOfBlock(s.heap.blocks, s.heap.top, i);
    var n := FirstFit.Min(size, FirstFit.PayloadSize(s.heap.blocks, p));
    assert s.live[p] <= FirstFit.PayloadSize(s.heap.blocks, p);
    forall a | q <= a < q + FirstFit.Min(size, s.live[p]) ensures ByteAt(m1, a) == b {
      assert ByteAt(m1, a) == ByteAt(m0, a - q + p);
    }
  }
}
