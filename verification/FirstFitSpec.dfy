/** What the first-fit allocator does to its block list, and what that promises over whole runs. */
module FirstFitSpec {
  import opened Words
  import opened Requests
  import opened Blocks
  import opened BoundaryTags

  const CHUNKSIZE: nat := 4096

  datatype Heap = Heap(blocks: seq<Block>, top: nat)

  ghost predicate NoFreeNeighbours(bs: seq<Block>) {
    forall i | 0 <= i < |bs| - 1 :: bs[i].kind == Free ==> bs[i + 1].kind != Free
  }

  ghost predicate Legal(h: Heap) {
    && Tiling(h.blocks, h.top)
    && (forall b | b in h.blocks :: b.kind != Lost)
    && NoFreeNeighbours(h.blocks)
  }

  // ---- Operations ----

  predicate Fits(b: Block, need: nat) {
    b.kind == Free && need <= b.len
  }

  /** The first block from index `i` on that is free and long enough. */
  function FirstFit(bs: seq<Block>, need: nat, i: nat): (r: nat)
    requires i <= |bs|
    ensures i <= r <= |bs|
    ensures r < |bs| ==> Fits(bs[r], need)
    ensures forall k | i <= k < r :: !Fits(bs[k], need)
    decreases |bs| - i
  {
    if i == |bs| || Fits(bs[i], need) then i else FirstFit(bs, need, i + 1)
  }

  /** The blocks that replace a free block when `need` doublewords of it are allocated. */
  function Placed(b: Block, need: nat): seq<Block>
    requires need <= b.len
  {
    if b.len - need >= 2 then
      [Block(b.at, need, Used), Block(b.at + need, b.len - need, Free)]
    else
      [b.(kind := Used)]
  }

  function Place(bs: seq<Block>, i: nat, need: nat): seq<Block>
    requires i < |bs| && need <= bs[i].len
  {
    Splice(bs, i, Placed(bs[i], need), i + 1)
  }

  function MergeLo(bs: seq<Block>, i: nat): (lo: nat)
    requires 1 <= i < |bs|
    ensures i - 1 <= lo <= i
  {
    if bs[i - 1].kind == Free then i - 1 else i
  }

  function MergeHi(bs: seq<Block>, i: nat): (hi: nat)
    requires 1 <= i < |bs|
    ensures i < hi <= i + 2 && hi <= |bs|
  {
    if i + 1 < |bs| && bs[i + 1].kind == Free then i + 2 else i + 1
  }

  /** One free block in place of the free blocks `lo..hi`. */
  function Merged(bs: seq<Block>, lo: nat, hi: nat): Block
    requires lo < hi <= |bs|
  {
    Block(bs[lo].at, if bs[lo].at <= bs[hi - 1].End() then bs[hi - 1].End() - bs[lo].at else 0, Free)
  }

  /** Block `i`, just freed, joined with whichever neighbours are free. */
  function Coalesce(bs: seq<Block>, i: nat): seq<Block>
    requires 1 <= i < |bs|
  {
    var lo, hi := MergeLo(bs, i), MergeHi(bs, i);
    Splice(bs, lo, [Merged(bs, lo, hi)], hi)
  }

  function Extend(h: Heap, n: nat): Heap
    requires |h.blocks| > 0
  {
    Heap(Coalesce(h.blocks + [Block(h.top, n, Free)], |h.blocks|), h.top + n)
  }

  /** Growing the heap by `need` doublewords, or a chunk if that is more, to place a request there. */
  function AllocateNew(h: Heap, need: nat, maxHeap: nat): (Heap, Option<nat>)
    requires |h.blocks| > 0
  {
    var ext := if need > CHUNKSIZE / 8 then need else CHUNKSIZE / 8;
    if 8 * (h.top + ext) > maxHeap then
      (h, None)
    else
      var g := Extend(h, ext);
      var last := g.blocks[|g.blocks| - 1];
      if need <= last.len then
        (Heap(Place(g.blocks, |g.blocks| - 1, need), g.top), Some(last.Ptr()))
      else
        (h, None)  // not reached on a legal heap: the new block is long enough
  }

  /** `maxHeap` is the capacity in bytes; the result is the new heap and the payload address. */
  function Allocate(h: Heap, size: Word, maxHeap: nat): (Heap, Option<nat>)
    requires |h.blocks| > 0
  {
    var need := AdjustSize(size) / 8;
    var i := FirstFit(h.blocks, need, 0);
    if size == 0 then
      (h, None)
    else if i < |h.blocks| then
      (Heap(Place(h.blocks, i, need), h.top), Some(h.blocks[i].Ptr()))
    else
      AllocateNew(h, need, maxHeap)
  }

  /** `p` is the payload address of an allocated block. */
  ghost predicate Allocated(bs: seq<Block>, p: nat) {
    exists b :: b in bs && b.kind == Used && b != PROLOGUE && b.Ptr() == p
  }

  function ReleaseAt(bs: seq<Block>, i: nat): seq<Block>
    requires 1 <= i < |bs|
  {
    Coalesce(bs[i := bs[i].(kind := Free)], i)
  }

  function Release(h: Heap, p: nat): Heap {
    var i := IndexOf(h.blocks, p / 8);
    if 1 <= i < |h.blocks| then Heap(ReleaseAt(h.blocks, i), h.top) else h
  }

  function InitialHeap(): Heap {
    Heap([PROLOGUE], 2)
  }

  // ---- Splices ----

  lemma SpliceNeighbours(bs: seq<Block>, lo: nat, mid: seq<Block>, hi: nat)
    requires 1 <= lo < hi <= |bs| && |mid| > 0
    requires forall k | 0 <= k < |bs| - 1 && !(lo - 1 <= k < hi) :: bs[k].kind == Free ==> bs[k + 1].kind != Free
    requires NoFreeNeighbours(mid)
    requires bs[lo - 1].kind == Free ==> mid[0].kind != Free
    requires hi < |bs| && bs[hi].kind == Free ==> mid[|mid| - 1].kind != Free
    ensures NoFreeNeighbours(Splice(bs, lo, mid, hi))
  {
    var r := Splice(bs, lo, mid, hi);
    forall k | 0 <= k < |r| - 1 && r[k].kind == Free
      ensures r[k + 1].kind != Free
    {
      if k + 1 < lo {
        assert r[k] == bs[k] && r[k + 1] == bs[k + 1];
      } else if lo <= k && k + 1 < lo + |mid| {
        assert r[k] == mid[k - lo] && r[k + 1] == mid[k - lo + 1];
      } else if lo + |mid| <= k {
        var d := k - lo - |mid| + hi;
        assert r[k] == bs[d] && r[k + 1] == bs[d + 1];
      }
    }
  }

  /** The used blocks of a list in which some blocks that are not used were rewritten. */
  lemma SpliceUsed(bs: seq<Block>, lo: nat, mid: seq<Block>, hi: nat)
    requires lo <= hi <= |bs|
    requires forall k | lo <= k < hi :: bs[k].kind != Used
    ensures UsedSet(Splice(bs, lo, mid, hi)) == UsedSet(bs) + UsedSet(mid)
  {
    SpliceMembers(bs, lo, mid, hi);
  }

  // ---- Placing ----

  lemma PlacedRun(b: Block, need: nat)
    requires Fits(b, need) && need >= 2
    ensures var mid := Placed(b, need);
            && Run(mid, b.at, b.End())
            && NoFreeNeighbours(mid)
            && mid[0].kind == Used && need <= mid[0].len <= need + 1
            && UsedSet(mid) == {mid[0]}
            && (forall c | c in mid :: c.kind != Lost)
  {
  }

  lemma PlaceTiles(h: Heap, i: nat, need: nat)
    requires Legal(h) && i < |h.blocks| && Fits(h.blocks[i], need) && need >= 2
    ensures Tiling(Place(h.blocks, i, need), h.top) && forall b | b in Place(h.blocks, i, need) :: b.kind != Lost
  {
    var bs, mid := h.blocks, Placed(h.blocks[i], need);
    assert i > 0;
    PlacedRun(bs[i], need);
    NextStart(bs, h.top, i);
    SpliceTiling(bs, h.top, i, mid, i + 1);
    SpliceMembers(bs, i, mid, i + 1);
  }

  lemma PlaceNeighbours(h: Heap, i: nat, need: nat)
    requires Legal(h) && i < |h.blocks| && Fits(h.blocks[i], need) && need >= 2
    ensures NoFreeNeighbours(Place(h.blocks, i, need))
  {
    assert i > 0;
    PlacedRun(h.blocks[i], need);
    SpliceNeighbours(h.blocks, i, Placed(h.blocks[i], need), i + 1);
  }

  lemma PlaceLegal(h: Heap, i: nat, need: nat)
    requires Legal(h) && i < |h.blocks| && Fits(h.blocks[i], need) && need >= 2
    ensures Legal(Heap(Place(h.blocks, i, need), h.top))
    ensures UsedSet(Place(h.blocks, i, need)) == UsedSet(h.blocks) + {Placed(h.blocks[i], need)[0]}
  {
    PlaceTiles(h, i, need);
    PlaceNeighbours(h, i, need);
    PlacedRun(h.blocks[i], need);
    SpliceUsed(h.blocks, i, Placed(h.blocks[i], need), i + 1);
  }

  // ---- Coalescing ----

  /** All the list invariant, except that block `i`, which is free, may have free neighbours. */
  ghost predicate LegalBut(h: Heap, i: nat) {
    && Tiling(h.blocks, h.top)
    && 1 <= i < |h.blocks| && h.blocks[i].kind == Free
    && (forall b | b in h.blocks :: b.kind != Lost)
    && forall k | 0 <= k < |h.blocks| - 1 && k != i && k != i - 1 :: h.blocks[k].kind == Free ==> h.blocks[k + 1].kind != Free
  }

  lemma MergedRun(h: Heap, i: nat)
    requires LegalBut(h, i)
    ensures var lo, hi := MergeLo(h.blocks, i), MergeHi(h.blocks, i);
            && lo >= 1 && h.blocks[lo].at <= h.blocks[hi - 1].End()
            && Run([Merged(h.blocks, lo, hi)], h.blocks[lo].at, Start(h.blocks, h.top, hi))
            && Merged(h.blocks, lo, hi).len == h.blocks[i].len
                                             + (if lo < i then h.blocks[i - 1].len else 0)
                                             + (if i + 1 < hi then h.blocks[i + 1].len else 0)
  {
    var bs, lo, hi := h.blocks, MergeLo(h.blocks, i), MergeHi(h.blocks, i);
    NextStart(bs, h.top, i - 1);
    NextStart(bs, h.top, i);
    NextStart(bs, h.top, hi - 1);
  }

  lemma MergedNeighbours(h: Heap, i: nat)
    requires LegalBut(h, i)
    ensures NoFreeNeighbours(Coalesce(h.blocks, i))
  {
    var bs, lo, hi := h.blocks, MergeLo(h.blocks, i), MergeHi(h.blocks, i);
    assert lo == i - 1 ==> bs[i - 1].kind == Free && lo >= 1;
    assert lo == i - 1 ==> bs[i - 2].kind != Free;
    assert hi == i + 2 < |bs| ==> bs[i + 2].kind != Free;
    SpliceNeighbours(bs, lo, [Merged(bs, lo, hi)], hi);
  }

  lemma MergedTiles(h: Heap, i: nat)
    requires LegalBut(h, i)
    ensures Tiling(Coalesce(h.blocks, i), h.top) && forall b | b in Coalesce(h.blocks, i) :: b.kind != Lost
  {
    var bs, lo, hi := h.blocks, MergeLo(h.blocks, i), MergeHi(h.blocks, i);
    var mid := [Merged(bs, lo, hi)];
    MergedRun(h, i);
    SpliceTiling(bs, h.top, lo, mid, hi);
    SpliceMembers(bs, lo, mid, hi);
  }

  lemma MergedUsed(bs: seq<Block>, i: nat)
    requires 1 <= i < |bs| && bs[i].kind == Free
    ensures UsedSet(Coalesce(bs, i)) == UsedSet(bs)
  {
    var lo, hi := MergeLo(bs, i), MergeHi(bs, i);
    SpliceUsed(bs, lo, [Merged(bs, lo, hi)], hi);
  }

  lemma CoalesceLegal(h: Heap, i: nat)
    requires LegalBut(h, i)
    ensures Legal(Heap(Coalesce(h.blocks, i), h.top))
    ensures UsedSet(Coalesce(h.blocks, i)) == UsedSet(h.blocks)
  {
    MergedTiles(h, i);
    MergedNeighbours(h, i);
    MergedUsed(h.blocks, i);
  }

  lemma ExtendLegal(h: Heap, n: nat)
    requires Legal(h) && n >= 2
    ensures var g := Extend(h, n); var last := g.blocks[|g.blocks| - 1];
            Legal(g) && UsedSet(g.blocks) == UsedSet(h.blocks) && last.kind == Free && last.len >= n
  {
    var bs := h.blocks + [Block(h.top, n, Free)];
    var i := |h.blocks|;
    forall k | 0 <= k < |bs| - 1
      ensures bs[k + 1].at == bs[k].End()
      ensures k != i - 1 && bs[k].kind == Free ==> bs[k + 1].kind != Free
    {
      if k + 1 < i {
        assert bs[k] == h.blocks[k] && bs[k + 1] == h.blocks[k + 1];
      }
    }
    MergedRun(Heap(bs, h.top + n), i);
    CoalesceLegal(Heap(bs, h.top + n), i);
  }

  /** The heap after a successful growth, without the case that a legal heap rules out. */
  lemma AllocateNewGrows(h: Heap, need: nat, ext: nat, maxHeap: nat)
    requires Legal(h) && need >= 2
    requires ext == if need > CHUNKSIZE / 8 then need else CHUNKSIZE / 8
    requires 8 * (h.top + ext) <= maxHeap
    ensures var g := Extend(h, ext); var n := |g.blocks|;
            && n > 0 && Fits(g.blocks[n - 1], need) && Legal(g) && UsedSet(h.blocks) <= UsedSet(g.blocks)
            && AllocateNew(h, need, maxHeap) == (Heap(Place(g.blocks, n - 1, need), g.top), Some(g.blocks[n - 1].Ptr()))
  {
    ExtendLegal(h, ext);
  }

  lemma ReleaseLegal(h: Heap, i: nat)
    requires Legal(h) && 1 <= i < |h.blocks| && h.blocks[i].kind == Used
    ensures Legal(Heap(ReleaseAt(h.blocks, i), h.top))
    ensures UsedSet(ReleaseAt(h.blocks, i)) == UsedSet(h.blocks) - {h.blocks[i]}
  {
    ClearTiling(h, i);
    CoalesceLegal(Heap(h.blocks[i := h.blocks[i].(kind := Free)], h.top), i);
    ClearUsed(h, i);
  }

  lemma ClearUsed(h: Heap, i: nat)
    requires Legal(h) && 1 <= i < |h.blocks|
    ensures UsedSet(h.blocks[i := h.blocks[i].(kind := Free)]) == UsedSet(h.blocks) - {h.blocks[i]}
  {
    var bs := h.blocks[i := h.blocks[i].(kind := Free)];
    forall b | b in UsedSet(h.blocks) - {h.blocks[i]}
      ensures b in UsedSet(bs)
    {
      var k :| 0 <= k < |h.blocks| && h.blocks[k] == b;
      assert bs[k] == b;
    }
    forall b | b in UsedSet(bs)
      ensures b in UsedSet(h.blocks) - {h.blocks[i]}
    {
      var k :| 0 <= k < |bs| && bs[k] == b;
      assert k != i && h.blocks[k] == b;
      DisjointBlocks(h.blocks, h.top, k, i);
      assert Sized(h.blocks[i]);
    }
  }

  lemma ClearTiling(h: Heap, i: nat)
    requires Legal(h) && 1 <= i < |h.blocks|
    ensures LegalBut(Heap(h.blocks[i := h.blocks[i].(kind := Free)], h.top), i)
  {
    var bs := h.blocks[i := h.blocks[i].(kind := Free)];
    forall k | 0 <= k < |bs| - 1
      ensures bs[k + 1].at == bs[k].End()
    {
      assert h.blocks[k + 1].at == h.blocks[k].End();
    }
    assert Sized(h.blocks[i]);
    assert h.blocks[i] in h.blocks;
  }
}
