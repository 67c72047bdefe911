/** What the explicit-list allocator does to its blocks and its free list, over whole runs. */
module ExplicitSpec {
  import opened Words
  import opened Requests
  import opened Blocks
  import opened BoundaryTags
  import opened FreeLists

  /** The blocks in address order, up to position `top`, and the free ones in list order. */
  datatype Heap = Heap(tiles: seq<Block>, top: nat, list: seq<Block>)

  /** What becomes of a free block when `need` doublewords of it are allocated. */
  function Pieces(b: Block, need: nat): seq<Block>
    requires need <= b.len
  {
    if b.len - need >= 2 then [Block(b.at, need, Used), Block(b.at + need, b.len - need, Free)]
    else if b.len - need == 1 then [Block(b.at, need, Used), Block(b.at + need, 1, Lost)]
    else [Block(b.at, need, Used)]
  }

  function Malloc(h: Heap, size: Word, maxHeap: nat): (Heap, Option<nat>) {
    var need := AdjustSize(size) / 8;
    if size == 0 then (h, None)
    else if InRange(h.list, need) then
      var k := Pick(h.list, need);
      (TakeFrom(h, k, need), Some(h.list[k].Ptr()))
    else if 8 * (h.top + need) > maxHeap then (h, None)
    else (Heap(h.tiles + [Block(h.top, need, Used)], h.top + need, h.list), Some(8 * h.top))
  }

  /** Block `k` of the list leaves it; a remainder of two doublewords or more goes back. */
  function TakeFrom(h: Heap, k: nat, need: nat): Heap
    requires k < |h.list|
  {
    var b := h.list[k];
    var i := IndexOf(h.tiles, b.at);
    if i < |h.tiles| && need <= b.len then
      var rest := RemoveAt(h.list, k);
      Heap(Splice(h.tiles, i, Pieces(b, need), i + 1), h.top,
           if b.len - need >= 2 then Add(rest, Pieces(b, need)[1]) else rest)
    else h  // not reached: listed blocks are tiles and the picked one fits
  }

  function Release(h: Heap, p: nat): Heap {
    var i := IndexOf(h.tiles, p / 8);
    if i < |h.tiles| then
      var b := h.tiles[i].(kind := Free);
      Heap(h.tiles[i := b], h.top, Add(h.list, b))
    else h
  }

  // ---- Legality ----

  /** The list holds each free tile once, sorted by size. */
  ghost predicate Legal(h: Heap) {
    && Tiling(h.tiles, h.top)
    && Ascending(h.list) && NoDup(h.list)
    && (forall b | b in h.list :: b in h.tiles && b.kind == Free)
    && (forall b | b in h.tiles && b.kind == Free :: b in h.list)
  }

  lemma TileIndex(tiles: seq<Block>, top: nat, b: Block) returns (i: nat)
    requires Tiling(tiles, top) && b in tiles
    ensures i < |tiles| && tiles[i] == b && IndexOf(tiles, b.at) == i
    ensures b != PROLOGUE ==> i > 0
    ensures b.End() <= top && b.at >= 1
  {
    i :| 0 <= i < |tiles| && tiles[i] == b;
    IndexOfBlock(tiles, top, i);
    AllOrdered(tiles, top);
  }

  /** Replacing tile `i` by pieces of it: what is in the new tiling. */
  lemma ReplaceTile(tiles: seq<Block>, top: nat, i: nat, mid: seq<Block>)
    requires Tiling(tiles, top) && 1 <= i < |tiles| && Run(mid, tiles[i].at, tiles[i].End())
    ensures Tiling(Splice(tiles, i, mid, i + 1), top)
    ensures forall b :: b in Splice(tiles, i, mid, i + 1) <==> (b in tiles && b != tiles[i]) || b in mid
    ensures forall b | b in mid :: tiles[i].at <= b.at && b.End() <= tiles[i].End()
  {
    NextStart(tiles, top, i);
    SpliceTiling(tiles, top, i, mid, i + 1);
    SpliceMembers(tiles, i, mid, i + 1);
    RunBounds(mid, tiles[i].at, tiles[i].End());
    forall b | b in tiles && b != tiles[i]
      ensures b in Splice(tiles, i, mid, i + 1)
    {
      var k := TileIndex(tiles, top, b);
    }
    forall k | 0 <= k < |tiles| && k != i
      ensures tiles[k] != tiles[i]
    {
      IndexOfBlock(tiles, top, k);
      IndexOfBlock(tiles, top, i);
    }
  }

  lemma RunBounds(mid: seq<Block>, lo: nat, hi: nat)
    requires Run(mid, lo, hi)
    ensures forall b | b in mid :: lo <= b.at && b.End() <= hi
  {
    forall k | 0 <= k < |mid|
      ensures lo <= mid[k].at && mid[k].End() <= hi
    {
      if k > 0 {
        Ordered(mid, 0, k);
      }
      if k < |mid| - 1 {
        Ordered(mid, k, |mid| - 1);
      }
    }
  }

  // ---- Allocation ----

  lemma PiecesRun(b: Block, need: nat)
    requires b.kind == Free && 2 <= need <= b.len
    ensures var mid := Pieces(b, need);
            && Run(mid, b.at, b.End()) && UsedSet(mid) == {Block(b.at, need, Used)}
            && forall c | c in mid && c.kind == Free :: b.len - need >= 2 && c == mid[1] && c.at > b.at
  {
  }

  /** The list after an allocation from it. */
  lemma TakeList(h: Heap, k: nat, need: nat)
    requires Legal(h) && k < |h.list| && 2 <= need <= h.list[k].len
    ensures var g, b := TakeFrom(h, k, need), h.list[k];
            && Ascending(g.list) && NoDup(g.list)
            && forall c :: c in g.list <==> (c in h.list && c != b) || (b.len - need >= 2 && c == Pieces(b, need)[1])
  {
    var b := h.list[k];
    var i := TileIndex(h.tiles, h.top, b);
    var rest := RemoveAt(h.list, k);
    RemoveSorted(h.list, k);
    RemoveMembers(h.list, k);
    if b.len - need >= 2 {
      var c := Pieces(b, need)[1];
      if c in rest {
        BlocksApart(h.tiles, h.top, b, c);
      }
      AddSorted(rest, c);
      AddMembers(rest, c);
    }
  }

  lemma TakeLegal(h: Heap, k: nat, need: nat)
    requires Legal(h) && k < |h.list| && 2 <= need <= h.list[k].len
    ensures Legal(TakeFrom(h, k, need)) && TakeFrom(h, k, need).top == h.top
    ensures UsedSet(TakeFrom(h, k, need).tiles) == UsedSet(h.tiles) + {Block(h.list[k].at, need, Used)}
  {
    var b := h.list[k];
    var i := TileIndex(h.tiles, h.top, b);
    PiecesRun(b, need);
    ReplaceTile(h.tiles, h.top, i, Pieces(b, need));
    TakeList(h, k, need);
  }

  lemma ExtendLegal(h: Heap, need: nat)
    requires Legal(h) && need >= 2
    ensures var b := Block(h.top, need, Used); var g := Heap(h.tiles + [b], h.top + need, h.list);
            Legal(g) && UsedSet(g.tiles) == UsedSet(h.tiles) + {b}
  {
    var tiles := h.tiles + [Block(h.top, need, Used)];
    forall i | 0 <= i < |tiles| - 1
      ensures tiles[i + 1].at == tiles[i].End()
    {
      if i + 1 < |h.tiles| {
        assert h.tiles[i + 1].at == h.tiles[i].End();
      }
    }
  }

  lemma ClearTiles(tiles: seq<Block>, top: nat, i: nat)
    requires Tiling(tiles, top) && 1 <= i < |tiles| && tiles[i].kind == Used
    ensures var b := tiles[i].(kind := Free);
            && Tiling(tiles[i := b], top) && b !in tiles
            && (forall c :: c in tiles[i := b] <==> (c in tiles && c != tiles[i]) || c == b)
            && UsedSet(tiles[i := b]) == UsedSet(tiles) - {tiles[i]}
  {
    var b := tiles[i].(kind := Free);
    assert Sized(tiles[i]);
    if b in tiles {
      BlocksApart(tiles, top, b, tiles[i]);
    }
    ReplaceTile(tiles, top, i, [b]);
    SpliceOne(tiles, i, b);
  }

  lemma ReleaseList(h: Heap, i: nat)
    requires Legal(h) && 1 <= i < |h.tiles| && h.tiles[i].kind == Used
    ensures var b := h.tiles[i].(kind := Free); var g := Release(h, h.tiles[i].Ptr());
            && g == Heap(h.tiles[i := b], h.top, Add(h.list, b)) && b !in h.list
            && Ascending(g.list) && NoDup(g.list)
            && forall c :: c in g.list <==> c in h.list || c == b
  {
    var b := h.tiles[i].(kind := Free);
    IndexOfBlock(h.tiles, h.top, i);
    assert h.tiles[i].Ptr() / 8 == h.tiles[i].at;
    ClearTiles(h.tiles, h.top, i);
    AddSorted(h.list, b);
    AddMembers(h.list, b);
  }

  lemma ReleaseLegal(h: Heap, i: nat)
    requires Legal(h) && 1 <= i < |h.tiles| && h.tiles[i].kind == Used
    ensures var g := Release(h, h.tiles[i].Ptr());
            Legal(g) && g.top == h.top && UsedSet(g.tiles) == UsedSet(h.tiles) - {h.tiles[i]}
  {
    ReleaseList(h, i);
    ClearTiles(h.tiles, h.top, i);
  }

  /** What `mm_free` relies on and achieves, in one statement. */
  lemma Released(h: Heap, i: nat)
    requires Legal(h) && 1 <= i < |h.tiles| && h.tiles[i].kind == Used
    ensures var b := h.tiles[i].(kind := Free); var g := Heap(h.tiles[i := b], h.top, Add(h.list, b));
            Legal(g) && g == Release(h, h.tiles[i].Ptr()) && b !in h.list && b in g.tiles
  {
    ReleaseList(h, i);
    ReleaseLegal(h, i);
  }

  // ---- Conservation ----

  function Total(bs: seq<Block>, k: Kind): nat {
    if bs == [] then 0 else (if bs[0].kind == k then bs[0].len else 0) + Total(bs[1..], k)
  }

  lemma {:induction false} TotalConcat(a: seq<Block>, b: seq<Block>, k: Kind)
    ensures Total(a + b, k) == Total(a, k) + Total(b, k)
  {
    if a == [] {
      assert a + b == b;
    } else {
      TotalConcat(a[1..], b, k);
      assert (a + b)[1..] == a[1..] + b;
    }
  }

  lemma TotalSplice(bs: seq<Block>, i: nat, mid: seq<Block>, k: Kind)
    requires i < |bs|
    ensures Total(Splice(bs, i, mid, i + 1), k) + (if bs[i].kind == k then bs[i].len else 0) == Total(bs, k) + Total(mid, k)
  {
    TotalConcat(bs[..i], mid, k);
    TotalConcat(bs[..i] + mid, bs[i + 1..], k);
    TotalConcat(bs[..i], [bs[i]], k);
    TotalConcat(bs[..i] + [bs[i]], bs[i + 1..], k);
    assert bs == bs[..i] + [bs[i]] + bs[i + 1..];
  }

  /** The blocks of a contiguous run fill it: used, free and lost doublewords add up to its length. */
  lemma {:induction false} TotalLength(bs: seq<Block>)
    requires |bs| > 0 && Adjacent(bs)
    ensures bs[0].at + Total(bs, Used) + Total(bs, Free) + Total(bs, Lost) == bs[|bs| - 1].End()
  {
    if |bs| > 1 {
      assert bs[0 + 1].at == bs[0].End();
      forall i | 0 <= i < |bs[1..]| - 1
        ensures bs[1..][i + 1].at == bs[1..][i].End()
      {
        assert bs[i + 1 + 1].at == bs[i + 1].End();
      }
      TotalLength(bs[1..]);
    }
  }
}
