/** What one request does to a first-fit heap, exactly, and why the used blocks determine everything else. */
module FirstFitExact {
  import opened Words
  import opened Requests
  import opened Blocks
  import opened BoundaryTags
  import opened FirstFitSpec
  import R = FirstFitRuns

  // ---- Used blocks determine the heap ----

  lemma SameNext(h: Heap, g: Heap, k: nat)
    requires Legal(h) && Legal(g) && h.top == g.top && UsedSet(h.blocks) == UsedSet(g.blocks)
    requires k < |h.blocks| && k <= |g.blocks| && h.blocks[..k] == g.blocks[..k]
    ensures k < |g.blocks| && h.blocks[k].at == g.blocks[k].at
  {
    if k > 0 {
      assert h.blocks[k - 1] == h.blocks[..k][k - 1] == g.blocks[k - 1];
      assert h.blocks[k - 1 + 1].at == h.blocks[k - 1].End();
      BlockBounds(h.blocks, h.top, h.blocks[k]);
      assert Sized(h.blocks[k]);
      if k < |g.blocks| {
        assert g.blocks[k - 1 + 1].at == g.blocks[k - 1].End();
      }
    }
  }

  lemma SameUsed(h: Heap, g: Heap, k: nat)
    requires Legal(g) && UsedSet(h.blocks) == UsedSet(g.blocks)
    requires k < |h.blocks| && k < |g.blocks| && h.blocks[k].at == g.blocks[k].at && h.blocks[k].kind == Used
    ensures h.blocks[k] == g.blocks[k]
  {
    assert h.blocks[k] in UsedSet(h.blocks);
    assert h.blocks[k] in UsedSet(g.blocks);
    R.SamePtr(g, h.blocks[k], g.blocks[k]);
  }

  /** A free block cannot end earlier than another free block that starts at the same place. */
  lemma SameFree(h: Heap, g: Heap, k: nat)
    requires Legal(h) && Legal(g) && h.top == g.top && UsedSet(h.blocks) == UsedSet(g.blocks)
    requires k < |h.blocks| && k < |g.blocks| && h.blocks[k].at == g.blocks[k].at
    requires h.blocks[k].kind == Free && g.blocks[k].kind == Free
    ensures g.blocks[k].End() <= h.blocks[k].End()
  {
    BlockBounds(g.blocks, g.top, g.blocks[k]);
    if k + 1 < |h.blocks| {
      var next := h.blocks[k + 1];
      assert next.at == h.blocks[k].End() && next in h.blocks && next.kind == Used && Sized(next);
      assert next in UsedSet(h.blocks);
      assert next in UsedSet(g.blocks);
      BlocksApart(g.blocks, g.top, next, g.blocks[k]);
    }
  }

  lemma {:induction false} SamePrefix(h: Heap, g: Heap, k: nat)
    requires Legal(h) && Legal(g) && h.top == g.top && UsedSet(h.blocks) == UsedSet(g.blocks)
    requires k <= |h.blocks|
    ensures k <= |g.blocks| && h.blocks[..k] == g.blocks[..k]
  {
    if k > 0 {
      SamePrefix(h, g, k - 1);
      SameBlock(h, g, k - 1);
      assert h.blocks[..k] == h.blocks[..k - 1] + [h.blocks[k - 1]];
      assert g.blocks[..k] == g.blocks[..k - 1] + [g.blocks[k - 1]];
    }
  }

  lemma SameBlock(h: Heap, g: Heap, k: nat)
    requires Legal(h) && Legal(g) && h.top == g.top && UsedSet(h.blocks) == UsedSet(g.blocks)
    requires k < |h.blocks| && k <= |g.blocks| && h.blocks[..k] == g.blocks[..k]
    ensures k < |g.blocks| && h.blocks[k] == g.blocks[k]
  {
    SameNext(h, g, k);
    assert h.blocks[k] in h.blocks && g.blocks[k] in g.blocks;
    if h.blocks[k].kind == Used {
      SameUsed(h, g, k);
    } else if g.blocks[k].kind == Used {
      SameUsed(g, h, k);
    } else {
      SameFree(h, g, k);
      SameFree(g, h, k);
    }
  }

  /** Complete coalescing leaves no choice: two legal heaps with the same used blocks are equal. */
  lemma HeapDetermined(h: Heap, g: Heap)
    requires Legal(h) && Legal(g) && h.top == g.top && UsedSet(h.blocks) == UsedSet(g.blocks)
    ensures h == g
  {
    SamePrefix(h, g, |h.blocks|);
    SamePrefix(g, h, |g.blocks|);
    assert h.blocks[..|h.blocks|] == h.blocks && g.blocks[..|g.blocks|] == g.blocks;
  }

  /** Freeing a block gives the only legal heap of the same extent without it. */
  lemma ReleaseDetermined(h: Heap, p: nat, b: Block, g: Heap)
    requires Legal(h) && b in UsedSet(h.blocks) && b != PROLOGUE && b.Ptr() == p
    requires Legal(g) && g.top == h.top && UsedSet(g.blocks) == UsedSet(h.blocks) - {b}
    ensures Release(h, p) == g
  {
    assert Allocated(h.blocks, p);
    var c := R.ReleaseLive(h, p);
    R.SamePtr(h, b, c);
    HeapDetermined(Release(h, p), g);
  }

  // ---- The block a request gets ----

  /** The free space at the end of the heap once the break has moved by `ext` doublewords. */
  function TailSpace(h: Heap, ext: nat): Block
    requires |h.blocks| > 0
  {
    var last := h.blocks[|h.blocks| - 1];
    if last.kind == Free then Block(last.at, last.len + ext, Free) else Block(h.top, ext, Free)
  }

  /** `b` is the start of `space`: `need` doublewords of it, or one more where nothing else could be left over. */
  ghost predicate CutFrom(space: Block, need: nat, b: Block) {
    b == Block(space.at, if space.len == need + 1 then need + 1 else need, Used)
  }

  /** `g` is `h` with `b` cut from `space`; what is left of it is a free block, unless it is less than 16 bytes. */
  ghost predicate CutOut(h: Heap, g: Heap, space: Block, need: nat, b: Block) {
    && CutFrom(space, need, b) && Legal(g) && UsedSet(g.blocks) == UsedSet(h.blocks) + {b}
    && (space.len >= need + 2 ==> Block(space.at + need, space.len - need, Free) in g.blocks)
  }

  lemma PlaceCuts(h: Heap, i: nat, need: nat) returns (b: Block)
    requires Legal(h) && i < |h.blocks| && Fits(h.blocks[i], need) && need >= 2
    ensures CutOut(h, Heap(Place(h.blocks, i, need), h.top), h.blocks[i], need, b)
  {
    var space := h.blocks[i];
    b := Placed(space, need)[0];
    PlaceLegal(h, i, need);
    SpliceMembers(h.blocks, i, Placed(space, need), i + 1);
    assert space.len >= need + 2 ==> Placed(space, need)[1] in Placed(space, need);
  }

  lemma ExtendedTail(h: Heap, ext: nat)
    requires Legal(h) && ext >= 2
    ensures var g := Extend(h, ext); |g.blocks| > 0 && g.blocks[|g.blocks| - 1] == TailSpace(h, ext)
  {
    var bs := h.blocks + [Block(h.top, ext, Free)];
    var i := |h.blocks|;
    var lo, hi := MergeLo(bs, i), MergeHi(bs, i);
    assert hi == |bs| && bs[i - 1] == h.blocks[i - 1];
    BlockBounds(h.blocks, h.top, h.blocks[i - 1]);
  }

  /** Where a request of `need` doublewords is cut from, and how far the break has moved for it. */
  ghost predicate Chosen(h: Heap, need: nat, space: Block, grown: nat) {
    |h.blocks| > 0
    && if R.SomeFit(h.blocks, need) then R.LowestFit(h.blocks, need, space) && grown == 0
       else space == TailSpace(h, grown) && grown == if need > CHUNKSIZE / 8 then need else CHUNKSIZE / 8
  }

  /**
   * A successful request is cut from the lowest free block that fits, and the break stays; where none fits,
   * the break moves by the larger of the adjusted size and a chunk, and it is cut from the space at the end.
   * What it gets is exactly the adjusted size, or 8 bytes more where just these would be left.
   */
  lemma AllocateExact(h: Heap, size: Word, maxHeap: nat) returns (space: Block, b: Block, grown: nat)
    requires Legal(h) && 0 < size <= MAX_REQUEST && Allocate(h, size, maxHeap).1 != None
    ensures var (g, r) := Allocate(h, size, maxHeap); var need := AdjustSize(size) / 8;
            Chosen(h, need, space, grown) && CutOut(h, g, space, need, b) && g.top == h.top + grown && r == Some(b.Ptr())
  {
    var need := AdjustSize(size) / 8;
    var i := FirstFit(h.blocks, need, 0);
    AdjustSizeExact(size);
    ChosenIs(h, need);
    if i < |h.blocks| {
      space, grown := h.blocks[i], 0;
      b := PlaceCuts(h, i, need);
    } else {
      grown := if need > CHUNKSIZE / 8 then need else CHUNKSIZE / 8;
      space := TailSpace(h, grown);
      b := GrowCuts(h, need, grown, maxHeap);
    }
  }

  lemma ChosenIs(h: Heap, need: nat)
    requires Legal(h)
    ensures var i := FirstFit(h.blocks, need, 0);
            if i < |h.blocks| then Chosen(h, need, h.blocks[i], 0)
            else var ext := if need > CHUNKSIZE / 8 then need else CHUNKSIZE / 8; Chosen(h, need, TailSpace(h, ext), ext)
  {
    var i := FirstFit(h.blocks, need, 0);
    AllOrdered(h.blocks, h.top);
    if i < |h.blocks| {
      assert R.LowestFit(h.blocks, need, h.blocks[i]);
    }
  }

  lemma GrowCuts(h: Heap, need: nat, ext: nat, maxHeap: nat) returns (b: Block)
    requires Legal(h) && need >= 2 && AllocateNew(h, need, maxHeap).1 != None
    requires ext == if need > CHUNKSIZE / 8 then need else CHUNKSIZE / 8
    ensures var (g, r) := AllocateNew(h, need, maxHeap);
            CutOut(h, g, TailSpace(h, ext), need, b) && g.top == h.top + ext && r == Some(b.Ptr())
  {
    var g := Extend(h, ext);
    AllocateNewGrows(h, need, ext, maxHeap);
    ExtendedTail(h, ext);
    b := PlaceCuts(g, |g.blocks| - 1, need);
    SameUsedCut(h, g, ext, Heap(Place(g.blocks, |g.blocks| - 1, need), g.top), need, b);
  }

  lemma SameUsedCut(h: Heap, g: Heap, ext: nat, k: Heap, need: nat, b: Block)
    requires Legal(h) && ext >= 2 && g == Extend(h, ext) && CutOut(g, k, TailSpace(h, ext), need, b)
    ensures CutOut(h, k, TailSpace(h, ext), need, b)
  {
    ExtendLegal(h, ext);
  }

  lemma CutAt(h: Heap, i: nat, maxHeap: nat)
    requires i < |h.blocks| && Fits(h.blocks[i], 4) && forall k | 0 <= k < i :: !Fits(h.blocks[k], 4)
    ensures Allocate(h, 24, maxHeap) == (Heap(Place(h.blocks, i, 4), h.top), Some(h.blocks[i].Ptr()))
  {
    assert AdjustSize(24) / 8 == 4;
    assert FirstFit(h.blocks, 4, 0) == i;
  }

  /** Two requests of 24 bytes after `mm_init` get neighbouring blocks of 32 bytes. */
  lemma TwoRequests(maxHeap: nat)
    requires 16 + CHUNKSIZE <= maxHeap
    ensures R.Run(R.Init(maxHeap), [R.Malloc(24), R.Malloc(24)], maxHeap).heap.blocks
            == [PROLOGUE, Block(2, 4, Used), Block(6, 4, Used), Block(10, 504, Free)]
  {
    InitIsOneBlock(maxHeap);
    var rs := [R.Malloc(24), R.Malloc(24)];
    assert rs[..1][..0] == [] && rs[..2] == rs;
    var h0 := Heap([PROLOGUE, Block(2, 512, Free)], 514);
    var h1 := Heap([PROLOGUE, Block(2, 4, Used), Block(6, 508, Free)], 514);
    CutAt(h0, 1, maxHeap);
    CutAt(h1, 2, maxHeap);
    assert R.Run(R.Init(maxHeap), rs[..1], maxHeap).heap == h1;
  }

  /** After `mm_init` the heap is one free chunk, or just the prologue where there is no room for it. */
  lemma InitIsOneBlock(maxHeap: nat)
    ensures R.Init(maxHeap).live == map[]
    ensures R.Init(maxHeap).heap == if 16 + CHUNKSIZE <= maxHeap then Heap([PROLOGUE, Block(2, CHUNKSIZE / 8, Free)], 2 + CHUNKSIZE / 8)
                                  else Heap([PROLOGUE], 2)
  {
  }
}
