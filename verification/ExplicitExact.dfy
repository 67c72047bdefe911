/** What one request does to the heap and the free list of the explicit-list allocator, exactly. */
module ExplicitExact {
  import opened Words
  import opened Requests
  import opened Blocks
  import opened BoundaryTags
  import opened FreeLists
  import opened ExplicitSpec

  // ---- The list ----

  /** Some listed block is no longer than `need`, and some is no shorter. */
  ghost predicate Between(list: seq<Block>, need: nat) {
    (exists b :: b in list && b.len <= need) && exists b :: b in list && need <= b.len
  }

  ghost predicate SmallestFit(list: seq<Block>, need: nat, b: Block) {
    b in list && need <= b.len && forall c | c in list && need <= c.len :: b.len <= c.len
  }

  lemma InRangeIff(list: seq<Block>, need: nat)
    requires Ascending(list)
    ensures InRange(list, need) <==> Between(list, need)
  {
    if InRange(list, need) {
      assert list[0] in list && list[|list| - 1] in list;
    }
  }

  /** A block longer than the first and no shorter than the last goes to the end. */
  predicate GoesLast(list: seq<Block>, b: Block) {
    list != [] && list[0].len < b.len && list[|list| - 1].len <= b.len
  }

  /** Otherwise a block goes in front of the listed blocks of its own size, and behind the shorter ones. */
  lemma AddPlace(list: seq<Block>, b: Block) returns (k: nat)
    requires Ascending(list)
    ensures k <= |list| && Add(list, b) == list[..k] + [b] + list[k..]
    ensures if GoesLast(list, b) then k == |list|
            else (forall i | 0 <= i < k :: list[i].len < b.len) && forall i | k <= i < |list| :: b.len <= list[i].len
  {
    k := Slot(list, b);
    SlotBetween(list, b);
  }

  /** Of several smallest fits: the root if it has just the size, else the end if it has, else the first in the list. */
  ghost predicate Taken(list: seq<Block>, need: nat, k: nat) {
    && k < |list| && SmallestFit(list, need, list[k])
    && if list[0].len == need then k == 0
       else if list[|list| - 1].len == need then k == |list| - 1
       else forall i | 0 <= i < k :: list[i].len < need
  }

  lemma PickTakes(list: seq<Block>, need: nat)
    requires Ascending(list) && InRange(list, need)
    ensures Taken(list, need, Pick(list, need))
  {
    PickSmallest(list, need);
    assert list[Pick(list, need)] in list;
  }

  // ---- mm_malloc ----

  /** `p` is the address of the block that a request of `need` doublewords takes from the list. */
  ghost predicate TakenAt(list: seq<Block>, need: nat, p: nat) {
    exists k: nat :: Taken(list, need, k) && list[k].Ptr() == p
  }

  /** No listed blocks surround the size, and the break cannot move by it. */
  ghost predicate Exhausted(h: Heap, size: Word, maxHeap: nat) {
    !Between(h.list, AdjustSize(size) / 8) && maxHeap < 8 * h.top + AdjustSize(size)
  }

  /**
   * NULL comes back exactly for size 0, and where no listed blocks surround the size and the break cannot
   * move by it. Where they surround it the block is a smallest listed fit, otherwise it starts at the old break.
   */
  lemma MallocIsSmallestFit(h: Heap, size: Word, maxHeap: nat)
    requires Legal(h) && size <= MAX_REQUEST
    ensures Malloc(h, size, maxHeap).1 == None <==> size == 0 || Exhausted(h, size, maxHeap)
    ensures Malloc(h, size, maxHeap).1 != None ==>
              var need, p := AdjustSize(size) / 8, Malloc(h, size, maxHeap).1.value;
              if Between(h.list, need) then TakenAt(h.list, need, p) else p == 8 * h.top
  {
    if size > 0 {
      var need := AdjustSize(size) / 8;
      InRangeIff(h.list, need);
      AdjustSizeExact(size);
      assert AdjustSize(size) == 8 * need;
      if InRange(h.list, need) {
        PickTakes(h.list, need);
      }
    }
  }

  /** The free part of `b` behind its first `need` doublewords. */
  function Rest(b: Block, need: nat): Block
    requires need <= b.len
  {
    Block(b.at + need, b.len - need, if b.len == need + 1 then Lost else Free)
  }

  /** In `g` block `k` of the list of `h` is gone, and its first `need` doublewords are used; the rest is free, or lost. */
  ghost predicate CutOut(h: Heap, g: Heap, k: nat, need: nat) {
    k < |h.list| && need <= h.list[k].len
    && var b, others := h.list[k], h.list[..k] + h.list[k + 1..];
       && g.top == h.top
       && g.list == (if need + 2 <= b.len then Add(others, Rest(b, need)) else others)
       && forall c :: c in g.tiles <==>
            (c in h.tiles && c != b) || c == Block(b.at, need, Used) || (need < b.len && c == Rest(b, need))
  }

  lemma TakeTiles(h: Heap, k: nat, need: nat, c: Block)
    requires Legal(h) && k < |h.list| && 2 <= need <= h.list[k].len
    ensures var b := h.list[k];
            c in TakeFrom(h, k, need).tiles <==>
              (c in h.tiles && c != b) || c == Block(b.at, need, Used) || (need < b.len && c == Rest(b, need))
  {
    var b := h.list[k];
    var i := TileIndex(h.tiles, h.top, b);
    PiecesRun(b, need);
    ReplaceTile(h.tiles, h.top, i, Pieces(b, need));
    PiecesAre(b, need);
  }

  lemma TakeRest(h: Heap, k: nat, need: nat)
    requires Legal(h) && k < |h.list| && 2 <= need <= h.list[k].len
    ensures var b, others, g := h.list[k], h.list[..k] + h.list[k + 1..], TakeFrom(h, k, need);
            g.top == h.top && g.list == if need + 2 <= b.len then Add(others, Rest(b, need)) else others
  {
    var i := TileIndex(h.tiles, h.top, h.list[k]);
    PiecesAre(h.list[k], need);
  }

  lemma TakeCuts(h: Heap, k: nat, need: nat)
    requires Legal(h) && k < |h.list| && 2 <= need <= h.list[k].len
    ensures CutOut(h, TakeFrom(h, k, need), k, need)
  {
    TakeRest(h, k, need);
    forall c: Block {
      TakeTiles(h, k, need, c);
    }
  }

  lemma PiecesAre(b: Block, need: nat)
    requires need <= b.len
    ensures forall c :: c in Pieces(b, need) <==> c == Block(b.at, need, Used) || (need < b.len && c == Rest(b, need))
    ensures need + 2 <= b.len ==> Pieces(b, need)[1] == Rest(b, need)
  {
  }

  /** The heap after a request: exactly that block is cut, or exactly one block is added at the break. */
  lemma MallocExact(h: Heap, size: Word, maxHeap: nat) returns (k: nat)
    requires Legal(h) && 0 < size <= MAX_REQUEST && Malloc(h, size, maxHeap).1 != None
    ensures var (g, r) := Malloc(h, size, maxHeap); var need := AdjustSize(size) / 8;
            if Between(h.list, need) then Taken(h.list, need, k) && CutOut(h, g, k, need) && r == Some(h.list[k].Ptr())
            else g == Heap(h.tiles + [Block(h.top, need, Used)], h.top + need, h.list) && r == Some(8 * h.top)
  {
    var need := AdjustSize(size) / 8;
    k := 0;
    AdjustSizeExact(size);
    InRangeIff(h.list, need);
    if InRange(h.list, need) {
      k := Pick(h.list, need);
      PickTakes(h.list, need);
      TakeCuts(h, k, need);
    }
  }

  // ---- mm_free ----

  /** Freeing marks the block free where it stands and adds it to the list; no other tile changes. */
  lemma ReleaseExact(h: Heap, p: nat, i: nat)
    requires Legal(h) && i < |h.tiles| && h.tiles[i].Ptr() == p
    ensures var g := Release(h, p); var b := h.tiles[i].(kind := Free);
            && |g.tiles| == |h.tiles| && g.top == h.top && g.tiles[i] == b && g.list == Add(h.list, b)
            && forall j | 0 <= j < |h.tiles| && j != i :: g.tiles[j] == h.tiles[j]
  {
    IndexOfBlock(h.tiles, h.top, i);
    assert p / 8 == h.tiles[i].at;
  }

  /** A block of 16 bytes is freed; a request for 24 does not fit it, and the heap grows. */
  lemma GrowsBesideShortList(maxHeap: nat)
    requires 64 <= maxHeap
    ensures var h := Heap([PROLOGUE, Block(2, 2, Free)], 4, [Block(2, 2, Free)]);
            Legal(h) && Malloc(h, 24, maxHeap).1 == Some(32)
  {
    var h := Heap([PROLOGUE, Block(2, 2, Free)], 4, [Block(2, 2, Free)]);
    assert AdjustSize(24) == 32;
    assert h.tiles[1] in h.tiles && h.list[0] in h.list;
  }
}
