/** Safety and conservation on every run of the explicit-list allocator. */
module ExplicitRuns {
  import opened Words
  import opened Requests
  import opened Blocks
  import opened BoundaryTags
  import opened FreeLists
  import opened ExplicitSpec

  datatype Request = Allocate(size: Word) | Free(p: nat)

  /** A heap, the request behind every live address, and how many fits left eight bytes over. */
  datatype State = State(heap: Heap, live: map<nat, nat>, slivers: nat)

  /** Allocating `need` doublewords takes a block one doubleword too long, and loses that one. */
  predicate LeavesSliver(h: Heap, need: nat) {
    InRange(h.list, need) && h.list[Pick(h.list, need)].len == need + 1
  }

  /** Freeing an address that is not live is no request of a correct caller: no step. */
  function Step(s: State, r: Request, maxHeap: nat): State {
    match r
    case Allocate(size) =>
      var (g, p) := Malloc(s.heap, size, maxHeap);
      if p == None then State(g, s.live, s.slivers)
      else State(g, s.live[p.value := size], s.slivers + if LeavesSliver(s.heap, AdjustSize(size) / 8) then 1 else 0)
    case Free(p) =>
      if p in s.live then State(Release(s.heap, p), s.live - {p}, s.slivers) else s
  }

  function Init(): State {
    State(Heap([PROLOGUE], 2, []), map[], 0)
  }

  function Run(rs: seq<Request>, maxHeap: nat): State
    decreases |rs|
  {
    if rs == [] then Init() else Step(Run(rs[..|rs| - 1], maxHeap), rs[|rs| - 1], maxHeap)
  }

  ghost predicate Serves(b: Block, size: Word) {
    b.kind == Used && b.at >= 2 && 8 * b.len == AdjustSize(size) && 0 < size <= MAX_REQUEST
  }

  /** The live addresses are those of the used blocks, and each block fits its request. */
  ghost predicate Owned(tiles: seq<Block>, live: map<nat, nat>) {
    && (forall b | b in UsedSet(tiles) && b != PROLOGUE :: b.Ptr() in live && live[b.Ptr()] < WORD_LIMIT && Serves(b, live[b.Ptr()]))
    && (forall p | p in live :: p % 8 == 0 && UsedAt(tiles, p))
  }

  ghost predicate UsedAt(tiles: seq<Block>, p: nat) {
    exists b :: b in UsedSet(tiles) && b != PROLOGUE && b.Ptr() == p
  }

  ghost predicate Good(s: State, maxHeap: nat) {
    && Legal(s.heap) && 8 * s.heap.top <= maxHeap
    && Owned(s.heap.tiles, s.live)
  }

  /** The free list holds every free doubleword; the slivers are the lost ones. */
  ghost predicate Accounted(s: State) {
    && Total(s.heap.tiles, Kind.Free) == SumLen(s.heap.list)
    && Total(s.heap.tiles, Lost) == s.slivers
  }

  // ---- One step ----

  /** A successful allocation adds one used block, at the returned address, and changes no other. */
  lemma MallocLegal(h: Heap, size: Word, maxHeap: nat) returns (b: Block)
    requires Legal(h) && size <= MAX_REQUEST
    ensures var (g, p) := Malloc(h, size, maxHeap);
            && Legal(g) && (8 * h.top <= maxHeap ==> 8 * g.top <= maxHeap)
            && (p == None ==> g == h)
            && (p != None ==> Serves(b, size) && b.Ptr() == p.value && UsedSet(g.tiles) == UsedSet(h.tiles) + {b} && b !in h.tiles)
  {
    b := PROLOGUE;
    if size != 0 {
      AdjustSizeExact(size);
      var need := AdjustSize(size) / 8;
      AllOrdered(h.tiles, h.top);
      if InRange(h.list, need) {
        var k := Pick(h.list, need);
        PickSmallest(h.list, need);
        TakeLegal(h, k, need);
        b := Block(h.list[k].at, need, Used);
        NotATile(h, h.list[k], b);
      } else if 8 * (h.top + need) <= maxHeap {
        ExtendLegal(h, need);
        b := Block(h.top, need, Used);
        AboveTiles(h, b);
      }
    }
  }

  lemma NotATile(h: Heap, b: Block, c: Block)
    requires Legal(h) && b in h.tiles && b.kind == Kind.Free && c.kind == Used && c.at == b.at
    ensures c !in h.tiles && b.at >= 2
  {
    var i := TileIndex(h.tiles, h.top, b);
    AllOrdered(h.tiles, h.top);
    if c in h.tiles {
      BlocksApart(h.tiles, h.top, b, c);
    }
  }

  lemma AboveTiles(h: Heap, b: Block)
    requires Tiling(h.tiles, h.top) && b.at == h.top && b.len > 0
    ensures b !in h.tiles && h.top >= 2
  {
    AllOrdered(h.tiles, h.top);
    assert h.tiles[0].End() <= h.top;
    assert b in h.tiles ==> b.End() <= h.top;
  }

  lemma AllocateGood(s: State, size: Word, maxHeap: nat)
    requires Good(s, maxHeap) && size <= MAX_REQUEST
    ensures Good(Step(s, Allocate(size), maxHeap), maxHeap)
    ensures var p := Malloc(s.heap, size, maxHeap).1; p != None ==> p.value !in s.live
  {
    var (g, p) := Malloc(s.heap, size, maxHeap);
    var b := MallocLegal(s.heap, size, maxHeap);
    if p != None {
      OwnedAdd(s.heap, g, s.live, b, size);
    }
  }

  lemma FreeGood(s: State, p: nat, maxHeap: nat)
    requires Good(s, maxHeap) && p in s.live
    ensures Good(Step(s, Request.Free(p), maxHeap), maxHeap)
  {
    var i := LiveIndex(s.heap, s.live, p);
    ReleaseLegal(s.heap, i);
    UniquePtr(s.heap, s.heap.tiles[i]);
    OwnedRemove(s.heap.tiles, Release(s.heap, p).tiles, s.live, s.heap.tiles[i]);
  }

  lemma StepGood(s: State, r: Request, maxHeap: nat)
    requires Good(s, maxHeap) && (r.Allocate? ==> r.size <= MAX_REQUEST)
    ensures Good(Step(s, r, maxHeap), maxHeap)
  {
    match r
    case Allocate(size) =>
      AllocateGood(s, size, maxHeap);
    case Free(p) =>
      if p in s.live {
        FreeGood(s, p, maxHeap);
      }
  }

  lemma LiveIndex(h: Heap, live: map<nat, nat>, p: nat) returns (i: nat)
    requires Legal(h) && Owned(h.tiles, live) && p in live
    ensures 1 <= i < |h.tiles| && h.tiles[i].kind == Used && h.tiles[i].Ptr() == p && IndexOf(h.tiles, p / 8) == i
  {
    var b :| b in UsedSet(h.tiles) && b != PROLOGUE && b.Ptr() == p;
    i := TileIndex(h.tiles, h.top, b);
  }

  lemma OwnedAdd(h: Heap, g: Heap, live: map<nat, nat>, b: Block, size: Word)
    requires Legal(g) && Owned(h.tiles, live) && Serves(b, size)
    requires UsedSet(g.tiles) == UsedSet(h.tiles) + {b} && b !in h.tiles
    ensures b.Ptr() !in live && Owned(g.tiles, live[b.Ptr() := size])
  {
    forall c | c in UsedSet(h.tiles)
      ensures c.Ptr() != b.Ptr()
    {
      assert c in UsedSet(g.tiles) && b in UsedSet(g.tiles);
      BlocksApart(g.tiles, g.top, b, c);
    }
    forall p | p in live
      ensures UsedAt(g.tiles, p) && p != b.Ptr()
    {
      var c :| c in UsedSet(h.tiles) && c != PROLOGUE && c.Ptr() == p;
      assert c in UsedSet(g.tiles);
    }
    assert b in UsedSet(g.tiles);
  }

  lemma OwnedRemove(bs: seq<Block>, cs: seq<Block>, live: map<nat, nat>, b: Block)
    requires Owned(bs, live) && UsedSet(cs) == UsedSet(bs) - {b}
    requires forall c | c in UsedSet(bs) && c != b :: c.Ptr() != b.Ptr()
    ensures Owned(cs, live - {b.Ptr()})
  {
    forall p | p in live && p != b.Ptr()
      ensures UsedAt(cs, p)
    {
      var c :| c in UsedSet(bs) && c != PROLOGUE && c.Ptr() == p;
      assert c in UsedSet(cs);
    }
  }

  lemma UniquePtr(h: Heap, b: Block)
    requires Legal(h) && b in h.tiles
    ensures forall c | c in h.tiles && c != b :: c.Ptr() != b.Ptr()
  {
    forall c | c in h.tiles && c != b
      ensures c.Ptr() != b.Ptr()
    {
      BlocksApart(h.tiles, h.top, b, c);
    }
  }

  // ---- Conservation ----

  lemma TakeAccounted(h: Heap, k: nat, need: nat, kind: Kind)
    requires Legal(h) && k < |h.list| && 2 <= need <= h.list[k].len && kind != Used
    ensures var g, b := TakeFrom(h, k, need), h.list[k];
            && (kind == Kind.Free ==> Total(g.tiles, kind) + b.len == Total(h.tiles, kind) + if b.len - need >= 2 then b.len - need else 0)
            && (kind == Lost ==> Total(g.tiles, kind) == Total(h.tiles, kind) + if b.len - need == 1 then 1 else 0)
  {
    var b := h.list[k];
    var i := TileIndex(h.tiles, h.top, b);
    var mid := Pieces(b, need);
    TotalSplice(h.tiles, i, mid, kind);
    TotalPieces(b, need, kind);
  }

  lemma TotalPieces(b: Block, need: nat, kind: Kind)
    requires need <= b.len && kind != Used
    ensures Total(Pieces(b, need), kind) == if kind == Kind.Free then (if b.len - need >= 2 then b.len - need else 0)
                                            else if b.len - need == 1 then 1 else 0
  {
    var mid := Pieces(b, need);
    TotalOne(mid[0], kind);
    if |mid| == 2 {
      TotalOne(mid[1], kind);
      TotalConcat([mid[0]], [mid[1]], kind);
    }
  }

  lemma TotalOne(b: Block, kind: Kind)
    ensures Total([b], kind) == if b.kind == kind then b.len else 0
  {
    assert [b][1..] == [];
  }

  lemma TakeListSum(h: Heap, k: nat, need: nat)
    requires Legal(h) && k < |h.list| && 2 <= need <= h.list[k].len
    ensures var g, b := TakeFrom(h, k, need), h.list[k];
            SumLen(g.list) + b.len == SumLen(h.list) + if b.len - need >= 2 then b.len - need else 0
  {
    var i := TileIndex(h.tiles, h.top, h.list[k]);
    RemoveSum(h.list, k);
    if h.list[k].len - need >= 2 {
      AddSum(RemoveAt(h.list, k), Pieces(h.list[k], need)[1]);
    }
  }

  lemma MallocAccounted(s: State, size: Word, maxHeap: nat)
    requires Good(s, maxHeap) && Accounted(s) && size <= MAX_REQUEST
    ensures Accounted(Step(s, Allocate(size), maxHeap))
  {
    if size != 0 {
      AdjustSizeExact(size);
      var h, need := s.heap, AdjustSize(size) / 8;
      if InRange(h.list, need) {
        var k := Pick(h.list, need);
        PickSmallest(h.list, need);
        TakeAccounted(h, k, need, Kind.Free);
        TakeAccounted(h, k, need, Lost);
        TakeListSum(h, k, need);
      } else {
        TotalOne(Block(h.top, need, Used), Kind.Free);
        TotalOne(Block(h.top, need, Used), Lost);
        TotalConcat(h.tiles, [Block(h.top, need, Used)], Kind.Free);
        TotalConcat(h.tiles, [Block(h.top, need, Used)], Lost);
      }
    }
  }

  lemma FreeAccounted(s: State, p: nat, maxHeap: nat)
    requires Good(s, maxHeap) && Accounted(s) && p in s.live
    ensures Accounted(Step(s, Request.Free(p), maxHeap))
  {
    var h := s.heap;
    var i := LiveIndex(h, s.live, p);
    var b := h.tiles[i].(kind := Kind.Free);
    SpliceOne(h.tiles, i, b);
    TotalSplice(h.tiles, i, [b], Kind.Free);
    TotalSplice(h.tiles, i, [b], Lost);
    TotalOne(b, Kind.Free);
    TotalOne(b, Lost);
    AddSum(h.list, b);
  }

  // ---- Every run ----

  ghost predicate NoWrap(rs: seq<Request>) {
    forall r | r in rs :: r.Allocate? ==> r.size <= MAX_REQUEST
  }

  lemma {:induction false} EveryRunGood(rs: seq<Request>, maxHeap: nat)
    requires 16 <= maxHeap && NoWrap(rs)
    ensures Good(Run(rs, maxHeap), maxHeap) && Accounted(Run(rs, maxHeap))
    decreases |rs|
  {
    if rs != [] {
      var pre, r := rs[..|rs| - 1], rs[|rs| - 1];
      EveryRunGood(pre, maxHeap);
      assert r in rs;
      var s := Run(pre, maxHeap);
      StepGood(s, r, maxHeap);
      match r {
        case Allocate(size) => MallocAccounted(s, size, maxHeap);
        case Free(p) => if p in s.live { FreeAccounted(s, p, maxHeap); }
      }
    }
  }

  /** Used blocks and the listed free blocks lie in the heap, each listed once, and no two share a byte. */
  ghost predicate KeptApart(tiles: seq<Block>, list: seq<Block>, maxHeap: nat) {
    && NoDup(list) && (forall b | b in list :: b.kind == Kind.Free)
    && (forall b | b in list || b in UsedSet(tiles) :: 1 <= b.at && 8 * b.End() <= maxHeap)
    && (forall b, c | b in list && c in list && b != c :: b.End() <= c.at || c.End() <= b.at)
    && (forall b, c | b in list && c in UsedSet(tiles) :: b.End() <= c.at || c.End() <= b.at)
    && (forall b, c | b in UsedSet(tiles) && c in UsedSet(tiles) && b != c :: b.End() <= c.at || c.End() <= b.at)
  }

  /** `b` is a used block behind address `p` with room for `size` bytes. */
  ghost predicate Backs(tiles: seq<Block>, b: Block, p: nat, size: nat) {
    b in UsedSet(tiles) && b != PROLOGUE && b.Ptr() == p && size + 8 <= 8 * b.len
  }

  lemma LegalKeptApart(h: Heap, maxHeap: nat)
    requires Legal(h) && 8 * h.top <= maxHeap
    ensures KeptApart(h.tiles, h.list, maxHeap)
  {
    forall b, c | b in h.tiles && c in h.tiles && b != c
      ensures b.End() <= c.at || c.End() <= b.at
    {
      BlocksApart(h.tiles, h.top, b, c);
    }
    forall b | b in h.tiles
      ensures 1 <= b.at && 8 * b.End() <= maxHeap
    {
      BlockBounds(h.tiles, h.top, b);
    }
  }

  /**
   * On every run no block is handed out twice: used and listed blocks are apart, no block is listed
   * twice, and behind every live address is a used block with room for the request it serves.
   */
  lemma EveryRunDisjoint(rs: seq<Request>, maxHeap: nat)
    requires 16 <= maxHeap && NoWrap(rs)
    ensures var s := Run(rs, maxHeap);
            && KeptApart(s.heap.tiles, s.heap.list, maxHeap)
            && forall p | p in s.live :: p % 8 == 0 && exists b :: Backs(s.heap.tiles, b, p, s.live[p])
  {
    EveryRunGood(rs, maxHeap);
    var s := Run(rs, maxHeap);
    LegalKeptApart(s.heap, maxHeap);
    forall p | p in s.live
      ensures exists b :: Backs(s.heap.tiles, b, p, s.live[p])
    {
      LiveBacked(s, maxHeap, p);
    }
  }

  lemma LiveBacked(s: State, maxHeap: nat, p: nat)
    requires Good(s, maxHeap) && p in s.live
    ensures exists b :: Backs(s.heap.tiles, b, p, s.live[p])
  {
    var b :| b in UsedSet(s.heap.tiles) && b != PROLOGUE && b.Ptr() == p;
    AdjustSizeExact(s.live[p]);
    assert Backs(s.heap.tiles, b, p, s.live[p]);
  }

  /**
   * On every run the bytes between the prologue and the break are those of the live blocks, those of
   * the free list, and eight for each fit that left exactly eight bytes over.
   */
  lemma Conservation(rs: seq<Request>, maxHeap: nat)
    requires 16 <= maxHeap && NoWrap(rs)
    ensures var s := Run(rs, maxHeap); var tiles := s.heap.tiles;
            |tiles| > 0 && 8 * s.heap.top - 16 == 8 * Total(tiles[1..], Used) + 8 * SumLen(s.heap.list) + 8 * s.slivers
  {
    EveryRunGood(rs, maxHeap);
    TotalLength(Run(rs, maxHeap).heap.tiles);
  }

  // ---- No coalescing ----

  /** Freeing changes no border between blocks: no two blocks are ever joined. */
  lemma ReleaseJoinsNothing(h: Heap, p: nat)
    ensures var g := Release(h, p);
            && |g.tiles| == |h.tiles| && g.top == h.top
            && forall i | 0 <= i < |h.tiles| :: g.tiles[i].at == h.tiles[i].at && g.tiles[i].len == h.tiles[i].len
  {
  }

  /** Two blocks next to each other, allocated and freed, stay two free blocks. */
  lemma FreeNeighboursStay(maxHeap: nat)
    requires 48 <= maxHeap
    ensures Run([Allocate(8), Allocate(8), Request.Free(16), Request.Free(32)], maxHeap).heap.tiles
            == [PROLOGUE, Block(2, 2, Kind.Free), Block(4, 2, Kind.Free)]
  {
    var rs := [Allocate(8), Allocate(8), Request.Free(16), Request.Free(32)];
    var b, c := Block(2, 2, Used), Block(4, 2, Used);
    assert rs[..0] == [] && rs[..1][..0] == [] && rs[..2][..1] == rs[..1] && rs[..3][..2] == rs[..2] && rs[..4] == rs;
    assert Run(rs[..1], maxHeap) == State(Heap([PROLOGUE, b], 4, []), map[16 := 8], 0);
    assert Run(rs[..2], maxHeap) == State(Heap([PROLOGUE, b, c], 6, []), map[16 := 8, 32 := 8], 0);
    var b', c' := b.(kind := Kind.Free), c.(kind := Kind.Free);
    var s := Run(rs[..3], maxHeap);
    assert IndexOf([PROLOGUE, b, c], 2) == 1;
    assert s.heap.tiles == [PROLOGUE, b', c];
    assert 32 in s.live;
    assert IndexOf(s.heap.tiles, 4) == 2;
  }
}
