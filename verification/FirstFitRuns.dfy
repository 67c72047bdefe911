/** Theorems about every run of the first-fit allocator, stated on block lists. */
module FirstFitRuns {
  import opened Words
  import opened Requests
  import opened Blocks
  import opened BoundaryTags
  import opened FirstFitSpec

  // ---- One allocation ----

  ghost predicate SomeFit(bs: seq<Block>, need: nat) {
    exists b :: b in bs && Fits(b, need)
  }

  /** `b` is the free block with the lowest address among those with `need` doublewords. */
  ghost predicate LowestFit(bs: seq<Block>, need: nat, b: Block) {
    && b in bs && Fits(b, need)
    && forall c | c in bs && Fits(c, need) :: b.at <= c.at
  }

  /** `Allocate` returns the lowest fit; it fails only when there is none and the heap cannot grow. */
  lemma AllocateIsFirstFit(h: Heap, size: Word, maxHeap: nat)
    requires Legal(h) && 0 < size <= MAX_REQUEST
    ensures var need := AdjustSize(size) / 8; var r := Allocate(h, size, maxHeap).1;
            && (r == None <==> !SomeFit(h.blocks, need) && maxHeap < 8 * h.top + if AdjustSize(size) > CHUNKSIZE then AdjustSize(size) else CHUNKSIZE)
            && (SomeFit(h.blocks, need) ==> exists b :: LowestFit(h.blocks, need, b) && r == Some(b.Ptr()))
  {
    var need := AdjustSize(size) / 8;
    var i := FirstFit(h.blocks, need, 0);
    AdjustSizeExact(size);
    AllOrdered(h.blocks, h.top);
    if i < |h.blocks| {
      assert LowestFit(h.blocks, need, h.blocks[i]);
    } else {
      ExtendLegal(h, if need > CHUNKSIZE / 8 then need else CHUNKSIZE / 8);
    }
  }

  /** The block a request of `size` bytes was given: no smaller than needed, at most a doubleword more. */
  ghost predicate Serves(b: Block, size: nat) {
    size > 0 && b.kind == Used && b.at >= 2 && size + 8 <= 8 * b.len <= size + 23
  }

  /** `g` is `h` with one more used block, `b`, which serves a request of `size` bytes. */
  ghost predicate Adds(h: Heap, g: Heap, size: nat, b: Block) {
    Legal(g) && h.top <= g.top && Serves(b, size) && b !in UsedSet(h.blocks) && UsedSet(g.blocks) == UsedSet(h.blocks) + {b}
  }

  lemma AllocateGrown(h: Heap, size: Word, maxHeap: nat, ext: nat) returns (b: Block)
    requires Legal(h) && 0 < size <= MAX_REQUEST && 8 * (h.top + ext) <= maxHeap
    requires var need := AdjustSize(size) / 8; ext == if need > CHUNKSIZE / 8 then need else CHUNKSIZE / 8
    ensures var (g, r) := AllocateNew(h, AdjustSize(size) / 8, maxHeap);
            Adds(h, g, size, b) && r == Some(b.Ptr()) && g.top == h.top + ext
  {
    var g := Extend(h, ext);
    AdjustSizeExact(size);
    AllocateNewGrows(h, AdjustSize(size) / 8, ext, maxHeap);
    ExtendLegal(h, ext);
    b := PlaceServes(g, |g.blocks| - 1, size);
  }

  /** A successful allocation adds one used block, at the returned address, and changes no other. */
  lemma AllocateLegal(h: Heap, size: Word, maxHeap: nat) returns (b: Block)
    requires Legal(h) && size <= MAX_REQUEST
    ensures var (g, r) := Allocate(h, size, maxHeap);
            && Legal(g) && h.top <= g.top
            && (8 * h.top <= maxHeap ==> 8 * g.top <= maxHeap)
            && (r == None ==> g == h)
            && (r != None ==> Adds(h, g, size, b) && b.Ptr() == r.value)
  {
    b := PROLOGUE;
    if size != 0 {
      var need := AdjustSize(size) / 8;
      var i := FirstFit(h.blocks, need, 0);
      var ext := if need > CHUNKSIZE / 8 then need else CHUNKSIZE / 8;
      if i < |h.blocks| {
        b := PlaceServes(h, i, size);
      } else if 8 * (h.top + ext) <= maxHeap {
        b := AllocateGrown(h, size, maxHeap, ext);
      }
    }
  }

  lemma AllocateGrows(h: Heap, size: Word, maxHeap: nat)
    requires Legal(h) && size <= MAX_REQUEST
    ensures h.top <= Allocate(h, size, maxHeap).0.top
  {
    var _ := AllocateLegal(h, size, maxHeap);
  }

  lemma PlaceServes(h: Heap, i: nat, size: Word) returns (b: Block)
    requires Legal(h) && 0 < size <= MAX_REQUEST
    requires i < |h.blocks| && Fits(h.blocks[i], AdjustSize(size) / 8)
    ensures Serves(b, size) && b.Ptr() == h.blocks[i].Ptr()
    ensures Legal(Heap(Place(h.blocks, i, AdjustSize(size) / 8), h.top))
    ensures b !in UsedSet(h.blocks)
    ensures UsedSet(Place(h.blocks, i, AdjustSize(size) / 8)) == UsedSet(h.blocks) + {b}
  {
    var need := AdjustSize(size) / 8;
    AdjustSizeExact(size);
    PlaceLegal(h, i, need);
    PlacedRun(h.blocks[i], need);
    b := Placed(h.blocks[i], need)[0];
    AllOrdered(h.blocks, h.top);
    assert i > 0 && h.blocks[i].at >= 2;
    forall k | 0 <= k < |h.blocks| && h.blocks[k].kind == Used
      ensures h.blocks[k] != b
    {
      DisjointBlocks(h.blocks, h.top, k, i);
    }
  }

  // ---- Runs ----

  datatype Request = Malloc(size: Word) | Free(p: nat) | Realloc(p: nat, size: Word)

  /** A heap, and the requested size behind every payload address not yet freed. */
  datatype State = State(heap: Heap, live: map<nat, nat>)

  function Init(maxHeap: nat): State {
    State(if 16 + CHUNKSIZE <= maxHeap then Extend(InitialHeap(), CHUNKSIZE / 8) else InitialHeap(), map[])
  }

  /** Freeing or reallocating an address that is not live is no request of a correct caller: no step. */
  function Step(s: State, r: Request, maxHeap: nat): State
    requires |s.heap.blocks| > 0
  {
    match r
    case Malloc(size) =>
      var (g, p) := Allocate(s.heap, size, maxHeap);
      State(g, if p == None then s.live else s.live[p.value := size])
    case Free(p) =>
      if p in s.live then State(Release(s.heap, p), s.live - {p}) else s
    case Realloc(p, size) =>
      var (g, q) := Allocate(s.heap, size, maxHeap);
      if p !in s.live || q == None then s
      else State(Release(g, p), s.live[q.value := size] - {p})
  }

  /** The live addresses are those of the used blocks, and each block serves its request. */
  ghost predicate Owned(bs: seq<Block>, live: map<nat, nat>) {
    && (forall b | b in UsedSet(bs) && b != PROLOGUE :: b.Ptr() in live && Serves(b, live[b.Ptr()]))
    && (forall p | p in live :: Allocated(bs, p))
  }

  ghost predicate Good(s: State, maxHeap: nat) {
    Legal(s.heap) && 8 * s.heap.top <= maxHeap && Owned(s.heap.blocks, s.live)
  }

  lemma SamePtr(h: Heap, b: Block, c: Block)
    requires Legal(h) && b in h.blocks && c in h.blocks && b.at == c.at
    ensures b == c
  {
    var i :| 0 <= i < |h.blocks| && h.blocks[i] == b;
    var j :| 0 <= j < |h.blocks| && h.blocks[j] == c;
    IndexOfBlock(h.blocks, h.top, i);
    IndexOfBlock(h.blocks, h.top, j);
  }

  lemma IndexOfLive(h: Heap, p: nat) returns (i: nat)
    requires Legal(h) && Allocated(h.blocks, p)
    ensures 1 <= i < |h.blocks| && h.blocks[i].kind == Used && h.blocks[i].Ptr() == p
    ensures IndexOf(h.blocks, p / 8) == i
  {
    var b :| b in h.blocks && b.kind == Used && b != PROLOGUE && b.Ptr() == p;
    i :| 0 <= i < |h.blocks| && h.blocks[i] == b;
    IndexOfBlock(h.blocks, h.top, i);
  }

  /** Releasing a live address removes its block from the used ones and changes no other. */
  lemma ReleaseLive(h: Heap, p: nat) returns (b: Block)
    requires Legal(h) && Allocated(h.blocks, p)
    ensures b in h.blocks && b.kind == Used && b.Ptr() == p
    ensures var g := Release(h, p); Legal(g) && g.top == h.top && UsedSet(g.blocks) == UsedSet(h.blocks) - {b}
  {
    var i := IndexOfLive(h, p);
    b := h.blocks[i];
    ReleaseLegal(h, i);
  }

  lemma StepGood(s: State, r: Request, maxHeap: nat)
    requires Good(s, maxHeap)
    requires r.Malloc? || r.Realloc? ==> r.size <= MAX_REQUEST
    ensures Good(Step(s, r, maxHeap), maxHeap)
  {
    match r
    case Malloc(size) =>
      MallocGood(s, size, maxHeap);
    case Free(p) =>
      if p in s.live {
        FreeGood(s, p, maxHeap);
      }
    case Realloc(p, size) =>
      if p in s.live && Allocate(s.heap, size, maxHeap).1 != None {
        ReallocGood(s, p, size, maxHeap);
      }
  }

  /** The address is a new one, and the state after the release of the old one is good. */
  lemma ReallocGood(s: State, p: nat, size: Word, maxHeap: nat)
    requires Good(s, maxHeap) && p in s.live && size <= MAX_REQUEST && Allocate(s.heap, size, maxHeap).1 != None
    ensures Good(Step(s, Realloc(p, size), maxHeap), maxHeap)
    ensures Allocate(s.heap, size, maxHeap).1.value !in s.live
  {
    MallocGood(s, size, maxHeap);
    FreeGood(Step(s, Malloc(size), maxHeap), p, maxHeap);
  }

  lemma UniquePtr(h: Heap, b: Block)
    requires Legal(h) && b in h.blocks
    ensures forall c | c in h.blocks && c != b :: c.Ptr() != b.Ptr()
  {
    forall c | c in h.blocks && c != b
      ensures c.Ptr() != b.Ptr()
    {
      if c.at == b.at {
        SamePtr(h, b, c);
      }
    }
  }

  lemma OwnedAdd(bs: seq<Block>, cs: seq<Block>, live: map<nat, nat>, b: Block, size: nat)
    requires Owned(bs, live) && Serves(b, size) && UsedSet(cs) == UsedSet(bs) + {b}
    requires forall c | c in UsedSet(bs) :: c.Ptr() != b.Ptr()
    ensures b.Ptr() !in live && Owned(cs, live[b.Ptr() := size])
  {
    forall q | q in live
      ensures Allocated(cs, q) && q != b.Ptr()
    {
      var c :| c in bs && c.kind == Used && c != PROLOGUE && c.Ptr() == q;
      assert c in UsedSet(bs);
      assert c in UsedSet(cs);
    }
    assert b in UsedSet(cs);
    assert Allocated(cs, b.Ptr());
  }

  lemma OwnedRemove(bs: seq<Block>, cs: seq<Block>, live: map<nat, nat>, b: Block)
    requires Owned(bs, live) && UsedSet(cs) == UsedSet(bs) - {b}
    requires forall c | c in UsedSet(bs) && c != b :: c.Ptr() != b.Ptr()
    ensures Owned(cs, live - {b.Ptr()})
  {
    forall q | q in live && q != b.Ptr()
      ensures Allocated(cs, q)
    {
      StillAllocated(bs, cs, q);
    }
  }

  lemma MallocGood(s: State, size: Word, maxHeap: nat)
    requires Good(s, maxHeap) && size <= MAX_REQUEST
    ensures Good(Step(s, Malloc(size), maxHeap), maxHeap)
    ensures var p := Allocate(s.heap, size, maxHeap).1; p != None ==> p.value !in s.live
  {
    var (g, p) := Allocate(s.heap, size, maxHeap);
    var b := AllocateLegal(s.heap, size, maxHeap);
    if p != None {
      assert b in UsedSet(g.blocks);
      UniquePtr(g, b);
      assert forall c | c in UsedSet(s.heap.blocks) :: c in UsedSet(g.blocks);
      OwnedAdd(s.heap.blocks, g.blocks, s.live, b, size);
    }
  }

  lemma FreeGood(s: State, p: nat, maxHeap: nat)
    requires Good(s, maxHeap) && p in s.live
    ensures Good(State(Release(s.heap, p), s.live - {p}), maxHeap)
  {
    var b := ReleaseLive(s.heap, p);
    UniquePtr(s.heap, b);
    OwnedRemove(s.heap.blocks, Release(s.heap, p).blocks, s.live, b);
  }

  lemma StillAllocated(bs: seq<Block>, cs: seq<Block>, q: nat)
    requires Allocated(bs, q)
    requires forall b | b in UsedSet(bs) && b.Ptr() == q :: b in UsedSet(cs)
    ensures Allocated(cs, q)
  {
    var c :| c in bs && c.kind == Used && c != PROLOGUE && c.Ptr() == q;
    assert c in UsedSet(cs);
  }

  function Run(s: State, rs: seq<Request>, maxHeap: nat): State
    requires |s.heap.blocks| > 0
    decreases |rs|
  {
    if rs == [] then s
    else
      var t := Run(s, rs[..|rs| - 1], maxHeap);
      if |t.heap.blocks| > 0 then Step(t, rs[|rs| - 1], maxHeap) else t
  }

  ghost predicate NoWrap(rs: seq<Request>) {
    forall r | r in rs :: r.Malloc? || r.Realloc? ==> r.size <= MAX_REQUEST
  }

  lemma InitGood(maxHeap: nat)
    requires 16 <= maxHeap
    ensures Good(Init(maxHeap), maxHeap)
  {
    assert Legal(InitialHeap());
    ExtendLegal(InitialHeap(), CHUNKSIZE / 8);
  }

  /**
   * Every run from `mm_init` keeps the heap legal, and between its allocation and its release a block
   * keeps its place and a size between eight and twenty-three bytes above the request.
   */
  lemma {:induction false} EveryRunGood(rs: seq<Request>, maxHeap: nat)
    requires 16 <= maxHeap && NoWrap(rs)
    ensures Good(Run(Init(maxHeap), rs, maxHeap), maxHeap)
    decreases |rs|
  {
    InitGood(maxHeap);
    if rs != [] {
      EveryRunGood(rs[..|rs| - 1], maxHeap);
      StepGood(Run(Init(maxHeap), rs[..|rs| - 1], maxHeap), rs[|rs| - 1], maxHeap);
    }
  }

  // ---- Complete coalescing ----

  function Count(bs: seq<Block>, k: Kind): nat {
    if bs == [] then 0 else Count(bs[..|bs| - 1], k) + if bs[|bs| - 1].kind == k then 1 else 0
  }

  lemma {:induction false} FreeCount(bs: seq<Block>)
    requires |bs| > 0 && bs[0].kind == Used && NoFreeNeighbours(bs)
    requires forall b | b in bs :: b.kind != Lost
    ensures Count(bs, Kind.Free) <= Count(bs, Used)
    ensures bs[|bs| - 1].kind == Used ==> Count(bs, Kind.Free) < Count(bs, Used)
    decreases |bs|
  {
    var pre := bs[..|bs| - 1];
    if pre != [] {
      FreeCount(pre);
      assert bs[|bs| - 2] == pre[|pre| - 1];
      assert bs[|bs| - 1] in bs;
      assert bs[|bs| - 2].kind == Kind.Free ==> bs[|bs| - 2 + 1].kind != Kind.Free;
    } else {
      assert bs[..0] == [];
    }
  }

  /** On every run the free blocks number at most the allocated blocks plus one. */
  lemma FreeBlocksBounded(rs: seq<Request>, maxHeap: nat)
    requires 16 <= maxHeap && NoWrap(rs)
    ensures var bs := Run(Init(maxHeap), rs, maxHeap).heap.blocks;
            |bs| > 0 && Count(bs[1..], Kind.Free) <= Count(bs[1..], Used) + 1
  {
    EveryRunGood(rs, maxHeap);
    var bs := Run(Init(maxHeap), rs, maxHeap).heap.blocks;
    FreeCount(bs);
    CountTail(bs, Kind.Free);
    CountTail(bs, Used);
  }

  lemma {:induction false} CountTail(bs: seq<Block>, k: Kind)
    requires |bs| > 0
    ensures Count(bs, k) == Count(bs[1..], k) + if bs[0].kind == k then 1 else 0
    decreases |bs|
  {
    if |bs| == 1 {
      assert bs[..0] == [] && bs[1..] == [];
    } else {
      CountTail(bs[..|bs| - 1], k);
      assert bs[..|bs| - 1][1..] == bs[1..][..|bs[1..]| - 1];
    }
  }

  lemma UserBlockLive(s: State, maxHeap: nat, i: nat)
    requires Good(s, maxHeap) && 1 <= i < |s.heap.blocks|
    ensures s.heap.blocks[i].kind == Kind.Free || s.heap.blocks[i].Ptr() in s.live
  {
    AllOrdered(s.heap.blocks, s.heap.top);
    assert s.heap.blocks[i] in s.heap.blocks;
  }

  /** When everything allocated has been freed, in whatever order, the heap is one free block. */
  lemma AllFreedIsOneBlock(s: State, maxHeap: nat)
    requires Good(s, maxHeap) && s.live == map[]
    ensures s.heap.blocks == if s.heap.top == 2 then [PROLOGUE]
                             else [PROLOGUE, Block(2, s.heap.top - 2, Kind.Free)]
  {
    var bs := s.heap.blocks;
    AllOrdered(bs, s.heap.top);
    assert |bs| > 2 ==> (bs[1].kind == Kind.Free ==> bs[1 + 1].kind != Kind.Free);
    assert |bs| > 1 ==> bs[0 + 1].at == bs[0].End() && Sized(bs[1]);
    forall i | 1 <= i < |bs|
      ensures bs[i].kind == Kind.Free
    {
      UserBlockLive(s, maxHeap, i);
    }
  }
}
