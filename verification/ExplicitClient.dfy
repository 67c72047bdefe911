/**
 * A client of the explicit-list allocator that fills every block it gets: on every run, each live
 * payload keeps its bytes until it is freed.
 */
module ExplicitClient {
  import opened Words
  import opened Requests
  import opened MemLib
  import opened Blocks
  import opened BoundaryTags
  import opened FreeLists
  import opened Links
  import opened ExplicitSpec
  import R = ExplicitRuns
  import ExplicitList

  /** Every live payload is full of its byte. */
  ghost predicate AllFilled(m: seq<Word>, live: map<nat, nat>, fill: map<nat, Byte>, p: nat) {
    forall q | q in live && q != p :: q in fill && FilledAt(m, q, live[q], fill[q])
  }

  /** The allocator is in state `s`, and every live payload holds its byte. */
  ghost predicate Holds(a: ExplicitList.Allocator, s: R.State, fill: map<nat, Byte>)
    reads a, a.mem, a.mem.words
  {
    a.Valid() && a.Heap() == s.heap && R.Good(s, a.mem.MaxHeap()) && AllFilled(a.mem.words[..], s.live, fill, 0)
  }

  /** A store into the payload of a used block leaves tags, links and every other used block as they were. */
  lemma StoreHarmless(m: seq<Word>, m': seq<Word>, brk: nat, tiles: seq<Block>, list: seq<Block>, b: Block, lo: nat, hi: nat)
    requires ListIn(m, brk, tiles, list) && b in tiles && b.kind == Used && b != PROLOGUE
    requires OnlyBytes(m, m', lo, hi) && b.Ptr() <= lo <= hi <= 8 * b.End() - 8
    ensures ListIn(m', brk, tiles, list) && UsedKept(m, m', tiles, b.Ptr())
  {
    var i := TileIndex(tiles, brk / 8, b);
    BlockBounds(tiles, brk / 8, b);
    PayloadOnly(m, m', b, lo, hi);
    SpliceOne(tiles, i, b);
    assert tiles[i := b] == tiles;
    NextStart(tiles, brk / 8, i);
    ExplicitList.SpliceListIn(m, m', brk, tiles, list, i, [b]);
    SpliceKept(m, m', brk, tiles, i, i + 1, b.Ptr());
  }

  lemma PayloadOnly(m: seq<Word>, m': seq<Word>, b: Block, lo: nat, hi: nat)
    requires Tagged(m, b) && b.len >= 2
    requires OnlyBytes(m, m', lo, hi) && b.Ptr() <= lo <= hi <= 8 * b.End() - 8
    ensures SameOutside(m, m', b.at, b.End()) && Tagged(m', b)
  {
    forall w | 0 <= w < |m| && !(2 * b.at <= w < 2 * b.End() - 2)
      ensures m'[w] == m[w]
    {
      WordsOfBytes(m, m', lo, hi, w);
    }
  }

  /** The block behind a live address, and where its payload lies. */
  lemma PayloadOf(s: R.State, maxHeap: nat, p: nat) returns (b: Block)
    requires R.Good(s, maxHeap) && p in s.live
    ensures R.Backs(s.heap.tiles, b, p, s.live[p])
    ensures p > 0 && p + s.live[p] + 8 <= 8 * b.End() <= maxHeap
  {
    R.LiveBacked(s, maxHeap, p);
    b :| R.Backs(s.heap.tiles, b, p, s.live[p]);
    BlockBounds(s.heap.tiles, s.heap.top, b);
  }

  lemma PayloadKept(s: R.State, maxHeap: nat, m: seq<Word>, m': seq<Word>, p: nat, q: nat, fill: Byte)
    requires R.Good(s, maxHeap) && q in s.live && q != p
    requires UsedKept(m, m', s.heap.tiles, p) && FilledAt(m, q, s.live[q], fill)
    ensures FilledAt(m', q, s.live[q], fill)
  {
    var b := PayloadOf(s, maxHeap, q);
    assert Kept(m, m', b);
    KeptBytes(m, m', b);
  }

  lemma AllKept(s: R.State, maxHeap: nat, m: seq<Word>, m': seq<Word>, p: nat, fill: map<nat, Byte>)
    requires R.Good(s, maxHeap) && AllFilled(m, s.live, fill, p) && UsedKept(m, m', s.heap.tiles, p)
    ensures AllFilled(m', s.live, fill, p)
  {
    forall q | q in s.live && q != p
      ensures FilledAt(m', q, s.live[q], fill[q])
    {
      PayloadKept(s, maxHeap, m, m', p, q, fill[q]);
    }
  }

  /** The new block is filled. */
  method FillBlock(a: ExplicitList.Allocator, p: nat, size: nat, b: Byte, ghost s: R.State)
    requires a.Valid() && a.Heap() == s.heap && R.Good(s, a.mem.MaxHeap()) && p in s.live && s.live[p] == size
    modifies a.mem.words
    ensures a.Valid() && a.Heap() == s.heap
    ensures UsedKept(old(a.mem.words[..]), a.mem.words[..], s.heap.tiles, p) && FilledAt(a.mem.words[..], p, size, b)
  {
    ghost var block := PayloadOf(s, a.mem.MaxHeap(), p);
    ghost var m := a.mem.words[..];
    a.mem.Memset(p, b, size);
    StoreHarmless(m, a.mem.words[..], a.mem.brk, a.tiles, a.list, block, p, p + size);
  }

  lemma AllocatedFilled(s: R.State, t: R.State, maxHeap: nat, m: seq<Word>, m': seq<Word>, fill: map<nat, Byte>, p: nat, size: nat, b: Byte)
    requires R.Good(t, maxHeap) && p !in s.live && t.live == s.live[p := size]
    requires AllFilled(m, s.live, fill, 0) && 0 !in s.live
    requires UsedKept(m, m', t.heap.tiles, p) && FilledAt(m', p, size, b)
    ensures AllFilled(m', t.live, fill[p := b], 0)
  {
    assert AllFilled(m, t.live, fill, p);
    AllKept(t, maxHeap, m, m', p, fill);
  }

  lemma ZeroNotLive(s: R.State, maxHeap: nat)
    requires R.Good(s, maxHeap)
    ensures 0 !in s.live
  {
    if 0 in s.live {
      var b := PayloadOf(s, maxHeap, 0);
    }
  }

  /** An allocation, the new block filled with `b`. */
  method DoAllocate(a: ExplicitList.Allocator, size: Word, b: Byte, ghost s: R.State, ghost fill: map<nat, Byte>)
    returns (p: Option<nat>, ghost fill': map<nat, Byte>)
    requires Holds(a, s, fill) && size <= MAX_REQUEST
    modifies a`freeListRoot, a`freeListEnd, a`tiles, a`list, a.mem, a.mem.words
    ensures Holds(a, R.Step(s, R.Allocate(size), a.mem.MaxHeap()), fill')
    ensures p == ExplicitSpec.Malloc(s.heap, size, a.mem.MaxHeap()).1
    ensures fill' == if p == None then fill else fill[p.value := b]
  {
    ghost var max, m := a.mem.MaxHeap(), a.mem.words[..];
    ghost var t := R.Step(s, R.Allocate(size), max);
    fill' := fill;
    R.AllocateGood(s, size, max);
    ZeroNotLive(s, max);
    p := a.Malloc(size);
    AllKept(s, max, m, a.mem.words[..], 0, fill);
    if p != None {
      ghost var m1 := a.mem.words[..];
      FillBlock(a, p.value, size, b, t);
      AllocatedFilled(s, t, max, m1, a.mem.words[..], fill, p.value, size, b);
      fill' := fill[p.value := b];
    }
  }

  /** A release of a live address. */
  method DoFree(a: ExplicitList.Allocator, p: Word, ghost s: R.State, ghost fill: map<nat, Byte>)
    requires Holds(a, s, fill) && p in s.live
    modifies a`freeListRoot, a`freeListEnd, a`tiles, a`list, a.mem, a.mem.words
    ensures Holds(a, R.Step(s, R.Request.Free(p), a.mem.MaxHeap()), fill)
  {
    ghost var max, m := a.mem.MaxHeap(), a.mem.words[..];
    R.FreeGood(s, p, max);
    ZeroNotLive(s, max);
    ghost var i := R.LiveIndex(s.heap, s.live, p);
    a.Release(p, i);
    assert AllFilled(m, s.live, fill, p);
    AllKept(s, max, m, a.mem.words[..], p, fill);
  }

  /** The byte of each payload: the low byte of the number of the request that got it. */
  function Fills(rs: seq<R.Request>, maxHeap: nat): map<nat, Byte>
    decreases |rs|
  {
    if rs == [] then map[]
    else
      var n := |rs| - 1;
      var pre := Fills(rs[..n], maxHeap);
      match rs[n]
      case Allocate(size) =>
        var p := ExplicitSpec.Malloc(R.Run(rs[..n], maxHeap).heap, size, maxHeap).1;
        if p == None then pre else pre[p.value := n % 256]
      case Free(_) => pre
  }

  /** The state and the bytes after one more request. */
  lemma OneMore(rs: seq<R.Request>, n: nat, maxHeap: nat)
    requires n < |rs|
    ensures R.Run(rs[..n + 1], maxHeap) == R.Step(R.Run(rs[..n], maxHeap), rs[n], maxHeap)
    ensures Fills(rs[..n + 1], maxHeap) ==
            var fill := Fills(rs[..n], maxHeap);
            match rs[n]
            case Allocate(size) =>
              var p := ExplicitSpec.Malloc(R.Run(rs[..n], maxHeap).heap, size, maxHeap).1;
              if p == None then fill else fill[p.value := n % 256]
            case Free(_) => fill
  {
    assert rs[..n + 1][..n] == rs[..n];
  }

  /** One request; `live` holds the addresses in use. */
  method ServeOne(a: ExplicitList.Allocator, r: R.Request, b: Byte, live: set<nat>, ghost s: R.State, ghost fill: map<nat, Byte>)
    returns (live': set<nat>, ghost fill': map<nat, Byte>)
    requires Holds(a, s, fill) && live == s.live.Keys && (r.Allocate? ==> r.size <= MAX_REQUEST)
    modifies a`freeListRoot, a`freeListEnd, a`tiles, a`list, a.mem, a.mem.words
    ensures Holds(a, R.Step(s, r, a.mem.MaxHeap()), fill') && live' == R.Step(s, r, a.mem.MaxHeap()).live.Keys
    ensures fill' == match r
                     case Allocate(size) =>
                       var p := ExplicitSpec.Malloc(s.heap, size, a.mem.MaxHeap()).1;
                       if p == None then fill else fill[p.value := b]
                     case Free(_) => fill
  {
    live', fill' := live, fill;
    match r {
      case Allocate(size) =>
        var p;
        p, fill' := DoAllocate(a, size, b, s, fill);
        if p != None {
          live' := live + {p.value};
        }
      case Free(p) =>
        if p in live {
          ghost var block := PayloadOf(s, a.mem.MaxHeap(), p);
          DoFree(a, p, s, fill);
          live' := live - {p};
        }
    }
  }

  /**
   * The requests one after the other; request `n` fills its block with the low byte of `n`, and an address
   * that is not live is not freed. At the end each live payload still holds its byte.
   */
  method Serve(a: ExplicitList.Allocator, rs: seq<R.Request>)
    requires a.Valid() && a.Heap() == R.Init().heap && R.NoWrap(rs)
    modifies a`freeListRoot, a`freeListEnd, a`tiles, a`list, a.mem, a.mem.words
    ensures Holds(a, R.Run(rs, a.mem.MaxHeap()), Fills(rs, a.mem.MaxHeap()))
  {
    var live: set<nat> := {};
    ghost var fill := map[];
    for n := 0 to |rs|
      invariant Holds(a, R.Run(rs[..n], a.mem.MaxHeap()), fill) && fill == Fills(rs[..n], a.mem.MaxHeap())
      invariant live == R.Run(rs[..n], a.mem.MaxHeap()).live.Keys
    {
      ghost var max := a.mem.MaxHeap();
      OneMore(rs, n, max);
      assert rs[n] in rs;
      live, fill := ServeOne(a, rs[n], n % 256, live, R.Run(rs[..n], max), fill);
    }
    assert rs[..|rs|] == rs;
  }
}
