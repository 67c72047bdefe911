/** The first-fit allocator over boundary tags: `malloclab/mm-firstfit.c`. */
module FirstFit {
  import opened Words
  import opened Requests
  import opened MemLib
  import opened Blocks
  import opened BoundaryTags
  import opened FirstFitSpec
  import opened HeapCheck
  import FirstFitRuns

  /** What memory holds after `place` put a request of `need` doublewords into the free block `b`. */
  function PlacedTags(m: seq<Word>, b: Block, need: nat): seq<Word>
    requires b.at >= 1 && 2 * b.End() <= |m| + 1 <= 0x2000_0000 && 2 <= need <= b.len
  {
    var mid := Placed(b, need);
    if |mid| == 1 then WithTags(m, mid[0]) else WithTags(WithTags(m, mid[0]), mid[1])
  }

  lemma PlacedTagsWritten(m: seq<Word>, b: Block, need: nat)
    requires b.at >= 1 && 2 * b.End() <= |m| + 1 <= 0x2000_0000 && 2 <= need <= b.len
    ensures var m' := PlacedTags(m, b, need);
            SameOutside(m, m', b.at, b.End()) && forall c | c in Placed(b, need) :: Tagged(m', c)
  {
    var mid := Placed(b, need);
    TagsWritten(m, mid[0]);
    if |mid| == 2 {
      TagsWritten(WithTags(m, mid[0]), mid[1]);
    }
  }

  /** The free block `mid` together with those of its neighbours that are free. */
  function Joined(prev: Block, mid: Block, next: Block): Block {
    var at, before := if prev.kind == Free then prev.at else mid.at, if prev.kind == Free then prev.len else 0;
    Block(at, before + mid.len + if next.kind == Free then next.len else 0, Free)
  }

  /** Block `i`, or the epilogue after the last block. */
  ghost function After(bs: seq<Block>, top: nat, i: nat): Block {
    if i < |bs| then bs[i] else Block(top, 0, Used)
  }

  class Allocator {
    const mem: Memory
    var heapListp: nat
    ghost var blocks: seq<Block>

    constructor (mem: Memory)
      ensures this.mem == mem
    {
      this.mem := mem;
      heapListp := 0;
      blocks := [];
    }

    ghost function Heap(): Heap
      reads this, mem
    {
      FirstFitSpec.Heap(blocks, mem.brk / 8)
    }

    /** The blocks in `blocks` are what memory holds. */
    ghost predicate Tied()
      reads this, mem, mem.words
    {
      mem.Valid() && heapListp == 8 && Represents(mem.words[..], mem.brk, blocks)
    }

    ghost predicate Valid()
      reads this, mem, mem.words
    {
      Tied() && Legal(Heap())
    }

    // ---- coalesce ----

    /**
     * Memory holds `prev`, the free block `mid` at `bp`, and `next`, one after the other; the
     * epilogue is a used block of length 0.
     */
    ghost predicate Neighbours(bp: nat, prev: Block, mid: Block, next: Block)
      reads mem.words
    {
      && prev.End() == mid.at && mid.End() == next.at && bp == mid.Ptr()
      && mid.kind == Free && prev.kind != Lost && next.kind != Lost
      && HasHeader(mem, prev) && HasFooter(mem, prev) && HasHeader(mem, mid) && HasFooter(mem, mid) && HasHeader(mem, next)
      && (next.kind == Free ==> HasFooter(mem, next))
      && mem.words.Length < 0x2000_0000
    }

    /** `coalesce`: joins the free block at `bp` with its free neighbours. */
    method Coalesce(bp: nat, ghost prev: Block, ghost mid: Block, ghost next: Block) returns (r: nat)
      requires Neighbours(bp, prev, mid, next)
      modifies mem.words
      ensures mem.words[..] == WithTags(old(mem.words[..]), Joined(prev, mid, next))
      ensures r == Joined(prev, mid, next).Ptr()
    {
      var prevBp := PrevBlkp(mem, bp, prev);
      var prevFtrp := Ftrp(mem, prevBp, prev);
      var _, prevAlloc := GetTag(mem, prevFtrp, prev);
      var nextBp := NextBlkp(mem, bp, mid);
      var _, nextAlloc := GetTag(mem, nextBp - 4, next);
      if prevAlloc != 0 && nextAlloc != 0 {
        AlreadyTagged(mem.words[..], mid);
        r := bp;
      } else if prevAlloc != 0 && nextAlloc == 0 {
        r := JoinNext(bp, prev, mid, next);
      } else if prevAlloc == 0 && nextAlloc != 0 {
        r := JoinPrev(bp, prev, mid, next);
      } else {
        r := JoinBoth(bp, prev, mid, next);
      }
    }

    /** Case 2 of `coalesce`. */
    method JoinNext(bp: nat, ghost prev: Block, ghost mid: Block, ghost next: Block) returns (r: nat)
      requires Neighbours(bp, prev, mid, next) && prev.kind == Used && next.kind == Free
      modifies mem.words
      ensures mem.words[..] == WithTags(old(mem.words[..]), Joined(prev, mid, next))
      ensures r == Joined(prev, mid, next).Ptr()
    {
      var size, _ := GetTag(mem, bp - 4, mid);
      var nextBp := NextBlkp(mem, bp, mid);
      var nextSize, _ := GetTag(mem, nextBp - 4, next);
      PutTags(mem, bp, size + nextSize, Joined(prev, mid, next));
      r := bp;
    }

    /** Case 3 of `coalesce`. */
    method JoinPrev(bp: nat, ghost prev: Block, ghost mid: Block, ghost next: Block) returns (r: nat)
      requires Neighbours(bp, prev, mid, next) && prev.kind == Free && next.kind == Used
      modifies mem.words
      ensures mem.words[..] == WithTags(old(mem.words[..]), Joined(prev, mid, next))
      ensures r == Joined(prev, mid, next).Ptr()
    {
      var size, _ := GetTag(mem, bp - 4, mid);
      var prevBp := PrevBlkp(mem, bp, prev);
      var prevSize, _ := GetTag(mem, prevBp - 4, prev);
      size := size + prevSize;
      var ftrp := Ftrp(mem, bp, mid);
      PutTag(mem, ftrp, size, 2 * mid.End() - 2);
      prevBp := PrevBlkp(mem, bp, prev);
      PutTag(mem, prevBp - 4, size, 2 * prev.at - 1);
      r := PrevBlkp(mem, bp, prev);
    }

    /** Case 4 of `coalesce`. */
    method JoinBoth(bp: nat, ghost prev: Block, ghost mid: Block, ghost next: Block) returns (r: nat)
      requires Neighbours(bp, prev, mid, next) && prev.kind == Free && next.kind == Free
      modifies mem.words
      ensures mem.words[..] == WithTags(old(mem.words[..]), Joined(prev, mid, next))
      ensures r == Joined(prev, mid, next).Ptr()
    {
      var size, _ := GetTag(mem, bp - 4, mid);
      var prevBp := PrevBlkp(mem, bp, prev);
      var prevSize, _ := GetTag(mem, prevBp - 4, prev);
      var nextBp := NextBlkp(mem, bp, mid);
      var nextFtrp := Ftrp(mem, nextBp, next);
      var nextSize, _ := GetTag(mem, nextFtrp, next);
      size := size + prevSize + nextSize;
      PutTag(mem, prevBp - 4, size, 2 * prev.at - 1);
      nextBp := NextBlkp(mem, bp, mid);
      nextFtrp := Ftrp(mem, nextBp, next);
      PutTag(mem, nextFtrp, size, 2 * next.End() - 2);
      r := PrevBlkp(mem, bp, prev);
    }

    /** What the words around block `i` say about it and its two neighbours. */
    lemma BlockNeighbours(i: nat)
      requires Tied() && 1 <= i < |blocks| && blocks[i].kind == Free
      requires forall b | b in blocks :: b.kind != Lost
      ensures Neighbours(blocks[i].Ptr(), blocks[i - 1], blocks[i], After(blocks, mem.brk / 8, i + 1))
    {
      NextStart(blocks, mem.brk / 8, i);
      NextStart(blocks, mem.brk / 8, i - 1);
      assert Tagged(mem.words[..], blocks[i]) && Tagged(mem.words[..], blocks[i - 1]);
      if i + 1 < |blocks| {
        assert Tagged(mem.words[..], blocks[i + 1]);
      }
    }

    method CoalesceBlock(bp: nat, ghost i: nat) returns (r: nat)
      requires Tied() && LegalBut(Heap(), i) && bp == blocks[i].Ptr()
      modifies this`blocks, mem.words
      ensures Valid()
      ensures blocks == FirstFitSpec.Coalesce(old(blocks), i)
      ensures r == blocks[MergeLo(old(blocks), i)].Ptr()
      ensures UsedKept(old(mem.words[..]), mem.words[..], old(blocks), 0)
    {
      ghost var m0, bs, top := mem.words[..], blocks, mem.brk / 8;
      BlockNeighbours(i);
      MergedJoined(Heap(), i);
      r := Coalesce(bp, bs[i - 1], bs[i], After(bs, top, i + 1));
      CoalesceRepresents(m0, mem.words[..], mem.brk, bs, i);
      CoalesceKept(m0, mem.words[..], mem.brk, bs, i);
      blocks := FirstFitSpec.Coalesce(bs, i);
    }

    /** `place`: allocates `asize` bytes at the start of the free block at `bp`. */
    method PlaceTags(bp: nat, asize: Word, ghost b: Block)
      requires bp == b.Ptr() && Tagged(mem.words[..], b) && b.kind == Free
      requires asize % 8 == 0 && 16 <= asize <= 8 * b.len && mem.words.Length < 0x2000_0000
      modifies mem.words
      ensures mem.words[..] == PlacedTags(old(mem.words[..]), b, asize / 8)
    {
      ghost var mid := Placed(b, asize / 8);
      var csize, _ := GetTag(mem, bp - 4, b);
      if csize - asize >= 16 {
        PutTags(mem, bp, asize + 1, mid[0]);
        var rest := NextBlkp(mem, bp, mid[0]);
        PutTags(mem, rest, csize - asize, mid[1]);
      } else {
        PutTags(mem, bp, csize + 1, mid[0]);
      }
    }

    method Place(bp: nat, asize: Word, ghost i: nat)
      requires Valid() && i < |blocks| && bp == blocks[i].Ptr()
      requires asize % 8 == 0 && 16 <= asize && Fits(blocks[i], asize / 8)
      modifies this`blocks, mem.words
      ensures Valid()
      ensures blocks == FirstFitSpec.Place(old(blocks), i, asize / 8)
      ensures UsedKept(old(mem.words[..]), mem.words[..], old(blocks), 0)
    {
      ghost var m0, bs := mem.words[..], blocks;
      assert bs[i] in bs && i > 0;
      PlaceTags(bp, asize, bs[i]);
      PlaceRepresents(m0, mem.words[..], mem.brk, bs, i, asize / 8);
      PlaceKept(m0, mem.words[..], mem.brk, bs, i, asize / 8);
      blocks := FirstFitSpec.Place(bs, i, asize / 8);
    }

    // ---- extend_heap, find_fit ----

    /** Block `i` of the heap, or the epilogue, has its header in memory. */
    lemma HeaderOf(i: nat)
      requires Valid() && i <= |blocks|
      ensures HasHeader(mem, After(blocks, mem.brk / 8, i))
      ensures i < |blocks| ==> HasFooter(mem, blocks[i])
      ensures After(blocks, mem.brk / 8, i).at == Start(blocks, mem.brk / 8, i)
    {
      if i < |blocks| {
        assert Tagged(mem.words[..], blocks[i]);
      }
    }

    /** The part of `extend_heap` before coalescing: a free block of `size` bytes and a new epilogue. */
    method AppendBlock(size: Word, ghost n: nat) returns (r: Option<nat>)
      requires Tied() && size == 8 * n && n >= 2
      modifies this`blocks, mem, mem.words
      ensures UsedKept(old(mem.words[..]), mem.words[..], old(blocks), 0) && Tied()
      ensures if mem.MaxHeap() < old(mem.brk) + size
              then r == None && blocks == old(blocks) && mem.brk == old(mem.brk) && mem.words[..] == old(mem.words[..])
              else && r == Some(old(mem.brk)) && mem.brk == old(mem.brk) + size
                   && blocks == old(blocks) + [Block(old(mem.brk) / 8, n, Free)]
    {
      ghost var m0, bs, b := mem.words[..], blocks, Block(mem.brk / 8, n, Free);
      AllKept();
      var p := mem.Sbrk(ToInt(size));
      if p == None {
        return None;
      }
      PutNewBlock(mem, p.value, size, b);
      NewBlockWritten(m0, b);
      ExtendRepresents(m0, mem.words[..], 8 * b.at, bs, b);
      blocks := bs + [b];
      return p;
    }

    lemma AllKept()
      requires Tied()
      ensures UsedKept(mem.words[..], mem.words[..], blocks, 0)
    {
      forall b | b in blocks
        ensures Kept(mem.words[..], mem.words[..], b)
      {
        BlockBounds(blocks, mem.brk / 8, b);
      }
    }

    /** `extend_heap` from the call of `mem_sbrk` on. */
    method ExtendBy(size: Word, ghost n: nat) returns (r: Option<nat>)
      requires Valid() && size == 8 * n && n >= 2
      modifies this`blocks, mem, mem.words
      ensures Valid()
      ensures UsedKept(old(mem.words[..]), mem.words[..], old(blocks), 0)
      ensures Extended(old(Heap()), n, r) && (r == None ==> mem.words[..] == old(mem.words[..]))
    {
      ghost var h, m0 := Heap(), mem.words[..];
      AppendLegalBut(h, n);
      r := AppendBlock(size, n);
      if r != None {
        UsedAppend(h.blocks, Block(h.top, n, Free));
        var bp := CoalesceLast(r.value, h.blocks, m0);
        r := Some(bp);
      }
    }

    method CoalesceLast(bp: nat, ghost bs: seq<Block>, ghost m0: seq<Word>) returns (r: nat)
      requires Tied() && LegalBut(Heap(), |bs|) && bp == blocks[|bs|].Ptr() && LastMerged(blocks, |bs|)
      requires UsedSet(bs) <= UsedSet(blocks) && UsedKept(m0, mem.words[..], bs, 0)
      modifies this`blocks, mem.words
      ensures Valid() && blocks == FirstFitSpec.Coalesce(old(blocks), |bs|)
      ensures r == blocks[|blocks| - 1].Ptr() && UsedKept(m0, mem.words[..], bs, 0)
    {
      ghost var m1, bs1 := mem.words[..], blocks;
      r := CoalesceBlock(bp, |bs|);
      KeptTwice(m0, m1, mem.words[..], bs, bs1);
    }

    /** `h` was to grow by `n` doublewords: it did, and `r` is its last block, or the break cannot move that far. */
    ghost predicate Extended(h: Heap, n: nat, r: Option<nat>)
      requires |h.blocks| > 0
      reads this, mem
    {
      if mem.MaxHeap() < 8 * (h.top + n)
      then r == None && Heap() == h
      else Heap() == Extend(h, n) && r == Some(blocks[|blocks| - 1].Ptr())
    }

    /** `extend_heap`: `None` when `mem_sbrk` refuses; the heap grows by an even number of words. */
    method ExtendHeap(words: Word, ghost n: nat) returns (r: Option<nat>)
      requires Valid() && 4 <= words < 0x3FFF_FFFF && (words == 2 * n || words + 1 == 2 * n)
      modifies this`blocks, mem, mem.words
      ensures Valid()
      ensures UsedKept(old(mem.words[..]), mem.words[..], old(blocks), 0)
      ensures Extended(old(Heap()), n, r) && (r == None ==> mem.words[..] == old(mem.words[..]))
    {
      var size: Word := if words % 2 != 0 then (words + 1) * 4 else words * 4;
      assert size == 8 * n;
      r := ExtendBy(size, n);
    }

    /** `find_fit`: the first free block of at least `asize` bytes. */
    method FindFit(asize: Word, ghost need: nat) returns (r: Option<nat>, ghost i: nat)
      requires Valid() && asize == 8 * need
      ensures i == FirstFit(blocks, need, 0)
      ensures var k := FirstFit(blocks, need, 0); r == if k < |blocks| then Some(blocks[k].Ptr()) else None
    {
      var bp := heapListp;
      i := 0;
      HeaderOf(0);
      var size, alloc := GetTag(mem, bp - 4, blocks[0]);
      while size > 0
        invariant 0 <= i <= |blocks|
        invariant bp == After(blocks, mem.brk / 8, i).Ptr()
        invariant size == 8 * After(blocks, mem.brk / 8, i).len
        invariant alloc != 0 <==> After(blocks, mem.brk / 8, i).kind == Used
        invariant FirstFit(blocks, need, 0) == FirstFit(blocks, need, i)
        decreases |blocks| - i
      {
        assert blocks[i] in blocks;
        if alloc == 0 && asize <= size {
          return Some(bp), i;
        }
        NextStart(blocks, mem.brk / 8, i);
        HeaderOf(i);
        bp := NextBlkp(mem, bp, blocks[i]);
        i := i + 1;
        HeaderOf(i);
        size, alloc := GetTag(mem, bp - 4, After(blocks, mem.brk / 8, i));
      }
      assert i == |blocks| by {
        assert forall k | 0 <= k < |blocks| :: blocks[k].len > 0;
      }
      return None, i;
    }

    // ---- The interface ----

    /** The part of `mm_init` that writes the prologue and the first epilogue. */
    method WritePrologue()
      requires mem.Valid() && mem.brk == 0 && 16 <= mem.MaxHeap()
      modifies this, mem, mem.words
      ensures Valid() && Heap() == InitialHeap()
    {
      var p := mem.Sbrk(16);
      heapListp := p.value;
      PutTag(mem, heapListp, 0, 0);
      PutTag(mem, heapListp + 4, 8 + 1, 1);
      PutTag(mem, heapListp + 8, 8 + 1, 2);
      PutTag(mem, heapListp + 12, 0 + 1, 3);
      heapListp := heapListp + 8;
      blocks := [PROLOGUE];
    }

    /** `mm_init` on an empty heap. */
    method Init() returns (r: int)
      requires mem.Valid() && mem.brk == 0 && 16 <= mem.MaxHeap()
      modifies this, mem, mem.words
      ensures Valid()
      ensures Heap() == FirstFitRuns.Init(mem.MaxHeap()).heap
      ensures r == if 16 + CHUNKSIZE <= mem.MaxHeap() then 0 else -1
    {
      WritePrologue();
      var bp := ExtendHeap(4096 / 4, 512);
      return if bp == None then -1 else 0;
    }

    /** `mm_malloc`: `None` stands for NULL. */
    method Malloc(size: Word) returns (r: Option<nat>)
      requires Valid() && size <= MAX_REQUEST
      modifies this`blocks, mem, mem.words
      ensures Valid()
      ensures (Heap(), r) == Allocate(old(Heap()), size, mem.MaxHeap())
      ensures UsedKept(old(mem.words[..]), mem.words[..], old(blocks), 0)
      ensures r == None ==> mem.words[..] == old(mem.words[..])
    {
      if size == 0 {
        return None;
      }
      var asize, need := Adjust(size);
      ghost var i;
      r, i := FindFit(asize, need);
      if r != None {
        Place(r.value, asize, i);
        return;
      }
      r := MallocByGrowing(asize, need);
    }

    method MallocByGrowing(asize: Word, ghost need: nat) returns (r: Option<nat>)
      requires Valid() && asize == 8 * need && need >= 2
      modifies this`blocks, mem, mem.words
      ensures Valid()
      ensures (Heap(), r) == AllocateNew(old(Heap()), need, mem.MaxHeap())
      ensures UsedKept(old(mem.words[..]), mem.words[..], old(blocks), 0)
      ensures r == None ==> mem.words[..] == old(mem.words[..])
    {
      var extendsize := if asize > 4096 then asize else 4096;
      ghost var h, m0 := Heap(), mem.words[..];
      ghost var ext: nat := if need > 512 then need else 512;
      r := GrowBy(extendsize, ext);
      NewBlockOf(h, need, ext, mem.MaxHeap());
      if r != None {
        PlaceGrown(r.value, asize, need, h, m0);
      }
    }

    method GrowBy(extendsize: Word, ghost ext: nat) returns (r: Option<nat>)
      requires Valid() && extendsize == 8 * ext && ext >= 2
      modifies this`blocks, mem, mem.words
      ensures Valid()
      ensures UsedKept(old(mem.words[..]), mem.words[..], old(blocks), 0)
      ensures Extended(old(Heap()), ext, r) && (r == None ==> mem.words[..] == old(mem.words[..]))
    {
      var words: Word := extendsize / 4;
      assert words == 2 * ext;
      r := ExtendHeap(words, ext);
    }

    method PlaceGrown(bp: nat, asize: Word, ghost need: nat, ghost h: Heap, ghost m0: seq<Word>)
      requires Valid() && |blocks| > 0 && bp == blocks[|blocks| - 1].Ptr()
      requires asize == 8 * need && need >= 2 && Fits(blocks[|blocks| - 1], need)
      requires UsedKept(m0, mem.words[..], h.blocks, 0) && UsedSet(h.blocks) <= UsedSet(blocks)
      modifies this`blocks, mem.words
      ensures Valid() && blocks == FirstFitSpec.Place(old(blocks), |old(blocks)| - 1, need)
      ensures UsedKept(m0, mem.words[..], h.blocks, 0)
    {
      ghost var m1, bs1 := mem.words[..], blocks;
      PlaceLast(bp, asize, need);
      KeptTwice(m0, m1, mem.words[..], h.blocks, bs1);
    }

    method PlaceLast(bp: nat, asize: Word, ghost need: nat)
      requires Valid() && |blocks| > 0 && bp == blocks[|blocks| - 1].Ptr()
      requires asize == 8 * need && need >= 2 && Fits(blocks[|blocks| - 1], need)
      modifies this`blocks, mem.words
      ensures Valid() && blocks == FirstFitSpec.Place(old(blocks), |old(blocks)| - 1, need)
      ensures UsedKept(old(mem.words[..]), mem.words[..], old(blocks), 0)
    {
      assert asize / 8 == need;
      Place(bp, asize, |blocks| - 1);
    }

    /** `mm_free`. */
    method Release(bp: nat)
      requires Valid() && Allocated(blocks, bp)
      modifies this`blocks, mem.words
      ensures Valid()
      ensures Heap() == FirstFitSpec.Release(old(Heap()), bp)
      ensures UsedKept(old(mem.words[..]), mem.words[..], old(blocks), bp)
    {
      ghost var h := Heap();
      ghost var i := FirstFitRuns.IndexOfLive(h, bp);
      ghost var m0, bs := mem.words[..], blocks;
      HeaderOf(i);
      var size, _ := GetTag(mem, bp - 4, bs[i]);
      ghost var b := bs[i].(kind := Free);
      PutTags(mem, bp, size, b);
      ClearRepresents(m0, mem.words[..], mem.brk, bs, i);
      ClearKept(m0, mem.words[..], mem.brk, bs, i);
      blocks := bs[i := b];
      ghost var m1 := mem.words[..];
      var _ := CoalesceBlock(bp, i);
      KeptAfterClear(m0, m1, mem.words[..], h, i, bs[i := b]);
    }

    /** `mm_realloc`; `None` stands for the exit after a failed `mm_malloc`. */
    method Realloc(ptr: nat, size: Word) returns (r: Option<nat>)
      requires Valid() && size <= MAX_REQUEST && Allocated(blocks, ptr)
      modifies this`blocks, mem, mem.words
      ensures Valid()
      ensures var (g, q) := Allocate(old(Heap()), size, mem.MaxHeap());
              r == q && Heap() == if q == None then g else FirstFitSpec.Release(g, ptr)
      ensures r == None ==> mem.words[..] == old(mem.words[..])
      ensures UsedKept(old(mem.words[..]), mem.words[..], old(blocks), ptr)
      ensures var n := Min(size, PayloadSize(old(blocks), ptr));
              r != None ==> ptr + n <= mem.MaxHeap() && r.value + n <= mem.MaxHeap()
                            && Copied(old(mem.words[..]), mem.words[..], r.value, ptr, n)
    {
      ghost var h, m0 := Heap(), mem.words[..];
      ghost var b := FirstFitRuns.ReleaseLive(h, ptr);
      ghost var nb := FirstFitRuns.AllocateLegal(h, size, mem.MaxHeap());
      r := Malloc(size);
      if r == None {
        return;
      }
      ghost var m1, bs1 := mem.words[..], blocks;
      assert b in UsedSet(bs1) && nb in UsedSet(bs1);
      assert b.at > 0 && Kept(m0, m1, b);
      ghost var n := CopyPayload(r.value, ptr, size, b, nb);
      ghost var m2 := mem.words[..];
      Release(ptr);
      assert Kept(m2, mem.words[..], nb);
      ReallocKept(m0, m1, m2, mem.words[..], h.blocks, bs1, b, nb);
      ReallocCopied(h, m0, m1, m2, mem.words[..], b, nb, size, n);
    }

    /** The `memcpy` of `mm_realloc`, which counts the old header and footer as data. */
    method CopyPayload(newp: nat, ptr: nat, size: Word, ghost b: Block, ghost nb: Block) returns (ghost n: nat)
      requires Valid() && b in blocks && nb in blocks && b != nb
      requires ptr == b.Ptr() && newp == nb.Ptr() && size + 8 <= 8 * nb.len
      modifies mem.words
      ensures Valid()
      ensures n == Min(size, 8 * b.len) && b.Ptr() + n <= 4 * mem.words.Length && nb.Ptr() + n <= 8 * nb.End() - 8 <= 4 * mem.words.Length
      ensures newp != ptr && Copied(old(mem.words[..]), mem.words[..], newp, ptr, n)
      ensures forall c | c in blocks && c != nb :: Kept(old(mem.words[..]), mem.words[..], c)
    {
      ghost var m1 := mem.words[..];
      BlocksApart(blocks, mem.brk / 8, b, nb);
      BlockHasHeader(b);
      BlockHasHeader(nb);
      var copySize, _ := GetTag(mem, ptr - 4, b);
      if size < copySize {
        copySize := size;
      }
      mem.Memcpy(newp, ptr, copySize);
      n := copySize;
      PayloadWritten(m1, mem.words[..], mem.brk, blocks, nb, newp, newp + copySize);
    }

    // ---- mm_checkheap ----

    lemma BlockHasHeader(b: Block)
      requires Valid() && b in blocks
      ensures HasHeader(mem, b) && HasFooter(mem, b)
    {
      assert Tagged(mem.words[..], b);
    }

    /** `checkblock` of the block whose header is word `ix`: the number of errors it prints. */
    method CheckBlock(bp: nat, ghost ix: nat) returns (errors: nat)
      requires bp == 4 * (ix + 1) && ix < mem.words.Length && 0 <= FooterIndex(mem.words[..], ix) < mem.words.Length
      ensures errors == BlockErrors(mem.words[..], ix)
    {
      errors := if bp % 8 != 0 then 1 else 0;
      FooterAddress(mem.words[..], ix);
      var size, _ := GetFields(bp - 4, ix);
      var header := ReadWord(bp - 4, ix);
      var footer := ReadWord(bp + size - 8, FooterIndex(mem.words[..], ix));
      if header != footer {
        errors := errors + 1;
      }
    }

    /** `GET` of word `ix`. */
    method ReadWord(p: nat, ghost ix: nat) returns (w: Word)
      requires p == 4 * ix && ix < mem.words.Length
      ensures w == mem.words[ix]
    {
      mem.WordAt(ix);
      w := mem.Get(p);
    }

    /** The size and alloc fields of word `ix`. */
    method GetFields(p: nat, ghost ix: nat) returns (size: nat, alloc: nat)
      requires p == 4 * ix && ix < mem.words.Length
      ensures size == SizeField(mem.words[ix]) && alloc == AllocField(mem.words[ix])
    {
      mem.WordAt(ix);
      var w := mem.Get(p);
      return SizeField(w), AllocField(w);
    }

    /** The header where the walk stands. */
    method ReadHeader(bp: nat, ghost bs: seq<Block>, ghost i: nat) returns (size: nat, alloc: nat)
      requires Chain(mem.words[..], bs) && i <= |bs| && bp == 8 * EndOf(bs[..i])
      ensures Standing(mem.words[..], bs, i, bp, size, alloc)
    {
      WalkAt(mem.words[..], bs, i);
      size, alloc := GetFields(bp - 4, 2 * EndOf(bs[..i]) - 1);
    }

    /** One round of the loop of `mm_checkheap`, at block `i`. */
    method CheckNext(bp: nat, size: nat, ghost alloc: nat, ghost bs: seq<Block>, ghost i: nat) returns (e: nat, next: nat)
      requires Chain(mem.words[..], bs) && i < |bs| && Standing(mem.words[..], bs, i, bp, size, alloc)
      ensures next == 8 * EndOf(bs[..i + 1]) && TagErrors(mem.words[..], bs[..i + 1]) == TagErrors(mem.words[..], bs[..i]) + e
    {
      WalkAt(mem.words[..], bs, i);
      NextChecked(mem.words[..], bs, i);
      e := CheckBlock(bp, 2 * bs[i].at - 1);
      next := bp + size;
    }

    /** The loop of `mm_checkheap`, and the header it ends at. */
    method CheckBlocks(ghost bs: seq<Block>) returns (errors: nat, ghost bp: nat, size: nat, alloc: nat)
      requires heapListp == 8 && Chain(mem.words[..], bs)
      ensures errors == TagErrors(mem.words[..], bs[..|bs|]) && Standing(mem.words[..], bs, |bs|, bp, size, alloc)
    {
      var p := heapListp;
      errors := 0;
      ghost var i := 0;
      size, alloc := ReadHeader(p, bs, 0);
      while size > 0
        invariant 0 <= i <= |bs| && Standing(mem.words[..], bs, i, p, size, alloc)
        invariant errors == TagErrors(mem.words[..], bs[..i])
        decreases |bs| - i
      {
        var e;
        e, p := CheckNext(p, size, alloc, bs, i);
        errors := errors + e;
        i := i + 1;
        size, alloc := ReadHeader(p, bs, i);
      }
      bp := p;
    }

    /** `mm_checkheap`: the number of errors it prints, on any heap whose headers lead to an epilogue. */
    method CheckHeap(ghost bs: seq<Block>) returns (errors: nat)
      requires heapListp == 8 && Chain(mem.words[..], bs)
      ensures errors == Errors(mem.words[..], bs)
    {
      FirstChecked(mem.words[..], bs);
      var size, alloc := GetFields(heapListp - 4, 1);
      var first := if size != 8 || alloc == 0 then 1 else 0;
      var e := CheckBlock(heapListp, 1);
      ghost var bp;
      errors, bp, size, alloc := CheckBlocks(bs);
      errors := first + e + errors;
      AllChecked(mem.words[..], bs, bp, size, alloc, first, e, errors);
      if size != 0 || alloc == 0 {
        errors := errors + 1;
      }
    }

    /** On a valid heap nothing is reported. */
    lemma ValidNoErrors()
      requires Valid()
      ensures Chain(mem.words[..], blocks) && Errors(mem.words[..], blocks) == 0
    {
      RepresentedNoErrors(mem.words[..], mem.brk, blocks);
    }
  }

  // ---- Payloads ----

  function Min(a: nat, b: nat): nat {
    if a < b then a else b
  }

  /** The copy of `mm_realloc` leaves the old payload exactly when the new size exceeds it. */
  lemma CopyPassesPayloadIff(b: Block, size: nat)
    requires b.len >= 1
    ensures Min(size, 8 * b.len) > 8 * b.len - 8 <==> size > 8 * b.len - 8
  {
  }

  /** So it does when the block of a first request for 8 bytes is to hold 9. */
  lemma CopyPassesPayload(maxHeap: nat)
    requires 16 + CHUNKSIZE <= maxHeap
    ensures var bs := FirstFitRuns.Run(FirstFitRuns.Init(maxHeap), [FirstFitRuns.Malloc(8)], maxHeap).heap.blocks;
            |bs| == 3 && bs[1].Ptr() == 16 && PayloadSize(bs, 16) == 8 && Min(9, 8 * bs[1].len) == 9
  {
    var h := FirstFitSpec.Heap([PROLOGUE, Block(2, 512, Free)], 514);
    assert FirstFitRuns.Init(maxHeap).heap == h;
    assert AdjustSize(8) / 8 == 2 && FirstFitSpec.FirstFit(h.blocks, 2, 0) == 1;
    var rs := [FirstFitRuns.Malloc(8)];
    assert rs[..0] == [];
    assert FirstFitRuns.Run(FirstFitRuns.Init(maxHeap), rs, maxHeap).heap.blocks == [PROLOGUE, Block(2, 2, Used), Block(4, 510, Free)];
  }

  /** The payload bytes of the block at address `p`. */
  ghost function PayloadSize(bs: seq<Block>, p: nat): nat {
    var i := IndexOf(bs, p / 8);
    if i < |bs| && bs[i].len >= 1 then 8 * bs[i].len - 8 else 0
  }

  /** A store into the payload of `b` leaves the block list and every other block as they were. */
  lemma PayloadWritten(m: seq<Word>, m': seq<Word>, brk: nat, bs: seq<Block>, b: Block, lo: nat, hi: nat)
    requires Represents(m, brk, bs) && Legal(FirstFitSpec.Heap(bs, brk / 8)) && b in bs
    requires OnlyBytes(m, m', lo, hi) && b.Ptr() <= lo <= hi <= 8 * b.End() - 8
    ensures Represents(m', brk, bs)
    ensures forall c | c in bs && c != b :: Kept(m, m', c)
  {
    forall w | 0 <= w < |m| && !(2 * b.at <= w < 2 * b.End() - 2)
      ensures m'[w] == m[w]
    {
      WordsOfBytes(m, m', lo, hi, w);
    }
    forall c | c in bs
      ensures Tagged(m', c) && (c != b ==> Kept(m, m', c))
    {
      assert Tagged(m, c);
      if c != b {
        BlocksApart(bs, brk / 8, b, c);
      }
    }
    BlockBounds(bs, brk / 8, b);
  }

  lemma ReallocKept(m0: seq<Word>, m1: seq<Word>, m2: seq<Word>, m3: seq<Word>, bs: seq<Block>, bs1: seq<Block>, b: Block, nb: Block)
    requires UsedKept(m0, m1, bs, 0) && UsedKept(m2, m3, bs1, b.Ptr())
    requires forall c | c in bs1 && c != nb :: Kept(m1, m2, c)
    requires UsedSet(bs1) == UsedSet(bs) + {nb} && nb !in UsedSet(bs)
    requires forall c | c in bs :: c.at > 0
    ensures UsedKept(m0, m3, bs, b.Ptr())
  {
  }

  lemma ReallocCopied(h: Heap, m0: seq<Word>, m1: seq<Word>, m2: seq<Word>, m3: seq<Word>, b: Block, nb: Block, size: nat, n: nat)
    requires Legal(h) && b in h.blocks && b.at > 0 && nb.len >= 1
    requires Kept(m0, m1, b) && Kept(m2, m3, nb)
    requires n == Min(size, 8 * b.len) && nb.Ptr() + n <= 8 * nb.End() - 8
    requires b.Ptr() + n <= 4 * |m1| && nb.Ptr() + n <= 4 * |m2| && Copied(m1, m2, nb.Ptr(), b.Ptr(), n)
    ensures var k := Min(size, PayloadSize(h.blocks, b.Ptr()));
            && k <= n && b.Ptr() + k <= 4 * |m0| && nb.Ptr() + k <= 4 * |m3|
            && Copied(m0, m3, nb.Ptr(), b.Ptr(), k)
  {
    var i :| 0 <= i < |h.blocks| && h.blocks[i] == b;
    IndexOfBlock(h.blocks, h.top, i);
    KeptBytes(m0, m1, b);
    KeptBytes(m2, m3, nb);
  }

  lemma KeptAfterClear(m: seq<Word>, m1: seq<Word>, m2: seq<Word>, h: Heap, i: nat, bs1: seq<Block>)
    requires Legal(h) && 1 <= i < |h.blocks|
    requires UsedKept(m, m1, h.blocks, h.blocks[i].Ptr()) && UsedKept(m1, m2, bs1, 0)
    requires UsedSet(bs1) == UsedSet(h.blocks) - {h.blocks[i]}
    ensures UsedKept(m, m2, h.blocks, h.blocks[i].Ptr())
  {
    AllOrdered(h.blocks, h.top);
    assert forall b | b in h.blocks :: b.at > 0;
  }

  /** The block that block `i` is merged into is the last one. */
  ghost predicate LastMerged(bs: seq<Block>, i: nat) {
    1 <= i < |bs| && |FirstFitSpec.Coalesce(bs, i)| == MergeLo(bs, i) + 1
  }

  /** What `AllocateNew` comes to, whether the heap can grow or not. */
  lemma NewBlockOf(h: Heap, need: nat, ext: nat, maxHeap: nat)
    requires Legal(h) && need >= 2 && ext == if need > CHUNKSIZE / 8 then need else CHUNKSIZE / 8
    ensures if maxHeap < 8 * (h.top + ext) then AllocateNew(h, need, maxHeap) == (h, None)
            else var g := Extend(h, ext); var n := |g.blocks|;
                 && n > 0 && Fits(g.blocks[n - 1], need) && UsedSet(h.blocks) <= UsedSet(g.blocks)
                 && AllocateNew(h, need, maxHeap) == (FirstFitSpec.Heap(FirstFitSpec.Place(g.blocks, n - 1, need), g.top), Some(g.blocks[n - 1].Ptr()))
  {
    if 8 * (h.top + ext) <= maxHeap {
      AllocateNewGrows(h, need, ext, maxHeap);
    }
  }

  lemma UsedAppend(bs: seq<Block>, b: Block)
    ensures UsedSet(bs) <= UsedSet(bs + [b])
  {
  }

  lemma AppendLegalBut(h: Heap, n: nat)
    requires Legal(h) && n >= 2
    ensures LegalBut(FirstFitSpec.Heap(h.blocks + [Block(h.top, n, Free)], h.top + n), |h.blocks|)
    ensures LastMerged(h.blocks + [Block(h.top, n, Free)], |h.blocks|)
  {
    var bs := h.blocks + [Block(h.top, n, Free)];
    forall k | 0 <= k < |bs| - 1
      ensures bs[k + 1].at == bs[k].End()
      ensures k != |h.blocks| - 1 && bs[k].kind == Free ==> bs[k + 1].kind != Free
    {
      if k + 1 < |h.blocks| {
        assert bs[k] == h.blocks[k] && bs[k + 1] == h.blocks[k + 1];
      }
    }
  }

  lemma ClearRepresents(m: seq<Word>, m': seq<Word>, brk: nat, bs: seq<Block>, i: nat)
    requires Represents(m, brk, bs) && Legal(FirstFitSpec.Heap(bs, brk / 8)) && |m| < 0x2000_0000
    requires 1 <= i < |bs| && bs[i].at >= 1 && 2 * bs[i].End() <= |m| + 1
    requires bs[i].len >= 1 && m' == WithTags(m, bs[i].(kind := Free))
    ensures Represents(m', brk, bs[i := bs[i].(kind := Free)])
    ensures LegalBut(FirstFitSpec.Heap(bs[i := bs[i].(kind := Free)], brk / 8), i)
    ensures UsedSet(bs[i := bs[i].(kind := Free)]) == UsedSet(bs) - {bs[i]}
  {
    var b := bs[i].(kind := Free);
    TagsWritten(m, b);
    NextStart(bs, brk / 8, i);
    ClearTiling(FirstFitSpec.Heap(bs, brk / 8), i);
    ClearUsed(FirstFitSpec.Heap(bs, brk / 8), i);
    SpliceOne(bs, i, b);
    SpliceRepresents(m, m', brk, bs, i, [b], i + 1);
  }

  lemma MergedJoined(h: Heap, i: nat)
    requires LegalBut(h, i)
    ensures var b := Merged(h.blocks, MergeLo(h.blocks, i), MergeHi(h.blocks, i));
            && b == Joined(h.blocks[i - 1], h.blocks[i], After(h.blocks, h.top, i + 1))
            && b.at >= 1 && b.len >= 2 && b.End() <= h.top
            && FirstFitSpec.Coalesce(h.blocks, i)[MergeLo(h.blocks, i)] == b
  {
    MergedRun(h, i);
    NextStart(h.blocks, h.top, MergeHi(h.blocks, i) - 1);
    AllOrdered(h.blocks, h.top);
  }

  /** Block `i` was freed, and the tags of the block it is merged into were written. */
  ghost predicate MergeWritten(m: seq<Word>, m': seq<Word>, brk: nat, bs: seq<Block>, i: nat) {
    LegalBut(FirstFitSpec.Heap(bs, brk / 8), i) && |m| < 0x2000_0000
    && var b := Merged(bs, MergeLo(bs, i), MergeHi(bs, i));
       b.at >= 1 && b.len >= 2 && 2 * b.End() <= |m| + 1 && b.End() <= brk / 8 && m' == WithTags(m, b)
  }

  lemma CoalesceRepresents(m: seq<Word>, m': seq<Word>, brk: nat, bs: seq<Block>, i: nat)
    requires Represents(m, brk, bs) && MergeWritten(m, m', brk, bs, i)
    ensures Represents(m', brk, FirstFitSpec.Coalesce(bs, i))
    ensures Legal(FirstFitSpec.Heap(FirstFitSpec.Coalesce(bs, i), brk / 8))
  {
    var lo, hi := MergeLo(bs, i), MergeHi(bs, i);
    var h := FirstFitSpec.Heap(bs, brk / 8);
    MergedRun(h, i);
    CoalesceLegal(h, i);
    TagsWritten(m, Merged(bs, lo, hi));
    SpliceRepresents(m, m', brk, bs, lo, [Merged(bs, lo, hi)], hi);
  }

  lemma PlaceRepresents(m: seq<Word>, m': seq<Word>, brk: nat, bs: seq<Block>, i: nat, need: nat)
    requires Represents(m, brk, bs) && Legal(FirstFitSpec.Heap(bs, brk / 8)) && |m| < 0x2000_0000
    requires i < |bs| && Fits(bs[i], need) && need >= 2
    requires 2 * bs[i].End() <= |m| + 1 && bs[i].at >= 1 && m' == PlacedTags(m, bs[i], need)
    ensures Represents(m', brk, FirstFitSpec.Place(bs, i, need))
    ensures Legal(FirstFitSpec.Heap(FirstFitSpec.Place(bs, i, need), brk / 8))
  {
    PlacedTagsWritten(m, bs[i], need);
    PlacedRun(bs[i], need);
    NextStart(bs, brk / 8, i);
    PlaceLegal(FirstFitSpec.Heap(bs, brk / 8), i, need);
    assert i > 0;
    SpliceRepresents(m, m', brk, bs, i, Placed(bs[i], need), i + 1);
  }

  /** Writing the tags of the merged block touches nothing outside it, and no used block lies inside. */
  lemma MergedOutside(m: seq<Word>, m': seq<Word>, brk: nat, bs: seq<Block>, i: nat)
    requires MergeWritten(m, m', brk, bs, i)
    ensures var lo, hi := MergeLo(bs, i), MergeHi(bs, i);
            && lo >= 1 && SameOutside(m, m', bs[lo].at, Start(bs, brk / 8, hi))
            && forall k | lo <= k < hi :: bs[k].kind != Used
  {
    MergedRun(FirstFitSpec.Heap(bs, brk / 8), i);
    TagsWritten(m, Merged(bs, MergeLo(bs, i), MergeHi(bs, i)));
  }

  lemma CoalesceKept(m: seq<Word>, m': seq<Word>, brk: nat, bs: seq<Block>, i: nat)
    requires Represents(m, brk, bs) && MergeWritten(m, m', brk, bs, i)
    ensures UsedKept(m, m', bs, 0)
  {
    MergedOutside(m, m', brk, bs, i);
    SpliceKept(m, m', brk, bs, MergeLo(bs, i), MergeHi(bs, i), 0);
  }

  lemma PlaceKept(m: seq<Word>, m': seq<Word>, brk: nat, bs: seq<Block>, i: nat, need: nat)
    requires Represents(m, brk, bs) && |m| < 0x2000_0000 && 1 <= i < |bs| && Fits(bs[i], need) && need >= 2
    requires 2 * bs[i].End() <= |m| + 1 && bs[i].at >= 1 && m' == PlacedTags(m, bs[i], need)
    ensures UsedKept(m, m', bs, 0)
  {
    PlacedTagsWritten(m, bs[i], need);
    NextStart(bs, brk / 8, i);
    SpliceKept(m, m', brk, bs, i, i + 1, 0);
  }

  lemma ClearKept(m: seq<Word>, m': seq<Word>, brk: nat, bs: seq<Block>, i: nat)
    requires Represents(m, brk, bs) && |m| < 0x2000_0000
    requires 1 <= i < |bs| && bs[i].at >= 1 && 2 * bs[i].End() <= |m| + 1
    requires bs[i].len >= 1 && m' == WithTags(m, bs[i].(kind := Free))
    ensures UsedKept(m, m', bs, bs[i].Ptr())
  {
    TagsWritten(m, bs[i].(kind := Free));
    NextStart(bs, brk / 8, i);
    SpliceKept(m, m', brk, bs, i, i + 1, bs[i].Ptr());
  }
}
