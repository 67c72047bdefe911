/** The allocator of `malloclab/mm.c`: an explicit free list sorted by size, kept inside the free blocks. */
module ExplicitList {
  import opened Words
  import opened Requests
  import opened MemLib
  import opened Blocks
  import opened BoundaryTags
  import opened FreeLists
  import opened Links
  import opened ExplicitSpec
  import ExplicitRuns

  /** `PACK` of this allocator, which rounds the size up first. */
  function Pack(size: Word, alloc: nat): Word
    requires size <= 0xFFFF_FFF8 && alloc < 2
  {
    (size + 7) / 8 * 8 + alloc
  }

  lemma PackMultiple(size: Word, alloc: nat)
    requires size % 8 == 0 && size <= 0xFFFF_FFF8 && alloc < 2
    ensures Pack(size, alloc) == size + alloc
  {
  }

  class Allocator {
    const mem: Memory
    var heapListp: nat
    var freeListRoot: Word
    var freeListEnd: Word
    ghost var tiles: seq<Block>
    ghost var list: seq<Block>

    constructor (mem: Memory)
      ensures this.mem == mem
    {
      this.mem := mem;
      heapListp, freeListRoot, freeListEnd := 0, 0, 0;
      tiles, list := [], [];
    }

    ghost function Heap(): Heap
      reads this, mem
    {
      ExplicitSpec.Heap(tiles, mem.brk / 8, list)
    }

    /** The root and end pointers; 0 is NULL. */
    ghost predicate Ends()
      reads this
    {
      freeListRoot == FirstPtr(list) && freeListEnd == LastPtr(list)
    }

    /** Memory holds the tiles, and the list in memory holds some of the free ones. */
    ghost predicate Tied()
      reads this, mem, mem.words
    {
      mem.Valid() && Ends() && ListIn(mem.words[..], mem.brk, tiles, list)
    }

    ghost predicate Valid()
      reads this, mem, mem.words
    {
      heapListp == 8 && Tied() && Legal(Heap())
    }

    // ---- Reading ----

    lemma InMemory(b: Block)
      requires Tied() && b in tiles && b.kind != Lost
      ensures HasHeader(mem, b) && HasFooter(mem, b) && b.Ptr() < 0x8000_0000
      ensures b.kind == Free ==> 2 * b.at + 1 < mem.words.Length
    {
      assert Tagged(mem.words[..], b);
    }

    lemma Listed(k: nat)
      requires Tied() && k < |list|
      ensures list[k] in tiles && list[k].kind == Free && HasHeader(mem, list[k]) && HasFooter(mem, list[k])
      ensures list[k].Ptr() < 0x8000_0000 && 2 * list[k].at + 1 < mem.words.Length && list[k].at >= 2
    {
      assert list[k] in list;
      InMemory(list[k]);
      BlockBounds(tiles, mem.brk / 8, list[k]);
    }

    /** Everything `find_fit` reads: the chain and the headers of the listed blocks. */
    ghost predicate Walkable()
      reads this, mem, mem.words
    {
      && Linked(mem.words[..], list)
      && forall b | b in list :: b.at >= 2 && b.Ptr() < 0x8000_0000 && HasHeader(mem, b)
    }

    lemma TiedWalkable()
      requires Tied()
      ensures Walkable()
    {
      forall b | b in list
        ensures b.at >= 2 && b.Ptr() < 0x8000_0000 && HasHeader(mem, b)
      {
        InMemory(b);
        BlockBounds(tiles, mem.brk / 8, b);
      }
    }

    /** `find_fit` from block `k` of the list on, when the last block is long enough. */
    method FindFit(size: Word, bp: Word, ghost k: nat) returns (r: Word)
      requires Walkable() && k < |list| && bp == list[k].Ptr() && size % 8 == 0
      requires size <= 8 * list[|list| - 1].len
      ensures FirstLong(list, size / 8, k) < |list| && r == list[FirstLong(list, size / 8, k)].Ptr()
      decreases |list| - k
    {
      r := bp;
      if bp == 0 {
        return;
      }
      assert list[k] in list;
      var n, _ := GetTag(mem, bp - 4, list[k]);
      if size <= n {
        return;
      }
      var next := NextPtr(mem, bp, list[k]);
      assert next == list[k + 1].Ptr() && list[k + 1] in list;
      r := FindFit(size, next, k + 1);
    }

    // ---- add_free_block ----

    lemma JoinsAtEnd(b: Block)
      requires list != [] && CanJoin(mem.words[..], list, b)
      ensures 2 * b.at + 1 < mem.words.Length && 2 * list[0].at + 1 < mem.words.Length
      ensures 2 * list[|list| - 1].at + 1 < mem.words.Length < 0x2000_0000
    {
    }

    lemma JoinsBetween(k: nat, b: Block)
      requires 0 < k < |list| && CanJoin(mem.words[..], list, b)
      ensures var prev, next := list[k - 1], list[k];
              && 2 * b.at + 1 < mem.words.Length < 0x2000_0000 && 2 * prev.at + 1 < mem.words.Length && 2 * next.at + 1 < mem.words.Length
              && mem.words[2 * next.at + 1] == prev.Ptr() && b.at != next.at && b.at != prev.at
    {
    }

    /** The last case of `add_free_block`: the block goes between two others. */
    method AddMiddle(bp: Word, size: Word, ghost b: Block)
      requires Ends() && Walkable() && list != [] && bp == b.Ptr() && size == 8 * b.len && CanJoin(mem.words[..], list, b)
      requires list[0].len < b.len < list[|list| - 1].len
      modifies mem.words
      ensures mem.words[..] == AddWrites(old(mem.words[..]), list, b)
    {
      var place := FindFit(size, freeListRoot, 0);
      LinkAt(bp, place, FirstLong(list, b.len, 0), b);
    }

    method LinkAt(bp: Word, place: Word, ghost k: nat, ghost b: Block)
      requires k == FirstLong(list, b.len, 0) < |list| && bp == b.Ptr() && place == list[k].Ptr()
      requires CanJoin(mem.words[..], list, b) && list[0].len < b.len < list[|list| - 1].len
      modifies mem.words
      ensures mem.words[..] == AddWrites(old(mem.words[..]), list, b)
    {
      AddWritesMiddle(mem.words[..], list, b);
      JoinsBetween(k, b);
      LinkBetween(mem, bp, place, list[k - 1], list[k], b);
    }

    /** The pointer writes of `add_free_block` to a list that is not empty. */
    method WriteAddTo(bp: Word, size: Word, first: Word, last: Word, ghost b: Block)
      requires Ends() && Walkable() && list != [] && bp == b.Ptr() && CanJoin(mem.words[..], list, b)
      requires size == 8 * b.len && first == 8 * list[0].len && last == 8 * list[|list| - 1].len
      modifies this`freeListRoot, this`freeListEnd, mem.words
      ensures mem.words[..] == AddWrites(old(mem.words[..]), list, b)
      ensures freeListRoot == FirstPtr(Add(list, b)) && freeListEnd == LastPtr(Add(list, b))
    {
      AddEnds(list, b);
      JoinsAtEnd(b);
      if size <= first {
        LinkBefore(mem, bp, freeListRoot, b, list[0]);
        freeListRoot := bp;
      } else if size >= last {
        LinkAfter(mem, bp, freeListEnd, b, list[|list| - 1]);
        freeListEnd := bp;
      } else {
        AddMiddle(bp, size, b);
      }
    }

    /** The pointer writes of `add_free_block`. */
    method WriteAdd(bp: Word, ghost b: Block)
      requires Tied() && bp == b.Ptr() && b in tiles && b.kind == Free && CanJoin(mem.words[..], list, b)
      modifies this`freeListRoot, this`freeListEnd, mem.words
      ensures mem.words[..] == AddWrites(old(mem.words[..]), list, b)
      ensures freeListRoot == FirstPtr(Add(list, b)) && freeListEnd == LastPtr(Add(list, b))
    {
      if freeListRoot == 0 && freeListEnd == 0 {
        EmptyList();
        AddEnds(list, b);
        freeListRoot, freeListEnd := bp, bp;
      } else {
        var size, first, last := Sizes(bp, b);
        TiedWalkable();
        WriteAddTo(bp, size, first, last, b);
      }
    }

    /** `add_free_block`. */
    method AddFreeBlock(bp: Word, ghost b: Block)
      requires Tied() && bp == b.Ptr() && b in tiles && b.kind == Free && b !in list
      modifies this`freeListRoot, this`freeListEnd, this`list, mem.words
      ensures Tied() && list == Add(old(list), b)
      ensures UsedKept(old(mem.words[..]), mem.words[..], tiles, 0)
    {
      MayJoin(mem.words[..], mem.brk, tiles, list, b);
      AddJoined(mem.words[..], mem.brk, tiles, list, b);
      WriteAdd(bp, b);
      list := Add(list, b);
    }

    lemma EmptyList()
      requires Tied() && freeListRoot == 0
      ensures list == []
    {
      if list != [] {
        Listed(0);
      }
    }

    lemma UsedUnchanged()
      requires Tied()
      ensures UsedKept(mem.words[..], mem.words[..], tiles, 0)
    {
      forall b | b in tiles
        ensures Kept(mem.words[..], mem.words[..], b)
      {
        BlockBounds(tiles, mem.brk / 8, b);
      }
    }

    /** The sizes of a block and of both ends of the list. */
    method Sizes(bp: Word, ghost b: Block) returns (size: Word, first: Word, last: Word)
      requires Tied() && list != [] && bp == b.Ptr() && b in tiles && b.kind == Free
      ensures size == 8 * b.len && first == 8 * list[0].len && last == 8 * list[|list| - 1].len
    {
      InMemory(b);
      BlockBounds(tiles, mem.brk / 8, b);
      Listed(0);
      Listed(|list| - 1);
      var n, _ := GetTag(mem, bp - 4, b);
      var f, _ := GetTag(mem, freeListRoot - 4, list[0]);
      var l, _ := GetTag(mem, freeListEnd - 4, list[|list| - 1]);
      return n, f, l;
    }

    // ---- remove_free_block ----

    /** The pointer tests of `remove_free_block` tell where block `k` stands. */
    ghost predicate Located(k: nat)
      requires k < |list|
      reads this
    {
      && (freeListRoot == freeListEnd <==> |list| == 1)
      && (freeListRoot == list[k].Ptr() <==> k == 0)
      && (freeListEnd == list[k].Ptr() <==> k == |list| - 1)
    }

    lemma PositionOf(k: nat)
      requires Tied() && k < |list|
      ensures Located(k)
    {
      ListDistinct(mem.words[..], mem.brk, tiles, list);
    }

    /** What the pointers around block `k` are. */
    ghost predicate Around(k: nat)
      requires k < |list|
      reads this, mem.words
    {
      && 2 * list[k].at + 1 < mem.words.Length < 0x2000_0000
      && (k > 0 ==> 2 * list[k - 1].at + 1 < mem.words.Length && mem.words[2 * list[k].at + 1] == list[k - 1].Ptr() && list[k].at != list[k - 1].at)
      && (k + 1 < |list| ==> 2 * list[k + 1].at + 1 < mem.words.Length && mem.words[2 * list[k].at] == list[k + 1].Ptr() && list[k].at != list[k + 1].at)
    }

    lemma LinksAround(k: nat)
      requires Tied() && k < |list|
      ensures Around(k)
    {
      ListDistinct(mem.words[..], mem.brk, tiles, list);
    }

    /** The pointer writes of `remove_free_block` of block `k` of the list. */
    method WriteRemove(bp: Word, ghost k: nat)
      requires k < |list| && bp == list[k].Ptr() && Linked(mem.words[..], list)
      requires Ends() && Located(k) && Around(k)
      modifies this`freeListRoot, this`freeListEnd, mem.words
      ensures mem.words[..] == RemoveWrites(old(mem.words[..]), list, k)
      ensures freeListRoot == FirstPtr(RemoveAt(list, k)) && freeListEnd == LastPtr(RemoveAt(list, k))
    {
      RemovePtrs(list, k);
      if freeListRoot == freeListEnd {
        freeListRoot, freeListEnd := 0, 0;
      } else if freeListRoot == bp {
        freeListRoot := NextPtr(mem, bp, list[k]);
        ClearPrev(mem, bp, list[k], list[1]);
      } else if freeListEnd == bp {
        freeListEnd := PrevPtr(mem, bp, list[k]);
        ClearNext(mem, bp, list[k], list[k - 1]);
      } else {
        Unlink(mem, bp, list[k - 1], list[k + 1], list[k]);
      }
    }

    method Unthread(bp: Word, ghost k: nat)
      requires Tied() && k < |list| && bp == list[k].Ptr()
      modifies this`freeListRoot, this`freeListEnd, mem.words
      ensures mem.words[..] == RemoveWrites(old(mem.words[..]), list, k)
      ensures freeListRoot == FirstPtr(RemoveAt(list, k)) && freeListEnd == LastPtr(RemoveAt(list, k))
    {
      PositionOf(k);
      LinksAround(k);
      WriteRemove(bp, k);
    }

    /** `remove_free_block` of block `k` of the list. */
    method RemoveFreeBlock(bp: Word, ghost k: nat)
      requires Tied() && k < |list| && bp == list[k].Ptr()
      modifies this`freeListRoot, this`freeListEnd, this`list, mem.words
      ensures Tied() && list == RemoveAt(old(list), k)
      ensures UsedKept(old(mem.words[..]), mem.words[..], tiles, 0)
    {
      RemoveLeft(mem.words[..], mem.brk, tiles, list, k);
      Unthread(bp, k);
      list := RemoveAt(list, k);
    }

    // ---- The interface ----

    /** `mm_init` on an empty heap. */
    method Init() returns (r: int)
      requires mem.Valid() && mem.brk == 0
      modifies this, mem, mem.words
      ensures r == if 16 <= mem.MaxHeap() then 0 else -1
      ensures r == 0 ==> Valid() && Heap() == ExplicitRuns.Init().heap
    {
      var p := mem.Sbrk(16);
      if p == None {
        return -1;
      }
      heapListp := p.value;
      PutTag(mem, heapListp, 0, 0);
      PutTag(mem, heapListp + 4, Pack(8, 1), 1);
      PutTag(mem, heapListp + 8, Pack(8, 1), 2);
      PutTag(mem, heapListp + 12, Pack(0, 1), 3);
      heapListp := heapListp + 8;
      freeListRoot, freeListEnd := 0, 0;
      tiles, list := [PROLOGUE], [];
      return 0;
    }

    /** The tags `mm_malloc` writes into a block from the list; `rest` is the remainder, or 0. */
    method PutPieces(bp: Word, asize: Word, ghost b: Block, ghost need: nat) returns (rest: Word)
      requires bp == b.Ptr() && b.at >= 1 && 2 * b.End() <= mem.words.Length + 1 && mem.words.Length < 0x2000_0000
      requires HasHeader(mem, b) && b.kind == Free && asize == 8 * need && 2 <= need <= b.len
      modifies mem.words
      ensures mem.words[..] == PiecesTags(old(mem.words[..]), b, need)
      ensures rest == if b.len - need >= 2 then Pieces(b, need)[1].Ptr() else 0
    {
      ghost var mid := Pieces(b, need);
      var csize, _ := GetTag(mem, bp - 4, b);
      PackMultiple(asize, 1);
      PutTags(mem, bp, Pack(asize, 1), mid[0]);
      rest := 0;
      if csize - asize >= 16 {
        PackMultiple(csize - asize, 0);
        rest := NextBlkp(mem, bp, mid[0]);
        PutTags(mem, rest, Pack(csize - asize, 0), mid[1]);
      }
    }

    /** The block leaves the list and its tags are rewritten; `rest` is the remainder, or 0. */
    method CutBlock(bp: Word, asize: Word, ghost k: nat, ghost i: nat, ghost need: nat) returns (rest: Word)
      requires Tied() && k < |list| && bp == list[k].Ptr() && asize == 8 * need && 2 <= need <= list[k].len
      requires 1 <= i < |tiles| && tiles[i] == list[k]
      modifies this`freeListRoot, this`freeListEnd, this`tiles, this`list, mem.words
      ensures Tied() && list == RemoveAt(old(list), k)
      ensures tiles == Splice(old(tiles), i, Pieces(old(tiles)[i], need), i + 1)
      ensures UsedKept(old(mem.words[..]), mem.words[..], old(tiles), 0)
      ensures rest == if old(tiles)[i].len - need >= 2 then Pieces(old(tiles)[i], need)[1].Ptr() else 0
    {
      ghost var b, bs := tiles[i], tiles;
      ghost var m0 := mem.words[..];
      RemoveMembers(list, k);
      RemoveFreeBlock(bp, k);
      ghost var m1 := mem.words[..];
      InMemory(b);
      rest := PutPieces(bp, asize, b, need);
      PiecesListIn(m1, mem.words[..], mem.brk, bs, list, i, need);
      PiecesKept(m1, mem.words[..], mem.brk, bs, i, need);
      KeptTwice(m0, m1, mem.words[..], bs, bs);
      tiles := Splice(bs, i, Pieces(b, need), i + 1);
    }

    /** The branch of `mm_malloc` that takes block `k` of the list. */
    method TakeBlock(bp: Word, asize: Word, ghost k: nat)
      requires Valid() && k < |list| && bp == list[k].Ptr() && asize % 8 == 0 && 16 <= asize <= 8 * list[k].len
      modifies this`freeListRoot, this`freeListEnd, this`tiles, this`list, mem.words
      ensures Valid() && Heap() == TakeFrom(old(Heap()), k, asize / 8)
      ensures UsedKept(old(mem.words[..]), mem.words[..], old(tiles), 0)
    {
      ghost var h, need: nat := Heap(), asize / 8;
      TakeLegal(h, k, need);
      ghost var i := MayTake(k, need);
      TakeTied(bp, asize, k, i, need);
      assert Heap() == TakeFrom(h, k, need);
    }

    lemma MayTake(k: nat, need: nat) returns (i: nat)
      requires Legal(Heap()) && k < |list| && 2 <= need <= list[k].len
      ensures 1 <= i < |tiles| && tiles[i] == list[k] && RemainderJoins(k, i, need)
      ensures TakeFrom(Heap(), k, need).tiles == Splice(tiles, i, Pieces(tiles[i], need), i + 1)
      ensures TakeFrom(Heap(), k, need).list == var rest := RemoveAt(list, k);
                                                if tiles[i].len - need >= 2 then Add(rest, Pieces(tiles[i], need)[1]) else rest
    {
      i := TileIndex(tiles, mem.brk / 8, list[k]);
      if list[k].len - need >= 2 {
        RemainderIsNew(Heap(), k, need);
      }
    }

    /** The remainder of block `k` of the list, tile `i`, can join the list. */
    ghost predicate RemainderJoins(k: nat, i: nat, need: nat)
      requires k < |list| && i < |tiles| && need <= tiles[i].len
      reads this
    {
      tiles[i].len - need >= 2 ==>
        var mid := Pieces(tiles[i], need);
        && mid[1].kind == Free && mid[1] !in RemoveAt(list, k) && mid[1] in Splice(tiles, i, mid, i + 1)
        && UsedBut(tiles, Splice(tiles, i, mid, i + 1), 0)
    }

    method TakeTied(bp: Word, asize: Word, ghost k: nat, ghost i: nat, ghost need: nat)
      requires Tied() && k < |list| && bp == list[k].Ptr() && asize == 8 * need && 2 <= need <= list[k].len
      requires 1 <= i < |tiles| && tiles[i] == list[k] && RemainderJoins(k, i, need)
      modifies this`freeListRoot, this`freeListEnd, this`tiles, this`list, mem.words
      ensures Tied() && tiles == Splice(old(tiles), i, Pieces(old(tiles)[i], need), i + 1)
      ensures list == var rest := RemoveAt(old(list), k);
                      if old(tiles)[i].len - need >= 2 then Add(rest, Pieces(old(tiles)[i], need)[1]) else rest
      ensures UsedKept(old(mem.words[..]), mem.words[..], old(tiles), 0)
    {
      ghost var b, bs, m0 := tiles[i], tiles, mem.words[..];
      var rest := CutBlock(bp, asize, k, i, need);
      if rest != 0 {
        AddNew(rest, Pieces(b, need)[1], bs, m0, 0);
      }
    }

    /** The branch of `mm_malloc` that asks for more memory. */
    method GrowBlock(asize: Word, ghost need: nat) returns (r: Option<nat>)
      requires Valid() && asize == 8 * need && 16 <= asize <= 0xFFFF_FFF8
      modifies this`tiles, mem, mem.words
      ensures Valid()
      ensures UsedKept(old(mem.words[..]), mem.words[..], old(tiles), 0)
      ensures mem.MaxHeap() < old(mem.brk) + asize ==> r == None && Heap() == old(Heap()) && mem.words[..] == old(mem.words[..])
      ensures old(mem.brk) + asize <= mem.MaxHeap() ==>
                && r == Some(old(mem.brk)) && list == old(list) && mem.brk == old(mem.brk) + asize
                && tiles == old(tiles) + [Block(old(mem.brk) / 8, need, Used)]
    {
      ExtendLegal(Heap(), need);
      r := GrowTied(asize, need);
    }

    method GrowTied(asize: Word, ghost need: nat) returns (r: Option<nat>)
      requires Tied() && asize == 8 * need && 16 <= asize <= 0xFFFF_FFF8
      modifies this`tiles, mem, mem.words
      ensures Tied() && UsedKept(old(mem.words[..]), mem.words[..], old(tiles), 0)
      ensures if mem.MaxHeap() < old(mem.brk) + asize then
                r == None && tiles == old(tiles) && mem.brk == old(mem.brk) && mem.words[..] == old(mem.words[..])
              else
                r == Some(old(mem.brk)) && mem.brk == old(mem.brk) + asize && tiles == old(tiles) + [Block(old(mem.brk) / 8, need, Used)]
    {
      UsedUnchanged();
      ghost var m0, b := mem.words[..], Block(mem.brk / 8, need, Used);
      var p := mem.Sbrk(ToInt(asize));
      if p == None {
        return None;
      }
      PackMultiple(asize, 1);
      PutNewBlock(mem, p.value, Pack(asize, 1), b);
      NewBlockWritten(m0, b);
      GrownListIn(m0, mem.words[..], 8 * b.at, tiles, list, b);
      tiles := tiles + [b];
      return p;
    }

    /** `mm_malloc`: `None` stands for NULL. */
    method Malloc(size: Word) returns (r: Option<nat>)
      requires Valid() && size <= MAX_REQUEST
      modifies this`freeListRoot, this`freeListEnd, this`tiles, this`list, mem, mem.words
      ensures Valid()
      ensures Heap() == ExplicitSpec.Malloc(old(Heap()), size, mem.MaxHeap()).0
      ensures r == ExplicitSpec.Malloc(old(Heap()), size, mem.MaxHeap()).1
      ensures UsedKept(old(mem.words[..]), mem.words[..], old(tiles), 0)
      ensures r == None ==> mem.words[..] == old(mem.words[..])
    {
      UsedUnchanged();
      if size == 0 {
        return None;
      }
      var asize, need := Adjust(size);
      r := MallocAdjusted(asize, need);
    }

    /** `mm_malloc` once the size is adjusted. */
    method MallocAdjusted(asize: Word, ghost need: nat) returns (r: Option<nat>)
      requires Valid() && asize == 8 * need && 16 <= asize <= 0xFFFF_FFF8
      modifies this`freeListRoot, this`freeListEnd, this`tiles, this`list, mem, mem.words
      ensures Valid()
      ensures var h := old(Heap());
              if InRange(h.list, need) then
                Heap() == TakeFrom(h, Pick(h.list, need), need) && r == Some(h.list[Pick(h.list, need)].Ptr())
              else if 8 * (h.top + need) > mem.MaxHeap() then
                Heap() == h && r == None && mem.words[..] == old(mem.words[..])
              else
                Heap() == ExplicitSpec.Heap(h.tiles + [Block(h.top, need, Used)], h.top + need, h.list) && r == Some(8 * h.top)
      ensures UsedKept(old(mem.words[..]), mem.words[..], old(tiles), 0)
    {
      assert need == asize / 8;
      var bp, k := Search(asize);
      if bp != 0 {
        PickSmallest(list, need);
        TakeBlock(bp, asize, k);
        return Some(bp);
      }
      r := GrowBlock(asize, need);
    }

    /** The test and the choice `mm_malloc` makes on the list; 0 when it does not use the list. */
    method Search(asize: Word) returns (bp: Word, ghost k: nat)
      requires Tied() && asize % 8 == 0
      ensures bp != 0 <==> InRange(list, asize / 8)
      ensures bp != 0 ==> k == Pick(list, asize / 8) && bp == list[k].Ptr()
    {
      bp, k := 0, 0;
      if freeListRoot != 0 && freeListEnd != 0 {
        TiedWalkable();
        bp := SearchList(asize, asize / 8);
        k := if InRange(list, asize / 8) then Pick(list, asize / 8) else 0;
      } else {
        EmptyList();
      }
    }

    method SearchList(asize: Word, ghost need: nat) returns (bp: Word)
      requires Ends() && Walkable() && list != [] && asize == 8 * need
      ensures if InRange(list, need) then bp == list[Pick(list, need)].Ptr() && bp != 0 else bp == 0
    {
      assert list[0] in list && list[|list| - 1] in list;
      var first, _ := GetTag(mem, freeListRoot - 4, list[0]);
      var last, _ := GetTag(mem, freeListEnd - 4, list[|list| - 1]);
      if asize >= first && asize <= last {
        assert list[Pick(list, need)] in list;
        bp := Choose(asize, first, last, need);
      } else {
        bp := 0;
      }
    }

    /** The block among those of the list, when the size is between its ends. */
    method Choose(asize: Word, first: Word, last: Word, ghost need: nat) returns (bp: Word)
      requires Ends() && Walkable() && asize == 8 * need && InRange(list, need)
      requires first == 8 * list[0].len && last == 8 * list[|list| - 1].len
      ensures bp == list[Pick(list, need)].Ptr()
    {
      if asize == first {
        bp := freeListRoot;
      } else if asize == last {
        bp := freeListEnd;
      } else {
        bp := FindFit(asize, freeListRoot, 0);
      }
    }

    /** `coalesce`: its range test never holds, so it returns its argument. */
    method Coalesce(bp: nat) returns (r: nat)
      requires 8 <= bp && bp % 8 == 0 && bp / 4 - 1 < mem.words.Length && 16 <= mem.brk
      ensures r == bp
    {
      var prev := bp - SizeField(mem.Get(bp - 8));
      var next := bp + SizeField(mem.Get(bp - 4));
      var heapBoundary := bp >= mem.HeapHi() && bp < mem.HeapLo();
      if heapBoundary {
        assert false;  // the branches that join blocks
      }
      return bp;
    }

    /** The first half of `mm_free`: the tags of tile `i` say that it is free. */
    method ClearBlock(bp: Word, ghost i: nat)
      requires Tied() && 1 <= i < |tiles| && tiles[i].kind == Used && bp == tiles[i].Ptr()
      modifies this`tiles, mem.words
      ensures Tied() && tiles == old(tiles)[i := old(tiles)[i].(kind := Free)]
      ensures UsedKept(old(mem.words[..]), mem.words[..], old(tiles), bp)
    {
      ghost var m0, b := mem.words[..], tiles[i].(kind := Free);
      TileInMemory(i);
      var size, _ := GetTag(mem, bp - 4, tiles[i]);
      PackMultiple(size, 0);
      PutTags(mem, bp, Pack(size, 0), b);
      ClearedListIn(m0, mem.words[..], mem.brk, tiles, list, i);
      ClearedKept(m0, mem.words[..], mem.brk, tiles, i);
      tiles := tiles[i := b];
    }

    lemma TileInMemory(i: nat)
      requires Tied() && 1 <= i < |tiles| && tiles[i].kind == Used
      ensures HasHeader(mem, tiles[i]) && 2 * tiles[i].End() <= mem.words.Length + 1 && mem.words.Length < 0x2000_0000
      ensures tiles[i].at >= 2 && tiles[i].len >= 2 && 16 <= mem.brk
    {
      InMemory(tiles[i]);
      AllOrdered(tiles, mem.brk / 8);
      assert Sized(tiles[i]);
    }

    /** `mm_free`. */
    method Release(bp: Word, ghost i: nat)
      requires Valid() && 1 <= i < |tiles| && tiles[i].kind == Used && bp == tiles[i].Ptr()
      modifies this`freeListRoot, this`freeListEnd, this`tiles, this`list, mem.words
      ensures Valid() && Heap() == ExplicitSpec.Release(old(Heap()), bp)
      ensures UsedKept(old(mem.words[..]), mem.words[..], old(tiles), bp)
    {
      ghost var h := Heap();
      Released(h, i);
      OthersStay(h, i);
      ReleaseTied(bp, i);
      assert Heap() == ExplicitSpec.Release(h, bp);
    }

    method ReleaseTied(bp: Word, ghost i: nat)
      requires Tied() && 1 <= i < |tiles| && tiles[i].kind == Used && bp == tiles[i].Ptr()
      requires var b := tiles[i].(kind := Free); b !in list && b in tiles[i := b] && UsedBut(tiles, tiles[i := b], bp)
      modifies this`freeListRoot, this`freeListEnd, this`tiles, this`list, mem.words
      ensures Tied()
      ensures var b := old(tiles)[i].(kind := Free); tiles == old(tiles)[i := b] && list == Add(old(list), b)
      ensures UsedKept(old(mem.words[..]), mem.words[..], old(tiles), bp)
    {
      ghost var bs, m0 := tiles, mem.words[..];
      TileInMemory(i);
      ClearBlock(bp, i);
      var r := Coalesce(bp);
      AddNew(r, bs[i].(kind := Free), bs, m0, bp);
    }

    /** A free tile joins the list after earlier steps that kept the used blocks of `bs` but the one at `p`. */
    method AddNew(bp: Word, ghost b: Block, ghost bs: seq<Block>, ghost m0: seq<Word>, ghost p: nat)
      requires Tied() && bp == b.Ptr() && b in tiles && b.kind == Free && b !in list
      requires UsedBut(bs, tiles, p) && UsedKept(m0, mem.words[..], bs, p)
      modifies this`freeListRoot, this`freeListEnd, this`list, mem.words
      ensures Tied() && list == Add(old(list), b) && UsedKept(m0, mem.words[..], bs, p)
    {
      ghost var m1 := mem.words[..];
      AddFreeBlock(bp, b);
      KeptOn(m0, m1, mem.words[..], bs, tiles, p);
    }
  }

  /** Every used block of `bs`, but the one at `p`, is a used block of `cs`. */
  ghost predicate UsedBut(bs: seq<Block>, cs: seq<Block>, p: nat) {
    forall b | b in UsedSet(bs) && b.Ptr() != p :: b in UsedSet(cs)
  }

  lemma KeptOn(m0: seq<Word>, m1: seq<Word>, m2: seq<Word>, bs: seq<Block>, cs: seq<Block>, p: nat)
    requires UsedKept(m0, m1, bs, p) && UsedKept(m1, m2, cs, 0) && UsedBut(bs, cs, p)
    ensures UsedKept(m0, m2, bs, p)
  {
  }

  lemma OthersStay(h: Heap, i: nat)
    requires Legal(h) && 1 <= i < |h.tiles| && h.tiles[i].kind == Used
    ensures UsedBut(h.tiles, h.tiles[i := h.tiles[i].(kind := Free)], h.tiles[i].Ptr())
  {
    ClearTiles(h.tiles, h.top, i);
  }

  // ---- The memory behind the interface ----

  /** Memory after the tags of the pieces of `b` are written; a lost doubleword gets none. */
  ghost function PiecesTags(m: seq<Word>, b: Block, need: nat): seq<Word>
    requires b.at >= 1 && 2 * b.End() <= |m| + 1 <= 0x2000_0000 && 2 <= need <= b.len
  {
    var mid := Pieces(b, need);
    if b.len - need >= 2 then WithTags(WithTags(m, mid[0]), mid[1]) else WithTags(m, mid[0])
  }

  lemma PiecesWritten(m: seq<Word>, b: Block, need: nat)
    requires b.at >= 1 && 2 * b.End() <= |m| + 1 <= 0x2000_0000 && 2 <= need <= b.len
    ensures var m' := PiecesTags(m, b, need);
            SameOutside(m, m', b.at, b.End()) && forall c | c in Pieces(b, need) && c.kind != Lost :: Tagged(m', c)
  {
    var mid := Pieces(b, need);
    TagsWritten(m, mid[0]);
    if b.len - need >= 2 {
      TagsWritten(WithTags(m, mid[0]), mid[1]);
    }
  }

  /** Rewriting one tile that is not listed keeps the list and every other tile. */
  lemma SpliceListIn(m: seq<Word>, m': seq<Word>, brk: nat, tiles: seq<Block>, list: seq<Block>, i: nat, mid: seq<Block>)
    requires ListIn(m, brk, tiles, list) && 1 <= i < |tiles| && tiles[i] !in list
    requires Run(mid, tiles[i].at, tiles[i].End()) && SameOutside(m, m', tiles[i].at, tiles[i].End())
    requires forall b | b in mid && b.kind != Lost :: Tagged(m', b)
    ensures ListIn(m', brk, Splice(tiles, i, mid, i + 1), list)
  {
    NextStart(tiles, brk / 8, i);
    SpliceRepresents(m, m', brk, tiles, i, mid, i + 1);
    ReplaceTile(tiles, brk / 8, i, mid);
    forall b | b in list
      ensures b.at + 2 <= tiles[i].at || tiles[i].End() <= b.at
    {
      BlocksApart(tiles, brk / 8, b, tiles[i]);
      BlockBounds(tiles, brk / 8, b);
    }
    BlockBounds(tiles, brk / 8, tiles[i]);
    LinkedOutside(m, m', list, tiles[i].at, tiles[i].End());
  }

  lemma PiecesListIn(m: seq<Word>, m': seq<Word>, brk: nat, tiles: seq<Block>, list: seq<Block>, i: nat, need: nat)
    requires ListIn(m, brk, tiles, list) && 1 <= i < |tiles| && tiles[i] !in list && tiles[i].kind == Free
    requires tiles[i].at >= 1 && 2 * tiles[i].End() <= |m| + 1 && 2 <= need <= tiles[i].len
    requires m' == PiecesTags(m, tiles[i], need)
    ensures ListIn(m', brk, Splice(tiles, i, Pieces(tiles[i], need), i + 1), list)
  {
    PiecesWritten(m, tiles[i], need);
    PiecesRun(tiles[i], need);
    SpliceListIn(m, m', brk, tiles, list, i, Pieces(tiles[i], need));
  }

  lemma PiecesKept(m: seq<Word>, m': seq<Word>, brk: nat, tiles: seq<Block>, i: nat, need: nat)
    requires Represents(m, brk, tiles) && |m| < 0x2000_0000 && 1 <= i < |tiles| && tiles[i].kind == Free
    requires tiles[i].at >= 1 && 2 * tiles[i].End() <= |m| + 1 && 2 <= need <= tiles[i].len
    requires m' == PiecesTags(m, tiles[i], need)
    ensures UsedKept(m, m', tiles, 0)
  {
    PiecesWritten(m, tiles[i], need);
    NextStart(tiles, brk / 8, i);
    SpliceKept(m, m', brk, tiles, i, i + 1, 0);
  }

  /** The remainder of a block taken from the list is a free tile that is not listed. */
  lemma RemainderIsNew(h: Heap, k: nat, need: nat)
    requires Legal(h) && k < |h.list| && 2 <= need && need + 2 <= h.list[k].len
    ensures var i := IndexOf(h.tiles, h.list[k].at); var c := Pieces(h.list[k], need)[1];
            && i < |h.tiles| && c.kind == Free && c !in RemoveAt(h.list, k)
            && c in Splice(h.tiles, i, Pieces(h.list[k], need), i + 1)
            && UsedSet(h.tiles) <= UsedSet(Splice(h.tiles, i, Pieces(h.list[k], need), i + 1))
  {
    var b, c := h.list[k], Pieces(h.list[k], need)[1];
    var i := TileIndex(h.tiles, h.top, b);
    PiecesRun(b, need);
    ReplaceTile(h.tiles, h.top, i, Pieces(b, need));
    RemoveMembers(h.list, k);
    if c in h.list {
      BlocksApart(h.tiles, h.top, b, c);
    }
    assert c == Pieces(b, need)[1];
  }

  lemma GrownListIn(m: seq<Word>, m': seq<Word>, brk: nat, tiles: seq<Block>, list: seq<Block>, b: Block)
    requires ListIn(m, brk, tiles, list) && 8 * b.at == brk && b.len >= 2 && b.kind == Used
    requires |m'| == |m| && 8 * b.End() <= 4 * |m|
    requires forall w | 0 <= w < brk / 4 - 1 :: m'[w] == m[w]
    requires Tagged(m', b) && m'[2 * b.End() - 1] == 1
    ensures ListIn(m', 8 * b.End(), tiles + [b], list) && UsedKept(m, m', tiles, 0)
  {
    ExtendRepresents(m, m', brk, tiles, b);
    forall c | c in list
      ensures c.End() <= b.at && Sized(c)
    {
      BlockBounds(tiles, brk / 8, c);
    }
    LinkedOutside(m, m', list, b.at, |m|);
    forall c | c in UsedSet(tiles)
      ensures Kept(m, m', c)
    {
      var k :| 0 <= k < |tiles| && tiles[k] == c;
    }
  }

  lemma ClearedListIn(m: seq<Word>, m': seq<Word>, brk: nat, tiles: seq<Block>, list: seq<Block>, i: nat)
    requires ListIn(m, brk, tiles, list) && 1 <= i < |tiles| && tiles[i].kind == Used
    requires tiles[i].at >= 1 && tiles[i].len >= 2 && 2 * tiles[i].End() <= |m| + 1
    requires m' == WithTags(m, tiles[i].(kind := Free))
    ensures ListIn(m', brk, tiles[i := tiles[i].(kind := Free)], list)
  {
    var b := tiles[i].(kind := Free);
    TagsWritten(m, b);
    SpliceListIn(m, m', brk, tiles, list, i, [b]);
    SpliceOne(tiles, i, b);
  }

  lemma ClearedKept(m: seq<Word>, m': seq<Word>, brk: nat, tiles: seq<Block>, i: nat)
    requires Represents(m, brk, tiles) && |m| < 0x2000_0000 && 1 <= i < |tiles|
    requires tiles[i].at >= 1 && tiles[i].len >= 2 && 2 * tiles[i].End() <= |m| + 1
    requires m' == WithTags(m, tiles[i].(kind := Free))
    ensures UsedKept(m, m', tiles, tiles[i].Ptr())
  {
    TagsWritten(m, tiles[i].(kind := Free));
    NextStart(tiles, brk / 8, i);
    SpliceKept(m, m', brk, tiles, i, i + 1, tiles[i].Ptr());
  }

  // ---- Pointer macros and the writes made of them ----

  /** `NEXT_PTR(bptr)`. */
  method NextPtr(mem: Memory, bp: nat, ghost b: Block) returns (p: Word)
    requires bp == b.Ptr() && 2 * b.at < mem.words.Length
    ensures p == mem.words[2 * b.at]
  {
    mem.WordAt(2 * b.at);
    return mem.Get(bp);
  }

  /** `PREV_PTR(bptr)`. */
  method PrevPtr(mem: Memory, bp: nat, ghost b: Block) returns (p: Word)
    requires bp == b.Ptr() && 2 * b.at + 1 < mem.words.Length
    ensures p == mem.words[2 * b.at + 1]
  {
    mem.WordAt(2 * b.at + 1);
    return mem.Get(bp + 4);
  }

  method LinkBefore(mem: Memory, bp: Word, root: Word, ghost b: Block, ghost first: Block)
    requires bp == b.Ptr() && root == first.Ptr() && mem.words.Length < 0x2000_0000
    requires 2 * b.at + 1 < mem.words.Length && 2 * first.at + 1 < mem.words.Length
    modifies mem.words
    ensures mem.words[..] == FrontWrites(old(mem.words[..]), first, b)
  {
    PutTag(mem, bp, root, 2 * b.at);
    PutTag(mem, root + 4, bp, 2 * first.at + 1);
  }

  method LinkAfter(mem: Memory, bp: Word, end: Word, ghost b: Block, ghost last: Block)
    requires bp == b.Ptr() && end == last.Ptr() && mem.words.Length < 0x2000_0000
    requires 2 * b.at + 1 < mem.words.Length && 2 * last.at + 1 < mem.words.Length
    modifies mem.words
    ensures mem.words[..] == BackWrites(old(mem.words[..]), last, b)
  {
    PutTag(mem, bp + 4, end, 2 * b.at + 1);
    PutTag(mem, end, bp, 2 * last.at);
  }

  method LinkBetween(mem: Memory, bp: Word, place: Word, ghost prev: Block, ghost next: Block, ghost b: Block)
    requires bp == b.Ptr() && place == next.Ptr() && mem.words.Length < 0x2000_0000
    requires 2 * b.at + 1 < mem.words.Length && 2 * prev.at + 1 < mem.words.Length && 2 * next.at + 1 < mem.words.Length
    requires mem.words[2 * next.at + 1] == prev.Ptr() && b.at != next.at && b.at != prev.at
    modifies mem.words
    ensures mem.words[..] == MiddleWrites(old(mem.words[..]), prev, next, b)
  {
    PutTag(mem, bp, place, 2 * b.at);
    var before := PrevPtr(mem, place, next);
    PutTag(mem, bp + 4, before, 2 * b.at + 1);
    before := PrevPtr(mem, bp, b);
    PutTag(mem, before, bp, 2 * prev.at);
    PutTag(mem, place + 4, bp, 2 * next.at + 1);
  }

  /** `PREV_PTR(NEXT_PTR(bptr)) = NULL`. */
  method ClearPrev(mem: Memory, bp: Word, ghost b: Block, ghost next: Block)
    requires bp == b.Ptr() && 2 * b.at < mem.words.Length && 2 * next.at + 1 < mem.words.Length
    requires mem.words[2 * b.at] == next.Ptr()
    modifies mem.words
    ensures mem.words[..] == old(mem.words[..])[2 * next.at + 1 := 0]
  {
    var after := NextPtr(mem, bp, b);
    PutTag(mem, after + 4, 0, 2 * next.at + 1);
  }

  /** `NEXT_PTR(PREV_PTR(bptr)) = NULL`. */
  method ClearNext(mem: Memory, bp: Word, ghost b: Block, ghost prev: Block)
    requires bp == b.Ptr() && 2 * b.at + 1 < mem.words.Length && 2 * prev.at + 1 < mem.words.Length
    requires mem.words[2 * b.at + 1] == prev.Ptr()
    modifies mem.words
    ensures mem.words[..] == old(mem.words[..])[2 * prev.at := 0]
  {
    var before := PrevPtr(mem, bp, b);
    PutTag(mem, before, 0, 2 * prev.at);
  }

  method Unlink(mem: Memory, bp: Word, ghost prev: Block, ghost next: Block, ghost b: Block)
    requires bp == b.Ptr() && mem.words.Length < 0x2000_0000
    requires 2 * b.at + 1 < mem.words.Length && 2 * prev.at + 1 < mem.words.Length && 2 * next.at + 1 < mem.words.Length
    requires mem.words[2 * b.at] == next.Ptr() && mem.words[2 * b.at + 1] == prev.Ptr() && b.at != next.at && b.at != prev.at
    modifies mem.words
    ensures mem.words[..] == UnlinkWrites(old(mem.words[..]), prev, next, b)
  {
    var before := PrevPtr(mem, bp, b);
    var after := NextPtr(mem, bp, b);
    PutTag(mem, before, after, 2 * prev.at);
    after := NextPtr(mem, bp, b);
    before := PrevPtr(mem, bp, b);
    PutTag(mem, after + 4, before, 2 * next.at + 1);
  }
}
