/** The doubly linked list threaded through the first two payload words of the free blocks. */
module Links {
  import opened Words
  import opened MemLib
  import opened Blocks
  import opened BoundaryTags
  import opened FreeLists

  /** Word `w` is the next or the previous pointer of a free block. */
  ghost predicate IsLink(tiles: seq<Block>, w: nat) {
    exists b :: b in tiles && b.kind == Free && (w == 2 * b.at || w == 2 * b.at + 1)
  }

  /** Only pointers of free blocks differ. */
  ghost predicate LinksOnly(m: seq<Word>, m': seq<Word>, tiles: seq<Block>) {
    |m'| == |m| && forall w | 0 <= w < |m| && m'[w] != m[w] :: IsLink(tiles, w)
  }

  /** Pointers can change without touching a tag, the epilogue or a used block. */
  lemma LinksOnlyHarmless(m: seq<Word>, m': seq<Word>, brk: nat, tiles: seq<Block>)
    requires Represents(m, brk, tiles) && LinksOnly(m, m', tiles)
    ensures Represents(m', brk, tiles)
    ensures UsedKept(m, m', tiles, 0)
  {
    forall b | b in tiles
      ensures b.kind == Used ==> Kept(m, m', b)
      ensures b.kind != Lost ==> Tagged(m', b)
    {
      BlockBounds(tiles, brk / 8, b);
      forall w | 2 * b.at - 1 <= w < 2 * b.End() - 1 && w < |m|
        ensures m'[w] == m[w] || (b.kind == Free && (w == 2 * b.at || w == 2 * b.at + 1)) || b.kind == Lost
      {
        LinkInside(tiles, brk / 8, b, w);
      }
    }
    EpilogueKept(m, m', brk, tiles);
  }

  lemma EpilogueKept(m: seq<Word>, m': seq<Word>, brk: nat, tiles: seq<Block>)
    requires Represents(m, brk, tiles) && LinksOnly(m, m', tiles)
    ensures m'[brk / 4 - 1] == 1
  {
    if IsLink(tiles, brk / 4 - 1) {
      var b :| b in tiles && b.kind == Free && (brk / 4 - 1 == 2 * b.at || brk / 4 - 1 == 2 * b.at + 1);
      BlockBounds(tiles, brk / 8, b);
    }
  }

  /** A pointer word inside `b` is a pointer of `b`. */
  lemma LinkInside(tiles: seq<Block>, top: nat, b: Block, w: nat)
    requires Tiling(tiles, top) && b in tiles && 2 * b.at - 1 <= w < 2 * b.End() - 1
    ensures IsLink(tiles, w) ==> b.kind == Free && (w == 2 * b.at || w == 2 * b.at + 1)
  {
    if IsLink(tiles, w) {
      var c :| c in tiles && c.kind == Free && (w == 2 * c.at || w == 2 * c.at + 1);
      BlockBounds(tiles, top, c);
      var i :| 0 <= i < |tiles| && tiles[i] == b;
      var j :| 0 <= j < |tiles| && tiles[j] == c;
      if i != j {
        DisjointBlocks(tiles, top, i, j);
      }
    }
  }

  // ---- The chain ----

  /** Next and previous pointers follow the list; the outer pointers of its ends are not constrained. */
  ghost predicate Linked(m: seq<Word>, list: seq<Block>) {
    && (forall i | 0 <= i < |list| :: 2 * list[i].at + 1 < |m|)
    && (forall i, j | 0 <= i && j == i + 1 < |list| :: m[2 * list[i].at] == list[j].Ptr() && m[2 * list[j].at + 1] == list[i].Ptr())
  }

  ghost predicate DistinctAts(list: seq<Block>) {
    forall i, j | 0 <= i < j < |list| :: list[i].at != list[j].at
  }

  /** `b` can join the list: it is none of its blocks and its pointers are in memory. */
  ghost predicate CanJoin(m: seq<Word>, list: seq<Block>, b: Block) {
    && Linked(m, list) && DistinctAts(list)
    && (forall i | 0 <= i < |list| :: list[i].at != b.at)
    && 2 * b.at + 1 < |m| < 0x2000_0000
  }

  /** What `add_free_block` writes before the first block of the list. */
  function FrontWrites(m: seq<Word>, first: Block, b: Block): seq<Word>
    requires 2 * b.at + 1 < |m| < 0x2000_0000 && 2 * first.at + 1 < |m|
  {
    m[2 * b.at := first.Ptr()][2 * first.at + 1 := b.Ptr()]
  }

  /** What `add_free_block` writes after the last block of the list. */
  function BackWrites(m: seq<Word>, last: Block, b: Block): seq<Word>
    requires 2 * b.at + 1 < |m| < 0x2000_0000 && 2 * last.at + 1 < |m|
  {
    m[2 * b.at + 1 := last.Ptr()][2 * last.at := b.Ptr()]
  }

  /** What `add_free_block` writes between two blocks of the list. */
  function MiddleWrites(m: seq<Word>, prev: Block, next: Block, b: Block): seq<Word>
    requires 2 * b.at + 1 < |m| < 0x2000_0000 && 2 * prev.at + 1 < |m| && 2 * next.at + 1 < |m|
  {
    m[2 * b.at := next.Ptr()][2 * b.at + 1 := prev.Ptr()][2 * prev.at := b.Ptr()][2 * next.at + 1 := b.Ptr()]
  }

  lemma LinkFront(m: seq<Word>, list: seq<Block>, b: Block)
    requires CanJoin(m, list, b) && |list| > 0
    ensures Linked(FrontWrites(m, list[0], b), InsertAt(list, 0, b))
  {
    var r, m' := InsertAt(list, 0, b), FrontWrites(m, list[0], b);
    forall i, j | 0 <= i && j == i + 1 < |r|
      ensures m'[2 * r[i].at] == r[j].Ptr() && m'[2 * r[j].at + 1] == r[i].Ptr()
    {
      assert r[j] == list[i];
      if i > 0 {
        assert r[i] == list[i - 1];
      }
    }
  }

  lemma LinkBack(m: seq<Word>, list: seq<Block>, b: Block)
    requires CanJoin(m, list, b) && |list| > 0
    ensures Linked(BackWrites(m, list[|list| - 1], b), InsertAt(list, |list|, b))
  {
    var r, m' := InsertAt(list, |list|, b), BackWrites(m, list[|list| - 1], b);
    forall i, j | 0 <= i && j == i + 1 < |r|
      ensures m'[2 * r[i].at] == r[j].Ptr() && m'[2 * r[j].at + 1] == r[i].Ptr()
    {
      assert r[i] == list[i];
      if j < |list| {
        assert r[j] == list[j];
      }
    }
  }

  lemma LinkMiddle(m: seq<Word>, list: seq<Block>, k: nat, b: Block)
    requires CanJoin(m, list, b) && 0 < k < |list|
    ensures Linked(MiddleWrites(m, list[k - 1], list[k], b), InsertAt(list, k, b))
  {
    var r, m' := InsertAt(list, k, b), MiddleWrites(m, list[k - 1], list[k], b);
    forall i, j | 0 <= i && j == i + 1 < |r|
      ensures m'[2 * r[i].at] == r[j].Ptr() && m'[2 * r[j].at + 1] == r[i].Ptr()
    {
      if j < k {
        assert r[i] == list[i] && r[j] == list[j];
      } else if j == k {
        assert r[i] == list[k - 1] && r[j] == b;
      } else if i == k {
        assert r[i] == b && r[j] == list[k];
      } else {
        assert r[i] == list[i - 1] && r[j] == list[i];
      }
    }
  }

  /** What `remove_free_block` writes around the block `b`. */
  function UnlinkWrites(m: seq<Word>, prev: Block, next: Block, b: Block): seq<Word>
    requires 2 * b.at + 1 < |m| && 2 * prev.at + 1 < |m| && 2 * next.at + 1 < |m|
  {
    m[2 * prev.at := m[2 * b.at]][2 * next.at + 1 := m[2 * b.at + 1]]
  }

  lemma UnlinkMiddle(m: seq<Word>, list: seq<Block>, k: nat)
    requires Linked(m, list) && 0 < k < |list| - 1 && DistinctAts(list)
    ensures Linked(UnlinkWrites(m, list[k - 1], list[k + 1], list[k]), RemoveAt(list, k))
  {
    var r, m' := RemoveAt(list, k), UnlinkWrites(m, list[k - 1], list[k + 1], list[k]);
    forall i, j | 0 <= i && j == i + 1 < |r|
      ensures m'[2 * r[i].at] == r[j].Ptr() && m'[2 * r[j].at + 1] == r[i].Ptr()
    {
      if j < k {
        assert r[i] == list[i] && r[j] == list[j];
      } else if j == k {
        assert r[i] == list[k - 1] && r[j] == list[k + 1];
      } else {
        assert r[i] == list[i + 1] && r[j] == list[j + 1];
      }
    }
  }

  lemma UnlinkFront(m: seq<Word>, list: seq<Block>)
    requires Linked(m, list) && |list| > 1 && DistinctAts(list)
    ensures Linked(m[2 * list[1].at + 1 := 0], RemoveAt(list, 0))
  {
    var r, m' := RemoveAt(list, 0), m[2 * list[1].at + 1 := 0];
    forall i, j | 0 <= i && j == i + 1 < |r|
      ensures m'[2 * r[i].at] == r[j].Ptr() && m'[2 * r[j].at + 1] == r[i].Ptr()
    {
      assert r[i] == list[i + 1] && r[j] == list[j + 1];
    }
  }

  lemma UnlinkBack(m: seq<Word>, list: seq<Block>)
    requires Linked(m, list) && |list| > 1 && DistinctAts(list)
    ensures Linked(m[2 * list[|list| - 2].at := 0], RemoveAt(list, |list| - 1))
  {
    var r, m' := RemoveAt(list, |list| - 1), m[2 * list[|list| - 2].at := 0];
    forall i, j | 0 <= i && j == i + 1 < |r|
      ensures m'[2 * r[i].at] == r[j].Ptr() && m'[2 * r[j].at + 1] == r[i].Ptr()
    {
      assert r[i] == list[i] && r[j] == list[j];
    }
  }

  /** A change outside every listed block leaves the chain as it was. */
  lemma LinkedOutside(m: seq<Word>, m': seq<Word>, list: seq<Block>, lo: nat, hi: nat)
    requires Linked(m, list) && SameOutside(m, m', lo, hi) && lo >= 1
    requires forall b | b in list :: b.at + 2 <= lo || hi <= b.at
    ensures Linked(m', list)
  {
    forall i | 0 <= i < |list|
      ensures m'[2 * list[i].at] == m[2 * list[i].at] && m'[2 * list[i].at + 1] == m[2 * list[i].at + 1]
    {
      assert list[i] in list;
    }
  }

  // ---- A linked list of free tiles in memory ----

  /** Memory holds the tiles, and the list links some of the free ones, sorted by size. */
  ghost predicate ListIn(m: seq<Word>, brk: nat, tiles: seq<Block>, list: seq<Block>) {
    && Represents(m, brk, tiles) && |m| < 0x2000_0000
    && Ascending(list) && NoDup(list) && Linked(m, list)
    && forall b | b in list :: b in tiles && b.kind == Free
  }

  lemma ListDistinct(m: seq<Word>, brk: nat, tiles: seq<Block>, list: seq<Block>)
    requires ListIn(m, brk, tiles, list)
    ensures DistinctAts(list)
  {
    forall i, j | 0 <= i < j < |list|
      ensures list[i].at != list[j].at
    {
      assert list[i] in list && list[j] in list;
      BlocksApart(tiles, brk / 8, list[i], list[j]);
    }
  }

  /** A free tile that is not listed can join. */
  lemma MayJoin(m: seq<Word>, brk: nat, tiles: seq<Block>, list: seq<Block>, b: Block)
    requires ListIn(m, brk, tiles, list) && b in tiles && b.kind == Free && b !in list
    ensures CanJoin(m, list, b)
  {
    ListDistinct(m, brk, tiles, list);
    forall i | 0 <= i < |list|
      ensures list[i].at != b.at
    {
      assert list[i] in list;
      BlocksApart(tiles, brk / 8, list[i], b);
    }
    BlockBounds(tiles, brk / 8, b);
  }

  lemma Joined(m: seq<Word>, m': seq<Word>, brk: nat, tiles: seq<Block>, list: seq<Block>, b: Block)
    requires ListIn(m, brk, tiles, list) && b in tiles && b.kind == Free && b !in list
    requires LinksOnly(m, m', tiles) && Linked(m', Add(list, b))
    ensures ListIn(m', brk, tiles, Add(list, b)) && UsedKept(m, m', tiles, 0)
  {
    LinksOnlyHarmless(m, m', brk, tiles);
    AddSorted(list, b);
    AddMembers(list, b);
  }

  lemma OnePointer(m: seq<Word>, tiles: seq<Block>, b: Block, w: nat, v: Word)
    requires b in tiles && b.kind == Free && (w == 2 * b.at || w == 2 * b.at + 1) && w < |m|
    ensures LinksOnly(m, m[w := v], tiles)
  {
    assert IsLink(tiles, w);
  }

  lemma TwoSteps(m: seq<Word>, m1: seq<Word>, m2: seq<Word>, tiles: seq<Block>)
    requires LinksOnly(m, m1, tiles) && LinksOnly(m1, m2, tiles)
    ensures LinksOnly(m, m2, tiles)
  {
    forall w | 0 <= w < |m| && m2[w] != m[w]
      ensures IsLink(tiles, w)
    {
      assert m1[w] != m[w] || m2[w] != m1[w];
    }
  }

  lemma FrontJoined(m: seq<Word>, brk: nat, tiles: seq<Block>, list: seq<Block>, b: Block)
    requires ListIn(m, brk, tiles, list) && b in tiles && b.kind == Free && b !in list
    requires |list| > 0 && Slot(list, b) == 0 && CanJoin(m, list, b)
    ensures var m' := FrontWrites(m, list[0], b); ListIn(m', brk, tiles, Add(list, b)) && UsedKept(m, m', tiles, 0)
  {
    var m1 := m[2 * b.at := list[0].Ptr()];
    OnePointer(m, tiles, b, 2 * b.at, list[0].Ptr());
    OnePointer(m1, tiles, list[0], 2 * list[0].at + 1, b.Ptr());
    TwoSteps(m, m1, FrontWrites(m, list[0], b), tiles);
    LinkFront(m, list, b);
    Joined(m, FrontWrites(m, list[0], b), brk, tiles, list, b);
  }

  lemma BackJoined(m: seq<Word>, brk: nat, tiles: seq<Block>, list: seq<Block>, b: Block)
    requires ListIn(m, brk, tiles, list) && b in tiles && b.kind == Free && b !in list
    requires |list| > 0 && Slot(list, b) == |list| && CanJoin(m, list, b)
    ensures var m' := BackWrites(m, list[|list| - 1], b); ListIn(m', brk, tiles, Add(list, b)) && UsedKept(m, m', tiles, 0)
  {
    var last := list[|list| - 1];
    var m1 := m[2 * b.at + 1 := last.Ptr()];
    OnePointer(m, tiles, b, 2 * b.at + 1, last.Ptr());
    OnePointer(m1, tiles, last, 2 * last.at, b.Ptr());
    TwoSteps(m, m1, BackWrites(m, last, b), tiles);
    LinkBack(m, list, b);
    Joined(m, BackWrites(m, last, b), brk, tiles, list, b);
  }

  lemma MiddlePointers(m: seq<Word>, tiles: seq<Block>, prev: Block, next: Block, b: Block)
    requires b in tiles && b.kind == Free && prev in tiles && prev.kind == Free && next in tiles && next.kind == Free
    requires 2 * b.at + 1 < |m| < 0x2000_0000 && 2 * prev.at + 1 < |m| && 2 * next.at + 1 < |m|
    ensures LinksOnly(m, MiddleWrites(m, prev, next, b), tiles)
  {
    var m1 := m[2 * b.at := next.Ptr()];
    var m2 := m1[2 * b.at + 1 := prev.Ptr()];
    var m3 := m2[2 * prev.at := b.Ptr()];
    OnePointer(m, tiles, b, 2 * b.at, next.Ptr());
    OnePointer(m1, tiles, b, 2 * b.at + 1, prev.Ptr());
    OnePointer(m2, tiles, prev, 2 * prev.at, b.Ptr());
    OnePointer(m3, tiles, next, 2 * next.at + 1, b.Ptr());
    TwoSteps(m, m1, m2, tiles);
    TwoSteps(m, m2, m3, tiles);
    TwoSteps(m, m3, MiddleWrites(m, prev, next, b), tiles);
  }

  lemma MiddleJoined(m: seq<Word>, brk: nat, tiles: seq<Block>, list: seq<Block>, b: Block)
    requires ListIn(m, brk, tiles, list) && b in tiles && b.kind == Free && b !in list
    requires 0 < Slot(list, b) < |list| && CanJoin(m, list, b)
    ensures var k := Slot(list, b); var m' := MiddleWrites(m, list[k - 1], list[k], b);
            ListIn(m', brk, tiles, Add(list, b)) && UsedKept(m, m', tiles, 0)
  {
    var k := Slot(list, b);
    assert list[k - 1] in list && list[k] in list;
    MiddlePointers(m, tiles, list[k - 1], list[k], b);
    LinkMiddle(m, list, k, b);
    Joined(m, MiddleWrites(m, list[k - 1], list[k], b), brk, tiles, list, b);
  }

  lemma Left(m: seq<Word>, m': seq<Word>, brk: nat, tiles: seq<Block>, list: seq<Block>, k: nat)
    requires ListIn(m, brk, tiles, list) && k < |list|
    requires LinksOnly(m, m', tiles) && Linked(m', RemoveAt(list, k))
    ensures ListIn(m', brk, tiles, RemoveAt(list, k)) && UsedKept(m, m', tiles, 0)
  {
    LinksOnlyHarmless(m, m', brk, tiles);
    RemoveSorted(list, k);
    RemoveMembers(list, k);
  }

  lemma OnlyLeft(m: seq<Word>, brk: nat, tiles: seq<Block>, list: seq<Block>)
    requires ListIn(m, brk, tiles, list) && |list| == 1
    ensures ListIn(m, brk, tiles, RemoveAt(list, 0)) && RemoveAt(list, 0) == []
  {
    assert RemoveAt(list, 0) == [];
  }

  lemma FrontLeft(m: seq<Word>, brk: nat, tiles: seq<Block>, list: seq<Block>)
    requires ListIn(m, brk, tiles, list) && |list| > 1
    ensures var m' := m[2 * list[1].at + 1 := 0]; ListIn(m', brk, tiles, RemoveAt(list, 0)) && UsedKept(m, m', tiles, 0)
  {
    ListDistinct(m, brk, tiles, list);
    OnePointer(m, tiles, list[1], 2 * list[1].at + 1, 0);
    UnlinkFront(m, list);
    Left(m, m[2 * list[1].at + 1 := 0], brk, tiles, list, 0);
  }

  lemma BackLeft(m: seq<Word>, brk: nat, tiles: seq<Block>, list: seq<Block>)
    requires ListIn(m, brk, tiles, list) && |list| > 1
    ensures var n := |list|; var m' := m[2 * list[n - 2].at := 0];
            ListIn(m', brk, tiles, RemoveAt(list, n - 1)) && UsedKept(m, m', tiles, 0)
  {
    var prev := list[|list| - 2];
    ListDistinct(m, brk, tiles, list);
    OnePointer(m, tiles, prev, 2 * prev.at, 0);
    UnlinkBack(m, list);
    Left(m, m[2 * prev.at := 0], brk, tiles, list, |list| - 1);
  }

  lemma UnlinkPointers(m: seq<Word>, tiles: seq<Block>, prev: Block, next: Block, b: Block)
    requires prev in tiles && prev.kind == Free && next in tiles && next.kind == Free
    requires 2 * b.at + 1 < |m| && 2 * prev.at + 1 < |m| && 2 * next.at + 1 < |m|
    ensures LinksOnly(m, UnlinkWrites(m, prev, next, b), tiles)
  {
    var m1 := m[2 * prev.at := m[2 * b.at]];
    OnePointer(m, tiles, prev, 2 * prev.at, m[2 * b.at]);
    OnePointer(m1, tiles, next, 2 * next.at + 1, m[2 * b.at + 1]);
    TwoSteps(m, m1, UnlinkWrites(m, prev, next, b), tiles);
  }

  lemma MiddleLeft(m: seq<Word>, brk: nat, tiles: seq<Block>, list: seq<Block>, k: nat)
    requires ListIn(m, brk, tiles, list) && 0 < k < |list| - 1
    ensures var m' := UnlinkWrites(m, list[k - 1], list[k + 1], list[k]);
            ListIn(m', brk, tiles, RemoveAt(list, k)) && UsedKept(m, m', tiles, 0)
  {
    assert list[k - 1] in list && list[k + 1] in list;
    ListDistinct(m, brk, tiles, list);
    UnlinkPointers(m, tiles, list[k - 1], list[k + 1], list[k]);
    UnlinkMiddle(m, list, k);
    Left(m, UnlinkWrites(m, list[k - 1], list[k + 1], list[k]), brk, tiles, list, k);
  }

  // ---- The two list operations as functions on memory ----

  /** Memory after `add_free_block`. */
  ghost function AddWrites(m: seq<Word>, list: seq<Block>, b: Block): seq<Word>
    requires CanJoin(m, list, b)
  {
    var k := Slot(list, b);
    if list == [] then m
    else if k == 0 then FrontWrites(m, list[0], b)
    else if k == |list| then BackWrites(m, list[|list| - 1], b)
    else MiddleWrites(m, list[k - 1], list[k], b)
  }

  lemma AddWritesMiddle(m: seq<Word>, list: seq<Block>, b: Block)
    requires CanJoin(m, list, b) && list != [] && list[0].len < b.len < list[|list| - 1].len
    ensures var k := Slot(list, b);
            0 < k < |list| && k == FirstLong(list, b.len, 0) && AddWrites(m, list, b) == MiddleWrites(m, list[k - 1], list[k], b)
  {
    SlotMiddle(list, b);
  }

  /** Memory after `remove_free_block` of block `k`. */
  ghost function RemoveWrites(m: seq<Word>, list: seq<Block>, k: nat): seq<Word>
    requires Linked(m, list) && k < |list|
  {
    if |list| == 1 then m
    else if k == 0 then m[2 * list[1].at + 1 := 0]
    else if k == |list| - 1 then m[2 * list[k - 1].at := 0]
    else UnlinkWrites(m, list[k - 1], list[k + 1], list[k])
  }

  /** `add_free_block` adds one free tile to the list in memory and touches no tag and no used block. */
  lemma AddJoined(m: seq<Word>, brk: nat, tiles: seq<Block>, list: seq<Block>, b: Block)
    requires ListIn(m, brk, tiles, list) && b in tiles && b.kind == Free && b !in list && CanJoin(m, list, b)
    ensures ListIn(AddWrites(m, list, b), brk, tiles, Add(list, b)) && UsedKept(m, AddWrites(m, list, b), tiles, 0)
  {
    var k := Slot(list, b);
    if list == [] {
      Joined(m, m, brk, tiles, list, b);
    } else if k == 0 {
      FrontJoined(m, brk, tiles, list, b);
    } else if k == |list| {
      BackJoined(m, brk, tiles, list, b);
    } else {
      MiddleJoined(m, brk, tiles, list, b);
    }
  }

  /** `remove_free_block` takes one tile out of the list in memory and touches no tag and no used block. */
  lemma RemoveLeft(m: seq<Word>, brk: nat, tiles: seq<Block>, list: seq<Block>, k: nat)
    requires ListIn(m, brk, tiles, list) && k < |list|
    ensures ListIn(RemoveWrites(m, list, k), brk, tiles, RemoveAt(list, k)) && UsedKept(m, RemoveWrites(m, list, k), tiles, 0)
  {
    if |list| == 1 {
      OnlyLeft(m, brk, tiles, list);
      Left(m, m, brk, tiles, list, 0);
    } else if k == 0 {
      FrontLeft(m, brk, tiles, list);
    } else if k == |list| - 1 {
      BackLeft(m, brk, tiles, list);
    } else {
      MiddleLeft(m, brk, tiles, list, k);
    }
  }
}
