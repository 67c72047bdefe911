/**
 * Block lists: what the boundary tags of a heap stand for. Positions and lengths count 8-byte
 * doublewords from the start of the heap, so the block pointer handed to a caller is `8 * at`.
 */
module Blocks {
  import opened Words

  // `Lost` is a doubleword that belongs to no block; only the explicit-list allocator makes one.
  datatype Kind = Used | Free | Lost

  datatype Block = Block(at: nat, len: nat, kind: Kind) {
    function End(): nat {
      at + len
    }

    function Ptr(): nat {
      8 * at
    }

    /** The header and footer word of the block: `PACK(size, alloc)`. */
    function Tag(): nat {
      8 * len + if kind == Used then 1 else 0
    }
  }

  const PROLOGUE := Block(1, 1, Used)

  ghost predicate Adjacent(bs: seq<Block>) {
    forall i | 0 <= i < |bs| - 1 :: bs[i + 1].at == bs[i].End()
  }

  ghost predicate Sized(b: Block) {
    if b.kind == Lost then b.len == 1 else b.len >= 2
  }

  /** `mid` is a run of legal blocks from position `lo` up to position `hi`. */
  ghost predicate Run(mid: seq<Block>, lo: nat, hi: nat) {
    && |mid| > 0 && mid[0].at == lo && mid[|mid| - 1].End() == hi
    && Adjacent(mid)
    && forall b | b in mid :: Sized(b)
  }

  /** The prologue and the blocks after it fill the heap from position 1 to position `top`. */
  ghost predicate Tiling(bs: seq<Block>, top: nat) {
    && |bs| > 0 && bs[0] == PROLOGUE && bs[|bs| - 1].End() == top
    && Adjacent(bs)
    && forall i | 1 <= i < |bs| :: Sized(bs[i])
  }

  function Start(bs: seq<Block>, top: nat, i: nat): nat
    requires i <= |bs|
  {
    if i < |bs| then bs[i].at else top
  }

  lemma {:induction false} Ordered(bs: seq<Block>, i: nat, j: nat)
    requires Adjacent(bs) && i < j < |bs|
    ensures bs[i].End() <= bs[j].at
    decreases j
  {
    if i + 1 < j {
      Ordered(bs, i, j - 1);
    }
    assert bs[j].at == bs[j - 1 + 1].at == bs[j - 1].End();
  }

  /** Every block of a tiling ends at or before the start of every later one. */
  lemma AllOrdered(bs: seq<Block>, top: nat)
    requires Tiling(bs, top)
    ensures forall i, j | 0 <= i < j < |bs| :: bs[i].End() <= bs[j].at
    ensures forall i | 0 <= i < |bs| :: bs[i].End() <= top
    ensures forall i | 1 <= i < |bs| :: 2 <= bs[i].at
  {
    forall i, j | 0 <= i < j < |bs|
      ensures bs[i].End() <= bs[j].at
    {
      Ordered(bs, i, j);
    }
  }

  /** The index of the block that starts at `at`, or the length of the list. */
  function IndexOf(bs: seq<Block>, at: nat): (i: nat)
    ensures i <= |bs|
    ensures i < |bs| ==> bs[i].at == at
    ensures i == |bs| ==> forall b | b in bs :: b.at != at
  {
    if bs == [] then 0
    else if bs[0].at == at then 0
    else 1 + IndexOf(bs[1..], at)
  }

  lemma IndexOfBlock(bs: seq<Block>, top: nat, i: nat)
    requires Tiling(bs, top) && i < |bs|
    ensures IndexOf(bs, bs[i].at) == i
  {
    AllOrdered(bs, top);
    assert bs[i] in bs;
    assert Sized(bs[IndexOf(bs, bs[i].at)]) || IndexOf(bs, bs[i].at) == 0;
  }

  function Splice(bs: seq<Block>, lo: nat, mid: seq<Block>, hi: nat): seq<Block>
    requires lo <= hi <= |bs|
  {
    bs[..lo] + mid + bs[hi..]
  }

  lemma SpliceOne(bs: seq<Block>, i: nat, b: Block)
    requires i < |bs|
    ensures Splice(bs, i, [b], i + 1) == bs[i := b]
  {
  }

  lemma SpliceTiling(bs: seq<Block>, top: nat, lo: nat, mid: seq<Block>, hi: nat)
    requires Tiling(bs, top) && 1 <= lo < hi <= |bs|
    requires Run(mid, bs[lo].at, Start(bs, top, hi))
    ensures Tiling(Splice(bs, lo, mid, hi), top)
  {
    var r := Splice(bs, lo, mid, hi);
    assert bs[lo].at == bs[lo - 1].End() by {
      assert bs[lo - 1 + 1].at == bs[lo - 1].End();
    }
    if hi < |bs| {
      assert bs[hi].at == bs[hi - 1].End() by {
        assert bs[hi - 1 + 1].at == bs[hi - 1].End();
      }
    }
    forall i | 0 <= i < |r| - 1
      ensures r[i + 1].at == r[i].End()
    {
      if i + 1 < lo {
        assert bs[i + 1].at == bs[i].End();
      } else if lo <= i && i + 1 < lo + |mid| {
        assert mid[i - lo + 1].at == mid[i - lo].End();
      } else if lo + |mid| <= i {
        var k := i - lo - |mid| + hi;
        assert r[i] == bs[k] && r[i + 1] == bs[k + 1];
      }
    }
  }

  // ---- Block lists in memory ----

  /** The header and footer words of `b` carry its tag. */
  ghost predicate Tagged(m: seq<Word>, b: Block) {
    && b.at >= 1 && b.len >= 1 && 2 * b.End() <= |m| + 1
    && m[2 * b.at - 1] == b.Tag()
    && m[2 * b.End() - 2] == b.Tag()
  }

  /** Memory `m` below the break holds exactly the blocks `bs`, then the epilogue header. */
  ghost predicate Represents(m: seq<Word>, brk: nat, bs: seq<Block>) {
    && brk % 8 == 0 && 16 <= brk <= 4 * |m|
    && Tiling(bs, brk / 8)
    && (forall b | b in bs && b.kind != Lost :: Tagged(m, b))
    && m[brk / 4 - 1] == 1
  }

  /** Outside the words of the blocks between positions `lo` and `hi`, nothing differs. */
  ghost predicate SameOutside(m: seq<Word>, m': seq<Word>, lo: nat, hi: nat) {
    && |m'| == |m|
    && forall w | 0 <= w < |m| && !(2 * lo - 1 <= w < 2 * hi - 1) :: m'[w] == m[w]
  }

  /** Header, payload and footer of `b` are the same in both memories. */
  ghost predicate Kept(m: seq<Word>, m': seq<Word>, b: Block) {
    && |m'| == |m| && b.at >= 1 && 2 * b.End() <= |m| + 1
    && forall w | 2 * b.at - 1 <= w < 2 * b.End() - 1 :: m'[w] == m[w]
  }

  /** A block outside the rewritten range keeps every word, so it stays tagged. */
  lemma OutsideKept(m: seq<Word>, m': seq<Word>, brk: nat, bs: seq<Block>, lo: nat, hi: nat, i: nat)
    requires Represents(m, brk, bs) && 1 <= lo < hi <= |bs|
    requires SameOutside(m, m', bs[lo].at, Start(bs, brk / 8, hi))
    requires i < |bs| && !(lo <= i < hi)
    ensures Kept(m, m', bs[i])
    ensures bs[i].kind != Lost ==> Tagged(m', bs[i])
  {
    AllOrdered(bs, brk / 8);
    assert bs[i].at >= 1 && 2 * bs[i].End() <= |m| + 1;
    if i < lo {
      assert bs[i].End() <= bs[lo].at;
    } else {
      assert Start(bs, brk / 8, hi) <= bs[i].at;
    }
    assert Kept(m, m', bs[i]);
    assert bs[i] in bs;
  }

  lemma SpliceMembers(bs: seq<Block>, lo: nat, mid: seq<Block>, hi: nat)
    requires lo <= hi <= |bs|
    ensures forall b :: b in Splice(bs, lo, mid, hi) <==> b in bs[..lo] || b in mid || b in bs[hi..]
    ensures forall i | 0 <= i < |bs| && !(lo <= i < hi) :: bs[i] in Splice(bs, lo, mid, hi)
  {
    forall i | 0 <= i < |bs| && !(lo <= i < hi)
      ensures bs[i] in Splice(bs, lo, mid, hi)
    {
      assert bs[i] == if i < lo then bs[..lo][i] else bs[hi..][i - hi];
    }
  }

  /** Rewriting only the blocks `lo..hi` as `mid` keeps every other block, word for word. */
  lemma SpliceRepresents(m: seq<Word>, m': seq<Word>, brk: nat, bs: seq<Block>, lo: nat, mid: seq<Block>, hi: nat)
    requires Represents(m, brk, bs) && 1 <= lo < hi <= |bs|
    requires Run(mid, bs[lo].at, Start(bs, brk / 8, hi))
    requires SameOutside(m, m', bs[lo].at, Start(bs, brk / 8, hi))
    requires forall b | b in mid && b.kind != Lost :: Tagged(m', b)
    ensures Represents(m', brk, Splice(bs, lo, mid, hi))
    ensures forall i | 0 <= i < |bs| && !(lo <= i < hi) :: bs[i] in Splice(bs, lo, mid, hi) && Kept(m, m', bs[i])
  {
    SpliceTiling(bs, brk / 8, lo, mid, hi);
    SpliceMembers(bs, lo, mid, hi);
    forall i | 0 <= i < |bs| && !(lo <= i < hi)
      ensures Kept(m, m', bs[i]) && (bs[i].kind != Lost ==> Tagged(m', bs[i]))
    {
      OutsideKept(m, m', brk, bs, lo, hi, i);
    }
    assert m'[brk / 4 - 1] == 1 by {
      AllOrdered(bs, brk / 8);
    }
  }

  /** A new free block at the break, with a new epilogue after it. */
  lemma ExtendRepresents(m: seq<Word>, m': seq<Word>, brk: nat, bs: seq<Block>, b: Block)
    requires Represents(m, brk, bs)
    requires 8 * b.at == brk && b.len >= 2 && b.kind != Lost
    requires |m'| == |m| && 8 * b.End() <= 4 * |m|
    requires forall w | 0 <= w < brk / 4 - 1 :: m'[w] == m[w]
    requires Tagged(m', b) && m'[2 * b.End() - 1] == 1
    ensures Represents(m', 8 * b.End(), bs + [b])
    ensures forall i | 0 <= i < |bs| :: Kept(m, m', bs[i])
  {
    AllOrdered(bs, brk / 8);
    forall i | 0 <= i < |bs|
      ensures Kept(m, m', bs[i]) && (bs[i].kind != Lost ==> Tagged(m', bs[i]))
    {
    }
    var r := bs + [b];
    forall i | 0 <= i < |r| - 1
      ensures r[i + 1].at == r[i].End()
    {
      if i + 1 < |bs| {
        assert bs[i + 1].at == bs[i].End();
      }
    }
  }

  /** Distinct blocks of a represented heap have disjoint words. */
  lemma DisjointBlocks(bs: seq<Block>, top: nat, i: nat, j: nat)
    requires Tiling(bs, top) && i < |bs| && j < |bs| && i != j
    ensures bs[i].End() <= bs[j].at || bs[j].End() <= bs[i].at
  {
    AllOrdered(bs, top);
  }

  lemma NextStart(bs: seq<Block>, top: nat, i: nat)
    requires Tiling(bs, top) && i < |bs|
    ensures Start(bs, top, i + 1) == bs[i].End()
  {
    if i + 1 < |bs| {
      assert bs[i + 1].at == bs[i].End();
    }
  }

  /** Two different blocks of a tiling share no doubleword and both end below its top. */
  lemma BlocksApart(bs: seq<Block>, top: nat, b: Block, c: Block)
    requires Tiling(bs, top) && b in bs && c in bs && b != c
    ensures b.End() <= c.at || c.End() <= b.at
    ensures b.at != c.at && b.End() <= top && c.End() <= top
  {
    var i :| 0 <= i < |bs| && bs[i] == b;
    var j :| 0 <= j < |bs| && bs[j] == c;
    AllOrdered(bs, top);
    DisjointBlocks(bs, top, i, j);
  }

  lemma BlockBounds(bs: seq<Block>, top: nat, b: Block)
    requires Tiling(bs, top) && b in bs
    ensures b.at >= 1 && b.End() <= top && (b != PROLOGUE ==> b.at >= 2 && Sized(b))
  {
    AllOrdered(bs, top);
  }
}
