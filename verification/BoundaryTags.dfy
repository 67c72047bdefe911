/** Boundary tags in memory: the header and footer words that both allocators read and write. */
module BoundaryTags {
  import opened Words
  import opened MemLib
  import opened Blocks

  ghost function UsedSet(bs: seq<Block>): set<Block> {
    set b | b in bs && b.kind == Used
  }

  /** Every used block of `bs`, other than the one at address `p`, has the same words in both memories. */
  ghost predicate UsedKept(m: seq<Word>, m': seq<Word>, bs: seq<Block>, p: nat) {
    forall b | b in UsedSet(bs) && b.Ptr() != p :: Kept(m, m', b)
  }

  /** `m` with the tag of `b` in the header and footer of `b`. */
  function WithTags(m: seq<Word>, b: Block): seq<Word>
    requires b.at >= 1 && b.len >= 1 && 2 * b.End() <= |m| + 1 && b.Tag() < WORD_LIMIT
  {
    m[2 * b.at - 1 := b.Tag()][2 * b.End() - 2 := b.Tag()]
  }

  lemma AlreadyTagged(m: seq<Word>, b: Block)
    requires Tagged(m, b)
    ensures WithTags(m, b) == m
  {
  }

  /** Writing the tags of `b` changes no word outside `b`. */
  lemma TagsWritten(m: seq<Word>, b: Block)
    requires b.at >= 1 && b.len >= 1 && 2 * b.End() <= |m| + 1 && b.Tag() < WORD_LIMIT
    ensures Tagged(WithTags(m, b), b) && SameOutside(m, WithTags(m, b), b.at, b.End())
  {
  }

  lemma KeptBytes(m: seq<Word>, m': seq<Word>, b: Block)
    requires Kept(m, m', b)
    ensures forall a | b.Ptr() <= a < 8 * b.End() - 8 :: a < 4 * |m| && ByteAt(m', a) == ByteAt(m, a)
  {
  }

  /** Words kept by two steps in a row are kept by both together. */
  lemma KeptTwice(m: seq<Word>, m1: seq<Word>, m2: seq<Word>, bs: seq<Block>, bs1: seq<Block>)
    requires UsedKept(m, m1, bs, 0) && UsedKept(m1, m2, bs1, 0)
    requires UsedSet(bs) <= UsedSet(bs1)
    ensures UsedKept(m, m2, bs, 0)
  {
  }

  /** Rewriting blocks `lo..hi` keeps every used block outside that range. */
  lemma SpliceKept(m: seq<Word>, m': seq<Word>, brk: nat, bs: seq<Block>, lo: nat, hi: nat, p: nat)
    requires Represents(m, brk, bs) && 1 <= lo < hi <= |bs|
    requires SameOutside(m, m', bs[lo].at, Start(bs, brk / 8, hi))
    requires forall k | lo <= k < hi :: bs[k].kind != Used || bs[k].Ptr() == p
    ensures UsedKept(m, m', bs, p)
  {
    forall b | b in UsedSet(bs) && b.Ptr() != p
      ensures Kept(m, m', b)
    {
      var k :| 0 <= k < |bs| && bs[k] == b;
      OutsideKept(m, m', brk, bs, lo, hi, k);
    }
  }

  // ---- The macros of the allocators; each takes, as a ghost, the block whose tag it reads ----

  ghost predicate HasHeader(mem: Memory, b: Block)
    reads mem.words
  {
    b.at >= 1 && 2 * b.at - 1 < mem.words.Length && mem.words[2 * b.at - 1] == b.Tag()
  }

  ghost predicate HasFooter(mem: Memory, b: Block)
    reads mem.words
  {
    b.len >= 1 && 2 * b.End() - 2 < mem.words.Length && mem.words[2 * b.End() - 2] == b.Tag()
  }

  /** `GET_SIZE` and `GET_ALLOC` of the word at `p`, which is the header of `b` or its footer. */
  method GetTag(mem: Memory, p: nat, ghost b: Block) returns (size: nat, alloc: nat)
    requires (HasHeader(mem, b) && p == b.Ptr() - 4) || (HasFooter(mem, b) && p == 8 * b.End() - 8)
    ensures size == 8 * b.len && (alloc != 0 <==> b.kind == Used)
  {
    ghost var ix := if HasHeader(mem, b) && p == b.Ptr() - 4 then 2 * b.at - 1 else 2 * b.End() - 2;
    mem.WordAt(ix);
    var w := mem.Get(p);
    TagFields(b.len, if b.kind == Used then 1 else 0, w);
    return SizeField(w), AllocField(w);
  }

  /** `PREV_BLKP(bp)`. */
  method PrevBlkp(mem: Memory, bp: nat, ghost prev: Block) returns (p: nat)
    requires HasFooter(mem, prev) && bp == 8 * prev.End()
    ensures p == prev.Ptr()
  {
    var size, _ := GetTag(mem, bp - 8, prev);
    return bp - size;
  }

  /** `NEXT_BLKP(bp)`. */
  method NextBlkp(mem: Memory, bp: nat, ghost b: Block) returns (p: nat)
    requires HasHeader(mem, b) && bp == b.Ptr()
    ensures p == 8 * b.End()
  {
    var size, _ := GetTag(mem, bp - 4, b);
    return bp + size;
  }

  /** `FTRP(bp)`. */
  method Ftrp(mem: Memory, bp: nat, ghost b: Block) returns (p: nat)
    requires HasHeader(mem, b) && bp == b.Ptr() && b.len >= 1
    ensures p == 8 * b.End() - 8
  {
    var size, _ := GetTag(mem, bp - 4, b);
    return bp + size - 8;
  }

  /** `PUT` of a header or footer; `ix` is the index of the word. */
  method PutTag(mem: Memory, p: nat, w: Word, ghost ix: nat)
    requires p == 4 * ix && ix < mem.words.Length
    modifies mem.words
    ensures mem.words[..] == old(mem.words[..])[ix := w]
  {
    mem.Put(p, w);
  }

  /** The pair `PUT(HDRP(bp), w); PUT(FTRP(bp), w)`: the footer is found through the new header. */
  method PutTags(mem: Memory, bp: nat, w: Word, ghost b: Block)
    requires b.at >= 1 && b.len >= 1 && 2 * b.End() <= mem.words.Length + 1
    requires bp == b.Ptr() && w == b.Tag()
    modifies mem.words
    ensures mem.words[..] == WithTags(old(mem.words[..]), b)
  {
    PutTag(mem, bp - 4, w, 2 * b.at - 1);
    var ftrp := Ftrp(mem, bp, b);
    PutTag(mem, ftrp, w, 2 * b.End() - 2);
  }

  /** Memory after a block and a new epilogue behind it were written. */
  function WithNewBlock(m: seq<Word>, b: Block): seq<Word>
    requires b.at >= 1 && b.len >= 1 && 2 * b.End() <= |m| < 0x2000_0000
  {
    WithTags(m, b)[2 * b.End() - 1 := 1]
  }

  lemma NewBlockWritten(m: seq<Word>, b: Block)
    requires b.at >= 1 && b.len >= 1 && 2 * b.End() <= |m| < 0x2000_0000
    ensures var m' := WithNewBlock(m, b);
            && |m'| == |m| && Tagged(m', b) && m'[2 * b.End() - 1] == 1
            && forall w | 0 <= w < 2 * b.at - 1 :: m'[w] == m[w]
  {
  }

  /** A block behind the old break, with its tags and a new epilogue. */
  method PutNewBlock(mem: Memory, bp: nat, w: Word, ghost b: Block)
    requires b.at >= 1 && b.len >= 1 && 2 * b.End() <= mem.words.Length < 0x2000_0000
    requires bp == b.Ptr() && w == b.Tag()
    modifies mem.words
    ensures mem.words[..] == WithNewBlock(old(mem.words[..]), b)
  {
    PutTags(mem, bp, w, b);
    TagsWritten(old(mem.words[..]), b);
    var next := NextBlkp(mem, bp, b);
    PutTag(mem, next - 4, 1, 2 * b.End() - 1);
  }
}
