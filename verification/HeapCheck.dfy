/** What `mm_checkheap` of `malloclab/mm-firstfit.c` reports, on any memory its walk can get through. */
module HeapCheck {
  import opened Words
  import opened Blocks

  function EndOf(bs: seq<Block>): nat {
    if bs == [] then 1 else bs[|bs| - 1].End()
  }

  /** Following the sizes in the headers from position 1 meets `bs` and then a header of size 0; footers may be anything. */
  ghost predicate Chain(m: seq<Word>, bs: seq<Block>) {
    && Adjacent(bs) && (bs != [] ==> bs[0].at == 1)
    && (forall i | 0 <= i < |bs| :: Headed(m, bs[i]))
    && 2 * EndOf(bs) - 1 < |m| && SizeField(m[2 * EndOf(bs) - 1]) == 0
  }

  predicate Headed(m: seq<Word>, b: Block) {
    b.at >= 1 && b.len >= 1 && 2 * b.End() <= |m| && SizeField(m[2 * b.at - 1]) == 8 * b.len
  }

  /** The footer of the block whose header is word `ix`. */
  function FooterIndex(m: seq<Word>, ix: nat): int
    requires ix < |m|
  {
    ix + 2 * (m[ix] / 8) - 1
  }

  /** The errors `checkblock` prints for the block whose header is word `ix`. */
  function BlockErrors(m: seq<Word>, ix: nat): nat
    requires ix < |m| && 0 <= FooterIndex(m, ix) < |m|
  {
    (if ix % 2 == 0 then 1 else 0) + if m[ix] != m[FooterIndex(m, ix)] then 1 else 0
  }

  function TagErrors(m: seq<Word>, bs: seq<Block>): nat
    requires forall i | 0 <= i < |bs| :: Headed(m, bs[i])
  {
    if bs == [] then 0 else TagErrors(m, bs[..|bs| - 1]) + if TagsAgree(m, bs[|bs| - 1]) then 0 else 1
  }

  predicate TagsAgree(m: seq<Word>, b: Block)
    requires Headed(m, b)
  {
    m[2 * b.at - 1] == m[2 * b.End() - 2]
  }

  lemma BlockErrorsAre(m: seq<Word>, b: Block)
    requires Headed(m, b)
    ensures 0 <= FooterIndex(m, 2 * b.at - 1) < |m| && BlockErrors(m, 2 * b.at - 1) == if TagsAgree(m, b) then 0 else 1
  {
    assert FooterIndex(m, 2 * b.at - 1) == 2 * b.End() - 2;
  }

  predicate PrologueOk(w: Word) {
    SizeField(w) == 8 && AllocField(w) != 0
  }

  /** The errors of the whole walk; the block after the padding is checked twice. */
  function Errors(m: seq<Word>, bs: seq<Block>): nat
    requires Chain(m, bs)
  {
    var first := if bs == [] then (if m[1] != m[0] then 1 else 0) else if TagsAgree(m, bs[0]) then 0 else 1;
    (if PrologueOk(m[1]) then 0 else 1) + first + TagErrors(m, bs) + if AllocField(m[2 * EndOf(bs) - 1]) == 0 then 1 else 0
  }

  lemma {:induction false} NoTagErrorsIff(m: seq<Word>, bs: seq<Block>)
    requires forall i | 0 <= i < |bs| :: Headed(m, bs[i])
    ensures TagErrors(m, bs) == 0 <==> forall i | 0 <= i < |bs| :: TagsAgree(m, bs[i])
    decreases |bs|
  {
    if bs != [] {
      NoTagErrorsIff(m, bs[..|bs| - 1]);
    }
  }

  /** Nothing is reported exactly when every header equals its footer and prologue and epilogue are as they should be. */
  lemma NoErrorsIff(m: seq<Word>, bs: seq<Block>)
    requires Chain(m, bs)
    ensures Errors(m, bs) == 0 <==>
            PrologueOk(m[1]) && (forall i | 0 <= i < |bs| :: TagsAgree(m, bs[i])) && AllocField(m[2 * EndOf(bs) - 1]) != 0
  {
    NoTagErrorsIff(m, bs);
  }

  /** A heap that memory represents can be walked, and nothing is reported. */
  lemma RepresentedNoErrors(m: seq<Word>, brk: nat, bs: seq<Block>)
    requires Represents(m, brk, bs) && forall b | b in bs :: b.kind != Lost
    ensures Chain(m, bs) && Errors(m, bs) == 0
  {
    forall i | 0 <= i < |bs|
      ensures Headed(m, bs[i]) && TagsAgree(m, bs[i])
    {
      assert bs[i] in bs;
      BlockHeaded(m, brk, bs, bs[i]);
    }
    assert Tagged(m, bs[0]);
    TagFields(1, 1, m[1]);
    TagFields(0, 1, m[brk / 4 - 1]);
    assert 2 * EndOf(bs) - 1 == brk / 4 - 1;
    NoErrorsIff(m, bs);
  }

  lemma BlockHeaded(m: seq<Word>, brk: nat, bs: seq<Block>, b: Block)
    requires Represents(m, brk, bs) && b in bs && b.kind != Lost
    ensures Headed(m, b) && TagsAgree(m, b)
  {
    assert Tagged(m, b);
    BlockBounds(bs, brk / 8, b);
    TagFields(b.len, if b.kind == Used then 1 else 0, m[2 * b.at - 1]);
  }

  // ---- The walk ----

  lemma FooterAddress(m: seq<Word>, ix: nat)
    requires ix < |m|
    ensures 4 * (ix + 1) + SizeField(m[ix]) - 8 == 4 * FooterIndex(m, ix)
  {
    var w := m[ix];
    assert w == 8 * (w / 8) + w % 8;
  }

  /** The first call of `checkblock`. */
  lemma FirstChecked(m: seq<Word>, bs: seq<Block>)
    requires Chain(m, bs)
    ensures 1 < |m| && 0 <= FooterIndex(m, 1) < |m| && bs[..0] == []
    ensures BlockErrors(m, 1) == if bs == [] then (if m[1] != m[0] then 1 else 0) else if TagsAgree(m, bs[0]) then 0 else 1
  {
    if bs != [] {
      BlockErrorsAre(m, bs[0]);
    }
  }

  /** Where the walk stands when it has seen `i` blocks: at block `i`, or at the epilogue. */
  lemma WalkAt(m: seq<Word>, bs: seq<Block>, i: nat)
    requires Chain(m, bs) && i <= |bs|
    ensures 0 < EndOf(bs[..i]) && 2 * EndOf(bs[..i]) - 1 < |m| && (i < |bs| <==> SizeField(m[2 * EndOf(bs[..i]) - 1]) > 0)
    ensures i < |bs| ==> bs[i].at == EndOf(bs[..i]) && Headed(m, bs[i])
    ensures i == |bs| ==> bs[..i] == bs
  {
    if i == |bs| {
      assert bs[..i] == bs;
    } else if i > 0 {
      assert bs[i - 1 + 1].at == bs[i - 1].End();
    }
  }

  /** The walk stands behind the first `i` blocks, and has read the header there. */
  ghost predicate Standing(m: seq<Word>, bs: seq<Block>, i: nat, bp: nat, size: nat, alloc: nat) {
    && i <= |bs| && bp == 8 * EndOf(bs[..i]) && 0 < EndOf(bs[..i]) && 2 * EndOf(bs[..i]) - 1 < |m|
    && size == SizeField(m[2 * EndOf(bs[..i]) - 1]) && alloc == AllocField(m[2 * EndOf(bs[..i]) - 1])
    && (size > 0 <==> i < |bs|)
  }

  lemma NextChecked(m: seq<Word>, bs: seq<Block>, i: nat)
    requires Chain(m, bs) && i < |bs|
    ensures Headed(m, bs[i]) && 0 <= FooterIndex(m, 2 * bs[i].at - 1) < |m| && EndOf(bs[..i + 1]) == bs[i].End()
    ensures TagErrors(m, bs[..i + 1]) == TagErrors(m, bs[..i]) + BlockErrors(m, 2 * bs[i].at - 1)
  {
    assert bs[..i + 1][..i] == bs[..i];
    BlockErrorsAre(m, bs[i]);
  }

  lemma AllChecked(m: seq<Word>, bs: seq<Block>, bp: nat, size: nat, alloc: nat, first: nat, e: nat, errors: nat)
    requires Chain(m, bs) && Standing(m, bs, |bs|, bp, size, alloc) && FooterIndex(m, 1) >= 0 && FooterIndex(m, 1) < |m|
    requires first == (if PrologueOk(m[1]) then 0 else 1) && e == BlockErrors(m, 1)
    requires errors == first + e + TagErrors(m, bs[..|bs|])
    ensures size == 0 && errors + (if alloc == 0 then 1 else 0) == Errors(m, bs)
  {
    FirstChecked(m, bs);
    assert bs[..|bs|] == bs;
  }
}
