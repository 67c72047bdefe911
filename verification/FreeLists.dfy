/** The size-sorted free list of `malloclab/mm.c`, as a sequence of blocks. */
module FreeLists {
  import opened Words
  import opened Blocks

  ghost predicate Ascending(list: seq<Block>) {
    forall i, j | 0 <= i < j < |list| :: list[i].len <= list[j].len
  }

  ghost predicate NoDup(list: seq<Block>) {
    forall i, j | 0 <= i < j < |list| :: list[i] != list[j]
  }

  function InsertAt(list: seq<Block>, k: nat, b: Block): seq<Block>
    requires k <= |list|
  {
    list[..k] + [b] + list[k..]
  }

  function RemoveAt(list: seq<Block>, k: nat): seq<Block>
    requires k < |list|
  {
    list[..k] + list[k + 1..]
  }

  /** The first block from index `i` on with at least `need` doublewords. */
  function FirstLong(list: seq<Block>, need: nat, i: nat): (k: nat)
    requires i <= |list|
    ensures i <= k <= |list|
    ensures k < |list| ==> need <= list[k].len
    ensures forall j | i <= j < k :: list[j].len < need
    decreases |list| - i
  {
    if i == |list| || need <= list[i].len then i else FirstLong(list, need, i + 1)
  }

  /** Where `add_free_block` puts a block. */
  function Slot(list: seq<Block>, b: Block): (k: nat)
    ensures k <= |list|
  {
    if list == [] || b.len <= list[0].len then 0
    else if b.len >= list[|list| - 1].len then |list|
    else FirstLong(list, b.len, 0)
  }

  lemma SlotMiddle(list: seq<Block>, b: Block)
    requires list != [] && list[0].len < b.len < list[|list| - 1].len
    ensures 0 < Slot(list, b) < |list| && Slot(list, b) == FirstLong(list, b.len, 0)
  {
  }

  function Add(list: seq<Block>, b: Block): seq<Block> {
    InsertAt(list, Slot(list, b), b)
  }

  /** `mm_malloc` searches the list only for sizes between its first and its last block. */
  predicate InRange(list: seq<Block>, need: nat) {
    list != [] && list[0].len <= need <= list[|list| - 1].len
  }

  /** The block `mm_malloc` takes from the list. */
  function Pick(list: seq<Block>, need: nat): (k: nat)
    requires InRange(list, need)
    ensures k < |list|
  {
    if need == list[0].len then 0
    else if need == list[|list| - 1].len then |list| - 1
    else FirstLong(list, need, 0)
  }

  // ---- Order and contents ----

  lemma SlotBetween(list: seq<Block>, b: Block)
    requires Ascending(list)
    ensures forall i | 0 <= i < Slot(list, b) :: list[i].len <= b.len
    ensures forall i | Slot(list, b) <= i < |list| :: b.len <= list[i].len
  {
  }

  lemma InsertAscending(list: seq<Block>, k: nat, b: Block)
    requires Ascending(list) && k <= |list|
    requires forall i | 0 <= i < k :: list[i].len <= b.len
    requires forall i | k <= i < |list| :: b.len <= list[i].len
    ensures Ascending(InsertAt(list, k, b))
  {
    var r := InsertAt(list, k, b);
    assert forall i | 0 <= i < |r| :: r[i] == if i < k then list[i] else if i == k then b else list[i - 1];
  }

  /** Adding keeps the list sorted by size and adds exactly the new block. */
  lemma AddSorted(list: seq<Block>, b: Block)
    requires Ascending(list)
    ensures Ascending(Add(list, b)) && multiset(Add(list, b)) == multiset(list) + multiset{b}
  {
    SlotBetween(list, b);
    InsertAscending(list, Slot(list, b), b);
    InsertMultiset(list, Slot(list, b), b);
  }

  lemma InsertMultiset(list: seq<Block>, k: nat, b: Block)
    requires k <= |list|
    ensures multiset(InsertAt(list, k, b)) == multiset(list) + multiset{b}
  {
    assert list == list[..k] + list[k..];
  }

  /** Removing keeps the list sorted and removes exactly one block. */
  lemma RemoveSorted(list: seq<Block>, k: nat)
    requires Ascending(list) && k < |list|
    ensures Ascending(RemoveAt(list, k)) && multiset(RemoveAt(list, k)) == multiset(list) - multiset{list[k]}
  {
    assert list == list[..k] + [list[k]] + list[k + 1..];
  }

  /** The block taken fits, and no block that fits is smaller. */
  lemma PickSmallest(list: seq<Block>, need: nat)
    requires Ascending(list) && InRange(list, need)
    ensures need <= list[Pick(list, need)].len
    ensures forall b | b in list && need <= b.len :: list[Pick(list, need)].len <= b.len
  {
    var k := Pick(list, need);
    forall j | 0 <= j < |list| && need <= list[j].len
      ensures list[k].len <= list[j].len
    {
    }
  }

  datatype ListOp = AddOp(b: Block) | RemoveOp(k: nat)

  /** The list after a sequence of adds and removes; removing past the end is no request. */
  function Replay(ops: seq<ListOp>): seq<Block> {
    if ops == [] then []
    else
      var list := Replay(ops[..|ops| - 1]);
      match ops[|ops| - 1]
      case AddOp(b) => Add(list, b)
      case RemoveOp(k) => if k < |list| then RemoveAt(list, k) else list
  }

  /** The blocks added and not yet removed, however often each. */
  function Held(ops: seq<ListOp>): multiset<Block> {
    if ops == [] then multiset{}
    else
      var pre := ops[..|ops| - 1];
      match ops[|ops| - 1]
      case AddOp(b) => Held(pre) + multiset{b}
      case RemoveOp(k) => if k < |Replay(pre)| then Held(pre) - multiset{Replay(pre)[k]} else Held(pre)
  }

  /** After any adds and removes the list is sorted and holds exactly what was added and not removed. */
  lemma {:induction false} EveryListSorted(ops: seq<ListOp>)
    ensures Ascending(Replay(ops)) && multiset(Replay(ops)) == Held(ops)
    decreases |ops|
  {
    if ops != [] {
      var pre := ops[..|ops| - 1];
      EveryListSorted(pre);
      match ops[|ops| - 1]
      case AddOp(b) => AddSorted(Replay(pre), b);
      case RemoveOp(k) => if k < |Replay(pre)| { RemoveSorted(Replay(pre), k); }
    }
  }

  // ---- Ends ----

  /** `free_list_root`; 0 is NULL. */
  function FirstPtr(list: seq<Block>): nat {
    if list == [] then 0 else list[0].Ptr()
  }

  /** `free_list_end`. */
  function LastPtr(list: seq<Block>): nat {
    if list == [] then 0 else list[|list| - 1].Ptr()
  }

  lemma AddEnds(list: seq<Block>, b: Block)
    ensures var r := Add(list, b);
            && |r| == |list| + 1
            && r[0] == (if Slot(list, b) == 0 then b else list[0])
            && r[|r| - 1] == if Slot(list, b) == |list| then b else list[|list| - 1]
  {
  }

  lemma RemoveEnds(list: seq<Block>, k: nat)
    requires k < |list|
    ensures var r := RemoveAt(list, k);
            && |r| == |list| - 1
            && (|r| > 0 ==> r[0] == (if k == 0 then list[1] else list[0]) && r[|r| - 1] == if k == |list| - 1 then list[k - 1] else list[|list| - 1])
  {
  }

  lemma RemovePtrs(list: seq<Block>, k: nat)
    requires k < |list|
    ensures FirstPtr(RemoveAt(list, k)) == if |list| == 1 then 0 else if k == 0 then list[1].Ptr() else list[0].Ptr()
    ensures LastPtr(RemoveAt(list, k)) == if |list| == 1 then 0 else if k == |list| - 1 then list[k - 1].Ptr() else list[|list| - 1].Ptr()
  {
    RemoveEnds(list, k);
  }

  // ---- Members ----

  lemma AddMembers(list: seq<Block>, b: Block)
    requires NoDup(list) && b !in list
    ensures NoDup(Add(list, b))
    ensures forall c :: c in Add(list, b) <==> c in list || c == b
  {
    var k := Slot(list, b);
    var r := Add(list, b);
    assert r[k] == b;
    forall c | c in list
      ensures c in r
    {
      var i :| 0 <= i < |list| && list[i] == c;
      assert r[if i < k then i else i + 1] == c;
    }
  }

  lemma RemoveMembers(list: seq<Block>, k: nat)
    requires NoDup(list) && k < |list|
    ensures NoDup(RemoveAt(list, k))
    ensures forall c :: c in RemoveAt(list, k) <==> c in list && c != list[k]
  {
    var r := RemoveAt(list, k);
    forall c | c in list && c != list[k]
      ensures c in r
    {
      var i :| 0 <= i < |list| && list[i] == c;
      assert r[if i < k then i else i - 1] == c;
    }
  }

  // ---- Sizes ----

  function SumLen(list: seq<Block>): nat {
    if list == [] then 0 else list[0].len + SumLen(list[1..])
  }

  lemma {:induction false} SumLenConcat(a: seq<Block>, b: seq<Block>)
    ensures SumLen(a + b) == SumLen(a) + SumLen(b)
  {
    if a == [] {
      assert a + b == b;
    } else {
      SumLenConcat(a[1..], b);
      assert (a + b)[1..] == a[1..] + b;
    }
  }

  lemma AddSum(list: seq<Block>, b: Block)
    ensures SumLen(Add(list, b)) == SumLen(list) + b.len
  {
    var k := Slot(list, b);
    SumLenConcat(list[..k], [b]);
    SumLenConcat(list[..k] + [b], list[k..]);
    SumLenConcat(list[..k], list[k..]);
    assert list == list[..k] + list[k..];
  }

  lemma RemoveSum(list: seq<Block>, k: nat)
    requires k < |list|
    ensures SumLen(RemoveAt(list, k)) + list[k].len == SumLen(list)
  {
    SumLenConcat(list[..k], list[k + 1..]);
    SumLenConcat(list[..k], [list[k]]);
    SumLenConcat(list[..k] + [list[k]], list[k + 1..]);
    assert list == list[..k] + [list[k]] + list[k + 1..];
  }
}
