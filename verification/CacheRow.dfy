/** One set of the simulated cache: the age-counter policy of `check_cache` and the LRU policy. */
module CacheRow {

  /** A line of the set: valid bit, age and the tag of the address it holds. */
  datatype Entry = Entry(valid: bool, age: nat, tag: nat)

  datatype Outcome = Hit | Fill | Evict

  function EmptyRow(ways: nat): seq<Entry> {
    seq(ways, _ => Entry(false, 0, 0))
  }

  predicate Holds(e: Entry, tag: nat) {
    e.valid && e.tag == tag
  }

  /** The first line from index `i` on that holds `tag`. */
  function Find(row: seq<Entry>, tag: nat, i: nat): (k: nat)
    requires i <= |row|
    ensures i <= k <= |row|
    ensures k < |row| ==> Holds(row[k], tag)
    ensures forall j | i <= j < k :: !Holds(row[j], tag)
    decreases |row| - i
  {
    if i == |row| || Holds(row[i], tag) then i else Find(row, tag, i + 1)
  }

  function FirstInvalid(row: seq<Entry>, i: nat): (k: nat)
    requires i <= |row|
    ensures i <= k <= |row|
    ensures k < |row| ==> !row[k].valid
    ensures forall j | i <= j < k :: row[j].valid
    decreases |row| - i
  {
    if i == |row| || !row[i].valid then i else FirstInvalid(row, i + 1)
  }

  /** The last line of greatest age among the first `n`. */
  function Oldest(row: seq<Entry>, n: nat): (k: nat)
    requires 0 < n <= |row|
    ensures k < n
    ensures forall j | 0 <= j < n :: row[j].age <= row[k].age
    ensures forall j | k < j < n :: row[j].age < row[k].age
  {
    if n == 1 then 0
    else
      var k := Oldest(row, n - 1);
      if row[n - 1].age >= row[k].age then n - 1 else k
  }

  function Older(e: Entry): Entry {
    if e.valid then e.(age := e.age + 1) else e
  }

  /** The first `n` lines aged, as far as they are valid. */
  function Aged(row: seq<Entry>, n: nat): (r: seq<Entry>)
    requires n <= |row|
    ensures |r| == |row|
    ensures forall i | 0 <= i < |row| :: r[i] == if i < n then Older(row[i]) else row[i]
  {
    seq(|row|, i requires 0 <= i < |row| => if i < n then Older(row[i]) else row[i])
  }

  /** `check_cache` on one set: a hit leaves the lines behind it as old as they were. */
  function Access(row: seq<Entry>, tag: nat): (seq<Entry>, Outcome)
    requires |row| > 0
  {
    var k := Find(row, tag, 0);
    if k < |row| then
      (Aged(row, k)[k := row[k].(age := 0)], Hit)
    else
      var aged := Aged(row, |row|);
      var f := FirstInvalid(row, 0);
      if f < |row| then (aged[f := Entry(true, 0, tag)], Fill)
      else (aged[Oldest(aged, |row|) := Entry(true, 0, tag)], Evict)
  }

  // ---- What every access keeps ----

  predicate Resident(row: seq<Entry>, tag: nat) {
    exists i :: 0 <= i < |row| && Holds(row[i], tag)
  }

  /** Lines fill from the left, and no two hold the same tag. */
  ghost predicate Proper(row: seq<Entry>) {
    && (forall i, j | 0 <= i < j < |row| && row[j].valid :: row[i].valid)
    && (forall i, j | 0 <= i < j < |row| && row[i].valid && row[j].valid :: row[i].tag != row[j].tag)
  }

  lemma AccessProper(row: seq<Entry>, tag: nat)
    requires |row| > 0 && Proper(row)
    ensures Proper(Access(row, tag).0) && |Access(row, tag).0| == |row|
  {
  }

  /** An access hits exactly when its tag is resident, and afterwards it is. */
  lemma HitIffResident(row: seq<Entry>, tag: nat)
    requires |row| > 0
    ensures Access(row, tag).1 == Hit <==> Resident(row, tag)
    ensures Resident(Access(row, tag).0, tag)
  {
    var r := Access(row, tag).0;
    var k := Find(row, tag, 0);
    if k < |row| {
      assert Holds(r[k], tag);
    } else if FirstInvalid(row, 0) < |row| {
      assert Holds(r[FirstInvalid(row, 0)], tag);
    } else {
      assert Holds(r[Oldest(Aged(row, |row|), |row|)], tag);
    }
  }

  function Valid(row: seq<Entry>): nat {
    if row == [] then 0 else (if row[0].valid then 1 else 0) + Valid(row[1..])
  }

  lemma {:induction false} ValidUpdate(row: seq<Entry>, i: nat, e: Entry)
    requires i < |row|
    ensures Valid(row[i := e]) + (if row[i].valid then 1 else 0) == Valid(row) + if e.valid then 1 else 0
  {
    if i == 0 {
      assert row[i := e][1..] == row[1..];
    } else {
      ValidUpdate(row[1..], i - 1, e);
      assert row[i := e][1..] == row[1..][i - 1 := e];
    }
  }

  lemma {:induction false} ValidSame(a: seq<Entry>, b: seq<Entry>)
    requires |a| == |b| && forall i | 0 <= i < |a| :: a[i].valid == b[i].valid
    ensures Valid(a) == Valid(b)
  {
    if a != [] {
      ValidSame(a[1..], b[1..]);
    }
  }

  /** The number of valid lines grows by one exactly when a free line is filled. */
  lemma AccessValid(row: seq<Entry>, tag: nat)
    requires |row| > 0
    ensures var (r, o) := Access(row, tag); Valid(r) == Valid(row) + if o == Fill then 1 else 0
  {
    var k := Find(row, tag, 0);
    if k < |row| {
      ValidSame(row, Access(row, tag).0);
    } else {
      var aged := Aged(row, |row|);
      ValidSame(row, aged);
      var f := FirstInvalid(row, 0);
      ValidUpdate(aged, if f < |row| then f else Oldest(aged, |row|), Entry(true, 0, tag));
    }
  }

  lemma {:induction false} ValidAppend(row: seq<Entry>, e: Entry)
    ensures Valid(row + [e]) == Valid(row) + if e.valid then 1 else 0
  {
    if row == [] {
      assert row + [e] == [e] && [e][1..] == [];
    } else {
      ValidAppend(row[1..], e);
      assert (row + [e])[1..] == row[1..] + [e];
    }
  }

  /** Fewer valid lines than lines: exactly when one is free. */
  lemma {:induction false} ValidFull(row: seq<Entry>)
    ensures Valid(row) <= |row|
    ensures Valid(row) < |row| <==> exists i :: 0 <= i < |row| && !row[i].valid
  {
    if row != [] {
      ValidFull(row[1..]);
      if !row[0].valid {
      } else if Valid(row) < |row| {
        var i :| 0 <= i < |row[1..]| && !row[1..][i].valid;
        assert !row[i + 1].valid;
      } else {
        assert forall i | 0 < i < |row| :: row[i] == row[1..][i - 1];
      }
    }
  }

  // ---- LRU ----

  function Without(list: seq<nat>, tag: nat): (r: seq<nat>)
    ensures forall t :: t in r <==> t in list && t != tag
    ensures |r| <= |list|
  {
    if list == [] then [] else (if list[0] == tag then [] else [list[0]]) + Without(list[1..], tag)
  }

  /** The reference policy: tags in order of last use, most recent first. */
  function LruAccess(list: seq<nat>, ways: nat, tag: nat): (seq<nat>, Outcome)
    requires ways > 0
  {
    if tag in list then ([tag] + Without(list, tag), Hit)
    else if |list| < ways then ([tag] + list, Fill)
    else ([tag] + list[..ways - 1], Evict)
  }

  // ---- One and two ways: exactly LRU ----

  ghost predicate Follows1(row: seq<Entry>, list: seq<nat>) {
    && |row| == 1
    && ((list == [] && !row[0].valid) || (|list| == 1 && Holds(row[0], list[0])))
  }

  ghost predicate Follows2(row: seq<Entry>, list: seq<nat>) {
    && |row| == 2
    && match |list|
       case 0 => !row[0].valid && !row[1].valid
       case 1 => Holds(row[0], list[0]) && !row[1].valid
       case 2 => list[0] != list[1]
                 && ((Holds(row[0], list[0]) && Holds(row[1], list[1]) && row[0].age == 0)
                     || (Holds(row[1], list[0]) && Holds(row[0], list[1]) && row[1].age == 0 && row[0].age >= 1))
       case _ => false
  }

  lemma WithoutHead(list: seq<nat>, tag: nat)
    requires |list| > 0
    ensures Without(list, tag) == (if list[0] == tag then [] else [list[0]]) + Without(list[1..], tag)
  {
  }

  lemma Step1(row: seq<Entry>, list: seq<nat>, tag: nat)
    requires Follows1(row, list)
    ensures var (r, o) := Access(row, tag); var (l, p) := LruAccess(list, 1, tag); Follows1(r, l) && o == p
  {
    if list != [] {
      WithoutHead(list, tag);
    }
  }

  lemma Step2(row: seq<Entry>, list: seq<nat>, tag: nat)
    requires Follows2(row, list)
    ensures var (r, o) := Access(row, tag); var (l, p) := LruAccess(list, 2, tag); Follows2(r, l) && o == p
  {
    if |list| == 1 {
      WithoutHead(list, tag);
    } else if |list| == 2 {
      WithoutHead(list, tag);
      WithoutHead(list[1..], tag);
      assert list[1..][1..] == [];
      var l := LruAccess(list, 2, tag).0;
      assert l == [tag, if tag == list[0] then list[1] else list[0]];
    }
  }

  lemma ResidentIn1(row: seq<Entry>, list: seq<nat>, tag: nat)
    requires Follows1(row, list)
    ensures Resident(row, tag) <==> tag in list
  {
    if tag in list {
      assert Holds(row[0], tag);
    }
  }

  lemma ResidentIn2(row: seq<Entry>, list: seq<nat>, tag: nat)
    requires Follows2(row, list)
    ensures Resident(row, tag) <==> tag in list
  {
    if tag in list {
      assert Holds(row[0], tag) || Holds(row[1], tag);
    }
  }

  // ---- Two ways or more: the two tags used last stay ----

  /**
   * The tags in `list`, at most two, are resident, and the line of the first will not be the next
   * victim: its age is 0, and if it is the last line then the first line is older.
   */
  ghost predicate Protects(row: seq<Entry>, list: seq<nat>) {
    && |row| >= 2 && |list| <= 2 && Proper(row)
    && (forall t | t in list :: Resident(row, t))
    && (|list| == 2 ==> list[0] != list[1])
    && (list == [] ==> forall i | 0 <= i < |row| :: !row[i].valid)
    && (list != [] ==> exists m :: 0 <= m < |row| && Holds(row[m], list[0]) && row[m].age == 0 && (m == |row| - 1 ==> row[0].age >= 1))
  }

  /** The line of the tag just accessed has age 0, and if it is the last line the first one is older. */
  lemma AccessedIsProtected(row: seq<Entry>, tag: nat) returns (m: nat)
    requires |row| >= 2 && Proper(row)
    ensures var r := Access(row, tag).0;
            m < |r| == |row| && Holds(r[m], tag) && r[m].age == 0 && (m == |r| - 1 ==> r[0].age >= 1)
  {
    var k := Find(row, tag, 0);
    m := if k < |row| then k else if FirstInvalid(row, 0) < |row| then FirstInvalid(row, 0) else Oldest(Aged(row, |row|), |row|);
  }

  /** A tag resident at a line that is not the victim stays resident. */
  lemma StaysResident(row: seq<Entry>, tag: nat, t: nat, i: nat)
    requires |row| >= 2 && Proper(row) && i < |row| && Holds(row[i], t)
    requires Access(row, tag).1 == Evict ==> i != Oldest(Aged(row, |row|), |row|)
    ensures Resident(Access(row, tag).0, t)
  {
    assert Holds(Access(row, tag).0[i], t);
  }

  lemma SecondStays(row: seq<Entry>, list: seq<nat>, tag: nat)
    requires Protects(row, list) && |LruAccess(list, 2, tag).0| == 2
    ensures Resident(Access(row, tag).0, LruAccess(list, 2, tag).0[1])
  {
    var l := LruAccess(list, 2, tag).0;
    SecondOf(list, tag);
    HitIffResident(row, tag);
    if l[1] == list[0] {
      var i :| 0 <= i < |row| && Holds(row[i], list[0]) && row[i].age == 0 && (i == |row| - 1 ==> row[0].age >= 1);
      StaysResident(row, tag, list[0], i);
    } else {
      var i :| 0 <= i < |row| && Holds(row[i], l[1]);
      StaysResident(row, tag, l[1], i);
    }
  }

  lemma ProtectsStep(row: seq<Entry>, list: seq<nat>, tag: nat)
    requires Protects(row, list)
    ensures Protects(Access(row, tag).0, LruAccess(list, 2, tag).0)
  {
    var l := LruAccess(list, 2, tag).0;
    AccessProper(row, tag);
    HitIffResident(row, tag);
    var m := AccessedIsProtected(row, tag);
    SecondOf(list, tag);
    if |l| == 2 {
      SecondStays(row, list, tag);
    }
  }

  /** The second tag of the list is the one used last before, if that is another. */
  lemma SecondOf(list: seq<nat>, tag: nat)
    requires |list| <= 2 && (|list| == 2 ==> list[0] != list[1])
    ensures var l := LruAccess(list, 2, tag).0;
            && 1 <= |l| <= 2 && l[0] == tag
            && (|l| == 2 ==> |list| >= 1 && l[1] != tag && l[1] in list && (l[1] != list[0] ==> tag == list[0]))
  {
    if |list| >= 1 {
      WithoutHead(list, tag);
    }
    if |list| == 2 {
      WithoutHead(list[1..], tag);
      assert list[1..][1..] == [];
    }
  }
}
