/** The cache simulator of `cachelab/csim.c`: `check_cache` and the dispatch of its main loop. */
module CacheSim {
  import opened CacheBits
  import opened CacheRow
  import opened CacheRuns

  const ADDRESS_BITS: nat := 64

  datatype Line = Line(valid: int, lastUsed: nat, line: nat)

  class Simulator {
    const g: Geometry
    const lines: array2<Line>
    const tagMask: nat
    const setMask: nat
    var hits: nat
    var misses: nat
    var evictions: nat

    ghost predicate Masks() {
      && Sensible(g)
      && lines.Length0 == Pow2(g.s) && lines.Length1 == g.ways
      && tagMask == Shl(Pow2(ADDRESS_BITS - (g.s + g.b)) - 1, g.s + g.b)
      && setMask == Shl(Pow2(g.s) - 1, g.b)
    }

    /** The address fits 64 bits, and a valid line sits in the set of its address. */
    ghost predicate Placed(i: nat, line: Line) {
      line.line < Pow2(ADDRESS_BITS) && 0 <= line.valid <= 1 && (line.valid == 1 ==> SetOf(g, line.line) == i)
    }

    ghost predicate Valid()
      reads lines
    {
      Masks() && forall i, k | 0 <= i < lines.Length0 && 0 <= k < lines.Length1 :: Placed(i, lines[i, k])
    }

    ghost function EntryAt(i: nat, k: nat): Entry
      requires i < lines.Length0 && k < lines.Length1
      reads lines
    {
      Entry(lines[i, k].valid == 1, lines[i, k].lastUsed, TagOf(g, lines[i, k].line))
    }

    /** Set `i` as tags and ages. */
    ghost function Row(i: nat): (r: seq<Entry>)
      requires i < lines.Length0
      reads lines
      ensures |r| == lines.Length1
      ensures forall k | 0 <= k < |r| :: r[k] == EntryAt(i, k)
    {
      seq(lines.Length1, k requires 0 <= k < lines.Length1 reads lines => EntryAt(i, k))
    }

    ghost function Contents(): (c: Cache)
      reads this, lines
      ensures |c.rows| == lines.Length0
      ensures forall i | 0 <= i < |c.rows| :: c.rows[i] == Row(i)
    {
      Cache(seq(lines.Length0, i requires 0 <= i < lines.Length0 reads lines => Row(i)), hits, misses, evictions)
    }

    /** The allocation and the masks of `main`. */
    constructor (g: Geometry)
      requires Sensible(g)
      ensures Valid() && this.g == g && Contents() == Empty(g)
    {
      this.g := g;
      lines := new Line[Pow2(g.s), g.ways]((i, k) => Line(0, 0, 0));
      tagMask := Shl(Pow2(ADDRESS_BITS - (g.s + g.b)) - 1, g.s + g.b);
      setMask := Shl(Pow2(g.s) - 1, g.b);
      hits, misses, evictions := 0, 0, 0;
      new;
      ShlZero(g.b + g.s);
      assert forall i | 0 <= i < lines.Length0 :: Row(i) == EmptyRow(g.ways);
    }

    /** The tag bits of an address, by the mask. */
    method Tag(addr: nat) returns (tag: nat)
      requires Masks() && addr < Pow2(ADDRESS_BITS)
      ensures tag == TagOf(g, addr) == addr / Pow2(g.b + g.s)
    {
      TagByMask(g, addr, ADDRESS_BITS);
      tag := Shr(And(addr, tagMask), g.b + g.s);
    }

    /** The set index of an address, by the mask. */
    method SetIndex(addr: nat) returns (i: nat)
      requires Masks()
      ensures i == SetOf(g, addr) == addr / Pow2(g.b) % Pow2(g.s)
    {
      MaskedField(addr, g.s, g.b);
      ShrIsQuotient(addr, g.b);
      ShrIsQuotient(addr / Pow2(g.b), g.s);
      i := Shr(And(addr, setMask), g.b);
    }

    /** Line `k` of set `i` changes in age only; nothing else changes. */
    method SetAge(i: nat, k: nat, age: nat)
      requires Valid() && i < lines.Length0 && k < lines.Length1
      modifies lines
      ensures Valid()
      ensures Row(i) == old(Row(i))[k := old(Row(i))[k].(age := age)]
      ensures forall j | 0 <= j < lines.Length0 && j != i :: Row(j) == old(Row(j))
    {
      lines[i, k] := lines[i, k].(lastUsed := age);
    }

    /** A line is given to a new address of its set. */
    method SetLine(i: nat, k: nat, addr: nat)
      requires Valid() && i < lines.Length0 && k < lines.Length1
      requires addr < Pow2(ADDRESS_BITS) && SetOf(g, addr) == i
      modifies lines
      ensures Valid()
      ensures Row(i) == old(Row(i))[k := Entry(true, 0, TagOf(g, addr))]
      ensures forall j | 0 <= j < lines.Length0 && j != i :: Row(j) == old(Row(j))
    {
      lines[i, k] := Line(1, 0, addr);
    }

    /** One step of the search: line `n` is aged if it is in use, unless it holds the tag. */
    method ScanLine(i: nat, n: nat, tag: nat) returns (hit: bool, used: bool)
      requires Valid() && i < lines.Length0 && n < lines.Length1
      modifies this`hits, lines
      ensures Valid()
      ensures var e := old(Row(i))[n];
              && hit == Holds(e, tag) && used == e.valid && hits == old(hits) + (if hit then 1 else 0)
              && Row(i) == old(Row(i))[n := if hit then e.(age := 0) else Older(e)]
      ensures forall j | 0 <= j < lines.Length0 && j != i :: Row(j) == old(Row(j))
    {
      ghost var row := Row(i);
      assert row[n] == EntryAt(i, n);
      hit, used := false, lines[i, n].valid == 1;
      if used {
        var lineTag := Tag(lines[i, n].line);
        hit := tag == lineTag;
        SetAge(i, n, if hit then 0 else lines[i, n].lastUsed + 1);
        if hit {
          hits := hits + 1;
        }
      }
      assert !used ==> row[n := Older(row[n])] == row;
    }

    /** The search for a hit: ages the valid lines it passes, and stops at the line that holds the tag. */
    method Scan(i: nat, tag: nat) returns (hit: bool, free: int)
      requires Valid() && i < lines.Length0
      modifies this`hits, lines
      ensures Valid()
      ensures var row := old(Row(i)); var k := Find(row, tag, 0);
              && (hit <==> k < |row|)
              && hits == old(hits) + (if hit then 1 else 0)
              && Row(i) == (if hit then Aged(row, k)[k := row[k].(age := 0)] else Aged(row, |row|))
              && (!hit ==> free == |row| - CacheRow.Valid(row))
      ensures forall j | 0 <= j < lines.Length0 && j != i :: Row(j) == old(Row(j))
    {
      ghost var row := Row(i);
      hit, free := false, g.ways;
      for n := 0 to g.ways
        invariant Valid() && !hit && Row(i) == Aged(row, n) && hits == old(hits)
        invariant Find(row, tag, 0) == Find(row, tag, n)
        invariant free == g.ways - CacheRow.Valid(row[..n])
        invariant forall j | 0 <= j < lines.Length0 && j != i :: Row(j) == old(Row(j))
      {
        ScanFacts(row, n);
        var used;
        hit, used := ScanLine(i, n, tag);
        if hit {
          return;
        }
        if used {
          free := free - 1;
        }
      }
      assert row[..g.ways] == row;
    }

    /** The loop that takes the first line not in use. */
    method FillFirst(i: nat, addr: nat)
      requires Valid() && i < lines.Length0 && addr < Pow2(ADDRESS_BITS) && SetOf(g, addr) == i
      requires FirstInvalid(Row(i), 0) < lines.Length1
      modifies lines
      ensures Valid()
      ensures Row(i) == old(Row(i)[FirstInvalid(Row(i), 0) := Entry(true, 0, TagOf(g, addr))])
      ensures forall j | 0 <= j < lines.Length0 && j != i :: Row(j) == old(Row(j))
    {
      ghost var row := Row(i);
      for k := 0 to g.ways
        invariant Row(i) == row && Valid()
        invariant forall j | 0 <= j < k :: row[j].valid
        invariant forall j | 0 <= j < lines.Length0 && j != i :: Row(j) == old(Row(j))
      {
        assert row[k] == EntryAt(i, k);
        if lines[i, k].valid == 0 {
          SetLine(i, k, addr);
          assert FirstInvalid(row, 0) == k;
          return;
        }
      }
    }

    /** The loop that looks for the oldest line. */
    method FindOldest(i: nat) returns (index: nat)
      requires Valid() && i < lines.Length0
      ensures index == Oldest(Row(i), lines.Length1)
    {
      var max := 0;
      index := 0;
      for k := 0 to g.ways
        invariant k > 0 ==> index == Oldest(Row(i), k) && max == Row(i)[index].age
        invariant k == 0 ==> max == 0
      {
        assert Row(i)[k] == EntryAt(i, k);
        if lines[i, k].lastUsed >= max {
          max := lines[i, k].lastUsed;
          index := k;
        }
      }
    }

    /** The second half of `check_cache`, after the scan found no hit. */
    method Miss(i: nat, addr: nat, free: int, ghost row: seq<Entry>)
      requires Valid() && i < lines.Length0 && addr < Pow2(ADDRESS_BITS) && SetOf(g, addr) == i
      requires |row| == lines.Length1 && Row(i) == Aged(row, |row|) && free == |row| - CacheRow.Valid(row)
      requires Find(row, TagOf(g, addr), 0) == |row|
      modifies this`misses, this`evictions, lines
      ensures Valid() && Row(i) == Access(row, TagOf(g, addr)).0
      ensures misses == old(misses) + 1
      ensures evictions == old(evictions) + if Access(row, TagOf(g, addr)).1 == Evict then 1 else 0
      ensures forall j | 0 <= j < lines.Length0 && j != i :: Row(j) == old(Row(j))
    {
      misses := misses + 1;
      ValidFull(row);
      if free > 0 {
        SameInvalid(row);
        FillFirst(i, addr);
      } else {
        var index := FindOldest(i);
        SetLine(i, index, addr);
        evictions := evictions + 1;
      }
    }

    /** `check_cache` once set index and tag are known: only the set of the address changes. */
    method AccessSet(i: nat, tag: nat, addr: nat)
      requires Valid() && i < lines.Length0 && addr < Pow2(ADDRESS_BITS) && SetOf(g, addr) == i && tag == TagOf(g, addr)
      modifies this, lines
      ensures Valid() && Row(i) == Access(old(Row(i)), tag).0
      ensures var o := Access(old(Row(i)), tag).1;
              && hits == old(hits) + (if o == Hit then 1 else 0)
              && misses == old(misses) + (if o == Hit then 0 else 1)
              && evictions == old(evictions) + if o == Evict then 1 else 0
      ensures forall j | 0 <= j < lines.Length0 && j != i :: Row(j) == old(Row(j))
    {
      ghost var row := Row(i);
      var hit, free := Scan(i, tag);
      if !hit {
        Miss(i, addr, free, row);
      }
    }

    /** `check_cache`. */
    method CheckCache(addr: nat)
      requires Valid() && addr < Pow2(ADDRESS_BITS)
      modifies this, lines
      ensures Valid() && Contents() == Step(g, old(Contents()), addr)
    {
      ghost var before := Contents();
      var i := SetIndex(addr);
      var tag := Tag(addr);
      AccessSet(i, tag, addr);
      SameRows(Contents().rows, before.rows, i, Access(before.rows[i], tag).0);
    }

    /** One line of the trace. */
    method Replay(op: Op)
      requires Valid() && op.addr < Pow2(ADDRESS_BITS)
      modifies this, lines
      ensures Valid()
      ensures Contents() == match op
                            case Instr(_) => old(Contents())
                            case Load(a) => Step(g, old(Contents()), a)
                            case Store(a) => Step(g, old(Contents()), a)
                            case Modify(a) => Step(g, Step(g, old(Contents()), a), a)
    {
      match op {
        case Instr(_) =>
        case Load(a) =>
          CheckCache(a);
        case Store(a) =>
          CheckCache(a);
        case Modify(a) =>
          CheckCache(a);
          CheckCache(a);
      }
    }

    /** The main loop over a trace. */
    method Simulate(ops: seq<Op>)
      requires Valid() && Contents() == Empty(g)
      requires forall op | op in ops :: op.addr < Pow2(ADDRESS_BITS)
      modifies this, lines
      ensures Valid() && Contents() == Run(g, Accesses(ops))
    {
      for n := 0 to |ops|
        invariant Valid() && Contents() == Run(g, Accesses(ops[..n]))
      {
        assert ops[n] in ops;
        RunOne(g, ops, n);
        Replay(ops[n]);
      }
      assert ops[..|ops|] == ops;
    }
  }

  /** One more line of the trace, in terms of single accesses. */
  lemma RunOne(g: Geometry, ops: seq<Op>, n: nat)
    requires g.ways > 0 && n < |ops|
    ensures var c := Run(g, Accesses(ops[..n]));
            Run(g, Accesses(ops[..n + 1])) == match ops[n]
                                              case Instr(_) => c
                                              case Load(a) => Step(g, c, a)
                                              case Store(a) => Step(g, c, a)
                                              case Modify(a) => Step(g, Step(g, c, a), a)
  {
    var addrs, a := Accesses(ops[..n]), ops[n].addr;
    assert ops[..n + 1][..n] == ops[..n];
    RunMore(g, addrs, a);
    RunMore(g, addrs + [a], a);
    assert addrs + [a, a] == addrs + [a] + [a];
  }

  /** The tag of an address of `bits` bits, by the mask of its upper bits. */
  lemma TagByMask(g: Geometry, addr: nat, bits: nat)
    requires g.s + g.b <= bits && addr < Pow2(bits)
    ensures Shr(And(addr, Shl(Pow2(bits - (g.s + g.b)) - 1, g.s + g.b)), g.b + g.s) == TagOf(g, addr) == addr / Pow2(g.b + g.s)
  {
    var k := g.s + g.b;
    assert k == g.b + g.s;
    MaskedTop(addr, bits, k);
  }

  lemma SameRows(rows: seq<seq<Entry>>, before: seq<seq<Entry>>, i: nat, row: seq<Entry>)
    requires |rows| == |before| && i < |rows| && rows[i] == row
    requires forall j | 0 <= j < |rows| && j != i :: rows[j] == before[j]
    ensures rows == before[i := row]
  {
  }

  /** What line `n` adds to the aged part of a row and to the count of valid lines. */
  lemma ScanFacts(row: seq<Entry>, n: nat)
    requires n < |row|
    ensures Aged(row, n)[n] == row[n] && Aged(row, n + 1) == Aged(row, n)[n := Older(row[n])]
    ensures CacheRow.Valid(row[..n + 1]) == CacheRow.Valid(row[..n]) + if row[n].valid then 1 else 0
  {
    assert row[..n + 1] == row[..n] + [row[n]];
    ValidAppend(row[..n], row[n]);
  }

  lemma SameInvalid(row: seq<Entry>)
    ensures FirstInvalid(Aged(row, |row|), 0) == FirstInvalid(row, 0)
  {
    var a := Aged(row, |row|);
    assert forall i | 0 <= i < |row| :: a[i].valid == row[i].valid;
  }

  lemma RunMore(g: Geometry, addrs: seq<nat>, addr: nat)
    requires g.ways > 0
    ensures Run(g, addrs + [addr]) == Step(g, Run(g, addrs), addr)
  {
    assert (addrs + [addr])[..|addrs|] == addrs;
  }
}
