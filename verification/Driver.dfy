/** The trace interpreter `eval_mm_valid` of `malloclab/mdriver.c` over the first-fit allocator. */
module Driver {
  import opened Words
  import opened Requests
  import opened MemLib
  import opened Blocks
  import opened BoundaryTags
  import opened FirstFitSpec
  import opened Payloads
  import R = FirstFitRuns
  import FirstFit
  import Traces

  /** How a request ends: served, NULL from `mm_malloc`, refused by `add_range`, or refused by the data check. */
  datatype Outcome = Served | NoMemory | BadRange | BadData

  /**
   * How `eval_mm_valid` ends: `op` is the number of the request that failed. `Exited` is the exit inside
   * `mm_realloc`.
   */
  datatype Verdict =
    | Passed
    | InitFailed
    | MallocFailed(op: int)
    | Exited(op: int)
    | RangeError(op: int)
    | DataError(op: int)

  /** The request fails for lack of heap: no block fits and the break cannot move far enough. */
  ghost predicate Exhausted(h: Heap, size: Word, maxHeap: nat) {
    && !R.SomeFit(h.blocks, AdjustSize(size) / 8)
    && maxHeap < 8 * h.top + if AdjustSize(size) > CHUNKSIZE then AdjustSize(size) else CHUNKSIZE
  }

  lemma NoneIfExhausted(s: R.State, size: Word, maxHeap: nat)
    requires R.Good(s, maxHeap) && 0 < size <= MAX_REQUEST
    ensures Allocate(s.heap, size, maxHeap).1 == None ==> Exhausted(s.heap, size, maxHeap)
  {
    R.AllocateIsFirstFit(s.heap, size, maxHeap);
  }

  ghost predicate IdsBelow(ops: seq<Traces.Op>, n: nat) {
    forall op | op in ops :: op.id < n
  }

  /** A `char` is signed: the data check reads bytes from 128 on as negative numbers. */
  function SignedChar(b: Byte): int {
    if b < 128 then b else b - 256
  }

  /** All that `mm_realloc` achieves for an outstanding id, whether it succeeds or not. */
  lemma ReallocCase(s: Traces.State, id: nat, size: nat, ids: set<nat>, maxHeap: nat)
    requires Traces.Linked(s, ids, maxHeap) && id in ids && 0 < size < 0x8000_0000
    ensures R.Good(s.run, maxHeap) && id in s.table && forall jd | jd in s.table && jd != id :: s.table[jd] != s.table[id]
    ensures var (g, q) := Allocate(s.run.heap, size, maxHeap); var t := Traces.Step(s, Traces.Realloc(id, size), maxHeap);
            && (q == None <==> t == None)
            && (q == None ==> Exhausted(s.run.heap, size, maxHeap))
            && (q != None ==>
                  && q.value !in s.run.live && R.Good(t.value.run, maxHeap)
                  && t.value.run.heap == FirstFitSpec.Release(g, s.table[id])
                  && t.value.run.live == s.run.live[q.value := size] - {s.table[id]} && t.value.table == s.table[id := q.value])
  {
    Traces.ReallocStep(s, id, size, ids, maxHeap);
    NoneIfExhausted(s.run, size, maxHeap);
    if Allocate(s.run.heap, size, maxHeap).1 != None {
      Traces.ReallocLinked(s, id, size, ids, maxHeap);
    }
  }

  lemma MovedMaps(table: map<nat, nat>, live: map<nat, nat>, id: nat, p: nat, q: nat, size: nat)
    requires p in live && q !in live
    ensures table[id := q] == (table - {id})[id := q] && live[q := size] - {p} == (live - {p})[q := size]
  {
  }

  /** A realloc of an id whose low byte no `char` is equal to. */
  predicate Suspect(op: Traces.Op) {
    op.Realloc? && op.id % 256 >= 128
  }

  class Driver {
    const alloc: FirstFit.Allocator
    const blocks: array<nat>
    const blockSizes: array<nat>
    var ranges: seq<Range>

    constructor (alloc: FirstFit.Allocator, numIds: nat)
      ensures this.alloc == alloc && fresh(blocks) && fresh(blockSizes) && blocks != blockSizes
      ensures blocks.Length == blockSizes.Length == numIds && ranges == []
    {
      this.alloc := alloc;
      blocks := new nat[numIds];
      blockSizes := new nat[numIds];
      ranges := [];
    }

    /** `add_range`: false when it reports an error. */
    method AddRange(lo: nat, size: nat) returns (ok: bool)
      requires size > 0
      modifies this
      ensures ok <==> lo % 8 == 0 && lo + size <= alloc.mem.brk
                      && forall r | r in old(ranges) :: !Touches(r, lo, lo + size - 1)
      ensures ranges == if ok then [Range(lo, lo + size - 1)] + old(ranges) else old(ranges)
    {
      var hi := lo + size - 1;
      if lo % 8 != 0 {
        return false;
      }
      if lo > alloc.mem.brk - 1 || hi > alloc.mem.brk - 1 {
        return false;
      }
      for i := 0 to |ranges|
        invariant forall k | 0 <= k < i :: !Touches(ranges[k], lo, hi)
      {
        if (lo >= ranges[i].lo && lo <= ranges[i].hi) || (hi >= ranges[i].lo && hi <= ranges[i].hi) {
          assert ranges[i] in ranges;
          return false;
        }
      }
      ranges := [Range(lo, hi)] + ranges;
      return true;
    }

    /** `remove_range`: drops the first range that starts at `lo`. */
    method RemoveRange(lo: nat)
      modifies this
      ensures ranges == Without(old(ranges), lo)
    {
      var i := 0;
      while i < |ranges|
        invariant 0 <= i <= |ranges|
        invariant Without(ranges, lo) == ranges[..i] + Without(ranges[i..], lo)
      {
        if ranges[i].lo == lo {
          assert ranges[i..][1..] == ranges[i + 1..];
          ranges := ranges[..i] + ranges[i + 1..];
          return;
        }
        assert ranges[i..][1..] == ranges[i + 1..];
        i := i + 1;
      }
    }

    ghost predicate Apart()
      reads this
    {
      && blocks != blockSizes && blocks.Length == blockSizes.Length
      && blocks as object != alloc.mem.words && blockSizes as object != alloc.mem.words
      && alloc as object != this && alloc.mem as object != this
    }

    /** The entries of the ids in use: the address and the size of each payload. */
    ghost predicate Entries(table: map<nat, nat>, live: map<nat, nat>)
      reads this, blocks, blockSizes
    {
      blocks.Length == blockSizes.Length
      && forall id | id in table :: id < blocks.Length && blocks[id] == table[id] && table[id] in live && blockSizes[id] == live[table[id]]
    }

    /** The driver and the allocator are in state `s`, and every live payload holds its fill byte. */
    ghost predicate Follows(s: Traces.State)
      reads this, alloc, alloc.mem, alloc.mem.words, blocks, blockSizes
    {
      && alloc.Valid() && alloc.Heap() == s.run.heap
      && RangesLive(ranges, s.run.live)
      && Entries(s.table, s.run.live)
      && FilledBut(s.table, s.run.live, alloc.mem.words[..], 0)
    }

    lemma EntriesWithout(table: map<nat, nat>, live: map<nat, nat>, id: nat)
      requires Entries(table, live) && id in table && forall jd | jd in table && jd != id :: table[jd] != table[id]
      ensures Entries(table - {id}, live - {table[id]})
    {
    }

    // ---- What all requests with a new block do ----

    method AddLiveRange(p: nat, size: nat, ghost live: map<nat, nat>, ghost t: R.State) returns (placed: bool)
      requires R.Good(t, alloc.mem.MaxHeap()) && RangesLive(ranges, live) && size > 0
      requires p !in live && t.live == live[p := size] && alloc.mem.brk >= 8 * t.heap.top
      modifies this
      ensures placed && RangesLive(ranges, t.live)
    {
      NewRangeApart(t, live, alloc.mem.MaxHeap(), ranges, p, size);
      RangesExtended(live, ranges, p, size);
      placed := AddRange(p, size);
    }

    /** The `memset` of a new payload. */
    method Fill(p: nat, b: Byte, size: nat, ghost t: R.State)
      requires alloc.Valid() && alloc.Heap() == t.heap
      requires R.Good(t, alloc.mem.MaxHeap()) && p in t.live && t.live[p] == size
      modifies alloc.mem.words
      ensures alloc.Valid()
      ensures UsedKept(old(alloc.mem.words[..]), alloc.mem.words[..], t.heap.blocks, p)
      ensures FilledAt(alloc.mem.words[..], p, size, b)
    {
      LivePayloadsApart(t, alloc.mem.MaxHeap(), p, p);
      ghost var nb := BlockOf(t, alloc.mem.MaxHeap(), p);
      ghost var m1 := alloc.mem.words[..];
      alloc.mem.Memset(p, b, size);
      FirstFit.PayloadWritten(m1, alloc.mem.words[..], alloc.mem.brk, alloc.blocks, nb, p, p + size);
    }

    /** The entries for `id`. */
    method StoreEntry(id: nat, size: nat, p: nat, ghost table: map<nat, nat>, ghost live: map<nat, nat>, ghost t: Traces.State)
      requires Apart() && Entries(table, live) && id < blocks.Length && p !in live
      requires t.table == table[id := p] && t.run.live == live[p := size]
      requires alloc.Valid() && alloc.Heap() == t.run.heap && RangesLive(ranges, t.run.live)
      requires FilledBut(t.table, t.run.live, alloc.mem.words[..], 0)
      modifies blocks, blockSizes
      ensures Follows(t)
    {
      blocks[id] := p;
      blockSizes[id] := size;
    }

    /** The new payload is filled; then all are. */
    method FillNew(id: nat, size: nat, p: nat, ghost table: map<nat, nat>, ghost live: map<nat, nat>, ghost t: Traces.State)
      requires alloc.Valid() && alloc.Heap() == t.run.heap && R.Good(t.run, alloc.mem.MaxHeap())
      requires id !in table && p !in live && t.table == table[id := p] && t.run.live == live[p := size]
      requires forall jd | jd in table :: table[jd] in live
      requires FilledBut(table, live, alloc.mem.words[..], 0)
      modifies alloc.mem.words
      ensures alloc.Valid() && FilledBut(t.table, t.run.live, alloc.mem.words[..], 0)
    {
      ghost var m1 := alloc.mem.words[..];
      Fill(p, id % 256, size, t.run);
      FilledExtended(t.run, table, live, id, p, size, m1, alloc.mem.words[..], alloc.mem.MaxHeap());
    }

    /** The end of an alloc or realloc request: the new payload is filled and recorded. */
    method FillAndStore(id: nat, size: nat, p: nat, ghost table: map<nat, nat>, ghost live: map<nat, nat>, ghost t: Traces.State)
      requires Apart() && alloc.Valid() && alloc.Heap() == t.run.heap && R.Good(t.run, alloc.mem.MaxHeap())
      requires id !in table && p !in live && t.table == table[id := p] && t.run.live == live[p := size]
      requires id < blocks.Length && Entries(table, live) && FilledBut(table, live, alloc.mem.words[..], 0)
      requires RangesLive(ranges, t.run.live)
      modifies alloc.mem.words, blocks, blockSizes
      ensures Follows(t)
    {
      FillNew(id, size, p, table, live, t);
      StoreEntry(id, size, p, table, live, t);
    }

    // ---- ALLOC ----

    /** The call of `mm_malloc` for an `ALLOC` request. */
    method TakeBlock(size: nat, ghost s: R.State, ghost table: map<nat, nat>) returns (p: Option<nat>)
      requires alloc.Valid() && alloc.Heap() == s.heap && R.Good(s, alloc.mem.MaxHeap()) && 0 < size < 0x8000_0000
      requires FilledBut(table, s.live, alloc.mem.words[..], 0)
      modifies alloc`blocks, alloc.mem, alloc.mem.words
      ensures alloc.Valid() && (alloc.Heap(), p) == Allocate(s.heap, size, alloc.mem.MaxHeap())
      ensures FilledBut(table, s.live, alloc.mem.words[..], 0)
    {
      ghost var max, m0 := alloc.mem.MaxHeap(), alloc.mem.words[..];
      p := alloc.Malloc(size);
      FilledKept(s, table, max, m0, alloc.mem.words[..], 0);
    }

    /** An `ALLOC` request after `mm_malloc` returned `p`. */
    method StoreNew(id: nat, size: nat, p: nat, ghost s: Traces.State, ghost t: Traces.State) returns (o: Outcome)
      requires Apart() && alloc.Valid() && alloc.Heap() == t.run.heap && R.Good(t.run, alloc.mem.MaxHeap())
      requires size > 0 && id < blocks.Length && id !in s.table && p !in s.run.live
      requires t.table == s.table[id := p] && t.run.live == s.run.live[p := size]
      requires Entries(s.table, s.run.live) && FilledBut(s.table, s.run.live, alloc.mem.words[..], 0)
      requires RangesLive(ranges, s.run.live)
      modifies this, alloc.mem.words, blocks, blockSizes
      ensures o == Served && Follows(t)
    {
      var placed := AddLiveRange(p, size, s.run.live, t.run);
      if !placed {
        return BadRange;
      }
      FillAndStore(id, size, p, s.table, s.run.live, t);
      return Served;
    }

    /** An `ALLOC` request. */
    method DoAlloc(id: nat, size: nat, ghost s: Traces.State, ghost ids: set<nat>) returns (o: Outcome)
      requires Apart() && Follows(s) && Traces.Linked(s, ids, alloc.mem.MaxHeap())
      requires id < blocks.Length && id !in ids && 0 < size < 0x8000_0000
      modifies this, alloc`blocks, alloc.mem, alloc.mem.words, blocks, blockSizes
      ensures o == NoMemory || o == Served
      ensures o == NoMemory <==> Traces.Step(s, Traces.Alloc(id, size), alloc.mem.MaxHeap()) == None
      ensures o == NoMemory ==> Exhausted(s.run.heap, size, alloc.mem.MaxHeap())
      ensures o == Served ==> Follows(Traces.Step(s, Traces.Alloc(id, size), alloc.mem.MaxHeap()).value)
    {
      ghost var max := alloc.mem.MaxHeap();
      ghost var t := Traces.Step(s, Traces.Alloc(id, size), max);
      Traces.AllocStep(s, id, size, max);
      NoneIfExhausted(s.run, size, max);
      var p := TakeBlock(size, s.run, s.table);
      if p == None {
        return NoMemory;
      }
      Traces.AllocLinked(s, id, size, ids, max);
      o := StoreNew(id, size, p.value, s, t.value);
    }

    // ---- REALLOC ----

    /** The call of `mm_realloc`: what it copied is still the fill byte. */
    method MoveBlock(size: nat, p: nat, b: Byte, ghost s: R.State, ghost table: map<nat, nat>) returns (q: Option<nat>)
      requires alloc.Valid() && alloc.Heap() == s.heap && R.Good(s, alloc.mem.MaxHeap()) && 0 < size < 0x8000_0000
      requires FilledBut(table, s.live, alloc.mem.words[..], 0)
      requires p in s.live && FilledAt(alloc.mem.words[..], p, s.live[p], b)
      modifies alloc`blocks, alloc.mem, alloc.mem.words
      ensures var (g, r) := Allocate(s.heap, size, alloc.mem.MaxHeap());
              q == r && (q != None ==> alloc.Valid() && alloc.Heap() == FirstFitSpec.Release(g, p))
      ensures q != None ==> && FilledBut(table, s.live, alloc.mem.words[..], p)
                            && FilledAt(alloc.mem.words[..], q.value, FirstFit.Min(size, s.live[p]), b)
    {
      ghost var max, m0 := alloc.mem.MaxHeap(), alloc.mem.words[..];
      q := alloc.Realloc(p, size);
      if q != None {
        ZeroNotLive(s, max);
        FilledLess(table, s.live, m0, p);
        FilledKept(s, table, max, m0, alloc.mem.words[..], p);
        MovedFilled(s, max, m0, alloc.mem.words[..], p, q.value, size, b);
      }
    }

    /** The loop that compares the data of the old block, as far as it was kept, with the fill byte. */
    method CheckData(newp: nat, oldsize: nat, id: nat) returns (same: bool)
      requires FilledAt(alloc.mem.words[..], newp, oldsize, id % 256) && oldsize > 0
      ensures same <==> id % 256 < 128
    {
      for j := 0 to oldsize
        invariant j > 0 ==> id % 256 < 128
      {
        var b := alloc.mem.GetByte(newp + j);
        if SignedChar(b) != id % 256 {
          return false;
        }
      }
      return true;
    }

    /** A `REALLOC` request after `mm_realloc` returned `q`, up to the call of `add_range`. */
    method MoveRange(p: nat, q: nat, size: nat, ghost live: map<nat, nat>, ghost t: R.State) returns (placed: bool)
      requires R.Good(t, alloc.mem.MaxHeap()) && RangesLive(ranges, live) && size > 0
      requires q !in live && t.live == live[q := size] - {p} && p in live && alloc.mem.brk >= 8 * t.heap.top
      modifies this
      ensures placed && RangesLive(ranges, t.live)
    {
      RemoveRange(p);
      WithoutLive(old(ranges), live, p);
      assert t.live == (live - {p})[q := size];
      placed := AddLiveRange(q, size, live - {p}, t);
    }

    /** The rest of a `REALLOC` request, from the data check on. */
    method CheckAndStore(id: nat, size: nat, p: nat, q: nat, ghost s: Traces.State, ghost t: Traces.State) returns (same: bool)
      requires Apart() && alloc.Valid() && alloc.Heap() == t.run.heap && R.Good(t.run, alloc.mem.MaxHeap())
      requires size > 0 && id in s.table && p == s.table[id] && p in s.run.live && s.run.live[p] > 0 && q !in s.run.live
      requires forall jd | jd in s.table && jd != id :: s.table[jd] != p
      requires t.table == s.table[id := q] && t.run.live == s.run.live[q := size] - {p}
      requires Entries(s.table, s.run.live) && FilledBut(s.table, s.run.live, alloc.mem.words[..], p)
      requires FilledAt(alloc.mem.words[..], q, FirstFit.Min(size, s.run.live[p]), id % 256)
      requires RangesLive(ranges, t.run.live)
      modifies alloc.mem.words, blocks, blockSizes
      ensures same <==> id % 256 < 128
      ensures same ==> Follows(t)
    {
      var oldsize := blockSizes[id];
      if size < oldsize {
        oldsize := size;
      }
      same := CheckData(q, oldsize, id);
      if same {
        ghost var table, live := s.table - {id}, s.run.live - {p};
        EntriesWithout(s.table, s.run.live, id);
        FilledWithout(s.table, s.run.live, alloc.mem.words[..], id);
        MovedMaps(s.table, s.run.live, id, p, q, size);
        FillAndStore(id, size, q, table, live, t);
      }
    }

    /** A `REALLOC` request after `mm_realloc` returned `q`. */
    method StoreMoved(id: nat, size: nat, p: nat, q: nat, ghost s: Traces.State, ghost t: Traces.State) returns (o: Outcome)
      requires Apart() && alloc.Valid() && alloc.Heap() == t.run.heap && R.Good(t.run, alloc.mem.MaxHeap())
      requires size > 0 && id in s.table && p == s.table[id] && p in s.run.live && s.run.live[p] > 0 && q !in s.run.live
      requires forall jd | jd in s.table && jd != id :: s.table[jd] != p
      requires t.table == s.table[id := q] && t.run.live == s.run.live[q := size] - {p}
      requires Entries(s.table, s.run.live) && FilledBut(s.table, s.run.live, alloc.mem.words[..], p)
      requires FilledAt(alloc.mem.words[..], q, FirstFit.Min(size, s.run.live[p]), id % 256)
      requires RangesLive(ranges, s.run.live)
      modifies this, alloc.mem.words, blocks, blockSizes
      ensures o == if id % 256 < 128 then Served else BadData
      ensures o == Served ==> Follows(t)
    {
      var placed := MoveRange(p, q, size, s.run.live, t.run);
      if !placed {
        return BadRange;
      }
      var same := CheckAndStore(id, size, p, q, s, t);
      return if same then Served else BadData;
    }

    /** The requests before this one left the data of `id` in place. */
    lemma DataOf(id: nat, s: Traces.State, ids: set<nat>)
      requires Follows(s) && Traces.Linked(s, ids, alloc.mem.MaxHeap()) && id in ids
      ensures id in s.table && blocks[id] == s.table[id] && s.table[id] in s.run.live && s.run.live[s.table[id]] > 0
      ensures FilledAt(alloc.mem.words[..], s.table[id], s.run.live[s.table[id]], id % 256)
    {
      var p := s.table[id];
      assert p in s.run.live;
      LivePayloadsApart(s.run, alloc.mem.MaxHeap(), p, p);
      var b := BlockOf(s.run, alloc.mem.MaxHeap(), p);
    }

    /** A `REALLOC` request. */
    method DoRealloc(id: nat, size: nat, ghost s: Traces.State, ghost ids: set<nat>) returns (o: Outcome)
      requires Apart() && Follows(s) && Traces.Linked(s, ids, alloc.mem.MaxHeap())
      requires id in ids && 0 < size < 0x8000_0000
      modifies this, alloc`blocks, alloc.mem, alloc.mem.words, blocks, blockSizes
      ensures o != BadRange
      ensures o == NoMemory <==> Traces.Step(s, Traces.Realloc(id, size), alloc.mem.MaxHeap()) == None
      ensures o == NoMemory ==> Exhausted(s.run.heap, size, alloc.mem.MaxHeap())
      ensures o == BadData ==> id % 256 >= 128
      ensures o == Served ==> id % 256 < 128 && Follows(Traces.Step(s, Traces.Realloc(id, size), alloc.mem.MaxHeap()).value)
    {
      ghost var max := alloc.mem.MaxHeap();
      ghost var t := Traces.Step(s, Traces.Realloc(id, size), max);
      DataOf(id, s, ids);
      ReallocCase(s, id, size, ids, max);
      var p := blocks[id];
      var q := MoveBlock(size, p, id % 256, s.run, s.table);
      if q == None {
        return NoMemory;
      }
      o := StoreMoved(id, size, p, q.value, s, t.value);
    }

    // ---- FREE ----

    /** The calls of `remove_range` and `mm_free` for a `FREE` request. */
    method GiveBack(p: nat, ghost s: R.State, ghost table: map<nat, nat>)
      requires Apart() && alloc.Valid() && alloc.Heap() == s.heap && RangesLive(ranges, s.live)
      requires R.Good(s, alloc.mem.MaxHeap()) && p in s.live && FilledBut(table, s.live, alloc.mem.words[..], 0)
      modifies this, alloc`blocks, alloc.mem.words
      ensures alloc.Valid() && alloc.Heap() == FirstFitSpec.Release(s.heap, p)
      ensures RangesLive(ranges, s.live - {p}) && FilledBut(table, s.live, alloc.mem.words[..], p)
    {
      ghost var m0 := alloc.mem.words[..];
      RemoveRange(p);
      WithoutLive(old(ranges), s.live, p);
      alloc.Release(p);
      FilledKept(s, table, alloc.mem.MaxHeap(), m0, alloc.mem.words[..], p);
    }

    method FreeEntry(id: nat, p: nat, ghost s: Traces.State, ghost t: Traces.State)
      requires Apart() && Follows(s) && R.Good(s.run, alloc.mem.MaxHeap())
      requires id in s.table && p == s.table[id] && p in s.run.live && forall jd | jd in s.table && jd != id :: s.table[jd] != p
      requires t.run.heap == FirstFitSpec.Release(s.run.heap, p) && t.run.live == s.run.live - {p} && t.table == s.table - {id}
      modifies this, alloc`blocks, alloc.mem.words
      ensures Follows(t)
    {
      EntriesWithout(s.table, s.run.live, id);
      GiveBack(p, s.run, s.table);
      FilledWithout(s.table, s.run.live, alloc.mem.words[..], id);
    }

    /** A `FREE` request: the address recorded for `id` is one `mm_free` accepts. */
    method DoFree(id: nat, ghost s: Traces.State, ghost ids: set<nat>)
      requires Apart() && Follows(s) && Traces.Linked(s, ids, alloc.mem.MaxHeap()) && id in ids
      modifies this, alloc`blocks, alloc.mem.words
      ensures Follows(Traces.Step(s, Traces.Op.Free(id), alloc.mem.MaxHeap()).value)
    {
      Traces.FreeStep(s, id, ids, alloc.mem.MaxHeap());
      var p := blocks[id];
      FreeEntry(id, p, s, Traces.Step(s, Traces.Op.Free(id), alloc.mem.MaxHeap()).value);
    }

    // ---- The trace ----

    /** One request. */
    method DoRequest(op: Traces.Op, ghost s: Traces.State, ghost ids: set<nat>) returns (o: Outcome)
      requires Apart() && Follows(s) && Traces.Linked(s, ids, alloc.mem.MaxHeap()) && op.id < blocks.Length
      requires op.Alloc? <==> op.id !in ids
      requires !op.Free? ==> 0 < op.size < 0x8000_0000
      modifies this, alloc`blocks, alloc.mem, alloc.mem.words, blocks, blockSizes
      ensures o != BadRange && (o == BadData ==> Suspect(op))
      ensures o == NoMemory <==> Traces.Step(s, op, alloc.mem.MaxHeap()) == None
      ensures o == NoMemory ==> !op.Free? && Exhausted(s.run.heap, op.size, alloc.mem.MaxHeap())
      ensures o == Served ==> !Suspect(op) && Follows(Traces.Step(s, op, alloc.mem.MaxHeap()).value)
    {
      match op {
        case Alloc(id, size) =>
          o := DoAlloc(id, size, s, ids);
        case Realloc(id, size) =>
          o := DoRealloc(id, size, s, ids);
        case Free(id) =>
          DoFree(id, s, ids);
          o := Served;
      }
    }

    /** The reset at the start of `eval_mm_valid`. */
    method Begin() returns (e: int)
      requires Apart() && alloc.mem.Valid() && 16 <= alloc.mem.MaxHeap()
      modifies this, alloc, alloc.mem, alloc.mem.words
      ensures e < 0 <==> alloc.mem.MaxHeap() < 16 + CHUNKSIZE
      ensures Follows(Traces.Replay([], alloc.mem.MaxHeap()).value)
    {
      alloc.mem.ResetBrk();
      ranges := [];
      e := alloc.Init();
      R.InitGood(alloc.mem.MaxHeap());
    }

    /** The requests before `i` were accepted and served. */
    ghost predicate ServedUpTo(ops: seq<Traces.Op>, i: nat)
      requires i <= |ops|
      reads this, alloc, alloc.mem, alloc.mem.words, blocks, blockSizes
    {
      && Traces.Outstanding(ops[..i]) != None && Traces.Replay(ops[..i], alloc.mem.MaxHeap()) != None
      && Follows(Traces.Replay(ops[..i], alloc.mem.MaxHeap()).value)
    }

    /** Request `i` of a trace. */
    method ServeNext(ops: seq<Traces.Op>, i: nat) returns (o: Outcome)
      requires Apart() && 16 <= alloc.mem.MaxHeap() && i < |ops| && ServedUpTo(ops, i)
      requires Traces.Outstanding(ops) != None && Traces.Positive(ops) && IdsBelow(ops, blocks.Length)
      modifies this, alloc`blocks, alloc.mem, alloc.mem.words, blocks, blockSizes
      ensures Ends(o, ops, i, alloc.mem.MaxHeap()) && (o == Served ==> ServedUpTo(ops, i + 1))
    {
      ghost var max := alloc.mem.MaxHeap();
      ghost var s, ids := Traces.Replay(ops[..i], max).value, Traces.Outstanding(ops[..i]).value;
      NextRequest(ops, i, max);
      o := DoRequest(ops[i], s, ids);
    }

    /** The loop of `eval_mm_valid`. */
    method ServeAll(ops: seq<Traces.Op>) returns (r: Verdict)
      requires Apart() && 16 <= alloc.mem.MaxHeap() && ServedUpTo(ops, 0)
      requires Traces.Outstanding(ops) != None && Traces.Positive(ops) && IdsBelow(ops, blocks.Length)
      modifies this, alloc`blocks, alloc.mem, alloc.mem.words, blocks, blockSizes
      ensures Stopped(r, ops, alloc.mem.MaxHeap()) && (r == Passed ==> ServedUpTo(ops, |ops|))
    {
      for i := 0 to |ops|
        invariant ServedUpTo(ops, i) && NoSuspect(ops, i)
      {
        var o := ServeNext(ops, i);
        VerdictStops(o, ops, i, alloc.mem.MaxHeap());
        if o != Served {
          return VerdictOf(o, ops[i], i);
        }
      }
      return Passed;
    }

    /** `eval_mm_valid` on a trace that `checktrace.pl` accepts. */
    method EvalMmValid(ops: seq<Traces.Op>) returns (r: Verdict)
      requires Apart() && alloc.mem.Valid() && 16 <= alloc.mem.MaxHeap()
      requires Traces.Outstanding(ops) != None && Traces.Positive(ops) && IdsBelow(ops, blocks.Length)
      modifies this, alloc, alloc.mem, alloc.mem.words, blocks, blockSizes
      ensures Explained(r, ops, alloc.mem.MaxHeap())
      ensures r == Passed ==> Traces.Replay(ops, alloc.mem.MaxHeap()) != None
                              && Follows(Traces.Replay(ops, alloc.mem.MaxHeap()).value)
    {
      var e := Begin();
      if e < 0 {
        return InitFailed;
      }
      assert ops[..0] == [] && ops[..|ops|] == ops;
      r := ServeAll(ops);
    }
  }

  /** The heap has room for the first `n` requests. */
  ghost predicate Replayed(ops: seq<Traces.Op>, n: int, maxHeap: nat) {
    0 <= n <= |ops| && Traces.Replay(ops[..n], maxHeap) != None
  }

  /** How request `i` ends, and why. */
  ghost predicate Ends(o: Outcome, ops: seq<Traces.Op>, i: nat, maxHeap: nat) {
    i < |ops|
    && match o
       case Served => !Suspect(ops[i]) && Replayed(ops, i + 1, maxHeap)
       case NoMemory => FailsAt(ops, i, maxHeap)
       case BadRange => false
       case BadData => Suspect(ops[i]) && Replayed(ops, i + 1, maxHeap)
  }

  lemma VerdictStops(o: Outcome, ops: seq<Traces.Op>, i: nat, maxHeap: nat)
    requires NoSuspect(ops, i) && Ends(o, ops, i, maxHeap)
    ensures if o == Served then NoSuspect(ops, i + 1) else Stopped(VerdictOf(o, ops[i], i), ops, maxHeap)
    ensures o != Served ==> VerdictOf(o, ops[i], i) != Passed
  {
  }

  /** The verdict on a trace whose request `i` was not served. */
  function VerdictOf(o: Outcome, op: Traces.Op, i: nat): Verdict {
    match o
    case Served => Passed
    case NoMemory => if op.Realloc? then Exited(i) else MallocFailed(i)
    case BadRange => RangeError(i)
    case BadData => DataError(i)
  }

  /** The data check refuses none of the first `n` requests. */
  ghost predicate NoSuspect(ops: seq<Traces.Op>, n: int) {
    n <= |ops| && forall k | 0 <= k < n :: !Suspect(ops[k])
  }

  /**
   * Why a trace ends as it does: never for a range; for lack of heap at the request it names, all before it
   * being served; and for the data check exactly at the first realloc of an id whose low byte is 128 or
   * more, if the heap has room for it and for all before it.
   */
  ghost predicate Stopped(r: Verdict, ops: seq<Traces.Op>, maxHeap: nat) {
    match r
    case InitFailed => false
    case Passed => NoSuspect(ops, |ops|) && Replayed(ops, |ops|, maxHeap)
    case MallocFailed(n) => FailsAt(ops, n, maxHeap) && ops[n].Alloc? && NoSuspect(ops, n)
    case Exited(n) => FailsAt(ops, n, maxHeap) && ops[n].Realloc? && NoSuspect(ops, n)
    case RangeError(_) => false
    case DataError(n) => 0 <= n < |ops| && Suspect(ops[n]) && NoSuspect(ops, n) && Replayed(ops, n + 1, maxHeap)
  }

  ghost predicate Explained(r: Verdict, ops: seq<Traces.Op>, maxHeap: nat) {
    if maxHeap < 16 + CHUNKSIZE then r == InitFailed else Stopped(r, ops, maxHeap)
  }

  /**
   * A trace given to `checktrace.pl` and then to the driver: unless memory runs out or the data check
   * refuses it, everything is freed at the end and the heap is one free block from prologue to break.
   */
  method BalanceAndEval(d: Driver, ops: seq<Traces.Op>) returns (r: Option<Verdict>)
    requires d.Apart() && d.alloc.mem.Valid() && 16 <= d.alloc.mem.MaxHeap()
    requires Traces.Positive(ops) && IdsBelow(ops, d.blocks.Length)
    modifies d, d.alloc, d.alloc.mem, d.alloc.mem.words, d.blocks, d.blockSizes
    ensures r == None <==> Traces.Outstanding(ops) == None
    ensures r != None ==> exists lines :: ops <= lines && Explained(r.value, lines, d.alloc.mem.MaxHeap())
    ensures r == Some(Passed) ==> d.alloc.mem.brk > 16 && d.alloc.blocks == [PROLOGUE, Block(2, d.alloc.mem.brk / 8 - 2, Free)]
  {
    var lines := Traces.Balance(ops);
    if lines == None {
      return None;
    }
    BalancedRequests(ops, lines.value, d.blocks.Length);
    var verdict := d.EvalMmValid(lines.value);
    if verdict == Passed {
      Traces.BalancedLeavesOneBlock(lines.value, d.alloc.mem.MaxHeap());
    }
    return Some(verdict);
  }

  lemma BalancedRequests(ops: seq<Traces.Op>, lines: seq<Traces.Op>, n: nat)
    requires Traces.Positive(ops) && IdsBelow(ops, n) && Traces.Outstanding(ops) != None
    requires ops <= lines
    requires forall k | |ops| <= k < |lines| :: lines[k].Free? && lines[k].id in Traces.Outstanding(ops).value
    ensures Traces.Positive(lines) && IdsBelow(lines, n)
  {
    forall op | op in lines
      ensures (!op.Free? ==> 0 < op.size < 0x8000_0000) && op.id < n
    {
      var k :| 0 <= k < |lines| && lines[k] == op;
      if k < |ops| {
        assert ops[k] == op && op in ops;
      } else {
        Traces.OutstandingIds(ops, op.id);
      }
    }
  }

  /** Request `n` asks for a block that the heap left by the requests before it has no room for. */
  ghost predicate FailsAt(ops: seq<Traces.Op>, n: int, maxHeap: nat) {
    && 0 <= n < |ops| && !ops[n].Free? && ops[n].size < WORD_LIMIT
    && Traces.Replay(ops[..n], maxHeap) != None
    && Exhausted(Traces.Replay(ops[..n], maxHeap).value.run.heap, ops[n].size, maxHeap)
  }

  lemma NextRequest(ops: seq<Traces.Op>, i: nat, maxHeap: nat)
    requires i < |ops| && Traces.Outstanding(ops) != None && Traces.Positive(ops) && 16 <= maxHeap
    requires Traces.Outstanding(ops[..i]) != None && Traces.Replay(ops[..i], maxHeap) != None
    ensures ops[i] in ops && Traces.Outstanding(ops[..i + 1]) != None
    ensures var s, ids := Traces.Replay(ops[..i], maxHeap).value, Traces.Outstanding(ops[..i]).value;
            && |s.run.heap.blocks| > 0 && Traces.Linked(s, ids, maxHeap)
            && Traces.Replay(ops[..i + 1], maxHeap) == Traces.Step(s, ops[i], maxHeap)
            && (ops[i].Alloc? <==> ops[i].id !in ids)
  {
    assert ops[..i + 1][..i] == ops[..i];
    if Traces.Outstanding(ops[..i + 1]) == None {
      Traces.DeadPrefix(ops, i + 1);
    }
    assert forall op | op in ops[..i] :: op in ops;
    Traces.ReplayLinked(ops[..i], maxHeap);
  }
}
