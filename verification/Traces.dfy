/** Allocation traces: what `checktrace.pl` accepts, and what an accepted trace does to the heap. */
module Traces {
  import opened Words
  import opened Blocks
  import opened FirstFitSpec
  import R = FirstFitRuns

  datatype Op = Alloc(id: nat, size: nat) | Free(id: nat) | Realloc(id: nat, size: nat)

  /** The ids allocated and not yet freed, or `None` when the trace is inconsistent. */
  function Outstanding(ops: seq<Op>): Option<set<nat>>
    decreases |ops|
  {
    if ops == [] then Some({})
    else
      match Outstanding(ops[..|ops| - 1])
      case None => None
      case Some(ids) =>
        match ops[|ops| - 1]
        case Alloc(id, _) => if id in ids then None else Some(ids + {id})
        case Free(id) => if id in ids then Some(ids - {id}) else None
        case Realloc(id, _) => if id in ids then Some(ids) else None
  }

  /** The last alloc or free request of `id` before request `n` is an alloc. */
  ghost predicate Open(ops: seq<Op>, n: nat, id: nat)
    requires n <= |ops|
  {
    exists k :: OpenedAt(ops, n, id, k)
  }

  ghost predicate OpenedAt(ops: seq<Op>, n: nat, id: nat, k: nat)
    requires n <= |ops|
  {
    k < n && ops[k].Alloc? && ops[k].id == id && forall j | k < j < n && ops[j].id == id :: ops[j].Realloc?
  }

  /** Allocs and frees of each id alternate, an alloc first, and a realloc stands between the two. */
  ghost predicate Alternates(ops: seq<Op>) {
    forall n | 0 <= n < |ops| :: ops[n].Alloc? <==> !Open(ops, n, ops[n].id)
  }

  lemma OpenNext(ops: seq<Op>, n: nat, id: nat)
    requires n < |ops|
    ensures Open(ops, n + 1, id) <==> if ops[n].id == id && !ops[n].Realloc? then ops[n].Alloc? else Open(ops, n, id)
  {
    if Open(ops, n, id) && (ops[n].id != id || ops[n].Realloc?) {
      var k: nat :| OpenedAt(ops, n, id, k);
      assert OpenedAt(ops, n + 1, id, k);
    }
    if ops[n].Alloc? && ops[n].id == id {
      assert OpenedAt(ops, n + 1, id, n);
    }
    if Open(ops, n + 1, id) {
      var k: nat :| OpenedAt(ops, n + 1, id, k);
      assert k < n ==> OpenedAt(ops, n, id, k);
    }
  }

  /** A trace is consistent exactly when it alternates, and then the open ids are the outstanding ones. */
  lemma {:induction false} OutstandingMeans(ops: seq<Op>, n: nat)
    requires n <= |ops|
    ensures Outstanding(ops[..n]) != None <==> forall m | 0 <= m < n :: ops[m].Alloc? <==> !Open(ops, m, ops[m].id)
    ensures Outstanding(ops[..n]) != None ==> forall id :: id in Outstanding(ops[..n]).value <==> Open(ops, n, id)
    decreases n
  {
    if n > 0 {
      OutstandingMeans(ops, n - 1);
      assert ops[..n][..n - 1] == ops[..n - 1];
      if Outstanding(ops[..n]) != None {
        forall id ensures id in Outstanding(ops[..n]).value <==> Open(ops, n, id) {
          OpenNext(ops, n - 1, id);
        }
      }
    }
  }

  lemma ConsistentIff(ops: seq<Op>)
    ensures Outstanding(ops) != None <==> Alternates(ops)
    ensures Outstanding(ops) != None ==> forall id :: id in Outstanding(ops).value <==> Open(ops, |ops|, id)
  {
    OutstandingMeans(ops, |ops|);
    assert ops[..|ops|] == ops;
  }

  /** The main loop of `checktrace.pl`: the hash it leaves, or `None` where it dies. */
  method ReadTrace(ops: seq<Op>) returns (r: Option<map<nat, char>>)
    ensures r == None <==> Outstanding(ops) == None
    ensures r != None ==> r.value.Keys == Outstanding(ops).value && forall id | id in r.value :: r.value[id] == 'a'
  {
    var hash: map<nat, char> := map[];
    assert hash.Keys == {};
    for i := 0 to |ops|
      invariant Outstanding(ops[..i]) != None && Outstanding(ops[..i]).value == hash.Keys
      invariant forall id | id in hash :: hash[id] == 'a'
    {
      assert ops[..i + 1][..i] == ops[..i];
      match ops[i] {
        case Realloc(id, _) =>
          if id !in hash {
            DeadPrefix(ops, i + 1);
            return None;
          }
        case Alloc(id, _) =>
          if id in hash && hash[id] == 'a' {
            DeadPrefix(ops, i + 1);
            return None;
          }
          assert hash[id := 'a'].Keys == hash.Keys + {id};
          hash := hash[id := 'a'];
        case Free(id) =>
          if id !in hash {
            DeadPrefix(ops, i + 1);
            return None;
          }
          assert (hash - {id}).Keys == hash.Keys - {id};
          hash := hash - {id};
      }
    }
    assert ops[..|ops|] == ops;
    return Some(hash);
  }

  lemma {:induction false} DeadPrefix(ops: seq<Op>, n: nat)
    requires n <= |ops| && Outstanding(ops[..n]) == None
    ensures Outstanding(ops) == None
    decreases |ops|
  {
    if n < |ops| {
      assert ops[..|ops| - 1][..n] == ops[..n];
      DeadPrefix(ops[..|ops| - 1], n);
    } else {
      assert ops[..n] == ops;
    }
  }

  /** `checktrace.pl`: an accepted trace followed by a free request for every outstanding id. */
  method Balance(ops: seq<Op>) returns (r: Option<seq<Op>>)
    ensures r == None <==> Outstanding(ops) == None
    ensures r != None ==> ops <= r.value && Outstanding(r.value) == Some({}) && |r.value| == |ops| + |Outstanding(ops).value|
    ensures r != None ==> forall k | |ops| <= k < |r.value| :: r.value[k].Free? && r.value[k].id in Outstanding(ops).value
  {
    var hash := ReadTrace(ops);
    if hash == None {
      return None;
    }
    var keys, lines := hash.value.Keys, ops;
    while keys != {}
      invariant ops <= lines && Outstanding(lines) == Some(keys)
      invariant keys <= hash.value.Keys && |lines| + |keys| == |ops| + |hash.value.Keys|
      invariant forall k | |ops| <= k < |lines| :: lines[k].Free? && lines[k].id in hash.value
      decreases |keys|
    {
      var id :| id in keys;
      assert (lines + [Op.Free(id)])[..|lines|] == lines;
      keys, lines := keys - {id}, lines + [Op.Free(id)];
    }
    return Some(lines);
  }

  lemma {:induction false} OutstandingIds(ops: seq<Op>, id: nat)
    requires Outstanding(ops) != None && id in Outstanding(ops).value
    ensures exists op :: op in ops && op.id == id
    decreases |ops|
  {
    var pre := ops[..|ops| - 1];
    if id in Outstanding(pre).value {
      OutstandingIds(pre, id);
      var op :| op in pre && op.id == id;
      assert op in ops;
    } else {
      assert ops[|ops| - 1] in ops;
    }
  }

  // ---- What a trace does to a first-fit heap ----

  /** The allocator's state, the address behind every outstanding id, and the id behind every address. */
  datatype State = State(run: R.State, table: map<nat, nat>, owner: map<nat, nat>)

  /** `None` when `mm_malloc` returns NULL, for itself or inside `mm_realloc`. */
  function Step(s: State, op: Op, maxHeap: nat): Option<State>
    requires |s.run.heap.blocks| > 0
  {
    match op
    case Alloc(id, size) =>
      if size >= WORD_LIMIT then None
      else
        var p := Allocate(s.run.heap, size, maxHeap).1;
        if p == None then None
        else Some(State(R.Step(s.run, R.Malloc(size), maxHeap), s.table[id := p.value], s.owner[p.value := id]))
    case Free(id) =>
      if id in s.table then
        var p := s.table[id];
        Some(State(R.Step(s.run, R.Free(p), maxHeap), s.table - {id}, s.owner - {p}))
      else Some(s)
    case Realloc(id, size) =>
      if id !in s.table then Some(s)
      else if size >= WORD_LIMIT then None
      else
        var p, q := s.table[id], Allocate(s.run.heap, size, maxHeap).1;
        if q == None then None
        else Some(State(R.Step(s.run, R.Realloc(p, size), maxHeap), s.table[id := q.value], (s.owner - {p})[q.value := id]))
  }

  function Replay(ops: seq<Op>, maxHeap: nat): Option<State>
    decreases |ops|
  {
    if ops == [] then Some(State(R.Init(maxHeap), map[], map[]))
    else
      match Replay(ops[..|ops| - 1], maxHeap)
      case None => None
      case Some(s) => if |s.run.heap.blocks| > 0 then Step(s, ops[|ops| - 1], maxHeap) else None
  }

  /** Sizes are positive `int`s. */
  ghost predicate Positive(ops: seq<Op>) {
    forall op | op in ops :: !op.Free? ==> 0 < op.size < 0x8000_0000
  }

  /** `table` and `owner` are inverse to each other. */
  ghost predicate Paired(table: map<nat, nat>, owner: map<nat, nat>) {
    && (forall id | id in table :: table[id] in owner && owner[table[id]] == id)
    && (forall p | p in owner :: owner[p] in table && table[owner[p]] == p)
  }

  /** The ids and the live addresses correspond one to one. */
  ghost predicate Named(table: map<nat, nat>, owner: map<nat, nat>, live: map<nat, nat>, ids: set<nat>) {
    table.Keys == ids && owner.Keys == live.Keys && Paired(table, owner)
  }

  /** Outstanding ids and live addresses correspond one to one. */
  ghost predicate Linked(s: State, ids: set<nat>, maxHeap: nat) {
    R.Good(s.run, maxHeap) && Named(s.table, s.owner, s.run.live, ids)
  }

  lemma NameAdded(table: map<nat, nat>, owner: map<nat, nat>, live: map<nat, nat>, ids: set<nat>, id: nat, p: nat, size: nat)
    requires Named(table, owner, live, ids) && id !in ids && p !in live
    ensures Named(table[id := p], owner[p := id], live[p := size], ids + {id})
  {
    assert table[id := p].Keys == table.Keys + {id};
    assert owner[p := id].Keys == owner.Keys + {p} && live[p := size].Keys == live.Keys + {p};
  }

  lemma NameRemoved(table: map<nat, nat>, owner: map<nat, nat>, live: map<nat, nat>, ids: set<nat>, id: nat)
    requires Named(table, owner, live, ids) && id in ids
    ensures table[id] in live && Named(table - {id}, owner - {table[id]}, live - {table[id]}, ids - {id})
  {
    var p := table[id];
    assert (table - {id}).Keys == table.Keys - {id};
    assert (owner - {p}).Keys == owner.Keys - {p} && (live - {p}).Keys == live.Keys - {p};
  }

  lemma NameMoved(table: map<nat, nat>, owner: map<nat, nat>, live: map<nat, nat>, ids: set<nat>, id: nat, q: nat, size: nat)
    requires Named(table, owner, live, ids) && id in ids && q !in live
    ensures Named(table[id := q], (owner - {table[id]})[q := id], live[q := size] - {table[id]}, ids)
  {
    var p := table[id];
    NameRemoved(table, owner, live, ids, id);
    NameAdded(table - {id}, owner - {p}, live - {p}, ids - {id}, id, q, size);
    assert (table - {id})[id := q] == table[id := q];
    assert (live - {p})[q := size] == live[q := size] - {p};
    assert ids - {id} + {id} == ids;
  }

  lemma AllocLinked(s: State, id: nat, size: nat, ids: set<nat>, maxHeap: nat)
    requires Linked(s, ids, maxHeap) && id !in ids && 0 < size < 0x8000_0000
    requires Step(s, Alloc(id, size), maxHeap) != None
    ensures Linked(Step(s, Alloc(id, size), maxHeap).value, ids + {id}, maxHeap)
    ensures Step(s, Alloc(id, size), maxHeap).value.table[id] !in s.run.live
  {
    var p := Allocate(s.run.heap, size, maxHeap).1.value;
    R.MallocGood(s.run, size, maxHeap);
    NameAdded(s.table, s.owner, s.run.live, ids, id, p, size);
  }

  lemma FreeLinked(s: State, id: nat, ids: set<nat>, maxHeap: nat)
    requires Linked(s, ids, maxHeap) && id in ids
    ensures Linked(Step(s, Op.Free(id), maxHeap).value, ids - {id}, maxHeap)
  {
    NameRemoved(s.table, s.owner, s.run.live, ids, id);
    R.FreeGood(s.run, s.table[id], maxHeap);
  }

  lemma ReallocLinked(s: State, id: nat, size: nat, ids: set<nat>, maxHeap: nat)
    requires Linked(s, ids, maxHeap) && id in ids && 0 < size < 0x8000_0000
    requires Step(s, Realloc(id, size), maxHeap) != None
    ensures var t := Step(s, Realloc(id, size), maxHeap).value; Linked(t, ids, maxHeap) && t.table[id] !in s.run.live
  {
    var p, q := s.table[id], Allocate(s.run.heap, size, maxHeap).1.value;
    NameRemoved(s.table, s.owner, s.run.live, ids, id);
    R.ReallocGood(s.run, p, size, maxHeap);
    NameMoved(s.table, s.owner, s.run.live, ids, id, q, size);
  }

  /** What a free request of an outstanding id does, field by field. */
  lemma FreeStep(s: State, id: nat, ids: set<nat>, maxHeap: nat)
    requires Linked(s, ids, maxHeap) && id in ids
    ensures id in s.table && s.table[id] in s.run.live && forall jd | jd in s.table && jd != id :: s.table[jd] != s.table[id]
    ensures var p, t := s.table[id], Step(s, Op.Free(id), maxHeap).value;
            t.run.heap == Release(s.run.heap, p) && t.run.live == s.run.live - {p} && t.table == s.table - {id}
  {
  }

  /** What an alloc request does, field by field. */
  lemma AllocStep(s: State, id: nat, size: nat, maxHeap: nat)
    requires |s.run.heap.blocks| > 0 && size < WORD_LIMIT
    ensures var (g, q) := Allocate(s.run.heap, size, maxHeap);
            && (q == None <==> Step(s, Alloc(id, size), maxHeap) == None)
            && (q != None ==> var t := Step(s, Alloc(id, size), maxHeap).value;
                              t.run.heap == g && t.run.live == s.run.live[q.value := size] && t.table == s.table[id := q.value])
  {
  }

  /** What a realloc request of an outstanding id does, field by field. */
  lemma ReallocStep(s: State, id: nat, size: nat, ids: set<nat>, maxHeap: nat)
    requires Linked(s, ids, maxHeap) && id in ids && size < WORD_LIMIT
    ensures id in s.table && s.table[id] in s.run.live && forall jd | jd in s.table && jd != id :: s.table[jd] != s.table[id]
    ensures var p := s.table[id]; var (g, q) := Allocate(s.run.heap, size, maxHeap);
            && (q == None <==> Step(s, Realloc(id, size), maxHeap) == None)
            && (q != None ==> var t := Step(s, Realloc(id, size), maxHeap).value;
                              t.run.heap == Release(g, p) && t.run.live == s.run.live[q.value := size] - {p} && t.table == s.table[id := q.value])
  {
  }

  /** A consistent trace keeps ids and live blocks in step for as long as memory lasts. */
  lemma {:induction false} ReplayLinked(ops: seq<Op>, maxHeap: nat)
    requires 16 <= maxHeap && Positive(ops) && Outstanding(ops) != None && Replay(ops, maxHeap) != None
    ensures Linked(Replay(ops, maxHeap).value, Outstanding(ops).value, maxHeap)
    decreases |ops|
  {
    R.InitGood(maxHeap);
    if ops != [] {
      var pre, op := ops[..|ops| - 1], ops[|ops| - 1];
      assert op in ops;
      ReplayLinked(pre, maxHeap);
      var s, ids := Replay(pre, maxHeap).value, Outstanding(pre).value;
      match op
      case Alloc(id, size) => AllocLinked(s, id, size, ids, maxHeap);
      case Free(id) => FreeLinked(s, id, ids, maxHeap);
      case Realloc(id, size) => ReallocLinked(s, id, size, ids, maxHeap);
    }
  }

  /** Request `k` is the last of `id`, and it asks for `size` bytes. */
  ghost predicate LastAsks(ops: seq<Op>, id: nat, k: nat, size: nat) {
    k < |ops| && ops[k].id == id && !ops[k].Free? && ops[k].size == size && forall j | k < j < |ops| :: ops[j].id != id
  }

  lemma NewAddress(s: State, size: nat, ids: set<nat>, maxHeap: nat)
    requires Linked(s, ids, maxHeap) && 0 < size < 0x8000_0000
    ensures var q := Allocate(s.run.heap, size, maxHeap).1; q != None ==> q.value !in s.run.live
  {
    R.MallocGood(s.run, size, maxHeap);
  }

  /** A request of another id leaves the size behind `id` as it is. */
  lemma SizeKept(s: State, op: Op, ids: set<nat>, maxHeap: nat, id: nat)
    requires Linked(s, ids, maxHeap) && id in ids && op.id != id && (op.Alloc? <==> op.id !in ids)
    requires (!op.Free? ==> 0 < op.size < 0x8000_0000) && Step(s, op, maxHeap) != None
    ensures var t := Step(s, op, maxHeap).value;
            id in t.table && t.table[id] in t.run.live && s.table[id] in s.run.live && t.run.live[t.table[id]] == s.run.live[s.table[id]]
  {
    NameRemoved(s.table, s.owner, s.run.live, ids, id);
    match op
    case Alloc(_, size) =>
      AllocStep(s, op.id, size, maxHeap);
      NewAddress(s, size, ids, maxHeap);
    case Realloc(_, size) =>
      ReallocStep(s, op.id, size, ids, maxHeap);
      NewAddress(s, size, ids, maxHeap);
    case Free(_) =>
      FreeStep(s, op.id, ids, maxHeap);
  }

  lemma SizeAsked(s: State, op: Op, ids: set<nat>, maxHeap: nat)
    requires Linked(s, ids, maxHeap) && !op.Free? && (op.Alloc? <==> op.id !in ids)
    requires 0 < op.size < 0x8000_0000 && Step(s, op, maxHeap) != None
    ensures var t := Step(s, op, maxHeap).value;
            op.id in t.table && t.table[op.id] in t.run.live && t.run.live[t.table[op.id]] == op.size
  {
    match op
    case Alloc(id, size) =>
      AllocStep(s, id, size, maxHeap);
    case Realloc(id, size) =>
      ReallocStep(s, id, size, ids, maxHeap);
      NewAddress(s, size, ids, maxHeap);
  }

  /** Behind each outstanding id is a live payload of the size its last request asked for. */
  lemma {:induction false} ReplaySizes(ops: seq<Op>, maxHeap: nat, id: nat, k: nat, size: nat)
    requires 16 <= maxHeap && Positive(ops) && Outstanding(ops) != None && Replay(ops, maxHeap) != None
    requires LastAsks(ops, id, k, size)
    ensures var s := Replay(ops, maxHeap).value; id in s.table && s.table[id] in s.run.live && s.run.live[s.table[id]] == size
    decreases |ops|
  {
    var pre, op := ops[..|ops| - 1], ops[|ops| - 1];
    assert op in ops;
    assert Positive(pre);
    ReplayLinked(pre, maxHeap);
    var s, ids := Replay(pre, maxHeap).value, Outstanding(pre).value;
    if k == |ops| - 1 {
      SizeAsked(s, op, ids, maxHeap);
    } else {
      assert LastAsks(pre, id, k, size);
      ReplaySizes(pre, maxHeap, id, k, size);
      SizeKept(s, op, ids, maxHeap, id);
    }
  }

  /**
   * A balanced trace that does not run out of memory leaves the heap as one free block that
   * fills it, whatever the order in which the blocks were freed.
   */
  lemma BalancedLeavesOneBlock(ops: seq<Op>, maxHeap: nat)
    requires 16 + CHUNKSIZE <= maxHeap && Positive(ops)
    requires Outstanding(ops) == Some({}) && Replay(ops, maxHeap) != None
    ensures var h := Replay(ops, maxHeap).value.run.heap;
            h.top > 2 && h.blocks == [PROLOGUE, Block(2, h.top - 2, Kind.Free)]
  {
    ReplayLinked(ops, maxHeap);
    var s := Replay(ops, maxHeap).value;
    assert s.run.live == map[];
    R.AllFreedIsOneBlock(s.run, maxHeap);
    TopGrows(ops, maxHeap);
  }

  lemma StepTop(s: State, op: Op, ids: set<nat>, maxHeap: nat)
    requires Linked(s, ids, maxHeap) && (!op.Free? ==> 0 < op.size < 0x8000_0000) && Step(s, op, maxHeap) != None
    ensures s.run.heap.top <= Step(s, op, maxHeap).value.run.heap.top
  {
    match op
    case Alloc(_, size) => R.AllocateGrows(s.run.heap, size, maxHeap);
    case Realloc(_, size) => R.AllocateGrows(s.run.heap, size, maxHeap);
    case Free(_) =>
  }

  lemma {:induction false} TopGrows(ops: seq<Op>, maxHeap: nat)
    requires 16 + CHUNKSIZE <= maxHeap && Positive(ops) && Outstanding(ops) != None && Replay(ops, maxHeap) != None
    ensures Replay(ops, maxHeap).value.run.heap.top >= 2 + CHUNKSIZE / 8
    decreases |ops|
  {
    if ops != [] {
      var pre, op := ops[..|ops| - 1], ops[|ops| - 1];
      assert op in ops;
      TopGrows(pre, maxHeap);
      ReplayLinked(pre, maxHeap);
      StepTop(Replay(pre, maxHeap).value, op, Outstanding(pre).value, maxHeap);
    }
  }
}
