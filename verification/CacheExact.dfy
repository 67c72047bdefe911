/** When the whole simulator, on address traces, is exactly LRU. */
module CacheExact {
  import opened CacheBits
  import opened CacheRow
  import opened CacheLru
  import opened CacheRuns

  /** Addresses of 64 bits. */
  ghost predicate Addresses(addrs: seq<nat>) {
    forall a | a in addrs :: a < Pow2(64)
  }

  /** The first address of the block with tag `tag` in set 0. */
  function AddressOf(g: Geometry, tag: nat): nat {
    Shl(tag, g.b + g.s)
  }

  function AddressesOf(g: Geometry, tags: seq<nat>): (r: seq<nat>)
    ensures |r| == |tags|
  {
    if tags == [] then [] else AddressesOf(g, tags[..|tags| - 1]) + [AddressOf(g, tags[|tags| - 1])]
  }

  lemma {:induction false} ShrOfShl(x: nat, j: nat, k: nat)
    ensures Shr(Shl(x, j + k), j) == Shl(x, k)
    decreases j
  {
    if j > 0 {
      ShrOfShl(x, j - 1, k);
      var y := Shl(x, j - 1 + k);
      assert Shl(x, j + k) == 2 * y && (2 * y) / 2 == y;
    }
  }

  lemma {:induction false} LowOfShl(x: nat, k: nat)
    ensures Low(Shl(x, k), k) == 0
  {
    if k > 0 {
      LowOfShl(x, k - 1);
      var y := Shl(x, k - 1);
      assert (2 * y) / 2 == y && (2 * y) % 2 == 0;
    }
  }

  lemma {:induction false} ShlBelow(x: nat, j: nat, k: nat)
    requires x < Pow2(j)
    ensures Shl(x, k) < Pow2(j + k)
    decreases k
  {
    if k > 0 {
      ShlBelow(x, j, k - 1);
    }
  }

  /** That address has this tag and lies in set 0. */
  lemma AddressFields(g: Geometry, tag: nat)
    ensures SetOf(g, AddressOf(g, tag)) == 0 && TagOf(g, AddressOf(g, tag)) == tag
  {
    ShlThenShr(tag, g.b + g.s);
    ShrOfShl(tag, g.b, g.s);
    LowOfShl(tag, g.s);
  }

  /** A trace that stays in set 0 is a run of that set. */
  lemma {:induction false} RunInSetZero(g: Geometry, tags: seq<nat>)
    requires g.ways > 0
    ensures var c := Run(g, AddressesOf(g, tags)); c.rows[0] == RunRow(g.ways, tags).0 && c.misses == RunRow(g.ways, tags).1
    ensures var l := LruRun(g, AddressesOf(g, tags)); l.lists[0] == RunLru(g.ways, tags).0 && l.misses == RunLru(g.ways, tags).1
    decreases |tags|
  {
    var addrs := AddressesOf(g, tags);
    if tags != [] {
      var pre, tag := tags[..|tags| - 1], tags[|tags| - 1];
      RunInSetZero(g, pre);
      AddressFields(g, tag);
      assert addrs[..|addrs| - 1] == AddressesOf(g, pre);
    }
  }

  ghost predicate SmallTags(tags: seq<nat>) {
    forall i | 0 <= i < |tags| :: tags[i] < Pow2(32)
  }

  lemma {:induction false} AddressesFit(g: Geometry, tags: seq<nat>, bits: nat)
    requires g.b + g.s <= 31 && SmallTags(tags) && 63 <= bits
    ensures forall a | a in AddressesOf(g, tags) :: a < Pow2(bits)
    decreases |tags|
  {
    if tags != [] {
      AddressesFit(g, tags[..|tags| - 1], bits);
      ShlBelow(tags[|tags| - 1], 32, g.b + g.s);
      Pow2Grows(32 + (g.b + g.s), bits);
    }
  }

  lemma {:induction false} Pow2Grows(j: nat, k: nat)
    requires j <= k
    ensures Pow2(j) <= Pow2(k)
    decreases k
  {
    if j < k {
      Pow2Grows(j, k - 1);
    }
  }

  lemma WitnessTags(ways: nat)
    ensures forall i | 0 <= i < |Witness(ways)| :: Witness(ways)[i] <= ways
  {
  }

  /** On the witness addresses the simulator misses once more than the reference LRU cache. */
  lemma WitnessTrace(g: Geometry)
    requires Sensible(g) && g.ways >= 3
    ensures var addrs := AddressesOf(g, Witness(g.ways));
            Addresses(addrs) && Run(g, addrs).misses == LruRun(g, addrs).misses + 1
  {
    WitnessTags(g.ways);
    Pow2Grows(31, 32);
    AddressesFit(g, Witness(g.ways), 64);
    WitnessDiffers(g.ways);
    RunInSetZero(g, Witness(g.ways));
  }

  /** The misses are those of the LRU cache on every trace of addresses exactly for one and two ways. */
  lemma SimulatorIsLruIff(g: Geometry)
    requires Sensible(g)
    ensures (forall addrs | Addresses(addrs) :: Run(g, addrs).misses == LruRun(g, addrs).misses) <==> g.ways <= 2
  {
    if g.ways <= 2 {
      forall addrs | Addresses(addrs)
        ensures Run(g, addrs).misses == LruRun(g, addrs).misses
      {
        ExactlyLru(g, addrs);
      }
    } else {
      WitnessTrace(g);
    }
  }
}
