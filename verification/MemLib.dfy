/**
 * The simulated memory system: one flat array of 32-bit words with a break pointer. Addresses are
 * byte offsets from `mem_start_brk`, which is 8-aligned.
 */
module MemLib {
  import opened Words

  /** The byte stored at address `a` of memory `m`. */
  function ByteAt(m: seq<Word>, a: nat): Byte
    requires a < 4 * |m|
  {
    ByteOf(m[a / 4], a % 4)
  }

  /** Nothing but the bytes from `lo` up to `hi` differs between `m` and `m'`. */
  ghost predicate OnlyBytes(m: seq<Word>, m': seq<Word>, lo: nat, hi: nat) {
    && |m'| == |m|
    && forall a | 0 <= a < 4 * |m| && !(lo <= a < hi) :: ByteAt(m', a) == ByteAt(m, a)
  }

  /** A word whose four bytes are kept is kept. */
  lemma WordsOfBytes(m: seq<Word>, m': seq<Word>, lo: nat, hi: nat, w: nat)
    requires OnlyBytes(m, m', lo, hi) && w < |m|
    requires 4 * w + 4 <= lo || hi <= 4 * w
    ensures m'[w] == m[w]
  {
    forall k | 0 <= k < 4
      ensures ByteOf(m'[w], k) == ByteOf(m[w], k)
    {
      ByteAtWord(m, w, k);
      ByteAtWord(m', w, k);
      assert ByteAt(m', 4 * w + k) == ByteAt(m, 4 * w + k);
    }
    WordOfBytes(m'[w]);
    WordOfBytes(m[w]);
  }

  lemma ByteAtWord(m: seq<Word>, w: nat, k: nat)
    requires w < |m| && k < 4
    ensures ByteAt(m, 4 * w + k) == ByteOf(m[w], k)
  {
  }

  /** The `n` bytes of `m'` at `dst` are those of `m` at `src`. */
  ghost predicate Copied(m: seq<Word>, m': seq<Word>, dst: nat, src: nat, n: nat)
    requires src + n <= 4 * |m| && dst + n <= 4 * |m'|
  {
    forall a | dst <= a < dst + n :: ByteAt(m', a) == ByteAt(m, a - dst + src)
  }

  ghost predicate Filled(m: seq<Word>, dst: nat, n: nat, b: Byte)
    requires dst + n <= 4 * |m|
  {
    forall a | dst <= a < dst + n :: ByteAt(m, a) == b
  }

  ghost predicate FilledAt(m: seq<Word>, p: nat, size: nat, b: Byte) {
    p + size <= 4 * |m| && Filled(m, p, size, b)
  }

  class Memory {
    const words: array<Word>
    var brk: nat

    constructor (capacity: nat)
      ensures fresh(words) && words.Length == capacity && brk == 0
    {
      words := new Word[capacity];
      brk := 0;
    }

    function MaxHeap(): nat {
      4 * words.Length
    }

    /** The break stays inside the reserved area, whose size fits the `int` argument of `mem_sbrk`. */
    ghost predicate Valid()
      reads this
    {
      brk <= MaxHeap() < 0x8000_0000
    }

    method ResetBrk()
      modifies this
      ensures brk == 0
    {
      brk := 0;
    }

    /** `mem_sbrk`: `None` stands for `(void *)-1`. */
    method Sbrk(incr: int) returns (r: Option<nat>)
      requires Valid()
      modifies this
      ensures Valid()
      ensures r == None <==> incr < 0 || MaxHeap() < old(brk) + incr
      ensures r == None ==> brk == old(brk)
      ensures r != None ==> r.value == old(brk) && brk == old(brk) + incr
    {
      var oldBrk := brk;
      if incr < 0 || brk + incr > MaxHeap() {
        return None;
      }
      brk := brk + incr;
      return Some(oldBrk);
    }

    /** `mem_heap_lo`. */
    function HeapLo(): int {
      0
    }

    /** `mem_heap_hi`: the last byte of the heap. */
    function HeapHi(): int
      reads this
    {
      brk - 1
    }

    /** `GET`. */
    function Get(p: nat): Word
      requires p % 4 == 0 && p / 4 < words.Length
      reads words
    {
      words[p / 4]
    }

    lemma WordAt(ix: nat)
      requires ix < words.Length
      ensures 4 * ix % 4 == 0 && 4 * ix / 4 == ix && Get(4 * ix) == words[ix]
    {
    }

    /** `PUT`. */
    method Put(p: nat, v: Word)
      requires p % 4 == 0 && p / 4 < words.Length
      modifies words
      ensures words[..] == old(words[..])[p / 4 := v]
    {
      words[p / 4] := v;
    }

    function GetByte(a: nat): (b: Byte)
      requires a < MaxHeap()
      reads words
      ensures b == ByteAt(words[..], a)
    {
      ByteOf(words[a / 4], a % 4)
    }

    method PutByte(a: nat, b: Byte)
      requires a < MaxHeap()
      modifies words
      ensures OnlyBytes(old(words[..]), words[..], a, a + 1)
      ensures ByteAt(words[..], a) == b
    {
      words[a / 4] := WithByte(words[a / 4], a % 4, b);
    }

    /** `memcpy` between areas that do not overlap. */
    method Memcpy(dst: nat, src: nat, n: nat)
      requires dst + n <= MaxHeap() && src + n <= MaxHeap()
      requires dst + n <= src || src + n <= dst
      modifies words
      ensures OnlyBytes(old(words[..]), words[..], dst, dst + n)
      ensures Copied(old(words[..]), words[..], dst, src, n)
    {
      for k := 0 to n
        invariant OnlyBytes(old(words[..]), words[..], dst, dst + k)
        invariant Copied(old(words[..]), words[..], dst, src, k)
      {
        var b := GetByte(src + k);
        assert ByteAt(words[..], src + k) == ByteAt(old(words[..]), src + k);
        PutByte(dst + k, b);
      }
    }

    /** `memset`. */
    method Memset(dst: nat, b: Byte, n: nat)
      requires dst + n <= MaxHeap()
      modifies words
      ensures OnlyBytes(old(words[..]), words[..], dst, dst + n)
      ensures Filled(words[..], dst, n, b)
    {
      for k := 0 to n
        invariant OnlyBytes(old(words[..]), words[..], dst, dst + k)
        invariant Filled(words[..], dst, k, b)
      {
        PutByte(dst + k, b);
      }
    }
  }
}
