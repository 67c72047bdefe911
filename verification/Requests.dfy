/** The sizes of requests, which both allocators adjust in the same way. */
module Requests {
  import opened Words

  /** The largest request whose adjusted size does not wrap around 2^32. */
  const MAX_REQUEST: nat := 0xFFFF_FFF0

  /** Header, footer and alignment added to a request, in `size_t` arithmetic. */
  function AdjustSize(size: Word): Word {
    if size <= 8 then 16 else 8 * ((size + 15) % WORD_LIMIT / 8)
  }

  /** A request gets a block with room for it exactly when its adjusted size does not wrap. */
  lemma AdjustSizeExact(size: Word)
    requires size > 0
    ensures size + 8 <= AdjustSize(size) <==> size <= MAX_REQUEST
    ensures size <= MAX_REQUEST ==> AdjustSize(size) <= size + 15 && AdjustSize(size) % 8 == 0 && AdjustSize(size) >= 16
  {
    if size > 8 && size <= MAX_REQUEST {
      assert (size + 15) % WORD_LIMIT == size + 15;
    } else if size > 8 {
      assert (size + 15) % WORD_LIMIT == size + 15 - WORD_LIMIT;
    }
  }

  /** The adjustment at the start of `mm_malloc`; `need` counts doublewords. */
  method Adjust(size: Word) returns (asize: Word, ghost need: nat)
    requires 0 < size <= MAX_REQUEST
    ensures asize == AdjustSize(size) == 8 * need && need == AdjustSize(size) / 8
    ensures 16 <= asize <= 0xFFFF_FFF8 && need >= 2
  {
    AdjustSizeExact(size);
    asize := if size <= 8 then 8 + 8 else 8 * ((size + 8 + 7) % WORD_LIMIT / 8);
    need := asize / 8;
  }
}
