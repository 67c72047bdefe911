/** Values shared by the modules: 32-bit words, the bytes inside them, and optional results. */
module Words {

  datatype Option<+T> = None | Some(value: T)

  const WORD_LIMIT := 0x1_0000_0000

  /** A `size_t` of the 32-bit build. */
  type Word = w: nat | w < WORD_LIMIT

  type Byte = b: nat | b < 256

  /** `GET_SIZE` and `GET_ALLOC` of a header word. */
  function SizeField(w: Word): nat {
    w - w % 8
  }

  function AllocField(w: Word): nat {
    w % 2
  }

  lemma TagFields(len: nat, a: nat, w: Word)
    requires a < 2 && w == 8 * len + a
    ensures SizeField(w) == 8 * len && AllocField(w) == a
  {
    var q, r := w / 8, w % 8;
    assert 8 * (q - len) == a - r;
    var p, s := w / 2, w % 2;
    assert 2 * (p - 4 * len) == a - s;
  }

  /** Converting a `size_t` argument to the `int` parameter of `mem_sbrk`. */
  function ToInt(w: Word): int {
    if w < 0x8000_0000 then w else w - WORD_LIMIT
  }

  /** Byte `k` of a little-endian word. */
  function ByteOf(w: Word, k: nat): Byte
    requires k < 4
  {
    if k == 0 then w % 0x100
    else if k == 1 then w / 0x100 % 0x100
    else if k == 2 then w / 0x1_0000 % 0x100
    else w / 0x100_0000
  }

  function WordOf(b0: Byte, b1: Byte, b2: Byte, b3: Byte): Word {
    b0 as nat + 0x100 * b1 as nat + 0x1_0000 * b2 as nat + 0x100_0000 * b3 as nat
  }

  lemma WordOfBytes(w: Word)
    ensures WordOf(ByteOf(w, 0), ByteOf(w, 1), ByteOf(w, 2), ByteOf(w, 3)) == w
  {
    var h1, h2: nat := w / 0x100, w / 0x1_0000;
    assert h1 / 0x100 == h2 && h2 / 0x100 == w / 0x100_0000;
    assert w == w % 0x100 + 0x100 * h1;
    assert h1 == h1 % 0x100 + 0x100 * h2;
    assert h2 == h2 % 0x100 + 0x100 * (h2 / 0x100);
  }

  lemma BytesOfWord(b0: Byte, b1: Byte, b2: Byte, b3: Byte)
    ensures var w := WordOf(b0, b1, b2, b3);
            ByteOf(w, 0) == b0 && ByteOf(w, 1) == b1 && ByteOf(w, 2) == b2 && ByteOf(w, 3) == b3
  {
    var w := WordOf(b0, b1, b2, b3);
    var h1 := b1 as nat + 0x100 * b2 as nat + 0x1_0000 * b3 as nat;
    var h2 := b2 as nat + 0x100 * b3 as nat;
    assert w == b0 + 0x100 * h1 && h1 == b1 + 0x100 * h2;
    assert w / 0x100 == h1 && h1 / 0x100 == h2;
    assert w / 0x1_0000 == h2 && w / 0x100_0000 == h2 / 0x100;
  }

  /** The word a one-byte store leaves behind. */
  function WithByte(w: Word, k: nat, b: Byte): (r: Word)
    requires k < 4
    ensures forall j :: 0 <= j < 4 ==> ByteOf(r, j) == if j == k then b else ByteOf(w, j)
  {
    var b0, b1, b2, b3 := ByteOf(w, 0), ByteOf(w, 1), ByteOf(w, 2), ByteOf(w, 3);
    BytesOfWord(b, b1, b2, b3);
    BytesOfWord(b0, b, b2, b3);
    BytesOfWord(b0, b1, b, b3);
    BytesOfWord(b0, b1, b2, b);
    if k == 0 then WordOf(b, b1, b2, b3)
    else if k == 1 then WordOf(b0, b, b2, b3)
    else if k == 2 then WordOf(b0, b1, b, b3)
    else WordOf(b0, b1, b2, b)
  }
}
