/**
 The byte-addressed heap and the 32-bit little-endian words stored in it, with the
 boundary-tag macros of the two allocators.  An address is an offset from the first
 heap byte.
 */
module Words {
  type byte = x: int | 0 <= x < 256

  /** One more than the largest value of a 32-bit `size_t`. */
  const WORD_LIMIT := 0x1_0000_0000

  /** A little-endian word from its bytes, lowest first. */
  function Sum4(b0: int, b1: int, b2: int, b3: int): int {
    b0 + 0x100 * b1 + 0x1_0000 * b2 + 0x100_0000 * b3
  }

  /** The word stored at address p: the first four bytes once p bytes are dropped. */
  function Word(m: seq<byte>, p: int): (w: int)
    requires 0 <= p && p + 4 <= |m|
    ensures 0 <= w < WORD_LIMIT
    decreases p
  {
    if p == 0 then Sum4(m[0], m[1], m[2], m[3]) else Word(m[1..], p - 1)
  }

  lemma {:induction false} WordIsBytes(m: seq<byte>, p: int)
    requires 0 <= p && p + 4 <= |m|
    ensures Word(m, p) == Sum4(m[p], m[p + 1], m[p + 2], m[p + 3])
    decreases p
  {
    if p > 0 {
      WordIsBytes(m[1..], p - 1);
    }
  }

  /** Memory m after the four-byte store of v at address p. */
  function PutWord(m: seq<byte>, p: int, v: int): (r: seq<byte>)
    requires 0 <= p && p + 4 <= |m|
    requires 0 <= v < WORD_LIMIT
    ensures |r| == |m|
    ensures Word(r, p) == v
    ensures forall q {:trigger Word(r, q)} :: 0 <= q && q + 4 <= |m| && (q + 4 <= p || p + 4 <= q) ==> Word(r, q) == Word(m, q)
    ensures SameOutside(m, r, p, p + 4)
  {
    var r := m[p := v % 0x100][p + 1 := v / 0x100 % 0x100][p + 2 := v / 0x1_0000 % 0x100][p + 3 := v / 0x100_0000];
    DigitsOfWord(v);
    WordIsBytes(r, p);
    WordsUntouched(m, r, p, p + 4);
    r
  }

  lemma WordsUntouched(m: seq<byte>, r: seq<byte>, lo: int, hi: int)
    requires SameOutside(m, r, lo, hi)
    ensures forall q {:trigger Word(r, q)} :: 0 <= q && q + 4 <= |m| && (q + 4 <= lo || hi <= q) ==> Word(r, q) == Word(m, q)
  {
    forall q {:trigger Word(r, q)} | 0 <= q && q + 4 <= |m| && (q + 4 <= lo || hi <= q) ensures Word(r, q) == Word(m, q) {
      WordFrame(m, r, lo, hi, q);
    }
  }

  /** m and r differ at most at addresses in lo..hi. */
  ghost predicate SameOutside(m: seq<byte>, r: seq<byte>, lo: int, hi: int) {
    |m| == |r| && forall a {:trigger r[a]} :: 0 <= a < |m| && (a < lo || hi <= a) ==> r[a] == m[a]
  }

  /** PACK, for a size that is a multiple of 8. */
  function Pack(size: int, alloc: bool): int {
    size + if alloc then 1 else 0
  }

  /** GET_SIZE applied to the word w. */
  function SizeOf(w: int): int {
    w - w % 8
  }

  /** GET_ALLOC applied to the word w. */
  function AllocOf(w: int): bool {
    w % 2 == 1
  }

  /** GET_TAG applied to the word w: 0 or 2. */
  function TagOf(w: int): int {
    w / 2 % 2 * 2
  }

  /** The fields of a word whose size part is a multiple of 8 and whose low digit is a. */
  lemma Fields(size: int, a: int)
    requires size % 8 == 0 && 0 <= a < 8
    ensures SizeOf(size + a) == size && AllocOf(size + a) == AllocOf(a) && TagOf(size + a) == TagOf(a)
  {
    var q, b := size / 8, a / 2;
    assert size + a == 8 * q + a;
    assert size + a == 2 * (4 * q + b) + a % 2;
    assert (size + a) / 2 == 4 * q + b;
    assert 4 * q + b == 2 * (2 * q + b / 2) + b % 2;
  }

  /** The fields as bits: bit 0 is the allocated bit, bit 1 the realloc tag, and the size is what is left above bit 2. */
  lemma WordBits(q: int, b2: int, tag: int, alloc: int)
    requires 0 <= b2 <= 1 && 0 <= tag <= 1 && 0 <= alloc <= 1
    ensures var w := 8 * q + 4 * b2 + 2 * tag + alloc;
      SizeOf(w) == 8 * q && TagOf(w) == 2 * tag && (AllocOf(w) <==> alloc == 1)
    ensures Pack(8 * q, alloc == 1) == 8 * q + alloc
  {
    Fields(8 * q, 4 * b2 + 2 * tag + alloc);
  }

  lemma LowDigits()
    ensures TagOf(0) == 0 == TagOf(1) && TagOf(2) == 2 == TagOf(3)
    ensures !AllocOf(0) && AllocOf(1) && !AllocOf(2) && AllocOf(3)
  {
  }

  lemma PackFields(size: int, alloc: bool)
    requires size % 8 == 0
    ensures SizeOf(Pack(size, alloc)) == size && AllocOf(Pack(size, alloc)) == alloc && TagOf(Pack(size, alloc)) == 0
    ensures 0 <= size < WORD_LIMIT ==> 0 <= Pack(size, alloc) < WORD_LIMIT
  {
    if size < WORD_LIMIT {
      PackBelowLimit(size);
    }
    hide SizeOf, AllocOf, TagOf;
    Fields(size, if alloc then 1 else 0);
    LowDigits();
  }

  lemma PackBelowLimit(size: int)
    requires size % 8 == 0 && size < WORD_LIMIT
    ensures size + 1 < WORD_LIMIT
  {
  }

  lemma TagBound(w: int)
    ensures TagOf(w) == 0 || TagOf(w) == 2
  {
  }

  /** A word outside a changed stretch keeps its value. */
  lemma WordFrame(m: seq<byte>, r: seq<byte>, lo: int, hi: int, p: int)
    requires SameOutside(m, r, lo, hi)
    requires 0 <= p && p + 4 <= |m|
    requires p + 4 <= lo || hi <= p
    ensures Word(r, p) == Word(m, p)
  {
    WordIsBytes(m, p);
    WordIsBytes(r, p);
  }

  lemma DigitsOfWord(v: int)
    requires 0 <= v < WORD_LIMIT
    ensures v / 0x100_0000 < 0x100
    ensures v == Sum4(v % 0x100, v / 0x100 % 0x100, v / 0x1_0000 % 0x100, v / 0x100_0000)
  {
    var t1 := v / 0x100;
    var t2 := t1 / 0x100;
    assert v / 0x1_0000 == t2 && v / 0x100_0000 == t2 / 0x100;
  }

  /** Storing back the word that is already there changes nothing. */
  lemma PutWordIdempotent(m: seq<byte>, p: int)
    requires 0 <= p && p + 4 <= |m|
    ensures PutWord(m, p, Word(m, p)) == m
  {
    WordIsBytes(m, p);
    BytesOfWord(m[p], m[p + 1], m[p + 2], m[p + 3]);
  }

  lemma BytesOfWord(b0: int, b1: int, b2: int, b3: int)
    requires 0 <= b0 < 256 && 0 <= b1 < 256 && 0 <= b2 < 256 && 0 <= b3 < 256
    ensures var v := Sum4(b0, b1, b2, b3);
      v % 0x100 == b0 && v / 0x100 % 0x100 == b1 && v / 0x1_0000 % 0x100 == b2 && v / 0x100_0000 == b3
  {
    var t2 := b2 + 0x100 * b3;
    var t1 := b1 + 0x100 * t2;
    var v := b0 + 0x100 * t1;
    assert v / 0x100 == t1 && t1 / 0x100 == t2 && t2 / 0x100 == b3;
    assert v / 0x1_0000 == t2;
    assert v / 0x100_0000 == b3;
  }
}
