/**
 The simulated memory system: a fixed area of bytes with a break that only moves up, and
 the word and byte accesses the allocators and the driver make to it.
 */
module MemLib {
  import opened Words
  import opened Blocks
  import Layout

  /** The value of a 32-bit size_t passed where an int is expected. */
  function ToInt(n: int): int {
    if n >= 0x8000_0000 then n - WORD_LIMIT else n
  }

  class Heap {
    const mem: array<byte>
    var brk: int
    /** errno has been set to ENOMEM. */
    var enomem: bool

    ghost predicate Valid()
      reads this
    {
      mem.Length == MAX_HEAP && 0 <= brk <= MAX_HEAP
    }

    constructor ()
      ensures Valid() && brk == 0 && !enomem && fresh(mem)
    {
      mem := new byte[MAX_HEAP];
      brk := 0;
      enomem := false;
    }

    method ResetBrk()
      requires Valid()
      modifies `brk
      ensures Valid() && brk == 0
    {
      brk := 0;
    }

    /** mem_sbrk: the old break, or -1 when the area does not fit. */
    method Sbrk(n: int) returns (p: int)
      requires Valid() && 0 <= n < WORD_LIMIT
      modifies `brk, `enomem
      ensures Valid()
      ensures p == if old(brk) + n > MAX_HEAP then -1 else old(brk)
      ensures brk == if p == -1 then old(brk) else old(brk) + n
      ensures enomem == (old(enomem) || p == -1)
    {
      var incr := ToInt(n);
      if incr < 0 || brk + incr > MAX_HEAP {
        enomem := true;
        return -1;
      }
      p := brk;
      brk := brk + incr;
    }

    function HeapLo(): int {
      0
    }

    function HeapHi(): int
      reads this
    {
      brk - 1
    }

    function HeapSize(): int
      reads this
    {
      brk
    }

    /** GET. */
    function Get(p: int): int
      requires 0 <= p && p + 4 <= mem.Length
      reads this, mem
    {
      Word(mem[..], p)
    }

    function GetSize(p: int): int
      requires 0 <= p && p + 4 <= mem.Length
      reads this, mem
    {
      SizeOf(Word(mem[..], p))
    }

    function GetAlloc(p: int): bool
      requires 0 <= p && p + 4 <= mem.Length
      reads this, mem
    {
      AllocOf(Word(mem[..], p))
    }

    function Ftrp(bp: int): int
      requires 4 <= bp <= mem.Length
      reads this, mem
    {
      Layout.Ftrp(mem[..], bp)
    }

    function NextBlkp(bp: int): int
      requires 4 <= bp <= mem.Length
      reads this, mem
    {
      Layout.NextBlkp(mem[..], bp)
    }

    function PrevBlkp(bp: int): int
      requires 8 <= bp <= mem.Length
      reads this, mem
    {
      Layout.PrevBlkp(mem[..], bp)
    }

    /** The four-byte store. */
    method Put(p: int, v: int)
      requires 0 <= p && p + 4 <= mem.Length && 0 <= v < WORD_LIMIT
      modifies mem
      ensures mem[..] == PutWord(old(mem[..]), p, v)
    {
      mem[p] := v % 0x100;
      mem[p + 1] := v / 0x100 % 0x100;
      mem[p + 2] := v / 0x1_0000 % 0x100;
      mem[p + 3] := v / 0x100_0000;
    }

    /** Header, then footer where the new header says it is. */
    method PutTags(bp: int, size: int, alloc: bool)
      requires 4 <= bp && Good(Block(size, alloc)) && bp + size - 4 <= mem.Length <= MAX_HEAP
      modifies mem
      ensures Layout.Tags(mem[..], bp, Block(size, alloc), true)
      ensures SameOutside(old(mem[..]), mem[..], bp - 4, bp + size - 4)
    {
      hide Word, PutWord, SizeOf, AllocOf, Pack;
      PackFields(size, alloc);
      ghost var m := mem[..];
      Put(bp - 4, Pack(size, alloc));
      Put(Ftrp(bp), Pack(size, alloc));
      Layout.TagsStored(m, mem[..], bp, Block(size, alloc));
    }

    /** memcpy, whose two areas must not overlap. */
    method Memcpy(dst: int, src: int, n: int)
      requires 0 <= n && 0 <= dst && dst + n <= mem.Length && 0 <= src && src + n <= mem.Length
      requires dst + n <= src || src + n <= dst
      modifies mem
      ensures SameOutside(old(mem[..]), mem[..], dst, dst + n)
      ensures forall a | dst <= a < dst + n :: mem[a] == old(mem[src + (a - dst)])
    {
      forall a | dst <= a < dst + n {
        mem[a] := mem[src + (a - dst)];
      }
    }

    method Memset(p: int, c: byte, n: int)
      requires 0 <= n && 0 <= p && p + n <= mem.Length
      modifies mem
      ensures SameOutside(old(mem[..]), mem[..], p, p + n)
      ensures forall a | p <= a < p + n :: mem[a] == c
    {
      forall a | p <= a < p + n {
        mem[a] := c;
      }
    }
  }
}
