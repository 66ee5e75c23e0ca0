/** The arena allocator: a chain of blocks, newest first, each a header
    followed by `size` bytes of memory served by bumping an offset.
    Addresses are naturals below 2^64; mapping a block is a parameter, the
    address the mapping returned or `None` for a failed mapping. */
module Arena {
  import opened InkBase
  import opened Wrappers

  /** sizeof(ArenaBlock) on a 64-bit target: memory pointer, size, offset
      and next pointer. A block's memory starts right after it. */
  const HeaderSize: nat := 32

  /** Mappings start on a page boundary. */
  const PageSize: nat := 4096

  /** One block: where its memory starts, how many bytes it has, and how
      many are handed out. */
  datatype Block = Block(memory: nat, size: nat, offset: nat)

  /** The arena: its blocks from the head along `next`, and the default
      block size. A null head is the empty chain. */
  datatype ArenaState = ArenaState(blocks: seq<Block>, blockSize: nat)

  /** A block's memory lies in the address space and its offset within its
      size. */
  predicate ValidBlock(b: Block) {
    b.offset <= b.size && b.memory + b.size < U64
  }

  predicate Valid(a: ArenaState) {
    forall i | 0 <= i < |a.blocks| :: ValidBlock(a.blocks[i])
  }

  /** The least multiple of `align` at or above `x`. */
  function RoundUp(x: nat, align: nat): (r: nat)
    requires align > 0
  {
    x + (align - x % align) % align
  }

  lemma RoundUpSpec(x: nat, align: nat)
    requires align > 0
    ensures RoundUp(x, align) % align == 0
    ensures x <= RoundUp(x, align) < x + align
  {
    var q := x / align;
    var m := x % align;
    assert x == q * align + m;
    if m == 0 {
      ModUnique(align, align, 1, 0);
      assert RoundUp(x, align) == x;
    } else {
      ModUnique(align - m, align, 0, align - m);
      assert RoundUp(x, align) == x + (align - m);
      assert (q + 1) * align == q * align + align;
      ModUnique((q + 1) * align, align, q + 1, 0);
    }
  }

  /** Two multiples of `a` closer than `a` are equal. */
  lemma MultiplesApart(r1: nat, r2: nat, a: nat)
    requires a > 0 && r1 % a == 0 && r2 % a == 0 && r1 <= r2 < r1 + a
    ensures r1 == r2
  {
    var q1 := r1 / a;
    var q2 := r2 / a;
    assert r1 == q1 * a && r2 == q2 * a;
    if q1 < q2 {
      MulMonotone(q1 + 1, q2, a);
    }
    if q2 < q1 {
      MulMonotone(q2 + 1, q1, a);
    }
  }

  /** INK_ALIGN_SIZE with a power-of-two alignment and no overflow is
      rounding up. */
  lemma AlignSizeIsRoundUp(x: nat, k: nat)
    requires k < 64 && x + Pow2(k) - 1 < U64
    ensures Pow2(k) < U64
    ensures AlignSize(x, Pow2(k)) == RoundUp(x, Pow2(k))
  {
    AlignSizeIsLeastMultiple(x, k);
    RoundUpSpec(x, Pow2(k));
    var r1 := AlignSize(x, Pow2(k));
    var r2 := RoundUp(x, Pow2(k));
    if r1 <= r2 {
      MultiplesApart(r1, r2, Pow2(k));
    } else {
      MultiplesApart(r2, r1, Pow2(k));
    }
  }

  /** `arena_new_block(size)`: null when the mapping fails; otherwise a
      block whose memory follows its header, of the requested size, with
      nothing handed out yet. */
  function NewBlock(size: nat, mapped: Option<nat>): (r: Option<Block>)
    ensures mapped.None? <==> r.None?
    ensures r.Some? ==> r.value.size == size && r.value.offset == 0
    ensures r.Some? ==> r.value.memory == mapped.value + HeaderSize
  {
    match mapped
    case None => None
    case Some(addr) => Some(Block(addr + HeaderSize, size, 0))
  }

  /** `arena_init(a, block_size)`: records the block size and makes one
      block of that size the head, or leaves the head null when mapping
      fails. */
  function Init(blockSize: nat, mapped: Option<nat>): (r: ArenaState)
    requires mapped.Some? ==> mapped.value + HeaderSize + blockSize < U64
    ensures Valid(r) && r.blockSize == blockSize
    ensures mapped.None? ==> r.blocks == []
    ensures mapped.Some? ==> |r.blocks| == 1 && r.blocks[0].size == blockSize && r.blocks[0].offset == 0
  {
    match NewBlock(blockSize, mapped)
    case None => ArenaState([], blockSize)
    case Some(b) => ArenaState([b], blockSize)
  }

  /** `arena_alloc_block(b, size, align)`, in 64-bit unsigned arithmetic:
      the allocation starts at the current position aligned up, and the
      offset moves past it; when that would pass the block's size the
      block is left alone and the result is null. */
  function AllocBlock(b: Block, size: nat, align: nat): (res: (Block, Option<nat>))
    requires b.memory < U64 && b.offset < U64 && size < U64 && align < U64
    ensures res.1.None? ==> res.0 == b
    ensures res.1.Some? ==> res.0 == b.(offset := res.0.offset) && res.0.offset <= b.size
  {
    var current := (b.memory + b.offset) % U64;
    var dest := AlignSize(current, align) % U64;
    var newOffset := (Sub64(dest, b.memory) + size) % U64;
    if newOffset > b.size then (b, None)
    else (b.(offset := newOffset), Some(dest))
  }

  /** For a power-of-two alignment and a block clear of the top of the
      address space, `arena_alloc_block` succeeds exactly when the aligned
      position plus `size` fits the block. The result is then aligned, at
      or above the old position, and ends at the new position, so the
      offset only grows, stays within the block, and successive
      allocations do not overlap. */
  lemma AllocBlockSpec(b: Block, size: nat, k: nat)
    requires ValidBlock(b) && k < 64 && size < U64
    requires b.memory + b.size + Pow2(k) + size < U64
    ensures Pow2(k) < U64
    ensures var (b', d) := AllocBlock(b, size, Pow2(k));
      var dest := RoundUp(b.memory + b.offset, Pow2(k));
      && (d.Some? <==> dest + size <= b.memory + b.size)
      && (d.Some? ==> d.value == dest && d.value % Pow2(k) == 0)
      && (d.Some? ==> b.memory + b.offset <= d.value && d.value + size == b.memory + b'.offset)
      && ValidBlock(b')
  {
    var a := Pow2(k);
    var cur := b.memory + b.offset;
    AlignSizeIsRoundUp(cur, k);
    RoundUpSpec(cur, a);
    AllocBlockAt(b, size, a, RoundUp(cur, a));
  }

  /** `arena_alloc_block` once the aligned position `dest` is known and no
      step overflows. */
  lemma AllocBlockAt(b: Block, size: nat, align: nat, dest: nat)
    requires b.memory + b.offset < U64 && size < U64 && align < U64
    requires AlignSize(b.memory + b.offset, align) == dest
    requires b.memory <= dest && dest + size < U64
    ensures AllocBlock(b, size, align) ==
      if dest - b.memory + size > b.size then (b, None)
      else (b.(offset := dest - b.memory + size), Some(dest))
  {
    Below64(b.memory + b.offset);
    Below64(dest);
    assert Sub64(dest, b.memory) == dest - b.memory;
    Below64(dest - b.memory + size);
  }

  lemma Pow2Below64(k: nat)
    requires k < 64
    ensures Pow2(k) < U64
  {
    Pow2Monotone(k + 1, 64);
    Pow2At64();
  }

  lemma Below64(x: nat)
    requires x < U64
    ensures x % U64 == x
  {
  }

  /** Two allocations in a row from one block occupy disjoint ranges. */
  lemma SuccessiveAllocsDisjoint(b: Block, s1: nat, s2: nat, k: nat)
    requires ValidBlock(b) && k < 64 && s1 < U64 && s2 < U64
    requires b.memory + b.size + Pow2(k) + s1 + s2 < U64
    ensures Pow2(k) < U64
    ensures var (b1, d1) := AllocBlock(b, s1, Pow2(k));
      var (b2, d2) := AllocBlock(b1, s2, Pow2(k));
      d1.Some? && d2.Some? ==> d1.value + s1 <= d2.value
  {
    AllocBlockSpec(b, s1, k);
    var (b1, d1) := AllocBlock(b, s1, Pow2(k));
    AllocBlockSpec(b1, s2, k);
  }

  /** `arena_alloc_hard` as written: maps a block of max(size, block_size),
      links it in as the head and allocates from it. The block has no room
      for alignment padding. */
  function AllocHardAsWritten(a: ArenaState, size: nat, align: nat, mapped: Option<nat>): (res: (ArenaState, Option<nat>))
    requires Valid(a) && size < U64 && align < U64
    requires mapped.Some? ==> mapped.value + HeaderSize + Max(size, a.blockSize) < U64
    ensures mapped.None? ==> res == (a, None)
    ensures mapped.Some? ==> |res.0.blocks| == |a.blocks| + 1 && res.0.blocks[1..] == a.blocks
  {
    match NewBlock(Max(size, a.blockSize), mapped)
    case None => (a, None)
    case Some(nb) =>
      var (nb', d) := AllocBlock(nb, size, align);
      (a.(blocks := [nb'] + a.blocks), d)
  }

  /** A page-aligned block puts its memory 32 bytes past a page boundary,
      so a 64-byte alignment pads by 32 and the fresh block of exactly
      4096 bytes cannot take a 4096-byte request: the block is mapped and
      linked, yet the result is null. */
  lemma AllocHardAsWrittenFails()
    ensures var a := ArenaState([], 4096);
      var (a', d) := AllocHardAsWritten(a, 4096, 64, Some(PageSize));
      d.None? && |a'.blocks| == 1
  {
    var nb := Block(PageSize + HeaderSize, 4096, 0);
    assert Pow2(6) == 64;
    AllocBlockSpec(nb, 4096, 6);
    assert RoundUp(PageSize + HeaderSize, 64) == 4160;
  }

  /** `arena_alloc_hard`, sized so that the request fits after padding: a
      block of max(size + align - 1, block_size). */
  function AllocHard(a: ArenaState, size: nat, align: nat, mapped: Option<nat>): (res: (ArenaState, Option<nat>))
    requires Valid(a) && size < U64 && 0 < align < U64
    requires mapped.Some? ==> mapped.value + HeaderSize + Max(size + align - 1, a.blockSize) + align + size < U64
    ensures mapped.None? ==> res == (a, None)
    ensures mapped.Some? ==> |res.0.blocks| == |a.blocks| + 1 && res.0.blocks[1..] == a.blocks
  {
    match NewBlock(Max(size + align - 1, a.blockSize), mapped)
    case None => (a, None)
    case Some(nb) =>
      var (nb', d) := AllocBlock(nb, size, align);
      (a.(blocks := [nb'] + a.blocks), d)
  }

  /** The padded hard path always serves a power-of-two-aligned request
      once the mapping succeeds, and keeps the arena valid. */
  lemma AllocHardSucceeds(a: ArenaState, size: nat, k: nat, mapped: Option<nat>)
    requires Valid(a) && size < U64 && k < 64
    requires mapped.Some? ==> mapped.value + HeaderSize + Max(size + Pow2(k) - 1, a.blockSize) + Pow2(k) + size < U64
    ensures Pow2(k) < U64
    ensures var (a', d) := AllocHard(a, size, Pow2(k), mapped);
      && Valid(a')
      && (mapped.Some? ==> d.Some? && d.value % Pow2(k) == 0)
  {
    Pow2Below64(k);
    if mapped.Some? {
      var nb := NewBlock(Max(size + Pow2(k) - 1, a.blockSize), mapped).value;
      AllocBlockSpec(nb, size, k);
      RoundUpSpec(nb.memory, Pow2(k));
      var (a', d) := AllocHard(a, size, Pow2(k), mapped);
      assert a'.blocks[0] == AllocBlock(nb, size, Pow2(k)).0;
      forall i | 0 <= i < |a'.blocks|
        ensures ValidBlock(a'.blocks[i])
      {
        if i > 0 {
          assert a'.blocks[i] == a.blocks[i - 1];
        }
      }
    }
  }

  /** `arena_alloc`: the head block serves the request when it can;
      otherwise (no head, or no room) the hard path runs. */
  function Alloc(a: ArenaState, size: nat, align: nat, mapped: Option<nat>): (res: (ArenaState, Option<nat>))
    requires Valid(a) && size < U64 && 0 < align < U64
    requires mapped.Some? ==> mapped.value + HeaderSize + Max(size + align - 1, a.blockSize) + align + size < U64
    ensures a.blocks != [] && AllocBlock(a.blocks[0], size, align).1.Some? ==>
      res == (a.(blocks := a.blocks[0 := AllocBlock(a.blocks[0], size, align).0]), AllocBlock(a.blocks[0], size, align).1)
    ensures !(a.blocks != [] && AllocBlock(a.blocks[0], size, align).1.Some?) ==>
      res == AllocHard(a, size, align, mapped)
  {
    if a.blocks != [] && AllocBlock(a.blocks[0], size, align).1.Some? then
      var (h, d) := AllocBlock(a.blocks[0], size, align);
      (a.(blocks := a.blocks[0 := h]), d)
    else AllocHard(a, size, align, mapped)
  }

  /** With the padded hard path, `arena_alloc` always returns an aligned
      address once a mapping is available, keeps the arena valid, and adds
      a block only when the head could not serve the request. */
  lemma AllocSucceeds(a: ArenaState, size: nat, k: nat, mapped: Option<nat>)
    requires Valid(a) && size < U64 && k < 64
    requires a.blocks != [] ==> a.blocks[0].memory + a.blocks[0].size + Pow2(k) + size < U64
    requires mapped.Some? ==> mapped.value + HeaderSize + Max(size + Pow2(k) - 1, a.blockSize) + Pow2(k) + size < U64
    ensures Pow2(k) < U64
    ensures var (a', d) := Alloc(a, size, Pow2(k), mapped);
      && Valid(a')
      && (mapped.Some? ==> d.Some?)
      && (d.Some? ==> d.value % Pow2(k) == 0)
      && (|a'.blocks| == |a.blocks| || |a'.blocks| == |a.blocks| + 1)
  {
    Pow2Below64(k);
    if a.blocks != [] && AllocBlock(a.blocks[0], size, Pow2(k)).1.Some? {
      AllocBlockSpec(a.blocks[0], size, k);
      var (a', d) := Alloc(a, size, Pow2(k), mapped);
      forall i | 0 <= i < |a'.blocks|
        ensures ValidBlock(a'.blocks[i])
      {
        if i > 0 {
          assert a'.blocks[i] == a.blocks[i];
        }
      }
    } else {
      AllocHardSucceeds(a, size, k, mapped);
    }
  }

  /** `arena_alloc` as written: the head block serves the request when it
      can; otherwise `arena_alloc_hard` as written runs. */
  function AllocAsWritten(a: ArenaState, size: nat, align: nat, mapped: Option<nat>): (res: (ArenaState, Option<nat>))
    requires Valid(a) && size < U64 && align < U64
    requires mapped.Some? ==> mapped.value + HeaderSize + Max(size, a.blockSize) < U64
    ensures a.blocks != [] && AllocBlock(a.blocks[0], size, align).1.Some? ==>
      res == (a.(blocks := a.blocks[0 := AllocBlock(a.blocks[0], size, align).0]), AllocBlock(a.blocks[0], size, align).1)
    ensures !(a.blocks != [] && AllocBlock(a.blocks[0], size, align).1.Some?) ==>
      res == AllocHardAsWritten(a, size, align, mapped)
  {
    if a.blocks != [] && AllocBlock(a.blocks[0], size, align).1.Some? then
      var (h, d) := AllocBlock(a.blocks[0], size, align);
      (a.(blocks := a.blocks[0 := h]), d)
    else AllocHardAsWritten(a, size, align, mapped)
  }

  /** On an arena with no head, a 4096-byte request aligned to 64 with
      block size 4096 comes back null from `arena_alloc` as written, after
      a block has been linked; the corrected path serves it. */
  lemma AllocPathsDisagree()
    ensures var a := ArenaState([], 4096);
      && AllocAsWritten(a, 4096, 64, Some(PageSize)).1.None?
      && |AllocAsWritten(a, 4096, 64, Some(PageSize)).0.blocks| == 1
      && AllocAsWritten(a, 4096, 64, Some(PageSize)).0.blocks[0].offset == 0
      && Alloc(a, 4096, 64, Some(PageSize)).1.Some?
  {
    AllocHardAsWrittenFails();
    AllocSucceeds(ArenaState([], 4096), 4096, 6, Some(PageSize));
    assert Pow2(6) == 64;
  }

  /** `arena_reset`: every block along the chain is emptied; the chain,
      each block's memory and size stay. */
  function Reset(a: ArenaState): (r: ArenaState)
    requires Valid(a)
    ensures Valid(r) && r.blockSize == a.blockSize && |r.blocks| == |a.blocks|
    ensures forall i | 0 <= i < |a.blocks| ::
      r.blocks[i].offset == 0 && r.blocks[i].memory == a.blocks[i].memory && r.blocks[i].size == a.blocks[i].size
  {
    a.(blocks := seq(|a.blocks|, i requires 0 <= i < |a.blocks| => a.blocks[i].(offset := 0)))
  }

  /** After a reset the head block serves any aligned request that fits a
      block of its size from the start. */
  lemma ResetThenAlloc(a: ArenaState, size: nat, k: nat)
    requires Valid(a) && a.blocks != [] && size < U64 && k < 64
    requires a.blocks[0].memory % Pow2(k) == 0 && size <= a.blocks[0].size
    requires a.blocks[0].memory + a.blocks[0].size + Pow2(k) + size < U64
    ensures Pow2(k) < U64
    ensures AllocBlock(Reset(a).blocks[0], size, Pow2(k)).1 == Some(a.blocks[0].memory)
  {
    var b := Reset(a).blocks[0];
    AllocBlockSpec(b, size, k);
    RoundUpSpec(b.memory, Pow2(k));
    MultiplesApart(b.memory, RoundUp(b.memory, Pow2(k)), Pow2(k));
  }

  /** `arena_destroy`: every block is unmapped and the head becomes null. */
  function Destroy(a: ArenaState): (r: ArenaState)
    ensures r.blocks == [] && r.blockSize == a.blockSize
  {
    a.(blocks := [])
  }
}
