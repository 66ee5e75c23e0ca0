/** The pure macros and definitions of the library's base header: version
    number, result codes, MIN/MAX/CLAMP, flag operations and size alignment. */
module InkBase {

  const MajorVersion: nat := 1
  const MinorVersion: nat := 1
  const PatchVersion: nat := 0

  /** INK_VERSION, packed as major * 10000 + minor * 100 + patch. */
  const InkVersion: nat := MajorVersion * 10000 + MinorVersion * 100 + PatchVersion

  /** `ink_u8`, the byte. */
  type Byte = bv8

  /** 2^64, the modulus of `u64` / `size_t` arithmetic. */
  const U64: nat := 0x1_0000_0000_0000_0000

  /** The `ink_result_t` enumeration. */
  datatype ResultCode =
    | Success
    | ErrorGeneric
    | ErrorInvalidParam
    | ErrorOutOfMemory
    | ErrorNotImplemented
    | ErrorNotSupported
    | ErrorIo
  {
    /** The numeric value of the enumerator. */
    function Code(): (r: int)
      ensures -6 <= r <= 0
      ensures r == 0 <==> this == Success
    {
      match this
      case Success => 0
      case ErrorGeneric => -1
      case ErrorInvalidParam => -2
      case ErrorOutOfMemory => -3
      case ErrorNotImplemented => -4
      case ErrorNotSupported => -5
      case ErrorIo => -6
    }
  }

  /** Distinct enumerators carry distinct codes. */
  lemma CodesDistinct(a: ResultCode, b: ResultCode)
    ensures a.Code() == b.Code() ==> a == b
  {
  }

  lemma VersionIs10100()
    ensures InkVersion == 10100
  {
  }

  /** INK_MIN(a, b). */
  function Min(a: int, b: int): (r: int)
    ensures r <= a && r <= b
    ensures r == a || r == b
  {
    if a < b then a else b
  }

  /** INK_MAX(a, b). */
  function Max(a: int, b: int): (r: int)
    ensures r >= a && r >= b
    ensures r == a || r == b
  {
    if a > b then a else b
  }

  /** INK_CLAMP(x, lo, hi) = MIN(MAX(x, lo), hi). */
  function Clamp(x: int, lo: int, hi: int): (r: int)
    ensures lo <= hi ==> lo <= r <= hi
    ensures lo <= x <= hi ==> r == x
    ensures hi < lo ==> r == hi
  {
    Min(Max(x, lo), hi)
  }

  // Size alignment, INK_ALIGN_SIZE(size, alignment), on 64-bit unsigned values.

  function Pow2(k: nat): (r: nat)
    ensures r >= 1
  {
    if k == 0 then 1 else 2 * Pow2(k - 1)
  }

  /** Bitwise AND of two naturals, bit by bit from the least significant. */
  function BitAnd(x: nat, y: nat): nat
  {
    if x == 0 || y == 0 then 0
    else 2 * BitAnd(x / 2, y / 2) + (x % 2) * (y % 2)
  }

  /** `a - b` on u64, wrapping below zero. */
  function Sub64(a: nat, b: nat): (r: nat)
    requires a < U64 && b < U64
    ensures r < U64
  {
    if a >= b then a - b else a + U64 - b
  }

  /** `~m` on u64. */
  function Not64(m: nat): (r: nat)
    requires m < U64
    ensures r < U64
  {
    U64 - 1 - m
  }

  /** INK_ALIGN_SIZE(size, alignment) = (size + (alignment - 1)) & ~(alignment - 1)
      evaluated in 64-bit unsigned arithmetic. */
  function AlignSize(size: nat, alignment: nat): nat
    requires size < U64 && alignment < U64
  {
    var mask := Sub64(alignment, 1);
    BitAnd((size + mask) % U64, Not64(mask))
  }

  lemma {:induction false} Pow2Add(a: nat, b: nat)
    ensures Pow2(a + b) == Pow2(a) * Pow2(b)
    decreases a
  {
    if a > 0 {
      Pow2Add(a - 1, b);
      assert Pow2(a + b) == 2 * Pow2(a - 1 + b);
    }
  }

  lemma {:induction false} Pow2Monotone(j: nat, k: nat)
    requires j <= k
    ensures Pow2(j) <= Pow2(k)
    decreases k
  {
    if j < k {
      Pow2Monotone(j, k - 1);
    }
  }

  lemma Pow2At64()
    ensures Pow2(64) == U64
  {
    assert Pow2(2) == 4;
    Pow2Add(2, 2);
    assert Pow2(4) == 16;
    Pow2Add(4, 4);
    assert Pow2(8) == 256;
    Pow2Add(8, 8);
    assert Pow2(16) == 0x1_0000;
    Pow2Add(16, 16);
    assert Pow2(32) == 0x1_0000_0000;
    Pow2Add(32, 32);
  }

  lemma MulMonotone(a: int, b: int, d: int)
    requires a <= b && d > 0
    ensures a * d <= b * d
  {
  }

  /** Euclidean division is unique. */
  lemma ModUnique(x: int, d: int, q: int, r: int)
    requires d > 0 && 0 <= r < d && x == q * d + r
    ensures x / d == q && x % d == r
  {
    var q' := x / d;
    if q' > q {
      MulMonotone(q + 1, q', d);
      assert false;
    } else if q' < q {
      MulMonotone(q' + 1, q, d);
      assert false;
    }
  }

  /** Splitting a remainder modulo 2^k into its lowest bit and the rest. */
  lemma ModPow2Split(x: nat, k: nat)
    requires k >= 1
    ensures x % Pow2(k) == 2 * ((x / 2) % Pow2(k - 1)) + x % 2
  {
    var p := Pow2(k - 1);
    var q := x / 2;
    var a := q / p;
    var b := q % p;
    assert q == a * p + b;
    assert x == 2 * q + x % 2;
    assert x == a * (2 * p) + (2 * b + x % 2);
    ModUnique(x, 2 * p, a, 2 * b + x % 2);
  }

  /** AND with a mask whose bits k .. w-1 are set clears the low k bits of
      any w-bit value. */
  lemma {:induction false} BitAndHighMask(x: nat, y: nat, w: nat, k: nat)
    requires k <= w && x < Pow2(w)
    requires y + Pow2(k) == Pow2(w)
    ensures BitAnd(x, y) == x - x % Pow2(k)
    decreases w
  {
    if w == 0 {
      assert x == 0;
    } else if w == k {
      assert y == 0;
      ModUnique(x, Pow2(k), 0, x);
    } else if x == 0 {
    } else if k == 0 {
      assert y == 2 * Pow2(w - 1) - 1;
      assert y / 2 == Pow2(w - 1) - 1 && y % 2 == 1;
      BitAndHighMask(x / 2, y / 2, w - 1, 0);
      assert BitAnd(x / 2, y / 2) == x / 2;
      assert BitAnd(x, y) == 2 * (x / 2) + x % 2;
    } else {
      Pow2Monotone(k, w - 1);
      assert y == 2 * (Pow2(w - 1) - Pow2(k - 1));
      assert y / 2 == Pow2(w - 1) - Pow2(k - 1) && y % 2 == 0;
      BitAndHighMask(x / 2, y / 2, w - 1, k - 1);
      assert BitAnd(x, y) == 2 * BitAnd(x / 2, y / 2);
      ModPow2Split(x, k);
    }
  }

  /** Rounding down to a multiple: `x - x % a` is a multiple of `a` lying in
      (x - a, x]. */
  lemma RoundDown(x: nat, a: nat)
    requires a > 0
    ensures (x - x % a) % a == 0
    ensures x - a < x - x % a <= x
  {
    ModUnique(x - x % a, a, x / a, 0);
  }

  /** Below 2^64 and for a power-of-two alignment 2^k, INK_ALIGN_SIZE clears the
      low k bits of `size + 2^k - 1`; `w` stands for the word width 64. */
  lemma AlignSizeClearsLowBits(size: nat, k: nat, w: nat)
    requires k < w && Pow2(w) == U64
    requires size + Pow2(k) - 1 < U64
    ensures Pow2(k) < U64
    ensures AlignSize(size, Pow2(k)) == (size + Pow2(k) - 1) - (size + Pow2(k) - 1) % Pow2(k)
  {
    Pow2Monotone(k, w - 1);
    var a := Pow2(k);
    var x := size + (a - 1);
    assert Sub64(a, 1) == a - 1;
    assert (size + Sub64(a, 1)) % U64 == x by {
      ModUnique(x, U64, 0, x);
    }
    var m := Not64(a - 1);
    assert m + a == Pow2(w);
    BitAndHighMask(x, m, w, k);
  }

  /** For a power-of-two alignment and no 64-bit overflow, INK_ALIGN_SIZE
      yields the least multiple of the alignment that is at least `size`. */
  lemma AlignSizeIsLeastMultiple(size: nat, k: nat)
    requires k < 64
    requires size + Pow2(k) - 1 < U64
    ensures Pow2(k) < U64
    ensures AlignSize(size, Pow2(k)) % Pow2(k) == 0
    ensures size <= AlignSize(size, Pow2(k)) < size + Pow2(k)
  {
    Pow2At64();
    AlignSizeClearsLowBits(size, k, 64);
    LeastMultiple(size, Pow2(k), AlignSize(size, Pow2(k)));
  }

  /** Rounding `size + a - 1` down to a multiple of `a` gives the least
      multiple of `a` that is at least `size`. */
  lemma LeastMultiple(size: nat, a: nat, r: nat)
    requires a > 0 && r == (size + a - 1) - (size + a - 1) % a
    ensures r % a == 0 && size <= r < size + a
  {
    RoundDown(size + a - 1, a);
  }
}

/** The INK_FLAG_* macros over a 32-bit flag word. */
module InkFlags {

  /** INK_FLAG_CHECK(flags, flag): every bit of `flag` is set in `flags`. */
  predicate FlagCheck(flags: bv32, flag: bv32) {
    (flags & flag) == flag
  }

  /** INK_FLAG_SET: every bit of `flag` becomes set, the other bits are kept. */
  function FlagSet(flags: bv32, flag: bv32): (r: bv32)
    ensures (r & flag) == flag
    ensures (r & !flag) == (flags & !flag)
  {
    flags | flag
  }

  /** INK_FLAG_CLEAR: every bit of `flag` becomes clear, the other bits are kept. */
  function FlagClear(flags: bv32, flag: bv32): (r: bv32)
    ensures (r & flag) == 0
    ensures (r & !flag) == (flags & !flag)
  {
    flags & !flag
  }

  /** INK_FLAG_TOGGLE: exactly the bits of `flag` are inverted. */
  function FlagToggle(flags: bv32, flag: bv32): (r: bv32)
    ensures (r & !flag) == (flags & !flag)
    ensures (r & flag) == (!flags & flag)
  {
    flags ^ flag
  }

  lemma SetThenCheck(flags: bv32, flag: bv32)
    ensures FlagCheck(FlagSet(flags, flag), flag)
  {
  }

  lemma ClearThenCheck(flags: bv32, flag: bv32)
    requires flag != 0
    ensures !FlagCheck(FlagClear(flags, flag), flag)
  {
  }

  lemma ToggleTwice(flags: bv32, flag: bv32)
    ensures FlagToggle(FlagToggle(flags, flag), flag) == flags
  {
  }
}
