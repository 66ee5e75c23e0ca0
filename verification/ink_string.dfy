/** The small-string class whose inline buffer size is chosen per object
    (64 by default), with a heap block that grows by doubling, and its
    FNV-1a hash. The source overlays the inline flag and the inline size
    on the first bytes of the inline buffer; the model keeps the flag (the
    representation), the inline size and the text apart, as the class
    evidently means them to be. */
module InkString {
  import opened InkBase
  import opened Wrappers
  import opened CString

  /** The default `small_buffer_size`. */
  const DefaultSsoSize: nat := 64

  /** A string: its inline buffer size (`sso_capacity`) and where its text
      lives. */
  datatype Str = Str(sso: nat, rep: Rep)

  /** The invariant: C-string text, inline text shorter than the inline
      buffer (or empty, which the constructors always allow), and a heap
      block with room for text and NUL. */
  predicate Valid(s: Str) {
    && NoNul(s.rep.chars)
    && (s.rep.Small? ==> |s.rep.chars| < s.sso || s.rep.chars == [])
    && (s.rep.Heap? ==> |s.rep.chars| + 1 <= s.rep.cap)
  }

  /** `length()`. */
  function Length(s: Str): nat {
    |s.rep.chars|
  }

  /** `capacity()`: the inline size less one, else the block less one, in
      `size_t` arithmetic (a size of 0 wraps). */
  function Capacity(s: Str): nat {
    if s.rep.Small? then (s.sso + U64 - 1) % U64 else (s.rep.cap + U64 - 1) % U64
  }

  /** Inline strings report `sso_capacity - 1`, heap strings at least their
      length. */
  lemma CapacityBounds(s: Str)
    requires Valid(s) && s.sso < U64 && (s.rep.Heap? ==> s.rep.cap < U64)
    ensures s.rep.Small? && s.sso > 0 ==> Capacity(s) == s.sso - 1 && Length(s) <= Capacity(s)
    ensures s.rep.Heap? ==> Length(s) <= Capacity(s)
  {
  }

  /** `String(small_buffer_size)`: empty and inline. */
  function New(sso: nat): (r: Str)
    ensures Valid(r) && r.sso == sso && r.rep.Small? && Length(r) == 0
  {
    Str(sso, Small([]))
  }

  /** `String(s, small_buffer_size)`: a null pointer gives the empty inline
      string; text shorter than the inline buffer stays inline, longer text
      goes to a block of length + 1 bytes. */
  function FromCStr(t: Option<seq<Byte>>, sso: nat): (r: Str)
    requires t.Some? ==> NoNul(t.value)
    ensures Valid(r) && r.sso == sso
    ensures r.rep.chars == t.GetOr([])
    ensures r.rep.Small? <==> t.None? || |t.value| < sso
    ensures r.rep.Heap? ==> r.rep.cap == Length(r) + 1
  {
    match t
    case None => Str(sso, Small([]))
    case Some(x) => if |x| < sso then Str(sso, Small(x)) else Str(sso, Heap(x, |x| + 1))
  }

  /** `operator=(const char*)`. Null empties the string inline. An inline
      string stays inline when the text fits, else moves to a block of
      length + 1. A heap string goes back inline when the text fits the
      inline buffer, reuses its block when that has room for text and NUL,
      and otherwise reallocates exactly length + 1. */
  function AssignCStr(s: Str, t: Option<seq<Byte>>): (r: Str)
    requires Valid(s)
    requires t.Some? ==> NoNul(t.value)
    ensures Valid(r) && r.sso == s.sso
    ensures r.rep.chars == t.GetOr([])
  {
    match t
    case None => Str(s.sso, Small([]))
    case Some(x) =>
      if |x| < s.sso then Str(s.sso, Small(x))
      else if s.rep.Small? then Str(s.sso, Heap(x, |x| + 1))
      else if |x| + 1 <= s.rep.cap then Str(s.sso, Heap(x, s.rep.cap))
      else Str(s.sso, Heap(x, |x| + 1))
  }

  /** The three outcomes of assigning text to a heap string. */
  lemma AssignToHeap(s: Str, x: seq<Byte>)
    requires Valid(s) && s.rep.Heap? && NoNul(x)
    ensures var r := AssignCStr(s, Some(x));
      && (|x| < s.sso ==> r.rep == Small(x))
      && (|x| >= s.sso && |x| + 1 <= s.rep.cap ==> r.rep == Heap(x, s.rep.cap))
      && (|x| >= s.sso && |x| + 1 > s.rep.cap ==> r.rep == Heap(x, |x| + 1))
  {
  }

  /** On an inline string, assignment decides as the constructor does. */
  lemma AssignToSmall(s: Str, t: Option<seq<Byte>>)
    requires Valid(s) && s.rep.Small?
    requires t.Some? ==> NoNul(t.value)
    ensures AssignCStr(s, t) == FromCStr(t, s.sso)
  {
  }

  /** `==`: equal lengths, then `strcmp` on the texts. */
  predicate Equal(a: Str, b: Str) {
    Length(a) == Length(b) && StrEqual(a.rep.chars, b.rep.chars)
  }

  /** `==` holds exactly when the texts agree, whatever the inline sizes and
      representations. */
  lemma EqualIff(a: Str, b: Str)
    requires Valid(a) && Valid(b)
    ensures Equal(a, b) <==> a.rep.chars == b.rep.chars
  {
    StrEqualIff(a.rep.chars, b.rep.chars);
  }

  /** `+=`. Inline: stays inline when the total fits, else moves to a block
      of total + 1. Heap: appends in place when the block has room for the
      total and its NUL, else grows to max(total + 1, twice the block). */
  function Append(a: Str, b: Str): (r: Str)
    requires Valid(a) && Valid(b)
    ensures Valid(r) && r.sso == a.sso
    ensures r.rep.chars == a.rep.chars + b.rep.chars
  {
    var total := Length(a) + Length(b);
    match a.rep
    case Small(t) =>
      if total < a.sso then Str(a.sso, Small(t + b.rep.chars))
      else Str(a.sso, Heap(t + b.rep.chars, total + 1))
    case Heap(t, cap) =>
      if total + 1 <= cap then Str(a.sso, Heap(t + b.rep.chars, cap))
      else Str(a.sso, Heap(t + b.rep.chars, Max(total + 1, 2 * cap)))
  }

  /** The representation `+=` chooses: a heap string never goes back
      inline, never shrinks its block, and when it must grow at least
      doubles it. */
  lemma AppendGrowth(a: Str, b: Str)
    requires Valid(a) && Valid(b)
    ensures var r := Append(a, b);
      && (a.rep.Small? ==> (r.rep.Small? <==> Length(a) + Length(b) < a.sso))
      && (a.rep.Small? && r.rep.Heap? ==> r.rep.cap == Length(r) + 1)
      && (a.rep.Heap? ==> r.rep.Heap? && r.rep.cap >= a.rep.cap)
      && (a.rep.Heap? && Length(r) + 1 > a.rep.cap ==>
            r.rep.cap >= 2 * a.rep.cap && r.rep.cap >= Length(r) + 1)
  {
  }

  /** `a + b`: a copy of `a`, then `+= b`; `a` is a value and stays as it
      was. */
  function Concat(a: Str, b: Str): (r: Str)
    requires Valid(a) && Valid(b)
    ensures Valid(r) && r.sso == a.sso
    ensures r.rep.chars == a.rep.chars + b.rep.chars
  {
    var copy := a;
    Append(copy, b)
  }

  /** `+` and `+=` produce strings equal under `==`. */
  lemma ConcatEqualsAppend(a: Str, b: Str)
    requires Valid(a) && Valid(b)
    ensures Equal(Concat(a, b), Append(a, b))
  {
    EqualIff(Concat(a, b), Append(a, b));
  }

  // Moves.

  /** A `String` object seen through its data pointer: a live string, or
      the null pointer a move leaves behind. A moved-from object may only
      be destroyed or assigned to; every other member reads through the
      null pointer, so none is defined on it here. */
  datatype Obj = Live(s: Str) | MovedFrom

  /** `String(String&&)`: the new object takes over the source's data
      block, and the source is left holding null. */
  function MoveConstruct(src: Obj): (res: (Obj, Obj))
    ensures res.1 == MovedFrom
    ensures res.0.Live? <==> src.Live?
    ensures src.Live? ==> res.0.s == src.s
  {
    (src, MovedFrom)
  }

  /** `operator=(String&&)`: assigning an object to itself changes nothing
      (`same` says the two are one object); otherwise the destination's
      block is released (a null one is skipped), the destination takes
      over the source's block, and the source is left holding null. */
  function MoveAssign(dst: Obj, src: Obj, same: bool): (res: (Obj, Obj))
    requires same ==> dst == src
    ensures same ==> res == (dst, src)
    ensures !same ==> res.1 == MovedFrom && (res.0.Live? <==> src.Live?)
    ensures !same && src.Live? ==> res.0.s == src.s
  {
    if same then (dst, src) else (src, MovedFrom)
  }

  /** `operator=(const String&)` with a live source: the destination, even
      a moved-from one, gets its own copy of the source's text, inline size
      and representation. */
  function CopyAssign(dst: Obj, src: Str): (r: Obj)
    requires Valid(src)
    ensures r.Live? && Valid(r.s) && r.s.sso == src.sso
    ensures Equal(r.s, src) && r.s.rep.Small? == src.rep.Small?
  {
    EqualIff(src, src);
    Live(src)
  }

  /** Moving a string out and back restores it and leaves the temporary
      moved from; a moved-from object becomes usable again when a live
      string is moved or copied into it. */
  lemma MoveRoundTrip(a: Str, b: Str)
    requires Valid(b)
    ensures var (t, a1) := MoveConstruct(Live(a));
      && a1 == MovedFrom
      && MoveAssign(a1, t, false) == (Live(a), MovedFrom)
    ensures MoveAssign(MovedFrom, Live(b), false).0 == Live(b)
    ensures CopyAssign(MovedFrom, b).s.rep.chars == b.rep.chars
  {
    EqualIff(CopyAssign(MovedFrom, b).s, b);
  }

  /** `to_lower()`: a copy with every byte lowered, in the same
      representation and capacity. */
  function ToLower(s: Str): (r: Str)
    requires Valid(s)
    ensures Valid(r) && Length(r) == Length(s) && Capacity(r) == Capacity(s)
    ensures r.sso == s.sso && r.rep.Small? == s.rep.Small?
    ensures forall i | 0 <= i < Length(s) :: r.rep.chars[i] == LowerByte(s.rep.chars[i])
  {
    match s.rep
    case Small(t) => Str(s.sso, Small(Lower(t)))
    case Heap(t, c) => Str(s.sso, Heap(Lower(t), c))
  }

  // The hash.

  /** The FNV-1a 64-bit offset basis and prime. */
  const FnvOffsetBasis: bv64 := 14695981039346656037
  const FnvPrime: bv64 := 1099511628211

  /** `static_cast<size_t>(c)` for a `char`, which is signed on the
      platforms the library targets: bytes from 0x80 up sign-extend. */
  function Widen(c: Byte): (r: bv64)
    ensures c < 0x80 ==> r as int == c as int
    ensures c >= 0x80 ==> r as int == c as int + U64 - 256
  {
    if c < 0x80 then c as bv64 else c as bv64 | 0xFFFF_FFFF_FFFF_FF00
  }

  /** One FNV-1a step: xor the byte in, then multiply modulo 2^64. */
  function FnvStep(h: bv64, c: Byte): bv64 {
    (h ^ Widen(c)) * FnvPrime
  }

  /** The FNV-1a fold of a text, left to right from the offset basis. */
  function Fnv(t: seq<Byte>): bv64
    decreases |t|
  {
    if t == [] then FnvOffsetBasis
    else FnvStep(Fnv(t[..|t| - 1]), t[|t| - 1])
  }

  /** `std::hash<String>`: the loop over the first `length()` bytes of
      `c_str()`. */
  method Hash(s: Str) returns (h: bv64)
    ensures h == Fnv(s.rep.chars)
    ensures Length(s) == 0 ==> h == FnvOffsetBasis
  {
    var data := s.rep.chars;
    h := FnvOffsetBasis;
    var i := 0;
    while i < Length(s)
      invariant 0 <= i <= |data|
      invariant h == Fnv(data[..i])
    {
      assert data[..i + 1][..i] == data[..i];
      h := FnvStep(h, data[i]);
      i := i + 1;
    }
    assert data[..i] == data;
  }

  /** Strings equal under `==` hash alike. */
  lemma EqualHashAlike(a: Str, b: Str)
    requires Valid(a) && Valid(b) && Equal(a, b)
    ensures Fnv(a.rep.chars) == Fnv(b.rep.chars)
  {
    EqualIff(a, b);
  }

  // The union as written.

  /** `sizeof(Data)`: the largest member of the source's `Data` union is the
      heap record of pointer, size and capacity. Every member starts at
      byte 0 of the block: `heap.ptr`, `is_small`, `sso_capacity` and
      `stack.buffer` all overlap, `heap.size` takes bytes 8..16 and
      `heap.capacity` bytes 16..24. A block holds `sizeof(Data)` plus the
      inline size; integers are stored little-endian. */
  const DataSize: nat := 24

  /** The low `k` bytes of `n`, least significant first. */
  function LeBytes(n: nat, k: nat): (r: seq<Byte>)
    ensures |r| == k
  {
    if k == 0 then [] else [(n % 256) as Byte] + LeBytes(n / 256, k - 1)
  }

  /** The number stored little-endian in `s`. */
  function FromLe(s: seq<Byte>): nat {
    if s == [] then 0 else s[0] as nat + 256 * FromLe(s[1..])
  }

  /** A store of the bytes `v` at offset `off`: they land there, and no
      other byte of the block changes. */
  function Put(b: seq<Byte>, off: nat, v: seq<Byte>): (r: seq<Byte>)
    requires off + |v| <= |b|
    ensures |r| == |b| && r[off..off + |v|] == v
    ensures forall i | 0 <= i < |b| && !(off <= i < off + |v|) :: r[i] == b[i]
  {
    b[..off] + v + b[off + |v|..]
  }

  /** `is_small` read back: the byte at offset 0 taken as a `bool`. */
  predicate ReadsSmall(b: seq<Byte>)
    requires |b| > 0
  {
    b[0] != 0
  }

  /** `length()` on the block as written: the inline text up to its NUL
      when `is_small` reads true, else `heap.size`. */
  function LengthAsWritten(b: seq<Byte>): nat
    requires |b| >= DataSize
  {
    if ReadsSmall(b) then |CStr(b)| else FromLe(b[8..16])
  }

  /** `String(small_buffer_size)` as written, on a fresh block holding
      `junk`: `is_small = true`, then `sso_capacity` over the same bytes,
      then `stack.buffer[0] = '\0'` over byte 0 once more. Only the first
      eight bytes are written. */
  function DefaultAsWritten(sso: nat, junk: seq<Byte>): (b: seq<Byte>)
    requires sso < U64 && |junk| == DataSize + sso
    ensures |b| == |junk|
    ensures forall i | 8 <= i < |junk| :: b[i] == junk[i]
  {
    var b1 := Put(junk, 0, [1]);
    var b2 := Put(b1, 0, LeBytes(sso, 8));
    Put(b2, 0, [0])
  }

  /** Whatever the block held, the default constructor as written leaves
      `is_small` reading false, so `length()` reports the `heap.size` bytes
      it never wrote. */
  lemma DefaultReadsHeap(sso: nat, junk: seq<Byte>)
    requires sso < U64 && |junk| == DataSize + sso
    ensures var b := DefaultAsWritten(sso, junk);
      !ReadsSmall(b) && LengthAsWritten(b) == FromLe(junk[8..16])
  {
    var b := DefaultAsWritten(sso, junk);
    assert b[8..16] == junk[8..16];
  }

  /** A default string built on a block whose ninth byte is 5 reports
      length 5, while the intended empty inline string (`New`) has length
      0. */
  lemma DefaultLengthGarbage()
    ensures var junk := seq(DataSize + DefaultSsoSize, i => if i == 8 then 5 as Byte else 0);
      && LengthAsWritten(DefaultAsWritten(DefaultSsoSize, junk)) == 5
      && Length(New(DefaultSsoSize)) == 0
  {
    var junk := seq(DataSize + DefaultSsoSize, i => if i == 8 then 5 as Byte else 0);
    DefaultReadsHeap(DefaultSsoSize, junk);
    var h := junk[8..16];
    assert h == [5, 0, 0, 0, 0, 0, 0, 0];
    assert FromLe(h[7..]) == 0;
    assert FromLe(h[6..]) == 0;
    assert FromLe(h[5..]) == 0;
    assert FromLe(h[4..]) == 0;
    assert FromLe(h[3..]) == 0;
    assert FromLe(h[2..]) == 0;
    assert FromLe(h[1..]) == 0;
  }
}
