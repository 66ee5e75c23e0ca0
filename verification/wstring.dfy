/** The fixed-size small-string class: text shorter than 64 bytes is kept
    inline, longer text in a heap block of exactly length + 1 bytes. A
    string is modelled by its representation and its text; the C string
    arguments are `Option`s, `None` standing for a null pointer. */
module WStrings {
  import opened InkBase
  import opened Wrappers
  import opened CString

  /** SSO_SIZE: the inline buffer, NUL included. */
  const SsoSize: nat := 64

  /** The class invariant: C-string text, short text inline, and a heap
      block sized exactly for the text and its NUL. */
  predicate Valid(w: Rep) {
    && NoNul(w.chars)
    && (w.Small? ==> |w.chars| < SsoSize)
    && (w.Heap? ==> w.cap == |w.chars| + 1)
  }

  /** `length()`. */
  function Length(w: Rep): nat {
    |w.chars|
  }

  /** `capacity()`: 63 inline, else the heap block less its NUL. */
  function Capacity(w: Rep): int {
    if w.Small? then SsoSize - 1 else w.cap - 1
  }

  /** The text always fits the capacity; inline strings report 63. */
  lemma LengthWithinCapacity(w: Rep)
    requires Valid(w)
    ensures 0 <= Length(w) <= Capacity(w)
    ensures w.Small? ==> Capacity(w) == 63
    ensures w.Heap? ==> Capacity(w) == Length(w)
  {
  }

  /** The default constructor. */
  function Default(): (r: Rep)
    ensures Valid(r) && r.Small? && Length(r) == 0
  {
    Small([])
  }

  /** The C-string constructor: a null pointer gives the empty inline
      string; otherwise the text is kept inline iff it is shorter than 64
      bytes, else in a block of length + 1 bytes. */
  function FromCStr(s: Option<seq<Byte>>): (r: Rep)
    requires s.Some? ==> NoNul(s.value)
    ensures Valid(r)
    ensures s.None? ==> r == Default()
    ensures s.Some? ==> r.chars == s.value
    ensures r.Small? <==> (s.None? || |s.value| < SsoSize)
  {
    match s
    case None => Small([])
    case Some(t) => if |t| < SsoSize then Small(t) else Heap(t, |t| + 1)
  }

  /** C-string assignment: frees any heap block first, then decides exactly
      as the constructor does, whatever the string held before. */
  function AssignCStr(w: Rep, s: Option<seq<Byte>>): (r: Rep)
    requires s.Some? ==> NoNul(s.value)
    ensures Valid(r)
  {
    match s
    case None => Small([])
    case Some(t) => if |t| < SsoSize then Small(t) else Heap(t, |t| + 1)
  }

  /** Assigning a C string forgets the previous state entirely. */
  lemma AssignIsConstruct(w: Rep, s: Option<seq<Byte>>)
    requires s.Some? ==> NoNul(s.value)
    ensures AssignCStr(w, s) == FromCStr(s)
  {
  }

  /** The move constructor and move assignment: the destination takes the
      source's state; a heap source is reset to the empty inline string, an
      inline source is copied and left as it was. */
  function Move(src: Rep): (res: (Rep, Rep))
    requires Valid(src)
    ensures res.0 == src && Valid(res.1)
    ensures res.1.Small?
    ensures Length(res.1) == (if src.Small? then Length(src) else 0)
  {
    if src.Small? then (src, src) else (src, Small([]))
  }

  /** `==`: equal lengths, then `strcmp` on the two texts, whichever
      representation each is in. */
  predicate Equal(a: Rep, b: Rep) {
    Length(a) == Length(b) && StrEqual(a.chars, b.chars)
  }

  /** `==` holds exactly when the texts agree; `!=` is its negation. */
  lemma EqualIff(a: Rep, b: Rep)
    requires Valid(a) && Valid(b)
    ensures Equal(a, b) <==> a.chars == b.chars
  {
    StrEqualIff(a.chars, b.chars);
  }

  /** `a + b`: a new string holding both texts, inline iff the total is
      shorter than 64 bytes; the operands are values and stay as they were. */
  function Concat(a: Rep, b: Rep): (r: Rep)
    requires Valid(a) && Valid(b)
    ensures Valid(r)
    ensures r.chars == a.chars + b.chars
    ensures r.Small? <==> Length(a) + Length(b) < SsoSize
  {
    var total := Length(a) + Length(b);
    if total < SsoSize then Small(a.chars + b.chars)
    else Heap(a.chars + b.chars, total + 1)
  }

  /** `a += b`: stays inline only when already inline and the total is
      shorter than 64 bytes; otherwise moves to a new block of total + 1
      bytes, even when the total is short. */
  function Append(a: Rep, b: Rep): (r: Rep)
    requires Valid(a) && Valid(b)
    ensures Valid(r)
    ensures r.chars == a.chars + b.chars
    ensures r.Small? <==> a.Small? && Length(a) + Length(b) < SsoSize
  {
    var total := Length(a) + Length(b);
    if a.Small? && total < SsoSize then Small(a.chars + b.chars)
    else Heap(a.chars + b.chars, total + 1)
  }

  /** `+=` agrees with `+` on the text; it differs in representation only
      for a heap string, which never returns inline. */
  lemma AppendAgreesWithConcat(a: Rep, b: Rep)
    requires Valid(a) && Valid(b)
    ensures Append(a, b).chars == Concat(a, b).chars
    ensures Equal(Append(a, b), Concat(a, b))
    ensures a.Small? ==> Append(a, b) == Concat(a, b)
    ensures a.Heap? ==> Append(a, b).Heap?
  {
    EqualIff(Append(a, b), Concat(a, b));
  }

  /** `to_lower()`: a copy in the same representation with every byte
      lowered. */
  function ToLower(w: Rep): (r: Rep)
    requires Valid(w)
    ensures Valid(r) && Length(r) == Length(w) && Capacity(r) == Capacity(w)
    ensures r.Small? == w.Small?
    ensures forall i | 0 <= i < Length(w) :: r.chars[i] == LowerByte(w.chars[i])
  {
    match w
    case Small(t) => Small(Lower(t))
    case Heap(t, c) => Heap(Lower(t), c)
  }

  // The union's bookkeeping as written, for the moved-from source.

  /** The fields of the object as the union lays them out: the heap
      pointer, size and capacity occupy bytes 0..24 and the inline size
      byte sits at offset 64, so writing the heap fields never touches
      `stackSize`. `text` is what `c_str()` points at. */
  datatype Layout = Layout(isSmall: bool, stackSize: nat, heapSize: nat, heapCap: nat, text: seq<Byte>)

  /** `length()` as written: the field of the active representation. */
  function LayoutLength(l: Layout): nat {
    if l.isSmall then l.stackSize else l.heapSize
  }

  /** The length fields agree with the text. */
  predicate Consistent(l: Layout) {
    LayoutLength(l) == |l.text|
  }

  /** The C-string constructor as written; `junk` is the inline size byte
      a heap string never initialises. */
  function LayoutOfCStr(s: seq<Byte>, junk: nat): (l: Layout)
    ensures Consistent(l)
  {
    if |s| < SsoSize then Layout(true, |s|, 0, 0, s)
    else Layout(false, junk, |s|, |s| + 1, s)
  }

  /** `+=` as written: the heap branch sets the heap fields only. */
  function LayoutAppend(l: Layout, rhs: seq<Byte>): (r: Layout)
    requires Consistent(l)
    ensures Consistent(r) && r.text == l.text + rhs
    ensures !r.isSmall ==> r.stackSize == l.stackSize
  {
    var total := LayoutLength(l) + |rhs|;
    if l.isSmall && total < SsoSize then l.(stackSize := total, text := l.text + rhs)
    else l.(isSmall := false, heapSize := total, heapCap := total + 1, text := l.text + rhs)
  }

  /** The move constructor as written: a heap source gets a null pointer
      (so the inline buffer reads as ""), size and capacity 0 and the
      inline flag, while its inline size byte keeps whatever it held. */
  function MoveFromAsWritten(l: Layout): (res: (Layout, Layout))
    ensures res.0 == l
    ensures !l.isSmall ==> res.1.isSmall && res.1.text == [] && LayoutLength(res.1) == l.stackSize
  {
    if l.isSmall then (l, l) else (l, Layout(true, l.stackSize, 0, 0, []))
  }

  /** A string built as "a" and then grown past 64 bytes, once moved from,
      reports length 1 while its text is empty; the corrected `Move` leaves
      length 0. */
  lemma MovedFromStaleLength()
    ensures var l := LayoutAppend(LayoutOfCStr([97], 0), seq(64, _ => 98));
            var src := MoveFromAsWritten(l).1;
            LayoutLength(src) == 1 && src.text == [] && !Consistent(src)
    ensures var w := Append(FromCStr(Some([97])), FromCStr(Some(seq(64, _ => 98))));
            Length(Move(w).1) == 0 && Move(w).1.chars == []
  {
    var w := Append(FromCStr(Some([97])), FromCStr(Some(seq(64, _ => 98))));
    assert w.Heap?;
  }
}
