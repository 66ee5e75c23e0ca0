/** What the two small-string classes share: NUL-terminated byte text, the
    `strcmp` comparison, ASCII `tolower`, and the two representations a
    string can be in, inline (small) or on the heap. */
module CString {
  import opened InkBase

  const Nul: Byte := 0

  /** Text a C string can hold: no NUL inside. */
  predicate NoNul(s: seq<Byte>) {
    forall i | 0 <= i < |s| :: s[i] != Nul
  }

  /** The text a `char*` denotes: everything before the first NUL. */
  function CStr(s: seq<Byte>): (r: seq<Byte>)
    ensures |r| <= |s| && r == s[..|r|] && NoNul(r)
    ensures |r| < |s| ==> s[|r|] == Nul
  {
    if s == [] || s[0] == Nul then []
    else [s[0]] + CStr(s[1..])
  }

  /** `strcmp(a, b) == 0`, for buffers each holding its text and then a
      terminating NUL. */
  predicate StrEqual(a: seq<Byte>, b: seq<Byte>) {
    CStr(a + [Nul]) == CStr(b + [Nul])
  }

  /** On NUL-free text `strcmp` sees exactly the text. */
  lemma {:induction false} CStrOfText(s: seq<Byte>)
    requires NoNul(s)
    ensures CStr(s + [Nul]) == s
  {
    if s != [] {
      assert (s + [Nul])[1..] == s[1..] + [Nul];
      CStrOfText(s[1..]);
    }
  }

  /** For C-string text, `strcmp` equality is equality. */
  lemma StrEqualIff(a: seq<Byte>, b: seq<Byte>)
    requires NoNul(a) && NoNul(b)
    ensures StrEqual(a, b) <==> a == b
  {
    CStrOfText(a);
    CStrOfText(b);
  }

  /** `tolower` in the "C" locale: 'A'..'Z' to 'a'..'z', the rest unchanged. */
  function LowerByte(c: Byte): (r: Byte)
    ensures 'A' as Byte <= c <= 'Z' as Byte ==> r as int == c as int + 32
    ensures !('A' as Byte <= c <= 'Z' as Byte) ==> r == c
  {
    if 'A' as Byte <= c <= 'Z' as Byte then c + 32 else c
  }

  /** `tolower` applied to every byte. */
  function Lower(s: seq<Byte>): (r: seq<Byte>)
    ensures |r| == |s|
    ensures forall i | 0 <= i < |s| :: r[i] == LowerByte(s[i])
    ensures NoNul(s) ==> NoNul(r)
  {
    seq(|s|, i requires 0 <= i < |s| => LowerByte(s[i]))
  }

  /** Lowering twice is lowering once. */
  lemma LowerIdempotent(s: seq<Byte>)
    ensures Lower(Lower(s)) == Lower(s)
  {
  }

  /** Where a string keeps its text: inline in the object, or in a heap
      block of `cap` bytes (text and NUL). */
  datatype Rep =
    | Small(chars: seq<Byte>)
    | Heap(chars: seq<Byte>, cap: nat)
}
