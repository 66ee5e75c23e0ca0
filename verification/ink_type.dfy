/** The tagged value: a type tag next to a union payload. The two integer
    members `i64_value` and `u64_value` share one 64-bit word, modelled as
    its bit pattern; a string payload is an owned pointer, possibly null.
    Copies are deep and the model is a value, so a copy is the value
    itself. */
module InkType {
  import opened Wrappers

  datatype TypeId =
    | Invalid | I8 | I16 | I32 | I64 | U8 | U16 | U32 | U64 | F32 | F64 | String | Bool | Char | Handle

  /** Integer widths. */
  datatype Width = W8 | W16 | W32 | W64
  {
    function Modulus(): (m: nat)
      ensures m >= 256
    {
      match this
      case W8 => 0x100
      case W16 => 0x1_0000
      case W32 => 0x1_0000_0000
      case W64 => 0x1_0000_0000_0000_0000
    }
  }

  /** The signed values of a width. */
  predicate InSigned(w: Width, v: int) {
    -(w.Modulus() / 2) <= v < w.Modulus() / 2
  }

  /** The unsigned values of a width. */
  predicate InUnsigned(w: Width, v: int) {
    0 <= v < w.Modulus()
  }

  /** `static_cast` to a signed type of width `w`: reduction modulo 2^w
      into the signed range. */
  function SignedCast(w: Width, x: int): (r: int)
    ensures InSigned(w, r)
    ensures (r - x) % w.Modulus() == 0
  {
    var h := w.Modulus() / 2;
    (x + h) % w.Modulus() - h
  }

  /** The 64-bit pattern of an `i64`, and back. */
  function Encode64(v: int): (bits: nat)
    requires InSigned(W64, v)
    ensures InUnsigned(W64, bits)
  {
    if v < 0 then v + W64.Modulus() else v
  }

  function Decode64(bits: nat): (v: int)
    requires InUnsigned(W64, bits)
    ensures InSigned(W64, v)
  {
    if bits >= W64.Modulus() / 2 then bits - W64.Modulus() else bits
  }

  lemma Decode64Encode64(v: int)
    requires InSigned(W64, v)
    ensures Decode64(Encode64(v)) == v
  {
  }

  /** Casting a value that already fits changes nothing. */
  lemma SignedCastFits(w: Width, v: int)
    requires InSigned(w, v)
    ensures SignedCast(w, v) == v
  {
    var h := w.Modulus() / 2;
    assert 0 <= v + h < w.Modulus();
  }

  /** The union member last written. */
  datatype Data =
    | Word(bits: nat)
    | FloatBits
    | BoolVal(b: bool)
    | CharVal(c: int)
    | HandleVal(h: nat)
    | StrPtr(s: Option<string>)

  datatype Value = Value(tag: TypeId, data: Data)

  /** The tag names the member the payload holds. */
  predicate Valid(x: Value) {
    match x.tag
    case Invalid => x.data.Word?
    case I8 | I16 | I32 | I64 | U8 | U16 | U32 | U64 => x.data.Word? && InUnsigned(W64, x.data.bits)
    case F32 | F64 => x.data.FloatBits?
    case String => x.data.StrPtr?
    case Bool => x.data.BoolVal?
    case Char => x.data.CharVal? && InSigned(W8, x.data.c)
    case Handle => x.data.HandleVal?
  }

  /** What `toVariant()` returns; the float alternatives are not modelled. */
  datatype Variant =
    | Monostate
    | VSigned(width: Width, v: int)
    | VUnsigned(width: Width, u: nat)
    | VFloat
    | VString(s: string)
    | VBool(b: bool)
    | VChar(c: int)
    | VHandle(h: nat)

  /** The default constructor: Invalid with a zero payload. */
  function Default(): (x: Value)
    ensures Valid(x) && !IsValid(x)
  {
    Value(Invalid, Word(0))
  }

  function SignedTag(w: Width): TypeId {
    match w
    case W8 => I8
    case W16 => I16
    case W32 => I32
    case W64 => I64
  }

  function UnsignedTag(w: Width): TypeId {
    match w
    case W8 => U8
    case W16 => U16
    case W32 => U32
    case W64 => U64
  }

  /** The `i8` … `i64` constructors: the tag of the width, the value
      widened into `i64_value`. */
  function FromSigned(w: Width, v: int): (x: Value)
    requires InSigned(w, v)
    ensures Valid(x) && x.tag == SignedTag(w) && IsValid(x)
  {
    Value(SignedTag(w), Word(Encode64(v)))
  }

  /** The `u8` … `u64` constructors: the value widened into `u64_value`. */
  function FromUnsigned(w: Width, v: nat): (x: Value)
    requires InUnsigned(w, v)
    ensures Valid(x) && x.tag == UnsignedTag(w) && IsValid(x)
  {
    Value(UnsignedTag(w), Word(v))
  }

  /** The `bool`, `char` and handle constructors. */
  function FromBool(b: bool): (x: Value)
    ensures Valid(x) && x.tag == Bool
  {
    Value(Bool, BoolVal(b))
  }

  function FromChar(c: int): (x: Value)
    requires InSigned(W8, c)
    ensures Valid(x) && x.tag == Char
  {
    Value(Char, CharVal(c))
  }

  function FromHandle(h: nat): (x: Value)
    ensures Valid(x) && x.tag == Handle
  {
    Value(Handle, HandleVal(h))
  }

  /** The three string constructors: a new owned copy of the text. */
  function FromString(s: string): (x: Value)
    ensures Valid(x) && x.tag == String && IsValid(x)
  {
    Value(String, StrPtr(Some(s)))
  }

  /** `getType()` and `isValid()`. */
  function GetType(x: Value): TypeId {
    x.tag
  }

  predicate IsValid(x: Value) {
    x.tag != Invalid
  }

  /** `toVariant()`: the alternative of the tag, read back from the member
      its constructor wrote, narrowed by a `static_cast`. */
  function ToVariant(x: Value): (r: Variant)
    requires Valid(x)
  {
    match x.tag
    case I8 => VSigned(W8, SignedCast(W8, Decode64(x.data.bits)))
    case I16 => VSigned(W16, SignedCast(W16, Decode64(x.data.bits)))
    case I32 => VSigned(W32, SignedCast(W32, Decode64(x.data.bits)))
    case I64 => VSigned(W64, Decode64(x.data.bits))
    case U8 => VUnsigned(W8, x.data.bits % W8.Modulus())
    case U16 => VUnsigned(W16, x.data.bits % W16.Modulus())
    case U32 => VUnsigned(W32, x.data.bits % W32.Modulus())
    case U64 => VUnsigned(W64, x.data.bits)
    case F32 | F64 => VFloat
    case Bool => VBool(x.data.b)
    case Char => VChar(x.data.c)
    case Handle => VHandle(x.data.h)
    case String => VString(x.data.s.GetOr([]))
    case Invalid => Monostate
  }

  /** `toVariant()` is the empty alternative exactly for Invalid values. */
  lemma MonostateIffInvalid(x: Value)
    requires Valid(x)
    ensures ToVariant(x) == Monostate <==> !IsValid(x)
  {
  }

  /** Every signed integer comes back exactly, in its own alternative. */
  lemma SignedRoundTrip(w: Width, v: int)
    requires InSigned(w, v)
    ensures ToVariant(FromSigned(w, v)) == VSigned(w, v)
  {
    assert InSigned(W64, v);
    Decode64Encode64(v);
    SignedCastFits(w, v);
  }

  /** Every unsigned integer comes back exactly, in its own alternative. */
  lemma UnsignedRoundTrip(w: Width, v: nat)
    requires InUnsigned(w, v)
    ensures ToVariant(FromUnsigned(w, v)) == VUnsigned(w, v)
  {
  }

  /** Text, booleans, characters and handles come back as given. */
  lemma OtherRoundTrips(s: string, b: bool, c: int, h: nat)
    requires InSigned(W8, c)
    ensures ToVariant(FromString(s)) == VString(s)
    ensures ToVariant(FromBool(b)) == VBool(b)
    ensures ToVariant(FromChar(c)) == VChar(c)
    ensures ToVariant(FromHandle(h)) == VHandle(h)
  {
  }

  /** Distinct constructors give distinguishable values: the variant
      determines the tag. */
  lemma VariantDeterminesTag(x: Value, y: Value)
    requires Valid(x) && Valid(y) && ToVariant(x) == ToVariant(y)
    requires x.tag !in {F32, F64} && y.tag !in {F32, F64}
    ensures x.tag == y.tag
  {
  }

  /** The move constructor and move assignment: the destination takes tag
      and payload; the source becomes Invalid with a zero payload. */
  function Move(src: Value): (res: (Value, Value))
    requires Valid(src)
    ensures res.0 == src && res.1 == Default()
    ensures !IsValid(res.1) && Valid(res.0)
  {
    (src, Value(Invalid, Word(0)))
  }

  /** Move assignment `dst = std::move(src)`, where `same` says that both
      name one object: the self-move guard then leaves that object as it
      was; otherwise the destination takes the value and the source is
      left Invalid, as in Move. */
  function MoveAssign(dst: Value, src: Value, same: bool): (res: (Value, Value))
    requires Valid(src)
    requires same ==> dst == src
    ensures same ==> res.0 == src && res.1 == src
    ensures !same ==> res.0 == src && !IsValid(res.1) && res.1 == Default()
    ensures Valid(res.0) && ToVariant(res.0) == ToVariant(src)
  {
    if same then (dst, src) else Move(src)
  }

  /** Copy construction and copy assignment: the string payload is a fresh
      copy of the text (a null one stays null), any other payload is
      copied as is; the tag is kept. Assigning a value to itself does
      nothing. */
  function CopyAssign(dst: Value, src: Value): (r: Value)
    requires Valid(src)
    ensures Valid(r) && r.tag == src.tag
    ensures ToVariant(r) == ToVariant(src)
  {
    if src.tag == String && src.data.s.Some? then Value(String, StrPtr(Some(src.data.s.value)))
    else Value(src.tag, src.data)
  }

  /** A copy is indistinguishable from its source, and self-assignment is
      a no-op. */
  lemma CopyIsSource(dst: Value, src: Value)
    requires Valid(src)
    ensures CopyAssign(dst, src) == src
    ensures CopyAssign(src, src) == src
  {
  }
}
