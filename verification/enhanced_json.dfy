/** The JSON convenience layer: default-returning accessors, dotted paths
    (segments that parse as unsigned integers address array elements),
    path updates and removals, recursive object merge, array queries and
    the small schema check. Objects are the ordered maps of the underlying
    JSON library, so their keys come out sorted. */
module EnhancedJson {
  import opened Wrappers
  import opened Text

  /** A JSON value; numbers are integers. */
  datatype Json =
    | Null
    | Bool(b: bool)
    | Num(n: int)
    | Str(s: string)
    | Arr(a: seq<Json>)
    | Obj(m: map<string, Json>)

  /** `std::stoul` results must fit an unsigned long. */
  const ULongLimit: nat := 0x1_0000_0000_0000_0000

  /** The longest run of decimal digits at the start of `s`. */
  function DigitPrefix(s: string): (r: string)
    ensures |r| <= |s| && s[..|r|] == r
    ensures forall i | 0 <= i < |r| :: IsDigit(r[i])
    ensures |r| < |s| ==> !IsDigit(s[|r|])
  {
    if s == [] || !IsDigit(s[0]) then []
    else [s[0]] + DigitPrefix(s[1..])
  }

  /** `std::stoul(s)`: the value of the leading digits, or `None` where the
      call throws (no leading digit, or a value past the unsigned range). */
  function StoUl(s: string): (r: Option<nat>)
    ensures r.Some? ==> r.value < ULongLimit && s != [] && IsDigit(s[0])
    ensures s == [] || !IsDigit(s[0]) ==> r.None?
  {
    var d := DigitPrefix(s);
    if d == [] then None
    else
      var v := ParseDigits(d);
      if v < ULongLimit then Some(v) else None
  }

  /** The position of the first '.' in a path. */
  function FirstDot(path: string): (r: Option<nat>)
    ensures r.Some? ==> r.value < |path| && path[r.value] == '.'
    ensures r.Some? ==> forall i | 0 <= i < r.value :: path[i] != '.'
    ensures r.None? ==> forall i | 0 <= i < |path| :: path[i] != '.'
  {
    if path == [] then None
    else if path[0] == '.' then Some(0)
    else match FirstDot(path[1..])
      case None => None
      case Some(i) => Some(i + 1)
  }

  // Accessors.

  /** `get(key, default)`: the member under `key` of an object, else the
      default. */
  function Get(j: Json, key: string, default: Json): (r: Json)
    ensures Has(j, key) ==> r == j.m[key]
    ensures !Has(j, key) ==> r == default
  {
    if j.Obj? && key in j.m then j.m[key] else default
  }

  /** `get(index, default)`: the element at `index` of an array, else the
      default. */
  function GetIndex(j: Json, index: nat, default: Json): (r: Json)
    ensures j.Arr? && index < |j.a| ==> r == j.a[index]
    ensures !(j.Arr? && index < |j.a|) ==> r == default
  {
    if j.Arr? && index < |j.a| then j.a[index] else default
  }

  /** `has(key)`. */
  predicate Has(j: Json, key: string) {
    j.Obj? && key in j.m
  }

  /** `getPath(path, default)`: walks the dot-separated segments; a segment
      that `stoul` accepts addresses an array element (and never an object
      member), any other segment an object member; a missing step yields
      the default. */
  function GetPath(j: Json, path: string, default: Json): (r: Json)
    decreases |path|
  {
    match FirstDot(path)
    case None =>
      (match StoUl(path)
       case Some(i) => GetIndex(j, i, default)
       case None => Get(j, path, default))
    case Some(pos) =>
      var first := path[..pos];
      var rest := path[pos + 1..];
      match StoUl(first)
      case Some(i) =>
        if j.Arr? && i < |j.a| then GetPath(j.a[i], rest, default) else default
      case None =>
        if j.Obj? && first in j.m then GetPath(j.m[first], rest, default) else default
  }

  /** `hasPath(path)`: the same walk, answering whether every step exists. */
  predicate HasPath(j: Json, path: string)
    decreases |path|
  {
    match FirstDot(path)
    case None =>
      (match StoUl(path)
       case Some(i) => j.Arr? && i < |j.a|
       case None => Has(j, path))
    case Some(pos) =>
      var first := path[..pos];
      var rest := path[pos + 1..];
      match StoUl(first)
      case Some(i) => j.Arr? && i < |j.a| && HasPath(j.a[i], rest)
      case None => j.Obj? && first in j.m && HasPath(j.m[first], rest)
  }

  /** `getPath` and `hasPath` agree: where the path exists the default
      plays no part, and where it does not the default is the answer. */
  lemma {:induction false} GetPathHasPath(j: Json, path: string, d1: Json, d2: Json)
    ensures HasPath(j, path) ==> GetPath(j, path, d1) == GetPath(j, path, d2)
    ensures !HasPath(j, path) ==> GetPath(j, path, d1) == d1
    decreases |path|
  {
    match FirstDot(path)
    case None =>
    case Some(pos) =>
      var first := path[..pos];
      var rest := path[pos + 1..];
      match StoUl(first)
      case Some(i) =>
        assert HasPath(j, path) == (j.Arr? && i < |j.a| && HasPath(j.a[i], rest));
        if j.Arr? && i < |j.a| {
          GetPathHasPath(j.a[i], rest, d1, d2);
        }
      case None =>
        assert HasPath(j, path) == (j.Obj? && first in j.m && HasPath(j.m[first], rest));
        if j.Obj? && first in j.m {
          GetPathHasPath(j.m[first], rest, d1, d2);
        }
  }

  /** A numeric segment never reaches an object member: "1" on an object
      holding key "1" finds nothing. */
  lemma NumericKeyUnreachable(v: Json)
    ensures !HasPath(Obj(map["1" := v]), "1")
    ensures GetPath(Obj(map["1" := v]), "1", Null) == Null
  {
    assert DigitPrefix("1") == "1" by {
      assert DigitPrefix("1"[1..]) == [];
    }
    assert ParseDigits("1") == 1 by {
      assert "1"[..0] == [];
    }
  }

  // Updates.

  /** A path whose every segment is an object key for `getPath`: no
      segment is accepted by `stoul`. */
  predicate KeyPath(path: string)
    decreases |path|
  {
    match FirstDot(path)
    case None => StoUl(path).None?
    case Some(pos) => StoUl(path[..pos]).None? && KeyPath(path[pos + 1..])
  }

  /** `setPath(path, value)`: turns non-objects on the way into objects,
      replaces a non-object member on the way by an empty object, and sets
      the last segment to `value`. Segments are always object keys. */
  function SetPath(j: Json, path: string, value: Json): (r: Json)
    ensures r.Obj?
    decreases |path|
  {
    var m := if j.Obj? then j.m else map[];
    match FirstDot(path)
    case None => Obj(m[path := value])
    case Some(pos) =>
      var first := path[..pos];
      var rest := path[pos + 1..];
      var child := if first in m && m[first].Obj? then m[first] else Obj(map[]);
      Obj(m[first := SetPath(child, rest, value)])
  }

  /** What `setPath` writes, `getPath` reads back, and the path exists. */
  lemma {:induction false} SetThenGet(j: Json, path: string, value: Json, default: Json)
    requires KeyPath(path)
    ensures HasPath(SetPath(j, path, value), path)
    ensures GetPath(SetPath(j, path, value), path, default) == value
    decreases |path|
  {
    var r := SetPath(j, path, value);
    match FirstDot(path)
    case None =>
      assert r.m[path] == value;
    case Some(pos) =>
      var m := if j.Obj? then j.m else map[];
      var first := path[..pos];
      var rest := path[pos + 1..];
      var child := if first in m && m[first].Obj? then m[first] else Obj(map[]);
      assert StoUl(first).None? && KeyPath(rest);
      assert r.m[first] == SetPath(child, rest, value);
      SetThenGet(child, rest, value, default);
      assert HasPath(r, path) == HasPath(r.m[first], rest);
      assert GetPath(r, path, default) == GetPath(r.m[first], rest, default);
  }

  /** `setPath` leaves every other top-level member of an object alone. */
  lemma SetPathFrame(j: Json, path: string, value: Json, k: string)
    requires j.Obj? && k in j.m
    requires FirstDot(path).Some? ==> k != path[..FirstDot(path).value]
    requires FirstDot(path).None? ==> k != path
    ensures k in SetPath(j, path, value).m && SetPath(j, path, value).m[k] == j.m[k]
  {
  }

  /** `removeKey(key)`: false unless an object holds `key`; then the member
      is erased. */
  function RemoveKey(j: Json, key: string): (res: (Json, bool))
    ensures res.1 <==> Has(j, key)
    ensures res.1 ==> res.0 == Obj(j.m - {key})
    ensures !res.1 ==> res.0 == j
  {
    if !j.Obj? || key !in j.m then (j, false)
    else (Obj(j.m - {key}), true)
  }

  /** `removePath(path)`: `removeKey` for the last segment; every earlier
      segment must name an object member. Segments are always object keys. */
  function RemovePath(j: Json, path: string): (res: (Json, bool))
    ensures !res.1 ==> res.0 == j
    decreases |path|
  {
    match FirstDot(path)
    case None => RemoveKey(j, path)
    case Some(pos) =>
      var first := path[..pos];
      var rest := path[pos + 1..];
      if j.Obj? && first in j.m && j.m[first].Obj? then
        var (c, ok) := RemovePath(j.m[first], rest);
        if ok then (Obj(j.m[first := c]), true) else (j, false)
      else (j, false)
  }

  /** On key paths `removePath` succeeds exactly where `hasPath` holds
      (through object members), and afterwards the path is gone. */
  lemma {:induction false} RemovePathSpec(j: Json, path: string)
    requires KeyPath(path)
    ensures RemovePath(j, path).1 <==> HasPath(j, path)
    ensures RemovePath(j, path).1 ==> !HasPath(RemovePath(j, path).0, path)
    decreases |path|
  {
    match FirstDot(path)
    case None =>
    case Some(pos) =>
      var first := path[..pos];
      var rest := path[pos + 1..];
      if j.Obj? && first in j.m && j.m[first].Obj? {
        RemovePathSpec(j.m[first], rest);
      }
  }

  /** A path just set can be removed again. */
  lemma {:induction false} SetThenRemove(j: Json, path: string, value: Json)
    requires KeyPath(path)
    ensures RemovePath(SetPath(j, path, value), path).1
    decreases |path|
  {
    match FirstDot(path)
    case None =>
    case Some(pos) =>
      var m := if j.Obj? then j.m else map[];
      var first := path[..pos];
      var rest := path[pos + 1..];
      var child := if first in m && m[first].Obj? then m[first] else Obj(map[]);
      SetThenRemove(child, rest, value);
  }

  /** `merge(other, overwrite)`: nothing unless both are objects; a key
      whose two values are objects is merged recursively; any other key of
      `other` is copied when this object lacks it or `overwrite` is set. */
  function Merge(a: Json, b: Json, overwrite: bool): (r: Json)
    ensures !(a.Obj? && b.Obj?) ==> r == a
    ensures a.Obj? && b.Obj? ==> r.Obj? && r.m.Keys == a.m.Keys + b.m.Keys
    ensures a.Obj? && b.Obj? ==> forall k | k in a.m && k !in b.m :: r.m[k] == a.m[k]
    ensures a.Obj? && b.Obj? ==> forall k | k in b.m && k !in a.m :: r.m[k] == b.m[k]
    ensures a.Obj? && b.Obj? && !overwrite ==>
      forall k | k in a.m && k in b.m && !(a.m[k].Obj? && b.m[k].Obj?) :: r.m[k] == a.m[k]
    ensures a.Obj? && b.Obj? && overwrite ==>
      forall k | k in a.m && k in b.m && !(a.m[k].Obj? && b.m[k].Obj?) :: r.m[k] == b.m[k]
    decreases a
  {
    if !a.Obj? || !b.Obj? then a
    else
      Obj(map k | k in a.m.Keys + b.m.Keys ::
        if k !in b.m then a.m[k]
        else if k in a.m && a.m[k].Obj? && b.m[k].Obj? then Merge(a.m[k], b.m[k], overwrite)
        else if k !in a.m || overwrite then b.m[k]
        else a.m[k])
  }

  /** Merging an object into itself changes nothing. */
  lemma {:induction false} MergeSelf(a: Json, overwrite: bool)
    ensures Merge(a, a, overwrite) == a
    decreases a
  {
    if a.Obj? {
      var r := Merge(a, a, overwrite);
      forall k | k in a.m
        ensures r.m[k] == a.m[k]
      {
        if a.m[k].Obj? {
          MergeSelf(a.m[k], overwrite);
        }
      }
      assert r.m == a.m;
    }
  }

  /** Merging an empty object changes nothing, in either direction when
      overwriting. */
  lemma MergeEmpty(a: Json)
    requires a.Obj?
    ensures Merge(a, Obj(map[]), true) == a
    ensures Merge(Obj(map[]), a, true) == a
  {
    assert Merge(a, Obj(map[]), true).m == a.m;
    assert Merge(Obj(map[]), a, true).m == a.m;
  }

  // Keys, in the order of the object's map.

  /** Lexicographic order on strings, character by character. */
  predicate LexLe(x: string, y: string)
    decreases |x|
  {
    x == [] || (y != [] && (x[0] < y[0] || (x[0] == y[0] && LexLe(x[1..], y[1..]))))
  }

  lemma {:induction false} LexTotal(x: string, y: string)
    ensures LexLe(x, y) || LexLe(y, x)
    decreases |x|
  {
    if x != [] && y != [] && x[0] == y[0] {
      LexTotal(x[1..], y[1..]);
    }
  }

  lemma {:induction false} LexTrans(x: string, y: string, z: string)
    requires LexLe(x, y) && LexLe(y, z)
    ensures LexLe(x, z)
    decreases |x|
  {
    if x != [] && x[0] == y[0] && y[0] == z[0] {
      LexTrans(x[1..], y[1..], z[1..]);
    }
  }

  lemma {:induction false} LexAntisym(x: string, y: string)
    requires LexLe(x, y) && LexLe(y, x)
    ensures x == y
    decreases |x|
  {
    if x != [] {
      LexAntisym(x[1..], y[1..]);
      assert x == [x[0]] + x[1..] && y == [y[0]] + y[1..];
    }
  }

  lemma {:induction false} LexRefl(x: string)
    ensures LexLe(x, x)
    decreases |x|
  {
    if x != [] {
      LexRefl(x[1..]);
    }
  }

  /** `x` is below every string of `s`. */
  ghost predicate Below(x: string, s: set<string>) {
    forall y | y in s :: LexLe(x, y)
  }

  lemma BelowAdd(x: string, m: string, s: set<string>)
    requires LexLe(x, m) && Below(m, s - {x})
    ensures Below(x, s)
  {
    forall y | y in s
      ensures LexLe(x, y)
    {
      if y == x {
        LexRefl(x);
      } else {
        LexTrans(x, m, y);
      }
    }
  }

  /** The least string of a non-empty finite set. */
  ghost function Least(s: set<string>): (k: string)
    requires s != {}
    ensures k in s && Below(k, s)
    decreases |s|
  {
    var x :| x in s;
    if s == {x} then
      LexRefl(x);
      x
    else
      var m := Least(s - {x});
      LexTotal(x, m);
      if LexLe(x, m) then
        BelowAdd(x, m, s);
        x
      else
        assert Below(m, s) by {
          forall y | y in s ensures LexLe(m, y) {
            if y != x {
              assert y in s - {x};
            }
          }
        }
        m
  }

  /** Strictly increasing. */
  predicate Increasing(r: seq<string>) {
    forall i, j | 0 <= i < j < |r| :: LexLe(r[i], r[j]) && r[i] != r[j]
  }

  lemma SortedCons(k: string, rest: seq<string>, s: set<string>)
    requires k in s && Below(k, s) && Increasing(rest)
    requires forall x :: x in rest <==> x in s - {k}
    ensures Increasing([k] + rest)
  {
    var r := [k] + rest;
    forall i, j | 0 <= i < j < |r|
      ensures LexLe(r[i], r[j]) && r[i] != r[j]
    {
      if i == 0 {
        assert r[j] == rest[j - 1] && rest[j - 1] in rest;
      } else {
        assert r[i] == rest[i - 1] && r[j] == rest[j - 1];
      }
    }
  }

  /** The strings of `s` in increasing order. */
  ghost function SortedKeys(s: set<string>): (r: seq<string>)
    ensures |r| == |s|
    ensures forall k :: k in r <==> k in s
    ensures Increasing(r)
    decreases |s|
  {
    if s == {} then []
    else
      var k := Least(s);
      var rest := SortedKeys(s - {k});
      SortedCons(k, rest, s);
      [k] + rest
  }

  /** `keys()`: an object's keys in increasing order, each once; nothing for
      any other value. */
  ghost function Keys(j: Json): (r: seq<string>)
    ensures !j.Obj? ==> r == []
    ensures j.Obj? ==> |r| == |j.m| && forall k :: k in r <==> k in j.m
    ensures Increasing(r)
  {
    if j.Obj? then SortedKeys(j.m.Keys) else []
  }

  // Array queries; the predicate is a pure function of the element.

  function FilterSeq(a: seq<Json>, p: Json -> bool): (r: seq<Json>)
    ensures |r| <= |a|
    ensures forall x :: x in r ==> x in a && p(x)
    ensures forall x | p(x) :: multiset(r)[x] == multiset(a)[x]
  {
    if a == [] then []
    else
      var rest := FilterSeq(a[1..], p);
      assert a == [a[0]] + a[1..];
      if p(a[0]) then [a[0]] + rest else rest
  }

  /** Filtering a concatenation filters each part, keeping the order. */
  lemma {:induction false} FilterSeqConcat(a: seq<Json>, b: seq<Json>, p: Json -> bool)
    ensures FilterSeq(a + b, p) == FilterSeq(a, p) + FilterSeq(b, p)
  {
    if a == [] {
      assert a + b == b;
    } else {
      assert (a + b)[0] == a[0] && (a + b)[1..] == a[1..] + b;
      FilterSeqConcat(a[1..], b, p);
    }
  }

  /** `filter` keeps matching elements in order: filtering a concatenation
      is filtering each part, and a single element stays exactly when it
      matches. */
  lemma FilterInOrder(a: seq<Json>, b: seq<Json>, x: Json, p: Json -> bool)
    ensures Filter(Arr(a + b), p).a == Filter(Arr(a), p).a + Filter(Arr(b), p).a
    ensures Filter(Arr([x]), p).a == if p(x) then [x] else []
  {
    FilterSeqConcat(a, b, p);
  }

  /** `filter(pred)` (and `findAll`): the array of the elements that satisfy
      the predicate, in order; an empty array for a non-array. */
  function Filter(j: Json, p: Json -> bool): (r: Json)
    ensures r.Arr?
    ensures !j.Arr? ==> r.a == []
    ensures j.Arr? ==> forall x :: x in r.a ==> x in j.a && p(x)
    ensures j.Arr? ==> forall x | p(x) :: multiset(r.a)[x] == multiset(j.a)[x]
  {
    if j.Arr? then Arr(FilterSeq(j.a, p)) else Arr([])
  }

  function FirstMatch(a: seq<Json>, p: Json -> bool, from: nat): (r: Option<nat>)
    requires from <= |a|
    ensures r.Some? ==> from <= r.value < |a| && p(a[r.value])
    ensures r.Some? ==> forall i | from <= i < r.value :: !p(a[i])
    ensures r.None? ==> forall i | from <= i < |a| :: !p(a[i])
    decreases |a| - from
  {
    if from == |a| then None
    else if p(a[from]) then Some(from)
    else FirstMatch(a, p, from + 1)
  }

  /** `find(pred)`: the first element that satisfies the predicate, else
      null (also for a non-array). */
  function FindFirst(j: Json, p: Json -> bool): (r: Json)
    ensures j.Arr? && Any(j, p) ==>
      exists i | 0 <= i < |j.a| :: r == j.a[i] && p(r) && forall k | 0 <= k < i :: !p(j.a[k])
    ensures !Any(j, p) ==> r == Null
  {
    if !j.Arr? then Null
    else match FirstMatch(j.a, p, 0)
      case Some(i) => j.a[i]
      case None => Null
  }

  /** `any(pred)`: some element of an array satisfies the predicate. */
  predicate Any(j: Json, p: Json -> bool) {
    j.Arr? && FirstMatch(j.a, p, 0).Some?
  }

  /** `all(pred)`: false for a non-array and for an EMPTY array; otherwise
      every element satisfies the predicate. */
  predicate All(j: Json, p: Json -> bool) {
    j.Arr? && |j.a| > 0 && forall i | 0 <= i < |j.a| :: p(j.a[i])
  }

  /** `any` means some element matches; `all` implies `any`; and `filter`
      keeps every element exactly when `all` holds of a non-empty array. */
  lemma QueriesAgree(j: Json, p: Json -> bool)
    requires j.Arr?
    ensures Any(j, p) <==> exists i | 0 <= i < |j.a| :: p(j.a[i])
    ensures All(j, p) ==> Any(j, p)
    ensures All(j, p) ==> Filter(j, p).a == j.a
  {
    if All(j, p) {
      assert p(j.a[0]);
      FilterAll(j.a, p);
    }
  }

  lemma {:induction false} FilterAll(a: seq<Json>, p: Json -> bool)
    requires forall i | 0 <= i < |a| :: p(a[i])
    ensures FilterSeq(a, p) == a
  {
    if a != [] {
      FilterAll(a[1..], p);
    }
  }

  // The schema check.

  /** The check a "type" string asks for; unknown names accept anything. */
  predicate TypeMatches(j: Json, t: string) {
    if t == "object" then j.Obj?
    else if t == "array" then j.Arr?
    else if t == "string" then j.Str?
    else if t == "number" then j.Num?
    else if t == "boolean" then j.Bool?
    else if t == "null" then j.Null?
    else true
  }

  /** `name` is listed in the schema's "required" array. */
  predicate Required(s: map<string, Json>, name: string) {
    "required" in s && s["required"].Arr? && Str(name) in s["required"].a
  }

  /** `isValid(schema)`: the schema must be an object; a "type" member must
      be a string naming the value's kind (a non-string "type" rejects); for
      an object value, each property the schema lists must validate when
      present and must not be missing when "required" names it; for an
      array value, each element must validate against "items". Required
      names that "properties" does not list are not checked. */
  predicate IsValid(j: Json, schema: Json)
    decreases schema
  {
    if !schema.Obj? then false
    else
      var s := schema.m;
      && ("type" in s ==> s["type"].Str? && TypeMatches(j, s["type"].s))
      && (j.Obj? && "properties" in s && s["properties"].Obj? ==>
            forall name | name in s["properties"].m ::
              (name in j.m ==> IsValid(j.m[name], s["properties"].m[name]))
              && (name !in j.m ==> !Required(s, name)))
      && (j.Arr? && "items" in s && s["items"].Obj? ==>
            forall i | 0 <= i < |j.a| :: IsValid(j.a[i], s["items"]))
  }

  /** The empty schema accepts everything; a non-object schema nothing. */
  lemma EmptySchema(j: Json, notObject: Json)
    requires !notObject.Obj?
    ensures IsValid(j, Obj(map[]))
    ensures !IsValid(j, notObject)
  {
  }

  /** A schema naming only a type accepts exactly the values of that kind. */
  lemma TypeOnlySchema(j: Json)
    ensures IsValid(j, Obj(map["type" := Str("number")])) <==> j.Num?
    ensures IsValid(j, Obj(map["type" := Str("object")])) <==> j.Obj?
  {
  }

  /** A listed, required property that is missing makes an object invalid. */
  lemma MissingRequired(j: Json, schema: Json, name: string)
    requires j.Obj? && schema.Obj? && name !in j.m
    requires "properties" in schema.m && schema.m["properties"].Obj?
    requires name in schema.m["properties"].m
    requires Required(schema.m, name)
    ensures !IsValid(j, schema)
  {
  }
}
