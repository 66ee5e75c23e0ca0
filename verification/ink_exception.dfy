/** The library's base exception: message, source location, result code,
    a one-frame stack trace and a key/value context, rendered into a full
    message. The clock is a parameter (the formatted time text), and so is
    the order in which the context's hash map yields its keys. */
module InkException {
  import opened Wrappers
  import opened Text

  datatype Exc = Exc(
    code: int,
    message: string,
    file: string,
    func: string,
    line: nat,
    time: string,
    stack: seq<string>,
    context: map<string, string>)

  /** `typeName()`. */
  const TypeName: string := "Generic"

  /** The message-only constructor: result code SUCCESS (0), and a stack
      trace holding just the throwing function. */
  function New(message: string, file: string, line: nat, func: string, time: string): (e: Exc)
    ensures e.code == 0 && e.message == message && e.context == map[]
    ensures e.stack == [func]
  {
    Exc(0, message, file, func, line, time, [func], map[])
  }

  /** The result-code constructor: the same, keeping the code given. */
  function NewWithCode(code: int, message: string, file: string, line: nat, func: string, time: string): (e: Exc)
    ensures e.code == code && e.message == message && e.context == map[]
    ensures e.stack == [func]
    ensures code == 0 ==> e == New(message, file, line, func, time)
  {
    Exc(code, message, file, func, line, time, [func], map[])
  }

  /** `addContext(key, value)`: stores the streamed text of the value under
      the key, replacing any earlier entry. */
  function AddContext(e: Exc, key: string, text: string): (r: Exc)
    ensures r.context.Keys == e.context.Keys + {key}
    ensures r == e.(context := r.context)
  {
    e.(context := e.context[key := text])
  }

  /** `getContext(key)`: the stored text, or "" for an absent key. */
  function GetContext(e: Exc, key: string): string {
    if key in e.context then e.context[key] else ""
  }

  /** `hasContext(key)`. */
  predicate HasContext(e: Exc, key: string) {
    key in e.context
  }

  /** What `addContext` stores, `getContext` returns; a later `addContext`
      under the same key wins; other keys are untouched. */
  lemma AddThenGet(e: Exc, k: string, v: string, v': string, other: string)
    requires other != k
    ensures HasContext(AddContext(e, k, v), k)
    ensures GetContext(AddContext(e, k, v), k) == v
    ensures GetContext(AddContext(AddContext(e, k, v), k, v'), k) == v'
    ensures GetContext(AddContext(e, k, v), other) == GetContext(e, other)
    ensures HasContext(AddContext(e, k, v), other) == HasContext(e, other)
  {
  }

  /** An absent key reads as "" and is not reported present. */
  lemma AbsentContext(e: Exc, k: string)
    requires k !in e.context
    ensures GetContext(e, k) == "" && !HasContext(e, k)
  {
  }

  /** `nested(message, inner)`: a new exception whose context records the
      inner exception's full message. */
  function Nested(message: string, innerWhat: string, file: string, line: nat, func: string, time: string): (e: Exc)
    ensures e.message == message && e.code == 0
    ensures e.context == map["InnerException" := innerWhat]
  {
    AddContext(New(message, file, line, func, time), "InnerException", innerWhat)
  }

  // The full message, as the lines `buildFullMessage` writes.

  function LocationLine(e: Exc): string {
    "  Location: " + e.file + ":" + NatToString(e.line)
      + (if e.func != [] then " in " + e.func else "") + "\n"
  }

  /** The context lines, one per key in the map's iteration order. */
  function ContextLines(ctx: map<string, string>, order: seq<string>): (r: seq<string>)
    requires forall k | k in order :: k in ctx
    ensures |r| == |order|
    ensures forall i | 0 <= i < |r| :: |r[i]| > 2 && r[i][2] == ' '
  {
    if order == [] then []
    else
      var line := "    " + order[0] + ": " + ctx[order[0]] + "\n";
      assert line[2] == ' ';
      [line] + ContextLines(ctx, order[1..])
  }

  /** Line `i` of the context block shows entry `i` of the iteration
      order as "key: value". */
  lemma {:induction false} ContextLinesAt(ctx: map<string, string>, order: seq<string>, i: nat)
    requires forall k | k in order :: k in ctx
    requires i < |order|
    ensures ContextLines(ctx, order)[i] == "    " + order[i] + ": " + ctx[order[i]] + "\n"
  {
    if i > 0 {
      ContextLinesAt(ctx, order[1..], i - 1);
    }
  }

  /** The order a hash map may yield its keys in: each key once. */
  predicate IterationOrder(ctx: map<string, string>, order: seq<string>) {
    && (forall k | k in order :: k in ctx)
    && (forall k | k in ctx :: k in order)
    && (forall i, j | 0 <= i < j < |order| :: order[i] != order[j])
  }

  /** The number of lines before the context block. */
  function ContextStart(e: Exc): nat {
    if e.code != 0 then 4 else 3
  }

  /** The lines before the context block: the headline, the location, the
      result code when it is not SUCCESS, and the time. */
  function HeadLines(e: Exc): (r: seq<string>)
    ensures |r| == ContextStart(e)
    ensures r[0] == TypeName + " Exception: " + e.message + "\n"
    ensures r[1] == LocationLine(e)
    ensures e.code != 0 ==> r[2] == "  Result Code: " + IntToString(e.code) + "\n"
    ensures r[|r| - 1] == "  Time: " + e.time + "\n"
  {
    [TypeName + " Exception: " + e.message + "\n", LocationLine(e)]
    + (if e.code != 0 then ["  Result Code: " + IntToString(e.code) + "\n"] else [])
    + ["  Time: " + e.time + "\n"]
  }

  /** The context block: nothing without context, else a header and one
      line per entry. */
  function ContextBlock(ctx: map<string, string>, order: seq<string>): (r: seq<string>)
    requires IterationOrder(ctx, order)
    ensures ctx == map[] ==> r == []
    ensures ctx != map[] ==> |r| == 1 + |order| && r[0] == "  Context:\n"
    ensures forall i | 1 <= i < |r| :: |r[i]| > 2 && r[i][2] == ' '
  {
    if ctx != map[] then ["  Context:\n"] + ContextLines(ctx, order) else []
  }

  /** `buildFullMessage()`, line by line. */
  function MessageLines(e: Exc, order: seq<string>): (r: seq<string>)
    requires IterationOrder(e.context, order)
    ensures |r| >= 3
    ensures r[0] == TypeName + " Exception: " + e.message + "\n"
    ensures r[1] == LocationLine(e)
  {
    HeadLines(e) + ContextBlock(e.context, order)
  }

  predicate StartsWith(s: string, p: string) {
    |p| <= |s| && s[..|p|] == p
  }

  /** `what()`: the lines joined. */
  function Join(lines: seq<string>): string {
    if lines == [] then [] else lines[0] + Join(lines[1..])
  }

  function What(e: Exc, order: seq<string>): string
    requires IterationOrder(e.context, order)
  {
    Join(MessageLines(e, order))
  }

  /** The full message opens with the type name, " Exception: " and the
      message. */
  lemma MessageStart(e: Exc, order: seq<string>)
    requires IterationOrder(e.context, order)
    ensures StartsWith(What(e, order), "Generic Exception: " + e.message)
  {
    var r := MessageLines(e, order);
    var h := "Generic Exception: " + e.message;
    assert r[0] == h + "\n";
    assert What(e, order) == r[0] + Join(r[1..]);
    assert What(e, order)[..|h|] == h;
  }

  /** Within the head, only the third line of a failure code is a
      "Result Code" line, and no line is the context header. */
  lemma HeadLineKinds(e: Exc)
    ensures forall i | 0 <= i < |HeadLines(e)| && (e.code == 0 || i != 2) :: !StartsWith(HeadLines(e)[i], "  Result Code: ")
    ensures forall i | 0 <= i < |HeadLines(e)| :: HeadLines(e)[i] != "  Context:\n"
  {
    var h := HeadLines(e);
    forall i | 0 <= i < |h|
      ensures (e.code == 0 || i != 2) ==> !StartsWith(h[i], "  Result Code: ")
      ensures h[i] != "  Context:\n"
    {
      if i == 0 {
        assert h[0][2] == 'n';
      } else if i == 1 {
        assert h[1][2] == 'L';
      } else if i == |h| - 1 {
        assert h[i][2] == 'T';
      } else {
        assert h[i][2] == 'R';
      }
      NotEqualByMark(h[i], "  Context:\n");
      if e.code == 0 || i != 2 {
        NotPrefixByMark(h[i], "  Result Code: ");
      }
    }
  }

  /** Lines that differ in their third character do not share a prefix
      that long. */
  lemma NotPrefixByMark(l: string, p: string)
    requires |l| > 2 && |p| > 2 && l[2] != p[2]
    ensures !StartsWith(l, p)
  {
    if |p| <= |l| {
      assert l[..|p|][2] == l[2];
    }
  }

  lemma NotEqualByMark(l: string, p: string)
    requires |l| > 2 && |p| > 2 && l[2] != p[2]
    ensures l != p
  {
  }

  /** Each line after the context header shows one entry as
      "key: value", in iteration order. */
  lemma ContextEntryLines(e: Exc, order: seq<string>)
    requires IterationOrder(e.context, order) && e.context != map[]
    ensures forall i | 0 <= i < |order| ::
      MessageLines(e, order)[ContextStart(e) + 1 + i] == "    " + order[i] + ": " + e.context[order[i]] + "\n"
  {
    var r := MessageLines(e, order);
    var cl := ContextLines(e.context, order);
    assert r == HeadLines(e) + (["  Context:\n"] + cl);
    forall i | 0 <= i < |order|
      ensures r[ContextStart(e) + 1 + i] == "    " + order[i] + ": " + e.context[order[i]] + "\n"
    {
      assert r[ContextStart(e) + 1 + i] == cl[i];
      ContextLinesAt(e.context, order, i);
    }
  }

  /** In the context block only the first line is the header, and no line
      is a "Result Code" line. */
  lemma BlockLineKinds(ctx: map<string, string>, order: seq<string>)
    requires IterationOrder(ctx, order)
    ensures forall i | 0 <= i < |ContextBlock(ctx, order)| :: !StartsWith(ContextBlock(ctx, order)[i], "  Result Code: ")
    ensures forall i | 1 <= i < |ContextBlock(ctx, order)| :: ContextBlock(ctx, order)[i] != "  Context:\n"
  {
    var b := ContextBlock(ctx, order);
    forall i | 0 <= i < |b|
      ensures !StartsWith(b[i], "  Result Code: ")
      ensures i >= 1 ==> b[i] != "  Context:\n"
    {
      if i == 0 {
        assert b[0][2] == 'C';
      } else {
        NotEqualByMark(b[i], "  Context:\n");
      }
      NotPrefixByMark(b[i], "  Result Code: ");
    }
  }

  /** A "Result Code" line appears exactly when the code is not SUCCESS. */
  lemma ResultCodeLineIff(e: Exc, order: seq<string>)
    requires IterationOrder(e.context, order)
    ensures (exists i | 0 <= i < |MessageLines(e, order)| :: StartsWith(MessageLines(e, order)[i], "  Result Code: "))
        <==> e.code != 0
  {
    var h := HeadLines(e);
    var b := ContextBlock(e.context, order);
    var r := MessageLines(e, order);
    HeadLineKinds(e);
    BlockLineKinds(e.context, order);
    forall i | 0 <= i < |r| && (e.code == 0 || i != 2)
      ensures !StartsWith(r[i], "  Result Code: ")
    {
      if i < |h| {
        assert r[i] == h[i];
      } else {
        assert r[i] == b[i - |h|];
      }
    }
    if e.code != 0 {
      assert r[2] == h[2];
      assert StartsWith(r[2], "  Result Code: ");
    }
  }

  /** A "Context:" header appears exactly when there is context, and then
      one line follows per entry. */
  lemma ContextBlockIff(e: Exc, order: seq<string>)
    requires IterationOrder(e.context, order)
    ensures (exists i | 0 <= i < |MessageLines(e, order)| :: MessageLines(e, order)[i] == "  Context:\n")
        <==> e.context != map[]
    ensures e.context != map[] ==> |MessageLines(e, order)| == |e.context| + ContextStart(e) + 1
  {
    var h := HeadLines(e);
    var b := ContextBlock(e.context, order);
    var r := MessageLines(e, order);
    HeadLineKinds(e);
    BlockLineKinds(e.context, order);
    forall i | 0 <= i < |r| && (e.context == map[] || i != |h|)
      ensures r[i] != "  Context:\n"
    {
      if i < |h| {
        assert r[i] == h[i];
      } else {
        assert r[i] == b[i - |h|];
      }
    }
    if e.context != map[] {
      assert r[|h|] == b[0];
      DistinctOrderSize(e.context, order);
    }
  }

  /** An iteration order lists as many keys as the map has. */
  lemma DistinctOrderSize(ctx: map<string, string>, order: seq<string>)
    requires IterationOrder(ctx, order)
    ensures |order| == |ctx|
  {
    var s := set i | 0 <= i < |order| :: order[i];
    assert s == ctx.Keys;
    DistinctCard(order);
  }

  lemma {:induction false} DistinctCard(order: seq<string>)
    requires forall i, j | 0 <= i < j < |order| :: order[i] != order[j]
    ensures |set i | 0 <= i < |order| :: order[i]| == |order|
  {
    if order != [] {
      var tail := order[1..];
      DistinctCard(tail);
      var s := set i | 0 <= i < |order| :: order[i];
      var t := set i | 0 <= i < |tail| :: tail[i];
      assert s == {order[0]} + t by {
        forall x | x in s ensures x in {order[0]} + t {
          var i :| 0 <= i < |order| && order[i] == x;
          if i > 0 { assert tail[i - 1] == x; }
        }
      }
      assert order[0] !in t;
    }
  }

  /** `formatStackTrace()`: empty for an empty trace, else a header and one
      numbered line per frame. */
  function FormatStackTrace(stack: seq<string>): (r: string)
    ensures stack == [] <==> r == []
  {
    if stack == [] then [] else "\nStack Trace:\n" + Frames(stack, 0)
  }

  function Frames(stack: seq<string>, from: nat): string
    decreases |stack| - from
  {
    if from >= |stack| then []
    else "  #" + NatToString(from) + " " + stack[from] + "\n" + Frames(stack, from + 1)
  }

  /** `toString(includeStackTrace)`: the full message, then the formatted
      trace when asked for. */
  function ToString(e: Exc, order: seq<string>, includeStackTrace: bool): (r: string)
    requires IterationOrder(e.context, order)
    ensures StartsWith(r, "Generic Exception: " + e.message)
    ensures !includeStackTrace || e.stack == [] ==> r == What(e, order)
  {
    MessageStart(e, order);
    What(e, order) + (if includeStackTrace then FormatStackTrace(e.stack) else [])
  }

  /** A freshly thrown exception's trace names just the throwing function,
      and `toString(true)` ends with it. */
  lemma ToStringOfNew(message: string, file: string, line: nat, func: string, time: string)
    ensures var e := New(message, file, line, func, time);
      && FormatStackTrace(e.stack) == "\nStack Trace:\n  #0 " + func + "\n"
      && ToString(e, [], true) == What(e, []) + "\nStack Trace:\n  #0 " + func + "\n"
  {
    var e := New(message, file, line, func, time);
    assert Frames(e.stack, 1) == [];
  }
}
