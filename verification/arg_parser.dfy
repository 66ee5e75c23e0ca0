/** The command-line argument parser: a registry of declared arguments keyed
    by their description, the value extraction after a flag, and the
    decision table that turns an argument string into parsed values or the
    list of missing required arguments. */
module ArgParser {
  import opened Wrappers
  import opened Text

  /** One registered argument; `required` is kept by the source as the text
      "1" or "0" and read back with `stoi`, which gives the same flag. */
  datatype ArgSpec = ArgSpec(shortId: string, longId: string, desc: string,
                             help: string, defaultValue: string, required: bool)

  datatype Parser = Parser(description: string, added: map<string, ArgSpec>)
  {
    /** Every entry is registered under its own description. */
    predicate Valid() {
      forall d | d in added :: added[d].desc == d
    }
  }

  function NewParser(description: string): (p: Parser)
    ensures p.Valid() && p.added == map[]
  {
    Parser(description, map[])
  }

  /** `argsToString(argc, argv)`: argv[1..] each followed by one space.
      Only the program name (or nothing) gives the empty string; otherwise
      the result ends in a space. */
  function ArgsToString(argv: seq<string>): (r: string)
    ensures r == [] <==> |argv| <= 1
    ensures |argv| > 1 ==> r[|r| - 1] == ' '
    decreases |argv|
  {
    if |argv| <= 1 then []
    else argv[1] + " " + ArgsToString([argv[0]] + argv[2..])
  }

  /** One more argument appends that argument and a space: the
      accumulation the loop performs. */
  lemma {:induction false} ArgsToStringSnoc(argv: seq<string>, w: string)
    requires |argv| >= 1
    ensures ArgsToString(argv + [w]) == ArgsToString(argv) + w + " "
    decreases |argv|
  {
    if |argv| > 1 {
      var shorter := [argv[0]] + argv[2..];
      assert [(argv + [w])[0]] + (argv + [w])[2..] == shorter + [w];
      ArgsToStringSnoc(shorter, w);
    } else {
      assert [(argv + [w])[0]] + (argv + [w])[2..] == argv;
    }
  }

  /** The loop of `argsToString`: appends `argv[i] + " "` for i from 1 on. */
  method ArgsToStringLoop(argv: seq<string>) returns (all: string)
    ensures all == ArgsToString(argv)
  {
    all := [];
    if |argv| == 0 {
      return;
    }
    var i := 1;
    while i < |argv|
      invariant 1 <= i <= |argv|
      invariant all == ArgsToString(argv[..i])
    {
      ArgsToStringSnoc(argv[..i], argv[i]);
      assert argv[..i] + [argv[i]] == argv[..i + 1];
      all := all + argv[i] + " ";
      i := i + 1;
    }
    assert argv[..i] == argv;
  }

  // add_argument

  /** The registration guards as the source writes them: the throw macro
      raises when its condition is FALSE, so the first guard raises when
      `desc` IS found in `long_id`, and the second when `desc` has NOT been
      added yet. */
  function AddArgumentAsWritten(p: Parser, a: ArgSpec): (r: Result<Parser>)
    ensures r.Ok? <==> !Contains(a.longId, a.desc) && a.desc in p.added
  {
    if !(Find(a.longId, a.desc).None?) then Err("Invalid argument added!")
    else if !(a.desc in p.added) then Err("Cannot add same argument " + a.desc + ".")
    else Ok(p.(added := p.added[a.desc := a]))
  }

  /** As written, registering on a fresh parser always throws. */
  lemma AsWrittenRejectsFirst(description: string, a: ArgSpec)
    ensures AddArgumentAsWritten(NewParser(description), a).Err?
  {
  }

  /** The same guards on a concrete argument: `--port` with description
      `port` is refused on a fresh parser. */
  lemma AsWrittenRejectsPort()
    ensures AddArgumentAsWritten(NewParser(""), ArgSpec("-p", "--port", "port", "", "80", false))
         == Err("Invalid argument added!")
  {
    assert MatchAt("--port", "port", 2);
  }

  /** `add_argument(short_id, long_id, desc, help, default, required)` with
      the guards as the messages describe them: refused when `desc` is not
      part of `long_id` or is already registered; otherwise recorded under
      `desc`. The overload without a short id passes "" for it. */
  function AddArgument(p: Parser, a: ArgSpec): (r: Result<Parser>)
    requires p.Valid()
    ensures r.Ok? <==> Contains(a.longId, a.desc) && a.desc !in p.added
    ensures r.Ok? ==> r.value.Valid() && r.value.added == p.added[a.desc := a]
    ensures r.Ok? ==> r.value.description == p.description
    ensures !Contains(a.longId, a.desc) ==> r == Err("Invalid argument added!")
    ensures Contains(a.longId, a.desc) && a.desc in p.added ==>
      r == Err("Cannot add same argument " + a.desc + ".")
  {
    if Find(a.longId, a.desc).None? then Err("Invalid argument added!")
    else if a.desc in p.added then Err("Cannot add same argument " + a.desc + ".")
    else Ok(p.(added := p.added[a.desc := a]))
  }

  /** The overload without a short id. */
  function AddLongArgument(p: Parser, longId: string, desc: string, help: string,
                           defaultValue: string, required: bool): (r: Result<Parser>)
    requires p.Valid()
    ensures r.Ok? <==> Contains(longId, desc) && desc !in p.added
    ensures r.Ok? ==> desc in r.value.added && r.value.added[desc].shortId == ""
  {
    AddArgument(p, ArgSpec("", longId, desc, help, defaultValue, required))
  }

  /** Each description registers once: a second registration is refused. */
  lemma AddTwiceRefused(p: Parser, a: ArgSpec, b: ArgSpec)
    requires p.Valid() && AddArgument(p, a).Ok? && b.desc == a.desc
    ensures AddArgument(AddArgument(p, a).value, b).Err?
  {
  }

  // extract_value

  const Whitespace: set<char> := {' ', '\t', '\n'}

  predicate IsQuote(c: char) {
    c == '"' || c == '\''
  }

  /** The first position at or after `pos` that is not a space, or the
      length when only spaces follow. */
  function SkipSpaces(args: string, pos: nat): (r: nat)
    ensures pos <= r
    ensures pos <= |args| ==> r <= |args|
    ensures forall i | pos <= i < r && i < |args| :: args[i] == ' '
    ensures r < |args| ==> args[r] != ' '
    ensures pos >= |args| ==> r == pos
    decreases |args| - pos
  {
    if pos < |args| && args[pos] == ' ' then SkipSpaces(args, pos + 1) else pos
  }

  /** Where the value begins: after spaces, one optional '=', and more
      spaces. Everything skipped is a space or that one '=', and the value
      does not start with a space. */
  function ValueStart(args: string, pos: nat): (v: nat)
    ensures pos <= v
    ensures pos <= |args| ==> v <= |args|
    ensures forall i | pos <= i < v && i < |args| :: args[i] == ' ' || args[i] == '='
    ensures forall i, j | pos <= i < j < v && j < |args| && args[i] == '=' :: args[j] != '='
    ensures v < |args| ==> args[v] != ' '
    ensures v < |args| && args[v] == '=' ==> exists i | pos <= i < v :: args[i] == '='
  {
    var p := SkipSpaces(args, pos);
    if p < |args| && args[p] == '=' then SkipSpaces(args, p + 1) else p
  }

  /** `r` lies at `start` in `args`, holds no character of `stop`, and is
      followed by one of them or by the end. */
  predicate Token(args: string, start: nat, r: string, stop: set<char>) {
    && start + |r| <= |args| && args[start..start + |r|] == r
    && (forall i | 0 <= i < |r| :: r[i] !in stop)
    && (start + |r| == |args| || args[start + |r|] in stop)
  }

  /** A token is determined by where it starts and what stops it. */
  lemma TokenUnique(args: string, start: nat, r1: string, r2: string, stop: set<char>)
    requires Token(args, start, r1, stop) && Token(args, start, r2, stop)
    ensures r1 == r2
  {
    if |r1| < |r2| {
      TokenInside(args, start, r2, stop, |r1|);
      assert false;
    } else if |r2| < |r1| {
      TokenInside(args, start, r1, stop, |r2|);
      assert false;
    }
  }

  lemma TokenInside(args: string, start: nat, r: string, stop: set<char>, i: nat)
    requires Token(args, start, r, stop) && i < |r|
    ensures start + i < |args| && args[start + i] !in stop
  {
    assert args[start + i] == r[i];
  }

  /** The text ending at the first occurrence of `stop` from `start` on, or
      at the end of `args`. */
  lemma TokenOfFind(args: string, start: nat, e: Option<nat>, stop: set<char>)
    requires start <= |args|
    requires e.Some? ==> start <= e.value < |args| && args[e.value] in stop
    requires e.Some? ==> forall j | start <= j < e.value :: args[j] !in stop
    requires e.None? ==> forall j | start <= j < |args| :: args[j] !in stop
    ensures Token(args, start, if e.Some? then args[start..e.value] else args[start..], stop)
  {
  }

  /** `extract_value(args, pos)`: "" when nothing follows the spaces and the
      optional '='; the text up to the matching quote (or the end) when the
      value starts with `"` or `'`; otherwise the text up to the first
      space, tab or newline (or the end). */
  function ExtractValue(args: string, pos: nat): (r: string)
    requires pos <= |args|
    ensures |r| <= |args| - pos
  {
    var p := ValueStart(args, pos);
    if p >= |args| then "" else ValueFrom(args, p)
  }

  /** The value starting at `p`: quoted up to the matching quote (or the
      end), else up to the first space, tab or newline (or the end). */
  function ValueFrom(args: string, p: nat): (r: string)
    requires p < |args|
    ensures |r| <= |args| - p
  {
    if IsQuote(args[p]) then
      var end := FindFrom(args, [args[p]], p + 1);
      if end.None? then args[p + 1..] else args[p + 1..end.value]
    else
      var end := FindFirstOf(args, Whitespace, p);
      if end.None? then args[p..] else args[p..end.value]
  }

  /** A value ends at its matching quote, or at the first space, tab or
      newline. */
  lemma ValueFromSpec(args: string, p: nat)
    requires p < |args|
    ensures IsQuote(args[p]) ==> Token(args, p + 1, ValueFrom(args, p), {args[p]})
    ensures !IsQuote(args[p]) ==> Token(args, p, ValueFrom(args, p), Whitespace)
  {
    if IsQuote(args[p]) {
      QuoteFind(args, args[p], p + 1, FindFrom(args, [args[p]], p + 1));
    } else {
      TokenOfFind(args, p, FindFirstOf(args, Whitespace, p), Whitespace);
    }
  }

  /** What `extract_value` yields, described by where the value starts and
      what ends it. */
  lemma ExtractValueSpec(args: string, pos: nat)
    requires pos <= |args|
    ensures ValueStart(args, pos) >= |args| ==> ExtractValue(args, pos) == []
    ensures ValueStart(args, pos) < |args| && IsQuote(args[ValueStart(args, pos)]) ==>
      Token(args, ValueStart(args, pos) + 1, ExtractValue(args, pos), {args[ValueStart(args, pos)]})
    ensures ValueStart(args, pos) < |args| && !IsQuote(args[ValueStart(args, pos)]) ==>
      Token(args, ValueStart(args, pos), ExtractValue(args, pos), Whitespace)
  {
    var p := ValueStart(args, pos);
    if p < |args| {
      ValueFromSpec(args, p);
    }
  }

  /** `find` of a one-character string is the first position of that
      character. */
  lemma QuoteFind(args: string, quote: char, start: nat, end: Option<nat>)
    requires start <= |args| && end == FindFrom(args, [quote], start)
    ensures Token(args, start, if end.Some? then args[start..end.value] else args[start..], {quote})
  {
    FindOneChar(args, quote, start);
    TokenOfFind(args, start, end, {quote});
  }

  lemma {:induction false} FindOneChar(args: string, c: char, from: nat)
    ensures FindFrom(args, [c], from) == FindFirstOf(args, {c}, from)
    decreases |args| - from
  {
    if from < |args| {
      assert args[from..from + 1] == [args[from]];
      FindOneChar(args, c, from + 1);
    }
  }

  /** A plain value placed after a flag and a space comes back whole. */
  lemma ExtractPlain(a: string, v: string, b: string)
    requires v != [] && !IsQuote(v[0]) && v[0] != '='
    requires forall i | 0 <= i < |v| :: v[i] !in Whitespace
    ensures ExtractValue(a + " " + v + " " + b, |a|) == v
  {
    var args := a + " " + v + " " + b;
    var s := |a| + 1;
    assert args[|a|] == ' ' && args[s] == v[0];
    assert SkipSpaces(args, |a|) == s by {
      assert SkipSpaces(args, |a|) == SkipSpaces(args, s);
    }
    assert ValueStart(args, |a|) == s;
    assert args[s..s + |v|] == v;
    assert args[s + |v|] == ' ';
    assert Token(args, s, v, Whitespace);
    ExtractValueSpec(args, |a|);
    TokenUnique(args, s, ExtractValue(args, |a|), v, Whitespace);
  }

  /** A plain value joined to its flag by '=' comes back whole:
      `--port=8080` yields `8080`. */
  lemma ExtractAfterEquals(a: string, v: string, b: string)
    requires v != [] && !IsQuote(v[0]) && v[0] != '='
    requires forall i | 0 <= i < |v| :: v[i] !in Whitespace
    ensures ExtractValue(a + "=" + v + " " + b, |a|) == v
  {
    var args := a + "=" + v + " " + b;
    var s := |a| + 1;
    assert args[|a|] == '=' && args[s] == v[0];
    var p := ValueStart(args, |a|);
    if p == |a| {
      assert false;
    } else if p > s {
      assert false;
    }
    assert args[s..s + |v|] == v;
    assert args[s + |v|] == ' ';
    assert Token(args, s, v, Whitespace);
    ExtractValueSpec(args, |a|);
    TokenUnique(args, s, ExtractValue(args, |a|), v, Whitespace);
  }

  /** A quoted value comes back without its quotes, spaces included. */
  lemma ExtractQuoted(a: string, v: string, b: string)
    requires '"' !in v
    ensures ExtractValue(a + " \"" + v + "\"" + b, |a|) == v
  {
    var args := a + " \"" + v + "\"" + b;
    var s := |a| + 1;
    assert args[|a|] == ' ' && args[s] == '"';
    assert SkipSpaces(args, |a|) == s by {
      assert SkipSpaces(args, |a|) == SkipSpaces(args, s);
    }
    assert ValueStart(args, |a|) == s;
    assert args[s + 1..s + 1 + |v|] == v;
    assert args[s + 1 + |v|] == '"';
    assert Token(args, s + 1, v, {'"'});
    ExtractValueSpec(args, |a|);
    TokenUnique(args, s + 1, ExtractValue(args, |a|), v, {'"'});
  }

  // parse_args

  /** What `parse_args` concludes about one registered argument. */
  datatype Outcome = Value(v: string) | Lacking | Absent

  /** Where the value is looked for: just after the first occurrence of
      the long id, or else of the (non-empty) short id; None when neither
      occurs. */
  function FoundPos(args: string, a: ArgSpec): (r: Option<nat>)
    ensures r.Some? ==> r.value <= |args|
  {
    var longFind := Find(args, a.longId);
    var shortFind := if a.shortId == [] then None else Find(args, a.shortId);
    if longFind.Some? then Some(longFind.value + |a.longId|)
    else if shortFind.Some? then Some(shortFind.value + |a.shortId|)
    else None
  }

  /** The text found after the long id, or else after the short id, or ""
      when neither occurs. */
  function FoundValue(args: string, a: ArgSpec): string
  {
    match FoundPos(args, a)
    case None => ""
    case Some(q) => ExtractValue(args, q)
  }

  /** The result rules: a non-empty value is kept; else an optional
      argument falls back to a non-empty default; else a required argument
      is lacking; else the argument is absent. */
  function Decide(args: string, a: ArgSpec): (o: Outcome)
    ensures o.Value? ==> o.v != []
  {
    var value := FoundValue(args, a);
    if value != [] then Value(value)
    else if !a.required && a.defaultValue != [] then Value(a.defaultValue)
    else if a.required then Lacking
    else Absent
  }

  /** The registry visited in `order` (the hash map's iteration order, which
      the source leaves unspecified): the values found and the long ids of
      the lacking arguments, in visiting order. */
  function Collect(args: string, added: map<string, ArgSpec>, order: seq<string>)
    : (res: (map<string, string>, seq<string>))
    requires forall d | d in order :: d in added
    ensures forall d :: d in res.0 <==> d in order && Decide(args, added[d]).Value?
    ensures forall d | d in res.0 :: res.0[d] == Decide(args, added[d]).v
    ensures res.1 == [] <==> forall d | d in order :: !Decide(args, added[d]).Lacking?
    decreases |order|
  {
    if order == [] then (map[], [])
    else
      var d := order[|order| - 1];
      var (m, lacking) := Collect(args, added, order[..|order| - 1]);
      match Decide(args, added[d])
      case Value(v) => (m[d := v], lacking)
      case Lacking => (m, lacking + [added[d].longId])
      case Absent => (m, lacking)
  }

  /** The lacking list names the long id of every required argument not
      found, and nothing else. */
  lemma {:induction false} CollectLacking(args: string, added: map<string, ArgSpec>, order: seq<string>)
    requires forall d | d in order :: d in added
    ensures var lacking := Collect(args, added, order).1;
      && (forall d | d in order && Decide(args, added[d]).Lacking? :: added[d].longId in lacking)
      && (forall x | x in lacking :: exists d | d in order :: Decide(args, added[d]).Lacking? && added[d].longId == x)
    decreases |order|
  {
    if order != [] {
      var init := order[..|order| - 1];
      var last := order[|order| - 1];
      CollectLacking(args, added, init);
      var lk := Collect(args, added, init).1;
      var lacking := Collect(args, added, order).1;
      assert lacking == if Decide(args, added[last]).Lacking? then lk + [added[last].longId] else lk;
      forall d | d in order && Decide(args, added[d]).Lacking?
        ensures added[d].longId in lacking
      {
        if d != last {
          assert d in init;
        }
      }
      forall x | x in lacking
        ensures exists d | d in order :: Decide(args, added[d]).Lacking? && added[d].longId == x
      {
        if x in lk {
          var d :| d in init && Decide(args, added[d]).Lacking? && added[d].longId == x;
          assert d in order;
        } else {
          assert last in order;
        }
      }
    }
  }

  /** The lacking long ids joined by ", ". */
  function Join(xs: seq<string>): (r: string)
    ensures r == [] <==> xs == [] || (|xs| == 1 && xs[0] == [])
    ensures |xs| == 1 ==> r == xs[0]
  {
    if xs == [] then []
    else if |xs| == 1 then xs[0]
    else Join(xs[..|xs| - 1]) + ", " + xs[|xs| - 1]
  }

  /** Joining is the same read from the front: the first id, then ", "
      and the rest joined. */
  lemma {:induction false} JoinCons(x: string, xs: seq<string>)
    requires xs != []
    ensures Join([x] + xs) == x + ", " + Join(xs)
    decreases |xs|
  {
    var ys := [x] + xs;
    if |xs| > 1 {
      assert ys[..|ys| - 1] == [x] + xs[..|xs| - 1];
      JoinCons(x, xs[..|xs| - 1]);
    } else {
      assert ys[..|ys| - 1] == [x];
    }
  }

  const MissingPrefix: string := "Missing required arguments: "

  /** `parse_args(args)`: the parsed values keyed by description, or the
      exception listing every lacking required argument. */
  function ParseArgs(p: Parser, args: string, order: seq<string>): (r: Result<map<string, string>>)
    requires p.Valid()
    requires forall d | d in order :: d in p.added
    requires forall d | d in p.added :: d in order
    ensures r.Ok? <==> forall d | d in p.added :: !Decide(args, p.added[d]).Lacking?
    ensures r.Ok? ==> forall d :: d in r.value <==> d in p.added && Decide(args, p.added[d]).Value?
    ensures r.Ok? ==> forall d | d in r.value :: r.value[d] == Decide(args, p.added[d]).v
    ensures r.Err? ==> |r.message| >= |MissingPrefix| && r.message[..|MissingPrefix|] == MissingPrefix
  {
    var (parsed, lacking) := Collect(args, p.added, order);
    if lacking != [] then
      Err(MissingPrefix + Join(lacking))
    else Ok(parsed)
  }

  /** A found long id wins: the short id is then irrelevant. An empty
      short id is never searched for, so without the long id nothing is
      found. */
  lemma FoundValuePrecedence(args: string, a: ArgSpec, otherShort: string)
    ensures Find(args, a.longId).Some? ==>
      && FoundPos(args, a) == Some(Find(args, a.longId).value + |a.longId|)
      && FoundPos(args, a.(shortId := otherShort)) == FoundPos(args, a)
    ensures Find(args, a.longId).None? ==> FoundPos(args, a.(shortId := [])) == None
    ensures Find(args, a.longId).None? && a.shortId != [] && Find(args, a.shortId).Some? ==>
      FoundPos(args, a) == Some(Find(args, a.shortId).value + |a.shortId|)
  {
  }

  /** The result rules of `parse_args` for one registered argument `d`. */
  lemma ParseArgsRules(p: Parser, args: string, order: seq<string>, d: string)
    requires p.Valid()
    requires forall e | e in order :: e in p.added
    requires forall e | e in p.added :: e in order
    requires d in p.added
    ensures var a := p.added[d]; var v := FoundValue(args, a); var r := ParseArgs(p, args, order);
      && (v != [] && r.Ok? ==> d in r.value && r.value[d] == v)
      && (v == [] && !a.required && a.defaultValue != [] && r.Ok? ==> d in r.value && r.value[d] == a.defaultValue)
      && (v == [] && !a.required && a.defaultValue == [] && r.Ok? ==> d !in r.value)
      && (v == [] && a.required ==> r.Err?)
  {
    var a := p.added[d];
    if FoundValue(args, a) == [] && a.required {
      assert Decide(args, a).Lacking?;
    }
  }

  /** End to end: a required `--port` given on the command line comes back
      under its description with the value typed after it. */
  lemma ParsePortFromArgv(prog: string, v: string)
    requires v != [] && !IsQuote(v[0]) && v[0] != '='
    requires forall i | 0 <= i < |v| :: v[i] !in Whitespace
    ensures var p := AddArgument(NewParser(""), ArgSpec("-p", "--port", "port", "", "", true));
      && p.Ok?
      && ParseArgs(p.value, ArgsToString([prog, "--port", v]), ["port"]) == Ok(map["port" := v])
  {
    assert MatchAt("--port", "port", 2);
    var a := ArgSpec("-p", "--port", "port", "", "", true);
    var p := AddArgument(NewParser(""), a).value;
    var args := ArgsToString([prog, "--port", v]);
    assert ArgsToString([prog] + [v]) == v + " " + ArgsToString([prog]);
    assert args == "--port" + " " + v + " " + "";
    assert MatchAt(args, "--port", 0);
    assert Find(args, "--port") == Some(0);
    ExtractPlain("--port", v, "");
    assert FoundValue(args, a) == v;
    var (parsed, lacking) := Collect(args, p.added, ["port"]);
    assert parsed == map["port" := v];
  }
}
