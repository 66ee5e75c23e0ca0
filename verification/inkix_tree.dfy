/** The compressed prefix tree: every node carries a label, a terminal mark
    and its children in insertion order; a stored key is spelled by the
    labels on a path from the root down to a terminal node. */
module InkixTree {
  import opened Wrappers

  datatype Node = Node(edge: string, terminal: bool, children: seq<Node>)

  /** The constructor's root: empty label, not terminal, no children. */
  const Root: Node := Node("", false, [])

  predicate IsPrefix(p: string, s: string) {
    |p| <= |s| && s[..|p|] == p
  }

  /** The test `find_if` applies to a child: a non-empty label starting with
      `c`. */
  predicate Starts(n: Node, c: char) {
    |n.edge| > 0 && n.edge[0] == c
  }

  /** The first child from position `from` on that starts with `c`. */
  function FindChild(children: seq<Node>, c: char, from: nat): (r: Option<nat>)
    requires from <= |children|
    ensures r.None? <==> forall j | from <= j < |children| :: !Starts(children[j], c)
    ensures r.Some? ==> from <= r.value < |children| && Starts(children[r.value], c)
    ensures r.Some? ==> forall j | from <= j < r.value :: !Starts(children[j], c)
    decreases |children| - from
  {
    if from == |children| then None
    else if Starts(children[from], c) then Some(from)
    else FindChild(children, c, from + 1)
  }

  /** `_get_common_prefix_len(a, b)`: the length of the longest common
      prefix. */
  function CommonPrefixLen(a: string, b: string): (n: nat)
    ensures n <= |a| && n <= |b|
    ensures a[..n] == b[..n]
    ensures n < |a| && n < |b| ==> a[n] != b[n]
  {
    if |a| == 0 || |b| == 0 || a[0] != b[0] then 0
    else 1 + CommonPrefixLen(a[1..], b[1..])
  }

  /** `insert(key)` applied below node `n`: a new terminal leaf for the rest
      of the key when no child starts with its first character; a descent
      when the matching child's label is a prefix of the key (marking that
      child terminal when the key ends there); otherwise a split of the
      child at the common prefix. */
  function Insert(n: Node, key: string): (r: Node)
    ensures r.edge == n.edge && r.terminal == n.terminal
    ensures key == [] ==> r == n
    decreases |key|
  {
    if key == [] then n
    else match FindChild(n.children, key[0], 0)
      case None =>
        n.(children := n.children + [Node(key, true, [])])
      case Some(i) =>
        var c := n.children[i];
        var k := CommonPrefixLen(c.edge, key);
        if k == |c.edge| then
          var rest := key[k..];
          var c' := if rest == [] then c.(terminal := true) else Insert(c, rest);
          n.(children := n.children[i := c'])
        else
          n.(children := n.children[i := Split(c, key, k)])
  }

  /** The node replacing child `c` when the key leaves its label after `k`
      characters: labelled by the common part, with `c` (shortened to the
      rest of its label) under it, and either a terminal leaf for the rest
      of the key or, when the key is used up, the terminal mark itself. */
  function Split(c: Node, key: string, k: nat): (s: Node)
    requires k < |c.edge| && k <= |key|
    ensures s.edge == c.edge[..k] && s.terminal == (k == |key|)
  {
    var tail := c.(edge := c.edge[k..]);
    if k < |key| then Node(c.edge[..k], false, [tail, Node(key[k..], true, [])])
    else Node(c.edge[..k], true, [tail])
  }

  /** `get(key)` below node `n`: follows the child starting with the next
      key character while its whole label matches; yields the label of the
      node where the key runs out, and "" when no such path exists. The
      terminal mark is not consulted. */
  function Get(n: Node, key: string): (r: string)
    ensures key != [] && r != [] ==> |r| <= |key| && key[|key| - |r|..] == r
    decreases |key|
  {
    if key == [] then n.edge
    else match FindChild(n.children, key[0], 0)
      case None => ""
      case Some(i) =>
        var c := n.children[i];
        if !IsPrefix(c.edge, key) then ""
        else
          var r := Get(c, key[|c.edge|..]);
          SuffixOfRest(key, c.edge, r);
          r
  }

  /** A suffix of what follows a matched label is a suffix of the key. */
  lemma SuffixOfRest(key: string, edge: string, r: string)
    requires IsPrefix(edge, key)
    requires key[|edge|..] == [] ==> r == edge
    requires key[|edge|..] != [] && r != [] ==>
      |r| <= |key[|edge|..]| && key[|edge|..][|key[|edge|..]| - |r|..] == r
    ensures r != [] ==> |r| <= |key| && key[|key| - |r|..] == r
  {
    var rest := key[|edge|..];
    if rest == [] {
      assert key == edge;
    } else if r != [] {
      assert rest[|rest| - |r|..] == key[|key| - |r|..];
    }
  }

  // The keys a tree stores.

  /** `w` is spelled from below node `n` down to a terminal node. */
  predicate Member(n: Node, w: string)
    decreases n, 0
  {
    if w == [] then n.terminal
    else exists i | 0 <= i < |n.children| :: MemberVia(n.children[i], w)
  }

  /** `w` starts with `x`'s label and the rest is spelled below `x`. */
  predicate MemberVia(x: Node, w: string)
    decreases x, 1
  {
    IsPrefix(x.edge, w) && Member(x, w[|x.edge|..])
  }

  /** Inserting a non-empty key stores that key and keeps every key stored
      before; nothing else becomes stored. */
  lemma {:induction false} InsertMember(n: Node, key: string, w: string)
    requires key != []
    ensures Member(Insert(n, key), w) <==> Member(n, w) || w == key
    decreases |key|, 2
  {
    var r := Insert(n, key);
    if w == [] {
      return;
    }
    match FindChild(n.children, key[0], 0)
    case None =>
      var leaf := Node(key, true, []);
      AppendChild(n, leaf, w);
      LeafMember(leaf, w);
    case Some(i) =>
      var c := n.children[i];
      var k := CommonPrefixLen(c.edge, key);
      if k == |c.edge| {
        var rest := key[k..];
        var c' := if rest == [] then c.(terminal := true) else Insert(c, rest);
        assert r.children == n.children[i := c'];
        DescendVia(c, key, k, c', w);
        ReplaceChild(n, i, c', key, w);
      } else {
        SplitVia(c, key, k, w);
        ReplaceChild(n, i, Split(c, key, k), key, w);
      }
  }

  /** A terminal leaf stores exactly its own label. */
  lemma LeafMember(leaf: Node, w: string)
    requires leaf.terminal && leaf.children == []
    ensures MemberVia(leaf, w) <==> w == leaf.edge
  {
    if w == leaf.edge {
      assert w[|leaf.edge|..] == [];
    }
  }

  /** Membership looks at a node's children, and at its terminal mark only
      for the empty word; never at its own label. */
  lemma MemberIgnoresLabel(x: Node, y: Node, w: string)
    requires x.children == y.children
    requires w == [] ==> x.terminal == y.terminal
    ensures Member(x, w) == Member(y, w)
  {
  }

  lemma AppendChild(n: Node, x: Node, w: string)
    requires w != []
    ensures Member(n.(children := n.children + [x]), w) <==> Member(n, w) || MemberVia(x, w)
  {
    var m := n.(children := n.children + [x]);
    if Member(n, w) {
      var i :| 0 <= i < |n.children| && MemberVia(n.children[i], w);
      assert m.children[i] == n.children[i];
    }
    if MemberVia(x, w) {
      assert m.children[|n.children|] == x;
    }
    if Member(m, w) {
      var i :| 0 <= i < |m.children| && MemberVia(m.children[i], w);
      if i < |n.children| {
        assert n.children[i] == m.children[i];
      }
    }
  }

  /** Replacing child `i` by a node that stores what the old child stored
      plus `extra`. */
  lemma ReplaceChild(n: Node, i: nat, x: Node, extra: string, w: string)
    requires i < |n.children| && w != []
    requires MemberVia(x, w) <==> MemberVia(n.children[i], w) || w == extra
    ensures Member(n.(children := n.children[i := x]), w) <==> Member(n, w) || w == extra
  {
    var m := n.(children := n.children[i := x]);
    if Member(n, w) {
      var j :| 0 <= j < |n.children| && MemberVia(n.children[j], w);
      if j != i {
        assert m.children[j] == n.children[j];
      }
      assert MemberVia(m.children[j], w);
    }
    if w == extra {
      assert MemberVia(m.children[i], w);
    }
    if Member(m, w) {
      var j :| 0 <= j < |m.children| && MemberVia(m.children[j], w);
      if j != i {
        assert n.children[j] == m.children[j];
      }
    }
  }

  /** The descent case: the child whose whole label matches, updated below,
      stores what it stored plus the key. */
  lemma {:induction false} DescendVia(c: Node, key: string, k: nat, c': Node, w: string)
    requires 0 < k == |c.edge| && k <= |key| && c.edge == key[..k]
    requires c' == if key[k..] == [] then c.(terminal := true) else Insert(c, key[k..])
    ensures MemberVia(c', w) <==> MemberVia(c, w) || w == key
    decreases |key|, 1
  {
    var rest := key[k..];
    assert key == c.edge + rest;
    if IsPrefix(c.edge, w) {
      var v := w[k..];
      assert w == c.edge + v;
      assert v == rest <==> w == key;
      if rest == [] {
        if v != [] {
          MemberIgnoresLabel(c', c, v);
        }
      } else {
        InsertMember(c, rest, v);
      }
    }
  }

  /** The split case: the split node stores what the old child stored plus
      the key. */
  lemma SplitVia(c: Node, key: string, k: nat, w: string)
    requires 0 < k < |c.edge| && k <= |key|
    requires c.edge[..k] == key[..k]
    requires k < |key| ==> c.edge[k] != key[k]
    ensures MemberVia(Split(c, key, k), w) <==> MemberVia(c, w) || w == key
  {
    var s := Split(c, key, k);
    var p := c.edge[..k];
    var tail := c.(edge := c.edge[k..]);
    assert s.children[0] == tail;
    if w == key {
      var v := w[k..];
      if k < |key| {
        var leaf := s.children[1];
        LeafMember(leaf, v);
        assert MemberVia(leaf, v);
      }
      assert Member(s, v);
    }
    if MemberVia(c, w) {
      assert w[..|c.edge|] == c.edge;
      var v := w[k..];
      assert IsPrefix(p, w);
      assert v[..|c.edge| - k] == c.edge[k..];
      assert v[|c.edge| - k..] == w[|c.edge|..];
      MemberIgnoresLabel(tail, c, w[|c.edge|..]);
      assert MemberVia(tail, v);
    }
    if MemberVia(s, w) {
      var v := w[k..];
      assert w == p + v;
      assert Member(s, v);
      if v == [] {
        assert s.terminal && k == |key|;
        assert key[..k] == key;
      } else {
        var j :| 0 <= j < |s.children| && MemberVia(s.children[j], v);
        if j == 0 {
          TailVia(c, k, w, v);
        } else {
          LeafMember(s.children[1], v);
          assert key == key[..k] + key[k..];
        }
      }
    }
  }

  /** A word stored below the shortened child, after the common part, is
      stored below the original child. */
  lemma TailVia(c: Node, k: nat, w: string, v: string)
    requires 0 < k < |c.edge| && k <= |w| && v == w[k..] && w[..k] == c.edge[..k]
    requires MemberVia(c.(edge := c.edge[k..]), v)
    ensures MemberVia(c, w)
  {
    var tail := c.(edge := c.edge[k..]);
    assert IsPrefix(tail.edge, v);
    assert w[..|c.edge|] == w[..k] + v[..|c.edge| - k];
    assert w[..|c.edge|] == c.edge;
    assert v[|c.edge| - k..] == w[|c.edge|..];
    MemberIgnoresLabel(tail, c, w[|c.edge|..]);
  }

  /** After inserting a non-empty key, `get` on it finds the node where it
      ends: a non-empty label that ends the key. */
  lemma {:induction false} InsertThenGet(n: Node, key: string)
    requires key != []
    ensures var r := Get(Insert(n, key), key); r != [] && |r| <= |key| && key[|key| - |r|..] == r
    decreases |key|
  {
    match FindChild(n.children, key[0], 0)
    case None =>
      GetNewLeaf(n, key);
      assert key[|key| - |key|..] == key;
    case Some(i) =>
      var c := n.children[i];
      var k := CommonPrefixLen(c.edge, key);
      if k == |c.edge| {
        var rest := key[k..];
        var c' := if rest == [] then c.(terminal := true) else Insert(c, rest);
        GetDescend(n, key, i, c');
        if rest != [] {
          InsertThenGet(c, rest);
          var r := Get(c', rest);
          assert rest[|rest| - |r|..] == key[|key| - |r|..];
        } else {
          assert key == c.edge;
          assert key[|key| - |key|..] == key;
        }
      } else {
        GetSplit(n, key, i);
      }
  }

  /** No child starts with the key: the appended leaf is where `get` ends. */
  lemma GetNewLeaf(n: Node, key: string)
    requires key != [] && FindChild(n.children, key[0], 0).None?
    ensures Get(Insert(n, key), key) == key
  {
    var t := Insert(n, key);
    var leaf := Node(key, true, []);
    assert t.children == n.children + [leaf];
    FindSkips(n.children, [leaf], key[0]);
    assert t.children[|n.children|] == leaf;
    assert key[|key|..] == [];
    assert Get(leaf, []) == key;
  }

  /** The matching child's whole label is a prefix of the key: `get` goes on
      below the updated child with the rest of the key. */
  lemma GetDescend(n: Node, key: string, i: nat, c': Node)
    requires key != [] && FindChild(n.children, key[0], 0) == Some(i)
    requires CommonPrefixLen(n.children[i].edge, key) == |n.children[i].edge|
    requires var c := n.children[i]; var rest := key[|c.edge|..];
      c' == if rest == [] then c.(terminal := true) else Insert(c, rest)
    ensures Get(Insert(n, key), key) == Get(c', key[|n.children[i].edge|..])
  {
    var c := n.children[i];
    var t := Insert(n, key);
    assert t.children == n.children[i := c'];
    FindAfterReplace(n.children, i, c', key[0]);
    assert IsPrefix(c'.edge, key);
  }

  /** The key leaves the matching child's label: `get` ends at the split
      node or at the new leaf under it. */
  lemma GetSplit(n: Node, key: string, i: nat)
    requires key != [] && FindChild(n.children, key[0], 0) == Some(i)
    requires CommonPrefixLen(n.children[i].edge, key) < |n.children[i].edge|
    ensures var r := Get(Insert(n, key), key); r != [] && |r| <= |key| && key[|key| - |r|..] == r
  {
    var c := n.children[i];
    var k := CommonPrefixLen(c.edge, key);
    var t := Insert(n, key);
    var s := Split(c, key, k);
    assert t.children == n.children[i := s];
    FindAfterReplace(n.children, i, s, key[0]);
    assert IsPrefix(s.edge, key);
    var v := key[k..];
    assert Get(t, key) == Get(s, v);
    if v != [] {
      assert !Starts(s.children[0], v[0]);
      assert FindChild(s.children, v[0], 0) == Some(1);
      assert v[|v|..] == [];
      assert Get(s, v) == v;
    } else {
      assert key[..k] == key;
    }
  }

  /** The first match is unaffected by children appended after a sequence
      with no match. */
  lemma FindSkips(a: seq<Node>, b: seq<Node>, c: char)
    requires forall j | 0 <= j < |a| :: !Starts(a[j], c)
    requires |b| > 0 && Starts(b[0], c)
    ensures FindChild(a + b, c, 0) == Some(|a|)
  {
    var r := FindChild(a + b, c, 0);
    assert Starts((a + b)[|a|], c);
    assert forall j | 0 <= j < |a| :: (a + b)[j] == a[j];
  }

  /** Replacing the first match by a node with the same first character
      keeps it the first match. */
  lemma FindAfterReplace(children: seq<Node>, i: nat, x: Node, c: char)
    requires FindChild(children, c, 0) == Some(i)
    requires Starts(x, c)
    ensures FindChild(children[i := x], c, 0) == Some(i)
  {
    var r := FindChild(children[i := x], c, 0);
    assert Starts(children[i := x][i], c);
    assert r.Some?;
  }

  // The shape `insert` keeps.

  /** Below every node: non-empty labels, and siblings with pairwise
      distinct first characters. */
  predicate WellFormed(n: Node)
    decreases n
  {
    && (forall i | 0 <= i < |n.children| :: |n.children[i].edge| > 0)
    && (forall i, j | 0 <= i < j < |n.children| ::
          n.children[i].edge[0] != n.children[j].edge[0])
    && (forall i | 0 <= i < |n.children| :: WellFormed(n.children[i]))
  }

  lemma RootWellFormed()
    ensures WellFormed(Root) && !Root.terminal && Root.edge == ""
  {
  }

  /** `insert` keeps the tree well formed. */
  lemma {:induction false} InsertWellFormed(n: Node, key: string)
    requires WellFormed(n)
    ensures WellFormed(Insert(n, key))
    decreases |key|
  {
    if key == [] {
      return;
    }
    var t := Insert(n, key);
    match FindChild(n.children, key[0], 0)
    case None =>
      var leaf := Node(key, true, []);
      assert t == n.(children := n.children + [leaf]);
      AppendKeepsShape(n, leaf);
    case Some(i) =>
      var c := n.children[i];
      assert WellFormed(c);
      var k := CommonPrefixLen(c.edge, key);
      if k == |c.edge| {
        var rest := key[k..];
        var c' := if rest == [] then c.(terminal := true) else Insert(c, rest);
        if rest != [] {
          InsertWellFormed(c, rest);
        } else {
          assert c'.children == c.children;
        }
        assert t == n.(children := n.children[i := c']);
        ReplaceKeepsShape(n, i, c');
      } else {
        SplitWellFormed(c, key, k);
        assert t == n.(children := n.children[i := Split(c, key, k)]);
        ReplaceKeepsShape(n, i, Split(c, key, k));
      }
  }

  lemma AppendKeepsShape(n: Node, x: Node)
    requires WellFormed(n) && WellFormed(x) && |x.edge| > 0
    requires forall j | 0 <= j < |n.children| :: !Starts(n.children[j], x.edge[0])
    ensures WellFormed(n.(children := n.children + [x]))
  {
    var m := n.(children := n.children + [x]);
    assert forall j | 0 <= j < |n.children| :: m.children[j] == n.children[j];
    assert m.children[|n.children|] == x;
  }

  lemma SplitWellFormed(c: Node, key: string, k: nat)
    requires WellFormed(c) && 0 < k < |c.edge| && k <= |key|
    requires k < |key| ==> c.edge[k] != key[k]
    ensures WellFormed(Split(c, key, k))
  {
    var s := Split(c, key, k);
    var tail := c.(edge := c.edge[k..]);
    assert WellFormed(tail) by {
      assert tail.children == c.children;
    }
    assert s.children[0] == tail;
    if k < |key| {
      var leaf := Node(key[k..], true, []);
      assert WellFormed(leaf);
      assert s.children == [tail, leaf];
    } else {
      assert s.children == [tail];
    }
  }

  lemma ReplaceKeepsShape(n: Node, i: nat, x: Node)
    requires WellFormed(n) && i < |n.children|
    requires WellFormed(x) && |x.edge| > 0 && x.edge[0] == n.children[i].edge[0]
    ensures WellFormed(n.(children := n.children[i := x]))
  {
    var m := n.(children := n.children[i := x]);
    assert forall j | 0 <= j < |m.children| :: m.children[j].edge[0] == n.children[j].edge[0];
  }

  // What `get` finds.

  /** The key is spelled below `n` by a path of labels that ends at a node
      labelled `last`. */
  predicate SpelledTo(n: Node, key: string, last: string)
    decreases n, 0
  {
    exists i | 0 <= i < |n.children| :: SpelledVia(n.children[i], key, last)
  }

  /** The key starts with `x`'s label; either the label is all of it and
      `last` is that label, or the rest is spelled below `x`. */
  predicate SpelledVia(x: Node, key: string, last: string)
    decreases x, 1
  {
    && IsPrefix(x.edge, key)
    && if |x.edge| == |key| then last == x.edge else SpelledTo(x, key[|x.edge|..], last)
  }

  /** A non-empty result of `get` ends a path of labels spelling the key. */
  lemma {:induction false} GetSpells(n: Node, key: string)
    requires WellFormed(n) && key != [] && Get(n, key) != []
    ensures SpelledTo(n, key, Get(n, key))
    decreases |key|
  {
    var i := FindChild(n.children, key[0], 0).value;
    var c := n.children[i];
    var rest := key[|c.edge|..];
    assert Get(n, key) == Get(c, rest);
    if rest != [] {
      GetSpells(c, rest);
    }
    assert SpelledVia(c, key, Get(n, key));
  }

  /** In a well-formed tree a path spelling the key is the one `get`
      follows, so `get` returns the label at its end. */
  lemma {:induction false} SpelledGets(n: Node, key: string, last: string)
    requires WellFormed(n) && key != [] && SpelledTo(n, key, last)
    ensures Get(n, key) == last && last != []
    decreases |key|
  {
    var j :| 0 <= j < |n.children| && SpelledVia(n.children[j], key, last);
    var c := n.children[j];
    assert Starts(c, key[0]);
    var i := FindChild(n.children, key[0], 0).value;
    assert i == j;
    if |c.edge| < |key| {
      SpelledGets(c, key[|c.edge|..], last);
    }
  }

  /** For a well-formed tree and a non-empty key, `get` is non-empty
      exactly when a path of labels spells the key, and it returns the
      label at the end of any such path. */
  lemma GetIffSpelled(n: Node, key: string)
    requires WellFormed(n) && key != []
    ensures Get(n, key) != [] <==> SpelledTo(n, key, Get(n, key))
    ensures forall last | SpelledTo(n, key, last) :: Get(n, key) == last
  {
    if Get(n, key) != [] {
      GetSpells(n, key);
    } else if SpelledTo(n, key, Get(n, key)) {
      SpelledGets(n, key, Get(n, key));
    }
    forall last | SpelledTo(n, key, last)
      ensures Get(n, key) == last
    {
      SpelledGets(n, key, last);
    }
  }
}
