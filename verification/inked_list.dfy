/** The doubly linked list: the chain of nodes from the root to the tail is
    modelled by the sequence of their data, next to the element count the
    list keeps in its own field. */
module InkedList {
  import opened Wrappers

  datatype List<T> = List(items: seq<T>, size: nat)
  {
    /** The count field agrees with the number of nodes reachable from the
        root. */
    predicate Valid() {
      size == |items|
    }

    /** `length()`: the count field. */
    function Length(): nat {
      size
    }
  }

  /** The default constructor: no root, no tail, count 0. */
  function Empty<T>(): (l: List<T>)
    ensures l.Valid() && l.items == []
  {
    List([], 0)
  }

  /** The one-element constructor: root and tail are the same node. */
  function Single<T>(x: T): (l: List<T>)
    ensures l.Valid() && l.items == [x]
  {
    List([x], 1)
  }

  /** `push_back(x)`: the new node becomes the tail. */
  function PushBack<T>(l: List<T>, x: T): (r: List<T>)
    requires l.Valid()
    ensures r.Valid() && r.Length() == l.Length() + 1
    ensures r.items[|r.items| - 1] == x && r.items[..|r.items| - 1] == l.items
  {
    if l.items == [] then List([x], l.size + 1)
    else List(l.items + [x], l.size + 1)
  }

  /** `enqueue(x)`: the new node becomes the root. */
  function Enqueue<T>(l: List<T>, x: T): (r: List<T>)
    requires l.Valid()
    ensures r.Valid() && r.Length() == l.Length() + 1
    ensures r.items[0] == x && r.items[1..] == l.items
  {
    if l.items == [] then List([x], l.size + 1)
    else List([x] + l.items, l.size + 1)
  }

  /** `pop_front(data)`: false on an empty list; otherwise the root's data
      goes to the caller (when it asked for it) and the root is unlinked. */
  function PopFront<T>(l: List<T>): (res: (List<T>, bool, Option<T>))
    requires l.Valid()
    ensures res.0.Valid()
    ensures res.1 <==> l.items != []
    ensures !res.1 ==> res.0 == l && res.2 == None
    ensures res.1 ==> res.2 == Some(l.items[0]) && [l.items[0]] + res.0.items == l.items
  {
    if l.items == [] then (l, false, None)
    else (List(l.items[1..], l.size - 1), true, Some(l.items[0]))
  }

  /** `pop_back(data)`: false on an empty list; otherwise the tail's data
      goes to the caller (when it asked for it) and the tail is unlinked. */
  function PopBack<T>(l: List<T>): (res: (List<T>, bool, Option<T>))
    requires l.Valid()
    ensures res.0.Valid()
    ensures res.1 <==> l.items != []
    ensures !res.1 ==> res.0 == l && res.2 == None
    ensures res.1 ==> res.2 == Some(l.items[|l.items| - 1]) && res.0.items + [l.items[|l.items| - 1]] == l.items
  {
    if l.items == [] then (l, false, None)
    else (List(l.items[..|l.items| - 1], l.size - 1), true, Some(l.items[|l.items| - 1]))
  }

  /** The position `insert(x, index)` puts `x` at: the front for index 0 or
      an empty list, the back for an index at or past the end. */
  function InsertPos<T>(l: List<T>, index: nat): (p: nat)
    requires l.Valid()
    ensures p <= |l.items|
  {
    if index == 0 || l.items == [] then 0
    else if index >= l.size then |l.items|
    else index
  }

  /** Taking out the element at `k`. */
  function Without<T>(s: seq<T>, k: nat): (r: seq<T>)
    requires k < |s|
    ensures |r| == |s| - 1
    ensures forall j | 0 <= j < k :: r[j] == s[j]
    ensures forall j | k <= j < |r| :: r[j] == s[j + 1]
  {
    s[..k] + s[k + 1..]
  }

  /** `insert(x, index)`: `enqueue` for index 0 or an empty list,
      `push_back` for an index at or past the end, otherwise a new node
      linked in front of the node at `index`. */
  function Insert<T>(l: List<T>, x: T, index: nat): (r: List<T>)
    requires l.Valid()
    ensures r.Valid() && r.Length() == l.Length() + 1
    ensures InsertPos(l, index) < |r.items| && r.items[InsertPos(l, index)] == x
    ensures Without(r.items, InsertPos(l, index)) == l.items
  {
    if index == 0 || l.items == [] then Enqueue(l, x)
    else if index >= l.size then PushBack(l, x)
    else
      var r := List(l.items[..index] + [x] + l.items[index..], l.size + 1);
      assert Without(r.items, index) == l.items;
      r
  }

  /** `remove_idx(index)`: false for an index at or past the end; otherwise
      `pop_front` for the root, `pop_back` for the tail, and an unlink of
      the node at `index` in between. */
  function RemoveIdx<T>(l: List<T>, index: nat): (res: (List<T>, bool))
    requires l.Valid()
    ensures res.0.Valid()
    ensures res.1 <==> index < |l.items|
    ensures !res.1 ==> res.0 == l
    ensures res.1 ==> res.0.items == Without(l.items, index)
  {
    if index >= l.size then (l, false)
    else if index == 0 then
      var p := PopFront(l);
      (p.0, p.1)
    else if index == l.size - 1 then
      var p := PopBack(l);
      (p.0, p.1)
    else
      (List(Without(l.items, index), l.size - 1), true)
  }

  /** The position `remove_data(x)` deletes: the root when it holds `x`,
      else the tail when it holds `x`, else the first interior node that
      does. */
  predicate Chosen<T(==)>(s: seq<T>, x: T, k: nat) {
    && k < |s| && s[k] == x
    && (k > 0 ==> s[0] != x)
    && (0 < k < |s| - 1 ==> s[|s| - 1] != x && forall j | 1 <= j < k :: s[j] != x)
  }

  /** At most one position is the chosen one. */
  lemma ChosenUnique<T>(s: seq<T>, x: T, k: nat, k': nat)
    requires Chosen(s, x, k) && Chosen(s, x, k')
    ensures k == k'
  {
  }

  /** `remove_data(x)`: false when no node holds `x`; otherwise the root,
      the tail or the first interior node holding `x` is unlinked, in that
      order of preference. The interior is scanned from the root's
      successor up to, not including, the tail. */
  method RemoveData<T(==)>(l: List<T>, x: T) returns (r: List<T>, ok: bool)
    requires l.Valid()
    ensures r.Valid()
    ensures ok <==> x in l.items
    ensures !ok ==> r == l
    ensures ok ==> exists k :: Chosen(l.items, x, k) && r.items == Without(l.items, k)
  {
    if l.items == [] {
      return l, false;
    }
    var s := l.items;
    if s[0] == x {
      var p := PopFront(l);
      assert Chosen(s, x, 0);
      return p.0, p.1;
    }
    if s[|s| - 1] == x {
      var p := PopBack(l);
      assert Chosen(s, x, |s| - 1);
      return p.0, p.1;
    }
    var i := 1;
    while i < |s| - 1
      invariant 1 <= i
      invariant forall j | 1 <= j < i && j < |s| :: s[j] != x
    {
      if s[i] == x {
        assert Chosen(s, x, i);
        return List(Without(s, i), l.size - 1), true;
      }
      i := i + 1;
    }
    assert forall j | 0 <= j < |s| :: s[j] != x;
    return l, false;
  }

  /** What `push_back` adds, `pop_back` hands back, restoring the list. */
  lemma PushBackThenPopBack<T>(l: List<T>, x: T)
    requires l.Valid()
    ensures PopBack(PushBack(l, x)) == (l, true, Some(x))
  {
    var r := PushBack(l, x);
    assert r.items[..|r.items| - 1] == l.items;
  }

  /** What `enqueue` adds, `pop_front` hands back, restoring the list. */
  lemma EnqueueThenPopFront<T>(l: List<T>, x: T)
    requires l.Valid()
    ensures PopFront(Enqueue(l, x)) == (l, true, Some(x))
  {
  }

  /** `remove_idx` at the position `insert` used undoes the insertion. */
  lemma InsertThenRemove<T>(l: List<T>, x: T, index: nat)
    requires l.Valid()
    ensures RemoveIdx(Insert(l, x, index), InsertPos(l, index)) == (l, true)
  {
  }

  /** `remove_data` takes out one occurrence of `x` and nothing else. */
  lemma RemoveDataCount<T>(s: seq<T>, k: nat)
    requires k < |s|
    ensures multiset(Without(s, k)) + multiset{s[k]} == multiset(s)
  {
    assert s == s[..k] + [s[k]] + s[k + 1..];
  }
}
