/** The single-level timing wheel: a circular array of slots, each the head
    of an intrusive doubly-linked list of timer nodes, and a cursor.

    Nodes live in a caller-owned slab and are named by their index; a link
    is either `Null` or a reference to a slab index. The proofs describe the
    linked structure by a ghost partition `groups` of all slab indices:
    `groups[s]` for `s < |slots|` is the list hanging from slot `s`, head
    first, and the remaining groups are chains detached from the wheel (a
    list handed out by `Tick`, or a single free node). */
module TimerWheel {
  import opened InkBase

  datatype Link = Null | Ref(index: nat)

  /** A `TimerNode`: intrusive links plus the slot it was last put in. */
  datatype TimerNode = TimerNode(prev: Link, next: Link, slotIndex: nat)

  /** A default-constructed node: no links, slot 0. */
  const FreshNode := TimerNode(Null, Null, 0)

  /** The default number of slots. */
  const DefaultSize: nat := 60

  /** The tick length fixed by the constructor, in milliseconds. */
  const TickMs: nat := 1000

  /** 2^32, the modulus of `u32` arithmetic. */
  const U32: nat := 0x1_0000_0000

  /** The wheel: slot heads, the cursor and the time of the last tick. */
  datatype Wheel = Wheel(slots: seq<Link>, current: nat, lastTick: nat)

  predicate LinkIn(l: Link, bound: nat) {
    l.Ref? ==> l.index < bound
  }

  /** What the code relies on without checking: a non-empty `u32`-sized wheel,
      a cursor in range, and links and slot indices that point into the slab
      and the wheel. */
  predicate WellFormed(w: Wheel, slab: seq<TimerNode>) {
    && 1 <= |w.slots| < U32
    && w.current < |w.slots|
    && w.lastTick < U64
    && (forall s | 0 <= s < |w.slots| :: LinkIn(w.slots[s], |slab|))
    && (forall y | 0 <= y < |slab| ::
          LinkIn(slab[y].prev, |slab|) && LinkIn(slab[y].next, |slab|) && slab[y].slotIndex < |w.slots|)
  }

  /** The constructor: `size` empty slots, cursor 0, last tick at `now`. The
      clock is a parameter. */
  function NewWheel(size: nat, now: nat): (w: Wheel)
    requires 1 <= size < U32 && now < U64
    ensures |w.slots| == size && w.current == 0 && w.lastTick == now
    ensures forall s | 0 <= s < size :: w.slots[s] == Null
  {
    Wheel(seq(size, _ => Null), 0, now)
  }

  /** The slot `update` files a node under: `(current + size - 1) % size`,
      with the sum computed in `u32` arithmetic. */
  function TargetSlot(current: nat, size: nat): (t: nat)
    requires size >= 1
    ensures t < size
    ensures current < size && current + size - 1 < U32 ==> t == (current + size - 1) % size
  {
    ((current + (size - 1)) % U32) % size
  }

  /** `unlink(node)`: returns early when the node has no links and is not the
      head of the slot it records; otherwise splices it out of its list,
      moves the slot head on if it was the head, and clears its links. Every
      field is read from the current state, as the pointer code does. */
  function Unlink(w: Wheel, slab: seq<TimerNode>, x: nat): (r: (Wheel, seq<TimerNode>))
    requires WellFormed(w, slab) && x < |slab|
    ensures WellFormed(r.0, r.1) && |r.1| == |slab|
    ensures r.0.current == w.current && r.0.lastTick == w.lastTick && |r.0.slots| == |w.slots|
  {
    if slab[x].prev == Null && slab[x].next == Null && w.slots[slab[x].slotIndex] != Ref(x) then
      (w, slab)
    else
      var s1 := if slab[x].prev.Ref? then
                  slab[slab[x].prev.index := slab[slab[x].prev.index].(next := slab[x].next)]
                else slab;
      var s2 := if s1[x].next.Ref? then
                  s1[s1[x].next.index := s1[s1[x].next.index].(prev := s1[x].prev)]
                else s1;
      var k := s2[x].slotIndex;
      var slots := if w.slots[k] == Ref(x) then w.slots[k := s2[x].next] else w.slots;
      var s3 := s2[x := s2[x].(prev := Null, next := Null)];
      (w.(slots := slots), s3)
  }

  /** `update(node)`: unlink, then push the node at the head of the slot one
      full turn behind the cursor. */
  function Update(w: Wheel, slab: seq<TimerNode>, x: nat): (r: (Wheel, seq<TimerNode>))
    requires WellFormed(w, slab) && x < |slab|
    ensures WellFormed(r.0, r.1) && |r.1| == |slab|
    ensures r.0.current == w.current && r.0.lastTick == w.lastTick && |r.0.slots| == |w.slots|
    ensures r.0.slots[TargetSlot(w.current, |w.slots|)] == Ref(x)
    ensures r.1[x].slotIndex == TargetSlot(w.current, |w.slots|)
  {
    var (w1, s1) := Unlink(w, slab, x);
    Push(w1, s1, x)
  }

  /** The second half of `update`: the node becomes the head of the slot
      list one full turn behind the cursor, in front of the old head. */
  function Push(w: Wheel, slab: seq<TimerNode>, x: nat): (r: (Wheel, seq<TimerNode>))
    requires WellFormed(w, slab) && x < |slab|
    ensures WellFormed(r.0, r.1) && |r.1| == |slab|
    ensures r.0.current == w.current && r.0.lastTick == w.lastTick && |r.0.slots| == |w.slots|
    ensures r.0.slots[TargetSlot(w.current, |w.slots|)] == Ref(x)
    ensures r.1[x].slotIndex == TargetSlot(w.current, |w.slots|)
  {
    var t := TargetSlot(w.current, |w.slots|);
    var head := w.slots[t];
    var s2 := slab[x := slab[x].(slotIndex := t, next := head, prev := Null)];
    var s3 := if head.Ref? then s2[head.index := s2[head.index].(prev := Ref(x))] else s2;
    (w.(slots := w.slots[t := Ref(x)]), s3)
  }

  /** `tick()`: hands out the list under the cursor, empties that slot,
      advances the cursor by one and the last-tick time by one tick length
      (in `u64` arithmetic). The slab is not touched: the handed-out nodes keep
      their links. */
  function Tick(w: Wheel, slab: seq<TimerNode>): (r: (Wheel, Link))
    requires WellFormed(w, slab)
    ensures WellFormed(r.0, slab)
    ensures r.1 == w.slots[w.current]
    ensures |r.0.slots| == |w.slots| && r.0.slots[w.current] == Null
    ensures forall s | 0 <= s < |w.slots| && s != w.current :: r.0.slots[s] == w.slots[s]
    ensures r.0.current == (w.current + 1) % |w.slots|
    ensures r.0.lastTick == (w.lastTick + TickMs) % U64
  {
    var n := |w.slots|;
    (Wheel(w.slots[w.current := Null], (w.current + 1) % n, (w.lastTick + TickMs) % U64),
     w.slots[w.current])
  }

  /** `timeToNextTickMillis()` with the clock reading `now` passed in: the
      elapsed time is an unsigned 64-bit difference. A clock behind the
      last tick by at most 2^64 - 1000 wraps to an elapsed time of at least
      1000 and yields 0; one behind by more, that is within 1000 of wrapping
      all the way round, yields the remaining part of the tick. */
  function TimeToNextTick(w: Wheel, now: nat): (r: nat)
    requires w.lastTick < U64 && now < U64
    ensures r <= TickMs
    ensures w.lastTick <= now && now - w.lastTick >= TickMs ==> r == 0
    ensures w.lastTick <= now && now - w.lastTick < TickMs ==> r == TickMs - (now - w.lastTick)
    ensures now < w.lastTick && w.lastTick - now <= U64 - TickMs ==> r == 0
    ensures now < w.lastTick && w.lastTick - now > U64 - TickMs ==> r == TickMs - (now + U64 - w.lastTick)
  {
    var elapsed := if now >= w.lastTick then now - w.lastTick else now + U64 - w.lastTick;
    if elapsed >= TickMs then 0 else TickMs - elapsed
  }

  // The ghost description of the lists.

  function HeadOf(q: seq<nat>): Link {
    if |q| == 0 then Null else Ref(q[0])
  }

  function RemoveAt(q: seq<nat>, i: nat): (r: seq<nat>)
    requires i < |q|
    ensures |r| == |q| - 1
    ensures forall j | 0 <= j < |r| :: r[j] == if j < i then q[j] else q[j + 1]
  {
    q[..i] + q[i + 1..]
  }

  /** Every slab index held by the groups, with multiplicity. */
  ghost function Bag(groups: seq<seq<nat>>): multiset<nat>
  {
    if |groups| == 0 then multiset{} else Bag(groups[..|groups| - 1]) + multiset(groups[|groups| - 1])
  }

  /** The groups hold every index below `n` exactly once, and nothing else. */
  ghost predicate Partition(groups: seq<seq<nat>>, n: nat) {
    forall y: nat :: Bag(groups)[y] == if y < n then 1 else 0
  }

  /** The `next` links follow the group and end in `Null`; the `prev` links
      point back inside the group. */
  ghost predicate Linked(slab: seq<TimerNode>, q: seq<nat>) {
    && (forall i | 0 <= i < |q| :: q[i] < |slab| && slab[q[i]].next == if i + 1 < |q| then Ref(q[i + 1]) else Null)
    && (forall i | 1 <= i < |q| :: slab[q[i]].prev == Ref(q[i - 1]))
  }

  /** The first node of the group has no `prev`. */
  ghost predicate HeadFree(slab: seq<TimerNode>, q: seq<nat>) {
    |q| > 0 && q[0] < |slab| ==> slab[q[0]].prev == Null
  }

  /** The wheel invariant with one exception allowed: the first node of group
      `loose` (a detached group, or none when `loose` is negative) may keep a
      stale `prev`. That is the state of the remaining chain while
      `processExpired` walks it. */
  ghost predicate Inv(w: Wheel, slab: seq<TimerNode>, groups: seq<seq<nat>>, loose: int) {
    && WellFormed(w, slab)
    && |groups| >= |w.slots|
    && (forall g, i | 0 <= g < |groups| && 0 <= i < |groups[g]| :: groups[g][i] < |slab|)
    && Partition(groups, |slab|)
    && (forall s | 0 <= s < |w.slots| :: w.slots[s] == HeadOf(groups[s]))
    && (forall s, i | 0 <= s < |w.slots| && 0 <= i < |groups[s]| :: slab[groups[s][i]].slotIndex == s)
    && (forall g | 0 <= g < |groups| :: Linked(slab, groups[g]))
    && (forall g | 0 <= g < |groups| && g != loose :: HeadFree(slab, groups[g]))
    && (loose < 0 || |w.slots| <= loose)
  }

  /** The wheel invariant: `groups` describes the slot lists and the detached
      chains of `slab` exactly. */
  ghost predicate Valid(w: Wheel, slab: seq<TimerNode>, groups: seq<seq<nat>>) {
    Inv(w, slab, groups, -1)
  }

  // Facts about Bag.

  lemma BagAppend(groups: seq<seq<nat>>, q: seq<nat>)
    ensures Bag(groups + [q]) == Bag(groups) + multiset(q)
  {
    assert (groups + [q])[..|groups|] == groups;
  }

  lemma {:induction false} BagUpdate(groups: seq<seq<nat>>, g: nat, q: seq<nat>)
    requires g < |groups|
    ensures Bag(groups[g := q]) + multiset(groups[g]) == Bag(groups) + multiset(q)
    decreases |groups|
  {
    var m := |groups| - 1;
    if g == m {
      assert groups[g := q][..m] == groups[..m];
    } else {
      var u := groups[g := q];
      assert u[..m] == groups[..m][g := q];
      assert u[m] == groups[m];
      assert Bag(u) == Bag(u[..m]) + multiset(u[m]);
      assert groups[..m][g] == groups[g];
      BagUpdate(groups[..m], g, q);
      assert Bag(groups) == Bag(groups[..m]) + multiset(groups[m]);
      calc {
        Bag(u) + multiset(groups[g]);
        Bag(groups[..m][g := q]) + multiset(groups[m]) + multiset(groups[..m][g]);
        Bag(groups[..m]) + multiset(q) + multiset(groups[m]);
        Bag(groups) + multiset(q);
      }
    }
  }

  lemma {:induction false} BagHas(groups: seq<seq<nat>>, g: nat)
    requires g < |groups|
    ensures multiset(groups[g]) <= Bag(groups)
    decreases |groups|
  {
    var m := |groups| - 1;
    if g < m {
      BagHas(groups[..m], g);
    }
  }

  lemma {:induction false} BagHasTwo(groups: seq<seq<nat>>, g1: nat, g2: nat)
    requires g1 < g2 < |groups|
    ensures multiset(groups[g1]) + multiset(groups[g2]) <= Bag(groups)
    decreases |groups|
  {
    var m := |groups| - 1;
    if g2 == m {
      BagHas(groups[..m], g1);
    } else {
      BagHasTwo(groups[..m], g1, g2);
    }
  }

  lemma {:induction false} BagMember(groups: seq<seq<nat>>, y: nat)
    requires Bag(groups)[y] > 0
    ensures exists g, i :: 0 <= g < |groups| && 0 <= i < |groups[g]| && groups[g][i] == y
    decreases |groups|
  {
    var m := |groups| - 1;
    if y in multiset(groups[m]) {
      var i :| 0 <= i < |groups[m]| && groups[m][i] == y;
    } else {
      BagMember(groups[..m], y);
      var g, i :| 0 <= g < m && 0 <= i < |groups[..m][g]| && groups[..m][g][i] == y;
      assert groups[g][i] == y;
    }
  }

  lemma TwoPositions(q: seq<nat>, i: nat, j: nat)
    requires i < j < |q| && q[i] == q[j]
    ensures multiset(q)[q[i]] >= 2
  {
    assert q == q[..i] + [q[i]] + q[i + 1..];
    assert q[j] in q[i + 1..];
  }

  /** In a partition no index occurs at two places. */
  lemma PartitionUnique(groups: seq<seq<nat>>, n: nat, g1: nat, i1: nat, g2: nat, i2: nat)
    requires Partition(groups, n)
    requires g1 < |groups| && i1 < |groups[g1]| && g2 < |groups| && i2 < |groups[g2]|
    requires groups[g1][i1] == groups[g2][i2]
    ensures g1 == g2 && i1 == i2
  {
    var y := groups[g1][i1];
    if g1 == g2 && i1 != i2 {
      if i1 < i2 { TwoPositions(groups[g1], i1, i2); } else { TwoPositions(groups[g1], i2, i1); }
      BagHas(groups, g1);
      assert false;
    } else if g1 < g2 {
      BagHasTwo(groups, g1, g2);
      assert false;
    } else if g2 < g1 {
      BagHasTwo(groups, g2, g1);
      assert false;
    }
  }

  /** Two places of one group hold different indices. */
  lemma Apart(groups: seq<seq<nat>>, n: nat, g: nat, i: nat, j: nat)
    requires Partition(groups, n) && g < |groups| && i < j < |groups[g]|
    ensures groups[g][i] != groups[g][j]
  {
    if groups[g][i] == groups[g][j] {
      PartitionUnique(groups, n, g, i, g, j);
    }
  }

  /** In a partition every index held is below `n`. */
  lemma PartitionInRange(groups: seq<seq<nat>>, n: nat, g: nat, i: nat)
    requires Partition(groups, n) && g < |groups| && i < |groups[g]|
    ensures groups[g][i] < n
  {
    BagHas(groups, g);
    assert groups[g][i] in multiset(groups[g]);
  }

  /** In a partition every index below `n` occurs somewhere. */
  lemma PartitionCovers(groups: seq<seq<nat>>, n: nat, y: nat)
    requires Partition(groups, n) && y < n
    ensures exists g, i :: 0 <= g < |groups| && 0 <= i < |groups[g]| && groups[g][i] == y
  {
    BagMember(groups, y);
  }

  // How the operations move indices between groups.

  /** The groups after `groups[g][i]` is taken out of its group and left
      alone as a detached singleton. */
  ghost function Detach(groups: seq<seq<nat>>, g: nat, i: nat): (r: seq<seq<nat>>)
    requires g < |groups| && i < |groups[g]|
    ensures |r| == |groups| + 1
  {
    groups[g := RemoveAt(groups[g], i)] + [[groups[g][i]]]
  }

  lemma RemoveAtBag(q: seq<nat>, i: nat)
    requires i < |q|
    ensures multiset(RemoveAt(q, i)) + multiset{q[i]} == multiset(q)
  {
    assert q == q[..i] + [q[i]] + q[i + 1..];
  }

  lemma DetachPartition(groups: seq<seq<nat>>, n: nat, g: nat, i: nat)
    requires Partition(groups, n) && g < |groups| && i < |groups[g]|
    ensures Partition(Detach(groups, g, i), n)
  {
    var q := RemoveAt(groups[g], i);
    BagUpdate(groups, g, q);
    BagAppend(groups[g := q], [groups[g][i]]);
    RemoveAtBag(groups[g], i);
    forall y: nat
      ensures Bag(Detach(groups, g, i))[y] == Bag(groups)[y]
    {
      var mq: multiset<nat> := multiset(q);
      var mg: multiset<nat> := multiset(groups[g]);
      var lhs := Bag(groups[g := q]) + mg;
      var rhs := Bag(groups) + mq;
      assert lhs == rhs;
      assert lhs[y] == rhs[y];
      assert Bag(groups[g := q])[y] + mg[y] == Bag(groups)[y] + mq[y];
    }
  }

  /** Under the invariant the links of `groups[g][i]` are its neighbours in
      the group, and it is the head its recorded slot shows exactly when it
      is the first node of a slot list. */
  lemma Neighbours(w: Wheel, slab: seq<TimerNode>, groups: seq<seq<nat>>, loose: int, g: nat, i: nat)
    requires Inv(w, slab, groups, loose)
    requires g < |groups| && i < |groups[g]| && g != loose
    ensures groups[g][i] < |slab|
    ensures slab[groups[g][i]].prev == if i > 0 then Ref(groups[g][i - 1]) else Null
    ensures slab[groups[g][i]].next == if i + 1 < |groups[g]| then Ref(groups[g][i + 1]) else Null
    ensures w.slots[slab[groups[g][i]].slotIndex] == Ref(groups[g][i]) <==> g < |w.slots| && i == 0
  {
    var x := groups[g][i];
    assert Linked(slab, groups[g]);
    assert HeadFree(slab, groups[g]);
    var k := slab[x].slotIndex;
    if w.slots[k] == Ref(x) {
      assert groups[k][0] == x;
      PartitionUnique(groups, |slab|, k, 0, g, i);
    }
    if g < |w.slots| && i == 0 {
      assert k == g;
    }
  }

  /** A node with no links that is not the head of its recorded slot is
      alone in a detached group: `unlink` leaves it where it is. */
  lemma FreeNodeIsDetached(w: Wheel, slab: seq<TimerNode>, groups: seq<seq<nat>>, loose: int, g: nat, i: nat)
    requires Inv(w, slab, groups, loose)
    requires g < |groups| && i < |groups[g]| && g != loose
    requires slab[groups[g][i]].prev == Null && slab[groups[g][i]].next == Null
    requires w.slots[slab[groups[g][i]].slotIndex] != Ref(groups[g][i])
    ensures |w.slots| <= g && groups[g] == [groups[g][i]]
  {
    Neighbours(w, slab, groups, loose, g, i);
  }

  /** A node of another group is none of `groups[g][i]` and its neighbours. */
  lemma OtherGroup(groups: seq<seq<nat>>, n: nat, g: nat, i: nat, h: nat, j: nat)
    requires Partition(groups, n)
    requires g < |groups| && i < |groups[g]| && h < |groups| && j < |groups[h]| && h != g
    ensures groups[h][j] != groups[g][i]
    ensures i > 0 ==> groups[h][j] != groups[g][i - 1]
    ensures i + 1 < |groups[g]| ==> groups[h][j] != groups[g][i + 1]
  {
    if groups[h][j] == groups[g][i] { PartitionUnique(groups, n, h, j, g, i); }
    if i > 0 && groups[h][j] == groups[g][i - 1] { PartitionUnique(groups, n, h, j, g, i - 1); }
    if i + 1 < |groups[g]| && groups[h][j] == groups[g][i + 1] { PartitionUnique(groups, n, h, j, g, i + 1); }
  }

  lemma LinkedAt(slab: seq<TimerNode>, q: seq<nat>, k: nat)
    requires Linked(slab, q) && k < |q|
    ensures q[k] < |slab|
    ensures slab[q[k]].next == if k + 1 < |q| then Ref(q[k + 1]) else Null
    ensures k >= 1 ==> slab[q[k]].prev == Ref(q[k - 1])
  {
  }

  /** Nodes whose links are unchanged keep a group linked. */
  lemma LinkedFrame(slab: seq<TimerNode>, slab': seq<TimerNode>, q: seq<nat>)
    requires |slab'| == |slab| && Linked(slab, q)
    requires forall j | 0 <= j < |q| :: slab'[q[j]].prev == slab[q[j]].prev && slab'[q[j]].next == slab[q[j]].next
    ensures Linked(slab', q)
    ensures HeadFree(slab, q) ==> HeadFree(slab', q)
  {
  }

  /** The linked case of `unlink`: the slab afterwards, node by node. */
  lemma UnlinkSlab(w: Wheel, slab: seq<TimerNode>, groups: seq<seq<nat>>, loose: int, g: nat, i: nat)
    requires Inv(w, slab, groups, loose)
    requires g < |groups| && i < |groups[g]| && g != loose
    requires var x := groups[g][i];
      !(slab[x].prev == Null && slab[x].next == Null && w.slots[slab[x].slotIndex] != Ref(x))
    ensures groups[g][i] < |slab|
    ensures var r := Unlink(w, slab, groups[g][i]); Spliced(w, slab, groups, g, i, r.0, r.1)
  {
    var q := groups[g];
    var x := q[i];
    Neighbours(w, slab, groups, loose, g, i);
    if i > 0 { Apart(groups, |slab|, g, i - 1, i); }
    if i + 1 < |q| { Apart(groups, |slab|, g, i, i + 1); }
    if i > 0 && i + 1 < |q| { Apart(groups, |slab|, g, i - 1, i + 1); }
  }

  /** The state after the linked case of `unlink` on `groups[g][i]`: the
      node loses its links, its neighbours are joined to each other, the
      slot head moves on when the node was the head, and nothing else
      changes. */
  ghost predicate Spliced(w: Wheel, slab: seq<TimerNode>, groups: seq<seq<nat>>, g: nat, i: nat,
                          w': Wheel, s': seq<TimerNode>)
    requires g < |groups| && i < |groups[g]| && groups[g][i] < |slab|
  {
    var q := groups[g];
    var x := q[i];
    && WellFormed(w', s') && |s'| == |slab|
    && w'.current == w.current && w'.lastTick == w.lastTick
    && w'.slots == (if g < |w.slots| && i == 0 then w.slots[g := slab[x].next] else w.slots)
    && forall y | 0 <= y < |slab| ::
         s'[y] == if y == x then slab[x].(prev := Null, next := Null)
                  else if i > 0 && y == q[i - 1] then slab[y].(next := slab[x].next)
                  else if i + 1 < |q| && y == q[i + 1] then slab[y].(prev := slab[x].prev)
                  else slab[y]
  }

  /** The linked case of `unlink` leaves every other group as it was. */
  lemma UnlinkOthers(w: Wheel, slab: seq<TimerNode>, groups: seq<seq<nat>>, loose: int, g: nat, i: nat,
                     r: (Wheel, seq<TimerNode>))
    requires Inv(w, slab, groups, loose)
    requires g < |groups| && i < |groups[g]| && g != loose && groups[g][i] < |slab|
    requires Spliced(w, slab, groups, g, i, r.0, r.1)
    ensures forall h | 0 <= h < |groups| && h != g ::
      Linked(r.1, groups[h]) && (h != loose ==> HeadFree(r.1, groups[h]))
  {
    forall h | 0 <= h < |groups| && h != g
      ensures Linked(r.1, groups[h]) && (h != loose ==> HeadFree(r.1, groups[h]))
    {
      forall j | 0 <= j < |groups[h]|
        ensures r.1[groups[h][j]] == slab[groups[h][j]]
      {
        OtherGroup(groups, |slab|, g, i, h, j);
      }
      assert Linked(slab, groups[h]);
      assert h != loose ==> HeadFree(slab, groups[h]);
      LinkedFrame(slab, r.1, groups[h]);
    }
  }

  /** The linked case of `unlink` leaves the rest of the node's own group
      linked, and the node on its own. */
  lemma UnlinkOwnGroup(w: Wheel, slab: seq<TimerNode>, groups: seq<seq<nat>>, loose: int, g: nat, i: nat,
                       r: (Wheel, seq<TimerNode>))
    requires Inv(w, slab, groups, loose)
    requires g < |groups| && i < |groups[g]| && g != loose && groups[g][i] < |slab|
    requires Spliced(w, slab, groups, g, i, r.0, r.1)
    ensures Linked(r.1, RemoveAt(groups[g], i)) && HeadFree(r.1, RemoveAt(groups[g], i))
  {
    var q' := RemoveAt(groups[g], i);
    forall j | 0 <= j < |q'|
      ensures q'[j] < |r.1|
      ensures r.1[q'[j]].next == if j + 1 < |q'| then Ref(q'[j + 1]) else Null
      ensures j >= 1 ==> r.1[q'[j]].prev == Ref(q'[j - 1])
      ensures j == 0 ==> r.1[q'[j]].prev == Null
    {
      if j < i {
        SplicedBefore(w, slab, groups, loose, g, i, r, j);
      } else {
        SplicedAfter(w, slab, groups, loose, g, i, r, j);
      }
    }
    assert Linked(r.1, q');
  }

  /** The links of a node in front of the spliced-out one. */
  lemma SplicedBefore(w: Wheel, slab: seq<TimerNode>, groups: seq<seq<nat>>, loose: int, g: nat, i: nat,
                      r: (Wheel, seq<TimerNode>), j: nat)
    requires Inv(w, slab, groups, loose)
    requires g < |groups| && i < |groups[g]| && g != loose && groups[g][i] < |slab|
    requires Spliced(w, slab, groups, g, i, r.0, r.1)
    requires j < i
    ensures var q' := RemoveAt(groups[g], i);
      && q'[j] < |r.1|
      && r.1[q'[j]].next == (if j + 1 < |q'| then Ref(q'[j + 1]) else Null)
      && (j >= 1 ==> r.1[q'[j]].prev == Ref(q'[j - 1]))
      && (j == 0 ==> r.1[q'[j]].prev == Null)
  {
    var q := groups[g];
    var x := q[i];
    var q' := RemoveAt(q, i);
    Neighbours(w, slab, groups, loose, g, i);
    assert Linked(slab, q);
    assert HeadFree(slab, q);
    var y := q[j];
    assert q'[j] == y;
    Apart(groups, |slab|, g, j, i);
    if j + 1 < i { Apart(groups, |slab|, g, j, i - 1); }
    if i + 1 < |q| { Apart(groups, |slab|, g, j, i + 1); }
    LinkedAt(slab, q, j);
    if j + 1 < i {
      assert q'[j + 1] == q[j + 1];
      assert r.1[y] == slab[y];
    } else {
      assert r.1[y] == slab[y].(next := slab[x].next);
      if j + 1 < |q'| { assert q'[j + 1] == q[i + 1]; }
    }
    if j >= 1 {
      assert q'[j - 1] == q[j - 1];
    }
  }

  /** The links of a node behind the spliced-out one. */
  lemma SplicedAfter(w: Wheel, slab: seq<TimerNode>, groups: seq<seq<nat>>, loose: int, g: nat, i: nat,
                     r: (Wheel, seq<TimerNode>), j: nat)
    requires Inv(w, slab, groups, loose)
    requires g < |groups| && i < |groups[g]| && g != loose && groups[g][i] < |slab|
    requires Spliced(w, slab, groups, g, i, r.0, r.1)
    requires i <= j < |groups[g]| - 1
    ensures var q' := RemoveAt(groups[g], i);
      && q'[j] < |r.1|
      && r.1[q'[j]].next == (if j + 1 < |q'| then Ref(q'[j + 1]) else Null)
      && (j >= 1 ==> r.1[q'[j]].prev == Ref(q'[j - 1]))
      && (j == 0 ==> r.1[q'[j]].prev == Null)
  {
    var q := groups[g];
    var x := q[i];
    var q' := RemoveAt(q, i);
    Neighbours(w, slab, groups, loose, g, i);
    assert Linked(slab, q);
    assert HeadFree(slab, q);
    var y := q[j + 1];
    assert q'[j] == y;
    Apart(groups, |slab|, g, i, j + 1);
    if i > 0 { Apart(groups, |slab|, g, i - 1, j + 1); }
    if j > i { Apart(groups, |slab|, g, i + 1, j + 1); }
    if j + 1 < |q'| { assert q'[j + 1] == q[j + 2]; }
    LinkedAt(slab, q, j + 1);
    if j > i {
      assert r.1[y] == slab[y];
      assert q'[j - 1] == q[j];
    } else {
      assert r.1[y] == slab[y].(prev := slab[x].prev);
      if j >= 1 { assert q'[j - 1] == q[i - 1]; }
    }
  }

  /** The linked case of `unlink` keeps the slot heads and slot indices in
      step with the groups. */
  lemma UnlinkSlots(w: Wheel, slab: seq<TimerNode>, groups: seq<seq<nat>>, loose: int, g: nat, i: nat,
                    r: (Wheel, seq<TimerNode>))
    requires Inv(w, slab, groups, loose)
    requires g < |groups| && i < |groups[g]| && g != loose && groups[g][i] < |slab|
    requires Spliced(w, slab, groups, g, i, r.0, r.1)
    ensures var d := Detach(groups, g, i);
      && (forall s | 0 <= s < |w.slots| :: r.0.slots[s] == HeadOf(d[s]))
      && (forall s, j | 0 <= s < |w.slots| && 0 <= j < |d[s]| :: r.1[d[s][j]].slotIndex == s)
  {
    var q := groups[g];
    var d := Detach(groups, g, i);
    Neighbours(w, slab, groups, loose, g, i);
    assert Linked(slab, q);
    SplicedIndices(w, slab, groups, g, i, r);
    forall s, j | 0 <= s < |w.slots| && 0 <= j < |d[s]|
      ensures r.1[d[s][j]].slotIndex == s
    {
      if s == g {
        var jj := if j < i then j else j + 1;
        assert d[s][j] == q[jj];
      } else {
        assert d[s][j] == groups[s][j];
      }
    }
  }

  /** Splicing a node out changes no node's recorded slot. */
  lemma SplicedIndices(w: Wheel, slab: seq<TimerNode>, groups: seq<seq<nat>>, g: nat, i: nat,
                       r: (Wheel, seq<TimerNode>))
    requires g < |groups| && i < |groups[g]| && groups[g][i] < |slab|
    requires Spliced(w, slab, groups, g, i, r.0, r.1)
    ensures forall y | 0 <= y < |slab| :: r.1[y].slotIndex == slab[y].slotIndex
  {
  }

  /** Assembles the invariant from its parts. */
  lemma InvIntro(w: Wheel, slab: seq<TimerNode>, groups: seq<seq<nat>>, loose: int)
    requires WellFormed(w, slab) && |groups| >= |w.slots|
    requires Partition(groups, |slab|)
    requires forall s | 0 <= s < |w.slots| :: w.slots[s] == HeadOf(groups[s])
    requires forall s, i | 0 <= s < |w.slots| && 0 <= i < |groups[s]| ::
      groups[s][i] < |slab| && slab[groups[s][i]].slotIndex == s
    requires forall g | 0 <= g < |groups| :: Linked(slab, groups[g])
    requires forall g | 0 <= g < |groups| && g != loose :: HeadFree(slab, groups[g])
    requires loose < 0 || |w.slots| <= loose
    ensures Inv(w, slab, groups, loose)
  {
    forall g, i | 0 <= g < |groups| && 0 <= i < |groups[g]|
      ensures groups[g][i] < |slab|
    {
      PartitionInRange(groups, |slab|, g, i);
    }
  }

  /** The early-return case of `unlink`. */
  lemma UnlinkFreeCase(w: Wheel, slab: seq<TimerNode>, groups: seq<seq<nat>>, loose: int, g: nat, i: nat)
    requires Inv(w, slab, groups, loose)
    requires g < |groups| && i < |groups[g]| && g != loose
    requires var x := groups[g][i];
      slab[x].prev == Null && slab[x].next == Null && w.slots[slab[x].slotIndex] != Ref(x)
    ensures Inv(w, slab, Detach(groups, g, i), loose)
  {
    var x := groups[g][i];
    var d := Detach(groups, g, i);
    DetachPartition(groups, |slab|, g, i);
    FreeNodeIsDetached(w, slab, groups, loose, g, i);
    assert d[g] == [] && d[|groups|] == [x];
    assert forall h | 0 <= h < |groups| && h != g :: d[h] == groups[h];
    assert Linked(slab, [x]);
    InvIntro(w, slab, d, loose);
  }

  /** The splicing case of `unlink`. */
  lemma UnlinkLinkedCase(w: Wheel, slab: seq<TimerNode>, groups: seq<seq<nat>>, loose: int, g: nat, i: nat,
                         r: (Wheel, seq<TimerNode>))
    requires Inv(w, slab, groups, loose)
    requires g < |groups| && i < |groups[g]| && g != loose && groups[g][i] < |slab|
    requires Spliced(w, slab, groups, g, i, r.0, r.1)
    ensures Inv(r.0, r.1, Detach(groups, g, i), loose)
  {
    var q := groups[g];
    var x := q[i];
    var d := Detach(groups, g, i);
    DetachPartition(groups, |slab|, g, i);
    UnlinkOthers(w, slab, groups, loose, g, i, r);
    UnlinkOwnGroup(w, slab, groups, loose, g, i, r);
    UnlinkSlots(w, slab, groups, loose, g, i, r);
    assert d[g] == RemoveAt(q, i) && d[|groups|] == [x];
    assert Linked(r.1, [x]) && HeadFree(r.1, [x]);
    forall h | 0 <= h < |d|
      ensures Linked(r.1, d[h]) && (h != loose ==> HeadFree(r.1, d[h]))
    {
      if h < |groups| && h != g {
        assert d[h] == groups[h];
      }
    }
    forall s, j | 0 <= s < |w.slots| && 0 <= j < |d[s]|
      ensures d[s][j] < |r.1|
    {
      PartitionInRange(d, |slab|, s, j);
    }
    InvIntro(r.0, r.1, d, loose);
  }

  /** `unlink` takes exactly `groups[g][i]` out of its list, keeps the order
      of the others, moves the slot head on when it was the head, clears the
      node's links, and touches no node but it and its two neighbours. */
  lemma UnlinkSpec(w: Wheel, slab: seq<TimerNode>, groups: seq<seq<nat>>, loose: int, g: nat, i: nat)
    requires Inv(w, slab, groups, loose)
    requires g < |groups| && i < |groups[g]| && g != loose
    ensures var x := groups[g][i]; var r := Unlink(w, slab, x);
      Inv(r.0, r.1, Detach(groups, g, i), loose)
    ensures var x := groups[g][i]; var r := Unlink(w, slab, x);
      r.1[x].prev == Null && r.1[x].next == Null && r.1[x].slotIndex == slab[x].slotIndex
    ensures var x := groups[g][i]; var r := Unlink(w, slab, x);
      forall y | 0 <= y < |slab| && y != x && Ref(y) != slab[x].prev && Ref(y) != slab[x].next ::
        r.1[y] == slab[y]
  {
    var x := groups[g][i];
    if slab[x].prev == Null && slab[x].next == Null && w.slots[slab[x].slotIndex] != Ref(x) {
      UnlinkFreeCase(w, slab, groups, loose, g, i);
    } else {
      Neighbours(w, slab, groups, loose, g, i);
      UnlinkSlab(w, slab, groups, loose, g, i);
      UnlinkLinkedCase(w, slab, groups, loose, g, i, Unlink(w, slab, x));
    }
  }

  /** The groups after the lone node of the last group is pushed on the
      front of slot list `t`; the last group is left empty. */
  ghost function Attach(groups: seq<seq<nat>>, t: nat): (r: seq<seq<nat>>)
    requires t + 1 < |groups| && |groups[|groups| - 1]| == 1
    ensures |r| == |groups|
  {
    var m := |groups| - 1;
    groups[t := [groups[m][0]] + groups[t]][m := []]
  }

  lemma AttachPartition(groups: seq<seq<nat>>, n: nat, t: nat)
    requires Partition(groups, n) && t + 1 < |groups| && |groups[|groups| - 1]| == 1
    ensures Partition(Attach(groups, t), n)
  {
    var m := |groups| - 1;
    var x := groups[m][0];
    var u := groups[t := [x] + groups[t]];
    BagUpdate(groups, t, [x] + groups[t]);
    BagUpdate(u, m, []);
    assert u[m] == [x];
    assert multiset([x] + groups[t]) == multiset{x} + multiset(groups[t]);
    forall y: nat
      ensures Bag(Attach(groups, t))[y] == Bag(groups)[y]
    {
      var l1 := Bag(u) + multiset(groups[t]);
      var r1 := Bag(groups) + multiset([x] + groups[t]);
      assert l1 == r1;
      assert l1[y] == r1[y];
      var l2 := Bag(Attach(groups, t)) + multiset(u[m]);
      var none: seq<nat> := [];
      var r2 := Bag(u) + multiset(none);
      assert l2 == r2;
      assert l2[y] == r2[y];
    }
  }

  /** The second half of `update`, on a node that `unlink` has just left
      alone in the last group: it becomes the head of slot list `t`. */
  lemma AttachSpec(w: Wheel, slab: seq<TimerNode>, groups: seq<seq<nat>>, loose: int)
    requires Inv(w, slab, groups, loose)
    requires |groups| > |w.slots| && |groups[|groups| - 1]| == 1
    requires loose != |groups| - 1
    ensures groups[|groups| - 1][0] < |slab|
    ensures var r := Push(w, slab, groups[|groups| - 1][0]);
      Inv(r.0, r.1, Attach(groups, TargetSlot(w.current, |w.slots|)), loose)
  {
    var m := |groups| - 1;
    var x := groups[m][0];
    var t := TargetSlot(w.current, |w.slots|);
    var head := w.slots[t];
    PartitionInRange(groups, |slab|, m, 0);
    assert head == HeadOf(groups[t]);
    if head.Ref? {
      assert groups[t][0] == head.index;
      if head.index == x { PartitionUnique(groups, |slab|, t, 0, m, 0); }
    }
    var r := Push(w, slab, x);
    PushNodes(w, slab, x);
    AttachInv(w, slab, groups, loose, r.0, r.1);
  }

  /** The nodes after `Push`, when the node is not already the head of the
      target slot: the node points at the old head, which points back. */
  ghost predicate Pushed(w: Wheel, slab: seq<TimerNode>, x: nat, w': Wheel, s': seq<TimerNode>)
    requires WellFormed(w, slab) && x < |slab|
  {
    var t := TargetSlot(w.current, |w.slots|);
    var head := w.slots[t];
    && w' == w.(slots := w.slots[t := Ref(x)])
    && |s'| == |slab|
    && forall y | 0 <= y < |slab| ::
         s'[y] == if y == x then slab[x].(slotIndex := t, next := head, prev := Null)
                  else if Ref(y) == head then slab[y].(prev := Ref(x))
                  else slab[y]
  }

  lemma PushNodes(w: Wheel, slab: seq<TimerNode>, x: nat)
    requires WellFormed(w, slab) && x < |slab|
    requires w.slots[TargetSlot(w.current, |w.slots|)] != Ref(x)
    ensures var r := Push(w, slab, x); Pushed(w, slab, x, r.0, r.1)
  {
  }

  /** The invariant after pushing the node alone in the last group onto the
      target slot list. */
  lemma AttachInv(w: Wheel, slab: seq<TimerNode>, groups: seq<seq<nat>>, loose: int, w': Wheel, s3: seq<TimerNode>)
    requires Inv(w, slab, groups, loose)
    requires |groups| > |w.slots| && |groups[|groups| - 1]| == 1
    requires loose != |groups| - 1
    requires groups[|groups| - 1][0] < |slab|
    requires WellFormed(w', s3) && Pushed(w, slab, groups[|groups| - 1][0], w', s3)
    ensures Inv(w', s3, Attach(groups, TargetSlot(w.current, |w.slots|)), loose)
  {
    var m := |groups| - 1;
    var x := groups[m][0];
    var n := |w.slots|;
    var t := TargetSlot(w.current, n);
    var a := Attach(groups, t);
    AttachPartition(groups, |slab|, t);
    AttachLinks(w, slab, groups, loose, w', s3);
    forall s, j | 0 <= s < n && 0 <= j < |a[s]|
      ensures a[s][j] < |s3| && s3[a[s][j]].slotIndex == s
    {
      PartitionInRange(a, |slab|, s, j);
      if s == t && j >= 1 {
        assert a[s][j] == groups[t][j - 1];
        if groups[t][j - 1] == x { PartitionUnique(groups, |slab|, t, j - 1, m, 0); }
      } else if s != t {
        assert a[s][j] == groups[s][j];
        if groups[s][j] == x { PartitionUnique(groups, |slab|, s, j, m, 0); }
      }
    }
    InvIntro(w', s3, a, loose);
  }

  /** The lists after the push are linked, and all but `loose` have a free
      head. */
  lemma AttachLinks(w: Wheel, slab: seq<TimerNode>, groups: seq<seq<nat>>, loose: int, w': Wheel, s3: seq<TimerNode>)
    requires Inv(w, slab, groups, loose)
    requires |groups| > |w.slots| && |groups[|groups| - 1]| == 1
    requires loose != |groups| - 1
    requires groups[|groups| - 1][0] < |slab|
    requires Pushed(w, slab, groups[|groups| - 1][0], w', s3)
    ensures var a := Attach(groups, TargetSlot(w.current, |w.slots|));
      forall h | 0 <= h < |a| :: Linked(s3, a[h]) && (h != loose ==> HeadFree(s3, a[h]))
  {
    var m := |groups| - 1;
    var x := groups[m][0];
    var t := TargetSlot(w.current, |w.slots|);
    var head := w.slots[t];
    var a := Attach(groups, t);
    assert head == HeadOf(groups[t]);
    // Nodes other than `x` and the old head keep their links.
    forall h, j | 0 <= h < |groups| && 0 <= j < |groups[h]| && h != m && !(h == t && j == 0)
      ensures s3[groups[h][j]] == slab[groups[h][j]]
    {
      PartitionInRange(groups, |slab|, h, j);
      if groups[h][j] == x { PartitionUnique(groups, |slab|, h, j, m, 0); }
      if head.Ref? && groups[h][j] == head.index { PartitionUnique(groups, |slab|, h, j, t, 0); }
    }
    forall h | 0 <= h < |a|
      ensures Linked(s3, a[h]) && (h != loose ==> HeadFree(s3, a[h]))
    {
      if h == m {
        assert a[h] == [];
      } else if h == t {
        var q := groups[t];
        assert a[h] == [x] + q;
        assert Linked(slab, q);
        forall j | 0 <= j < |q|
          ensures s3[q[j]].next == slab[q[j]].next
          ensures j >= 1 ==> s3[q[j]].prev == slab[q[j]].prev
        {
          if q[j] == x { PartitionUnique(groups, |slab|, t, j, m, 0); }
        }
        if |q| > 0 {
          if q[0] == x { PartitionUnique(groups, |slab|, t, 0, m, 0); }
          assert s3[q[0]].prev == Ref(x);
        }
        assert s3[x].next == HeadOf(q) && s3[x].prev == Null;
        PushLinked(slab, s3, q, x);
      } else {
        assert a[h] == groups[h];
        assert Linked(slab, groups[h]);
        assert h != loose ==> HeadFree(slab, groups[h]);
        LinkedFrame(slab, s3, groups[h]);
      }
    }
  }

  /** Pushing `x` on the front of a linked list `q` whose nodes keep their
      `next` links, and whose old first node now points back at `x`. */
  lemma PushLinked(slab: seq<TimerNode>, s3: seq<TimerNode>, q: seq<nat>, x: nat)
    requires Linked(slab, q) && x < |s3| && |s3| == |slab|
    requires s3[x].next == HeadOf(q) && s3[x].prev == Null
    requires |q| > 0 ==> s3[q[0]].prev == Ref(x)
    requires forall j | 0 <= j < |q| :: s3[q[j]].next == slab[q[j]].next
    requires forall j | 1 <= j < |q| :: s3[q[j]].prev == slab[q[j]].prev
    ensures Linked(s3, [x] + q)
    ensures HeadFree(s3, [x] + q)
  {
    var a := [x] + q;
    assert a[0] == x;
    forall j | 0 <= j < |a|
      ensures a[j] < |s3| && s3[a[j]].next == if j + 1 < |a| then Ref(a[j + 1]) else Null
      ensures j >= 1 ==> s3[a[j]].prev == Ref(a[j - 1])
    {
      if j >= 1 {
        assert a[j] == q[j - 1];
        LinkedAt(slab, q, j - 1);
        if j >= 2 { assert a[j - 1] == q[j - 2]; }
      }
    }
    assert Linked(s3, a);
  }

  /** The groups after `update` of `groups[g][i]` with the cursor at
      `current`. */
  ghost function UpdateGroups(groups: seq<seq<nat>>, g: nat, i: nat, t: nat): (r: seq<seq<nat>>)
    requires g < |groups| && i < |groups[g]| && t < |groups|
    ensures |r| == |groups| + 1
  {
    Attach(Detach(groups, g, i), t)
  }

  /** `update` of `groups[g][i]`: the node leaves its old place (whatever it
      was) and becomes the head of slot list `TargetSlot(current, n)`, with
      no `prev`; every other list keeps its order, and only the node, its
      old neighbours and the old head of the target slot are touched. */
  lemma UpdateSpec(w: Wheel, slab: seq<TimerNode>, groups: seq<seq<nat>>, loose: int, g: nat, i: nat)
    requires Inv(w, slab, groups, loose) && loose < |groups|
    requires g < |groups| && i < |groups[g]| && g != loose
    ensures var x := groups[g][i]; var t := TargetSlot(w.current, |w.slots|);
      var r := Update(w, slab, x); var u := UpdateGroups(groups, g, i, t);
      && Inv(r.0, r.1, u, loose)
      && u[t] == [x] + Detach(groups, g, i)[t]
      && (forall s | 0 <= s < |w.slots| && s != t :: u[s] == Detach(groups, g, i)[s])
      && r.1[x].prev == Null
    ensures var x := groups[g][i]; var t := TargetSlot(w.current, |w.slots|);
      var r := Update(w, slab, x);
      forall y | 0 <= y < |slab| && y != x && Ref(y) != slab[x].prev && Ref(y) != slab[x].next && Ref(y) != w.slots[t] ::
        r.1[y] == slab[y]
  {
    var x := groups[g][i];
    var n := |w.slots|;
    var t := TargetSlot(w.current, n);
    var d := Detach(groups, g, i);
    UnlinkSpec(w, slab, groups, loose, g, i);
    var (w1, s1) := Unlink(w, slab, x);
    assert d[|d| - 1] == [x];
    AttachSpec(w1, s1, d, loose);
    var r := Update(w, slab, x);
    var u := UpdateGroups(groups, g, i, t);
    assert r == Push(w1, s1, x) && u == Attach(d, t);
    assert Inv(r.0, r.1, u, loose);
    assert HeadFree(r.1, u[t]);
    if w1.slots[t] != w.slots[t] {
      // The node itself was the head of the target slot.
      Neighbours(w, slab, groups, loose, g, i);
    }
  }

  /** After `update` the node occurs exactly once in all the lists, as the
      head of the slot one turn behind the cursor. */
  lemma UpdatePlacesOnce(w: Wheel, slab: seq<TimerNode>, groups: seq<seq<nat>>, x: nat)
    requires Valid(w, slab, groups) && x < |slab|
    ensures exists u ::
      var t := TargetSlot(w.current, |w.slots|);
      && Valid(Update(w, slab, x).0, Update(w, slab, x).1, u)
      && |u| > t && |u[t]| > 0 && u[t][0] == x
      && forall h, j | 0 <= h < |u| && 0 <= j < |u[h]| && u[h][j] == x :: h == t && j == 0
  {
    PartitionCovers(groups, |slab|, x);
    var g, i :| 0 <= g < |groups| && 0 <= i < |groups[g]| && groups[g][i] == x;
    var t := TargetSlot(w.current, |w.slots|);
    UpdateSpec(w, slab, groups, -1, g, i);
    var u := UpdateGroups(groups, g, i, t);
    forall h, j | 0 <= h < |u| && 0 <= j < |u[h]| && u[h][j] == x
      ensures h == t && j == 0
    {
      PartitionUnique(u, |slab|, h, j, t, 0);
    }
  }

  /** The nodes reached from link `l` by following `next`, for at most `fuel`
      steps. */
  function Walk(slab: seq<TimerNode>, l: Link, fuel: nat): seq<nat>
    decreases fuel
  {
    if fuel == 0 || l.Null? || l.index >= |slab| then []
    else [l.index] + Walk(slab, slab[l.index].next, fuel - 1)
  }

  /** Following `next` from the head of a linked group visits exactly the
      group and then stops. */
  lemma {:induction false} WalkLinked(slab: seq<TimerNode>, q: seq<nat>, k: nat, fuel: nat)
    requires Linked(slab, q) && k <= |q| && fuel >= |q| - k
    ensures Walk(slab, HeadOf(q[k..]), fuel) == q[k..]
    decreases |q| - k
  {
    if k < |q| {
      LinkedAt(slab, q, k);
      WalkLinked(slab, q, k + 1, fuel - 1);
      assert slab[q[k]].next == HeadOf(q[k + 1..]);
      assert q[k..] == [q[k]] + q[k + 1..];
    }
  }

  /** Distinct indices below `n` number at most `n`. */
  lemma {:induction false} Pigeonhole(q: seq<nat>, n: nat)
    requires forall i, j | 0 <= i < j < |q| :: q[i] != q[j]
    requires forall i | 0 <= i < |q| :: q[i] < n
    ensures |q| <= n
    decreases |q|
  {
    if |q| > 0 {
      var e := q[|q| - 1];
      var p := q[..|q| - 1];
      // Close the gap left by `e` so that the rest fits below n - 1.
      var p' := seq(|p|, j requires 0 <= j < |p| => if p[j] > e then p[j] - 1 else p[j]);
      forall i, j | 0 <= i < j < |p'|
        ensures p'[i] != p'[j]
      {
        assert p[i] == q[i] && p[j] == q[j];
        assert q[i] != e && q[j] != e;
      }
      forall j | 0 <= j < |p'|
        ensures p'[j] < n - 1
      {
        assert p[j] == q[j] && q[j] != e;
      }
      Pigeonhole(p', n - 1);
    }
  }

  /** A group of a partition of `n` indices has at most `n` members. */
  lemma GroupFits(groups: seq<seq<nat>>, n: nat, g: nat)
    requires Partition(groups, n) && g < |groups|
    ensures |groups[g]| <= n
  {
    var q := groups[g];
    forall i, j | 0 <= i < j < |q|
      ensures q[i] != q[j]
    {
      Apart(groups, n, g, i, j);
    }
    forall i | 0 <= i < |q|
      ensures q[i] < n
    {
      PartitionInRange(groups, n, g, i);
    }
    Pigeonhole(q, n);
  }

  /** The groups after a tick at cursor `c`: the slot list becomes a detached
      chain. */
  ghost function TickGroups(groups: seq<seq<nat>>, c: nat): (r: seq<seq<nat>>)
    requires c < |groups|
    ensures |r| == |groups| + 1
  {
    groups[c := []] + [groups[c]]
  }

  lemma TickPartition(groups: seq<seq<nat>>, n: nat, c: nat)
    requires Partition(groups, n) && c < |groups|
    ensures Partition(TickGroups(groups, c), n)
  {
    var u := TickGroups(groups, c);
    BagUpdate(groups, c, []);
    BagAppend(groups[c := []], groups[c]);
    forall y: nat
      ensures Bag(u)[y] == Bag(groups)[y]
    {
      var none: seq<nat> := [];
      var l1 := Bag(groups[c := []]) + multiset(groups[c]);
      var r1 := Bag(groups) + multiset(none);
      assert l1 == r1;
      assert l1[y] == r1[y];
    }
  }

  /** `tick` keeps the invariant, with the old slot list now detached. */
  lemma TickValid(w: Wheel, slab: seq<TimerNode>, groups: seq<seq<nat>>)
    requires Valid(w, slab, groups)
    ensures Valid(Tick(w, slab).0, slab, TickGroups(groups, w.current))
  {
    var c := w.current;
    var u := TickGroups(groups, c);
    var w' := Tick(w, slab).0;
    TickPartition(groups, |slab|, c);
    assert forall h | 0 <= h < |groups| && h != c :: u[h] == groups[h];
    assert u[c] == [] && u[|groups|] == groups[c];
    forall h | 0 <= h < |u|
      ensures Linked(slab, u[h]) && HeadFree(slab, u[h])
    {
      if h < |groups| && h != c {
        assert Linked(slab, groups[h]) && HeadFree(slab, groups[h]);
      } else if h == |groups| {
        assert Linked(slab, groups[c]) && HeadFree(slab, groups[c]);
      }
    }
    forall s, j | 0 <= s < |w'.slots| && 0 <= j < |u[s]|
      ensures u[s][j] < |slab| && slab[u[s][j]].slotIndex == s
    {
      assert u[s][j] == groups[s][j];
    }
    InvIntro(w', slab, u, -1);
  }

  /** `tick` hands out exactly the list under the cursor: the nodes reached
      from the returned head are that list, in order, and it is emptied while
      the other lists stay as they were. */
  lemma TickSpec(w: Wheel, slab: seq<TimerNode>, groups: seq<seq<nat>>)
    requires Valid(w, slab, groups)
    ensures Valid(Tick(w, slab).0, slab, TickGroups(groups, w.current))
    ensures Walk(slab, Tick(w, slab).1, |slab|) == groups[w.current]
  {
    var c := w.current;
    TickValid(w, slab, groups);
    GroupFits(groups, |slab|, c);
    assert Linked(slab, groups[c]);
    WalkLinked(slab, groups[c], 0, |slab|);
    assert groups[c][0..] == groups[c];
  }

  /** `k` empty groups. */
  function Empties(k: nat): (r: seq<seq<nat>>)
    ensures |r| == k && forall h | 0 <= h < k :: r[h] == []
  {
    if k == 0 then [] else Empties(k - 1) + [[]]
  }

  /** The singleton groups [0], ..., [k - 1]. */
  function Singles(k: nat): (r: seq<seq<nat>>)
    ensures |r| == k && forall h | 0 <= h < k :: r[h] == [h]
  {
    if k == 0 then [] else Singles(k - 1) + [[k - 1]]
  }

  lemma {:induction false} BagConcat(a: seq<seq<nat>>, b: seq<seq<nat>>)
    ensures Bag(a + b) == Bag(a) + Bag(b)
    decreases |b|
  {
    if |b| > 0 {
      var m := |b| - 1;
      assert (a + b)[..|a + b| - 1] == a + b[..m];
      assert (a + b)[|a + b| - 1] == b[m];
      BagConcat(a, b[..m]);
    } else {
      assert a + b == a;
    }
  }

  lemma {:induction false} EmptiesBag(k: nat)
    ensures Bag(Empties(k)) == multiset{}
    decreases k
  {
    if k > 0 {
      assert Empties(k)[..k - 1] == Empties(k - 1);
      EmptiesBag(k - 1);
    }
  }

  /** The singletons [0], ..., [k - 1] partition the indices below k. */
  lemma {:induction false} SinglesBag(k: nat)
    ensures forall y: nat :: Bag(Singles(k))[y] == if y < k then 1 else 0
    decreases k
  {
    if k > 0 {
      assert Singles(k)[..k - 1] == Singles(k - 1);
      SinglesBag(k - 1);
      assert Bag(Singles(k)) == Bag(Singles(k - 1)) + multiset{k - 1};
    }
  }

  /** The groups of a fresh wheel: no node in any slot list, each node alone. */
  lemma FreshGroups(size: nat, slab: seq<TimerNode>)
    requires forall y | 0 <= y < |slab| :: slab[y] == FreshNode
    ensures var u := Empties(size) + Singles(|slab|);
      && |u| == size + |slab|
      && (forall h | 0 <= h < size :: u[h] == [])
      && (forall h | 0 <= h < |u| :: Linked(slab, u[h]) && HeadFree(slab, u[h]))
  {
    var e := Empties(size);
    var f := Singles(|slab|);
    var u := e + f;
    forall h | 0 <= h < |u|
      ensures Linked(slab, u[h]) && HeadFree(slab, u[h])
    {
      if h >= size {
        assert u[h] == f[h - size];
      } else {
        assert u[h] == e[h];
      }
    }
  }

  lemma FreshPartition(size: nat, slab: seq<TimerNode>)
    ensures Partition(Empties(size) + Singles(|slab|), |slab|)
  {
    var u := Empties(size) + Singles(|slab|);
    SinglesBag(|slab|);
    EmptiesBag(size);
    BagConcat(Empties(size), Singles(|slab|));
    assert Bag(u) == Bag(Singles(|slab|));
  }

  /** A fresh wheel over a slab of default-constructed nodes is valid: every
      slot list is empty and every node is alone. */
  lemma NewWheelValid(size: nat, now: nat, slab: seq<TimerNode>)
    requires 1 <= size < U32 && now < U64
    requires forall y | 0 <= y < |slab| :: slab[y] == FreshNode
    ensures var w := NewWheel(size, now); var u := Empties(size) + Singles(|slab|);
      Valid(w, slab, u)
  {
    var w := NewWheel(size, now);
    var u := Empties(size) + Singles(|slab|);
    FreshPartition(size, slab);
    FreshGroups(size, slab);
    FreshSlots(w, u);
    InvIntro(w, slab, u, -1);
  }

  /** Empty slots head empty lists. */
  lemma FreshSlots(w: Wheel, u: seq<seq<nat>>)
    requires |w.slots| <= |u|
    requires forall s | 0 <= s < |w.slots| :: w.slots[s] == Null && u[s] == []
    ensures forall s | 0 <= s < |w.slots| :: w.slots[s] == HeadOf(u[s])
  {
  }

  /** `k` successive ticks, with the heads they hand out. */
  function Ticks(w: Wheel, slab: seq<TimerNode>, k: nat): (r: (Wheel, seq<Link>))
    requires WellFormed(w, slab)
    ensures WellFormed(r.0, slab) && |r.1| == k && |r.0.slots| == |w.slots|
    ensures r.0.current == (w.current + k) % |w.slots|
    decreases k
  {
    if k == 0 then
      ModUnique(w.current, |w.slots|, 0, w.current);
      (w, [])
    else
      var (w1, e) := Tick(w, slab);
      var (w2, es) := Ticks(w1, slab, k - 1);
      AddMod(w.current + 1, k - 1, |w.slots|);
      assert w.current + 1 + (k - 1) == w.current + k;
      (w2, [e] + es)
  }

  /** `((a % n) + b) % n == (a + b) % n`. */
  lemma AddMod(a: nat, b: nat, n: nat)
    requires n > 0
    ensures (a % n + b) % n == (a + b) % n
  {
    var q := a / n;
    var r := a % n;
    var q2 := (r + b) / n;
    var r2 := (r + b) % n;
    assert a + b == (q + q2) * n + r2;
    ModUnique(a + b, n, q + q2, r2);
  }

  /** Within one turn, `k` successive ticks hand out the slot heads as they
      stand now, one slot after the other starting at the cursor: a slot is
      only emptied by its own tick. */
  lemma {:induction false} TicksHeads(w: Wheel, slab: seq<TimerNode>, k: nat)
    requires WellFormed(w, slab) && k <= |w.slots|
    ensures forall j | 0 <= j < k :: Ticks(w, slab, k).1[j] == w.slots[(w.current + j) % |w.slots|]
    decreases k
  {
    if k > 0 {
      var n := |w.slots|;
      var c := w.current;
      var w1 := Tick(w, slab).0;
      TicksHeads(w1, slab, k - 1);
      var es := Ticks(w, slab, k).1;
      var rest := Ticks(w1, slab, k - 1).1;
      assert es == [Tick(w, slab).1] + rest;
      forall j | 0 <= j < k
        ensures es[j] == w.slots[(c + j) % n]
      {
        if j == 0 {
          ModUnique(c, n, 0, c);
        } else {
          assert es[j] == rest[j - 1];
          TickShift(w, slab, j);
        }
      }
    }
  }

  /** The slot `j - 1` places after the cursor once the wheel has ticked is
      the slot `j` places after it now, and the tick has not emptied it. */
  lemma TickShift(w: Wheel, slab: seq<TimerNode>, j: nat)
    requires WellFormed(w, slab) && 0 < j < |w.slots|
    ensures var w1 := Tick(w, slab).0;
      w1.slots[(w1.current + (j - 1)) % |w1.slots|] == w.slots[(w.current + j) % |w.slots|]
  {
    ShiftMod(w.current, j, |w.slots|);
  }

  /** Cursor arithmetic behind `TickShift`. */
  lemma ShiftMod(c: nat, j: nat, n: nat)
    requires c < n && 0 < j < n
    ensures ((c + 1) % n + (j - 1)) % n == (c + j) % n
    ensures (c + j) % n != c
  {
    if c + 1 < n {
      ModUnique(c + 1, n, 0, c + 1);
    } else {
      ModUnique(c + 1, n, 1, 0);
      ModUnique(j - 1, n, 0, j - 1);
      ModUnique(c + j, n, 1, j - 1);
    }
    CursorMoves(c, j, n);
  }

  /** Following `next` from a slot head of a valid wheel visits exactly that
      slot's list. */
  lemma SlotWalk(w: Wheel, slab: seq<TimerNode>, groups: seq<seq<nat>>, s: nat)
    requires Valid(w, slab, groups) && s < |w.slots|
    ensures Walk(slab, w.slots[s], |slab|) == groups[s]
  {
    GroupFits(groups, |slab|, s);
    assert Linked(slab, groups[s]);
    WalkLinked(slab, groups[s], 0, |slab|);
    assert groups[s][0..] == groups[s];
  }

  /** Within one turn the ticks after the first never come back to the
      starting slot. */
  lemma CursorMoves(c: nat, j: nat, n: nat)
    requires c < n && 0 < j < n
    ensures (c + j) % n != c
  {
    if c + j < n {
      ModUnique(c + j, n, 0, c + j);
    } else {
      ModUnique(c + j, n, 1, c + j - n);
    }
  }

  /** A node `update`d with the cursor at `c` (and no `u32` overflow in the
      slot arithmetic) is handed out by the n-th following tick and by none
      of the ticks before it. */
  lemma UpdateThenTicks(w: Wheel, slab: seq<TimerNode>, groups: seq<seq<nat>>, x: nat, j: nat)
    requires Valid(w, slab, groups) && x < |slab| && j < |w.slots|
    requires w.current + |w.slots| - 1 < U32
    ensures var r := Update(w, slab, x);
      var es := Ticks(r.0, r.1, |w.slots|).1;
      x in Walk(r.1, es[j], |slab|) <==> j == |w.slots| - 1
  {
    UpdatePlacesOnce(w, slab, groups, x);
    var r := Update(w, slab, x);
    var t := TargetSlot(w.current, |w.slots|);
    var u :| && Valid(r.0, r.1, u) && |u| > t && |u[t]| > 0 && u[t][0] == x;
    TicksFromSlot(r.0, r.1, u, j, x);
  }

  /** If `x` heads the slot one turn behind the cursor, only the last of the
      next `n` ticks hands it out. */
  lemma TicksFromSlot(w: Wheel, slab: seq<TimerNode>, u: seq<seq<nat>>, j: nat, x: nat)
    requires Valid(w, slab, u) && j < |w.slots| && w.current + |w.slots| - 1 < U32
    requires var t := TargetSlot(w.current, |w.slots|); |u[t]| > 0 && u[t][0] == x
    ensures x in Walk(slab, Ticks(w, slab, |w.slots|).1[j], |slab|) <==> j == |w.slots| - 1
  {
    var n := |w.slots|;
    var c := w.current;
    var s := (c + j) % n;
    var es := Ticks(w, slab, n).1;
    TicksHeads(w, slab, n);
    assert es[j] == w.slots[s];
    SlotWalk(w, slab, u, s);
    assert Walk(slab, es[j], |slab|) == u[s];
    assert TargetSlot(c, n) == (c + n - 1) % n;
    OnlyLastTick(u, |slab|, c, j, n, x);
  }

  /** Membership of the updated node in the list of slot `(c + j) % n`. */
  lemma OnlyLastTick(u: seq<seq<nat>>, size: nat, c: nat, j: nat, n: nat, x: nat)
    requires Partition(u, size) && c < n <= |u| && j < n && c + n - 1 < U32
    requires |u[(c + n - 1) % n]| > 0 && u[(c + n - 1) % n][0] == x
    ensures x in u[(c + j) % n] <==> j == n - 1
  {
    var s := (c + j) % n;
    var t := (c + n - 1) % n;
    if j < n - 1 {
      SlotBeforeCursor(c, j, n);
      if x in u[s] {
        var jj :| 0 <= jj < |u[s]| && u[s][jj] == x;
        PartitionUnique(u, size, s, jj, t, 0);
      }
    }
  }

  /** Of the slots `(c + j) % n`, `j < n`, only `j = n - 1` is the slot one turn
      behind the cursor. */
  lemma SlotBeforeCursor(c: nat, j: nat, n: nat)
    requires c < n && j < n - 1
    ensures (c + j) % n != (c + n - 1) % n
  {
    if c + j < n {
      ModUnique(c + j, n, 0, c + j);
    } else {
      ModUnique(c + j, n, 1, c + j - n);
    }
    if c == 0 {
      ModUnique(c + n - 1, n, 0, n - 1);
    } else {
      ModUnique(c + n - 1, n, 1, c - 1);
    }
  }

  // processExpired

  /** One round of the `processExpired` loop on node `x`: the node's links
      are cleared, then the callback runs; `rearm` says whether it calls
      `update` on the node (the other thing it can do is leave it alone). */
  function Handle(w: Wheel, slab: seq<TimerNode>, x: nat, rearm: bool): (r: (Wheel, seq<TimerNode>))
    requires WellFormed(w, slab) && x < |slab|
    ensures WellFormed(r.0, r.1) && |r.1| == |slab|
    ensures r.0.current == w.current && r.0.lastTick == w.lastTick && |r.0.slots| == |w.slots|
    ensures !rearm ==> r.0 == w && r.1[x].prev == Null && r.1[x].next == Null
    ensures forall y | 0 <= y < |slab| && y != x && Ref(y) != w.slots[Target(w)] :: r.1[y] == slab[y]
  {
    var cleared := slab[x := slab[x].(prev := Null, next := Null)];
    if rearm then Update(w, cleared, x) else (w, cleared)
  }

  /** The nodes of `q` that the callback re-armed, latest first: each one was
      pushed on the front of the same slot list. */
  function Rearmed(q: seq<nat>, keep: nat -> bool): (r: seq<nat>)
    ensures |r| <= |q|
    ensures forall i | 0 <= i < |r| :: keep(r[i]) && r[i] in q
  {
    if |q| == 0 then []
    else
      var front := Rearmed(q[..|q| - 1], keep);
      assert forall y | y in q[..|q| - 1] :: y in q;
      if keep(q[|q| - 1]) then [q[|q| - 1]] + front else front
  }

  /** Clearing the links of the first node of the chain being walked moves
      it into a detached group of its own; the rest of the chain now has a
      stale `prev` on its first node. */
  lemma ClearSpec(w: Wheel, slab: seq<TimerNode>, groups: seq<seq<nat>>, loose: nat)
    requires Inv(w, slab, groups, loose) && loose < |groups| && |groups[loose]| > 0
    ensures var x := groups[loose][0];
      && x < |slab|
      && slab[x].next == HeadOf(groups[loose][1..])
      && Inv(w, slab[x := slab[x].(prev := Null, next := Null)], Detach(groups, loose, 0), loose)
  {
    var q := groups[loose];
    var x := q[0];
    var s' := slab[x := slab[x].(prev := Null, next := Null)];
    var d := Detach(groups, loose, 0);
    DetachPartition(groups, |slab|, loose, 0);
    assert Linked(slab, q);
    LinkedAt(slab, q, 0);
    assert RemoveAt(q, 0) == q[1..];
    ClearLinks(w, slab, groups, loose);
    forall s | 0 <= s < |w.slots|
      ensures d[s] == groups[s]
    {
    }
    InvIntro(w, s', d, loose);
  }

  /** After the first node of chain `loose` loses its links, every group of
      `Detach(groups, loose, 0)` is linked, and all but `loose` have a free
      head. */
  lemma ClearLinks(w: Wheel, slab: seq<TimerNode>, groups: seq<seq<nat>>, loose: nat)
    requires Inv(w, slab, groups, loose) && loose < |groups| && |groups[loose]| > 0
    ensures var x := groups[loose][0]; var s' := slab[x := slab[x].(prev := Null, next := Null)];
      var d := Detach(groups, loose, 0);
      forall h | 0 <= h < |d| :: Linked(s', d[h]) && (h != loose ==> HeadFree(s', d[h]))
  {
    var q := groups[loose];
    var x := q[0];
    var s' := slab[x := slab[x].(prev := Null, next := Null)];
    var d := Detach(groups, loose, 0);
    assert d[loose] == RemoveAt(q, 0) == q[1..];
    forall h | 0 <= h < |d|
      ensures Linked(s', d[h]) && (h != loose ==> HeadFree(s', d[h]))
    {
      if h < |groups| && h != loose {
        forall j | 0 <= j < |groups[h]|
          ensures groups[h][j] != x
        {
          OtherGroup(groups, |slab|, loose, 0, h, j);
        }
        assert Linked(slab, groups[h]) && HeadFree(slab, groups[h]);
        LinkedFrame(slab, s', groups[h]);
      } else if h == loose {
        forall j | 1 <= j < |q|
          ensures q[j] != x
        {
          Apart(groups, |slab|, loose, 0, j);
        }
        assert Linked(slab, q);
        RestLinked(slab, q, s');
      } else {
        assert d[h] == [x];
      }
    }
  }

  /** A linked group without its first node is still linked, also after
      that first node alone changes. */
  lemma RestLinked(slab: seq<TimerNode>, q: seq<nat>, slab': seq<TimerNode>)
    requires Linked(slab, q) && |q| > 0 && |slab'| == |slab|
    requires forall j | 1 <= j < |q| :: q[j] != q[0]
    requires forall y | 0 <= y < |slab| && y != q[0] :: slab'[y] == slab[y]
    ensures Linked(slab', q[1..])
  {
    var rest := q[1..];
    forall j | 0 <= j < |rest|
      ensures rest[j] < |slab| && slab[rest[j]].next == if j + 1 < |rest| then Ref(rest[j + 1]) else Null
      ensures j >= 1 ==> slab[rest[j]].prev == Ref(rest[j - 1])
      ensures slab'[rest[j]] == slab[rest[j]]
    {
      LinkedAt(slab, q, j + 1);
      assert rest[j] == q[j + 1];
    }
    assert Linked(slab, rest);
    LinkedFrame(slab, slab', rest);
  }

  /** The slot that `update` files into, for the wheel's present cursor. */
  function Target(w: Wheel): (t: nat)
    requires 0 < |w.slots| < U32
    ensures t < |w.slots|
  {
    TargetSlot(w.current, |w.slots|)
  }

  /** The groups after one round of the loop: the first node of chain
      `loose` is detached, then re-armed into slot `t` when `rearm`. */
  ghost function StepGroups(groups: seq<seq<nat>>, loose: nat, t: nat, rearm: bool): (r: seq<seq<nat>>)
    requires loose < |groups| && |groups[loose]| > 0 && t < |groups|
  {
    var d := Detach(groups, loose, 0);
    if rearm then UpdateGroups(d, |d| - 1, 0, t) else d
  }

  /** The state of `processExpired` after the callback has seen the first
      `k` nodes of `chain`, the list the tick handed out: `groups` holds
      the remaining chain as group `loose`; the target slot holds the
      re-armed nodes in front of what it held right after the tick
      (`ticked`); every other slot is as the tick left it; and the nodes
      that were not re-armed have no links. */
  ghost predicate Expiring(w: Wheel, slab: seq<TimerNode>, groups: seq<seq<nat>>, loose: nat,
                           ticked: seq<seq<nat>>, chain: seq<nat>, k: nat, keep: nat -> bool)
  {
    Inv(w, slab, groups, loose) && Walked(w, slab, groups, loose, ticked, chain, k, keep)
  }

  /** The part of `Expiring` beyond the wheel invariant. */
  ghost predicate Walked(w: Wheel, slab: seq<TimerNode>, groups: seq<seq<nat>>, loose: nat,
                         ticked: seq<seq<nat>>, chain: seq<nat>, k: nat, keep: nat -> bool)
  {
    && WellFormed(w, slab) && |w.slots| <= loose < |groups| && loose < |ticked|
    && k <= |chain| && groups[loose] == chain[k..]
    && (forall i | 0 <= i < |chain| :: chain[i] < |slab|)
    && (forall s | 0 <= s < |w.slots| ::
          groups[s] == if s == Target(w) then Rearmed(chain[..k], keep) + ticked[s] else ticked[s])
    && (forall i, j | 0 <= i < |chain| && 0 <= j < |ticked[Target(w)]| :: chain[i] != ticked[Target(w)][j])
    && (forall i | 0 <= i < k && !keep(chain[i]) :: slab[chain[i]].prev == Null && slab[chain[i]].next == Null)
  }

  /** Right after the tick nothing has been handed to the callback yet. */
  lemma ExpiringStart(w: Wheel, slab: seq<TimerNode>, groups: seq<seq<nat>>, keep: nat -> bool)
    requires Valid(w, slab, groups)
    ensures WellFormed(Tick(w, slab).0, slab) && Tick(w, slab).1 == HeadOf(groups[w.current])
    ensures exists u :: Expiring(Tick(w, slab).0, slab, u, |groups|, TickGroups(groups, w.current), groups[w.current], 0, keep)
  {
    var c := w.current;
    var w1 := Tick(w, slab).0;
    var u := TickGroups(groups, c);
    var t := Target(w1);
    TickValid(w, slab, groups);
    assert u[|groups|] == groups[c] && groups[c][0..] == groups[c];
    forall i: nat, j: nat | i < |groups[c]| && j < |u[t]|
      ensures groups[c][i] != u[t][j]
    {
      assert t != c && u[t] == groups[t];
      OtherGroup(groups, |slab|, c, i, t, j);
    }
    assert Rearmed(groups[c][..0], keep) == [];
    assert Expiring(w1, slab, u, |groups|, u, groups[c], 0, keep);
  }

  /** Once the whole chain has been handed out the wheel is valid again. */
  lemma ExpiringDone(w: Wheel, slab: seq<TimerNode>, groups: seq<seq<nat>>, loose: nat,
                     ticked: seq<seq<nat>>, chain: seq<nat>, keep: nat -> bool)
    requires Expiring(w, slab, groups, loose, ticked, chain, |chain|, keep)
    ensures Valid(w, slab, groups)
    ensures forall s | 0 <= s < |w.slots| ::
      groups[s] == if s == Target(w) then Rearmed(chain, keep) + ticked[s] else ticked[s]
  {
    assert chain[..|chain|] == chain;
    assert groups[loose] == [];
    forall g | 0 <= g < |groups|
      ensures HeadFree(slab, groups[g])
    {
      if g != loose {
        assert Inv(w, slab, groups, loose);
      }
    }
  }

  /** One round that leaves the node alone. */
  lemma ExpiringDrop(w: Wheel, slab: seq<TimerNode>, groups: seq<seq<nat>>, loose: nat,
                     ticked: seq<seq<nat>>, chain: seq<nat>, k: nat, keep: nat -> bool)
    requires Expiring(w, slab, groups, loose, ticked, chain, k, keep) && k < |chain|
    requires !keep(chain[k])
    ensures chain[k] < |slab|
    ensures var r := Handle(w, slab, chain[k], false);
      Expiring(r.0, r.1, StepGroups(groups, loose, Target(w), false), loose, ticked, chain, k + 1, keep)
  {
    var x := chain[k];
    assert groups[loose][0] == x;
    ClearSpec(w, slab, groups, loose);
    DropWalked(w, slab, groups, loose, ticked, chain, k, keep);
    assert Handle(w, slab, x, false) == (w, slab[x := slab[x].(prev := Null, next := Null)]);
    assert Detach(groups, loose, 0) == StepGroups(groups, loose, Target(w), false);
  }

  /** The `Walked` half of `ExpiringDrop`. */
  lemma DropWalked(w: Wheel, slab: seq<TimerNode>, groups: seq<seq<nat>>, loose: nat,
                   ticked: seq<seq<nat>>, chain: seq<nat>, k: nat, keep: nat -> bool)
    requires Walked(w, slab, groups, loose, ticked, chain, k, keep) && k < |chain|
    requires !keep(chain[k])
    ensures chain[k] < |slab|
    ensures Walked(w, slab[chain[k] := slab[chain[k]].(prev := Null, next := Null)], Detach(groups, loose, 0),
                   loose, ticked, chain, k + 1, keep)
  {
    var x := chain[k];
    assert groups[loose][0] == x;
    var d := Detach(groups, loose, 0);
    assert d[loose] == RemoveAt(chain[k..], 0) == chain[k + 1..];
    var q := chain[..k + 1];
    assert q[..|q| - 1] == chain[..k] && q[|q| - 1] == x;
    assert Rearmed(q, keep) == Rearmed(chain[..k], keep);
    forall s | 0 <= s < |w.slots|
      ensures d[s] == groups[s]
    {
    }
  }

  /** The groups after a round that re-arms the first node of chain
      `loose` into slot `t`. */
  lemma KeepGroups(groups: seq<seq<nat>>, loose: nat, t: nat, n: nat)
    requires t < n <= loose < |groups| && |groups[loose]| > 0
    ensures |StepGroups(groups, loose, t, true)| == |groups| + 2
    ensures StepGroups(groups, loose, t, true)[loose] == groups[loose][1..]
    ensures StepGroups(groups, loose, t, true)[t] == [groups[loose][0]] + groups[t]
    ensures forall s | 0 <= s < n && s != t :: StepGroups(groups, loose, t, true)[s] == groups[s]
  {
    var x := groups[loose][0];
    var d := Detach(groups, loose, 0);
    assert d[loose] == RemoveAt(groups[loose], 0) == groups[loose][1..];
    assert d[|d| - 1] == [x];
    var e := Detach(d, |d| - 1, 0);
    assert e[|e| - 1] == [x];
    assert forall s | 0 <= s < |d| - 1 :: e[s] == d[s];
    var u := Attach(e, t);
    assert u == StepGroups(groups, loose, t, true);
    assert u[t] == [x] + e[t];
  }

  /** A round that re-arms the node keeps the invariant and touches no node
      but it and the old head of the target slot. */
  lemma KeepInv(w: Wheel, slab: seq<TimerNode>, groups: seq<seq<nat>>, loose: nat)
    requires Inv(w, slab, groups, loose) && |w.slots| <= loose < |groups| && |groups[loose]| > 0
    ensures var x := groups[loose][0]; var r := Handle(w, slab, x, true);
      var u := StepGroups(groups, loose, Target(w), true);
      Inv(r.0, r.1, u, loose)
  {
    var x := groups[loose][0];
    ClearSpec(w, slab, groups, loose);
    var s1 := slab[x := slab[x].(prev := Null, next := Null)];
    var d := Detach(groups, loose, 0);
    assert d[|d| - 1] == [x];
    RearmInv(w, s1, d, loose);
    var r := Update(w, s1, x);
    var u := UpdateGroups(d, |d| - 1, 0, Target(w));
    assert Inv(r.0, r.1, u, loose);
    assert Handle(w, slab, x, true) == r;
    assert StepGroups(groups, loose, Target(w), true) == u;
  }

  /** The `update` of a node alone in the last group, in the middle of the
      walk over chain `loose`. */
  lemma RearmInv(w: Wheel, slab: seq<TimerNode>, groups: seq<seq<nat>>, loose: nat)
    requires Inv(w, slab, groups, loose) && |w.slots| <= loose < |groups| - 1
    requires |groups[|groups| - 1]| == 1
    ensures var x := groups[|groups| - 1][0]; var r := Update(w, slab, x);
      && x < |slab|
      && Inv(r.0, r.1, UpdateGroups(groups, |groups| - 1, 0, Target(w)), loose)
      && forall y | 0 <= y < |slab| && y != x && Ref(y) != w.slots[Target(w)] && Ref(y) != slab[x].prev && Ref(y) != slab[x].next ::
           r.1[y] == slab[y]
  {
    UpdateSpec(w, slab, groups, loose, |groups| - 1, 0);
  }

  /** The nodes handed out earlier and not re-armed are neither the node now
      re-armed nor the head of the slot it goes to. */
  lemma KeepFrame(w: Wheel, slab: seq<TimerNode>, groups: seq<seq<nat>>, loose: nat,
                  ticked: seq<seq<nat>>, chain: seq<nat>, k: nat, keep: nat -> bool)
    requires Walked(w, slab, groups, loose, ticked, chain, k, keep) && k < |chain|
    requires w.slots[Target(w)] == HeadOf(groups[Target(w)])
    requires keep(chain[k])
    ensures forall i | 0 <= i < k && !keep(chain[i]) ::
      chain[i] != chain[k] && Ref(chain[i]) != w.slots[Target(w)]
  {
    var t := Target(w);
    var front := Rearmed(chain[..k], keep);
    assert groups[t] == front + ticked[t];
    forall i | 0 <= i < k && !keep(chain[i])
      ensures Ref(chain[i]) != w.slots[t]
    {
      if |front| > 0 {
        assert w.slots[t] == Ref(front[0]) && keep(front[0]);
      } else if |ticked[t]| > 0 {
        assert w.slots[t] == Ref(ticked[t][0]) && ticked[t][0] != chain[i];
      }
    }
  }

  /** The slot lists after a round that re-arms `chain[k]` into slot `t`. */
  lemma KeepSlots(groups: seq<seq<nat>>, u: seq<seq<nat>>, ticked: seq<seq<nat>>, chain: seq<nat>,
                  k: nat, keep: nat -> bool, t: nat, n: nat)
    requires t < n <= |groups| && n <= |u| && n <= |ticked| && k < |chain| && keep(chain[k])
    requires forall s | 0 <= s < n ::
      groups[s] == if s == t then Rearmed(chain[..k], keep) + ticked[s] else ticked[s]
    requires u[t] == [chain[k]] + groups[t]
    requires forall s | 0 <= s < n && s != t :: u[s] == groups[s]
    ensures forall s | 0 <= s < n ::
      u[s] == if s == t then Rearmed(chain[..k + 1], keep) + ticked[s] else ticked[s]
  {
    var q := chain[..k + 1];
    assert q[..|q| - 1] == chain[..k] && q[|q| - 1] == chain[k];
    assert Rearmed(q, keep) == [chain[k]] + Rearmed(chain[..k], keep);
  }

  /** One round whose callback re-arms the node. */
  lemma ExpiringKeep(w: Wheel, slab: seq<TimerNode>, groups: seq<seq<nat>>, loose: nat,
                     ticked: seq<seq<nat>>, chain: seq<nat>, k: nat, keep: nat -> bool)
    requires Expiring(w, slab, groups, loose, ticked, chain, k, keep) && k < |chain|
    requires keep(chain[k])
    ensures chain[k] < |slab|
    ensures var r := Handle(w, slab, chain[k], true);
      Expiring(r.0, r.1, StepGroups(groups, loose, Target(w), true), loose, ticked, chain, k + 1, keep)
  {
    assert groups[loose][0] == chain[k];
    KeepInv(w, slab, groups, loose);
    KeepWalked(w, slab, groups, loose, ticked, chain, k, keep, Handle(w, slab, chain[k], true));
  }

  /** The `Walked` half of `ExpiringKeep`, for any state `r` that agrees
      with the one `Handle` re-arms into on what `Handle` promises. */
  lemma KeepWalked(w: Wheel, slab: seq<TimerNode>, groups: seq<seq<nat>>, loose: nat,
                   ticked: seq<seq<nat>>, chain: seq<nat>, k: nat, keep: nat -> bool,
                   r: (Wheel, seq<TimerNode>))
    requires Walked(w, slab, groups, loose, ticked, chain, k, keep) && k < |chain|
    requires w.slots[Target(w)] == HeadOf(groups[Target(w)])
    requires keep(chain[k])
    requires WellFormed(r.0, r.1) && |r.1| == |slab|
    requires r.0.current == w.current && |r.0.slots| == |w.slots|
    requires forall y | 0 <= y < |slab| && y != chain[k] && Ref(y) != w.slots[Target(w)] :: r.1[y] == slab[y]
    ensures Walked(r.0, r.1, StepGroups(groups, loose, Target(w), true), loose, ticked, chain, k + 1, keep)
  {
    var t := Target(w);
    assert groups[loose][0] == chain[k];
    var u := StepGroups(groups, loose, t, true);
    KeepGroups(groups, loose, t, |w.slots|);
    KeepFrame(w, slab, groups, loose, ticked, chain, k, keep);
    KeepSlots(groups, u, ticked, chain, k, keep, t, |w.slots|);
    assert u[loose] == chain[k + 1..];
    assert Target(r.0) == t;
  }

  /** One round of the `processExpired` loop, whatever the callback does:
      the walk moves on to the next node of the chain. */
  lemma ExpiringRound(w: Wheel, slab: seq<TimerNode>, groups: seq<seq<nat>>, loose: nat,
                      ticked: seq<seq<nat>>, chain: seq<nat>, k: nat, keep: nat -> bool)
    requires Expiring(w, slab, groups, loose, ticked, chain, k, keep) && k < |chain|
    ensures chain[k] < |slab| && slab[chain[k]].next == HeadOf(chain[k + 1..])
    ensures var r := Handle(w, slab, chain[k], keep(chain[k]));
      Expiring(r.0, r.1, StepGroups(groups, loose, Target(w), keep(chain[k])), loose, ticked, chain, k + 1, keep)
  {
    assert Linked(slab, groups[loose]);
    LinkedAt(slab, groups[loose], 0);
    assert chain[k..][1..] == chain[k + 1..];
    if keep(chain[k]) {
      ExpiringKeep(w, slab, groups, loose, ticked, chain, k, keep);
    } else {
      ExpiringDrop(w, slab, groups, loose, ticked, chain, k, keep);
    }
  }

  /** `ExpiringRound` with the groups left implicit. */
  lemma ExpiringStep(w: Wheel, slab: seq<TimerNode>, loose: nat, ticked: seq<seq<nat>>,
                     chain: seq<nat>, k: nat, k': nat, keep: nat -> bool)
    requires exists groups :: Expiring(w, slab, groups, loose, ticked, chain, k, keep)
    requires k < |chain| && k' == k + 1
    ensures WellFormed(w, slab)
    ensures chain[k] < |slab| && slab[chain[k]].next == HeadOf(chain[k + 1..])
    ensures var r := Handle(w, slab, chain[k], keep(chain[k]));
      exists groups :: Expiring(r.0, r.1, groups, loose, ticked, chain, k', keep)
  {
    var groups :| Expiring(w, slab, groups, loose, ticked, chain, k, keep);
    ExpiringRound(w, slab, groups, loose, ticked, chain, k, keep);
  }

  /** `ExpiringDone` with the groups left implicit, as `processExpired`
      states it. */
  lemma ExpiringEnd(w: Wheel, slab: seq<TimerNode>, loose: nat, ticked: seq<seq<nat>>,
                    chain: seq<nat>, keep: nat -> bool)
    requires exists groups :: Expiring(w, slab, groups, loose, ticked, chain, |chain|, keep)
    ensures exists groups :: Valid(w, slab, groups) && forall s | 0 <= s < |w.slots| ::
      groups[s] == if s == Target(w) then Rearmed(chain, keep) + ticked[s] else ticked[s]
    ensures forall i | 0 <= i < |chain| && !keep(chain[i]) ::
      slab[chain[i]].prev == Null && slab[chain[i]].next == Null
  {
    var groups :| Expiring(w, slab, groups, loose, ticked, chain, |chain|, keep);
    ExpiringDone(w, slab, groups, loose, ticked, chain, keep);
  }

  /** `processExpired(fn)`: ticks, then walks the handed-out list (see
      `ExpireChain`). Afterwards the callback has seen exactly the old list
      under the cursor, in order; the wheel is valid again, with the slot
      `update` files into holding the re-armed nodes, latest first, in front
      of what the tick left there, and every other slot as the tick left it;
      and the nodes that were not re-armed have no links. */
  method ProcessExpired(w: Wheel, slab: seq<TimerNode>, ghost groups: seq<seq<nat>>, rearm: nat -> bool)
    returns (w': Wheel, slab': seq<TimerNode>, handled: seq<nat>)
    requires Valid(w, slab, groups)
    ensures handled == groups[w.current]
    ensures |w'.slots| == |w.slots| && w'.current == (w.current + 1) % |w.slots|
    ensures w'.lastTick == (w.lastTick + TickMs) % U64
    ensures |slab'| == |slab|
    ensures exists groups' :: Valid(w', slab', groups') && forall s | 0 <= s < |w'.slots| ::
      groups'[s] == if s == Target(w') then Rearmed(handled, rearm) + TickGroups(groups, w.current)[s]
                    else TickGroups(groups, w.current)[s]
    ensures forall i | 0 <= i < |handled| && !rearm(handled[i]) ::
      slab'[handled[i]].prev == Null && slab'[handled[i]].next == Null
  {
    ExpiringStart(w, slab, groups, rearm);
    var ticked := Tick(w, slab);
    w', slab', handled := ExpireChain(ticked.0, slab, ticked.1, |groups|, TickGroups(groups, w.current), groups[w.current], rearm);
  }

  /** The loop of `processExpired` over the list `cur` that the tick handed
      out: each node's links are cleared before it is passed to the
      callback, and the walk follows the `next` link read before the callback
      runs. The callback is modelled by `rearm`: it either re-arms the node
      with `update` or leaves it alone. */
  method ExpireChain(w: Wheel, slab: seq<TimerNode>, cur: Link, ghost loose: nat, ghost ticked: seq<seq<nat>>,
                     ghost chain: seq<nat>, rearm: nat -> bool)
    returns (w': Wheel, slab': seq<TimerNode>, handled: seq<nat>)
    requires WellFormed(w, slab) && cur == HeadOf(chain)
    requires exists groups :: Expiring(w, slab, groups, loose, ticked, chain, 0, rearm)
    ensures handled == chain
    ensures |w'.slots| == |w.slots| && w'.current == w.current && w'.lastTick == w.lastTick
    ensures |slab'| == |slab|
    ensures exists groups' :: Valid(w', slab', groups') && forall s | 0 <= s < |w'.slots| ::
      groups'[s] == if s == Target(w') then Rearmed(handled, rearm) + ticked[s] else ticked[s]
    ensures forall i | 0 <= i < |handled| && !rearm(handled[i]) ::
      slab'[handled[i]].prev == Null && slab'[handled[i]].next == Null
  {
    w', slab' := w, slab;
    handled := [];
    var node := cur;
    assert chain[0..] == chain;
    while node.Ref?
      invariant exists groups :: Expiring(w', slab', groups, loose, ticked, chain, |handled|, rearm)
      invariant |handled| <= |chain| && handled == chain[..|handled|]
      invariant node == HeadOf(chain[|handled|..])
      invariant |w'.slots| == |w.slots| && w'.current == w.current && w'.lastTick == w.lastTick
      invariant |slab'| == |slab|
      decreases |chain| - |handled|
    {
      var k := |handled|;
      var x := node.index;
      assert x == chain[k];
      assert chain[..k + 1] == chain[..k] + [x];
      assert chain[k..][1..] == chain[k + 1..];
      ExpiringStep(w', slab', loose, ticked, chain, k, k + 1, rearm);
      var next := slab'[x].next;
      var r := Handle(w', slab', x, rearm(x));
      w', slab' := r.0, r.1;
      handled := handled + [x];
      node := next;
    }
    assert |chain[|handled|..]| == 0;
    assert handled == chain;
    ExpiringEnd(w', slab', loose, ticked, chain, rearm);
  }

  /** One round of the general walk with the re-arm callback is one round
      of `ExpireChain`: the node is handled as `Handle` does and the walk
      goes on to its old successor. */
  lemma WalkRearmStep(w: Wheel, slab: seq<TimerNode>, x: nat, rearm: nat -> bool, fuel: nat)
    requires WellFormed(w, slab) && x < |slab|
    ensures LinkIn(slab[x].next, |slab|)
    ensures var h := Handle(w, slab, x, rearm(x));
      WalkFrom(w, slab, Ref(x), RearmCalls(rearm), fuel + 1)
        == Prepend([x], WalkFrom(h.0, h.1, slab[x].next, RearmCalls(rearm), fuel))
  {
    var cleared := slab[x := slab[x].(prev := Null, next := Null)];
    var calls := RearmCalls(rearm)(x);
    if rearm(x) {
      assert calls == [UpdateCall(x)] && calls[1..] == [];
      var u := Update(w, cleared, x);
      assert Perform(u.0, u.1, []) == u;
      assert Perform(w, cleared, calls) == u;
    } else {
      assert calls == [];
    }
  }

  /** `q` is a list along which the re-arm walk can run: each node's
      `next` link, read just before the node is handled, names the next node
      of `q`. */
  ghost predicate Threaded(w: Wheel, slab: seq<TimerNode>, q: seq<nat>, rearm: nat -> bool)
    decreases |q|
  {
    && WellFormed(w, slab)
    && (q != [] ==>
          && q[0] < |slab| && slab[q[0]].next == HeadOf(q[1..])
          && var h := Handle(w, slab, q[0], rearm(q[0]));
             Threaded(h.0, h.1, q[1..], rearm))
  }

  /** The state after `Handle` has run on every node of `q` in turn. */
  ghost function AfterRounds(w: Wheel, slab: seq<TimerNode>, q: seq<nat>, rearm: nat -> bool): (Wheel, seq<TimerNode>)
    requires Threaded(w, slab, q, rearm)
    decreases |q|
  {
    if q == [] then (w, slab)
    else
      var h := Handle(w, slab, q[0], rearm(q[0]));
      AfterRounds(h.0, h.1, q[1..], rearm)
  }

  /** The list still to be handed out in `ExpireChain` is one the re-arm
      walk can run along, and running it there leaves the state the loop
      ends in. */
  lemma {:induction false} ExpiringThreaded(w: Wheel, slab: seq<TimerNode>, loose: nat, ticked: seq<seq<nat>>,
                                          chain: seq<nat>, k: nat, rearm: nat -> bool)
    requires exists groups :: Expiring(w, slab, groups, loose, ticked, chain, k, rearm)
    requires k <= |chain|
    ensures Threaded(w, slab, chain[k..], rearm)
    ensures var a := AfterRounds(w, slab, chain[k..], rearm);
      exists groups :: Expiring(a.0, a.1, groups, loose, ticked, chain, |chain|, rearm)
    decreases |chain| - k
  {
    var groups :| Expiring(w, slab, groups, loose, ticked, chain, k, rearm);
    if k == |chain| {
      assert chain[k..] == [] && WellFormed(w, slab);
      assert AfterRounds(w, slab, chain[k..], rearm) == (w, slab);
    } else {
      ExpiringStep(w, slab, loose, ticked, chain, k, k + 1, rearm);
      var h := Handle(w, slab, chain[k], rearm(chain[k]));
      ExpiringThreaded(h.0, h.1, loose, ticked, chain, k + 1, rearm);
      var q := chain[k..];
      assert q[0] == chain[k] && q[1..] == chain[k + 1..];
      assert Threaded(w, slab, q, rearm);
      assert AfterRounds(w, slab, q, rearm) == AfterRounds(h.0, h.1, chain[k + 1..], rearm);
    }
  }

  /** Along a linked list the general walk with the re-arm callback hands
      out exactly that list, in order, runs to its end, and leaves the
      state of `Handle` applied node by node. */
  lemma {:induction false} WalkThreaded(w: Wheel, slab: seq<TimerNode>, q: seq<nat>, rearm: nat -> bool)
    requires Threaded(w, slab, q, rearm)
    ensures WellFormed(w, slab) && LinkIn(HeadOf(q), |slab|)
    ensures var a := AfterRounds(w, slab, q, rearm);
      WalkFrom(w, slab, HeadOf(q), RearmCalls(rearm), |q|) == WalkEnd(a.0, a.1, q, true)
    decreases |q|
  {
    if q != [] {
      var x, rest := q[0], q[1..];
      var h := Handle(w, slab, x, rearm(x));
      assert q == [x] + rest;
      WalkCons(w, slab, x, rearm, rest);
      WalkThreaded(h.0, h.1, rest, rearm);
    }
  }

  /** With the re-arm callback, the general walk from the list that is
      still to be handed out visits exactly that list, in order, runs to its
      end, and leaves the state `ExpireChain` promises. */
  lemma WalkFollowsChain(w: Wheel, slab: seq<TimerNode>, loose: nat, ticked: seq<seq<nat>>,
                         chain: seq<nat>, rearm: nat -> bool)
    requires exists groups :: Expiring(w, slab, groups, loose, ticked, chain, 0, rearm)
    ensures WellFormed(w, slab) && LinkIn(HeadOf(chain), |slab|)
    ensures var r := WalkFrom(w, slab, HeadOf(chain), RearmCalls(rearm), |chain|);
      && r.handled == chain && r.finished
      && exists groups :: Expiring(r.w, r.slab, groups, loose, ticked, chain, |chain|, rearm)
  {
    ExpiringThreaded(w, slab, loose, ticked, chain, 0, rearm);
    assert chain[0..] == chain;
    WalkThreaded(w, slab, chain, rearm);
  }

  /** `WalkRearmStep` for a walk that starts at the head of `[x] + q`. */
  lemma WalkCons(w: Wheel, slab: seq<TimerNode>, x: nat, rearm: nat -> bool, q: seq<nat>)
    requires WellFormed(w, slab) && x < |slab| && slab[x].next == HeadOf(q)
    ensures LinkIn(HeadOf(q), |slab|)
    ensures var h := Handle(w, slab, x, rearm(x));
      WalkFrom(w, slab, HeadOf([x] + q), RearmCalls(rearm), |q| + 1)
        == Prepend([x], WalkFrom(h.0, h.1, HeadOf(q), RearmCalls(rearm), |q|))
  {
    WalkRearmStep(w, slab, x, rearm, |q|);
    assert HeadOf([x] + q) == Ref(x);
  }

  /** `processExpired` with the re-arm callback, run as the general walk,
      keeps every promise of `ProcessExpired`: it hands out exactly the old
      list under the cursor and leaves a valid wheel with the re-armed nodes
      in front of the slot `update` files into. */
  lemma ProcessExpiredAgrees(w: Wheel, slab: seq<TimerNode>, groups: seq<seq<nat>>, rearm: nat -> bool)
    requires Valid(w, slab, groups)
    ensures WellFormed(w, slab)
    ensures var r := ProcessExpiredWith(w, slab, RearmCalls(rearm), |groups[w.current]|);
      && r.handled == groups[w.current] && r.finished
      && exists groups' :: Valid(r.w, r.slab, groups') && forall s | 0 <= s < |r.w.slots| ::
           groups'[s] == if s == Target(r.w) then Rearmed(r.handled, rearm) + TickGroups(groups, w.current)[s]
                         else TickGroups(groups, w.current)[s]
  {
    ExpiringStart(w, slab, groups, rearm);
    var chain := groups[w.current];
    var t := Tick(w, slab);
    WalkFollowsChain(t.0, slab, |groups|, TickGroups(groups, w.current), chain, rearm);
    var r := WalkFrom(t.0, slab, t.1, RearmCalls(rearm), |chain|);
    ExpiringEnd(r.w, r.slab, |groups|, TickGroups(groups, w.current), chain, rearm);
  }

  /** When the slot arithmetic does not wrap, the slot `update` files into
      right after a tick at `c` is `c` itself: re-armed nodes go back into
      the slot that was just emptied. */
  lemma RearmSlot(c: nat, n: nat)
    requires c < n && n + n - 1 < U32
    ensures TargetSlot((c + 1) % n, n) == c
  {
    var c1 := (c + 1) % n;
    if c + 1 < n {
      ModUnique(c + 1, n, 0, c + 1);
      ModUnique(c1 + (n - 1), n, 1, c);
    } else {
      ModUnique(c + 1, n, 1, 0);
      ModUnique(c1 + (n - 1), n, 0, c);
    }
  }

  // processExpired with an arbitrary callback.

  /** What a callback can do to the wheel through its interface: `update`
      or `unlink` of some node. */
  datatype Call = UpdateCall(node: nat) | UnlinkCall(node: nat)

  /** Every call names a node of a slab of `n` nodes. */
  predicate CallsIn(calls: seq<Call>, n: nat) {
    forall i | 0 <= i < |calls| :: calls[i].node < n
  }

  /** A callback, given as the calls it makes when handed each node, that
      only names nodes of the slab. */
  predicate CallbackIn(fn: nat -> seq<Call>, n: nat) {
    forall x | 0 <= x < n :: CallsIn(fn(x), n)
  }

  /** The calls made one after the other. Each keeps the wheel well formed
      and leaves the cursor, the last tick and the slot count alone. */
  function Perform(w: Wheel, slab: seq<TimerNode>, calls: seq<Call>): (r: (Wheel, seq<TimerNode>))
    requires WellFormed(w, slab) && CallsIn(calls, |slab|)
    ensures WellFormed(r.0, r.1) && |r.1| == |slab|
    ensures r.0.current == w.current && r.0.lastTick == w.lastTick && |r.0.slots| == |w.slots|
    decreases |calls|
  {
    if calls == [] then (w, slab)
    else
      var next := match calls[0]
        case UpdateCall(y) => Update(w, slab, y)
        case UnlinkCall(y) => Unlink(w, slab, y);
      Perform(next.0, next.1, calls[1..])
  }

  /** Where a walk stops: the state, the nodes handed to the callback in
      order, and whether the list ran out (rather than the step budget). */
  datatype WalkEnd = WalkEnd(w: Wheel, slab: seq<TimerNode>, handled: seq<nat>, finished: bool)

  /** `p` handed out before the rest of the walk. */
  function Prepend(p: seq<nat>, r: WalkEnd): WalkEnd {
    r.(handled := p + r.handled)
  }

  /** The loop of `processExpired` from `cur` with an arbitrary callback,
      for at most `fuel` rounds: read the node's `next`, clear its links,
      run the callback, and go on to the `next` read before it ran. The
      callback may change any node, so the walk follows whatever the saved
      successor links to by then, and need not end: `fuel` bounds it. */
  function WalkFrom(w: Wheel, slab: seq<TimerNode>, cur: Link, fn: nat -> seq<Call>, fuel: nat): (r: WalkEnd)
    requires WellFormed(w, slab) && LinkIn(cur, |slab|) && CallbackIn(fn, |slab|)
    ensures WellFormed(r.w, r.slab) && |r.slab| == |slab|
    ensures r.w.current == w.current && r.w.lastTick == w.lastTick && |r.w.slots| == |w.slots|
    ensures |r.handled| <= fuel
    ensures forall i | 0 <= i < |r.handled| :: r.handled[i] < |slab|
    ensures r.handled == [] && r.finished <==> cur == Null
    ensures cur.Ref? && fuel > 0 ==> r.handled != [] && r.handled[0] == cur.index
    decreases fuel
  {
    if cur.Null? then WalkEnd(w, slab, [], true)
    else if fuel == 0 then WalkEnd(w, slab, [], false)
    else
      var x := cur.index;
      var cleared := slab[x := slab[x].(prev := Null, next := Null)];
      var after := Perform(w, cleared, fn(x));
      Prepend([x], WalkFrom(after.0, after.1, slab[x].next, fn, fuel - 1))
  }

  /** `processExpired(fn)` with an arbitrary callback: tick, then walk the
      handed-out list, for at most `fuel` rounds. */
  function ProcessExpiredWith(w: Wheel, slab: seq<TimerNode>, fn: nat -> seq<Call>, fuel: nat): (r: WalkEnd)
    requires WellFormed(w, slab) && CallbackIn(fn, |slab|)
    ensures WellFormed(r.w, r.slab) && |r.slab| == |slab|
    ensures |r.w.slots| == |w.slots| && r.w.current == (w.current + 1) % |w.slots|
    ensures r.w.lastTick == (w.lastTick + TickMs) % U64
    ensures r.handled == [] && r.finished <==> w.slots[w.current] == Null
    ensures w.slots[w.current].Ref? && fuel > 0 ==> r.handled != [] && r.handled[0] == w.slots[w.current].index
  {
    var t := Tick(w, slab);
    WalkFrom(t.0, slab, t.1, fn, fuel)
  }

  /** The callback that re-arms the nodes `rearm` picks and leaves the
      others alone. */
  function RearmCalls(rearm: nat -> bool): (fn: nat -> seq<Call>)
    ensures forall n: nat :: CallbackIn(fn, n)
  {
    (x: nat) => if rearm(x) then [UpdateCall(x)] else []
  }

  /** A callback that unlinks the successor of the node it is handed cuts
      the walk short. On a one-slot wheel whose list is 0, 1, 2, unlinking
      node 1 while node 0 is handled leaves node 1 with no successor: node
      2 is never handed to the callback, and no slot holds it. */
  lemma UnlinkSuccessorLosesNode()
    ensures var w := Wheel([Ref(0)], 0, 0);
      var slab := [TimerNode(Null, Ref(1), 0), TimerNode(Ref(0), Ref(2), 0), TimerNode(Ref(1), Null, 0)];
      var r := ProcessExpiredWith(w, slab, (x: nat) => if x == 0 then [UnlinkCall(1)] else [], 3);
      r.finished && r.handled == [0, 1] && r.w.slots == [Null]
  {
    var w := Wheel([Ref(0)], 0, 0);
    var slab := [TimerNode(Null, Ref(1), 0), TimerNode(Ref(0), Ref(2), 0), TimerNode(Ref(1), Null, 0)];
    var fn := (x: nat) => if x == 0 then [UnlinkCall(1)] else [];
    var w1 := Wheel([Null], 0, TickMs);
    var t := Tick(w, slab);
    assert t.0.slots == [Null] && t.0.lastTick == TickMs && t.1 == Ref(0);
    // Handling node 0 unlinks node 1, whose `next` is then cleared.
    var c0 := slab[0 := slab[0].(prev := Null, next := Null)];
    var u := Unlink(w1, c0, 1);
    var s1 := [TimerNode(Null, Ref(2), 0), TimerNode(Null, Null, 0), TimerNode(Ref(0), Null, 0)];
    assert u.0 == w1 && u.1[0] == s1[0] && u.1[1] == s1[1] && u.1[2] == s1[2];
    assert u.1 == s1;
    assert Perform(w1, c0, fn(0)) == (w1, s1);
    // Handling node 1 does nothing, and the walk stops there.
    assert s1[1 := s1[1].(prev := Null, next := Null)] == s1;
    assert Perform(w1, s1, fn(1)) == (w1, s1);
    assert WalkFrom(w1, s1, Null, fn, 1) == WalkEnd(w1, s1, [], true);
    assert WalkFrom(w1, s1, Ref(1), fn, 2) == WalkEnd(w1, s1, [1], true);
    assert WalkFrom(w1, slab, Ref(0), fn, 3) == WalkEnd(w1, s1, [0, 1], true);
  }

  /** A callback that re-arms the successor sends the walk into the slot
      `update` files into. On a one-slot wheel whose list is 0, 1, a
      callback that re-arms node 0 and then node 1 while node 0 is handled
      puts 1 in front of 0 in the slot; the walk goes on to node 1, then
      follows its new link back to node 0, which is handed to the callback
      a second time. */
  lemma RearmSuccessorRevisits()
    ensures var w := Wheel([Ref(0)], 0, 0);
      var slab := [TimerNode(Null, Ref(1), 0), TimerNode(Ref(0), Null, 0)];
      var r := ProcessExpiredWith(w, slab, (x: nat) => if x == 0 then [UpdateCall(0), UpdateCall(1)] else [], 3);
      r.finished && r.handled == [0, 1, 0]
  {
    var w := Wheel([Ref(0)], 0, 0);
    var slab := [TimerNode(Null, Ref(1), 0), TimerNode(Ref(0), Null, 0)];
    var fn := (x: nat) => if x == 0 then [UpdateCall(0), UpdateCall(1)] else [];
    var w1 := Wheel([Null], 0, TickMs);
    var t := Tick(w, slab);
    assert t.0.slots == [Null] && t.0.lastTick == TickMs && t.1 == Ref(0);
    // First round: node 0, whose saved successor is node 1. Re-arming 0
    // and then 1 leaves 1 in front of 0 in the slot.
    var c0 := slab[0 := slab[0].(prev := Null, next := Null)];
    var sb := [TimerNode(Ref(1), Null, 0), TimerNode(Null, Ref(0), 0)];
    var wb := Wheel([Ref(1)], 0, TickMs);
    RearmBoth(w1, c0);
    assert Perform(w1, c0, fn(0)) == (wb, sb);
    RevisitTail(fn);
    assert WalkFrom(w1, slab, Ref(0), fn, 3) == WalkEnd(wb, sb, [0, 1, 0], true);
  }

  /** The last two rounds of `RearmSuccessorRevisits`: from the list 1, 0
      that the first round left, the walk hands out node 1 and then node 0
      again. */
  lemma RevisitTail(fn: nat -> seq<Call>)
    requires fn(0) == [UpdateCall(0), UpdateCall(1)] && fn(1) == []
    ensures CallbackIn(fn, 2)
    ensures var wb := Wheel([Ref(1)], 0, TickMs);
      var sb := [TimerNode(Ref(1), Null, 0), TimerNode(Null, Ref(0), 0)];
      WalkFrom(wb, sb, Ref(1), fn, 2) == WalkEnd(wb, sb, [1, 0], true)
  {
    var wb := Wheel([Ref(1)], 0, TickMs);
    var sb := [TimerNode(Ref(1), Null, 0), TimerNode(Null, Ref(0), 0)];
    assert CallsIn(fn(0), 2) && CallsIn(fn(1), 2);
    // Second round: node 1, whose new successor is node 0.
    var c1 := sb[1 := sb[1].(prev := Null, next := Null)];
    assert Perform(wb, c1, fn(1)) == (wb, c1);
    // Third round: node 0 again, now without a successor.
    var c2 := c1[0 := c1[0].(prev := Null, next := Null)];
    RearmBoth(wb, c2);
    assert Perform(wb, c2, fn(0)) == (wb, sb);
    assert WalkFrom(wb, sb, Null, fn, 0) == WalkEnd(wb, sb, [], true);
    assert WalkFrom(wb, c1, Ref(0), fn, 1) == WalkEnd(wb, sb, [0], true);
  }

  /** On a one-slot wheel where node 0 has no links and is not the head,
      and node 1 has no successor, `update(0)` then `update(1)` leaves the
      list 1, 0. */
  lemma RearmBoth(w: Wheel, c: seq<TimerNode>)
    requires w.slots == [Null] || w.slots == [Ref(1)]
    requires w.current == 0 && w.lastTick < U64
    requires c == [TimerNode(Null, Null, 0), TimerNode(Ref(0), Null, 0)]
          || c == [TimerNode(Null, Null, 0), TimerNode(Null, Null, 0)]
    ensures WellFormed(w, c) && CallsIn([UpdateCall(0), UpdateCall(1)], |c|)
    ensures Perform(w, c, [UpdateCall(0), UpdateCall(1)])
         == (w.(slots := [Ref(1)]), [TimerNode(Ref(1), Null, 0), TimerNode(Null, Ref(0), 0)])
  {
    assert TargetSlot(0, 1) == 0;
    var u0 := Update(w, c, 0);
    assert u0.0.slots == [Ref(0)];
    assert u0.1[0] == TimerNode(Null, w.slots[0], 0);
    assert u0.1[1].next == Null;
    var u1 := Update(u0.0, u0.1, 1);
    assert u1.0.slots == [Ref(1)];
    assert u1.1[0] == TimerNode(Ref(1), Null, 0) && u1.1[1] == TimerNode(Null, Ref(0), 0);
    assert u1.1 == [TimerNode(Ref(1), Null, 0), TimerNode(Null, Ref(0), 0)];
    assert [UpdateCall(0), UpdateCall(1)][1..] == [UpdateCall(1)];
  }
}
