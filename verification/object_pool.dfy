/** The fixed-type object pool: a LIFO free list of slot addresses, filled
    from slabs whose size doubles each time the list runs dry. Slot
    addresses are naturals: slot `j` of a slab at `base` is
    `base + j * elem`, `elem` being the object size. Where the slab is
    allocated is a parameter. */
module ObjectPool {

  datatype Pool = Pool(freeList: seq<nat>, blocks: seq<nat>, capacity: nat, elem: nat)

  /** The addresses `expand` pushes for a slab at `base` of `count` slots,
      in push order: the last slot first, the first slot last. */
  function RevSlots(base: nat, count: nat, elem: nat): (r: seq<nat>)
    ensures |r| == count
    decreases count
  {
    if count == 0 then [] else [base + (count - 1) * elem] + RevSlots(base, count - 1, elem)
  }

  /** Slot `count - 1 - j` sits at position `j` of the push order. */
  lemma {:induction false} RevSlotsAt(base: nat, count: nat, elem: nat, j: nat)
    requires j < count
    ensures RevSlots(base, count, elem)[j] == base + (count - 1 - j) * elem
    decreases count
  {
    if j > 0 {
      RevSlotsAt(base, count - 1, elem, j - 1);
    }
  }

  /** Taking the first slot off the end leaves the push order of the slab
      that starts one slot later. */
  lemma {:induction false} RevSlotsLast(base: nat, count: nat, elem: nat)
    requires count > 0
    ensures RevSlots(base, count, elem) == RevSlots(base + elem, count - 1, elem) + [base]
    decreases count
  {
    if count > 1 {
      RevSlotsLast(base, count - 1, elem);
      assert base + (count - 1) * elem == (base + elem) + (count - 2) * elem;
    }
  }

  /** `expand(count)`: records the slab and pushes its slots, last first. */
  function Expand(p: Pool, count: nat, base: nat): (r: Pool)
    ensures r.blocks == p.blocks + [base] && r.capacity == p.capacity && r.elem == p.elem
    ensures |r.freeList| == |p.freeList| + count && r.freeList[..|p.freeList|] == p.freeList
    ensures forall j | |p.freeList| <= j < |r.freeList| :: r.freeList[j] == base + (|r.freeList| - 1 - j) * p.elem
  {
    var pushed := RevSlots(base, count, p.elem);
    var fl := p.freeList + pushed;
    forall j | |p.freeList| <= j < |fl|
      ensures fl[j] == base + (|fl| - 1 - j) * p.elem
    {
      RevSlotsAt(base, count, p.elem, j - |p.freeList|);
    }
    p.(freeList := fl, blocks := p.blocks + [base])
  }

  /** `expand` as the source writes it: a signed index running from
      `count - 1` down to 0, pushing the address of each slot. */
  method ExpandLoop(p: Pool, count: nat, base: nat) returns (r: Pool)
    ensures r == Expand(p, count, base)
  {
    var fl := p.freeList;
    var i: int := count - 1;
    while i >= 0
      invariant -1 <= i < count
      invariant fl == p.freeList + RevSlots(base, count, p.elem)[..count - 1 - i]
    {
      RevSlotsAt(base, count, p.elem, count - 1 - i);
      assert RevSlots(base, count, p.elem)[..count - i]
          == RevSlots(base, count, p.elem)[..count - 1 - i] + [base + i * p.elem];
      fl := fl + [base + i * p.elem];
      i := i - 1;
    }
    assert RevSlots(base, count, p.elem)[..count] == RevSlots(base, count, p.elem);
    r := p.(freeList := fl, blocks := p.blocks + [base]);
  }

  /** The constructor: capacity `size` and one slab of that many slots. */
  function New(size: nat, elem: nat, base: nat): (r: Pool)
    ensures r.capacity == size && r.elem == elem && r.blocks == [base]
    ensures r.freeList == RevSlots(base, size, elem)
  {
    Expand(Pool([], [], size, elem), size, base)
  }

  /** `acquire()` can hand out a slot: the free list is not empty, or
      doubling the capacity adds slots. A pool of capacity 0 never gains
      any. */
  predicate CanAcquire(p: Pool) {
    p.freeList != [] || p.capacity > 0
  }

  /** `acquire()`: when the free list is empty, doubles the capacity and
      expands by that many slots into a new slab at `base`; then pops the
      most recently pushed slot. */
  function Acquire(p: Pool, base: nat): (res: (Pool, nat))
    requires CanAcquire(p)
    ensures var q := if p.freeList == [] then Expand(p.(capacity := 2 * p.capacity), 2 * p.capacity, base) else p;
      && q.freeList != []
      && res.1 == q.freeList[|q.freeList| - 1]
      && res.0 == q.(freeList := q.freeList[..|q.freeList| - 1])
  {
    var q := if p.freeList == [] then Expand(p.(capacity := 2 * p.capacity), 2 * p.capacity, base) else p;
    (q.(freeList := q.freeList[..|q.freeList| - 1]), q.freeList[|q.freeList| - 1])
  }

  /** `release(obj)`: pushes the slot back, with no check that it came from
      this pool or is not already free. */
  function Release(p: Pool, obj: nat): (r: Pool)
    ensures r.freeList == p.freeList + [obj] && r.blocks == p.blocks && r.capacity == p.capacity
  {
    p.(freeList := p.freeList + [obj])
  }

  /** The slot just released is the next one acquired, and the pool is
      back where it was. */
  lemma ReleaseThenAcquire(p: Pool, obj: nat, base: nat)
    ensures Acquire(Release(p, obj), base) == (p, obj)
  {
    assert (p.freeList + [obj])[..|p.freeList|] == p.freeList;
  }

  /** Releasing a slot twice makes it come out of two acquires in a row. */
  lemma DoubleRelease(p: Pool, obj: nat, base: nat)
    ensures var q := Release(Release(p, obj), obj);
      var (q1, a1) := Acquire(q, base);
      var (q2, a2) := Acquire(q1, base);
      a1 == obj && a2 == obj && q2 == p
  {
    ReleaseThenAcquire(Release(p, obj), obj, base);
    ReleaseThenAcquire(p, obj, base);
  }

  /** An empty free list doubles the capacity and opens a new slab; the
      first slot of that slab is handed out. */
  lemma AcquireWhenEmpty(p: Pool, base: nat)
    requires p.freeList == [] && p.capacity > 0
    ensures var (q, obj) := Acquire(p, base);
      && obj == base
      && q.capacity == 2 * p.capacity
      && q.blocks == p.blocks + [base]
      && |q.freeList| == 2 * p.capacity - 1
  {
    var q := Expand(p.(capacity := 2 * p.capacity), 2 * p.capacity, base);
    assert q.freeList[|q.freeList| - 1] == base + 0 * p.elem;
  }

  /** `n` acquires in a row, collecting the slots handed out; no expansion
      happens while the free list lasts. */
  function AcquireMany(p: Pool, n: nat, base: nat): (res: (Pool, seq<nat>))
    requires n <= |p.freeList|
    ensures |res.1| == n
    decreases n
  {
    if n == 0 then (p, [])
    else
      var (p1, obj) := Acquire(p, base);
      var (p2, objs) := AcquireMany(p1, n - 1, base);
      (p2, [obj] + objs)
  }

  /** Slots of a slab come out in address order: the free list ends with
      the push order of a slab at `b`, so `n` acquires return `b`,
      `b + elem`, ... in turn. */
  lemma {:induction false} AcquireInOrder(p: Pool, rest: seq<nat>, b: nat, count: nat, n: nat, base: nat)
    requires p.freeList == rest + RevSlots(b, count, p.elem) && n <= count
    ensures n <= |p.freeList|
    ensures forall j | 0 <= j < n :: AcquireMany(p, n, base).1[j] == b + j * p.elem
    decreases n
  {
    if n > 0 {
      RevSlotsLast(b, count, p.elem);
      var (p1, obj) := Acquire(p, base);
      assert obj == b;
      assert p1.freeList == rest + RevSlots(b + p.elem, count - 1, p.elem);
      AcquireInOrder(p1, rest, b + p.elem, count - 1, n - 1, base);
      var objs := AcquireMany(p1, n - 1, base).1;
      forall j | 0 <= j < n
        ensures AcquireMany(p, n, base).1[j] == b + j * p.elem
      {
        if j > 0 {
          assert AcquireMany(p, n, base).1[j] == objs[j - 1];
          assert (b + p.elem) + (j - 1) * p.elem == b + j * p.elem;
        }
      }
    }
  }

  /** A new pool hands out its slab's slots in address order. */
  lemma FreshPoolOrder(size: nat, elem: nat, base: nat, n: nat)
    requires n <= size
    ensures n <= |New(size, elem, base).freeList|
    ensures forall j | 0 <= j < n :: AcquireMany(New(size, elem, base), n, base).1[j] == base + j * elem
  {
    var p := New(size, elem, base);
    assert p.freeList == [] + RevSlots(base, size, elem);
    AcquireInOrder(p, [], base, size, n, base);
  }
}
