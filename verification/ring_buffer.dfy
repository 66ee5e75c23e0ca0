/** The bounded byte FIFO: a buffer of fixed capacity with a read position,
    a write position and a fill count. The object is modelled as an
    immutable value; each operation returns the next state. */
module RingBuffer {
  import opened InkBase
  import opened Wrappers

  /** The constructor's default capacity. */
  const DefaultCapacity: nat := 8192

  datatype Ring = Ring(buf: seq<Byte>, readPos: nat, writePos: nat, size: nat)

  /** `x` reduced once by `cap`: the position `x` lands on after at most one
      wrap. */
  function Wrap(x: nat, cap: nat): (r: nat)
    requires 0 < cap && x < cap + cap
    ensures r < cap
    ensures r == x % cap
  {
    if x < cap then
      ModUnique(x, cap, 0, x);
      x
    else
      ModUnique(x, cap, 1, x - cap);
      x - cap
  }

  /** How far position `k` lies after position `from`, going round. */
  function Dist(from: nat, k: nat, cap: nat): (d: nat)
    requires from < cap && k < cap
    ensures d < cap && Wrap(from + d, cap) == k
  {
    if k >= from then k - from else k + cap - from
  }

  /** `Dist` undoes a step forward by less than a lap. */
  lemma DistWrap(from: nat, d: nat, cap: nat)
    requires from < cap && d < cap
    ensures Dist(from, Wrap(from + d, cap), cap) == d
  {
  }

  /** The invariant every operation keeps: positions inside the buffer, the
      fill count at most the capacity, and the write position `size` places
      after the read position. */
  predicate Valid(r: Ring) {
    && |r.buf| > 0
    && r.readPos < |r.buf| && r.writePos < |r.buf| && r.size <= |r.buf|
    && r.writePos == Wrap(r.readPos + r.size, |r.buf|)
  }

  /** The bytes waiting to be read, oldest first. */
  function Contents(r: Ring): (c: seq<Byte>)
    requires Valid(r)
    ensures |c| == r.size
  {
    seq(r.size, i requires 0 <= i < r.size => r.buf[Wrap(r.readPos + i, |r.buf|)])
  }

  /** `size()`, `capacity()`, `empty()`, `full()`. */
  function Size(r: Ring): nat { r.size }

  function Capacity(r: Ring): nat { |r.buf| }

  predicate Empty(r: Ring) { r.size == 0 }

  predicate Full(r: Ring) { r.size == |r.buf| }

  /** The accessors in terms of the waiting bytes. */
  lemma AccessorsSpec(r: Ring)
    requires Valid(r)
    ensures Size(r) <= Capacity(r)
    ensures Empty(r) <==> Contents(r) == []
    ensures Full(r) <==> |Contents(r)| == Capacity(r)
  {
  }

  /** The constructor over a freshly allocated buffer `alloc` of the
      requested capacity, whose bytes are whatever the allocation holds. */
  function New(alloc: seq<Byte>): (r: Ring)
    requires |alloc| > 0
    ensures Valid(r) && Capacity(r) == |alloc|
    ensures Contents(r) == []
  {
    Ring(alloc, 0, 0, 0)
  }

  // A read or advance of the read side by `n` waiting bytes.

  /** The state after the oldest `n` bytes have been consumed. */
  lemma ConsumeSpec(r: Ring, n: nat, r': Ring)
    requires Valid(r) && n <= r.size
    requires r'.buf == r.buf && r'.writePos == r.writePos && r'.size == r.size - n
    requires r'.readPos == Wrap(r.readPos + n, |r.buf|)
    ensures Valid(r') && Contents(r') == Contents(r)[n..]
  {
    var cap := |r.buf|;
    WrapShift(r.readPos + n, r.size - n, cap);
    assert r.readPos + n + (r.size - n) == r.readPos + r.size;
    forall j | 0 <= j < r'.size
      ensures Contents(r')[j] == Contents(r)[n + j]
    {
      WrapShift(r.readPos + n, j, cap);
      assert r.readPos + n + j == r.readPos + (n + j);
    }
  }

  /** Wrapping twice is wrapping once. */
  lemma WrapShift(a: nat, j: nat, cap: nat)
    requires 0 < cap && a + j < cap + cap
    ensures Wrap(Wrap(a, cap) + j, cap) == Wrap(a + j, cap)
  {
  }

  /** `read(dest, maxLen)`: nothing when `maxLen` is 0 or the buffer is
      empty; otherwise min(maxLen, size) bytes, copied in one piece or in two
      when they wrap past the end of the buffer. The bytes returned are the
      oldest waiting ones, and they stop waiting. */
  function Read(r: Ring, maxLen: nat): (res: (Ring, seq<Byte>))
    requires Valid(r)
    ensures Valid(res.0) && res.0.buf == r.buf && res.0.writePos == r.writePos
    ensures |res.1| == if maxLen == 0 || r.size == 0 then 0 else Min(maxLen, r.size)
    ensures res.1 == Contents(r)[..|res.1|]
    ensures Contents(res.0) == Contents(r)[|res.1|..]
  {
    var cap := |r.buf|;
    if maxLen == 0 || r.size == 0 then
      assert Contents(r)[0..] == Contents(r);
      (r, [])
    else
      var n := Min(maxLen, r.size);
      if r.readPos + n <= cap then
        var r' := r.(readPos := (r.readPos + n) % cap, size := r.size - n);
        var out := r.buf[r.readPos..r.readPos + n];
        ConsumeSpec(r, n, r');
        Window(r, n);
        (r', out)
      else
        var first := cap - r.readPos;
        var second := n - first;
        var r' := r.(readPos := second, size := r.size - n);
        var out := r.buf[r.readPos..] + r.buf[..second];
        ConsumeSpec(r, n, r');
        Window(r, first);
        forall i | first <= i < n
          ensures out[i] == Contents(r)[i]
        {
          assert Wrap(r.readPos + i, cap) == i - first;
          assert out[i] == r.buf[i - first];
        }
        (r', out)
  }

  /** The first `count` waiting bytes lie contiguously from the read position
      when they do not pass the end of the buffer. */
  lemma Window(r: Ring, count: nat)
    requires Valid(r) && count <= r.size && r.readPos + count <= |r.buf|
    ensures r.buf[r.readPos..r.readPos + count] == Contents(r)[..count]
  {
    forall i | 0 <= i < count
      ensures r.buf[r.readPos..r.readPos + count][i] == Contents(r)[i]
    {
      assert Wrap(r.readPos + i, |r.buf|) == r.readPos + i;
    }
  }

  /** `advanceReadPos(len)`: drops min(len, size) waiting bytes. */
  function AdvanceReadPos(r: Ring, len: nat): (r': Ring)
    requires Valid(r)
    ensures Valid(r') && r'.buf == r.buf
    ensures Contents(r') == Contents(r)[Min(len, r.size)..]
  {
    var n := Min(len, r.size);
    var r' := r.(readPos := (r.readPos + n) % |r.buf|, size := r.size - n);
    ConsumeSpec(r, n, r');
    r'
  }

  /** `getReadBuffer(availableData)`: the offset of the contiguous run of
      waiting bytes that starts at the read position (`None` for the null
      pointer when the buffer is empty) and the run's length. */
  function GetReadBuffer(r: Ring): (res: (Option<nat>, nat))
    requires Valid(r)
    ensures r.size == 0 ==> res == (None, 0)
    ensures r.size > 0 ==> res.0 == Some(r.readPos) && 0 < res.1 <= r.size
    ensures res.1 == Min(r.size, |r.buf| - r.readPos)
    ensures r.readPos + res.1 <= |r.buf| && r.buf[r.readPos..r.readPos + res.1] == Contents(r)[..res.1]
  {
    if r.size == 0 then (None, 0)
    else if r.readPos < r.writePos then
      Window(r, r.writePos - r.readPos);
      (Some(r.readPos), r.writePos - r.readPos)
    else
      Window(r, |r.buf| - r.readPos);
      (Some(r.readPos), |r.buf| - r.readPos)
  }

  // A write or advance of the write side by `n` bytes.

  /** The bytes of the buffer after `n` new bytes `data` were stored after the
      waiting ones: a position at distance `size + j` from the read position,
      `j < n`, holds `data[j]`; every other position is unchanged. */
  predicate Stored(r: Ring, data: seq<Byte>, n: nat, buf': seq<Byte>)
    requires Valid(r) && n <= |data| && r.size + n <= |r.buf|
  {
    && |buf'| == |r.buf|
    && forall k | 0 <= k < |r.buf| ::
         buf'[k] == if r.size <= Dist(r.readPos, k, |r.buf|) < r.size + n
                    then data[Dist(r.readPos, k, |r.buf|) - r.size] else r.buf[k]
  }

  /** The state after `n` new bytes were stored behind the waiting ones. */
  lemma ProduceSpec(r: Ring, data: seq<Byte>, n: nat, r': Ring)
    requires Valid(r) && n <= |data| && r.size + n <= |r.buf|
    requires Stored(r, data, n, r'.buf)
    requires r'.readPos == r.readPos && r'.size == r.size + n
    requires r'.writePos == Wrap(r.writePos + n, |r.buf|)
    ensures Valid(r') && Contents(r') == Contents(r) + data[..n]
  {
    var cap := |r.buf|;
    WrapShift(r.readPos + r.size, n, cap);
    forall i | 0 <= i < r'.size
      ensures Contents(r')[i] == (Contents(r) + data[..n])[i]
    {
      var k := Wrap(r.readPos + i, cap);
      assert Dist(r.readPos, k, cap) == i;
    }
  }

  /** `write(data, len)` with `data` holding the `len` bytes: nothing when
      `len` is 0 or the buffer is full; otherwise min(len, free space) bytes
      are stored behind the waiting ones, in one piece or in two when they
      wrap past the end of the buffer. */
  function Write(r: Ring, data: seq<Byte>): (res: (Ring, nat))
    requires Valid(r)
    ensures Valid(res.0) && res.0.readPos == r.readPos
    ensures res.1 == if |data| == 0 || r.size == |r.buf| then 0 else Min(|data|, |r.buf| - r.size)
    ensures Contents(res.0) == Contents(r) + data[..res.1]
  {
    var cap := |r.buf|;
    if |data| == 0 || r.size == cap then
      assert Contents(r) + data[..0] == Contents(r);
      (r, 0)
    else
      var n := Min(|data|, cap - r.size);
      if r.writePos + n <= cap then
        var buf' := r.buf[..r.writePos] + data[..n] + r.buf[r.writePos + n..];
        var r' := r.(buf := buf', writePos := (r.writePos + n) % cap, size := r.size + n);
        StoredOnePiece(r, data, n, buf');
        ProduceSpec(r, data, n, r');
        (r', n)
      else
        var first := cap - r.writePos;
        var second := n - first;
        var buf' := data[first..n] + r.buf[second..r.writePos] + data[..first];
        var r' := r.(buf := buf', writePos := second, size := r.size + n);
        StoredTwoPieces(r, data, n, buf');
        ProduceSpec(r, data, n, r');
        (r', n)
  }

  lemma StoredOnePiece(r: Ring, data: seq<Byte>, n: nat, buf': seq<Byte>)
    requires Valid(r) && n <= |data| && r.size + n <= |r.buf|
    requires r.writePos + n <= |r.buf|
    requires buf' == r.buf[..r.writePos] + data[..n] + r.buf[r.writePos + n..]
    ensures Stored(r, data, n, buf')
  {
    var cap := |r.buf|;
    forall k | 0 <= k < cap
      ensures buf'[k] == if r.size <= Dist(r.readPos, k, cap) < r.size + n
                         then data[Dist(r.readPos, k, cap) - r.size] else r.buf[k]
    {
      if r.writePos <= k < r.writePos + n {
        assert buf'[k] == data[k - r.writePos];
      } else if k < r.writePos {
        assert buf'[k] == r.buf[k];
      } else {
        assert buf'[k] == r.buf[k];
      }
    }
  }

  lemma StoredTwoPieces(r: Ring, data: seq<Byte>, n: nat, buf': seq<Byte>)
    requires Valid(r) && n <= |data| && r.size + n <= |r.buf|
    requires r.writePos + n > |r.buf|
    requires buf' == data[|r.buf| - r.writePos..n] + r.buf[r.writePos + n - |r.buf|..r.writePos]
                     + data[..|r.buf| - r.writePos]
    ensures Stored(r, data, n, buf')
  {
    var cap := |r.buf|;
    var first := cap - r.writePos;
    var second := n - first;
    forall k | 0 <= k < cap
      ensures buf'[k] == if r.size <= Dist(r.readPos, k, cap) < r.size + n
                         then data[Dist(r.readPos, k, cap) - r.size] else r.buf[k]
    {
      if k < second {
        assert buf'[k] == data[first + k];
      } else if k < r.writePos {
        assert buf'[k] == r.buf[k];
      } else {
        assert buf'[k] == data[k - r.writePos];
      }
    }
  }

  /** `advanceWritePos(len)`: makes min(len, free space) bytes after the
      waiting ones wait too, whatever the buffer holds there. */
  function AdvanceWritePos(r: Ring, len: nat): (r': Ring)
    requires Valid(r)
    ensures Valid(r') && r'.buf == r.buf
    ensures var n := Min(len, |r.buf| - r.size);
      Contents(r') == Contents(r) + seq(n, j requires 0 <= j < n => r.buf[Wrap(r.writePos + j, |r.buf|)])
  {
    var cap := |r.buf|;
    var n := Min(len, cap - r.size);
    var r' := r.(writePos := (r.writePos + n) % cap, size := r.size + n);
    var tail := seq(n, j requires 0 <= j < n => r.buf[Wrap(r.writePos + j, cap)]);
    TailStored(r, n, tail);
    ProduceSpec(r, tail, n, r');
    r'
  }

  /** The free bytes right behind the waiting ones are already "stored". */
  lemma TailStored(r: Ring, n: nat, tail: seq<Byte>)
    requires Valid(r) && r.size + n <= |r.buf|
    requires tail == seq(n, j requires 0 <= j < n => r.buf[Wrap(r.writePos + j, |r.buf|)])
    ensures Stored(r, tail, n, r.buf)
  {
    var cap := |r.buf|;
    forall k | 0 <= k < cap && r.size <= Dist(r.readPos, k, cap) < r.size + n
      ensures r.buf[k] == tail[Dist(r.readPos, k, cap) - r.size]
    {
      var j := Dist(r.readPos, k, cap) - r.size;
      WrapShift(r.readPos + r.size, j, cap);
      assert r.readPos + r.size + j == r.readPos + Dist(r.readPos, k, cap);
    }
  }

  /** `getWriteBuffer(availableSpace)`: the offset of the contiguous free run
      that starts at the write position (`None` for the null pointer when the
      buffer is full) and the run's length. */
  function GetWriteBuffer(r: Ring): (res: (Option<nat>, nat))
    requires Valid(r)
    ensures r.size == |r.buf| ==> res == (None, 0)
    ensures r.size < |r.buf| ==> res.0 == Some(r.writePos) && 0 < res.1 <= |r.buf| - r.size
    ensures res.1 == Min(|r.buf| - r.size, |r.buf| - r.writePos)
    ensures r.writePos + res.1 <= |r.buf|
  {
    if r.size == |r.buf| then (None, 0)
    else if r.writePos >= r.readPos then (Some(r.writePos), |r.buf| - r.writePos)
    else (Some(r.writePos), r.readPos - r.writePos)
  }

  /** `clear()`: both positions and the count go back to 0. */
  function Clear(r: Ring): (r': Ring)
    requires Valid(r)
    ensures Valid(r') && r'.buf == r.buf && r'.readPos == 0 && r'.writePos == 0
    ensures Contents(r') == []
  {
    r.(readPos := 0, writePos := 0, size := 0)
  }

  /** The caller filling the start of the write window through the pointer
      `getWriteBuffer` returned. */
  function Fill(r: Ring, data: seq<Byte>): (r': Ring)
    requires Valid(r) && |data| <= GetWriteBuffer(r).1
    ensures Valid(r')
  {
    r.(buf := r.buf[..r.writePos] + data + r.buf[r.writePos + |data|..])
  }

  /** Bytes go out in the order they went in: what `read` returns after a
      `write` is the old waiting bytes followed by the part of `data` that
      fit, and the buffer is then empty. */
  lemma WriteThenRead(r: Ring, data: seq<Byte>)
    requires Valid(r)
    ensures var (r1, n) := Write(r, data);
      var (r2, out) := Read(r1, r.size + n);
      r.size + n == 0 || (out == Contents(r) + data[..n] && Contents(r2) == [])
  {
    var (r1, n) := Write(r, data);
    if r.size + n > 0 {
      var (r2, out) := Read(r1, r.size + n);
      assert |out| == r.size + n;
    }
  }

  /** The zero-copy write path matches `write`: filling the write window
      and advancing the write position by the bytes filled has the effect
      of writing them. */
  lemma FillThenAdvance(r: Ring, data: seq<Byte>)
    requires Valid(r) && |data| <= GetWriteBuffer(r).1
    ensures Contents(AdvanceWritePos(Fill(r, data), |data|)) == Contents(r) + data
    ensures Contents(AdvanceWritePos(Fill(r, data), |data|)) == Contents(Write(r, data).0)
  {
    FillAdvanceContents(r, data, Fill(r, data));
    WriteWithinWindow(r, data);
  }

  lemma FillAdvanceContents(r: Ring, data: seq<Byte>, f: Ring)
    requires Valid(r) && |data| <= GetWriteBuffer(r).1
    requires f == Fill(r, data)
    ensures Contents(AdvanceWritePos(f, |data|)) == Contents(r) + data
  {
    var n := |data|;
    FillKeepsWaiting(r, data);
    var tail := seq(n, j requires 0 <= j < n => f.buf[Wrap(f.writePos + j, |f.buf|)]);
    assert tail == data;
    assert Min(n, |f.buf| - f.size) == n;
  }

  /** Data that fits the write window is written whole. */
  lemma WriteWithinWindow(r: Ring, data: seq<Byte>)
    requires Valid(r) && |data| <= GetWriteBuffer(r).1
    ensures Contents(Write(r, data).0) == Contents(r) + data
  {
    assert data[..Write(r, data).1] == data;
  }

  /** Filling the write window leaves the waiting bytes alone and puts
      `data` right behind them. */
  lemma FillKeepsWaiting(r: Ring, data: seq<Byte>)
    requires Valid(r) && |data| <= GetWriteBuffer(r).1
    ensures Contents(Fill(r, data)) == Contents(r)
    ensures forall j | 0 <= j < |data| :: Fill(r, data).buf[Wrap(r.writePos + j, |r.buf|)] == data[j]
  {
    var cap := |r.buf|;
    var f := Fill(r, data);
    var n := |data|;
    StoredOnePiece(r, data, n, f.buf);
    StoredKeepsWaiting(r, data, n, f);
    StoredBehind(r, data, n, f.buf);
  }

  /** The stored bytes follow the write position in order. */
  lemma StoredBehind(r: Ring, data: seq<Byte>, n: nat, buf': seq<Byte>)
    requires Valid(r) && n <= |data| && r.size + n <= |r.buf|
    requires Stored(r, data, n, buf')
    ensures forall j | 0 <= j < n :: buf'[Wrap(r.writePos + j, |r.buf|)] == data[j]
  {
    var cap := |r.buf|;
    forall j | 0 <= j < n
      ensures buf'[Wrap(r.writePos + j, cap)] == data[j]
    {
      WrapShift(r.readPos + r.size, j, cap);
      assert r.readPos + r.size + j == r.readPos + (r.size + j);
      DistWrap(r.readPos, r.size + j, cap);
    }
  }

  lemma StoredKeepsWaiting(r: Ring, data: seq<Byte>, n: nat, f: Ring)
    requires Valid(r) && n <= |data| && r.size + n <= |r.buf|
    requires Stored(r, data, n, f.buf)
    requires Valid(f) && f.readPos == r.readPos && f.size == r.size
    ensures Contents(f) == Contents(r)
  {
    forall i | 0 <= i < r.size
      ensures Contents(f)[i] == Contents(r)[i]
    {
      DistWrap(r.readPos, i, |r.buf|);
    }
  }

  /** The zero-copy read path matches `read`: the read window holds the
      oldest waiting bytes, and advancing past it has the effect of reading
      them. */
  lemma WindowThenAdvance(r: Ring)
    requires Valid(r)
    ensures var (at, count) := GetReadBuffer(r);
      && r.buf[r.readPos..r.readPos + count] == Read(r, count).1
      && Contents(AdvanceReadPos(r, count)) == Contents(Read(r, count).0)
  {
  }
}
