/**
  The growable circular byte buffer.  All writing operations are one circular write, seen from
  different ends; the theory of that write comes first, on plain sequences.
 */
module CircleBufs {

  import opened Common

  /** The `size` bytes from `start` on, going round at the end of `d`. */
  function Ring(d: seq<byte>, start: nat, size: nat): (r: seq<byte>)
    requires start + size <= |d| || (start <= |d| && size <= |d|)
    ensures |r| == size
  {
    if start + size <= |d| then d[start..start + size] else d[start..] + d[..start + size - |d|]
  }

  function Step(start: nat, k: nat, n: nat): nat {
    if start + k < n then start + k else start + k - n
  }

  function Overwrite(d: seq<byte>, at: nat, src: seq<byte>): (r: seq<byte>)
    requires at + |src| <= |d|
    ensures |r| == |d|
  {
    d[..at] + src + d[at + |src|..]
  }

  /** Writes `src` from position `at` on, going round at the end; `at` may be the end itself. */
  function Write(d: seq<byte>, at: nat, src: seq<byte>): (r: seq<byte>)
    requires at <= |d| && |src| <= |d|
    ensures |r| == |d|
  {
    if at + |src| <= |d| then Overwrite(d, at, src)
    else Overwrite(Overwrite(d, at, src[..|d| - at]), 0, src[|d| - at..])
  }

  lemma RingAt(d: seq<byte>, start: nat, size: nat, k: nat)
    requires start <= |d| && size <= |d| && k < size
    ensures Step(start, k, |d|) < |d| && Ring(d, start, size)[k] == d[Step(start, k, |d|)]
  {
  }

  lemma WriteAt(d: seq<byte>, at: nat, src: seq<byte>, i: nat)
    requires at <= |d| && |src| <= |d| && i < |src|
    ensures Write(d, at, src)[Step(at, i, |d|)] == src[i]
  {
    if at + |src| > |d| {
      var back := |d| - at;
      var first := Overwrite(d, at, src[..back]);
      if i < back {
        assert first[at + i] == src[i];
      } else {
        assert src[back..][i - back] == src[i];
      }
    }
  }

  /** Positions that the write does not reach keep their byte. */
  lemma WriteElsewhere(d: seq<byte>, at: nat, src: seq<byte>, i: nat)
    requires at <= |d| && |src| <= |d| && |src| <= i < |d|
    ensures Write(d, at, src)[Step(at, i, |d|)] == d[Step(at, i, |d|)]
  {
  }

  /** A write at offset `off` of the ring replaces exactly those bytes of it. */
  lemma RingAfterWrite(d: seq<byte>, start: nat, size: nat, off: nat, src: seq<byte>, at: nat)
    requires start < |d| && size <= |d| && off + |src| <= size && at <= |d|
    requires at == start + off || at == start + off - |d|
    ensures var r := Ring(d, start, size);
            Ring(Write(d, at, src), start, size) == r[..off] + src + r[off + |src|..]
  {
    hide Write;
    var n := |d|;
    var r, w := Ring(d, start, size), Write(d, at, src);
    var expected := r[..off] + src + r[off + |src|..];
    forall k | 0 <= k < size
      ensures Ring(w, start, size)[k] == expected[k]
    {
      RingAt(w, start, size, k);
      RingAt(d, start, size, k);
      if off <= k < off + |src| {
        WriteAt(d, at, src, k - off);
        assert Step(at, k - off, n) == Step(start, k, n);
      } else {
        var i := if k >= off then k - off else k - off + n;
        WriteElsewhere(d, at, src, i);
        assert Step(at, i, n) == Step(start, k, n);
      }
    }
  }

  /** A ring is a prefix of the longer rings from the same start. */
  lemma RingPrefix(d: seq<byte>, start: nat, size: nat, more: nat)
    requires start <= |d| && size <= more <= |d|
    ensures Ring(d, start, more)[..size] == Ring(d, start, size)
  {
    hide Ring;
    forall k | 0 <= k < size
      ensures Ring(d, start, more)[k] == Ring(d, start, size)[k]
    {
      RingAt(d, start, more, k);
      RingAt(d, start, size, k);
    }
    assert Ring(d, start, more)[..size] == Ring(d, start, size);
  }

  lemma RingStays(d: seq<byte>, e: seq<byte>, start: nat, size: nat)
    requires start + size <= |d| <= |e| && e[..|d|] == d
    ensures Ring(e, start, size) == Ring(d, start, size)
  {
    var x, y := e[start..start + size], d[start..start + size];
    forall i | 0 <= i < size
      ensures x[i] == y[i]
    {
      assert e[..|d|][start + i] == d[start + i];
    }
    assert x == y;
  }

  lemma RingParts(d: seq<byte>, start: nat, n: nat)
    requires start <= |d| && n <= |d|
    ensures Ring(d, start, n) == if start + n <= |d| then d[start..start + n] else d[start..] + d[..n - (|d| - start)]
  {
  }

  /** Moving the start forward drops a prefix. */
  lemma RingDrop(d: seq<byte>, start: nat, size: nat, n: nat, start': nat)
    requires start <= |d| && n <= size <= |d| && start' <= |d|
    requires start' == start + n || start' == start + n - |d|
    ensures Ring(d, start', size - n) == Ring(d, start, size)[n..]
  {
    hide Ring;
    forall k | 0 <= k < size - n
      ensures Ring(d, start', size - n)[k] == Ring(d, start, size)[n..][k]
    {
      RingAt(d, start', size - n, k);
      RingAt(d, start, size, n + k);
      assert Step(start', k, |d|) == Step(start, n + k, |d|);
    }
    assert Ring(d, start', size - n) == Ring(d, start, size)[n..];
  }

  /** The last `n` bytes of a ring, counted back from where it ends. */
  lemma RingBack(d: seq<byte>, start: nat, size: nat, end: nat, n: nat)
    requires start <= |d| && n <= size <= |d| && end <= |d|
    requires end == start + size || end == start + size - |d|
    requires n > 0 ==> end > 0
    ensures Ring(d, start, size)[size - n..]
            == if n == 0 then [] else if n <= end then d[end - n..end] else d[|d| - (n - end)..|d|] + d[..end]
  {
    hide Ring;
    if n > 0 {
      var from := if n <= end then end - n else |d| - (n - end);
      RingDrop(d, start, size, size - n, from);
      RingParts(d, from, n);
    }
  }

  /** Growing: the front segment of a wrapped ring moves to the new end. */
  lemma RingGrows(d: seq<byte>, e: seq<byte>, start: nat, size: nat)
    requires start < |d| && size <= |d| && start + size >= |d| && |d| <= |e|
    requires e[..start + size - |d|] == d[..start + size - |d|]
    requires e[start + |e| - |d|..] == d[start..]
    ensures Ring(e, start + |e| - |d|, size) == Ring(d, start, size)
  {
    var m := start + size - |d|;
    assert e[..m] == d[..m];
    assert Ring(d, start, size) == d[start..] + d[..m];
    assert Ring(e, start + |e| - |d|, size) == e[start + |e| - |d|..] + e[..m];
  }

  lemma KeepFront(r: seq<byte>, held: nat, src: seq<byte>)
    requires |r| == held + |src|
    ensures r[..held] + src + r[held + |src|..] == r[..held] + src
  {
  }

  lemma RingNothing(d: seq<byte>, e: seq<byte>, start: nat)
    requires start <= |d| == |e|
    ensures Ring(d, start, 0) == Ring(e, start, 0) == []
  {
  }

  function Zeros(n: nat): (z: seq<byte>)
    ensures |z| == n && forall i :: 0 <= i < n ==> z[i] == 0
  {
    seq(n, _ => 0)
  }

  /** The capacity after making room for `size` bytes: unchanged, doubled, or exactly as needed. */
  function Grown(capacity: nat, size: nat): nat {
    if size <= capacity then capacity else if size > capacity * 2 then size else capacity * 2
  }

  /** Whether making room for `size` bytes leaves no room for more. */
  predicate Fills(capacity: nat, size: nat) {
    size == capacity || size >= 2 * capacity
  }

  /** What a buffer is to its callers; `back` tells whether its last byte can be read. */
  datatype Deque = Deque(bytes: seq<byte>, capacity: nat, back: bool)

  function Append(m: Deque, src: seq<byte>): Deque {
    Deque(m.bytes + src, Grown(m.capacity, |m.bytes| + |src|), m.back || src != [])
  }

  function Prepend(m: Deque, src: seq<byte>): Deque {
    if src == [] then m
    else Deque(src + m.bytes, Grown(m.capacity, |src| + |m.bytes|), m.bytes != [] && m.back)
  }

  function Filled(m: Deque, size: nat): Deque {
    if size <= |m.bytes| then m else Append(m, Zeros(size - |m.bytes|))
  }

  /** Bytes written over a position, behind zeros if it lies behind the end. */
  function Placed(m: Deque, position: nat, src: seq<byte>): Deque {
    var e := Filled(m, position + |src|);
    e.(bytes := e.bytes[..position] + src + e.bytes[position + |src|..])
  }

  function Reserved(m: Deque, capacity: nat): Deque {
    if capacity <= m.capacity then m else m.(capacity := capacity)
  }

  function WithoutFront(m: Deque, n: nat): Deque
    requires n <= |m.bytes|
  {
    m.(bytes := m.bytes[n..], back := m.back || n == |m.bytes|)
  }

  function WithoutBack(m: Deque, n: nat): Deque
    requires n <= |m.bytes|
  {
    m.(bytes := m.bytes[..|m.bytes| - n], back := true)
  }

  /** A push of `n` bytes to the front after which the back is lost: nothing tells where the bytes end. */
  predicate Loses(m: Deque, n: nat) {
    n > 0 && !(m.bytes != [] && m.back) && Fills(m.capacity, n + |m.bytes|)
  }

  /** The copies of `Place`, whichever way they are cut, are one circular write. */
  lemma BackWrite(d: seq<byte>, at: nat, src: seq<byte>)
    requires at <= |d| && |src| <= |d|
    ensures at + |src| > |d| ==>
              var loop := |d| - at;
              Overwrite(Overwrite(d, at, src[..loop]), 0, src[loop..]) == Write(d, at, src)
    ensures at + |src| <= |d| ==> Overwrite(d, at, src) == Write(d, at, src)
  {
  }

  /** The two copies of `PushFront` are one circular write that ends where the buffer began. */
  lemma FrontWrite(d: seq<byte>, start: nat, src: seq<byte>)
    requires start <= |d| && |src| <= |d|
    ensures start < |src| ==>
              var back := |src| - start;
              Overwrite(if start > 0 then Overwrite(d, 0, src[back..]) else d, |d| - back, src[..back]) == Write(d, |d| - back, src)
    ensures start >= |src| ==> Overwrite(d, start - |src|, src) == Write(d, start - |src|, src)
  {
  }

  class CircleBuf {
    var data: array<byte>
    var size: nat
    var startPos: nat
    var endPos: nat
    var capacity: nat

    /** The positions fit the size; `endPos` may be the end of the memory or its beginning. */
    ghost predicate Shape()
      reads this
    {
      && capacity == data.Length && size <= capacity && endPos <= capacity
      && (size == 0 ==> startPos == 0 && endPos == 0)
      && (size > 0 ==> startPos < capacity && (endPos == startPos + size || endPos == startPos + size - capacity))
    }

    /** A full buffer that looks like an empty one: growing cannot tell where it ends. */
    ghost predicate Lost()
      reads this
    {
      size > 0 && startPos == 0 && endPos == 0
    }

    ghost predicate Valid()
      reads this
    {
      Shape() && !Lost()
    }

    /** The back can be read only if the end position lies behind the last byte. */
    ghost predicate BackReadable()
      reads this
    {
      size > 0 ==> endPos > 0
    }

    /** The bytes in the buffer, first to last. */
    ghost function Contents(): (c: seq<byte>)
      reads this, data
      requires startPos <= data.Length && size <= data.Length
      ensures |c| == size
    {
      Ring(data[..], startPos, size)
    }

    ghost function Now(): Deque
      reads this, data
      requires Valid()
    {
      Deque(Contents(), capacity, BackReadable())
    }

    constructor ()
      ensures Valid() && Now() == EMPTY && fresh(data)
    {
      data := new byte[0];
      size, startPos, endPos, capacity := 0, 0, 0, 0;
    }

    /** Copies `src` to position `at` of the memory. */
    method Copy(at: nat, src: seq<byte>)
      requires at + |src| <= data.Length
      modifies data
      ensures data[..] == Overwrite(old(data[..]), at, src)
    {
      forall i | 0 <= i < |src| {
        data[at + i] := src[i];
      }
    }

    /** A larger memory with the same beginning; what lies behind it is arbitrary. */
    method Reallocate(newCapacity: nat)
      requires capacity == data.Length <= newCapacity
      modifies this`data
      ensures fresh(data) && data.Length == newCapacity && data[..capacity] == old(data[..])
    {
      var larger := new byte[newCapacity];
      forall i | 0 <= i < capacity {
        larger[i] := data[i];
      }
      data := larger;
    }

    /** Moves the front segment of a wrapped buffer to the end of the grown memory. */
    method ReorderData(newCapacity: nat)
      requires capacity <= newCapacity == data.Length && startPos <= capacity
      modifies this`startPos, data
      ensures var moved := old(size > 0 && startPos > 0 && endPos <= startPos);
              && startPos == (if moved then old(startPos) + newCapacity - capacity else old(startPos))
              && (if moved then
                    && data[startPos..] == old(data[startPos..capacity])
                    && forall i :: 0 <= i < old(startPos) ==> data[i] == old(data[i])
                  else data[..] == old(data[..]))
    {
      if size == 0 || startPos == 0 || endPos > startPos {
        return;
      }
      var difference := newCapacity - capacity;
      forall i | startPos <= i < capacity {
        data[i + difference] := data[i];
      }
      startPos := startPos + difference;
    }

    /** Growing a buffer that holds `held` bytes; `size` may already announce more. */
    method Grow(newCapacity: nat, ghost held: nat)
      requires capacity == data.Length <= newCapacity && held <= size && held <= capacity && endPos <= capacity
      requires held == 0 ==> startPos == 0 && endPos == 0
      requires held > 0 ==> startPos < capacity && (endPos == startPos + held || endPos == startPos + held - capacity)
      modifies this`data, this`startPos, this`capacity
      ensures fresh(data) && capacity == data.Length == newCapacity
      ensures held == 0 || old(startPos) == 0 ==> startPos == old(startPos)
      ensures held > 0 ==> startPos < capacity
      ensures held > 0 && (old(startPos) > 0 || old(endPos) > 0) ==> endPos == startPos + held || endPos == startPos + held - capacity
      ensures Ring(data[..], startPos, held) == Ring(old(data[..]), old(startPos), held)
    {
      hide Ring;
      ghost var d := data[..];
      Reallocate(newCapacity);
      ghost var e := data[..];
      assert e[..capacity] == d;
      ReorderData(newCapacity);
      if held > 0 && old(startPos) > 0 && endPos <= old(startPos) {
        RingGrows(d, data[..], old(startPos), held);
      } else {
        RingStays(d, data[..], startPos, held);
      }
      capacity := newCapacity;
    }

    method EnsureCapacity(ghost held: nat)
      requires capacity == data.Length && held <= size && held <= capacity && endPos <= capacity
      requires held == 0 ==> startPos == 0 && endPos == 0
      requires held > 0 ==> startPos < capacity && (endPos == startPos + held || endPos == startPos + held - capacity)
      modifies this`data, this`startPos, this`capacity
      ensures (data == old(data) || fresh(data)) && size <= capacity == data.Length && capacity >= old(capacity)
      ensures capacity == Grown(old(capacity), size) && (size <= old(capacity) ==> startPos == old(startPos))
      ensures size <= old(capacity) ==> capacity == old(capacity)
      ensures old(capacity) < size <= 2 * old(capacity) ==> capacity == 2 * old(capacity)
      ensures size > 2 * old(capacity) ==> capacity == size
      ensures held == 0 || old(startPos) == 0 ==> startPos == old(startPos)
      ensures held > 0 ==> startPos < capacity
      ensures held > 0 && (old(startPos) > 0 || old(endPos) > 0) ==> endPos == startPos + held || endPos == startPos + held - capacity
      ensures Ring(data[..], startPos, held) == Ring(old(data[..]), old(startPos), held)
    {
      if size <= capacity {
        return;
      }
      var newCapacity := capacity * 2;
      if size > newCapacity {
        newCapacity := size;
      }
      Grow(newCapacity, held);
    }

    method Reserve(newCapacity: nat)
      requires Valid()
      modifies this
      ensures data == old(data) || fresh(data)
      ensures Valid() && Now() == Reserved(old(Now()), newCapacity)
      ensures Contents() == old(Contents()) && capacity == if newCapacity <= old(capacity) then old(capacity) else newCapacity
    {
      if newCapacity <= capacity {
        return;
      }
      Grow(newCapacity, size);
    }

    /** Copies `src` to the memory from `at` on, in two pieces if it reaches the end. */
    method CopyAround(at: nat, src: seq<byte>)
      requires at <= data.Length && |src| <= data.Length
      modifies data
      ensures data[..] == Write(old(data[..]), at, src)
    {
      if at + |src| > data.Length {
        var back := data.Length - at;
        Copy(at, src[..back]);
        Copy(0, src[back..]);
      } else {
        Copy(at, src);
      }
    }

    /** The common part of the operations that extend the buffer at its back. */
    method Extend(src: seq<byte>)
      requires Shape()
      modifies this, data
      ensures data == old(data) || fresh(data)
      ensures old(Valid()) ==> Valid() && Now() == Append(old(Now()), src)
      ensures startPos <= data.Length && size == old(size) + |src| <= data.Length
      ensures old(Lost()) ==> Contents()[..|src|] == src
    {
      hide Ring, Write, Overwrite, Grown;
      var newEndPos := endPos + |src|;
      ghost var held := size;
      size := size + |src|;
      EnsureCapacity(held);
      ghost var d := data[..];
      CopyAround(endPos, src);
      if old(Valid()) && size > 0 {
        RingAfterWrite(d, startPos, size, held, src, endPos);
        RingPrefix(d, startPos, held, size);
        KeepFront(Ring(d, startPos, size), held, src);
      } else if size > 0 {
        RingAfterWrite(d, 0, size, 0, src, 0);
      } else {
        RingNothing(d, data[..], startPos);
      }
      if newEndPos > capacity {
        newEndPos := newEndPos - capacity;
      }
      endPos := newEndPos;
    }

    method PushBack(src: seq<byte>)
      requires Shape()
      modifies this, data
      ensures data == old(data) || fresh(data)
      ensures old(Valid()) ==> Valid() && Now() == Append(old(Now()), src)
      ensures startPos <= data.Length && size == old(size) + |src| <= data.Length
      ensures old(Valid()) ==> Contents() == old(Contents()) + src
      ensures old(Lost()) ==> Contents()[..|src|] == src
    {
      Extend(src);
    }

    method PushBackZero(n: nat)
      requires Valid()
      modifies this, data
      ensures data == old(data) || fresh(data)
      ensures Valid() && Now() == Append(old(Now()), Zeros(n))
      ensures size == old(size) + n && Contents()[..old(size)] == old(Contents())
      ensures forall i :: old(size) <= i < size ==> Contents()[i] == 0
    {
      Extend(Zeros(n));
    }

    /** Enlarges the buffer to `newSize` bytes, the new ones zero; it never shrinks. */
    method Upsize(newSize: nat)
      requires Valid()
      modifies this, data
      ensures data == old(data) || fresh(data)
      ensures Valid() && Now() == Filled(old(Now()), newSize)
      ensures size == (if newSize <= old(size) then old(size) else newSize) && Contents()[..old(size)] == old(Contents())
      ensures forall i :: old(size) <= i < size ==> Contents()[i] == 0
    {
      if newSize <= size {
        return;
      }
      Extend(Zeros(newSize - size));
    }

    /** Moves the start back by `|src|` positions and writes `src` there. */
    method WriteFront(src: seq<byte>)
      requires capacity == data.Length && startPos <= capacity && |src| <= capacity
      modifies this`startPos, data
      ensures startPos <= capacity && data[..] == Write(old(data[..]), startPos, src)
      ensures startPos == if old(startPos) < |src| then old(startPos) + capacity - |src| else old(startPos) - |src|
    {
      hide Write, Overwrite;
      FrontWrite(data[..], startPos, src);
      if startPos < |src| {
        var back := |src| - startPos;
        if startPos > 0 {
          Copy(0, src[back..]);
        }
        startPos := capacity - back;
        Copy(startPos, src[..back]);
      } else {
        startPos := startPos - |src|;
        Copy(startPos, src);
      }
    }

    /** Extends the buffer at its front. */
    method PushFront(src: seq<byte>)
      requires Valid()
      modifies this, data
      ensures data == old(data) || fresh(data)
      ensures Shape() && Contents() == src + old(Contents())
      ensures Lost() <==> Loses(old(Now()), |src|)
      ensures !Lost() ==> Now() == Prepend(old(Now()), src)
    {
      hide Ring;
      ExtendFront(src);
    }

    /** Makes room and writes `src` in front of the bytes; the end position stays. */
    method ExtendFront(src: seq<byte>)
      requires Valid()
      modifies this, data
      ensures data == old(data) || fresh(data)
      ensures Shape() && Contents() == src + old(Contents())
      ensures endPos == old(endPos) && capacity == Grown(old(capacity), size) && (src == [] ==> startPos == old(startPos))
    {
      hide Ring, Write, Overwrite, Grown;
      ghost var held := size;
      size := size + |src|;
      EnsureCapacity(held);
      ghost var d, s0 := data[..], startPos;
      WriteFront(src);
      if size > 0 {
        RingAfterWrite(d, startPos, size, 0, src, startPos);
        RingDrop(d, startPos, size, |src|, s0);
      } else {
        RingNothing(d, data[..], startPos);
      }
    }

    method PushFrontZero(n: nat)
      requires Valid()
      modifies this, data
      ensures data == old(data) || fresh(data)
      ensures Shape() && Contents() == Zeros(n) + old(Contents())
      ensures size == n + old(size) && Contents()[n..] == old(Contents()) && forall i :: 0 <= i < n ==> Contents()[i] == 0
      ensures Lost() <==> Loses(old(Now()), n)
      ensures !Lost() ==> Now() == Prepend(old(Now()), Zeros(n))
    {
      PushFront(Zeros(n));
    }

    /** Overwrites `src` at `position`, after filling up with zeros if it reaches beyond the end. */
    method Place(position: nat, src: seq<byte>)
      requires Valid()
      modifies this, data
      ensures data == old(data) || fresh(data)
      ensures Valid() && Now() == Placed(old(Now()), position, src)
      ensures size == if position + |src| <= old(size) then old(size) else position + |src|
      ensures Contents()[position..position + |src|] == src
      ensures forall i :: 0 <= i < size && !(position <= i < position + |src|) ==>
                Contents()[i] == if i < old(size) then old(Contents())[i] else 0
    {
      hide Ring, Write, Overwrite, Grown;
      if position + |src| > size {
        Upsize(position + |src|);
      }
      ghost var d, at := data[..], if position + startPos >= capacity then position + startPos - capacity else position + startPos;
      WriteOver(position, src);
      if size > 0 {
        RingAfterWrite(d, startPos, size, position, src, at);
      } else {
        RingNothing(d, data[..], startPos);
      }
    }

    /** Writes `src` behind the first `position` bytes. */
    method WriteOver(position: nat, src: seq<byte>)
      requires Valid() && position + |src| <= size
      modifies data
      ensures var at := if position + startPos >= capacity then position + startPos - capacity else position + startPos;
              at <= data.Length && (size > 0 ==> data[..] == Write(old(data[..]), at, src))
    {
      hide Write, Overwrite;
      var at := position + startPos;
      if at >= capacity {
        at := at - capacity;
      }
      BackWrite(data[..], at, src);
      if at + |src| > capacity {
        var back := at + |src| - capacity;
        var loop := |src| - back;
        if back > 0 {
          Copy(at, src[..loop]);
        }
        Copy(0, src[loop..]);
      } else {
        Copy(at, src);
      }
    }

    method PeekFront(n: nat) returns (out: seq<byte>)
      requires Valid() && n <= size
      ensures out == Contents()[..n]
    {
      hide Ring;
      ghost var d := data[..];
      RingPrefix(d, startPos, n, size);
      RingParts(d, startPos, n);
      var startSize := capacity - startPos;
      if startSize < n {
        out := data[startPos..startPos + startSize] + data[..n - startSize];
      } else {
        out := data[startPos..startPos + n];
      }
    }

    method PeekBack(n: nat) returns (out: seq<byte>)
      requires Valid() && n <= size && (n > 0 ==> BackReadable())
      ensures out == Contents()[size - n..]
    {
      hide Ring;
      RingBack(data[..], startPos, size, endPos, n);
      var backSize := if endPos > 0 then endPos else capacity;
      if backSize < n {
        var frontSize := n - backSize;
        var at := capacity - frontSize;
        out := data[at..at + frontSize] + data[..backSize];
      } else {
        out := if n == 0 then [] else data[endPos - n..endPos];
      }
    }

    /** Takes the first `n` bytes; `wanted` tells whether the caller passed a buffer for them. */
    method PopFront(n: nat, wanted: bool) returns (out: seq<byte>)
      requires Valid() && n <= size
      modifies this
      ensures out == if wanted then old(Contents())[..n] else []
      ensures Valid() && data == old(data) && Now() == WithoutFront(old(Now()), n)
      ensures Contents() == old(Contents())[n..]
    {
      hide Ring;
      out := [];
      if wanted {
        out := PeekFront(n);
      }
      ghost var s0, size0 := startPos, size;
      DropFront(n);
      if size > 0 {
        RingDrop(data[..], s0, size0, n, startPos);
      }
    }

    method PopBack(n: nat, wanted: bool) returns (out: seq<byte>)
      requires Valid() && n <= size
      requires wanted && n > 0 ==> BackReadable()
      modifies this
      ensures out == if wanted then old(Contents())[old(size) - n..] else []
      ensures Valid() && data == old(data) && Now() == WithoutBack(old(Now()), n)
      ensures Contents() == old(Contents())[..old(size) - n]
    {
      hide Ring;
      out := [];
      if wanted {
        out := PeekBack(n);
      }
      ghost var size0 := size;
      DropBack(n);
      if size > 0 {
        RingPrefix(data[..], startPos, size, size0);
      }
    }

    /** The positions without the first `n` bytes. */
    method DropFront(n: nat)
      requires Valid() && n <= size
      modifies `size, `startPos, `endPos
      ensures Valid() && size == old(size) - n && (size > 0 ==> endPos == old(endPos))
      ensures size > 0 ==> startPos == old(startPos) + n || startPos == old(startPos) + n - capacity
    {
      size := size - n;
      if size == 0 {
        startPos, endPos := 0, 0;
        return;
      }
      startPos := startPos + n;
      if startPos >= capacity {
        startPos := startPos - capacity;
      }
    }

    /** The positions without the last `n` bytes. */
    method DropBack(n: nat)
      requires Valid() && n <= size
      modifies `size, `startPos, `endPos
      ensures Valid() && size == old(size) - n && BackReadable() && (size > 0 ==> startPos == old(startPos))
    {
      size := size - n;
      if size == 0 {
        startPos, endPos := 0, 0;
        return;
      }
      if endPos <= n {
        endPos := capacity - (n - endPos);
      } else {
        endPos := endPos - n;
      }
    }

    /** The position in memory of byte `idx`, if there is one. */
    method Data(idx: nat) returns (at: int)
      requires Valid()
      ensures if idx >= size then at == -1 else 0 <= at < data.Length && data[at] == Contents()[idx]
    {
      if idx >= size {
        return -1;
      }
      at := startPos + idx;
      if at >= capacity {
        at := at - capacity;
      }
    }
  }

  // ---------------------------------------------------------------- whole runs

  const EMPTY := Deque([], 0, true)

  datatype Op =
    | OpPushBack(src: seq<byte>)
    | OpPushFront(src: seq<byte>)
    | OpPushBackZero(n: nat)
    | OpPushFrontZero(n: nat)
    | OpPlace(position: nat, src: seq<byte>)
    | OpUpsize(size: nat)
    | OpReserve(capacity: nat)
    | OpPopFront(n: nat, wanted: bool)
    | OpPopBack(n: nat, wanted: bool)
    | OpPeekFront(n: nat)
    | OpPeekBack(n: nat)

  /** What the operation means for a plain sequence of bytes. */
  function Apply(m: Deque, op: Op): Deque
    requires Allowed(m, op)
  {
    match op
    case OpPushBack(src) => Append(m, src)
    case OpPushFront(src) => Prepend(m, src)
    case OpPushBackZero(n) => Append(m, Zeros(n))
    case OpPushFrontZero(n) => Prepend(m, Zeros(n))
    case OpPlace(position, src) => Placed(m, position, src)
    case OpUpsize(size) => Filled(m, size)
    case OpReserve(capacity) => Reserved(m, capacity)
    case OpPopFront(n, _) => WithoutFront(m, n)
    case OpPopBack(n, _) => WithoutBack(m, n)
    case OpPeekFront(_) => m
    case OpPeekBack(_) => m
  }

  function Output(m: Deque, op: Op): seq<byte>
    requires Allowed(m, op)
  {
    match op
    case OpPopFront(n, wanted) => if wanted then m.bytes[..n] else []
    case OpPopBack(n, wanted) => if wanted then m.bytes[|m.bytes| - n..] else []
    case OpPeekFront(n) => m.bytes[..n]
    case OpPeekBack(n) => m.bytes[|m.bytes| - n..]
    case _ => []
  }

  /**
    Pops and peeks stay within the buffer and read its back only if it can be read, and no push to the front
    loses the back.
   */
  predicate Allowed(m: Deque, op: Op) {
    match op
    case OpPushFront(src) => !Loses(m, |src|)
    case OpPushFrontZero(n) => !Loses(m, n)
    case OpPopFront(n, _) => n <= |m.bytes|
    case OpPopBack(n, wanted) => n <= |m.bytes| && (wanted && n > 0 ==> m.back)
    case OpPeekFront(n) => n <= |m.bytes|
    case OpPeekBack(n) => n <= |m.bytes| && (n > 0 ==> m.back)
    case _ => true
  }

  predicate AllAllowed(m: Deque, ops: seq<Op>)
    decreases |ops|
  {
    ops == [] || (Allowed(m, ops[0]) && AllAllowed(Apply(m, ops[0]), ops[1..]))
  }

  /** The final contents and everything that was popped or peeked at, in order. */
  function ApplyAll(m: Deque, ops: seq<Op>): (Deque, seq<seq<byte>>)
    requires AllAllowed(m, ops)
    decreases |ops|
  {
    if ops == [] then (m, [])
    else
      var (d, outs) := ApplyAll(Apply(m, ops[0]), ops[1..]);
      (d, [Output(m, ops[0])] + outs)
  }

  method Perform(cb: CircleBuf, op: Op) returns (out: seq<byte>)
    requires cb.Valid() && Allowed(cb.Now(), op)
    modifies cb, cb.data
    ensures cb.data == old(cb.data) || fresh(cb.data)
    ensures cb.Valid()
    ensures cb.Now() == Apply(old(cb.Now()), op) && out == Output(old(cb.Now()), op)
  {
    hide Ring, Zeros, Append, Prepend, Filled, Placed, Reserved, WithoutFront, WithoutBack, CircleBuf.Contents;
    out := [];
    match op {
      case OpPushBack(src) => cb.PushBack(src);
      case OpPushFront(src) => cb.PushFront(src);
      case OpPlace(position, src) => cb.Place(position, src);
      case OpUpsize(size) => cb.Upsize(size);
      case OpReserve(capacity) => cb.Reserve(capacity);
      case OpPopFront(n, wanted) => out := cb.PopFront(n, wanted);
      case OpPopBack(n, wanted) => out := cb.PopBack(n, wanted);
      case OpPushBackZero(n) => cb.PushBackZero(n);
      case OpPushFrontZero(n) => cb.PushFrontZero(n);
      case OpPeekFront(n) => out := cb.PeekFront(n);
      case OpPeekBack(n) => out := cb.PeekBack(n);
    }
  }

  /** Every allowed run of operations behaves like the same run on a plain sequence. */
  method Run(ops: seq<Op>) returns (cb: CircleBuf, outs: seq<seq<byte>>)
    requires AllAllowed(EMPTY, ops)
    ensures cb.Valid() && (cb.Now(), outs) == ApplyAll(EMPTY, ops)
  {
    hide Ring, Apply, Output, Allowed;
    cb := new CircleBuf();
    outs := [];
    assert ops[0..] == ops && [] + ApplyAll(EMPTY, ops).1 == ApplyAll(EMPTY, ops).1;
    for i := 0 to |ops|
      invariant fresh(cb) && fresh(cb.data) && cb.Valid()
      invariant AllAllowed(cb.Now(), ops[i..])
      invariant var (c, later) := ApplyAll(cb.Now(), ops[i..]); (c, outs + later) == ApplyAll(EMPTY, ops)
    {
      assert ops[i..][0] == ops[i] && ops[i..][1..] == ops[i + 1..];
      var out := Perform(cb, ops[i]);
      ghost var later := ApplyAll(cb.Now(), ops[i + 1..]).1;
      assert outs + ([out] + later) == (outs + [out]) + later;
      outs := outs + [out];
    }
    assert outs + [] == outs;
  }

  /**
    Pushing to the front of an empty buffer and then to its back: the bytes stand side by side, unless the
    first push fills the memory exactly or grows it to just what is needed. Then the second one overwrites.
   */
  method FrontThenBack(cb: CircleBuf, src: seq<byte>, more: seq<byte>)
    requires cb.Valid() && cb.size == 0 && src != []
    modifies cb, cb.data
    ensures cb.startPos <= cb.data.Length && cb.size == |src| + |more| <= cb.data.Length
    ensures if |src| == old(cb.capacity) || |src| >= 2 * old(cb.capacity) then cb.Contents()[..|more|] == more
            else cb.Valid() && cb.Contents() == src + more
  {
    hide Ring;
    ghost var nothing := cb.Contents();
    cb.PushFront(src);
    assert cb.Contents() == src + nothing == src;
    assert !cb.BackReadable();
    cb.PushBack(more);
  }
}
