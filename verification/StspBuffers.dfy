/**
  The receive buffers: media buffers with a current length, wrappers that hide a prefix of one, and
  packets, which are lists of wrappers.  Cutting a buffer never copies: the parts share its memory.
 */
module StspBuffers {

  import opened Common
  import opened StspWire

  class MediaBuffer {
    const memory: array<byte>
    const start: nat
    const maxLength: nat
    var currentLength: nat

    ghost predicate Valid()
      reads this
    {
      start + maxLength <= memory.Length && currentLength <= maxLength
    }

    constructor Create(max: nat)
      ensures Valid() && fresh(memory) && start == 0 && maxLength == max && currentLength == 0
    {
      memory := new byte[max](_ => 0);
      start, maxLength, currentLength := 0, max, 0;
    }

    /** A buffer over a part of the valid data of another one. */
    constructor Window(inner: MediaBuffer, offset: nat, length: nat)
      requires inner.Valid() && offset + length <= inner.currentLength
      ensures Valid() && memory == inner.memory && start == inner.start + offset
      ensures maxLength == currentLength == length
    {
      memory := inner.memory;
      start, maxLength, currentLength := inner.start + offset, length, length;
    }
  }

  function Slice(m: seq<byte>, lo: nat, hi: nat): (s: seq<byte>)
    requires lo <= hi <= |m|
    ensures |s| == hi - lo
  {
    m[lo..hi]
  }

  lemma SliceSplit(m: seq<byte>, lo: nat, mid: nat, hi: nat)
    requires lo <= mid <= hi <= |m|
    ensures Slice(m, lo, hi) == Slice(m, lo, mid) + Slice(m, mid, hi)
    ensures Slice(m, mid, hi) == Slice(m, lo, hi)[mid - lo..]
  {
  }

  class MediaBufferWrapper {
    const buffer: MediaBuffer
    var offset: nat

    ghost predicate Valid()
      reads this, buffer
    {
      buffer.Valid() && offset <= buffer.currentLength
    }

    function Bytes(): seq<byte>
      reads this, buffer, buffer.memory
      requires Valid()
    {
      Slice(buffer.memory[..], buffer.start + offset, buffer.start + buffer.currentLength)
    }

    constructor (inner: MediaBuffer)
      requires inner.Valid()
      ensures Valid() && buffer == inner && offset == 0
    {
      buffer, offset := inner, 0;
    }

    function GetCurrentLength(): (length: nat)
      reads this, buffer, buffer.memory
      requires Valid()
      ensures length == |Bytes()|
    {
      if buffer.currentLength <= offset then 0 else buffer.currentLength - offset
    }

    method SetCurrentLength(length: nat) returns (hr: HResult)
      requires buffer.Valid()
      modifies this, buffer
      ensures buffer.Valid() && (hr == Ok || old(Valid()) ==> Valid())
      ensures offset == if old(offset) <= buffer.maxLength then old(offset) else buffer.maxLength
      ensures hr == if length <= buffer.maxLength - offset then Ok else InvalidArg
      ensures buffer.currentLength == if hr == Ok then offset + length else old(buffer.currentLength)
    {
      if offset > buffer.maxLength {
        offset := buffer.maxLength;
      }
      if length > buffer.maxLength - offset {
        hr := InvalidArg;
      } else {
        buffer.currentLength := length + offset;
        hr := Ok;
      }
    }

    method TrimLeft(size: nat) returns (hr: HResult)
      requires Valid()
      modifies this
      ensures Valid()
      ensures hr == if size <= |old(Bytes())| then Ok else InvalidArg
      ensures Bytes() == if hr == Ok then old(Bytes())[size..] else old(Bytes())
    {
      var length := GetCurrentLength();
      if length >= size {
        hide Slice;
        SliceSplit(buffer.memory[..], buffer.start + offset, buffer.start + offset + size, buffer.start + buffer.currentLength);
        offset := offset + size;
        hr := Ok;
      } else {
        hr := InvalidArg;
      }
    }

    /** Splits off the last `size` bytes as a buffer of their own; it refuses to take everything. */
    method TrimRight(size: nat) returns (hr: HResult, cut: MediaBufferWrapper?)
      requires Valid()
      modifies this, buffer
      ensures Valid() && offset == old(offset)
      ensures hr == if size < |old(Bytes())| then Ok else InvalidArg
      ensures hr != Ok ==> cut == null && Bytes() == old(Bytes())
      ensures hr == Ok ==> cut != null && fresh(cut) && fresh(cut.buffer) && cut.Valid() && cut.buffer.memory == buffer.memory
      ensures hr == Ok ==> old(Bytes()) == Bytes() + cut.Bytes() && |cut.Bytes()| == size
    {
      hide Slice;
      cut := null;
      var length := GetCurrentLength();
      if length <= size {
        return InvalidArg, null;
      }
      ghost var m, lo := buffer.memory[..], buffer.start + offset;
      SliceSplit(m, lo, lo + length - size, lo + length);
      var tail := new MediaBuffer.Window(buffer, offset + length - size, size);
      cut := new MediaBufferWrapper(tail);
      hr := SetCurrentLength(length - size);
      assert buffer.memory[..] == m;
    }
  }

  // ---------------------------------------------------------------- packets

  ghost predicate Separate(ws: seq<MediaBufferWrapper>) {
    forall i, j :: 0 <= i < j < |ws| ==> ws[i] != ws[j] && ws[i].buffer != ws[j].buffer
  }

  /** Where `CopyTo` begins to copy in a packet whose buffers have the lengths `ls`. */
  function CopyStart(ls: seq<nat>, start: nat): nat {
    if start == 0 || ls == [] then 0
    else if ls[0] < start then ls[0] + CopyStart(ls[1..], start - ls[0])
    else if ls[0] == start then 0
    else start
  }

  function Sum(ls: seq<nat>): nat {
    if ls == [] then 0 else ls[0] + Sum(ls[1..])
  }

  /** `start` is where one of the buffers ends. */
  ghost predicate Boundary(ls: seq<nat>, start: nat) {
    ls != [] && (ls[0] == start || (ls[0] < start && Boundary(ls[1..], start - ls[0])))
  }

  /** `CopyTo` copies from the requested position exactly when no buffer ends there. */
  lemma {:induction false} CopyStartExact(ls: seq<nat>, start: nat)
    requires 0 < start <= Sum(ls)
    ensures CopyStart(ls, start) == start <==> !Boundary(ls, start)
    decreases |ls|
  {
    if ls[0] < start {
      CopyStartExact(ls[1..], start - ls[0]);
    }
  }

  /**
    `dest` holds the bytes copied from position `from` on, and unless it is full the copying goes on
    with buffer `i`.
   */
  ghost predicate CopiedFrom(v: seq<seq<byte>>, i: nat, from: nat, size: nat, dest: seq<byte>) {
    var all := Flatten(v);
    && i <= |v| && |dest| <= size && from + |dest| <= |all|
    && dest == all[from..from + |dest|]
    && (|dest| < size ==> Flatten(v[i..]) == all[from + |dest|..])
  }

  /** The first loop of `CopyTo` before it reaches `start`. */
  ghost predicate Skipping(v: seq<seq<byte>>, i: nat, skipped: nat, start: nat) {
    && i <= |v| && skipped < start && skipped <= |Flatten(v)| && Flatten(v[i..]) == Flatten(v)[skipped..]
    && CopyStart(Lengths(v), start) == skipped + CopyStart(Lengths(v[i..]), start - skipped)
  }

  lemma CopyBegins(v: seq<seq<byte>>, start: nat, size: nat)
    ensures start == 0 ==> CopiedFrom(v, 0, CopyStart(Lengths(v), start), size, [])
    ensures start > 0 ==> Skipping(v, 0, 0, start)
  {
    assert v[0..] == v;
    assert start == 0 ==> Flatten(v)[0..0] == [];
  }

  /** A start behind the end of the packet: there is nothing to copy. */
  lemma CopySkippedAll(v: seq<seq<byte>>, i: nat, skipped: nat, start: nat, size: nat)
    requires i >= |v|
    ensures Skipping(v, i, skipped, start) ==> CopiedFrom(v, i, CopyStart(Lengths(v), start), size, [])
  {
  }

  lemma CopyEnds(v: seq<seq<byte>>, i: nat, from: nat, size: nat, dest: seq<byte>)
    requires CopiedFrom(v, i, from, size, dest) && (i == |v| || |dest| >= size)
    ensures from <= |Flatten(v)| && dest == Flatten(v)[from..from + Min(size, |Flatten(v)| - from)]
  {
  }

  lemma SkipStep(v: seq<seq<byte>>, i: nat, skipped: nat, start: nat)
    requires i < |v| && Skipping(v, i, skipped, start)
    ensures skipped + |v[i]| < start ==> Skipping(v, i + 1, skipped + |v[i]|, start)
    ensures skipped + |v[i]| == start ==> forall size :: CopiedFrom(v, i, CopyStart(Lengths(v), start), size, [])
    ensures skipped + |v[i]| > start ==> CopyStart(Lengths(v), start) == start
    ensures Flatten(v[i..]) == v[i] + Flatten(v[i + 1..])
  {
    FlattenAt(v, i);
    assert Lengths(v[i..])[1..] == Lengths(v[i + 1..]);
  }

  /** The partial copy out of the buffer that contains `start`. */
  lemma EnterStep(v: seq<seq<byte>>, i: nat, skipped: nat, start: nat, size: nat)
    requires i < |v| && Skipping(v, i, skipped, start) && skipped + |v[i]| > start
    ensures var b := start - skipped;
            CopiedFrom(v, i + 1, CopyStart(Lengths(v), start), size, v[i][b..b + Min(size, |v[i]| - b)])
  {
    hide Flatten;
    SkipStep(v, i, skipped, start);
    var b := start - skipped;
    PartBehind(Flatten(v), skipped, v[i], Flatten(v[i + 1..]), b, Min(size, |v[i]| - b));
  }

  /** A part of the string that stands at position `k`, and what is behind it. */
  lemma PartBehind(all: seq<byte>, k: nat, a: seq<byte>, rest: seq<byte>, b: nat, n: nat)
    requires k <= |all| && all[k..] == a + rest && b + n <= |a|
    ensures k + |a| <= |all| && all[k + b..k + b + n] == a[b..b + n]
    ensures b + n == |a| ==> all[k + b + n..] == rest
  {
    forall i | 0 <= i < |a|
      ensures all[k + i] == a[i]
    {
      assert all[k..][i] == (a + rest)[i];
    }
    forall i | 0 <= i < |rest|
      ensures all[k + |a| + i] == rest[i]
    {
      assert all[k..][|a| + i] == (a + rest)[|a| + i];
    }
    assert |all| == k + |a| + |rest|;
  }

  lemma CopyStep(v: seq<seq<byte>>, i: nat, from: nat, size: nat, dest: seq<byte>)
    requires i < |v| && CopiedFrom(v, i, from, size, dest) && |dest| < size
    ensures CopiedFrom(v, i + 1, from, size, dest + v[i][..Min(|v[i]|, size - |dest|)])
  {
    hide Flatten;
    FlattenAt(v, i);
    var all, at, n := Flatten(v), from + |dest|, Min(|v[i]|, size - |dest|);
    PartBehind(all, at, v[i], Flatten(v[i + 1..]), 0, n);
    assert all[from..at + n] == all[from..at] + all[at..at + n];
  }

  lemma FlattenFirst(v: seq<seq<byte>>, size: nat)
    requires v != [] && size <= |v[0]|
    ensures size <= |Flatten(v)| && Flatten(v[0 := v[0][size..]]) == Flatten(v)[size..]
  {
    assert v[0 := v[0][size..]][1..] == v[1..];
  }

  lemma FlattenLast(v: seq<seq<byte>>, a: seq<byte>, b: seq<byte>)
    requires v != [] && v[|v| - 1] == a + b
    ensures Flatten(v) == Flatten(v[|v| - 1 := a]) + b
  {
    hide Flatten;
    var n := |v| - 1;
    var t := v[n := a];
    FlattenAt(v, n);
    FlattenAt(t, n);
    assert v[..n + 1] == v && t[..n + 1] == t && t[..n] == v[..n];
    assert Flatten(v[..n]) + (a + b) == (Flatten(v[..n]) + a) + b;
  }

  lemma CutBehind(all: seq<byte>, k: nat, a: seq<byte>, b: seq<byte>)
    requires k <= |all| && all[k..] == a + b
    ensures k + |a| <= |all| && all[k + |a|..] == b
  {
    assert all[k + |a|..] == all[k..][|a|..];
  }

  lemma FlattenFront(v: seq<seq<byte>>)
    requires Flatten(v) != []
    ensures v != [] && Flatten(v) == v[0] + Flatten(v[1..])
  {
  }

  /**
    The buffers `ws`, which show `v`, end with `last`, and of its `n` bytes they kept all they could.
   */
  ghost predicate EndsWith(ws: seq<MediaBufferWrapper>, v: seq<seq<byte>>, last: MediaBufferWrapper?, n: nat) {
    ws != [] ==>
      && |ws| == |v|
      && last == ws[|ws| - 1]
      && |v[|v| - 1]| == Min(n, |Flatten(v)|)
  }

  lemma EndsWithItself(ws: seq<MediaBufferWrapper>, v: seq<seq<byte>>)
    requires |ws| == |v|
    ensures ws != [] ==> EndsWith(ws, v, ws[|ws| - 1], |v[|v| - 1]|)
  {
    if ws != [] {
      EndFits(v);
    }
  }

  /** The end stays when the buffers lose the first one or a part of it. */
  lemma EndStays(ws: seq<MediaBufferWrapper>, v: seq<seq<byte>>, t: seq<seq<byte>>, last: MediaBufferWrapper?, n: nat)
    requires ws != [] && |ws| == |v| && EndsWith(ws, v, last, n)
    ensures t == v[1..] ==> EndsWith(ws[1..], t, last, n)
    ensures |t| == |v| && t[1..] == v[1..] && |t[0]| <= |v[0]| ==> EndsWith(ws, t, last, n)
  {
    if t == v[1..] && t != [] {
      EndFits(t);
      assert t[|t| - 1] == v[|v| - 1];
    }
    if |t| == |v| && t[1..] == v[1..] && |t[0]| <= |v[0]| {
      if |t| == 1 {
        assert v[1..] == [] && t[1..] == [];
      } else {
        EndFits(t[1..]);
        assert t[|t| - 1] == t[1..][|t| - 2] == v[1..][|v| - 2] == v[|v| - 1];
      }
    }
  }

  lemma EndFits(v: seq<seq<byte>>)
    requires v != []
    ensures |v[|v| - 1]| <= |Flatten(v)|
  {
    FlattenAt(v, |v| - 1);
    assert v[..|v|] == v;
  }

  class BufferPacket {
    var buffers: seq<MediaBufferWrapper>

    /** What the buffers show, in order. */
    ghost var views: seq<seq<byte>>

    /** The wrappers and media buffers of this packet, and the memory they share with others. */
    ghost var owned: set<object>
    ghost var memories: set<object>

    ghost predicate Valid()
      reads this, owned, memories
    {
      && this !in owned
      && Separate(buffers)
      && |buffers| == |views|
      && forall i :: 0 <= i < |buffers| ==> Shows(buffers[i], views[i])
    }

    ghost predicate Shows(w: MediaBufferWrapper, v: seq<byte>)
      reads this, owned, memories
    {
      w in owned && w.buffer in owned && w.buffer.memory in memories && w.Valid() && w.Bytes() == v
    }

    ghost function Bytes(): seq<byte>
      reads this
    {
      Flatten(views)
    }

    constructor ()
      ensures Valid() && buffers == [] && Bytes() == [] && owned == {} && memories == {}
    {
      buffers, views, owned, memories := [], [], {}, {};
    }

    method AddBuffer(w: MediaBufferWrapper)
      requires Valid() && w.Valid() && Separate(buffers + [w])
      modifies this
      ensures Valid() && buffers == old(buffers) + [w] && views == old(views) + [w.Bytes()]
      ensures Bytes() == old(Bytes()) + w.Bytes()
      ensures owned == old(owned) + {w, w.buffer} && memories == old(memories) + {w.buffer.memory}
    {
      hide Flatten, MediaBufferWrapper.Bytes;
      buffers := buffers + [w];
      views := views + [w.Bytes()];
      owned := owned + {w, w.buffer};
      memories := memories + {w.buffer.memory};
      FlattenAt(views, |views| - 1);
      assert views[..|views| - 1] == old(views) && views[..|views|] == views;
    }

    method GetTotalLength() returns (length: nat)
      requires Valid()
      ensures Valid() && length == |Bytes()|
    {
      length := 0;
      assert views[0..] == views;
      for i := 0 to |buffers|
        invariant length + |Flatten(views[i..])| == |Bytes()|
      {
        FlattenAt(views, i);
        length := length + buffers[i].GetCurrentLength();
      }
    }

    /**
      Copies up to `size` bytes from position `start` of the packet.  With `start > 0` the code counts a
      buffer that ends exactly at `start` as skipped but does not step over it; `CopyStart` says where
      the copying really begins.
     */
    method CopyTo(start: nat, size: nat) returns (dest: seq<byte>)
      requires Valid()
      ensures Valid()
      ensures var from := CopyStart(Lengths(views), start);
              from <= |Bytes()| && dest == Bytes()[from..from + Min(size, |Bytes()| - from)]
    {
      hide CopiedFrom, Skipping, CopyStart, Flatten, MediaBufferWrapper.Bytes;
      dest := [];
      var i, skipped := 0, 0;
      ghost var from := CopyStart(Lengths(views), start);
      CopyBegins(views, start, size);
      while skipped < start && i < |buffers|
        invariant Valid() && i <= |buffers|
        invariant skipped < start ==> dest == [] && Skipping(views, i, skipped, start)
        invariant skipped >= start ==> CopiedFrom(views, i, from, size, dest)
      {
        SkipStep(views, i, skipped, start);
        var length := buffers[i].GetCurrentLength();
        if skipped + length <= start {
          skipped := skipped + length;
          if skipped == start {
            break;
          }
        } else {
          EnterStep(views, i, skipped, start, size);
          var begin := start - skipped;
          dest := buffers[i].Bytes()[begin..begin + Min(size, length - begin)];
          skipped := start;
        }
        i := i + 1;
      }
      if skipped < start {
        CopySkippedAll(views, i, skipped, start, size);
      }
      while i < |buffers| && |dest| < size
        invariant Valid() && i <= |buffers| && CopiedFrom(views, i, from, size, dest)
      {
        CopyStep(views, i, from, size, dest);
        dest := dest + buffers[i].Bytes()[..Min(buffers[i].GetCurrentLength(), size - |dest|)];
        i := i + 1;
      }
      CopyEnds(views, i, from, size, dest);
    }

    method MoveLeft(size: nat) returns (hr: HResult, dest: seq<byte>)
      requires Valid()
      modifies this`buffers, this`views, buffers
      ensures Valid()
      ensures hr == if size <= |old(Bytes())| then Ok else InvalidArg
      ensures hr == Ok ==> dest == old(Bytes())[..size] && Bytes() == old(Bytes())[size..]
      ensures hr != Ok ==> Bytes() == old(Bytes())
      ensures old(buffers) != [] && old(views) != [] ==>
                EndsWith(buffers, views, old(buffers[|buffers| - 1]), |old(views[|views| - 1])|)
    {
      hide Flatten, Valid, EndsWith;
      dest := CopyTo(0, size);
      if |dest| != size {
        AsMany();
        EndsWithItself(buffers, views);
        return InvalidArg, dest;
      }
      hr := TrimLeft(size);
    }

    lemma OwnsBuffers()
      requires Valid()
      ensures forall i :: 0 <= i < |buffers| ==> buffers[i] in owned && buffers[i].buffer in owned
    {
      assert forall i :: 0 <= i < |buffers| ==> Shows(buffers[i], views[i]);
    }

    lemma EndFacts(last: MediaBufferWrapper?, n: nat)
      requires Valid() && EndsWith(buffers, views, last, n) && Bytes() != []
      ensures buffers != [] && |buffers| == |views| && last == buffers[|buffers| - 1] && |views[|views| - 1]| == Min(n, |Bytes()|)
    {
    }

    /** Valid packets show as many strings as they have buffers. */
    lemma AsMany()
      requires Valid()
      ensures |buffers| == |views|
    {
    }

    method TrimLeft(size: nat) returns (hr: HResult)
      requires Valid()
      modifies this`buffers, this`views, buffers
      ensures Valid()
      ensures hr == if size <= |old(Bytes())| then Ok else InvalidArg
      ensures Bytes() == if hr == Ok then old(Bytes())[size..] else old(Bytes())
      ensures old(buffers) != [] && old(views) != [] ==>
                EndsWith(buffers, views, old(buffers[|buffers| - 1]), |old(views[|views| - 1])|)
    {
      hide Flatten, MediaBufferWrapper.Bytes, EndsWith;
      var total := GetTotalLength();
      if size > total {
        EndsWithItself(buffers, views);
        return InvalidArg;
      }
      hr := Ok;
      var skipped := 0;
      ghost var bytes, end, n := Bytes(), null, 0;
      EndsWithItself(buffers, views);
      if buffers != [] {
        end, n := buffers[|buffers| - 1], |views[|views| - 1]|;
      }
      while skipped < size
        invariant Valid() && 0 <= skipped <= size <= |bytes| && hr == Ok && Bytes() == bytes[skipped..]
        invariant forall w :: w in buffers ==> w in old(buffers)
        invariant old(buffers) != [] ==> EndsWith(buffers, views, end, n)
        decreases |buffers|
      {
        FlattenFront(views);
        assert buffers[0] in buffers;
        var length := buffers[0].GetCurrentLength();
        if skipped + length <= size {
          CutBehind(bytes, skipped, views[0], Flatten(views[1..]));
          PopFront(end, n);
          skipped := skipped + length;
        } else {
          hr := TrimFirst(size - skipped, end, n);
          assert bytes[skipped..][size - skipped..] == bytes[size..];
          break;
        }
      }
    }

    /** Cuts off the right end of the last buffer, and with it that of the packet. */
    method TrimLastRight(size: nat) returns (hr: HResult, cut: MediaBufferWrapper?)
      requires Valid() && buffers != []
      modifies this`views, buffers[|buffers| - 1], buffers[|buffers| - 1].buffer
      ensures Valid() && |views| == |old(views)| > 0
      ensures hr == if size < |old(views)[|old(views)| - 1]| then Ok else InvalidArg
      ensures hr == Ok ==> cut != null && fresh(cut) && fresh(cut.buffer) && cut.Valid()
      ensures hr == Ok ==> old(Bytes()) == Bytes() + cut.Bytes() && |cut.Bytes()| == size
    {
      hide Flatten, MediaBufferWrapper.Bytes;
      ghost var v := views;
      ghost var n := |v| - 1;
      var last := buffers[|buffers| - 1];
      assert Shows(last, v[n]);
      hr, cut := last.TrimRight(size);
      if hr == Ok {
        views := v[n := last.Bytes()];
        FlattenLast(v, last.Bytes(), cut.Bytes());
      }
      assert Shows(last, views[n]);
      assert forall i :: 0 <= i < n ==> Shows(buffers[i], v[i]);
    }

    method PopFront(ghost end: MediaBufferWrapper?, ghost n: nat)
      requires Valid() && buffers != [] && EndsWith(buffers, views, end, n)
      modifies this`buffers, this`views
      ensures Valid() && buffers == old(buffers[1..]) && |old(views)| > 0 && views == old(views[1..])
      ensures EndsWith(buffers, views, end, n)
    {
      hide Flatten, MediaBufferWrapper.Bytes, EndsWith;
      ghost var v := views;
      EndStays(buffers, v, v[1..], end, n);
      buffers, views := buffers[1..], views[1..];
      assert forall i :: 0 <= i < |buffers| ==> buffers[i] == old(buffers[i + 1]) && Shows(buffers[i], v[i + 1]);
    }

    /** Trims the first buffer, and with it the packet. */
    method TrimFirst(size: nat, ghost end: MediaBufferWrapper?, ghost n: nat) returns (hr: HResult)
      requires Valid() && buffers != [] && size <= |views[0]| && EndsWith(buffers, views, end, n)
      modifies this`views, buffers[0]
      ensures Valid() && hr == Ok && Bytes() == old(Bytes())[size..]
      ensures EndsWith(buffers, views, end, n)
    {
      hide Flatten, MediaBufferWrapper.Bytes, EndsWith;
      ghost var v := views;
      hr := buffers[0].TrimLeft(size);
      views := v[0 := v[0][size..]];
      assert forall i :: 0 < i < |buffers| ==> Shows(buffers[i], v[i]);
      FlattenFirst(v, size);
      EndStays(buffers, v, views, end, n);
    }
  }
}
