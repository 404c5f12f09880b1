/**
  The description of the streams: the sink writes it as one packet, the source checks it and takes it
  apart.
 */
module StspDescription {

  import Framing = StspFraming
  import opened Common
  import M = MediaTypes
  import opened StspWire
  import opened StspBuffers

  const STREAM_DESCRIPTION_SIZE: nat := 40   // two GUIDs, the stream id, the size of the attributes
  const DESCRIPTION_SIZE: nat := 44          // the number of streams and the first stream description
  const MAX_ATTRIBUTES: nat := 0x10000

  /** What the code asks of the media platform: the GUIDs, and how attributes become a blob and back. */
  datatype Platform = Platform(
    guid: M.Naming, encode: seq<M.Attribute> -> seq<byte>, decode: seq<byte> -> Option<seq<M.Attribute>>)

  /** A stream as both sides know it; the attributes are a blob. */
  datatype Stream = Stream(major: seq<byte>, sub: seq<byte>, id: uint32, attributes: seq<byte>)

  predicate WellFormed(s: Stream) {
    |s.major| == 16 && |s.sub| == 16 && |s.attributes| < 0x1_0000_0000
  }

  /** The fixed part of a stream description as it lies in the packet. */
  datatype Entry = Entry(major: seq<byte>, sub: seq<byte>, id: uint32, cbAttributesSize: uint32)

  function EncodeEntry(s: Stream): (b: seq<byte>)
    requires WellFormed(s)
    ensures |b| == STREAM_DESCRIPTION_SIZE
  {
    s.major + s.sub + PutLe32(s.id) + PutLe32(|s.attributes|)
  }

  function DecodeEntry(b: seq<byte>): Entry
    requires |b| >= STREAM_DESCRIPTION_SIZE
  {
    Entry(b[..16], b[16..32], Le32(b, 32), Le32(b, 36))
  }

  lemma DecodeEncodedEntry(s: Stream, rest: seq<byte>)
    requires WellFormed(s)
    ensures DecodeEntry(EncodeEntry(s) + rest) == Entry(s.major, s.sub, s.id, |s.attributes|)
  {
    var b := EncodeEntry(s) + rest;
    assert b[..16] == s.major && b[16..32] == s.sub;
    assert b[32..36] == PutLe32(s.id);
    assert b[36..40] == PutLe32(|s.attributes|);
    PutGet32(s.id, b, 32);
    PutGet32(|s.attributes|, b, 36);
  }

  function EncodeEntries(ss: seq<Stream>): (b: seq<byte>)
    requires forall i :: 0 <= i < |ss| ==> WellFormed(ss[i])
    ensures |b| == STREAM_DESCRIPTION_SIZE * |ss|
  {
    if ss == [] then [] else EncodeEntries(ss[..|ss| - 1]) + EncodeEntry(ss[|ss| - 1])
  }

  function Attributes(ss: seq<Stream>): seq<byte> {
    if ss == [] then [] else Attributes(ss[..|ss| - 1]) + ss[|ss| - 1].attributes
  }

  /** The payload of a description packet. */
  function Payload(ss: seq<Stream>): seq<byte>
    requires forall i :: 0 <= i < |ss| ==> WellFormed(ss[i])
    requires |ss| < 0x1_0000_0000
  {
    PutLe32(|ss|) + EncodeEntries(ss) + Attributes(ss)
  }

  function Wrap32(n: nat): uint32 {
    n % 0x1_0000_0000
  }

  lemma Wrap32Adds(a: nat, b: nat)
    ensures Wrap32(Wrap32(a) + b) == Wrap32(a + b)
  {
    var q := a / 0x1_0000_0000;
    assert a + b == Wrap32(a) + b + q * 0x1_0000_0000;
  }

  lemma FixedSize(n: nat)
    requires 4 + STREAM_DESCRIPTION_SIZE * n < 0x1_0000_0000
    ensures ConstantSize(n) == Wrap32(4 + STREAM_DESCRIPTION_SIZE * n)
  {
  }

  /** The size of the fixed part, in the 32-bit arithmetic of both sides. */
  function ConstantSize(n: uint32): uint32 {
    (DESCRIPTION_SIZE + (n - 1) % 0x1_0000_0000 * STREAM_DESCRIPTION_SIZE) % 0x1_0000_0000
  }

  // ---------------------------------------------------------------- the sink

  /** A media type as the sink holds it: video or audio, the subtype, and the attributes. */
  datatype MediaType = MediaType(video: bool, sub: M.Guid, attributes: seq<M.Attribute>)

  function Major(p: Platform, t: MediaType): M.Guid {
    p.guid(if t.video then M.Video else M.Audio)
  }

  /** The description of a stream of that type, if it may be described at all. */
  function Described(p: Platform, t: MediaType, id: uint32): Option<Stream> {
    if M.Describable(p.guid, Major(p, t), t.sub, t.attributes) then
      var kept := M.Kept(p.guid, M.DescriptorOf(p.guid, Major(p, t), t.sub).value, t.attributes);
      Some(Stream(Major(p, t), t.sub, id, p.encode(kept)))
    else None
  }

  method FillStreamDescription(p: Platform, t: MediaType, id: uint32) returns (hr: HResult, s: Stream)
    ensures match Described(p, t, id) {
              case Some(described) => hr == Ok && s == described
              case None => hr == InvalidMediaType
            }
  {
    s := Stream(Major(p, t), t.sub, id, []);
    var kept;
    hr, kept := M.FilterOutputMediaType(p.guid, Major(p, t), t.sub, t.attributes);
    if hr == Ok {
      s := s.(attributes := p.encode(kept));
    }
  }

  /**
    Builds the description packet: the header and the fixed descriptions in one buffer, the attribute
    blobs behind it.  The announced size grows with every blob, in 32 bits.
   */
  method SendDescription(ss: seq<Stream>) returns (packet: seq<byte>)
    requires forall i :: 0 <= i < |ss| ==> WellFormed(ss[i])
    requires HEADER_SIZE + 4 + STREAM_DESCRIPTION_SIZE * |ss| < 0x1_0000_0000
    ensures packet == EncodeHeader(Header(Wrap32(|Payload(ss)|), OP_SERVER_DESCRIPTION)) + Payload(ss)
  {
    hide PutLe32, EncodeEntry, EncodeEntries, Attributes, EncodeHeader, Wrap32, ConstantSize;
    BuildStart();
    FixedSize(|ss|);
    var dataSize: uint32 := ConstantSize(|ss|);
    var description := PutLe32(|ss|);
    var blobs := [];
    for i := 0 to |ss|
      invariant description == PutLe32(|ss|) + EncodeEntries(ss[..i])
      invariant blobs == Attributes(ss[..i])
      invariant dataSize == Wrap32(4 + STREAM_DESCRIPTION_SIZE * |ss| + |blobs|)
    {
      BuildStep(ss, i);
      description := description + EncodeEntry(ss[i]);
      Wrap32Adds(4 + STREAM_DESCRIPTION_SIZE * |ss| + |blobs|, |ss[i].attributes|);
      blobs := blobs + ss[i].attributes;
      dataSize := Wrap32(dataSize + |ss[i].attributes|);
    }
    assert ss[..|ss|] == ss;
    packet := EncodeHeader(Header(dataSize, OP_SERVER_DESCRIPTION)) + description + blobs;
  }

  lemma BuildStart()
    ensures EncodeEntries([]) == [] && Attributes([]) == []
  {
  }

  lemma BuildStep(ss: seq<Stream>, i: nat)
    requires (forall k :: 0 <= k < |ss| ==> WellFormed(ss[k])) && i < |ss|
    ensures EncodeEntries(ss[..i + 1]) == EncodeEntries(ss[..i]) + EncodeEntry(ss[i])
    ensures Attributes(ss[..i + 1]) == Attributes(ss[..i]) + ss[i].attributes
  {
    assert ss[..i + 1][..i] == ss[..i];
  }

  // ---------------------------------------------------------------- the source

  datatype Accepted = Accepted(streams: seq<Stream>) | Rejected(error: HResult)

  /** All checks of the source on a description payload, and the streams it announces. */
  function Accept(p: Platform, b: seq<byte>): Accepted {
    if |b| < DESCRIPTION_SIZE then Rejected(UnsupportedFormat)
    else
      var n := Le32(b, 0);
      var fixed := ConstantSize(n);
      if fixed < DESCRIPTION_SIZE || n == 0 || n > 2 || |b| < fixed then Rejected(UnsupportedFormat)
      else AcceptStreams(p, b, n)
  }

  /** The checks on the sizes of the attributes, and then the streams. */
  function AcceptStreams(p: Platform, b: seq<byte>, n: nat): Accepted
    requires 4 + STREAM_DESCRIPTION_SIZE * n <= |b|
  {
    var fixed, sizes := 4 + STREAM_DESCRIPTION_SIZE * n, AttributeSize(b, n);
    if sizes >= 0x1_0000_0000 || |b| != (fixed + sizes) % 0x1_0000_0000 || sizes > MAX_ATTRIBUTES then Rejected(UnsupportedFormat)
    else Create(p, b, 0, n, b[fixed..])
  }

  /** The entry of stream `i` in a payload. */
  function EntryAt(b: seq<byte>, i: nat): Entry
    requires 4 + STREAM_DESCRIPTION_SIZE * (i + 1) <= |b|
  {
    DecodeEntry(b[4 + STREAM_DESCRIPTION_SIZE * i..])
  }

  function AttributeSize(b: seq<byte>, n: nat): nat
    requires 4 + STREAM_DESCRIPTION_SIZE * n <= |b|
  {
    if n == 0 then 0 else AttributeSize(b, n - 1) + EntryAt(b, n - 1).cbAttributesSize
  }

  /** What a stream makes of its entry and its blob. */
  function Initialized(p: Platform, e: Entry, blob: seq<byte>): HResult {
    match p.decode(blob)
    case None => Fail
    case Some(attributes) => if M.Admitted(p.guid, e.major, e.sub, attributes) then Ok else InvalidMediaType
  }

  /** Creates the streams `i..n`; each takes its attributes from the front of `rest` and checks them. */
  function Create(p: Platform, b: seq<byte>, i: nat, n: nat, rest: seq<byte>): Accepted
    requires i <= n && 4 + STREAM_DESCRIPTION_SIZE * n <= |b|
    decreases n - i
  {
    if i == n then Accepted([])
    else
      var e := EntryAt(b, i);
      if |rest| < e.cbAttributesSize || e.cbAttributesSize == 0 then Rejected(UnsupportedFormat)
      else
        var blob := rest[..e.cbAttributesSize];
        var hr := Initialized(p, e, blob);
        if hr != Ok then Rejected(hr)
        else
          var later := Create(p, b, i + 1, n, rest[e.cbAttributesSize..]);
          if later.Rejected? then later else Accepted([Stream(e.major, e.sub, e.id, blob)] + later.streams)
  }

  /** The handler of a description packet, on the packet as it was received. */
  method ProcessServerDescription(p: Platform, state: SourceState, packet: BufferPacket)
    returns (hr: HResult, streams: seq<Stream>, after: SourceState)
    requires packet.Valid()
    modifies packet`buffers, packet`views, packet.owned
    ensures if state != Opening then hr == Unexpected && after == state
            else match Accept(p, old(packet.Bytes())) {
              case Accepted(ss) => hr == Ok && streams == ss && after == Stopped
              case Rejected(error) => hr == error && after == state
            }
  {
    hide Flatten, MediaBufferWrapper.Bytes, EndsWith, BufferPacket.Valid, Accept;
    streams, after := [], state;
    if state != Opening {
      hr := Unexpected;
      return;
    }
    hr, streams := ReadDescription(p, packet);
    if hr == Ok {
      after := Stopped;
    }
  }

  method ReadDescription(p: Platform, packet: BufferPacket) returns (hr: HResult, streams: seq<Stream>)
    requires packet.Valid()
    modifies packet`buffers, packet`views, packet.owned
    ensures match Accept(p, old(packet.Bytes())) {
              case Accepted(ss) => hr == Ok && streams == ss
              case Rejected(error) => hr == error != Ok
            }
  {
    hide Flatten, MediaBufferWrapper.Bytes, BufferPacket.Bytes, EndsWith, BufferPacket.Valid, Le32, AcceptStreams;
    ghost var b := packet.Bytes();
    streams := [];
    var total := packet.GetTotalLength();
    var n, description;
    hr, n, description := ReadConstantPart(packet, total);
    if hr == Ok {
      hr, streams := ProcessStreams(p, packet, description, n, total, b);
    }
  }

  /** The number of streams and the part of the payload whose size follows from it. */
  method ReadConstantPart(packet: BufferPacket, total: nat) returns (hr: HResult, n: nat, description: seq<byte>)
    requires packet.Valid() && total == |packet.Bytes()|
    modifies packet`buffers, packet`views, packet.owned
    ensures var b := old(packet.Bytes());
            if |b| < DESCRIPTION_SIZE || Le32(b, 0) == 0 || Le32(b, 0) > 2 || |b| < ConstantSize(Le32(b, 0)) then hr == UnsupportedFormat
            else
              && hr == Ok && n == Le32(b, 0) && description == b[..ConstantSize(n)]
              && packet.Valid() && packet.Bytes() == b[ConstantSize(n)..]
  {
    hide Flatten, MediaBufferWrapper.Bytes, BufferPacket.Bytes, EndsWith, BufferPacket.Valid, Le32;
    ghost var b := packet.Bytes();
    n, description := 0, [];
    if total < DESCRIPTION_SIZE {
      hr := UnsupportedFormat;
      return;
    }
    packet.OwnsBuffers();
    hr, description := packet.MoveLeft(DESCRIPTION_SIZE);
    n := Le32(description, 0);
    var fixed := ConstantSize(n);
    PrefixWord(b, description, 0);
    if fixed < DESCRIPTION_SIZE || n == 0 || n > 2 || total < fixed {
      hr := UnsupportedFormat;
      return;
    }
    var more;
    packet.OwnsBuffers();
    hr, more := packet.MoveLeft(fixed - DESCRIPTION_SIZE);
    MovedTwice(b, DESCRIPTION_SIZE, fixed);
    description := description + more;
  }

  lemma MovedTwice(b: seq<byte>, i: nat, j: nat)
    requires i <= j <= |b|
    ensures b[..i] + b[i..][..j - i] == b[..j] && b[i..][j - i..] == b[j..]
  {
  }

  method ProcessStreams(p: Platform, packet: BufferPacket, description: seq<byte>, n: nat, total: nat, ghost b: seq<byte>)
    returns (hr: HResult, streams: seq<Stream>)
    requires packet.Valid() && total == |b|
    requires 1 <= n <= 2 && |description| == 4 + STREAM_DESCRIPTION_SIZE * n <= |b|
    requires description == b[..|description|] && packet.Bytes() == b[|description|..]
    modifies packet`buffers, packet`views, packet.owned
    ensures match AcceptStreams(p, b, n) {
              case Accepted(ss) => hr == Ok && streams == ss
              case Rejected(error) => hr == error != Ok
            }
  {
    hide Flatten, MediaBufferWrapper.Bytes, EndsWith, BufferPacket.Valid, EntryAt, Create;
    streams := [];
    var sizes := 0;
    for i := 0 to n
      modifies {}
      invariant sizes == AttributeSize(b, i)
    {
      PrefixEntry(b, description, i);
      sizes := sizes + EntryAt(description, i).cbAttributesSize;
      if sizes >= 0x1_0000_0000 {
        SizesGrow(b, i + 1, n);
        return UnsupportedFormat, [];
      }
    }
    if total != (|description| + sizes) % 0x1_0000_0000 || sizes > MAX_ATTRIBUTES {
      return UnsupportedFormat, [];
    }
    hr, streams := CreateStreams(p, packet, description, n, b);
  }

  /** Creates a stream for every entry of the description, which takes its attributes from the packet. */
  method CreateStreams(p: Platform, packet: BufferPacket, description: seq<byte>, n: nat, ghost b: seq<byte>)
    returns (hr: HResult, streams: seq<Stream>)
    requires packet.Valid()
    requires |description| == 4 + STREAM_DESCRIPTION_SIZE * n && description <= b
    modifies packet`buffers, packet`views, packet.owned
    ensures match Create(p, b, 0, n, old(packet.Bytes())) {
              case Accepted(ss) => hr == Ok && streams == ss
              case Rejected(error) => hr == error != Ok
            }
  {
    hide Flatten, MediaBufferWrapper.Bytes, EndsWith, BufferPacket.Valid, EntryAt, AttributeSize, Initialized;
    streams := [];
    ghost var a := Create(p, b, 0, n, packet.Bytes());
    for i := 0 to n
      invariant packet.Valid() && packet.owned == old(packet.owned)
      invariant var rest := Create(p, b, i, n, packet.Bytes());
                if rest.Rejected? then a == rest else a == Accepted(streams + rest.streams)
    {
      PrefixEntry(b, description, i);
      var e := EntryAt(description, i);
      var left := packet.GetTotalLength();
      if left < e.cbAttributesSize || e.cbAttributesSize == 0 {
        return UnsupportedFormat, [];
      }
      var attributes;
      packet.OwnsBuffers();
      hr, attributes := packet.MoveLeft(e.cbAttributesSize);
      hr := InitializeStream(p, e, attributes);
      if hr != Ok {
        streams := [];
        return;
      }
      ghost var later := Create(p, b, i + 1, n, packet.Bytes());
      if later.Accepted? {
        ConcatAssoc(streams, [Stream(e.major, e.sub, e.id, attributes)], later.streams);
      }
      streams := streams + [Stream(e.major, e.sub, e.id, attributes)];
    }
    hr := Ok;
    assert streams + [] == streams;
  }

  /** The media type of a new stream, from the entry and the blob. */
  method InitializeStream(p: Platform, e: Entry, blob: seq<byte>) returns (hr: HResult)
    ensures hr == Initialized(p, e, blob)
  {
    var attributes := p.decode(blob);
    if attributes.None? {
      return Fail;
    }
    hr := M.ValidateInputMediaType(p.guid, e.major, e.sub, attributes.value);
  }

  lemma PrefixWord(b: seq<byte>, d: seq<byte>, i: nat)
    requires i + 4 <= |d| && d <= b
    ensures Le32(d, i) == Le32(b, i)
  {
  }

  lemma PrefixEntry(b: seq<byte>, d: seq<byte>, i: nat)
    requires 4 + STREAM_DESCRIPTION_SIZE * (i + 1) <= |d| && d <= b
    ensures EntryAt(d, i) == EntryAt(b, i)
  {
    hide Le32;
    var at := 4 + STREAM_DESCRIPTION_SIZE * i;
    var x, y := d[at..], b[at..];
    assert x <= y;
    assert x[..16] == y[..16] && x[16..32] == y[16..32];
    PrefixWord(y, x, 32);
    PrefixWord(y, x, 36);
  }

  lemma {:induction false} SizesGrow(b: seq<byte>, i: nat, n: nat)
    requires i <= n && 4 + STREAM_DESCRIPTION_SIZE * n <= |b|
    ensures AttributeSize(b, i) <= AttributeSize(b, n)
    decreases n - i
  {
    hide EntryAt;
    if i < n {
      SizesGrow(b, i, n - 1);
    }
  }

  // ---------------------------------------------------------------- both sides together

  ghost predicate AllWellFormed(ss: seq<Stream>) {
    forall i :: 0 <= i < |ss| ==> WellFormed(ss[i])
  }

  lemma {:induction false} EntriesInPlace(ss: seq<Stream>, tail: seq<byte>, i: nat)
    requires AllWellFormed(ss) && |ss| < 0x1_0000_0000 && i < |ss|
    ensures var s := ss[i];
            EntryAt(PutLe32(|ss|) + EncodeEntries(ss) + tail, i) == Entry(s.major, s.sub, s.id, |s.attributes|)
  {
    hide Le32, PutLe32;
    var head := PutLe32(|ss|);
    var b := head + EncodeEntries(ss) + tail;
    var before, after := EntriesSplit(ss, i);
    var at := 4 + STREAM_DESCRIPTION_SIZE * i;
    assert b[at..] == EncodeEntry(ss[i]) + (after + tail);
    DecodeEncodedEntry(ss[i], after + tail);
  }

  lemma {:induction false} EntriesSplit(ss: seq<Stream>, i: nat) returns (before: seq<byte>, after: seq<byte>)
    requires AllWellFormed(ss) && i < |ss|
    ensures EncodeEntries(ss) == before + EncodeEntry(ss[i]) + after && |before| == STREAM_DESCRIPTION_SIZE * i
    decreases |ss|
  {
    var n := |ss| - 1;
    if i == n {
      before, after := EncodeEntries(ss[..n]), [];
    } else {
      var x, y := EntriesSplit(ss[..n], i);
      before, after := x, y + EncodeEntry(ss[n]);
      assert x + EncodeEntry(ss[i]) + y + EncodeEntry(ss[n]) == x + EncodeEntry(ss[i]) + (y + EncodeEntry(ss[n]));
    }
  }

  lemma {:induction false} SizesInPlace(ss: seq<Stream>, n: nat)
    requires AllWellFormed(ss) && |ss| < 0x1_0000_0000 && n <= |ss|
    ensures AttributeSize(Payload(ss), n) == |Attributes(ss[..n])|
  {
    hide EntryAt, EncodeEntries, PutLe32;
    if n > 0 {
      EntriesInPlace(ss, Attributes(ss), n - 1);
      assert ss[..n][..n - 1] == ss[..n - 1];
      SizesInPlace(ss, n - 1);
    }
  }

  lemma AttributesSnoc(ss: seq<Stream>, i: nat)
    requires i < |ss|
    ensures Attributes(ss[..i + 1]) == Attributes(ss[..i]) + ss[i].attributes
  {
    assert ss[..i + 1][..i] == ss[..i];
  }

  /** A stream the source creates: its blob is not empty, can be read, and is allowed for its type. */
  predicate Admits(p: Platform, s: Stream) {
    && s.attributes != []
    && p.decode(s.attributes).Some?
    && M.Admitted(p.guid, s.major, s.sub, p.decode(s.attributes).value)
  }

  lemma {:induction false} CreateInPlace(p: Platform, ss: seq<Stream>, i: nat, n: nat, rest: seq<byte>)
    requires AllWellFormed(ss) && |ss| < 0x1_0000_0000 && i <= n == |ss|
    requires Attributes(ss) == Attributes(ss[..i]) + rest
    ensures var a := Create(p, Payload(ss), i, n, rest);
            if forall k :: i <= k < n ==> Admits(p, ss[k]) then a == Accepted(ss[i..]) else a.Rejected?
    decreases n - i
  {
    hide Le32, PutLe32, EntryAt, EncodeEntries, Attributes, M.Admitted;
    if i < n {
      EntriesInPlace(ss, Attributes(ss), i);
      AttributesPrefix(ss, i + 1);
      AttributesSnoc(ss, i);
      var a := ss[i].attributes;
      FrontOf(Attributes(ss[..i]), a, rest);
      assert rest[..|a|] == a && Attributes(ss) == Attributes(ss[..i + 1]) + rest[|a|..];
      CreateInPlace(p, ss, i + 1, n, rest[|a|..]);
      assert ss[i..] == [ss[i]] + ss[i + 1..];
    }
  }

  lemma FrontOf(x: seq<byte>, a: seq<byte>, rest: seq<byte>)
    requires x + a <= x + rest
    ensures a <= rest
  {
    assert (x + rest)[|x|..] == rest && (x + a)[|x|..] == a;
    assert (x + rest)[..|x| + |a|] == x + a;
    assert forall k :: 0 <= k < |a| ==> rest[k] == (x + rest)[|x| + k] == (x + a)[|x| + k] == a[k];
  }

  lemma {:induction false} AttributesPrefix(ss: seq<Stream>, i: nat)
    requires i <= |ss|
    ensures Attributes(ss[..i]) <= Attributes(ss)
    decreases |ss| - i
  {
    if i == |ss| {
      assert ss[..i] == ss;
    } else {
      assert ss[..i + 1][..i] == ss[..i];
      AttributesPrefix(ss, i + 1);
    }
  }

  /**
    The round trip, and exactly when it succeeds: the source gets back the streams the sink described if
    there are one or two of them, it admits each, and the blobs total at most 64 KiB; otherwise it refuses
    the packet.
   */
  lemma DescriptionRoundTrip(p: Platform, ss: seq<Stream>)
    requires AllWellFormed(ss) && |ss| < 0x1_0000_0000 && |Payload(ss)| < 0x1_0000_0000
    ensures var a := Accept(p, Payload(ss));
            if 1 <= |ss| <= 2 && |Attributes(ss)| <= 0x1_0000 && (forall k :: 0 <= k < |ss| ==> Admits(p, ss[k]))
            then a == Accepted(ss) else a.Rejected?
  {
    hide Le32, Payload, Create, AttributeSize, ConstantSize, Attributes, Admits;
    PayloadParts(ss);
    ConstantSizeIs(|ss|);
    if 1 <= |ss| <= 2 {
      SizesInPlace(ss, |ss|);
      assert ss[..|ss|] == ss && ss[..0] == [] && ss[0..] == ss;
      AttributesNone();
      assert Attributes(ss) == [] + Attributes(ss);
      CreateInPlace(p, ss, 0, |ss|, Attributes(ss));
    }
  }

  // ---------------------------------------------------------------- what is accepted was described

  lemma EntryBytes(b: seq<byte>, attributes: seq<byte>)
    requires |b| >= STREAM_DESCRIPTION_SIZE && |attributes| == DecodeEntry(b).cbAttributesSize
    ensures var e := DecodeEntry(b); var s := Stream(e.major, e.sub, e.id, attributes);
            WellFormed(s) && EncodeEntry(s) == b[..STREAM_DESCRIPTION_SIZE]
  {
    hide Le32, PutLe32;
    GetPut32(b, 32);
    GetPut32(b, 36);
    assert b[..40] == b[..16] + b[16..32] + b[32..36] + b[36..40];
  }

  lemma {:induction false} EntriesCons(s: Stream, ss: seq<Stream>)
    requires WellFormed(s) && AllWellFormed(ss)
    ensures AllWellFormed([s] + ss) && EncodeEntries([s] + ss) == EncodeEntry(s) + EncodeEntries(ss)
    ensures Attributes([s] + ss) == s.attributes + Attributes(ss)
    decreases |ss|
  {
    hide EncodeEntry;
    var all := [s] + ss;
    if ss == [] {
      assert all[..0] == [] && all == [s];
    } else {
      var n := |ss| - 1;
      EntriesCons(s, ss[..n]);
      assert all[..n + 1] == [s] + ss[..n] && all[n + 1] == ss[n];
      ConcatAssoc(EncodeEntry(s), EncodeEntries(ss[..n]), EncodeEntry(ss[n]));
      ConcatAssoc(s.attributes, Attributes(ss[..n]), ss[n].attributes);
    }
  }

  /** The streams that are created carry the bytes they were created from, and are admitted. */
  lemma {:induction false} CreatedFrom(p: Platform, b: seq<byte>, i: nat, n: nat, rest: seq<byte>)
    requires i <= n && 4 + STREAM_DESCRIPTION_SIZE * n <= |b| && Create(p, b, i, n, rest).Accepted?
    ensures var ss := Create(p, b, i, n, rest).streams;
            && |ss| == n - i && AllWellFormed(ss) && (forall k :: 0 <= k < |ss| ==> Admits(p, ss[k]))
            && EncodeEntries(ss) == b[4 + STREAM_DESCRIPTION_SIZE * i..4 + STREAM_DESCRIPTION_SIZE * n]
            && Attributes(ss) <= rest && AttributeSize(b, i) + |Attributes(ss)| == AttributeSize(b, n)
    decreases n - i
  {
    hide Le32, PutLe32, M.Admitted, EncodeEntry, EncodeEntries, Attributes, DecodeEntry, Create, Admits;
    if i == n {
      NothingCreated(p, b, n, rest);
    } else {
      var at, later, end := 4 + STREAM_DESCRIPTION_SIZE * i, 4 + STREAM_DESCRIPTION_SIZE * (i + 1), 4 + STREAM_DESCRIPTION_SIZE * n;
      var e := EntryAt(b, i);
      FirstCreated(p, b, i, n, rest);
      var blob, more := rest[..e.cbAttributesSize], rest[e.cbAttributesSize..];
      CreatedFrom(p, b, i + 1, n, more);
      var ss := Create(p, b, i + 1, n, more).streams;
      EntryBytes(b[at..], blob);
      EntriesCons(Stream(e.major, e.sub, e.id, blob), ss);
      NextPart(b, at, later, end);
      BlobBefore(rest, e.cbAttributesSize, Attributes(ss));
      assert AttributeSize(b, i + 1) == AttributeSize(b, i) + e.cbAttributesSize;
    }
  }

  lemma NothingCreated(p: Platform, b: seq<byte>, n: nat, rest: seq<byte>)
    requires 4 + STREAM_DESCRIPTION_SIZE * n <= |b|
    ensures Create(p, b, n, n, rest) == Accepted([]) && EncodeEntries([]) == [] && Attributes([]) == []
  {
  }

  lemma FirstCreated(p: Platform, b: seq<byte>, i: nat, n: nat, rest: seq<byte>)
    requires i < n && 4 + STREAM_DESCRIPTION_SIZE * n <= |b| && Create(p, b, i, n, rest).Accepted?
    ensures var e := EntryAt(b, i); var k := e.cbAttributesSize;
            && 0 < k <= |rest| && Create(p, b, i + 1, n, rest[k..]).Accepted?
            && Create(p, b, i, n, rest).streams
               == [Stream(e.major, e.sub, e.id, rest[..k])] + Create(p, b, i + 1, n, rest[k..]).streams
            && Admits(p, Stream(e.major, e.sub, e.id, rest[..k]))
  {
    hide EntryAt, M.Admitted;
  }

  lemma NextPart(b: seq<byte>, at: nat, later: nat, end: nat)
    requires at <= later <= end <= |b|
    ensures b[at..][..later - at] + b[later..end] == b[at..end]
  {
  }

  lemma BlobBefore(rest: seq<byte>, k: nat, more: seq<byte>)
    requires k <= |rest| && more <= rest[k..]
    ensures rest[..k] + more <= rest
  {
    assert rest == rest[..k] + rest[k..];
  }

  /**
    A payload is accepted exactly if it describes the streams that come out: a number of 1 or 2, the entries,
    the blobs and nothing else, every stream admitted and at most 64 KiB of blobs.
   */
  lemma AcceptedExactly(p: Platform, b: seq<byte>, ss: seq<Stream>)
    requires |b| < 0x1_0000_0000
    ensures Accept(p, b) == Accepted(ss) <==>
            && 1 <= |ss| <= 2 && AllWellFormed(ss) && (forall k :: 0 <= k < |ss| ==> Admits(p, ss[k]))
            && |Attributes(ss)| <= 0x1_0000 && b == Payload(ss)
  {
    hide Le32, PutLe32, Payload, Create, AttributeSize, Attributes, Admits, EncodeEntries;
    if 1 <= |ss| <= 2 && AllWellFormed(ss) && b == Payload(ss) {
      DescriptionRoundTrip(p, ss);
    }
    if Accept(p, b) == Accepted(ss) {
      var n := Le32(b, 0);
      ConstantSizeIs(n);
      AcceptedParts(p, b, n);
    }
  }

  lemma AcceptedParts(p: Platform, b: seq<byte>, n: nat)
    requires 1 <= n <= 2 && 4 + STREAM_DESCRIPTION_SIZE * n <= |b| < 0x1_0000_0000 && n == Le32(b, 0)
    requires AcceptStreams(p, b, n).Accepted?
    ensures var ss := AcceptStreams(p, b, n).streams;
            && |ss| == n && AllWellFormed(ss) && (forall k :: 0 <= k < |ss| ==> Admits(p, ss[k]))
            && |Attributes(ss)| <= 0x1_0000 && b == Payload(ss)
  {
    hide Le32, PutLe32, Create, Attributes, Admits, EncodeEntries;
    var fixed := 4 + STREAM_DESCRIPTION_SIZE * n;
    CreatedFrom(p, b, 0, n, b[fixed..]);
    var ss := Create(p, b, 0, n, b[fixed..]).streams;
    assert AttributeSize(b, 0) == 0 && |Attributes(ss)| == |b| - fixed;
    assert Attributes(ss) == b[fixed..];
    GetPut32(b, 0);
    assert b == b[0..4] + b[4..fixed] + b[fixed..];
  }

  /** The bytes of a description of one stream and of two. */
  lemma DescriptionBytes(s: Stream, t: Stream)
    requires WellFormed(s) && WellFormed(t)
    ensures Payload([s]) == [1, 0, 0, 0] + s.major + s.sub + PutLe32(s.id) + PutLe32(|s.attributes|) + s.attributes
    ensures Payload([s, t]) == [2, 0, 0, 0] + s.major + s.sub + PutLe32(s.id) + PutLe32(|s.attributes|)
                               + t.major + t.sub + PutLe32(t.id) + PutLe32(|t.attributes|) + s.attributes + t.attributes
  {
    hide PutLe32, EncodeEntry, EncodeEntries, Attributes;
    SmallNumbers();
    OneDescribed(s);
    EntriesCons(s, [t]);
    OneDescribed(t);
    assert [s] + [t] == [s, t];
    EntryParts(s);
    EntryParts(t);
    Ungrouped([1, 0, 0, 0], s.major, s.sub, PutLe32(s.id), PutLe32(|s.attributes|));
    Ungrouped([2, 0, 0, 0], s.major, s.sub, PutLe32(s.id), PutLe32(|s.attributes|));
    var head := [2, 0, 0, 0] + EncodeEntry(s);
    Ungrouped(head, t.major, t.sub, PutLe32(t.id), PutLe32(|t.attributes|));
    ConcatAssoc([2, 0, 0, 0], EncodeEntry(s), EncodeEntry(t));
    ConcatAssoc(head + EncodeEntry(t), s.attributes, t.attributes);
  }

  lemma OneDescribed(s: Stream)
    requires WellFormed(s)
    ensures EncodeEntries([s]) == EncodeEntry(s) && Attributes([s]) == s.attributes
  {
    hide EncodeEntry;
    assert [s][..0] == [];
    assert [] + EncodeEntry(s) == EncodeEntry(s) && [] + s.attributes == s.attributes;
  }

  lemma EntryParts(s: Stream)
    requires WellFormed(s)
    ensures EncodeEntry(s) == s.major + s.sub + PutLe32(s.id) + PutLe32(|s.attributes|)
  {
    hide PutLe32;
  }

  lemma Ungrouped(head: seq<byte>, a: seq<byte>, b: seq<byte>, c: seq<byte>, d: seq<byte>)
    ensures head + (a + b + c + d) == head + a + b + c + d
  {
  }

  lemma SmallNumbers()
    ensures PutLe32(1) == [1, 0, 0, 0] && PutLe32(2) == [2, 0, 0, 0]
  {
  }

  /** Reading a blob gives what was written, no blob is empty, and the GUIDs of the two kinds have their size. */
  ghost predicate Sound(p: Platform) {
    && (forall x :: p.decode(p.encode(x)) == Some(x) && p.encode(x) != [])
    && |p.guid(M.Video)| == 16 && |p.guid(M.Audio)| == 16
  }

  /** A type of H.264 video or AAC audio that the source would take is described as it is. */
  lemma AdmittedIsDescribed(p: Platform, video: bool, attributes: seq<M.Attribute>, id: uint32)
    requires var major := p.guid(if video then M.Video else M.Audio);
             M.Admitted(p.guid, major, p.guid(if video then M.H264 else M.Aac), attributes)
    ensures var major, sub := p.guid(if video then M.Video else M.Audio), p.guid(if video then M.H264 else M.Aac);
            Described(p, MediaType(video, sub, attributes), id) == Some(Stream(major, sub, id, p.encode(attributes)))
  {
    M.AdmittedIsUnfiltered(p.guid, p.guid(if video then M.Video else M.Audio), p.guid(if video then M.H264 else M.Aac), attributes);
  }

  /** Whatever the sink describes, the source admits. */
  lemma DescribedIsAdmitted(p: Platform, t: MediaType, id: uint32)
    requires Sound(p)
    ensures Described(p, t, id).Some? ==> Admits(p, Described(p, t, id).value)
  {
    hide M.Admitted, M.Kept;
    if Described(p, t, id).Some? {
      M.KeptIsAdmitted(p.guid, Major(p, t), t.sub, t.attributes);
      var kept := M.Kept(p.guid, M.DescriptorOf(p.guid, Major(p, t), t.sub).value, t.attributes);
      assert p.decode(p.encode(kept)) == Some(kept);
    }
  }

  /**
    From end to end: whatever media types the sink holds, if they can be described, the packet it builds for
    one or two streams passes every check of the source however it is cut into chunks on the way, and the
    source gets back the same streams.
   */
  lemma DescriptionArrives(p: Platform, types: seq<MediaType>, ids: seq<uint32>, ss: seq<Stream>, chunks: seq<seq<byte>>)
    requires Sound(p) && 1 <= |types| <= 2 && |ids| == |ss| == |types|
    requires forall k :: 0 <= k < |ss| ==> Described(p, types[k], ids[k]) == Some(ss[k])
    requires AllWellFormed(ss) && |Attributes(ss)| <= 0x1_0000
    requires Flatten(chunks) == EncodeHeader(Header(Wrap32(|Payload(ss)|), OP_SERVER_DESCRIPTION)) + Payload(ss)
    ensures var r := Framing.FeedAll(Framing.IDLE, chunks);
            && r.Parsed? && |r.frames| == 1 && r.frames[0].header.eOperation == OP_SERVER_DESCRIPTION
            && Accept(p, r.frames[0].payload) == Accepted(ss)
  {
    hide Payload, Accept, Framing.FeedAll, EncodeHeader, Attributes, Described, Admits;
    PayloadParts(ss);
    var f := Frame(Header(|Payload(ss)|, OP_SERVER_DESCRIPTION), Payload(ss));
    var fs := [f];
    assert Framing.Sendable(f);
    assert fs[1..] == [];
    assert Framing.EncodeAll(fs) + [] == Flatten(chunks);
    Framing.FramesDelivered(fs, [], chunks);
    forall k | 0 <= k < |ss|
      ensures Admits(p, ss[k])
    {
      DescribedIsAdmitted(p, types[k], ids[k]);
    }
    DescriptionRoundTrip(p, ss);
  }

  lemma AttributesNone()
    ensures Attributes([]) == []
  {
  }

  lemma PayloadParts(ss: seq<Stream>)
    requires AllWellFormed(ss) && |ss| < 0x1_0000_0000
    ensures var b := Payload(ss);
            && |b| == 4 + STREAM_DESCRIPTION_SIZE * |ss| + |Attributes(ss)|
            && Le32(b, 0) == |ss|
            && b[4 + STREAM_DESCRIPTION_SIZE * |ss|..] == Attributes(ss)
            && (|ss| == 0 ==> |b| == 4)
  {
    hide Le32, PutLe32, EncodeEntries;
    assert Payload(ss)[0..4] == PutLe32(|ss|);
    PutGet32(|ss|, Payload(ss), 0);
  }

  lemma ConstantSizeIs(n: uint32)
    ensures 1 <= n <= 2 ==> ConstantSize(n) == 4 + STREAM_DESCRIPTION_SIZE * n
  {
  }
}
