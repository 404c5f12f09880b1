/**
  Framing of the received byte stream.  `Feed` is what one received chunk does to the parser, step by
  step as the source does it on its buffers; `Reference` frames the whole stream at once.
 */
module StspFraming {

  import opened Common
  import opened StspWire

  /** The parse state between chunks: the current header (operation 0: not read yet) and the bytes held. */
  datatype Parser = Parser(header: Header, pending: seq<byte>)

  const IDLE := Parser(Header(0, OP_UNKNOWN), [])

  /** The frames handed on, in order, and the parser afterwards or the error that stopped it. */
  datatype Result = Parsed(frames: seq<Frame>, parser: Parser) | Failed(frames: seq<Frame>, error: HResult)
  {
    function After(earlier: seq<Frame>): Result {
      this.(frames := earlier + frames)
    }
  }

  /** One pass over the packet after `chunk` was appended to it: peel off the header if it is there now. */
  function Feed(p: Parser, chunk: seq<byte>): (r: Result)
    ensures r.Failed? ==> r.error != Ok
    decreases |chunk|, 1
  {
    var total := p.pending + chunk;
    if p.header.eOperation != OP_UNKNOWN then FeedPayload(p.header, total, |chunk|)
    else if |total| >= HEADER_SIZE then FeedPayload(DecodeHeader(total), total[HEADER_SIZE..], |chunk|)
    else FeedPayload(p.header.(cbDataSize := MAX_PACKET_SIZE), total, |chunk|)
  }

  /** The rest of the pass: `rest` is what the packet holds behind the header, `last` the size of the last chunk. */
  function FeedPayload(header: Header, rest: seq<byte>, last: nat): (r: Result)
    ensures r.Failed? ==> r.error != Ok
    decreases last, 0
  {
    var size := header.cbDataSize;
    if Refused(header) then
      Failed([], UnsupportedFormat)
    else if |rest| < size then
      Parsed([], Parser(header, rest))
    else if |rest| > size && Min(last, |rest|) <= |rest| - size then
      // the surplus is not strictly inside the last buffer
      Failed([], InvalidArg)
    else
      var frame := Frame(header, rest[..size]);
      if !Supported(header.eOperation) then
        Failed([frame], UnsupportedFormat)
      else
        var next := Parser(header.(eOperation := OP_UNKNOWN), []);
        if |rest| == size then Parsed([frame], next) else Feed(next, rest[size..]).After([frame])
  }

  /** The chunks of a connection in the order of their arrival; an error ends the reception. */
  function FeedAll(p: Parser, chunks: seq<seq<byte>>): Result
    decreases |chunks|
  {
    if chunks == [] then Parsed([], p)
    else
      var r := Feed(p, chunks[0]);
      if r.Failed? then r else FeedAll(r.parser, chunks[1..]).After(r.frames)
  }

  lemma FailedIsNotOk(p: Parser, chunk: seq<byte>)
    ensures Feed(p, chunk).Failed? ==> Feed(p, chunk).error != Ok
  {
  }

  lemma NothingFed(p: Parser, chunks: seq<seq<byte>>)
    ensures FeedAll(p, chunks).After([]) == FeedAll(p, chunks)
    ensures chunks == [] ==> forall done :: FeedAll(p, chunks).After(done) == Parsed(done, p)
  {
    hide Feed;
    var r := FeedAll(p, chunks);
    assert [] + r.frames == r.frames;
    assert forall done: seq<Frame> :: done + [] == done;
  }

  lemma FeedNext(p: Parser, chunks: seq<seq<byte>>, done: seq<Frame>)
    requires chunks != []
    ensures var r := Feed(p, chunks[0]);
            FeedAll(p, chunks).After(done)
            == if r.Failed? then r.After(done) else FeedAll(r.parser, chunks[1..]).After(done + r.frames)
  {
    hide Feed;
    var r := Feed(p, chunks[0]);
    if r.Parsed? {
      ConcatAssoc(done, r.frames, FeedAll(r.parser, chunks[1..]).frames);
    }
  }

  // ---------------------------------------------------------------- the stream as a whole

  /** The frames of a stream and the incomplete rest, or the frames up to the first unacceptable header. */
  datatype Outcome = Complete(frames: seq<Frame>, tail: seq<byte>) | Rejected(frames: seq<Frame>)
  {
    function After(earlier: seq<Frame>): Outcome {
      this.(frames := earlier + frames)
    }
  }

  function Reference(s: seq<byte>): Outcome
    decreases |s|
  {
    if |s| < HEADER_SIZE then Complete([], s)
    else
      var h := DecodeHeader(s);
      if Refused(h) then Rejected([])
      else if |s| - HEADER_SIZE < h.cbDataSize then Complete([], s)
      else
        var end := HEADER_SIZE + h.cbDataSize;
        var frame := Frame(h, s[HEADER_SIZE..end]);
        if !Supported(h.eOperation) then Rejected([frame]) else Reference(s[end..]).After([frame])
  }

  /** The rest of the stream behind the first frame, if there is a next frame to look at. */
  ghost predicate Continues(s: seq<byte>) {
    && |s| >= HEADER_SIZE
    && var h := DecodeHeader(s);
       !Refused(h) && |s| - HEADER_SIZE >= h.cbDataSize && Supported(h.eOperation)
  }

  ghost function Behind(s: seq<byte>): seq<byte>
    requires Continues(s)
  {
    s[HEADER_SIZE + DecodeHeader(s).cbDataSize..]
  }

  /**
    No acceptable header that announces a payload carries operation 0, which the receiver also uses for "no
    header yet".
   */
  ghost predicate Named(s: seq<byte>)
    decreases |s|
  {
    && !Forgotten(s)
    && (Continues(s) ==> Named(Behind(s)))
  }

  /** The header at the front is one that the receiver forgets unless the payload comes with it. */
  ghost predicate Forgotten(s: seq<byte>) {
    && |s| >= HEADER_SIZE
    && var h := DecodeHeader(s);
       !Refused(h) && h.cbDataSize > 0 && h.eOperation == OP_UNKNOWN
  }

  /** An acceptable header that announces an empty payload is the last thing of the stream. */
  ghost predicate Tame(s: seq<byte>)
    decreases |s|
  {
    && (|s| > HEADER_SIZE && !Refused(DecodeHeader(s)) ==> DecodeHeader(s).cbDataSize > 0)
    && (Continues(s) ==> Tame(Behind(s)))
  }

  /** What is left to frame in a parse state. */
  function Remaining(p: Parser): seq<byte>
    requires Encodable(p.header)
  {
    if p.header.eOperation == OP_UNKNOWN then p.pending else EncodeHeader(p.header) + p.pending
  }

  ghost predicate Agrees(r: Result, o: Outcome) {
    && r.frames == o.frames
    && (r.Parsed? <==> o.Complete?)
    && (r.Parsed? ==> Encodable(r.parser.header) && Remaining(r.parser) == o.tail)
    && (r.Failed? ==> r.error == UnsupportedFormat)
  }

  /** Between chunks the parser holds less than a header, or a header and less than its payload. */
  ghost predicate Waiting(p: Parser) {
    if p.header.eOperation == OP_UNKNOWN then |p.pending| < HEADER_SIZE
    else Encodable(p.header) && !Refused(p.header) && |p.pending| < p.header.cbDataSize
  }

  // ---------------------------------------------------------------- one chunk

  lemma {:induction false} FeedAgrees(p: Parser, chunk: seq<byte>)
    requires Waiting(p) && Named(Remaining(p) + chunk) && Tame(Remaining(p) + chunk)
    ensures Agrees(Feed(p, chunk), Reference(Remaining(p) + chunk))
    ensures Feed(p, chunk).Parsed? ==> Waiting(Feed(p, chunk).parser)
    decreases |chunk|, 1
  {
    hide DecodeHeader, EncodeHeader, FeedPayload, Named, Tame, Reference;
    var s := Remaining(p) + chunk;
    var total := p.pending + chunk;
    if p.header.eOperation != OP_UNKNOWN {
      assert s == EncodeHeader(p.header) + total;
      DecodeEncoded(p.header, total);
      assert s[HEADER_SIZE..] == total;
      PayloadAgrees(s, |chunk|);
    } else if |total| >= HEADER_SIZE {
      PayloadAgrees(s, |chunk|);
    } else {
      ShortFeed(p, chunk);
    }
  }

  lemma ShortFeed(p: Parser, chunk: seq<byte>)
    requires p.header.eOperation == OP_UNKNOWN && |p.pending + chunk| < HEADER_SIZE
    ensures Agrees(Feed(p, chunk), Reference(p.pending + chunk)) && Feed(p, chunk).Parsed? && Waiting(Feed(p, chunk).parser)
  {
  }

  lemma {:induction false} PayloadAgrees(s: seq<byte>, last: nat)
    requires |s| >= HEADER_SIZE && Named(s) && Tame(s)
    requires !Refused(DecodeHeader(s)) && DecodeHeader(s).cbDataSize < |s| - HEADER_SIZE ==>
               |s| - HEADER_SIZE - DecodeHeader(s).cbDataSize < last
    ensures var r := FeedPayload(DecodeHeader(s), s[HEADER_SIZE..], last);
            Agrees(r, Reference(s)) && (r.Parsed? ==> Waiting(r.parser))
    decreases last, 0
  {
    hide DecodeHeader, EncodeHeader, Feed;
    EncodeDecoded(s);
    var h := DecodeHeader(s);
    var rest := s[HEADER_SIZE..];
    if Refused(h) {
    } else if |rest| < h.cbDataSize {
      assert s == EncodeHeader(h) + rest;
    } else {
      assert s[HEADER_SIZE..HEADER_SIZE + h.cbDataSize] == rest[..h.cbDataSize];
      if Supported(h.eOperation) {
        var next := Parser(h.(eOperation := OP_UNKNOWN), []);
        assert s[HEADER_SIZE + h.cbDataSize..] == rest[h.cbDataSize..];
        if |rest| > h.cbDataSize {
          assert Remaining(next) + rest[h.cbDataSize..] == Behind(s);
          FeedAgrees(next, rest[h.cbDataSize..]);
        }
      }
    }
  }

  // ---------------------------------------------------------------- any number of chunks

  /** Framing more of the stream continues where framing a prefix of it stopped. */
  lemma {:induction false} ReferenceResumes(s: seq<byte>, more: seq<byte>)
    ensures Reference(s + more) ==
            match Reference(s) {
              case Complete(frames, tail) => Reference(tail + more).After(frames)
              case Rejected(_) => Reference(s)
            }
    decreases |s|
  {
    hide DecodeHeader;
    if |s| < HEADER_SIZE {
      AfterNothing(Reference(s + more));
      return;
    }
    HeaderOfPrefix(s, more);
    var h := DecodeHeader(s);
    var end := HEADER_SIZE + h.cbDataSize;
    if Refused(h) {
    } else if |s| < end {
      AfterNothing(Reference(s + more));
    } else {
      assert (s + more)[HEADER_SIZE..end] == s[HEADER_SIZE..end];
      if Supported(h.eOperation) {
        var frame := Frame(h, s[HEADER_SIZE..end]);
        assert (s + more)[end..] == s[end..] + more;
        ReferenceResumes(s[end..], more);
        if Reference(s[end..]).Complete? {
          AfterTwice(Reference(Reference(s[end..]).tail + more), [frame], Reference(s[end..]).frames);
        }
      }
    }
  }

  lemma AfterNothing(o: Outcome)
    ensures o.After([]) == o
  {
    assert [] + o.frames == o.frames;
  }

  lemma AfterTwice(o: Outcome, a: seq<Frame>, b: seq<Frame>)
    ensures o.After(b).After(a) == o.After(a + b)
  {
    assert a + (b + o.frames) == (a + b) + o.frames;
  }

  lemma HeaderOfPrefix(s: seq<byte>, more: seq<byte>)
    requires |s| >= HEADER_SIZE
    ensures DecodeHeader(s + more) == DecodeHeader(s)
  {
  }

  /** The conditions on a stream pass to its prefixes and to what remains after framing a prefix. */
  lemma {:induction false} ConditionsResume(s: seq<byte>, more: seq<byte>)
    requires Named(s + more) && Tame(s + more)
    ensures Named(s) && Tame(s)
    ensures Reference(s).Complete? ==> Named(Reference(s).tail + more) && Tame(Reference(s).tail + more)
    decreases |s|
  {
    hide DecodeHeader;
    if |s| >= HEADER_SIZE {
      HeaderOfPrefix(s, more);
      if Continues(s) {
        var end := HEADER_SIZE + DecodeHeader(s).cbDataSize;
        assert Continues(s + more);
        assert Behind(s + more) == s[end..] + more;
        ConditionsResume(s[end..], more);
      }
    }
  }

  lemma {:induction false} FeedAllAgrees(p: Parser, chunks: seq<seq<byte>>)
    requires Waiting(p) && Named(Remaining(p) + Flatten(chunks)) && Tame(Remaining(p) + Flatten(chunks))
    ensures Agrees(FeedAll(p, chunks), Reference(Remaining(p) + Flatten(chunks)))
    ensures FeedAll(p, chunks).Parsed? ==> Waiting(FeedAll(p, chunks).parser)
    decreases |chunks|
  {
    hide DecodeHeader, EncodeHeader, Feed, Reference;
    if chunks == [] {
      assert Remaining(p) + Flatten(chunks) == Remaining(p);
      WaitingIsTail(p);
    } else {
      var s, more := Remaining(p) + chunks[0], Flatten(chunks[1..]);
      assert Remaining(p) + Flatten(chunks) == s + more;
      ConditionsResume(s, more);
      ReferenceResumes(s, more);
      FeedAgrees(p, chunks[0]);
      var r := Feed(p, chunks[0]);
      if r.Parsed? {
        FeedAllAgrees(r.parser, chunks[1..]);
      }
    }
  }

  lemma WaitingIsTail(p: Parser)
    requires Waiting(p) && Named(Remaining(p))
    ensures Reference(Remaining(p)) == Complete([], Remaining(p))
  {
    hide DecodeHeader, EncodeHeader;
    if p.header.eOperation != OP_UNKNOWN {
      DecodeEncoded(p.header, p.pending);
    }
  }

  /** A stream with an empty frame before its end cannot be received in one piece. */
  lemma {:induction false} UntameFails(h: Header, s: seq<byte>)
    requires h.eOperation == OP_UNKNOWN && Named(s) && !Tame(s)
    ensures Feed(Parser(h, []), s).Failed? && Feed(Parser(h, []), s).error == InvalidArg
    decreases |s|
  {
    hide DecodeHeader;
    assert Parser(h, []).pending + s == s;
    if |s| > HEADER_SIZE && !Refused(DecodeHeader(s)) && DecodeHeader(s).cbDataSize > 0 {
      assert Behind(s) == s[HEADER_SIZE..][DecodeHeader(s).cbDataSize..];
      UntameFails(DecodeHeader(s).(eOperation := OP_UNKNOWN), Behind(s));
    }
  }

  /** Every byte on its own. */
  function Bytewise(s: seq<byte>): (chunks: seq<seq<byte>>)
    ensures Flatten(chunks) == s
  {
    if s == [] then [] else [[s[0]]] + Bytewise(s[1..])
  }

  /** A frame as it is never handed on when the bytes arrive one by one. */
  predicate Whole(f: Frame) {
    f.header.eOperation == OP_UNKNOWN && f.payload != []
  }

  /** One byte completes a header or a payload, or neither, but never both. */
  lemma ByteAlone(p: Parser, b: byte)
    requires Waiting(p)
    ensures var r := Feed(p, [b]);
            (forall f :: f in r.frames ==> !Whole(f)) && (r.Parsed? ==> Waiting(r.parser))
  {
    hide DecodeHeader, EncodeHeader;
    var total := p.pending + [b];
    if p.header.eOperation != OP_UNKNOWN {
      PartOfPayload(p.header, total);
    } else if |total| == HEADER_SIZE {
      assert Feed(p, [b]) == FeedPayload(DecodeHeader(total), [], 1);
      DecodedFits(total);
    } else {
      ShortFeed(p, [b]);
    }
  }

  lemma PartOfPayload(h: Header, total: seq<byte>)
    requires Encodable(h) && h.eOperation != OP_UNKNOWN && !Refused(h) && 0 < |total| <= h.cbDataSize
    ensures var r := FeedPayload(h, total, 1);
            (forall f :: f in r.frames ==> !Whole(f)) && (r.Parsed? ==> Waiting(r.parser))
  {
  }

  lemma DecodedFits(s: seq<byte>)
    requires |s| >= HEADER_SIZE
    ensures Encodable(DecodeHeader(s))
  {
    EncodeDecoded(s);
  }

  /** Byte by byte, no frame of operation 0 with a payload is ever handed on. */
  lemma {:induction false} BytewiseHandsOn(p: Parser, s: seq<byte>)
    requires Waiting(p)
    ensures var r := FeedAll(p, Bytewise(s));
            (forall f :: f in r.frames ==> !Whole(f)) && (r.Parsed? ==> Waiting(r.parser))
    decreases |s|
  {
    hide Feed, Waiting, Whole;
    if s != [] {
      assert Bytewise(s)[0] == [s[0]] && Bytewise(s)[1..] == Bytewise(s[1..]);
      ByteAlone(p, s[0]);
      var r := Feed(p, [s[0]]);
      if r.Parsed? {
        BytewiseHandsOn(r.parser, s[1..]);
      }
    }
  }

  /** Framed as a whole, a stream that is not named ends in such a frame or in such a header. */
  lemma {:induction false} UnnamedEnds(s: seq<byte>)
    requires !Named(s)
    ensures match Reference(s) {
              case Complete(_, tail) => Forgotten(tail)
              case Rejected(frames) => exists f :: f in frames && Whole(f)
            }
    decreases |s|
  {
    hide DecodeHeader;
    var h := DecodeHeader(s);
    if Forgotten(s) {
      if |s| - HEADER_SIZE >= h.cbDataSize {
        var frame := Frame(h, s[HEADER_SIZE..HEADER_SIZE + h.cbDataSize]);
        assert frame in Reference(s).frames && Whole(frame);
      }
    } else {
      UnnamedEnds(Behind(s));
      var frame := Frame(h, s[HEADER_SIZE..HEADER_SIZE + h.cbDataSize]);
      var o := Reference(Behind(s));
      assert Reference(s) == o.After([frame]);
      if o.Rejected? {
        var f :| f in o.frames && Whole(f);
        assert f in Reference(s).frames;
      }
    }
  }

  /** A stream that is not named is not framed as a whole when it arrives byte by byte. */
  lemma UnnamedFails(s: seq<byte>)
    requires !Named(s)
    ensures !FramedAs(Bytewise(s), s)
  {
    hide Feed, FeedAll, Reference, Named, DecodeHeader, EncodeHeader, Bytewise;
    UnnamedEnds(s);
    BytewiseHandsOn(IDLE, s);
    var r := FeedAll(IDLE, Bytewise(s));
    if r.Parsed? && Reference(s).Complete? && Remaining(r.parser) == Reference(s).tail && r.parser.header.eOperation != OP_UNKNOWN {
      DecodeEncoded(r.parser.header, r.parser.pending);
    }
  }

  /** Receiving `s` in these chunks from the start of a connection gives the frames of `s`. */
  ghost predicate FramedAs(chunks: seq<seq<byte>>, s: seq<byte>) {
    Agrees(FeedAll(IDLE, chunks), Reference(s))
  }

  /**
    Chunking independence, and exactly when it holds: a stream is framed the same however it is cut into
    chunks if and only if no acceptable header of operation 0 announces a payload, and no frame with an
    empty payload is followed by anything.
   */
  lemma ChunkingIndependence(s: seq<byte>)
    ensures Named(s) && Tame(s) <==> forall chunks :: Flatten(chunks) == s ==> FramedAs(chunks, s)
  {
    hide DecodeHeader, EncodeHeader, Feed, Reference;
    if !Named(s) {
      UnnamedFails(s);
    } else if Tame(s) {
      forall chunks | Flatten(chunks) == s
        ensures FramedAs(chunks, s)
      {
        assert Remaining(IDLE) + s == s;
        FeedAllAgrees(IDLE, chunks);
      }
    } else {
      UntameFails(IDLE.header, s);
      var whole: seq<seq<byte>> := [s];
      assert whole[1..] == [] && Flatten(whole) == s + [] == s;
      assert IDLE == Parser(IDLE.header, []) && FeedAll(IDLE, whole) == Feed(IDLE, s);
      assert !FramedAs(whole, s);
    }
  }

  // ---------------------------------------------------------------- streams of well-formed messages

  /** A message the server may send: a supported operation, a payload of the announced size, not empty. */
  predicate Sendable(f: Frame) {
    && Supported(f.header.eOperation)
    && 1 <= f.header.cbDataSize == |f.payload| <= MAX_PACKET_SIZE
  }

  function EncodeAll(fs: seq<Frame>): seq<byte>
    requires forall i :: 0 <= i < |fs| ==> Sendable(fs[i])
  {
    if fs == [] then [] else
      assert Sendable(fs[0]);
      EncodeHeader(fs[0].header) + fs[0].payload + EncodeAll(fs[1..])
  }

  /** The beginning of a message that is not complete yet. */
  predicate Partial(tail: seq<byte>) {
    |tail| >= HEADER_SIZE ==>
      var h := DecodeHeader(tail);
      h.eOperation != OP_UNKNOWN && !Refused(h) && |tail| - HEADER_SIZE < h.cbDataSize
  }

  /** A stream of messages begins with the first of them. */
  lemma FirstOfEncoded(fs: seq<Frame>, tail: seq<byte>)
    requires fs != [] && forall i :: 0 <= i < |fs| ==> Sendable(fs[i])
    ensures var s := EncodeAll(fs) + tail; var h := fs[0].header; var end := HEADER_SIZE + h.cbDataSize;
            && end <= |s| && DecodeHeader(s) == h
            && s[HEADER_SIZE..end] == fs[0].payload && s[end..] == EncodeAll(fs[1..]) + tail
  {
    hide DecodeHeader, EncodeHeader, EncodeAll;
    var h, payload, rest := fs[0].header, fs[0].payload, EncodeAll(fs[1..]);
    EncodeFirst(fs);
    DecodeEncoded(h, payload + (rest + tail));
    FourParts(EncodeHeader(h), payload, rest, tail);
  }

  lemma EncodeFirst(fs: seq<Frame>)
    requires fs != [] && forall i :: 0 <= i < |fs| ==> Sendable(fs[i])
    ensures EncodeAll(fs) == EncodeHeader(fs[0].header) + fs[0].payload + EncodeAll(fs[1..])
  {
  }

  lemma FourParts(a: seq<byte>, b: seq<byte>, c: seq<byte>, d: seq<byte>)
    ensures var s := a + b + c + d;
            s == a + (b + (c + d)) && s[|a|..|a| + |b|] == b && s[|a| + |b|..] == c + d
  {
  }

  lemma {:induction false} ReferenceOfEncoded(fs: seq<Frame>, tail: seq<byte>)
    requires forall i :: 0 <= i < |fs| ==> Sendable(fs[i])
    requires Partial(tail)
    ensures Reference(EncodeAll(fs) + tail) == Complete(fs, tail)
    ensures Named(EncodeAll(fs) + tail) && Tame(EncodeAll(fs) + tail)
    decreases |fs|
  {
    hide DecodeHeader, EncodeHeader;
    if fs == [] {
      assert EncodeAll(fs) + tail == tail;
    } else {
      hide EncodeAll;
      FirstOfEncoded(fs, tail);
      assert Frame(fs[0].header, fs[0].payload) == fs[0];
      ReferenceOfEncoded(fs[1..], tail);
      assert [fs[0]] + fs[1..] == fs;
    }
  }

  /** However the bytes of well-formed messages arrive, exactly the complete messages are handed on, in order. */
  lemma FramesDelivered(fs: seq<Frame>, tail: seq<byte>, chunks: seq<seq<byte>>)
    requires forall i :: 0 <= i < |fs| ==> Sendable(fs[i])
    requires Partial(tail) && Flatten(chunks) == EncodeAll(fs) + tail
    ensures var r := FeedAll(IDLE, chunks);
            && r.Parsed? && r.frames == fs
            && Waiting(r.parser) && Remaining(r.parser) == tail
            && (tail == [] ==> r.parser.header.eOperation == OP_UNKNOWN && r.parser.pending == [])
  {
    ReferenceOfEncoded(fs, tail);
    assert Remaining(IDLE) + Flatten(chunks) == Flatten(chunks);
    FeedAllAgrees(IDLE, chunks);
  }

  /**
    Operation 0 on the wire is taken for "no header yet": with its payload behind it in one chunk the message
    is handed on and then refused; if the chunk ends with the header, the header is forgotten and the bytes
    that follow are read as the next one.
   */
  lemma OperationZeroDependsOnChunks(payload: seq<byte>)
    requires 0 < |payload| <= MAX_PACKET_SIZE
    ensures var h := Header(|payload|, OP_UNKNOWN); var header := EncodeHeader(h);
            && FeedAll(IDLE, [header + payload]) == Failed([Frame(h, payload)], UnsupportedFormat)
            && FeedAll(IDLE, [header]) == Parsed([], Parser(h, []))
            && forall later :: Feed(Parser(h, []), later) == Feed(IDLE, later)
  {
    hide EncodeHeader, DecodeHeader;
    var h := Header(|payload|, OP_UNKNOWN);
    var header: seq<byte> := EncodeHeader(h);
    DecodeEncoded(h, payload);
    DecodeEncoded(h, []);
    assert header + [] == header;
    var one: seq<seq<byte>>, two: seq<seq<byte>> := [header + payload], [header];
    assert one[1..] == [] && two[1..] == [];
    assert IDLE.pending + (header + payload) == header + payload && IDLE.pending + header == header;
    assert (header + payload)[HEADER_SIZE..] == payload && header[HEADER_SIZE..] == [];
    assert payload[..|payload|] == payload;
    assert Feed(IDLE, header + payload) == FeedPayload(h, payload, |header + payload|);
    assert Feed(IDLE, header) == FeedPayload(h, [], |header|);
    assert FeedAll(IDLE, one) == Failed([Frame(h, payload)], UnsupportedFormat);
    assert FeedAll(IDLE, two).frames == [] + [];
    forall later: seq<byte>
      ensures Feed(Parser(h, []), later) == Feed(IDLE, later)
    {
      assert [] + later == later;
    }
  }

  // ---------------------------------------------------------------- the bytes of a message

  lemma HeaderBytes(size: uint32, op: uint32, rest: seq<byte>)
    ensures DecodeHeader([size % 0x100, size / 0x100 % 0x100, size / 0x1_0000 % 0x100, size / 0x100_0000,
                          op % 0x100, op / 0x100 % 0x100, op / 0x1_0000 % 0x100, op / 0x100_0000] + rest)
            == Header(size, if op < 0x8000_0000 then op else op as int - 0x1_0000_0000)
  {
    hide Le32;
    var b: seq<byte> := [size % 0x100, size / 0x100 % 0x100, size / 0x1_0000 % 0x100, size / 0x100_0000,
                         op % 0x100, op / 0x100 % 0x100, op / 0x1_0000 % 0x100, op / 0x100_0000];
    assert (b + rest)[0..4] == b[0..4] == PutLe32(size);
    assert (b + rest)[4..8] == b[4..8] == PutLe32(op);
    PutGet32(size, b + rest, 0);
    PutGet32(op, b + rest, 4);
  }

  /**
    One message on the wire, byte by byte, in any chunks: a description (4), a sample (5) or a format change (6)
    of 1 byte to 1 MiB is handed on and the receiver is ready for the next header; a request of a client is
    handed on and refused, and so is a negative operation; an unknown operation is refused at once.
   */
  lemma MessageOnTheWire(op: uint32, payload: seq<byte>, chunks: seq<seq<byte>>)
    requires 1 <= |payload| <= 0x10_0000 && op != 0
    requires Flatten(chunks)
             == [|payload| % 0x100, |payload| / 0x100 % 0x100, |payload| / 0x1_0000 % 0x100, |payload| / 0x100_0000,
                 op % 0x100, op / 0x100 % 0x100, op / 0x1_0000 % 0x100, op / 0x100_0000] + payload
    ensures var r := FeedAll(Parser(Header(0, 0), []), chunks);
            var f := Frame(Header(|payload|, if op < 0x8000_0000 then op else op as int - 0x1_0000_0000), payload);
            && (4 <= op <= 6 ==> r.Parsed? && r.frames == [f] && r.parser.header.eOperation == 0 && r.parser.pending == [])
            && (1 <= op <= 3 || op >= 0x8000_0000 ==> r == Failed([f], UnsupportedFormat))
            && (7 <= op < 0x8000_0000 ==> r == Failed([], UnsupportedFormat))
  {
    hide DecodeHeader, EncodeHeader, FeedAll;
    var s := Flatten(chunks);
    HeaderBytes(|payload|, op, payload);
    assert s[HEADER_SIZE..] == payload && s[HEADER_SIZE + |payload|..] == [];
    assert s[HEADER_SIZE..HEADER_SIZE + |payload|] == payload;
    assert Remaining(IDLE) + s == s;
    FeedAllAgrees(IDLE, chunks);
    NoneRemain(FeedAll(IDLE, chunks));
  }

  /** A receiver that waits for more and has nothing left is between two messages. */
  lemma NoneRemain(r: Result)
    ensures r.Parsed? && Waiting(r.parser) && Remaining(r.parser) == [] ==>
              r.parser.header.eOperation == 0 && r.parser.pending == []
  {
    hide EncodeHeader;
  }

  /** A message that announces more than 1 MiB is refused, whatever follows. */
  lemma TooLongOnTheWire(size: uint32, op: uint32, rest: seq<byte>, chunks: seq<seq<byte>>)
    requires size > 0x10_0000
    requires Flatten(chunks)
             == [size % 0x100, size / 0x100 % 0x100, size / 0x1_0000 % 0x100, size / 0x100_0000,
                 op % 0x100, op / 0x100 % 0x100, op / 0x1_0000 % 0x100, op / 0x100_0000] + rest
    ensures FeedAll(Parser(Header(0, 0), []), chunks) == Failed([], UnsupportedFormat)
  {
    hide DecodeHeader, EncodeHeader, FeedAll;
    HeaderBytes(size, op, rest);
    assert Remaining(IDLE) + Flatten(chunks) == Flatten(chunks);
    FeedAllAgrees(IDLE, chunks);
  }
}
