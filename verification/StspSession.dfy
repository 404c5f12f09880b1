/**
  The conversation between a media source and a media sink over two byte channels, as interleaved
  steps.  Every continuation that the source runs under its lock is one step; the socket delivers the
  sink's bytes in chunks of any size.
 */
module StspSession {

  import opened Common
  import opened StspWire
  import opened StspFraming

  /** A packet that `ProcessPacket` saw, with the state it saw it in. */
  datatype Event = Event(frame: Frame, during: SourceState)

  datatype Session = Session(
    // the source
    source: SourceState,
    connectPending: bool,    // the continuation of ConnectAsync has not run yet
    describePending: bool,   // the continuation of sending the description request
    startQueued: bool,       // a start operation waits in the operation queue
    startPending: bool,      // the continuation of sending the start request
    startUsed: bool,
    receiving: bool,         // a ReceiveAsync is outstanding
    parser: Parser,
    // the channels
    requests: seq<int>,
    wire: seq<byte>,
    // the sink
    sinkReceiving: bool,
    connected: bool,
    // history
    sent: seq<Frame>,
    processed: seq<Event>,
    unexpected: bool)        // MF_E_UNEXPECTED was raised

  predicate Init(s: Session) {
    s == Session(Invalid, false, false, false, false, false, false, IDLE, [], [], true, false, [], [], false)
  }

  // ---------------------------------------------------------------- steps of the source

  ghost predicate Open(s: Session, t: Session) {
    s.source == Invalid && t == s.(source := Opening, connectPending := true)
  }

  /** The connection is there: request the description. */
  ghost predicate Connected(s: Session, t: Session) {
    && s.connectPending
    && var u := s.(connectPending := false);
       if s.source == Shutdown then t == u
       else if s.source != Opening then t == u.(unexpected := true)
       else t == u.(parser := ResetHeader(s.parser), requests := s.requests + [OP_CLIENT_REQUEST_DESCRIPTION], describePending := true)
  }

  /** Both request senders forget the header that is being received. */
  function ResetHeader(p: Parser): Parser {
    p.(header := p.header.(eOperation := OP_UNKNOWN))
  }

  /** The description request is out: start receiving. */
  ghost predicate Described(s: Session, t: Session) {
    && s.describePending
    && var u := s.(describePending := false);
       if s.source == Shutdown then t == u
       else if s.source != Opening then t == u.(unexpected := true)
       else t == u.(receiving := true)
  }

  /** A chunk arrives and is parsed; the next reception starts unless something was raised. */
  ghost predicate Receive(s: Session, t: Session) {
    && s.receiving
    && exists n :: 0 < n <= |s.wire| && ReceiveChunk(s, t, n)
  }

  ghost predicate ReceiveChunk(s: Session, t: Session, n: nat)
    requires n <= |s.wire|
  {
    var u := s.(wire := s.wire[n..]);
    if s.source == Shutdown then t == u.(receiving := false)
    else
      var r := Feed(s.parser, s.wire[..n]);
      var v := ProcessAll(u, r.frames);
      if r.Failed? || v.unexpected then t == v.(receiving := false, parser := t.parser)
      else t == v.(parser := r.parser)
  }

  /** What the handlers do to the state of the source, up to the first packet that is out of place. */
  function ProcessAll(s: Session, frames: seq<Frame>): Session
    decreases |frames|
  {
    if frames == [] then s
    else
      var t := Process(s, frames[0]);
      if t.unexpected then t else ProcessAll(t, frames[1..])
  }

  function Process(s: Session, f: Frame): Session {
    var t := s.(processed := s.processed + [Event(f, s.source)]);
    if f.header.eOperation == OP_SERVER_DESCRIPTION then
      if s.source == Opening then t.(source := Stopped) else t.(unexpected := true)
    else if s.source == Started then t else t.(unexpected := true)
  }

  /** The application asks to start; the operation is queued. */
  ghost predicate Start(s: Session, t: Session) {
    && !s.startUsed
    && (s.source == Stopped || s.source == Started)
    && t == s.(startQueued := true, startUsed := true)
  }

  /** The queued start operation is dispatched. */
  ghost predicate DoStart(s: Session, t: Session) {
    && s.startQueued
    && var u := s.(startQueued := false);
       if s.source == Shutdown then t == u
       else t == u.(parser := ResetHeader(s.parser), requests := s.requests + [OP_CLIENT_REQUEST_START], startPending := true, source := Started)
  }

  /** The start request is out. */
  ghost predicate StartSent(s: Session, t: Session) {
    && s.startPending
    && var u := s.(startPending := false);
       if s.source == Shutdown || s.source == Starting || s.source == Started then t == u else t == u.(unexpected := true)
  }

  ghost predicate ShutDown(s: Session, t: Session) {
    t == s.(source := Shutdown)
  }

  // ---------------------------------------------------------------- steps of the sink

  /** The sink reads a request.  For the description it answers and reads on. */
  ghost predicate ServeDescription(s: Session, t: Session) {
    && s.sinkReceiving && s.requests != [] && s.requests[0] == OP_CLIENT_REQUEST_DESCRIPTION
    && exists f :: Sendable(f) && f.header.eOperation == OP_SERVER_DESCRIPTION && t == Emit(s.(requests := s.requests[1..]), f)
  }

  /** After the start request it does not read again. */
  ghost predicate ServeStart(s: Session, t: Session) {
    && s.sinkReceiving && s.requests != [] && s.requests[0] == OP_CLIENT_REQUEST_START
    && t == s.(requests := s.requests[1..], sinkReceiving := false, connected := true)
  }

  /** Any other request is an error that ends the conversation on this side. */
  ghost predicate ServeOther(s: Session, t: Session) {
    && s.sinkReceiving && s.requests != []
    && s.requests[0] != OP_CLIENT_REQUEST_DESCRIPTION && s.requests[0] != OP_CLIENT_REQUEST_START
    && t == s.(requests := s.requests[1..], sinkReceiving := false)
  }

  function Emit(s: Session, f: Frame): Session
    requires Sendable(f)
  {
    s.(wire := s.wire + EncodeAll([f]), sent := s.sent + [f])
  }

  /** A stream sink sends a sample or a format change; it does so only once it is connected. */
  ghost predicate Stream(s: Session, t: Session) {
    && s.connected
    && exists f :: Sendable(f) && f.header.eOperation != OP_SERVER_DESCRIPTION && t == Emit(s, f)
  }

  ghost predicate Next(s: Session, t: Session) {
    || Open(s, t) || Connected(s, t) || Described(s, t) || Receive(s, t)
    || Start(s, t) || DoStart(s, t) || StartSent(s, t) || ShutDown(s, t)
    || ServeDescription(s, t) || ServeStart(s, t) || ServeOther(s, t) || Stream(s, t)
  }

  ghost predicate Run(trace: seq<Session>) {
    && trace != [] && Init(trace[0])
    && forall i :: 0 <= i < |trace| - 1 ==> Next(trace[i], trace[i + 1])
  }

  // ---------------------------------------------------------------- the invariant

  ghost predicate AllSendable(fs: seq<Frame>) {
    forall i :: 0 <= i < |fs| ==> Sendable(fs[i])
  }

  /** The frames sent but not processed yet are exactly what the parser and the wire hold. */
  ghost predicate InFlight(sent: seq<Frame>, processed: seq<Event>, parser: Parser, wire: seq<byte>) {
    && AllSendable(sent) && |processed| <= |sent|
    && (forall i :: 0 <= i < |processed| ==> processed[i].frame == sent[i])
    && Waiting(parser)
    && Remaining(parser) + wire == EncodeAll(sent[|processed|..])
  }

  /** Nothing has been sent, or the description and after it no second one. */
  ghost predicate DescriptionFirst(sent: seq<Frame>) {
    forall i :: 0 <= i < |sent| ==> (sent[i].header.eOperation == OP_SERVER_DESCRIPTION <==> i == 0)
  }

  ghost predicate EventsInPlace(processed: seq<Event>) {
    forall i :: 0 <= i < |processed| ==> processed[i].during == if i == 0 then Opening else Started
  }

  ghost predicate Quiet(s: Session) {
    !s.startQueued && !s.startPending && !s.startUsed && !s.connected
  }

  /** How far the conversation has come. */
  ghost predicate Phase(s: Session) {
    match s.source
    case Invalid => Quiet(s) && !s.connectPending && !s.describePending && !s.receiving && s.requests == [] && s.sent == [] && s.sinkReceiving
    case Opening =>
      && Quiet(s) && s.sinkReceiving && s.processed == []
      && if s.connectPending then !s.describePending && !s.receiving && s.requests == [] && s.sent == []
         else (s.receiving ==> !s.describePending)
              && ((s.requests == [OP_CLIENT_REQUEST_DESCRIPTION] && s.sent == []) || (s.requests == [] && |s.sent| == 1))
    case Starting => false
    case Stopped =>
      && !s.connectPending && !s.describePending && !s.startPending && !s.connected && s.sinkReceiving
      && s.requests == [] && |s.sent| == 1 == |s.processed|
      && (s.startQueued ==> s.startUsed)
    case Started =>
      && !s.connectPending && !s.describePending && !s.startQueued && s.startUsed
      && |s.sent| >= 1 && |s.processed| >= 1
      && ((s.requests == [OP_CLIENT_REQUEST_START] && s.sinkReceiving && !s.connected && |s.sent| == 1)
          || (s.requests == [] && !s.sinkReceiving && s.connected))
    case Shutdown => true
  }

  ghost predicate Inv(s: Session) {
    && !s.unexpected
    && EventsInPlace(s.processed)
    && (s.source != Shutdown ==> InFlight(s.sent, s.processed, s.parser, s.wire) && DescriptionFirst(s.sent) && Phase(s))
  }

  // ---------------------------------------------------------------- what one chunk delivers

  /** Framing loses nothing: the frames and the rest give the stream back. */
  lemma {:induction false} ReferenceInverse(s: seq<byte>)
    requires Reference(s).Complete? && AllSendable(Reference(s).frames)
    ensures s == EncodeAll(Reference(s).frames) + Reference(s).tail
    decreases |s|, 1
  {
    hide DecodeHeader, EncodeHeader, EncodeAll;
    EncodeNone();
    if Continues(s) {
      var h := DecodeHeader(s);
      var end := HEADER_SIZE + h.cbDataSize;
      var fs, tail := Reference(s[end..]).frames, Reference(s[end..]).tail;
      var f := Frame(h, s[HEADER_SIZE..end]);
      assert Reference(s) == Complete([f] + fs, tail);
      InverseStep(s, f, fs, tail);
    } else {
      assert EncodeAll([]) + s == s;
    }
  }

  lemma InverseStep(s: seq<byte>, f: Frame, fs: seq<Frame>, tail: seq<byte>)
    requires Continues(s) && f == Frame(DecodeHeader(s), s[HEADER_SIZE..HEADER_SIZE + DecodeHeader(s).cbDataSize])
    requires Reference(Behind(s)) == Complete(fs, tail) && AllSendable([f] + fs)
    ensures s == EncodeAll([f] + fs) + tail
    decreases |s|, 0
  {
    hide DecodeHeader, EncodeHeader, EncodeAll, Refused, Supported, AllSendable, Sendable, Reference;
    SendableCons(f, fs);
    ReferenceInverse(Behind(s));
    EncodeDecoded(s);
    EncodeCons(f, fs);
    FourParts(EncodeHeader(f.header), f.payload, EncodeAll(fs), tail);
    SplitAt(s, HEADER_SIZE, HEADER_SIZE + DecodeHeader(s).cbDataSize);
  }

  lemma SendableCons(f: Frame, fs: seq<Frame>)
    requires AllSendable([f] + fs)
    ensures Sendable(f) && AllSendable(fs)
  {
    assert ([f] + fs)[0] == f;
    assert forall i :: 0 <= i < |fs| ==> fs[i] == ([f] + fs)[i + 1];
  }

  lemma SplitAt(s: seq<byte>, i: nat, j: nat)
    requires i <= j <= |s|
    ensures s == s[..i] + (s[i..j] + s[j..])
  {
  }

  lemma EncodeNone()
    ensures EncodeAll([]) == []
  {
  }

  lemma EncodeCons(f: Frame, fs: seq<Frame>)
    requires Sendable(f) && AllSendable(fs)
    ensures AllSendable([f] + fs)
    ensures EncodeAll([f] + fs) == EncodeHeader(f.header) + f.payload + EncodeAll(fs)
  {
    assert ([f] + fs)[1..] == fs;
  }

  lemma AllSendableIs(fs: seq<Frame>)
    requires AllSendable(fs)
    ensures forall i :: 0 <= i < |fs| ==> Sendable(fs[i])
  {
  }

  lemma SendableRest(fs: seq<Frame>, i: nat)
    requires AllSendable(fs) && i <= |fs|
    ensures AllSendable(fs[i..])
  {
  }

  /** A part of a stream of messages contains its first messages, and the rest of the stream the others. */
  lemma PartOfStream(fs: seq<Frame>, p: seq<byte>, q: seq<byte>)
    requires AllSendable(fs) && p + q == EncodeAll(fs)
    ensures Named(p) && Tame(p) && Reference(p).Complete?
    ensures var gs := Reference(p).frames;
            |gs| <= |fs| && gs == fs[..|gs|] && Reference(p).tail + q == EncodeAll(fs[|gs|..])
  {
    hide Reference, Named, Tame, AllSendable, EncodeAll;
    AllSendableIs(fs);
    assert EncodeAll(fs) + [] == EncodeAll(fs) && Partial([]);
    ReferenceOfEncoded(fs, []);
    ConditionsResume(p, q);
    ReferenceResumes(p, q);
    var gs := Reference(p).frames;
    if Reference(p).Complete? {
      var o := Reference(Reference(p).tail + q);
      assert gs + o.frames == fs;
      assert o.frames == fs[|gs|..] && gs == fs[..|gs|];
      SendableRest(fs, |gs|);
      ReferenceInverse(Reference(p).tail + q);
      assert EncodeAll(o.frames) + [] == EncodeAll(o.frames);
    }
  }

  /** A chunk of the bytes in flight parses, and hands on the next frames that were sent. */
  lemma ChunkInFlight(s: Session, n: nat)
    requires InFlight(s.sent, s.processed, s.parser, s.wire) && n <= |s.wire|
    ensures var r := Feed(s.parser, s.wire[..n]);
            var due := s.sent[|s.processed|..];
            && r.Parsed? && Waiting(r.parser)
            && |r.frames| <= |due| && r.frames == due[..|r.frames|]
            && Remaining(r.parser) + s.wire[n..] == EncodeAll(due[|r.frames|..])
  {
    hide Feed, Reference;
    var due := s.sent[|s.processed|..];
    var p := Remaining(s.parser) + s.wire[..n];
    assert s.wire[..n] + s.wire[n..] == s.wire;
    assert p + s.wire[n..] == EncodeAll(due);
    PartOfStream(due, p, s.wire[n..]);
    FeedAgrees(s.parser, s.wire[..n]);
  }

  // ---------------------------------------------------------------- processing in place

  /** The frames that are processed next are in place, whatever their number. */
  lemma {:induction false} ProcessInPlace(s: Session, frames: seq<Frame>)
    requires !s.unexpected && EventsInPlace(s.processed) && DescriptionFirst(s.sent) && AllSendable(s.sent)
    requires |s.processed| + |frames| <= |s.sent|
    requires frames == s.sent[|s.processed|..|s.processed| + |frames|]
    requires forall i :: 0 <= i < |s.processed| ==> s.processed[i].frame == s.sent[i]
    requires frames != [] ==> s.source == if s.processed == [] then Opening else Started
    requires s.source == Opening ==> |frames| <= 1
    ensures var t := ProcessAll(s, frames);
            && t == s.(processed := t.processed, source := t.source)
            && EventsInPlace(t.processed) && |t.processed| == |s.processed| + |frames|
            && (forall i :: 0 <= i < |t.processed| ==> t.processed[i].frame == s.sent[i])
            && t.source == if frames != [] && s.source == Opening then Stopped else s.source
    decreases |frames|
  {
    if frames != [] {
      var t := Process(s, frames[0]);
      ProcessOne(s, frames[0]);
      assert frames[1..] == t.sent[|t.processed|..|t.processed| + |frames[1..]|];
      ProcessInPlace(t, frames[1..]);
    }
  }

  lemma ProcessOne(s: Session, f: Frame)
    requires !s.unexpected && EventsInPlace(s.processed) && DescriptionFirst(s.sent)
    requires |s.processed| < |s.sent| && f == s.sent[|s.processed|]
    requires s.source == if s.processed == [] then Opening else Started
    ensures var t := Process(s, f);
            && t == s.(processed := s.processed + [Event(f, s.source)], source := if s.source == Opening then Stopped else s.source)
            && EventsInPlace(t.processed)
  {
    assert f.header.eOperation == OP_SERVER_DESCRIPTION <==> s.processed == [];
  }

  // ---------------------------------------------------------------- every step keeps the invariant

  lemma ReceiveKeeps(s: Session, t: Session)
    requires Inv(s) && Receive(s, t)
    ensures Inv(t)
  {
    hide Feed, Reference, EncodeAll, InFlight, Remaining;
    var n :| 0 < n <= |s.wire| && ReceiveChunk(s, t, n);
    if s.source != Shutdown {
      ReceiveInFlight(s, t, n);
    }
  }

  lemma ReceiveInFlight(s: Session, t: Session, n: nat)
    requires Inv(s) && s.receiving && s.source != Shutdown && n <= |s.wire| && ReceiveChunk(s, t, n)
    ensures InFlight(t.sent, t.processed, t.parser, t.wire) && EventsInPlace(t.processed) && t.receiving && !t.unexpected
    ensures t == s.(wire := s.wire[n..], parser := t.parser, processed := t.processed, source := t.source)
    ensures |s.processed| <= |t.processed| <= |t.sent|
    ensures t.source == if |t.processed| > |s.processed| && s.source == Opening then Stopped else s.source
  {
    hide Feed, Reference, EncodeAll, Remaining, ProcessAll, EventsInPlace, DescriptionFirst;
    ChunkInFlight(s, n);
    var r := Feed(s.parser, s.wire[..n]);
    var u := s.(wire := s.wire[n..]);
    var due := s.sent[|s.processed|..];
    assert r.frames == s.sent[|s.processed|..|s.processed| + |r.frames|];
    ProcessInPlace(u, r.frames);
    assert due[|r.frames|..] == s.sent[|s.processed| + |r.frames|..];
  }

  lemma EmitKeeps(s: Session, f: Frame)
    requires InFlight(s.sent, s.processed, s.parser, s.wire) && Sendable(f)
    ensures var t := Emit(s, f); InFlight(t.sent, t.processed, t.parser, t.wire)
  {
    var t := Emit(s, f);
    var due := s.sent[|s.processed|..];
    assert t.sent[|t.processed|..] == due + [f];
    EncodeAppend(due, [f]);
    assert Remaining(t.parser) + t.wire == (Remaining(s.parser) + s.wire) + EncodeAll([f]);
  }

  lemma {:induction false} EncodeAppend(a: seq<Frame>, b: seq<Frame>)
    requires AllSendable(a) && AllSendable(b)
    ensures AllSendable(a + b) && EncodeAll(a + b) == EncodeAll(a) + EncodeAll(b)
    decreases |a|
  {
    hide EncodeHeader;
    if a == [] {
      assert a + b == b;
    } else {
      assert (a + b)[1..] == a[1..] + b;
      EncodeAppend(a[1..], b);
      assert EncodeAll(a + b) == EncodeHeader(a[0].header) + a[0].payload + (EncodeAll(a[1..]) + EncodeAll(b));
    }
  }

  lemma DescriptionKeeps(s: Session, t: Session)
    requires Inv(s) && ServeDescription(s, t)
    ensures Inv(t)
  {
    hide InFlight, EventsInPlace, DescriptionFirst, EncodeAll, Sendable;
    var u := s.(requests := s.requests[1..]);
    var f :| Sendable(f) && f.header.eOperation == OP_SERVER_DESCRIPTION && t == Emit(u, f);
    if s.source != Shutdown {
      EmitKeeps(u, f);
      FirstSent(s, t, f);
    }
  }

  lemma StartKeeps(s: Session, t: Session)
    requires Inv(s) && (ServeStart(s, t) || ServeOther(s, t))
    ensures Inv(t)
  {
    hide InFlight, EventsInPlace, DescriptionFirst;
  }

  lemma FirstSent(s: Session, t: Session, f: Frame)
    requires s.sent == [] && t.sent == s.sent + [f] && f.header.eOperation == OP_SERVER_DESCRIPTION
    ensures DescriptionFirst(t.sent)
    ensures EventsInPlace(s.processed) && t.processed == s.processed ==> EventsInPlace(t.processed)
  {
  }

  lemma StreamKeeps(s: Session, t: Session)
    requires Inv(s) && Stream(s, t)
    ensures Inv(t)
  {
    hide EncodeAll, InFlight, Remaining, Waiting;
    if s.source != Shutdown {
      var f :| Sendable(f) && f.header.eOperation != OP_SERVER_DESCRIPTION && t == Emit(s, f);
      EmitKeeps(s, f);
    }
  }

  /** With nothing in flight the parser is idle, so forgetting the header changes nothing. */
  lemma IdleParser(s: Session)
    requires InFlight(s.sent, s.processed, s.parser, s.wire) && |s.processed| == |s.sent|
    ensures s.wire == [] && s.parser.pending == [] && s.parser.header.eOperation == OP_UNKNOWN
    ensures ResetHeader(s.parser) == s.parser
  {
    assert s.sent[|s.processed|..] == [];
    assert |Remaining(s.parser)| == 0;
  }

  lemma ProcessedWasSent(s: Session)
    ensures InFlight(s.sent, s.processed, s.parser, s.wire) ==> |s.processed| <= |s.sent|
  {
  }

  lemma OpeningKeeps(s: Session, t: Session)
    requires Inv(s) && (Open(s, t) || Described(s, t))
    ensures Inv(t)
  {
    hide InFlight, EventsInPlace, DescriptionFirst;
    ProcessedWasSent(s);
  }

  lemma ConnectedKeeps(s: Session, t: Session)
    requires Inv(s) && Connected(s, t)
    ensures Inv(t)
  {
    hide InFlight, EventsInPlace, DescriptionFirst, ResetHeader;
    if s.source == Opening {
      IdleParser(s);
    }
  }

  lemma StartingKeeps(s: Session, t: Session)
    requires Inv(s) && (Start(s, t) || ShutDown(s, t))
    ensures Inv(t)
  {
    hide InFlight, EventsInPlace, DescriptionFirst;
  }

  lemma StartSentKeeps(s: Session, t: Session)
    requires Inv(s) && StartSent(s, t)
    ensures Inv(t)
  {
    hide InFlight, EventsInPlace, DescriptionFirst;
    assert s.source == Started || s.source == Shutdown;
    assert t == s.(startPending := false);
  }

  lemma DoStartKeeps(s: Session, t: Session)
    requires Inv(s) && DoStart(s, t)
    ensures Inv(t)
  {
    hide InFlight, EventsInPlace, DescriptionFirst, ResetHeader;
    if s.source != Shutdown {
      IdleParser(s);
    }
  }

  lemma NextKeeps(s: Session, t: Session)
    requires Inv(s) && Next(s, t)
    ensures Inv(t)
  {
    hide Inv, Open, Connected, Described, Receive, Start, DoStart, StartSent, ShutDown, ServeDescription, ServeStart, ServeOther, Stream;
    if Receive(s, t) {
      ReceiveKeeps(s, t);
    } else if ServeDescription(s, t) {
      DescriptionKeeps(s, t);
    } else if ServeStart(s, t) || ServeOther(s, t) {
      StartKeeps(s, t);
    } else if Stream(s, t) {
      StreamKeeps(s, t);
    } else if Connected(s, t) {
      ConnectedKeeps(s, t);
    } else if Open(s, t) || Described(s, t) {
      OpeningKeeps(s, t);
    } else if DoStart(s, t) {
      DoStartKeeps(s, t);
    } else if StartSent(s, t) {
      StartSentKeeps(s, t);
    } else {
      StartingKeeps(s, t);
    }
  }

  lemma InitInv(s: Session)
    requires Init(s)
    ensures Inv(s)
  {
    assert s.sent[|s.processed|..] == [] && [] + s.wire == [];
  }

  // ---------------------------------------------------------------- whole runs

  lemma {:induction false} RunInv(trace: seq<Session>, i: nat)
    requires Run(trace) && i < |trace|
    ensures Inv(trace[i])
  {
    if i == 0 {
      InitInv(trace[0]);
    } else {
      RunInv(trace, i - 1);
      NextKeeps(trace[i - 1], trace[i]);
    }
  }

  /**
    Safety of every conversation: `MF_E_UNEXPECTED` is never raised, the first packet is processed while
    the source is opening and every other one while it is started, and unless the source was shut down
    the processed packets are the first ones the sink sent.
   */
  lemma SessionSafety(trace: seq<Session>, i: nat)
    requires Run(trace) && i < |trace|
    ensures var s := trace[i];
            && !s.unexpected
            && (forall k :: 0 <= k < |s.processed| ==> s.processed[k].during == if k == 0 then Opening else Started)
            && (s.source != Shutdown ==>
                  && |s.processed| <= |s.sent|
                  && (forall k :: 0 <= k < |s.processed| ==> s.processed[k].frame == s.sent[k])
                  && (forall k :: 0 <= k < |s.sent| ==> (s.sent[k].header.eOperation == OP_SERVER_DESCRIPTION <==> k == 0)))
  {
    RunInv(trace, i);
  }

  /** Whenever a request is sent, the parser stands between two packets and nothing is in flight. */
  lemma HeaderResetIsHarmless(trace: seq<Session>, i: nat)
    requires Run(trace) && i + 1 < |trace|
    requires Connected(trace[i], trace[i + 1]) || DoStart(trace[i], trace[i + 1])
    ensures trace[i].source != Shutdown ==> trace[i + 1].parser == trace[i].parser && trace[i].parser.pending == [] && trace[i].wire == []
  {
    RunInv(trace, i);
    if trace[i].source != Shutdown {
      IdleParser(trace[i]);
    }
  }

  /**
    When a second request is harmless: receiving a message in two parts with the header forgotten in between
    still delivers it exactly if the cut is inside the header or behind the message.
   */
  lemma RequestWhileReceiving(f: Frame, k: nat)
    requires Sendable(f) && k <= |EncodeAll([f])|
    ensures var b := EncodeAll([f]); var first := Feed(IDLE, b[..k]);
            && first.Parsed?
            && (first.frames + Feed(ResetHeader(first.parser), b[k..]).frames == [f] <==> k < HEADER_SIZE || k == |b|)
  {
    hide DecodeHeader, EncodeHeader, Reference, Named, Tame;
    var b := EncodeAll([f]);
    ReferenceOfEncoded([f], []);
    assert b + [] == b && b == EncodeHeader(f.header) + f.payload;
    var first := Feed(IDLE, b[..k]);
    assert IDLE.pending + b[..k] == b[..k];
    if k < HEADER_SIZE {
      ShortFeed(IDLE, b[..k]);
      assert first == FeedPayload(IDLE.header.(cbDataSize := MAX_PACKET_SIZE), b[..k], k);
      assert ResetHeader(first.parser) == first.parser && Waiting(first.parser);
      assert Remaining(first.parser) + b[k..] == b;
      FeedAgrees(first.parser, b[k..]);
    } else {
      DecodeEncoded(f.header, f.payload[..k - HEADER_SIZE]);
      assert b[..k] == EncodeHeader(f.header) + f.payload[..k - HEADER_SIZE];
      assert b[..k][HEADER_SIZE..] == f.payload[..k - HEADER_SIZE];
      assert first == FeedPayload(f.header, f.payload[..k - HEADER_SIZE], k);
      if k == |b| {
        assert first.frames == [f];
      } else {
        var again := ResetHeader(first.parser);
        assert again.pending + b[k..] == f.payload;
        FirstFrameFits(again, b[k..]);
      }
    }
  }

  lemma FirstFrameFits(p: Parser, chunk: seq<byte>)
    requires p.header.eOperation == OP_UNKNOWN
    ensures var r := Feed(p, chunk);
            r.frames != [] ==> HEADER_SIZE + |r.frames[0].payload| <= |p.pending + chunk|
  {
  }

  // ---------------------------------------------------------------- conversations that succeed

  ghost predicate Steps(trace: seq<Session>) {
    trace != [] && forall i :: 0 <= i < |trace| - 1 ==> Next(trace[i], trace[i + 1])
  }

  /** At some time this request, and no other one, is on its way to the sink. */
  ghost predicate Requested(trace: seq<Session>, op: int) {
    exists i :: 0 <= i < |trace| && trace[i].requests == [op]
  }

  lemma RequestedBefore(a: seq<Session>, b: seq<Session>, op: int)
    requires Requested(a, op)
    ensures Requested(a + b, op)
  {
    var i :| 0 <= i < |a| && a[i].requests == [op];
    assert (a + b)[i] == a[i];
  }

  lemma StepsJoin(a: seq<Session>, b: seq<Session>)
    requires Steps(a) && Steps(b) && a[|a| - 1] == b[0]
    ensures Steps(a + b[1..]) && (a + b[1..])[0] == a[0] && (a + b[1..])[|a + b[1..]| - 1] == b[|b| - 1]
  {
    hide Next;
    var c := a + b[1..];
    forall i | 0 <= i < |c| - 1
      ensures Next(c[i], c[i + 1])
    {
      if i < |a| - 1 {
        assert c[i] == a[i] && c[i + 1] == a[i + 1];
      } else {
        assert c[i] == b[i - (|a| - 1)] && c[i + 1] == b[i + 1 - (|a| - 1)];
      }
    }
  }

  lemma OneStep(s: Session, t: Session)
    requires Next(s, t)
    ensures Steps([s, t])
  {
    hide Next;
  }

  /** A receiver between two messages takes any number of whole messages at once. */
  lemma FeedsWhole(p: Parser, fs: seq<Frame>)
    requires p.header.eOperation == OP_UNKNOWN && p.pending == [] && AllSendable(fs)
    ensures var r := Feed(p, EncodeAll(fs));
            r.Parsed? && r.frames == fs && r.parser.header.eOperation == OP_UNKNOWN && r.parser.pending == []
  {
    hide Feed, Reference, Named, Tame, EncodeAll, EncodeHeader;
    AllSendableIs(fs);
    ReferenceOfEncoded(fs, []);
    assert EncodeAll(fs) + [] == EncodeAll(fs) && Remaining(p) + EncodeAll(fs) == EncodeAll(fs);
    FeedAgrees(p, EncodeAll(fs));
    NoneRemain(Feed(p, EncodeAll(fs)));
  }

  function EventsOf(fs: seq<Frame>, during: SourceState): (es: seq<Event>)
    ensures |es| == |fs| && forall i :: 0 <= i < |fs| ==> es[i].frame == fs[i]
  {
    if fs == [] then [] else [Event(fs[0], during)] + EventsOf(fs[1..], during)
  }

  /** A message that is out of place is raised and ends the reception; the description in its place stops the source. */
  lemma OutOfPlaceIsRaised(s: Session, t: Session, f: Frame)
    requires Sendable(f) && s.wire == EncodeAll([f]) && s.source != Shutdown && !s.unexpected
    requires s.receiving && s.parser.header.eOperation == OP_UNKNOWN && s.parser.pending == []
    requires ReceiveChunk(s, t, |s.wire|)
    ensures t.unexpected <==> s.source != if f.header.eOperation == 4 then Opening else Started
    ensures t.receiving == !t.unexpected
    ensures t.source == if s.source == Opening && f.header.eOperation == 4 then Stopped else s.source
    ensures |t.processed| == |s.processed| + 1 && t.processed[|s.processed|] == Event(f, s.source)
  {
    hide ReceiveChunk, EncodeAll, Sendable, Process;
    OneInChunk(s, t, f);
    WhereProcessed(s.(wire := []), f);
  }

  lemma WhereProcessed(s: Session, f: Frame)
    requires !s.unexpected
    ensures var v := Process(s, f);
            && (v.unexpected <==> s.source != if f.header.eOperation == 4 then Opening else Started)
            && v.source == (if s.source == Opening && f.header.eOperation == 4 then Stopped else s.source)
            && v.receiving == s.receiving && v.processed == s.processed + [Event(f, s.source)]
  {
  }

  lemma OneInChunk(s: Session, t: Session, f: Frame)
    requires Sendable(f) && s.wire == EncodeAll([f]) && s.source != Shutdown
    requires s.parser.header.eOperation == OP_UNKNOWN && s.parser.pending == []
    requires ReceiveChunk(s, t, |s.wire|)
    ensures var v := Process(s.(wire := []), f);
            && t.source == v.source && t.processed == v.processed && t.unexpected == v.unexpected
            && t.receiving == (v.receiving && !v.unexpected)
  {
    hide Feed, EncodeAll, Sendable, ProcessAll, Process;
    assert s.wire[..|s.wire|] == s.wire && s.wire[|s.wire|..] == [];
    FeedsWhole(s.parser, [f]);
    ProcessesOnly(s.(wire := []), f);
  }

  /** Every session can be shut down at any time. After that the source takes nothing in and asks for nothing. */
  lemma ShutDownIsFinal(trace: seq<Session>, i: nat, j: nat)
    requires Run(trace) && i <= j < |trace|
    ensures Next(trace[i], trace[i].(source := Shutdown))
    ensures trace[i].source == Shutdown ==>
              && trace[j].source == Shutdown && trace[j].processed == trace[i].processed
              && |trace[j].requests| <= |trace[i].requests|
              && trace[j].requests == trace[i].requests[|trace[i].requests| - |trace[j].requests|..]
    decreases j - i
  {
    hide Next, Init;
    ShutDownIsNext(trace[i]);
    if i < j && trace[i].source == Shutdown {
      assert Next(trace[i], trace[i + 1]);
      StaysDown(trace[i], trace[i + 1]);
      ShutDownIsFinal(trace, i + 1, j);
    }
  }

  lemma ShutDownIsNext(s: Session)
    ensures Next(s, s.(source := Shutdown))
  {
    assert ShutDown(s, s.(source := Shutdown));
  }

  lemma StaysDown(s: Session, t: Session)
    requires s.source == Shutdown && Next(s, t)
    ensures t.source == Shutdown && t.processed == s.processed
    ensures t.requests == s.requests || (s.requests != [] && t.requests == s.requests[1..])
  {
    hide Open, Connected, Described, Receive, Start, DoStart, StartSent, ShutDown, ServeDescription, ServeStart,
      ServeOther, Stream;
    if Receive(s, t) {
      ReceiveStaysDown(s, t);
    } else if Open(s, t) || Connected(s, t) || Described(s, t) || Start(s, t) || DoStart(s, t) || StartSent(s, t) {
      SourceStaysDown(s, t);
    } else {
      SinkLeavesDown(s, t);
    }
  }

  lemma SinkLeavesDown(s: Session, t: Session)
    requires s.source == Shutdown
    requires ShutDown(s, t) || ServeDescription(s, t) || ServeStart(s, t) || ServeOther(s, t) || Stream(s, t)
    ensures t.source == Shutdown && t.processed == s.processed
    ensures t.requests == s.requests || (s.requests != [] && t.requests == s.requests[1..])
  {
    hide EncodeAll, Sendable;
  }

  lemma SourceStaysDown(s: Session, t: Session)
    requires s.source == Shutdown
    requires Open(s, t) || Connected(s, t) || Described(s, t) || Start(s, t) || DoStart(s, t) || StartSent(s, t)
    ensures t.source == Shutdown && t.processed == s.processed && t.requests == s.requests
  {
  }

  lemma ReceiveStaysDown(s: Session, t: Session)
    requires s.source == Shutdown && Receive(s, t)
    ensures t.source == Shutdown && t.processed == s.processed && t.requests == s.requests
  {
    hide Feed, ProcessAll;
  }

  lemma ProcessesOnly(s: Session, f: Frame)
    ensures ProcessAll(s, [f]) == Process(s, f)
  {
    hide Process;
    assert [f][1..] == [];
    assert ProcessAll(Process(s, f), []) == Process(s, f);
  }

  lemma {:induction false} ProcessStarted(s: Session, fs: seq<Frame>)
    requires s.source == Started && !s.unexpected
    requires forall i :: 0 <= i < |fs| ==> fs[i].header.eOperation != OP_SERVER_DESCRIPTION
    ensures ProcessAll(s, fs) == s.(processed := s.processed + EventsOf(fs, Started))
    decreases |fs|
  {
    if fs == [] {
      assert s.processed + [] == s.processed;
    } else {
      var t := Process(s, fs[0]);
      ProcessStarted(t, fs[1..]);
      ConcatAssoc(s.processed, [Event(fs[0], Started)], EventsOf(fs[1..], Started));
    }
  }

  /** The sink sends these frames, one after the other. */
  lemma {:induction false} StreamAll(s: Session, fs: seq<Frame>) returns (trace: seq<Session>)
    requires s.connected && AllSendable(fs)
    requires forall i :: 0 <= i < |fs| ==> fs[i].header.eOperation != OP_SERVER_DESCRIPTION
    ensures Steps(trace) && trace[0] == s
    ensures trace[|trace| - 1] == s.(wire := s.wire + EncodeAll(fs), sent := s.sent + fs)
    decreases |fs|
  {
    hide EncodeAll, Next;
    if fs == [] {
      EncodeNone();
      assert s.wire + [] == s.wire && s.sent + [] == s.sent;
      trace := [s];
    } else {
      var one: seq<Frame> := [fs[0]];
      var t := Emit(s, fs[0]);
      StreamIsNext(s, fs[0]);
      OneStep(s, t);
      SendableRest(fs, 1);
      var rest := StreamAll(t, fs[1..]);
      StepsJoin([s, t], rest);
      trace := [s, t] + rest[1..];
      assert AllSendable(one) && one + fs[1..] == fs;
      EncodeAppend(one, fs[1..]);
      ConcatAssoc(s.wire, EncodeAll(one), EncodeAll(fs[1..]));
      ConcatAssoc(s.sent, one, fs[1..]);
    }
  }

  lemma StreamIsNext(s: Session, f: Frame)
    requires s.connected && Sendable(f) && f.header.eOperation != OP_SERVER_DESCRIPTION
    ensures Next(s, Emit(s, f))
  {
    hide Emit, Sendable;
    assert Stream(s, Emit(s, f));
  }

  /** Everything on the wire arrives in one chunk. */
  lemma ReceiveWhole(s: Session, fs: seq<Frame>) returns (t: Session)
    requires s.receiving && s.source != Shutdown && !s.unexpected && AllSendable(fs) && fs != []
    requires s.wire == EncodeAll(fs) && s.parser.header.eOperation == OP_UNKNOWN && s.parser.pending == []
    requires !ProcessAll(s.(wire := []), fs).unexpected
    ensures Next(s, t) && t == ProcessAll(s.(wire := []), fs).(parser := t.parser)
    ensures t.parser.header.eOperation == OP_UNKNOWN && t.parser.pending == []
  {
    hide Feed, ProcessAll;
    FeedsWhole(s.parser, fs);
    var n := |s.wire|;
    assert s.wire[..n] == s.wire && s.wire[n..] == [];
    assert n > 0;
    var r := Feed(s.parser, s.wire);
    t := ProcessAll(s.(wire := []), fs).(parser := r.parser);
    assert ReceiveChunk(s, t, n);
    assert Receive(s, t);
  }

  /** The source asks for the description and gets it. */
  lemma Introduction(d: Frame) returns (trace: seq<Session>)
    requires Sendable(d) && d.header.eOperation == OP_SERVER_DESCRIPTION
    ensures Steps(trace) && Init(trace[0]) && Requested(trace, 1)
    ensures var t := trace[|trace| - 1];
            && t.parser.header.eOperation == OP_UNKNOWN && t.parser.pending == []
            && t == Session(Stopped, false, false, false, false, false, true, t.parser, [], [], true, false,
                            [d], [Event(d, Opening)], false)
  {
    hide Feed, EncodeAll, Sendable;
    var s0 := Session(Invalid, false, false, false, false, false, false, IDLE, [], [], true, false, [], [], false);
    var s1 := s0.(source := Opening, connectPending := true);
    var s2 := s1.(connectPending := false, requests := [OP_CLIENT_REQUEST_DESCRIPTION], describePending := true);
    var s3 := s2.(describePending := false, receiving := true);
    var s4 := s3.(requests := [], wire := EncodeAll([d]), sent := [d]);
    assert [] + [OP_CLIENT_REQUEST_DESCRIPTION] == [OP_CLIENT_REQUEST_DESCRIPTION];
    assert Open(s0, s1) && Connected(s1, s2) && Described(s2, s3);
    assert [] + EncodeAll([d]) == EncodeAll([d]) && [] + [d] == [d];
    assert s4 == Emit(s3.(requests := s3.requests[1..]), d);
    assert ServeDescription(s3, s4);
    DescriptionProcessed(s4, d);
    var s5 := ReceiveWhole(s4, [d]);
    trace := [s0, s1, s2, s3, s4, s5];
    assert trace[2].requests == [1];
  }

  lemma DescriptionProcessed(s: Session, d: Frame)
    requires s.source == Opening && s.processed == [] && d.header.eOperation == OP_SERVER_DESCRIPTION && !s.unexpected
    ensures ProcessAll(s.(wire := []), [d]) == s.(wire := [], source := Stopped, processed := [Event(d, Opening)])
  {
    var fs: seq<Frame> := [d];
    assert fs[1..] == [];
    assert [] + [Event(d, Opening)] == [Event(d, Opening)];
  }

  /** The application starts, and the sink learns of it. */
  lemma StartUp(s: Session) returns (trace: seq<Session>)
    requires s.source == Stopped && !s.startUsed && s.requests == [] && s.sinkReceiving && s.parser.header.eOperation == OP_UNKNOWN
    requires !s.startPending
    ensures Steps(trace) && trace[0] == s && Requested(trace, 2)
    ensures trace[|trace| - 1] == s.(startUsed := true, source := Started, sinkReceiving := false, connected := true, startQueued := false)
  {
    var t1 := s.(startQueued := true, startUsed := true);
    var t2 := t1.(startQueued := false, requests := [OP_CLIENT_REQUEST_START], startPending := true, source := Started);
    var t3 := t2.(startPending := false);
    var t4 := t3.(requests := [], sinkReceiving := false, connected := true);
    assert [] + [OP_CLIENT_REQUEST_START] == [OP_CLIENT_REQUEST_START];
    assert ResetHeader(s.parser) == s.parser;
    assert Start(s, t1) && DoStart(t1, t2) && StartSent(t2, t3) && ServeStart(t3, t4);
    trace := [s, t1, t2, t3, t4];
    assert trace[2].requests == [2];
  }

  /** From the first step to the state in which the sink may send samples. */
  lemma Prologue(d: Frame) returns (trace: seq<Session>)
    requires Sendable(d) && d.header.eOperation == OP_SERVER_DESCRIPTION
    ensures Steps(trace) && Init(trace[0])
    ensures Requested(trace, 1) && Requested(trace, 2)
    ensures var t := trace[|trace| - 1];
            && t.parser.header.eOperation == OP_UNKNOWN && t.parser.pending == [] && t.wire == []
            && t.source == Started && t.receiving && t.connected && !t.unexpected && t.processed == [Event(d, Opening)]
  {
    hide Next, Init;
    var a := Introduction(d);
    var b := StartUp(a[|a| - 1]);
    StepsJoin(a, b);
    trace := a + b[1..];
    RequestedBefore(a, b[1..], 1);
    var j :| 0 <= j < |b| && b[j].requests == [2];
    assert trace[|a| - 1 + j].requests == [2];
  }

  /** The sink sends these frames, and the source processes them. */
  lemma Samples(s: Session, fs: seq<Frame>) returns (trace: seq<Session>)
    requires s.parser.header.eOperation == OP_UNKNOWN && s.parser.pending == [] && s.wire == []
    requires s.source == Started && s.receiving && s.connected && !s.unexpected && AllSendable(fs)
    requires forall i :: 0 <= i < |fs| ==> fs[i].header.eOperation != OP_SERVER_DESCRIPTION
    ensures Steps(trace) && trace[0] == s
    ensures var t := trace[|trace| - 1];
            && t.source == Started && !t.unexpected && t.wire == [] && t.parser.pending == []
            && t.processed == s.processed + EventsOf(fs, Started)
  {
    hide Next, EncodeAll;
    EncodeNone();
    trace := StreamAll(s, fs);
    var u := trace[|trace| - 1];
    assert [] + EncodeAll(fs) == EncodeAll(fs) && s.processed + [] == s.processed;
    if fs != [] {
      ProcessStarted(u.(wire := []), fs);
      var t := ReceiveWhole(u, fs);
      OneStep(u, t);
      StepsJoin(trace, [u, t]);
      trace := trace + [u, t][1..];
    }
  }

  /**
    Main result on progress: whatever description (operation 4) the sink gives and whatever samples and format
    changes (5 and 6) it sends, there is a conversation in which the source asks for the description (1) and the
    start (2), and processes all of them in turn.
   */
  lemma ConversationSucceeds(d: Frame, fs: seq<Frame>) returns (trace: seq<Session>)
    requires d.header.eOperation == 4 && 1 <= |d.payload| == d.header.cbDataSize <= 0x10_0000
    requires forall i :: 0 <= i < |fs| ==>
               5 <= fs[i].header.eOperation <= 6 && 1 <= |fs[i].payload| == fs[i].header.cbDataSize <= 0x10_0000
    ensures Run(trace)
    ensures Requested(trace, 1) && Requested(trace, 2)
    ensures var t := trace[|trace| - 1];
            && t.source == Started && !t.unexpected && t.wire == [] && t.parser.pending == []
            && |t.processed| == 1 + |fs| && t.processed[0].frame == d
            && forall i :: 0 <= i < |fs| ==> t.processed[i + 1].frame == fs[i]
  {
    hide Next, Init, Requested;
    var a := Prologue(d);
    AllSendableHere(fs);
    var b := Samples(a[|a| - 1], fs);
    StepsJoin(a, b);
    trace := a + b[1..];
    RequestedBefore(a, b[1..], 1);
    RequestedBefore(a, b[1..], 2);
    RunIs(trace);
  }

  lemma RunIs(trace: seq<Session>)
    requires Steps(trace) && Init(trace[0])
    ensures Run(trace)
  {
  }

  lemma AllSendableHere(fs: seq<Frame>)
    requires forall i :: 0 <= i < |fs| ==>
               5 <= fs[i].header.eOperation <= 6 && 1 <= |fs[i].payload| == fs[i].header.cbDataSize <= 0x10_0000
    ensures AllSendable(fs)
  {
  }
}
