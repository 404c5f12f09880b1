/**
  The receiving half of the media source: every received buffer is appended to the current packet and
  parsed in place.  The proof ties the object code to `Feed`, whose framing laws hold for byte strings.
 */
module StspReceiver {

  import opened Common
  import opened StspWire
  import opened StspBuffers
  import Framing = StspFraming

  const RECEIVE_BUFFER_SIZE: nat := 2 * 1024

  class Receiver {
    var packet: BufferPacket?
    var current: MediaBufferWrapper?
    var header: Header

    /** The packets passed to `ProcessPacket` so far. */
    ghost var delivered: seq<Frame>

    constructor ()
      ensures Valid() && State() == Framing.IDLE && delivered == [] && current == null && packet == null
    {
      packet, current, header, delivered := null, null, Header(0, OP_UNKNOWN), [];
    }

    /** The objects the parser may change. */
    ghost function Parts(): set<object>
      reads this, packet
    {
      (if packet == null then {} else {packet} + packet.owned) + (if current == null then {} else {current, current.buffer})
    }

    ghost predicate Valid()
      reads this, packet, if packet == null then {} else packet.owned + packet.memories
    {
      packet != null ==> packet.Valid() && this !in packet.owned && this !in packet.memories
    }

    /** A received buffer is waiting to be parsed; it is not part of the packet yet. */
    ghost predicate Received()
      reads this, packet, current, if current == null then {} else {current.buffer}
    {
      && current != null && current.Valid()
      && (packet != null ==> Separate(packet.buffers + [current]))
    }

    ghost function State(): Framing.Parser
      reads this, packet
    {
      Framing.Parser(header, if packet == null then [] else packet.Bytes())
    }

    /** The outcome of a parse in terms of the framing of byte strings. */
    ghost predicate Did(r: Framing.Result, hr: HResult, before: seq<Frame>)
      reads this, packet, if packet == null then {} else packet.owned + packet.memories
    {
      match r
      case Parsed(frames, p) => hr == Ok && Valid() && current == null && State() == p && delivered == before + frames
      case Failed(frames, error) => hr == error && delivered == before + frames
    }

    method ParseCurrentBuffer() returns (hr: HResult)
      requires Valid() && Received()
      modifies this, Parts()
      ensures Did(Framing.Feed(old(State()), old(current.Bytes())), hr, old(delivered))
      ensures hr == Ok ==> forall o: object? :: o in Parts() && o !in old(Parts()) ==> fresh(o)
      decreases |current.Bytes()|, 1
    {
      hide Flatten, MediaBufferWrapper.Bytes, BufferPacket.Bytes, EndsWith, Framing.FeedPayload, DecodeHeader;
      var last := current;
      ghost var chunk := current.Bytes();
      if packet == null {
        packet := new BufferPacket();
      }
      ghost var pending := packet.Bytes();
      packet.AddBuffer(current);
      current := null;
      assert packet.Bytes() == pending + chunk;
      packet.AsMany();
      EndsWithItself(packet.buffers, packet.views);
      TakeHeader(last, |chunk|);
      hr := ParsePayload(last, chunk);
    }

    /** Peels the operation header off the packet if it is due and complete. */
    method TakeHeader(last: MediaBufferWrapper, ghost n: nat)
      requires Valid() && packet != null && EndsWith(packet.buffers, packet.views, last, n)
      requires packet.buffers != [] && n == |packet.views[|packet.views| - 1]|
      modifies this`header, packet`buffers, packet`views, packet.buffers
      ensures Valid() && EndsWith(packet.buffers, packet.views, last, n)
      ensures var total := old(packet.Bytes());
              if old(header).eOperation != OP_UNKNOWN then header == old(header) && packet.Bytes() == total
              else if |total| >= HEADER_SIZE then header == DecodeHeader(total) && packet.Bytes() == total[HEADER_SIZE..]
              else header == old(header).(cbDataSize := MAX_PACKET_SIZE) && packet.Bytes() == total
    {
      hide Flatten, MediaBufferWrapper.Bytes, BufferPacket.Bytes, BufferPacket.Valid, EndsWith, DecodeHeader;
      ghost var total := packet.Bytes();
      if header.eOperation == OP_UNKNOWN {
        var length := packet.GetTotalLength();
        if length >= HEADER_SIZE {
          packet.OwnsBuffers();
          packet.EndFacts(last, n);
          var hr, bytes := packet.MoveLeft(HEADER_SIZE);
          header := DecodeHeader(bytes);
          Framing.HeaderOfPrefix(bytes, total[HEADER_SIZE..]);
          assert total == bytes + total[HEADER_SIZE..];
        } else {
          header := header.(cbDataSize := MAX_PACKET_SIZE);
        }
      }
    }

    /** The part of the parse behind the header; `last` is the buffer that was received last. */
    method ParsePayload(last: MediaBufferWrapper, ghost chunk: seq<byte>) returns (hr: HResult)
      requires Valid() && packet != null && current == null
      requires EndsWith(packet.buffers, packet.views, last, |chunk|)
      modifies this, Parts()
      ensures Did(Framing.FeedPayload(old(header), old(packet.Bytes()), |chunk|), hr, old(delivered))
      ensures hr == Ok ==> forall o: object? :: o in Parts() && o !in old(Parts()) ==> fresh(o)
      decreases |chunk|, 0
    {
      hide Flatten, MediaBufferWrapper.Bytes, BufferPacket.Bytes, BufferPacket.Valid, EndsWith, Framing.Feed;
      ghost var rest, log := packet.Bytes(), delivered;
      hr := Ok;
      var total := packet.GetTotalLength();
      if Refused(header) {
        return UnsupportedFormat;
      }
      if total > header.cbDataSize {
        hr := CutSurplus(last, total, |chunk|);
        if hr != Ok {
          assert delivered == log + [];
          return hr;
        }
        total := header.cbDataSize;
      }
      assert total == header.cbDataSize ==> packet.Bytes() == rest[..header.cbDataSize];
      if total == header.cbDataSize {
        hr := ProcessPacket();
        if hr != Ok {
          return hr;
        }
        packet := null;
        header := header.(eOperation := OP_UNKNOWN);
      }
      if current != null {
        ghost var frame := delivered[|log|..];
        ghost var r := Framing.Feed(State(), current.Bytes());
        hr := ParseCurrentBuffer();
        ConcatAssoc(log, frame, r.frames);
      }
    }

    /** The packet keeps the bytes the header announces; those of the last buffer behind them are to be parsed next. */
    method CutSurplus(last: MediaBufferWrapper, total: nat, ghost n: nat) returns (hr: HResult)
      requires Valid() && packet != null && total == |packet.Bytes()| > header.cbDataSize
      requires EndsWith(packet.buffers, packet.views, last, n)
      modifies this`current, packet`views, packet.owned
      ensures Valid() && packet == old(packet)
      ensures var size := header.cbDataSize;
              && hr == (if Min(n, total) <= total - size then InvalidArg else Ok)
              && (hr == Ok ==>
                    && current != null && fresh(current) && fresh(current.buffer) && current.Valid()
                    && packet.Bytes() == old(packet.Bytes())[..size] && current.Bytes() == old(packet.Bytes())[size..])
    {
      hide Flatten, MediaBufferWrapper.Bytes, BufferPacket.Valid, EndsWith;
      ghost var rest := packet.Bytes();
      packet.OwnsBuffers();
      packet.EndFacts(last, n);
      hr, current := packet.TrimLastRight(total - header.cbDataSize);
      if hr == Ok {
        assert packet.Bytes() == rest[..header.cbDataSize] && current.Bytes() == rest[header.cbDataSize..];
      }
    }

    /** One reception: a fresh buffer takes what the socket delivered, and the parser takes the buffer. */
    method Receive(data: seq<byte>) returns (hr: HResult)
      requires Valid() && current == null && |data| <= RECEIVE_BUFFER_SIZE
      modifies this, Parts()
      ensures Did(Framing.Feed(old(State()), data), hr, old(delivered))
      ensures hr == Ok ==> forall o: object? :: o in Parts() && o !in old(Parts()) ==> fresh(o)
    {
      hide Flatten, Framing.Feed, EndsWith, MediaBufferWrapper.Bytes;
      var wrapper := FilledBuffer(data);
      if packet != null {
        packet.OwnsBuffers();
        assert forall i :: 0 <= i < |packet.buffers| ==> packet.buffers[i] != wrapper && packet.buffers[i].buffer != wrapper.buffer;
      }
      current := wrapper;
      assert Separate([wrapper]);
      hr := ParseCurrentBuffer();
    }

    /** A fresh receive buffer holding what the socket delivered. */
    method FilledBuffer(data: seq<byte>) returns (wrapper: MediaBufferWrapper)
      requires |data| <= RECEIVE_BUFFER_SIZE
      ensures fresh(wrapper) && fresh(wrapper.buffer) && wrapper.Valid() && wrapper.Bytes() == data
    {
      var buffer := new MediaBuffer.Create(RECEIVE_BUFFER_SIZE);
      wrapper := new MediaBufferWrapper(buffer);
      forall i | 0 <= i < |data| {
        buffer.memory[i] := data[i];
      }
      var hr := wrapper.SetCurrentLength(|data|);
      assert wrapper.Bytes() == data;
    }

    /** The receptions of a connection; an error ends them. */
    method ReceiveAll(chunks: seq<seq<byte>>) returns (hr: HResult)
      requires Valid() && current == null && forall i :: 0 <= i < |chunks| ==> |chunks[i]| <= RECEIVE_BUFFER_SIZE
      modifies this, Parts()
      ensures Did(Framing.FeedAll(old(State()), chunks), hr, old(delivered))
    {
      hide Framing.Feed, Framing.FeedAll, BufferPacket.Valid, BufferPacket.Bytes;
      ghost var all, log, done := Framing.FeedAll(State(), chunks), delivered, [];
      hr := Ok;
      assert chunks[0..] == chunks;
      Framing.NothingFed(State(), chunks);
      for i := 0 to |chunks|
        invariant Valid() && current == null && hr == Ok && delivered == log + done
        invariant forall o: object? :: o in Parts() && o !in old(Parts()) ==> fresh(o)
        invariant all == Framing.FeedAll(State(), chunks[i..]).After(done)
      {
        assert chunks[i..][0] == chunks[i] && chunks[i..][1..] == chunks[i + 1..];
        Framing.FeedNext(State(), chunks[i..], done);
        Framing.FailedIsNotOk(State(), chunks[i]);
        ghost var frames := Framing.Feed(State(), chunks[i]).frames;
        hr := Receive(chunks[i]);
        ConcatAssoc(log, done, frames);
        if hr != Ok {
          return;
        }
        done := done + frames;
      }
      Framing.NothingFed(State(), chunks[|chunks|..]);
    }

    /** Dispatches on the operation; the handlers of the supported operations are not part of this class. */
    method ProcessPacket() returns (hr: HResult)
      requires packet != null
      modifies this`delivered
      ensures delivered == old(delivered) + [Frame(header, packet.Bytes())]
      ensures hr == if Supported(header.eOperation) then Ok else UnsupportedFormat
    {
      delivered := delivered + [Frame(header, packet.Bytes())];
      if Supported(header.eOperation) {
        hr := Ok;
      } else {
        hr := UnsupportedFormat;
      }
    }
  }

  /**
    One message over a new connection, byte by byte, in any chunks: a description (4), a sample (5) and a format
    change (6) are handed on, a request of a client is refused when it is complete, anything else at once.
   */
  method ReceiveMessage(op: uint32, payload: seq<byte>, chunks: seq<seq<byte>>) returns (r: Receiver, hr: HResult)
    requires 1 <= |payload| <= 0x10_0000 && 0 < op < 0x8000_0000
    requires forall i :: 0 <= i < |chunks| ==> |chunks[i]| <= 2048
    requires Flatten(chunks)
             == [|payload| % 0x100, |payload| / 0x100 % 0x100, |payload| / 0x1_0000 % 0x100, |payload| / 0x100_0000,
                 op % 0x100, op / 0x100 % 0x100, op / 0x1_0000 % 0x100, op / 0x100_0000] + payload
    ensures 4 <= op <= 6 ==> hr == Ok && r.delivered == [Frame(Header(|payload|, op), payload)]
    ensures 4 <= op <= 6 ==> r.Valid() && r.current == null && r.State().header.eOperation == 0 && r.State().pending == []
    ensures op <= 3 ==> hr == UnsupportedFormat && r.delivered == [Frame(Header(|payload|, op), payload)]
    ensures op >= 7 ==> hr == UnsupportedFormat && r.delivered == []
  {
    hide Framing.FeedAll, Flatten;
    Framing.MessageOnTheWire(op, payload, chunks);
    r := new Receiver();
    hr := r.ReceiveAll(chunks);
  }
}
