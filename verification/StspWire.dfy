/**
  The bytes of the streaming protocol: little-endian words, the operation header that precedes every
  message, and the framing of a byte stream into messages.
 */
module StspWire {

  import opened Common

  /** The largest payload the receiver accepts. */
  const MAX_PACKET_SIZE: uint32 := 1024 * 1024

  const HEADER_SIZE: nat := 8

  const OP_UNKNOWN := 0
  const OP_CLIENT_REQUEST_DESCRIPTION := 1
  const OP_CLIENT_REQUEST_START := 2
  const OP_CLIENT_REQUEST_STOP := 3
  const OP_SERVER_DESCRIPTION := 4
  const OP_SERVER_SAMPLE := 5
  const OP_SERVER_FORMAT_CHANGE := 6
  const OP_LAST := 7

  /** The header as it lies in memory; the operation is a signed enumeration value. */
  datatype Header = Header(cbDataSize: uint32, eOperation: int)

  datatype Frame = Frame(header: Header, payload: seq<byte>)

  datatype SourceState = Invalid | Opening | Starting | Started | Stopped | Shutdown

  function Le32(b: seq<byte>, i: nat): uint32
    requires i + 4 <= |b|
  {
    var b0: int, b1: int, b2: int, b3: int := b[i], b[i + 1], b[i + 2], b[i + 3];
    b0 + 0x100 * b1 + 0x1_0000 * b2 + 0x100_0000 * b3
  }

  function PutLe32(n: uint32): (b: seq<byte>)
    ensures |b| == 4
  {
    [n % 0x100, n / 0x100 % 0x100, n / 0x1_0000 % 0x100, n / 0x100_0000]
  }

  lemma PutGet32(n: uint32, b: seq<byte>, i: nat)
    requires i + 4 <= |b| && b[i..i + 4] == PutLe32(n)
    ensures Le32(b, i) == n
  {
    hide *;
    PutLe32Is(n);
    Le32Is(b, i);
    var w := b[i..i + 4];
    assert w[0] == b[i] && w[1] == b[i + 1] && w[2] == b[i + 2] && w[3] == b[i + 3];
    Composed(n);
  }

  lemma Composed(n: uint32)
    ensures n == n % 0x100 + 0x100 * (n / 0x100 % 0x100) + 0x1_0000 * (n / 0x1_0000 % 0x100) + 0x100_0000 * (n / 0x100_0000)
  {
    assert n / 0x1_0000 == n / 0x100 / 0x100;
    assert n / 0x100_0000 == n / 0x1_0000 / 0x100;
  }

  lemma PutLe32Is(n: uint32)
    ensures PutLe32(n) == [n % 0x100, n / 0x100 % 0x100, n / 0x1_0000 % 0x100, n / 0x100_0000]
  {
  }

  lemma Le32Is(b: seq<byte>, i: nat)
    requires i + 4 <= |b|
    ensures Le32(b, i) == (b[i] as int) + 0x100 * (b[i + 1] as int) + 0x1_0000 * (b[i + 2] as int) + 0x100_0000 * (b[i + 3] as int)
  {
  }

  /** The base-256 digits of a number are determined by it. */
  lemma Digits(b0: byte, b1: byte, b2: byte, b3: byte)
    ensures var n := (b0 as int) + 0x100 * (b1 as int) + 0x1_0000 * (b2 as int) + 0x100_0000 * (b3 as int);
            n % 0x100 == b0 && n / 0x100 % 0x100 == b1 && n / 0x1_0000 % 0x100 == b2 && n / 0x100_0000 == b3
  {
    var n := (b0 as int) + 0x100 * (b1 as int) + 0x1_0000 * (b2 as int) + 0x100_0000 * (b3 as int);
    var n1 := (b1 as int) + 0x100 * (b2 as int) + 0x1_0000 * (b3 as int);
    var n2 := (b2 as int) + 0x100 * (b3 as int);
    assert n == 0x100 * n1 + b0 && n / 0x100 == n1;
    assert n1 == 0x100 * n2 + b1 && n / 0x1_0000 == n2;
  }

  lemma GetPut32(b: seq<byte>, i: nat)
    requires i + 4 <= |b|
    ensures PutLe32(Le32(b, i)) == b[i..i + 4]
  {
    hide *;
    Digits(b[i], b[i + 1], b[i + 2], b[i + 3]);
    PutLe32Is(Le32(b, i));
    Le32Is(b, i);
    assert b[i..i + 4] == [b[i], b[i + 1], b[i + 2], b[i + 3]];
  }

  function AsInt32(n: uint32): int {
    if n < 0x8000_0000 then n else n - 0x1_0000_0000
  }

  function AsUint32(n: int): uint32
    requires -0x8000_0000 <= n < 0x8000_0000
  {
    if n >= 0 then n else n + 0x1_0000_0000
  }

  function DecodeHeader(b: seq<byte>): Header
    requires |b| >= HEADER_SIZE
  {
    Header(Le32(b, 0), AsInt32(Le32(b, 4)))
  }

  predicate Encodable(h: Header) {
    -0x8000_0000 <= h.eOperation < 0x8000_0000
  }

  function EncodeHeader(h: Header): (b: seq<byte>)
    requires Encodable(h)
    ensures |b| == HEADER_SIZE
  {
    PutLe32(h.cbDataSize) + PutLe32(AsUint32(h.eOperation))
  }

  lemma DecodeEncoded(h: Header, rest: seq<byte>)
    requires Encodable(h)
    ensures DecodeHeader(EncodeHeader(h) + rest) == h
  {
    var b := EncodeHeader(h) + rest;
    assert b[0..4] == PutLe32(h.cbDataSize);
    assert b[4..8] == PutLe32(AsUint32(h.eOperation));
    PutGet32(h.cbDataSize, b, 0);
    PutGet32(AsUint32(h.eOperation), b, 4);
  }

  lemma EncodeDecoded(b: seq<byte>)
    requires |b| >= HEADER_SIZE
    ensures Encodable(DecodeHeader(b)) && EncodeHeader(DecodeHeader(b)) == b[..HEADER_SIZE]
  {
    GetPut32(b, 0);
    GetPut32(b, 4);
    assert b[..8] == b[0..4] + b[4..8];
  }

  /** The header checks of the receiver. */
  predicate Refused(h: Header) {
    MAX_PACKET_SIZE < h.cbDataSize || h.eOperation >= OP_LAST
  }

  /** The operations the source can process. */
  predicate Supported(op: int) {
    op == OP_SERVER_DESCRIPTION || op == OP_SERVER_SAMPLE || op == OP_SERVER_FORMAT_CHANGE
  }

  // ---------------------------------------------------------------- lists of byte strings

  function Flatten(chunks: seq<seq<byte>>): seq<byte> {
    if chunks == [] then [] else chunks[0] + Flatten(chunks[1..])
  }

  lemma {:induction false} FlattenConcat(a: seq<seq<byte>>, b: seq<seq<byte>>)
    ensures Flatten(a + b) == Flatten(a) + Flatten(b)
  {
    if a == [] {
      assert a + b == b;
    } else {
      assert (a + b)[1..] == a[1..] + b;
      FlattenConcat(a[1..], b);
    }
  }

  /** Taking apart a list at its `i`-th string. */
  lemma FlattenAt(v: seq<seq<byte>>, i: nat)
    requires i < |v|
    ensures Flatten(v[i..]) == v[i] + Flatten(v[i + 1..])
    ensures Flatten(v[..i + 1]) == Flatten(v[..i]) + v[i]
  {
    assert v[i..][1..] == v[i + 1..];
    assert v[..i + 1] == v[..i] + [v[i]];
    var one: seq<seq<byte>> := [v[i]];
    FlattenConcat(v[..i], one);
    assert Flatten(one) == v[i] + Flatten(one[1..]) == v[i];
  }

  function Lengths(v: seq<seq<byte>>): (ls: seq<nat>)
    ensures |ls| == |v|
  {
    seq(|v|, i requires 0 <= i < |v| => |v[i]|)
  }
}
