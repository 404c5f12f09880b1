/**
  The conversions between wide characters and UTF-8 without flags: what each character is encoded as,
  how a sequence is decoded, and exactly which texts survive both. Shifts and masks are written as
  division and remainder.
 */
module Utf8 {
  import opened Common

  newtype octet = b: int | 0 <= b < 0x100

  type wchar = c: int | -0x8000_0000 <= c < 0x8000_0000

  predicate WcharForbidden(c: wchar) {
    0xd800 <= c <= 0xdfff
  }

  predicate Utf8Forbidden(b: octet) {
    b == 0xc0 || b == 0xc1 || b == 0xf5 || b == 0xff
  }

  // -------- One character --------

  function EncodedLength(c: wchar): (n: nat)
    requires c >= 0
    ensures 1 <= n <= 6
  {
    if c <= 0x7f then 1
    else if c <= 0x7ff then 2
    else if c <= 0xffff then 3
    else if c <= 0x1fffff then 4
    else if c <= 0x3ffffff then 5
    else 6
  }

  /** The lowest six bits, marked as belonging to a sequence. */
  function Continuation(c: nat): octet {
    (0x80 + c % 64) as octet
  }

  /** The bits above the lowest `k` groups of six. */
  function Top(c: nat, k: nat): nat {
    if k == 0 then c else Top(c / 64, k - 1)
  }

  /** The lowest `k` groups of six bits, the highest group first. */
  function Tail(c: nat, k: nat): (s: seq<octet>)
    ensures |s| == k
  {
    if k == 0 then [] else Tail(c / 64, k - 1) + [Continuation(c)]
  }

  /** The first octet announces the length by its leading ones. */
  function Mark(n: nat): nat {
    match n
    case 1 => 0
    case 2 => 0xc0
    case 3 => 0xe0
    case 4 => 0xf0
    case 5 => 0xf8
    case _ => 0xfc
  }

  /** How many values are left for the payload of the first octet. */
  function Room(n: nat): nat {
    match n
    case 1 => 0x80
    case 2 => 0x20
    case 3 => 0x10
    case 4 => 0x08
    case 5 => 0x04
    case _ => 0x02
  }

  lemma LeadFits(c: wchar)
    requires c >= 0
    ensures Top(c, EncodedLength(c) - 1) < Room(EncodedLength(c))
  {
    TopUnrolled(c);
  }

  lemma TopUnrolled(c: nat)
    ensures Top(c, 0) == c && Top(c, 1) == c / 64 && Top(c, 2) == c / 64 / 64 && Top(c, 3) == c / 64 / 64 / 64
    ensures Top(c, 4) == c / 64 / 64 / 64 / 64 && Top(c, 5) == c / 64 / 64 / 64 / 64 / 64
  {
    var d := c / 64 / 64;
    assert Top(c, 2) == Top(d, 0) && Top(c, 3) == Top(d / 64, 0) && Top(c, 4) == Top(d / 64 / 64, 0);
    assert Top(c, 5) == Top(d, 3) == Top(d / 64 / 64, 1);
  }

  /** The sequences of section 3 of RFC 3629, continued to five and six octets. */
  function Encode(c: wchar): (s: seq<octet>)
    requires c >= 0
    ensures |s| == EncodedLength(c)
  {
    var n := EncodedLength(c);
    LeadFits(c);
    [(Mark(n) + Top(c, n - 1)) as octet] + Tail(c, n - 1)
  }

  /** The table of section 3 of RFC 3629, and the longer sequences of its predecessor. */
  lemma EncodedAs(c: wchar)
    requires c >= 0
    ensures c <= 0x7f ==> Encode(c) == [c as octet]
    ensures 0x80 <= c <= 0x7ff ==> Encode(c) == [(0xc0 + c / 64) as octet, (0x80 + c % 64) as octet]
    ensures 0x800 <= c <= 0xffff ==>
              Encode(c) == [(0xe0 + c / 4096) as octet, (0x80 + c / 64 % 64) as octet, (0x80 + c % 64) as octet]
    ensures 0x1_0000 <= c <= 0x1f_ffff ==>
              Encode(c) == [(0xf0 + c / 262144) as octet, (0x80 + c / 4096 % 64) as octet, (0x80 + c / 64 % 64) as octet,
                            (0x80 + c % 64) as octet]
    ensures c > 0x1f_ffff ==> |Encode(c)| == if c <= 0x3ff_ffff then 5 else 6
  {
    hide Top, Tail;
    TopUnrolled(c);
    TailUnrolled(c);
    Quotients(c);
  }

  lemma Quotients(c: nat)
    ensures c / 4096 == c / 64 / 64 && c / 262144 == c / 64 / 64 / 64
  {
  }

  lemma TailUnrolled(c: nat)
    ensures Tail(c, 0) == [] && Tail(c, 1) == [Continuation(c)]
    ensures Tail(c, 2) == [Continuation(c / 64), Continuation(c)]
    ensures Tail(c, 3) == [Continuation(c / 64 / 64), Continuation(c / 64), Continuation(c)]
  {
    hide Continuation;
    var d := c / 64;
    assert Tail(d / 64, 1) == Tail(d / 64 / 64, 0) + [Continuation(d / 64)];
    assert Tail(d, 2) == Tail(d / 64, 1) + [Continuation(d)];
    assert Tail(d, 1) == Tail(d / 64, 0) + [Continuation(d)];
  }

  /** How many octets the first one announces; none if it cannot be a first one. */
  function SequenceLength(b: octet): (n: nat)
    ensures n <= 6
  {
    if b < 0x80 then 1
    else if 0xc0 <= b < 0xe0 then 2
    else if 0xe0 <= b < 0xf0 then 3
    else if 0xf0 <= b < 0xf8 then 4
    else if 0xf8 <= b < 0xfc then 5
    else if 0xfc <= b < 0xfe then 6
    else 0
  }

  function High(b: octet): nat {
    b as nat % Room(SequenceLength(b))
  }

  predicate Continues(b: octet) {
    0x80 <= b < 0xc0
  }

  function Payload(b: octet): nat {
    b as nat % 64
  }

  /** The number a sequence stands for, the first octet in the highest place. */
  function CodePoint(s: seq<octet>): nat
    requires s != []
  {
    if |s| == 1 then High(s[0]) else CodePoint(s[..|s| - 1]) * 64 + Payload(s[|s| - 1])
  }

  predicate WellFormed(s: seq<octet>) {
    && s != [] && !Utf8Forbidden(s[0]) && SequenceLength(s[0]) == |s|
    && forall i :: 1 <= i < |s| ==> Continues(s[i])
  }

  // -------- Decoding undoes encoding, character by character --------

  lemma LeadDecodes(n: nat, high: nat)
    requires 1 <= n <= 6 && high < Room(n)
    ensures var lead := (Mark(n) + high) as octet;
            && SequenceLength(lead) == n && High(lead) == high
            && (Utf8Forbidden(lead) <==> (n == 2 && high <= 1) || (n == 4 && high == 5))
            && (lead == 0 <==> n == 1 && high == 0)
  {
    match n {
      case 1 =>
      case 2 =>
        assert (0xc0 + high) % 0x20 == high;
      case 3 =>
        assert (0xe0 + high) % 0x10 == high;
      case 4 =>
        assert (0xf0 + high) % 0x08 == high;
      case 5 =>
        assert (0xf8 + high) % 0x04 == high;
      case _ =>
        assert (0xfc + high) % 0x02 == high;
    }
  }

  lemma {:induction false} TailDecodes(c: nat, k: nat, lead: octet)
    requires High(lead) == Top(c, k)
    ensures CodePoint([lead] + Tail(c, k)) == c
    ensures forall i :: 0 <= i < k ==> Continues(Tail(c, k)[i])
    decreases k
  {
    hide High;
    if k > 0 {
      TailDecodes(c / 64, k - 1, lead);
      var s := [lead] + Tail(c, k);
      assert s[..|s| - 1] == [lead] + Tail(c / 64, k - 1);
    }
  }

  lemma ForbiddenLead(c: wchar)
    requires c >= 0
    ensures var n := EncodedLength(c); var high := Top(c, n - 1);
            (n == 2 && high <= 1) || (n == 4 && high == 5) <==> 0x140000 <= c <= 0x17ffff
  {
    TopUnrolled(c);
  }

  lemma EncodeDecodes(c: wchar)
    requires c >= 0
    ensures CodePoint(Encode(c)) == c
    ensures WellFormed(Encode(c)) <==> !(0x140000 <= c <= 0x17ffff)
    ensures !WellFormed(Encode(c)) ==> Utf8Forbidden(Encode(c)[0])
    ensures Encode(c)[0] == 0 <==> c == 0
  {
    hide High, SequenceLength, Top, CodePoint, Room, Mark;
    var n := EncodedLength(c);
    LeadFits(c);
    var lead := Encode(c)[0];
    LeadDecodes(n, Top(c, n - 1));
    TailDecodes(c, n - 1, lead);
    ForbiddenLead(c);
    TopUnrolled(c);
    assert Encode(c) == [lead] + Tail(c, n - 1);
    assert forall i :: 1 <= i < n ==> Encode(c)[i] == Tail(c, n - 1)[i - 1];
  }

  // -------- The shortest form --------

  lemma {:induction false} CodePointFits(s: seq<octet>, k: nat, bound: nat)
    requires 1 <= k <= |s| && CodePoint(s[..k]) < bound
    ensures CodePoint(s) < bound * Power64(|s| - k)
    decreases |s|
  {
    if k == |s| {
      assert s[..k] == s;
    } else {
      var rest := s[..|s| - 1];
      assert rest[..k] == s[..k];
      CodePointFits(rest, k, bound);
      Rescale(bound, Power64(|rest| - k));
    }
  }

  lemma Rescale(bound: nat, p: nat)
    ensures bound * (64 * p) == 64 * (bound * p)
  {
  }

  function Power64(n: nat): nat {
    if n == 0 then 1 else 64 * Power64(n - 1)
  }

  lemma PowersOf64()
    ensures Power64(0) == 1 && Power64(1) == 64 && Power64(2) == 4096 && Power64(3) == 262144
    ensures Power64(4) == 16777216 && Power64(5) == 1073741824
  {
    assert Power64(2) == 64 * Power64(1) && Power64(3) == 64 * Power64(2) && Power64(4) == 64 * Power64(3);
    assert Power64(5) == 64 * Power64(4);
  }

  /** No well-formed sequence for the character is shorter than its encoding. */
  lemma ShortestForm(s: seq<octet>, c: wchar)
    requires c >= 0 && WellFormed(s) && CodePoint(s) == c
    ensures |Encode(c)| <= |s|
  {
    hide CodePoint, Power64, WellFormed;
    FirstFits(s);
    CodePointFits(s, 1, Room(|s|));
    PowersOf64();
  }

  lemma FirstFits(s: seq<octet>)
    requires WellFormed(s)
    ensures CodePoint(s[..1]) < Room(|s|) && 1 <= |s| <= 6
  {
  }

  // -------- Whole texts --------

  /** Up to the terminator; nothing if a character cannot be encoded. */
  function ToUtf8(s: seq<wchar>): Option<seq<octet>> {
    if s == [] || s[0] == 0 then Some([])
    else if WcharForbidden(s[0]) || s[0] < 0 then None
    else
      match ToUtf8(s[1..])
      case None => None
      case Some(rest) => Some(Encode(s[0]) + rest)
  }

  /** The character at the front and what is behind it; surrogates are only looked for on request. */
  function DecodeFront(s: seq<octet>, surrogates: bool): (r: Option<(wchar, nat)>)
    requires s != []
    ensures r.Some? ==> 1 <= r.value.1 <= |s|
  {
    var n := SequenceLength(s[0]);
    if n == 0 || n > |s| || !WellFormed(s[..n]) then None
    else
      FirstFits(s[..n]);
      CodePointFits(s[..n], 1, Room(n));
      PowersOf64();
      var c: nat := CodePoint(s[..n]);
      if surrogates && WcharForbidden(c) then None else Some((c, n))
  }

  function FromUtf8(s: seq<octet>, surrogates: bool): Option<seq<wchar>>
    decreases |s|
  {
    if s == [] || s[0] == 0 then Some([])
    else
      match DecodeFront(s, surrogates)
      case None => None
      case Some((c, n)) =>
        match FromUtf8(s[n..], surrogates)
        case None => None
        case Some(rest) => Some([c] + rest)
  }

  predicate NoSurrogates(s: seq<wchar>) {
    forall i :: 0 <= i < |s| ==> !WcharForbidden(s[i])
  }

  /** Looking for surrogates or not makes a difference exactly for well-formed texts that contain one. */
  lemma {:induction false} SurrogatesMatter(s: seq<octet>)
    ensures FromUtf8(s, true) == FromUtf8(s, false)
            <==> FromUtf8(s, false).None? || NoSurrogates(FromUtf8(s, false).value)
    ensures FromUtf8(s, true).Some? ==> FromUtf8(s, true) == FromUtf8(s, false)
    decreases |s|
  {
    if s != [] && s[0] != 0 {
      FrontSurrogates(s);
      hide DecodeFront;
      var front := DecodeFront(s, false);
      if front.Some? {
        var (c, n) := front.value;
        SurrogatesMatter(s[n..]);
        var rest := FromUtf8(s[n..], false);
        if rest.Some? {
          var all := FromUtf8(s, false).value;
          assert all == [c] + rest.value && all[0] == c && all[1..] == rest.value;
          assert forall i :: 0 <= i < |rest.value| ==> all[i + 1] == rest.value[i];
        }
      }
    }
  }

  lemma FrontSurrogates(s: seq<octet>)
    requires s != []
    ensures DecodeFront(s, true)
            == if DecodeFront(s, false).Some? && WcharForbidden(DecodeFront(s, false).value.0) then None else DecodeFront(s, false)
  {
  }

  /** The characters that come back; the forbidden octets cost a block beyond the range of Unicode. */
  predicate Survives(c: wchar) {
    c > 0 && !WcharForbidden(c) && !(0x140000 <= c <= 0x17ffff)
  }

  lemma FrontOfEncoded(c: wchar, rest: seq<octet>, surrogates: bool)
    requires c > 0 && !WcharForbidden(c)
    ensures var s := Encode(c) + rest;
            && s[0] != 0
            && DecodeFront(s, surrogates) == if Survives(c) then Some((c, |Encode(c)|)) else None
    ensures (Encode(c) + rest)[|Encode(c)|..] == rest
  {
    hide Encode, CodePoint, SequenceLength, Continues;
    EncodeDecodes(c);
    var s, e := Encode(c) + rest, Encode(c);
    assert s[..|e|] == e;
  }

  ghost predicate RoundTrips(s: seq<wchar>) {
    ToUtf8(s).Some? && FromUtf8(ToUtf8(s).value, true) == Some(s)
  }

  /** Main result: a text comes back from UTF-8 exactly if every character in it survives. */
  lemma {:induction false} RoundTrip(s: seq<wchar>)
    ensures RoundTrips(s) <==>
            forall i :: 0 <= i < |s| ==>
              0 < s[i] && !(0xd800 <= s[i] <= 0xdfff) && !(0x14_0000 <= s[i] <= 0x17_ffff)
  {
    hide Encode, DecodeFront;
    if s != [] {
      var c, t := s[0], s[1..];
      RoundTrip(t);
      if c > 0 && !WcharForbidden(c) && ToUtf8(t).Some? {
        FrontOfEncoded(c, ToUtf8(t).value, true);
        assert s == [c] + t;
      }
      assert (forall i :: 0 <= i < |s| ==> Survives(s[i])) <==>
          Survives(c) && forall i :: 0 <= i < |t| ==> Survives(t[i]);
    }
  }

  // -------- The loops --------

  /** The groups of six bits, put together from the octets of the machine word. */
  lemma Groups(ch: wchar, oc0: nat, oc1: nat, oc2: nat, oc3: nat)
    requires ch == oc0 + 0x100 * oc1 + 0x10000 * oc2 + 0x1000000 * oc3
    requires oc0 < 0x100 && oc1 < 0x100 && oc2 < 0x100 && oc3 < 0x80
    ensures ch % 64 == oc0 % 64
    ensures ch / 64 % 64 == oc0 / 64 + oc1 % 16 * 4
    ensures ch / 64 / 64 % 64 == oc1 / 16 + oc2 % 4 * 16
    ensures ch / 64 / 64 / 64 % 64 == oc2 / 4
    ensures ch / 64 / 64 / 64 / 64 % 64 == oc3 % 64
    ensures ch / 64 / 64 / 64 / 64 / 64 == oc3 / 64
  {
    assert ch / 64 == oc0 / 64 + 4 * oc1 + 0x400 * oc2 + 0x40000 * oc3;
    assert ch / 64 / 64 == oc1 / 16 + 16 * oc2 + 0x1000 * oc3;
    assert ch / 64 / 64 / 64 == oc2 / 4 + 0x40 * oc3;
  }

  lemma {:induction false} TailAt(c: nat, k: nat, i: nat)
    requires i < k
    ensures Tail(c, k)[k - 1 - i] == Continuation(Top(c, i))
    decreases i
  {
    if i > 0 {
      TailAt(c / 64, k - 1, i - 1);
    }
  }

  /** Every octet of an encoding. */
  lemma EncodeAt(c: wchar)
    requires c >= 0
    ensures var n, e := EncodedLength(c), Encode(c);
            && e[0] as nat == Mark(n) + Top(c, n - 1)
            && (n > 1 ==> e[n - 1] as nat == 0x80 + c % 64)
            && (n > 2 ==> e[n - 2] as nat == 0x80 + c / 64 % 64)
            && (n > 3 ==> e[n - 3] as nat == 0x80 + c / 64 / 64 % 64)
            && (n > 4 ==> e[n - 4] as nat == 0x80 + c / 64 / 64 / 64 % 64)
            && (n > 5 ==> e[n - 5] as nat == 0x80 + c / 64 / 64 / 64 / 64 % 64)
    ensures Top(c, EncodedLength(c) - 1) < Room(EncodedLength(c))
  {
    hide Tail, Top, EncodedLength, Mark, Room;
    var n, e := EncodedLength(c), Encode(c);
    TopUnrolled(c);
    LeadFits(c);
    var t := Tail(c, n - 1);
    assert forall j :: 1 <= j < n ==> e[j] == t[j - 1];
    forall i | 0 <= i < n - 1
      ensures e[n - 1 - i] == Continuation(Top(c, i))
    {
      TailAt(c, n - 1, i);
    }
    assert n > 1 ==> e[n - 1 - 0] == Continuation(Top(c, 0));
    assert n > 2 ==> e[n - 1 - 1] == Continuation(Top(c, 1));
    assert n > 3 ==> e[n - 1 - 2] == Continuation(Top(c, 2));
    assert n > 4 ==> e[n - 1 - 3] == Continuation(Top(c, 3));
    assert n > 5 ==> e[n - 1 - 4] == Continuation(Top(c, 4));
  }

  /** A group of six bits that lies in the lower, the middle or the upper part of an octet. */
  function Lower(oc: nat): octet {
    (0x80 + oc % 64) as octet
  }

  function Across(oc: nat, next: nat): octet
    requires oc < 0x100
  {
    (0x80 + oc / 64 + next % 16 * 4) as octet
  }

  function Between(oc: nat, next: nat): octet
    requires oc < 0x100
  {
    (0x80 + oc / 16 + next % 4 * 16) as octet
  }

  function Upper(oc: nat): octet
    requires oc < 0x100
  {
    (0x80 + oc / 4) as octet
  }

  /** The first octet, from those of the machine word. */
  function First(n: nat, oc0: nat, oc1: nat, oc2: nat, oc3: nat): octet
    requires oc0 < 0x100 && oc1 < 0x100 && oc2 < 0x100 && oc3 < 0x80 && (n == 1 ==> oc0 < 0x80)
  {
    match n
    case 1 => oc0 as octet
    case 2 => (0xc0 + oc0 / 64 + oc1 % 8 * 4) as octet
    case 3 => (0xe0 + oc1 / 16) as octet
    case 4 => (0xf0 + oc2 % 32 / 4) as octet
    case 5 => (0xf8 + oc3 % 4) as octet
    case _ => (0xfc + oc3 % 128 / 64) as octet
  }

  /** The octets of one character, from those of its machine word. */
  function Octets(n: nat, oc0: nat, oc1: nat, oc2: nat, oc3: nat): (s: seq<octet>)
    requires oc0 < 0x100 && oc1 < 0x100 && oc2 < 0x100 && oc3 < 0x80 && 1 <= n <= 6
    requires n == 1 ==> oc0 < 0x80
    ensures |s| == n && s[0] == First(n, oc0, oc1, oc2, oc3)
  {
    var first := First(n, oc0, oc1, oc2, oc3);
    match n
    case 1 => [first]
    case 2 => [first, Lower(oc0)]
    case 3 => [first, Across(oc0, oc1), Lower(oc0)]
    case 4 => [first, Between(oc1, oc2), Across(oc0, oc1), Lower(oc0)]
    case 5 => [first, Upper(oc2), Between(oc1, oc2), Across(oc0, oc1), Lower(oc0)]
    case _ => [first, Lower(oc3), Upper(oc2), Between(oc1, oc2), Across(oc0, oc1), Lower(oc0)]
  }

  lemma OctetsEncode(ch: wchar, oc0: nat, oc1: nat, oc2: nat, oc3: nat)
    requires ch >= 0 && ch == oc0 + 0x100 * oc1 + 0x10000 * oc2 + 0x1000000 * oc3
    requires oc0 < 0x100 && oc1 < 0x100 && oc2 < 0x100 && oc3 < 0x80
    ensures EncodedLength(ch) == 1 ==> oc0 < 0x80
    ensures Octets(EncodedLength(ch), oc0, oc1, oc2, oc3) == Encode(ch)
  {
    hide Encode, Top;
    LeadOctet(ch, oc0, oc1, oc2, oc3);
    Groups(ch, oc0, oc1, oc2, oc3);
    EncodeAt(ch);
    TailOctets(ch, oc0, oc1, oc2, oc3);
    assert Octets(EncodedLength(ch), oc0, oc1, oc2, oc3)[0] == Encode(ch)[0];
  }

  lemma TailOctets(ch: wchar, oc0: nat, oc1: nat, oc2: nat, oc3: nat)
    requires ch >= 0 && ch == oc0 + 0x100 * oc1 + 0x10000 * oc2 + 0x1000000 * oc3
    requires oc0 < 0x100 && oc1 < 0x100 && oc2 < 0x100 && oc3 < 0x80
    requires EncodedLength(ch) == 1 ==> oc0 < 0x80
    ensures var n := EncodedLength(ch);
            forall i :: 1 <= i < n ==> Octets(n, oc0, oc1, oc2, oc3)[i] == Encode(ch)[i]
  {
    hide Encode, Top, EncodedLength, Room, Mark;
    Groups(ch, oc0, oc1, oc2, oc3);
    EncodeAt(ch);
    var o, e, n := Octets(EncodedLength(ch), oc0, oc1, oc2, oc3), Encode(ch), EncodedLength(ch);
    assert n > 1 ==> o[n - 1] == e[n - 1];
    assert n > 2 ==> o[n - 2] == e[n - 2];
    assert n > 3 ==> o[n - 3] == e[n - 3];
    assert n > 4 ==> o[n - 4] == e[n - 4];
    assert n > 5 ==> o[n - 5] == e[n - 5];
  }

  lemma LeadOctet(ch: wchar, oc0: nat, oc1: nat, oc2: nat, oc3: nat)
    requires ch >= 0 && ch == oc0 + 0x100 * oc1 + 0x10000 * oc2 + 0x1000000 * oc3
    requires oc0 < 0x100 && oc1 < 0x100 && oc2 < 0x100 && oc3 < 0x80
    ensures EncodedLength(ch) == 1 ==> oc0 < 0x80
    ensures Octets(EncodedLength(ch), oc0, oc1, oc2, oc3)[0] as nat
            == Mark(EncodedLength(ch)) + Top(ch, EncodedLength(ch) - 1)
  {
    hide Top, First, Mark, Octets;
    TopUnrolled(ch);
    if ch <= 0xffff {
      LeadOfShort(ch, oc0, oc1, oc2, oc3);
    } else {
      LeadOfLong(ch, oc0, oc1, oc2, oc3);
      Groups(ch, oc0, oc1, oc2, oc3);
    }
    FirstIs(EncodedLength(ch), oc0, oc1, oc2, oc3, Top(ch, EncodedLength(ch) - 1));
  }

  lemma FirstIs(n: nat, oc0: nat, oc1: nat, oc2: nat, oc3: nat, top: nat)
    requires oc0 < 0x100 && oc1 < 0x100 && oc2 < 0x100 && oc3 < 0x80 && 1 <= n <= 6 && (n == 1 ==> oc0 < 0x80)
    requires match n
             case 1 => top == oc0
             case 2 => top == oc0 / 64 + oc1 % 8 * 4
             case 3 => top == oc1 / 16
             case 4 => top == oc2 % 32 / 4
             case 5 => top == oc3 % 4
             case _ => top == oc3 / 64
    ensures First(n, oc0, oc1, oc2, oc3) as nat == Mark(n) + top
  {
  }

  lemma LeadOfShort(ch: wchar, oc0: nat, oc1: nat, oc2: nat, oc3: nat)
    requires 0 <= ch <= 0xffff && ch == oc0 + 0x100 * oc1 + 0x10000 * oc2 + 0x1000000 * oc3
    requires oc0 < 0x100 && oc1 < 0x100 && oc2 < 0x100 && oc3 < 0x80
    ensures ch <= 0x7f ==> oc0 == ch
    ensures ch <= 0x7ff ==> ch / 64 == oc0 / 64 + oc1 % 8 * 4
    ensures ch / 64 / 64 == oc1 / 16
  {
    assert oc2 == 0 && oc3 == 0;
    assert ch / 64 == oc0 / 64 + 4 * oc1;
  }

  lemma LeadOfLong(ch: wchar, oc0: nat, oc1: nat, oc2: nat, oc3: nat)
    requires 0xffff < ch && ch == oc0 + 0x100 * oc1 + 0x10000 * oc2 + 0x1000000 * oc3
    requires oc0 < 0x100 && oc1 < 0x100 && oc2 < 0x100 && oc3 < 0x80
    ensures ch <= 0x1fffff ==> ch / 64 / 64 / 64 == oc2 % 32 / 4
    ensures ch / 64 / 64 / 64 / 64 == oc3 && (ch <= 0x3ffffff ==> oc3 % 4 == oc3)
  {
    assert ch / 64 / 64 / 64 == oc2 / 4 + 0x40 * oc3;
    assert ch <= 0x1fffff ==> oc3 == 0 && oc2 < 32;
  }

  lemma MachineWord(ch: wchar)
    requires ch >= 0
    ensures ch == ch % 0x100 + 0x100 * (ch / 0x100 % 0x100) + 0x10000 * (ch / 0x10000 % 0x100) + 0x1000000 * (ch / 0x1000000)
    ensures ch / 0x1000000 < 0x80
  {
    var a := ch / 0x100;
    var b := a / 0x100;
    assert ch / 0x10000 == b && ch / 0x1000000 == b / 0x100;
  }

  method PutSequence(ch: wchar, n: nat, p: array<octet>, at: nat)
    requires ch >= 0 && n == EncodedLength(ch) && at + n <= p.Length
    modifies p
    ensures p[..at] == old(p[..at]) && p[at..at + n] == Encode(ch)
  {
    hide Encode, EncodedLength, Octets;
    var oc0, oc1, oc2, oc3 := ch % 0x100, ch / 0x100 % 0x100, ch / 0x10000 % 0x100, ch / 0x1000000;
    MachineWord(ch);
    OctetsEncode(ch, oc0, oc1, oc2, oc3);
    PutOctets(n, oc0, oc1, oc2, oc3, p, at);
  }

  method PutOctets(n: nat, oc0: nat, oc1: nat, oc2: nat, oc3: nat, p: array<octet>, at: nat)
    requires oc0 < 0x100 && oc1 < 0x100 && oc2 < 0x100 && oc3 < 0x80 && 1 <= n <= 6
    requires n == 1 ==> oc0 < 0x80
    requires at + n <= p.Length
    modifies p
    ensures p[..at] == old(p[..at]) && p[at..at + n] == Octets(n, oc0, oc1, oc2, oc3)
  {
    hide Lower, Across, Between, Upper, First;
    match n {
      case 1 =>
      case 2 =>
        p[at + 1] := Lower(oc0);
      case 3 =>
        p[at + 2] := Lower(oc0);
        p[at + 1] := Across(oc0, oc1);
      case _ =>
        PutLongTail(n, oc0, oc1, oc2, oc3, p, at);
    }
    p[at] := First(n, oc0, oc1, oc2, oc3);
  }

  method PutLongTail(n: nat, oc0: nat, oc1: nat, oc2: nat, oc3: nat, p: array<octet>, at: nat)
    requires oc0 < 0x100 && oc1 < 0x100 && oc2 < 0x100 && oc3 < 0x80 && 4 <= n <= 6
    requires at + n <= p.Length
    modifies p
    ensures p[..at] == old(p[..at]) && p[at + 1..at + n] == Octets(n, oc0, oc1, oc2, oc3)[1..]
  {
    hide Lower, Across, Between, Upper, First;
    match n {
      case 4 =>
        p[at + 3] := Lower(oc0);
        p[at + 2] := Across(oc0, oc1);
        p[at + 1] := Between(oc1, oc2);
      case 5 =>
        p[at + 4] := Lower(oc0);
        p[at + 3] := Across(oc0, oc1);
        p[at + 2] := Between(oc1, oc2);
        p[at + 1] := Upper(oc2);
      case _ =>
        p[at + 5] := Lower(oc0);
        p[at + 4] := Across(oc0, oc1);
        p[at + 3] := Between(oc1, oc2);
        p[at + 2] := Upper(oc2);
        p[at + 1] := Lower(oc3);
    }
  }

  /** So many characters, or everything up to the terminator. */
  predicate Readable<T(==)>(input: seq<T>, insize: nat, terminator: T) {
    if insize != 0 then insize <= |input| else input != [] && input[|input| - 1] == terminator
  }

  function Window<T>(input: seq<T>, insize: nat): seq<T>
    requires insize <= |input|
  {
    if insize != 0 then input[..insize] else input
  }

  function Onto<T>(done: seq<T>, r: Option<seq<T>>): Option<seq<T>> {
    if r.None? then None else Some(done + r.value)
  }

  /** One round of the loop over characters. */
  lemma EncodeStep(s: seq<wchar>, done: seq<octet>)
    requires s != [] && s[0] > 0 && !WcharForbidden(s[0])
    ensures Onto(done, ToUtf8(s)) == Onto(done + Encode(s[0]), ToUtf8(s[1..]))
  {
    hide Encode;
    if ToUtf8(s[1..]).Some? {
      assert done + (Encode(s[0]) + ToUtf8(s[1..]).value) == done + Encode(s[0]) + ToUtf8(s[1..]).value;
    }
  }

  /** The size of the encoded text; without a buffer only its size, and nothing if it does not fit. */
  method WcharToUtf8(input: seq<wchar>, insize: nat, out: array?<octet>) returns (total: nat)
    requires Readable(input, insize, 0)
    modifies if out == null then {} else {out}
    ensures var r := ToUtf8(Window(input, insize));
            if r.None? then total == 0
            else if out == null then total == |r.value|
            else if |r.value| <= out.Length then total == |r.value| && out[..total] == r.value
            else total == 0
  {
    hide Encode, ToUtf8;
    ghost var s := Window(input, insize);
    if out != null && out.Length == 0 {
      return 0;
    }
    var w := 0;
    total := 0;
    var lim := if insize != 0 then insize else |input|;
    ghost var done: seq<octet> := [];
    EncodeBegins(s);
    while w < lim
      invariant w <= lim == |s|
      invariant Onto(done, ToUtf8(s[w..])) == ToUtf8(s)
      invariant total == |done| && (out != null ==> total <= out.Length && out[..total] == done)
    {
      ghost var rest := s[w..];
      EncodeEnds(rest);
      var c := input[w];
      if c == 0 {
        return;
      }
      if WcharForbidden(c) {
        return 0;
      }
      if c < 0 {
        return 0;
      }
      var n := EncodedLength(c);
      EncodeStep(rest, done);
      assert rest[1..] == s[w + 1..];
      if out != null {
        if out.Length - total <= n - 1 {
          return 0;
        }
        PutSequence(c, n, out, total);
        assert out[..total + n] == done + Encode(c);
      }
      done := done + Encode(c);
      total := total + n;
      w := w + 1;
    }
    assert s[w..] == [];
    EncodeNothing();
  }

  lemma EncodeBegins(s: seq<wchar>)
    ensures Onto([], ToUtf8(s[0..])) == ToUtf8(s)
  {
    assert s[0..] == s;
    assert ToUtf8(s).Some? ==> [] + ToUtf8(s).value == ToUtf8(s).value;
  }

  lemma EncodeEnds(s: seq<wchar>)
    requires s != []
    ensures s[0] == 0 ==> ToUtf8(s) == Some([])
    ensures s[0] < 0 || WcharForbidden(s[0]) ==> ToUtf8(s) == None
  {
  }

  lemma EncodeNothing()
    ensures ToUtf8([]) == Some([])
  {
  }

  // -------- Decoding --------

  /** The payload of the last `k` octets. */
  function LowPart(s: seq<octet>, k: nat): nat
    requires k <= |s|
  {
    if k == 0 then 0 else LowPart(s, k - 1) + Payload(s[|s| - k]) * Power64(k - 1)
  }

  lemma {:induction false} HighAndLow(s: seq<octet>, k: nat)
    requires k < |s|
    ensures CodePoint(s) == CodePoint(s[..|s| - k]) * Power64(k) + LowPart(s, k)
    decreases k
  {
    if k == 0 {
      assert s[..|s|] == s;
    } else {
      HighAndLow(s, k - 1);
      var longer := s[..|s| - k + 1];
      assert longer[..|longer| - 1] == s[..|s| - k];
      var h, b, p := CodePoint(s[..|s| - k]), Payload(s[|s| - k]), Power64(k - 1);
      assert CodePoint(longer) == h * 64 + b;
      Distribute(h, b, p);
    }
  }

  lemma Distribute(h: nat, b: nat, p: nat)
    ensures (h * 64 + b) * p == h * (64 * p) + b * p
  {
  }

  /** Whether the sequence at `p` continues as announced. */
  method SequenceContinues(input: seq<octet>, p: nat, n: nat, insize: nat, ghost lim: nat) returns (ok: bool)
    requires Readable(input, insize, 0) && lim == |Window(input, insize)| && p < lim && 1 <= n
    requires insize != 0 ==> p + n <= lim
    requires input[p] != 0
    ensures ok ==> p + n <= lim
    ensures ok <==> p + n <= lim && forall i :: p < i < p + n ==> Continues(input[i])
  {
    var i := 1;
    while i < n
      invariant 1 <= i <= n && p + i <= lim
      invariant forall k :: p < k < p + i ==> Continues(input[k])
    {
      // a terminator would have stopped the loop
      assert input[p + i - 1] != 0;
      if !Continues(input[p + i]) {
        return false;
      }
      i := i + 1;
    }
    ok := true;
  }

  /** The number of a well-formed sequence, from its last octet to its first. */
  method Assemble(s: seq<octet>) returns (c: nat)
    requires WellFormed(s)
    ensures c == CodePoint(s)
  {
    hide CodePoint, High;
    c := 0;
    var place, n := 1, |s|;
    for i := 1 to n
      invariant c == LowPart(s, i - 1) && place == Power64(i - 1)
    {
      c := c + Payload(s[n - i]) * place;
      place := place * 64;
    }
    HighAndLow(s, n - 1);
    OneOctet(s);
    c := c + High(s[0]) * place;
  }

  lemma OneOctet(s: seq<octet>)
    requires s != []
    ensures CodePoint(s[..1]) == High(s[0])
  {
  }

  /**
    Octets that no text begins with: a first octet that cannot be one, or one that announces more octets than
    there are, or than there are octets from 0x80 to 0xbf.
   */
  predicate Spoilt(s: seq<octet>) {
    s != [] &&
    (|| 0x80 <= s[0] <= 0xc1 || s[0] == 0xf5 || 0xfe <= s[0]
     || (0xc2 <= s[0] && (|s| < 2 || s[1] < 0x80 || s[1] > 0xbf))
     || (0xe0 <= s[0] && (|s| < 3 || s[2] < 0x80 || s[2] > 0xbf))
     || (0xf0 <= s[0] && (|s| < 4 || s[3] < 0x80 || s[3] > 0xbf))
     || (0xf8 <= s[0] && (|s| < 5 || s[4] < 0x80 || s[4] > 0xbf))
     || (0xfc <= s[0] && (|s| < 6 || s[5] < 0x80 || s[5] > 0xbf)))
  }

  /** Exactly these octets are refused at the front of a text, if surrogates are not looked for. */
  lemma SpoiltIsRefused(s: seq<octet>)
    requires s != [] && s[0] != 0
    ensures Spoilt(s) <==> DecodeFront(s, false) == None
    ensures Spoilt(s) ==> DecodeFront(s, true) == None && FromUtf8(s, true) == None && FromUtf8(s, false) == None
  {
    hide CodePoint;
    var n := SequenceLength(s[0]);
    if 0 < n <= |s| {
      assert forall i :: 0 <= i < n ==> s[..n][i] == s[i];
    }
  }

  /** Wherever such octets stand behind a text, nothing is converted. */
  lemma {:induction false} SpoiltBehind(text: seq<wchar>, s: seq<octet>, surrogates: bool)
    requires (forall i :: 0 <= i < |text| ==> Survives(text[i])) && s != [] && s[0] != 0 && Spoilt(s)
    ensures ToUtf8(text).Some? && FromUtf8(ToUtf8(text).value + s, surrogates) == None
    decreases |text|
  {
    hide Encode, DecodeFront, Spoilt, WcharForbidden;
    if text == [] {
      assert [] + s == s;
      SpoiltIsRefused(s);
    } else {
      SpoiltBehind(text[1..], s, surrogates);
      SurvivorsEncode(text[0]);
      FrontOfEncoded(text[0], ToUtf8(text[1..]).value + s, surrogates);
      ConcatAssoc(Encode(text[0]), ToUtf8(text[1..]).value, s);
    }
  }

  lemma SurvivorsEncode(c: wchar)
    ensures Survives(c) ==> c > 0 && !WcharForbidden(c)
  {
  }

  /** The size of the decoded text; without a buffer only its size, and nothing if it does not fit. */
  method Utf8ToWchar(input: seq<octet>, insize: nat, out: array?<wchar>) returns (total: nat)
    requires Readable(input, insize, 0)
    modifies if out == null then {} else {out}
    ensures var r := FromUtf8(Window(input, insize), out != null);
            if r.None? then total == 0
            else if out == null then total == |r.value|
            else if |r.value| <= out.Length then total == |r.value| && out[..total] == r.value
            else total == 0
    ensures var s := Window(input, insize); s != [] && s[0] != 0 && Spoilt(s) ==> total == 0
  {
    hide FromUtf8, DecodeFront, CodePoint, WellFormed, SequenceLength, Spoilt;
    ghost var s := Window(input, insize);
    if s != [] && s[0] != 0 {
      SpoiltIsRefused(s);
    }
    if out != null && out.Length == 0 {
      return 0;
    }
    var p, lim := 0, if insize != 0 then insize else |input|;
    total := 0;
    ghost var done: seq<wchar> := [];
    DecodeBegins(s, out != null);
    while p < lim
      invariant p <= lim == |s|
      invariant Onto(done, FromUtf8(s[p..], out != null)) == FromUtf8(s, out != null)
      invariant total == |done| && (out != null ==> total <= out.Length && out[..total] == done)
      decreases lim - p
    {
      ghost var rest := s[p..];
      DecodeStops(rest, out != null);
      if input[p] == 0 {
        return;
      }
      if Utf8Forbidden(input[p]) {
        return 0;
      }
      var n := SequenceLength(input[p]);
      if n == 0 {
        return 0;
      }
      // does the first octet tell the truth about the length?
      if insize != 0 && lim - p <= n - 1 {
        return 0;
      }
      var ok := SequenceContinues(input, p, n, insize, lim);
      FrontIs(input, s, p, n, ok);
      if !ok {
        return 0;
      }
      total := total + 1;
      ghost var c := CodePoint(rest[..n]);
      DecodeStep(rest, n, done, out != null);
      assert rest[n..] == s[p + n..];
      if out != null {
        if total > out.Length {
          return 0;
        }
        var value := Assemble(input[p..p + n]);
        out[total - 1] := value;
        if WcharForbidden(value) {
          return 0;
        }
      }
      done := done + [c];
      p := p + n;
    }
    assert s[p..] == [];
    DecodeNothing(out != null);
  }

  lemma FrontIs(input: seq<octet>, s: seq<octet>, p: nat, n: nat, ok: bool)
    requires p < |s| && (s == input || s <= input) && !Utf8Forbidden(s[p]) && n == SequenceLength(s[p]) && n > 0
    requires ok <==> p + n <= |s| && forall i :: p < i < p + n ==> Continues(input[i])
    ensures var rest := s[p..];
            && (ok <==> n <= |rest| && WellFormed(rest[..n]))
            && (ok ==> input[p..p + n] == rest[..n])
  {
    hide SequenceLength, Utf8Forbidden, Continues;
    var rest := s[p..];
    if p + n <= |s| {
      assert forall i :: 1 <= i < n ==> rest[..n][i] == input[p + i];
    }
  }

  lemma DecodeBegins(s: seq<octet>, surrogates: bool)
    ensures Onto([], FromUtf8(s[0..], surrogates)) == FromUtf8(s, surrogates)
  {
    assert s[0..] == s;
    assert FromUtf8(s, surrogates).Some? ==> [] + FromUtf8(s, surrogates).value == FromUtf8(s, surrogates).value;
  }

  lemma DecodeNothing(surrogates: bool)
    ensures FromUtf8([], surrogates) == Some([])
  {
  }

  /** Where the loop ends with an error, and where at the terminator. */
  lemma DecodeStops(s: seq<octet>, surrogates: bool)
    requires s != []
    ensures s[0] == 0 ==> FromUtf8(s, surrogates) == Some([])
    ensures s[0] != 0 && (Utf8Forbidden(s[0]) || SequenceLength(s[0]) == 0 || SequenceLength(s[0]) > |s|) ==>
              FromUtf8(s, surrogates) == None
    ensures s[0] != 0 && SequenceLength(s[0]) <= |s| && !WellFormed(s[..SequenceLength(s[0])]) ==>
              FromUtf8(s, surrogates) == None
  {
  }

  /** One round of the loop over sequences. */
  lemma DecodeStep(s: seq<octet>, n: nat, done: seq<wchar>, surrogates: bool)
    requires s != [] && s[0] != 0 && n == SequenceLength(s[0]) && n <= |s| && WellFormed(s[..n])
    ensures CodePoint(s[..n]) < 0x80000000
    ensures var c: wchar := CodePoint(s[..n]);
            Onto(done, FromUtf8(s, surrogates))
            == if surrogates && WcharForbidden(c) then None else Onto(done + [c], FromUtf8(s[n..], surrogates))
  {
    hide CodePoint, WellFormed, SequenceLength;
    CodePointInRange(s[..n]);
    var c: wchar := CodePoint(s[..n]);
    var rest := FromUtf8(s[n..], surrogates);
    if rest.Some? {
      assert done + ([c] + rest.value) == done + [c] + rest.value;
    }
  }

  lemma CodePointInRange(s: seq<octet>)
    requires WellFormed(s)
    ensures s != [] && CodePoint(s) < 0x80000000
  {
    FirstFits(s);
    hide CodePoint, Power64, WellFormed;
    CodePointFits(s, 1, Room(|s|));
    PowersOf64();
  }
}
