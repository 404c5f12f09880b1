/**
  Which media types may travel from the sink to the source. The sink filters the attributes of a type
  before it describes a stream, the source checks what it received against the same table. The GUIDs
  themselves belong to the platform; the code only knows them by name.
 */
module MediaTypes {

  import opened Common

  type Guid = seq<byte>

  datatype Name =
    | Video | Audio | H264 | Aac
    | FrameSize | AvgBitrate | SequenceHeader | Mpeg2Profile | FrameRate | PixelAspectRatio | InterlaceMode
    | AudioBytesPerSecond | BlockAlignment | NumChannels | Compressed | SamplesPerSecond | ProfileLevel
    | PreferWaveFormatEx | UserData | FixedSizeSamples | PayloadType | BitsPerSample

  type Naming = Name -> Guid

  datatype Value = Number32(n: uint32) | Number64(w: uint64) | Blob(bytes: seq<byte>) | OtherValue

  datatype Attribute = Attribute(key: Guid, value: Value)

  /** What the table demands of a value. */
  datatype Rule = Is32 | Is64 | IsBlob | IsShortBlob

  predicate Fits(rule: Rule, v: Value) {
    match rule
    case Is32 => v.Number32?
    case Is64 => v.Number64?
    case IsBlob => v.Blob?
    case IsShortBlob => v.Blob? && |v.bytes| < 128
  }

  datatype Entry = Entry(key: Name, rule: Rule)

  datatype Descriptor = Descriptor(sub: Name, video: bool, entries: seq<Entry>)

  const H264_TYPE := Descriptor(H264, true, [
    Entry(FrameSize, Is64), Entry(AvgBitrate, Is32), Entry(SequenceHeader, IsShortBlob), Entry(Mpeg2Profile, Is32),
    Entry(FrameRate, Is64), Entry(PixelAspectRatio, Is64), Entry(InterlaceMode, Is32)])

  const AAC_TYPE := Descriptor(Aac, false, [
    Entry(AudioBytesPerSecond, Is32), Entry(AvgBitrate, Is32), Entry(BlockAlignment, Is32), Entry(NumChannels, Is32),
    Entry(Compressed, Is32), Entry(SamplesPerSecond, Is32), Entry(ProfileLevel, Is32), Entry(PreferWaveFormatEx, Is32),
    Entry(UserData, IsBlob), Entry(FixedSizeSamples, Is32), Entry(PayloadType, Is32), Entry(BitsPerSample, Is32)])

  const VALID_TYPES := [H264_TYPE, AAC_TYPE]

  // ---------------------------------------------------------------- what is allowed

  /** Video is H.264 and audio is AAC; there is nothing else. */
  function DescriptorOf(guid: Naming, major: Guid, sub: Guid): Option<Descriptor> {
    if major == guid(Video) && sub == guid(H264) then Some(H264_TYPE)
    else if major == guid(Audio) && sub == guid(Aac) then Some(AAC_TYPE)
    else None
  }

  /** The rule of the first entry with that key. */
  function RuleFor(guid: Naming, entries: seq<Entry>, key: Guid): Option<Rule> {
    if entries == [] then None
    else if guid(entries[0].key) == key then Some(entries[0].rule)
    else RuleFor(guid, entries[1..], key)
  }

  /** In the table with a fitting value; not in the table; in the table with a value that does not fit. */
  datatype Verdict = Valid | Unlisted | Corrupted

  function Check(guid: Naming, d: Descriptor, a: Attribute): Verdict {
    match RuleFor(guid, d.entries, a.key)
    case None => Unlisted
    case Some(rule) => if Fits(rule, a.value) then Valid else Corrupted
  }

  /** The source takes a type if it is known and all of its attributes are in the table and fit. */
  predicate Admitted(guid: Naming, major: Guid, sub: Guid, attributes: seq<Attribute>) {
    && DescriptorOf(guid, major, sub).Some?
    && forall i :: 0 <= i < |attributes| ==>
         Check(guid, DescriptorOf(guid, major, sub).value, attributes[i]) == Valid
  }

  /** The sink describes a type if it is known and no attribute in the table has a value that does not fit. */
  predicate Describable(guid: Naming, major: Guid, sub: Guid, attributes: seq<Attribute>) {
    && DescriptorOf(guid, major, sub).Some?
    && forall i :: 0 <= i < |attributes| ==>
         Check(guid, DescriptorOf(guid, major, sub).value, attributes[i]) != Corrupted
  }

  /** The attributes that are sent. */
  function Kept(guid: Naming, d: Descriptor, attributes: seq<Attribute>): (kept: seq<Attribute>)
    ensures |kept| <= |attributes|
  {
    if attributes == [] then []
    else
      var n := |attributes| - 1;
      Kept(guid, d, attributes[..n]) + if Check(guid, d, attributes[n]) == Valid then [attributes[n]] else []
  }

  /** What the filter lets through, the source takes. */
  lemma {:induction false} KeptIsAdmitted(guid: Naming, major: Guid, sub: Guid, attributes: seq<Attribute>)
    requires DescriptorOf(guid, major, sub).Some?
    ensures Admitted(guid, major, sub, Kept(guid, DescriptorOf(guid, major, sub).value, attributes))
  {
    hide Check;
    if attributes != [] {
      KeptIsAdmitted(guid, major, sub, attributes[..|attributes| - 1]);
    }
  }

  /** The source takes exactly the types that the filter of the sink would send unchanged. */
  lemma {:induction false} AdmittedIsUnfiltered(guid: Naming, major: Guid, sub: Guid, attributes: seq<Attribute>)
    ensures Admitted(guid, major, sub, attributes)
            <==> Describable(guid, major, sub, attributes)
                 && Kept(guid, DescriptorOf(guid, major, sub).value, attributes) == attributes
  {
    if DescriptorOf(guid, major, sub).Some? {
      KeptAll(guid, DescriptorOf(guid, major, sub).value, attributes);
    }
  }

  lemma {:induction false} KeptAll(guid: Naming, d: Descriptor, attributes: seq<Attribute>)
    ensures Kept(guid, d, attributes) == attributes
            <==> forall i :: 0 <= i < |attributes| ==> Check(guid, d, attributes[i]) == Valid
  {
    hide Check;
    if attributes != [] {
      var n := |attributes| - 1;
      KeptAll(guid, d, attributes[..n]);
      assert attributes == attributes[..n] + [attributes[n]];
      if Check(guid, d, attributes[n]) == Valid {
        assert Kept(guid, d, attributes)[..|Kept(guid, d, attributes)| - 1] == Kept(guid, d, attributes[..n]);
      } else {
        assert |Kept(guid, d, attributes)| < |attributes|;
      }
    }
  }

  // ---------------------------------------------------------------- the lists, attribute by attribute

  /** Different names stand for different GUIDs. */
  ghost predicate Distinct(guid: Naming) {
    forall m, n :: guid(m) == guid(n) ==> m == n
  }

  ghost predicate EachOnce(entries: seq<Entry>) {
    forall j, k :: 0 <= j < k < |entries| ==> entries[j].key != entries[k].key
  }

  lemma {:induction false} RuleOfEntry(guid: Naming, entries: seq<Entry>, i: nat)
    requires Distinct(guid) && EachOnce(entries) && i < |entries|
    ensures RuleFor(guid, entries, guid(entries[i].key)) == Some(entries[i].rule)
  {
    if i > 0 {
      assert entries[0].key != entries[i].key;
      RuleOfEntry(guid, entries[1..], i - 1);
    }
  }

  ghost predicate Misses(entries: seq<Entry>, name: Name) {
    forall i :: 0 <= i < |entries| ==> entries[i].key != name
  }

  lemma {:induction false} RuleNeedsEntry(guid: Naming, entries: seq<Entry>, name: Name)
    requires Distinct(guid) && Misses(entries, name)
    ensures RuleFor(guid, entries, guid(name)) == None
  {
    if entries != [] {
      RuleNeedsEntry(guid, entries[1..], name);
    }
  }

  lemma VideoEachOnce()
    ensures EachOnce(H264_TYPE.entries)
  {
  }

  lemma AudioEachOnce()
    ensures EachOnce(AAC_TYPE.entries)
  {
    var es := AAC_TYPE.entries;
    forall j, k | 0 <= j < k < |es|
      ensures es[j].key != es[k].key
    {
      if k < 6 {
      } else if j < 6 {
        assert es[k].key.ProfileLevel? || es[k].key.PreferWaveFormatEx? || es[k].key.UserData?
               || es[k].key.FixedSizeSamples? || es[k].key.PayloadType? || es[k].key.BitsPerSample?;
      }
    }
  }

  lemma NotVideo(name: Name)
    requires !(name.FrameSize? || name.FrameRate? || name.PixelAspectRatio? || name.AvgBitrate? || name.Mpeg2Profile?
               || name.InterlaceMode? || name.SequenceHeader?)
    ensures Misses(H264_TYPE.entries, name)
  {
  }

  lemma NotAudio(name: Name)
    requires !(name.AudioBytesPerSecond? || name.AvgBitrate? || name.BlockAlignment? || name.NumChannels?
               || name.Compressed? || name.SamplesPerSecond? || name.ProfileLevel? || name.PreferWaveFormatEx?
               || name.UserData? || name.FixedSizeSamples? || name.PayloadType? || name.BitsPerSample?)
    ensures Misses(AAC_TYPE.entries, name)
  {
  }

  function Judged(fits: bool): Verdict {
    if fits then Valid else Corrupted
  }

  /** What a video stream may carry. */
  lemma VideoAttributes(guid: Naming, name: Name, v: Value)
    requires Distinct(guid)
    ensures var d := DescriptorOf(guid, guid(Video), guid(H264));
            d.Some? && Check(guid, d.value, Attribute(guid(name), v)) ==
                       match name
                       case FrameSize | FrameRate | PixelAspectRatio => Judged(v.Number64?)
                       case AvgBitrate | Mpeg2Profile | InterlaceMode => Judged(v.Number32?)
                       case SequenceHeader => Judged(v.Blob? && |v.bytes| < 128)
                       case _ => Unlisted
  {
    hide RuleFor, Distinct, EachOnce, Misses;
    var es := H264_TYPE.entries;
    VideoEachOnce();
    match name
    case FrameSize => RuleOfEntry(guid, es, 0);
    case AvgBitrate => RuleOfEntry(guid, es, 1);
    case SequenceHeader => RuleOfEntry(guid, es, 2);
    case Mpeg2Profile => RuleOfEntry(guid, es, 3);
    case FrameRate => RuleOfEntry(guid, es, 4);
    case PixelAspectRatio => RuleOfEntry(guid, es, 5);
    case InterlaceMode => RuleOfEntry(guid, es, 6);
    case _ => NotVideo(name); RuleNeedsEntry(guid, es, name);
  }

  /** What an audio stream may carry. */
  lemma AudioAttributes(guid: Naming, name: Name, v: Value)
    requires Distinct(guid)
    ensures var d := DescriptorOf(guid, guid(Audio), guid(Aac));
            d.Some? && Check(guid, d.value, Attribute(guid(name), v)) ==
                       match name
                       case AudioBytesPerSecond | AvgBitrate | BlockAlignment | NumChannels | Compressed | SamplesPerSecond
                         | ProfileLevel | PreferWaveFormatEx | FixedSizeSamples | PayloadType | BitsPerSample =>
                         Judged(v.Number32?)
                       case UserData => Judged(v.Blob?)
                       case _ => Unlisted
  {
    hide RuleFor, Distinct, EachOnce, Misses;
    var es := AAC_TYPE.entries;
    AudioEachOnce();
    AudioIsNoVideo(guid);
    match name
    case AudioBytesPerSecond => RuleOfEntry(guid, es, 0);
    case AvgBitrate => RuleOfEntry(guid, es, 1);
    case BlockAlignment => RuleOfEntry(guid, es, 2);
    case NumChannels => RuleOfEntry(guid, es, 3);
    case Compressed => RuleOfEntry(guid, es, 4);
    case SamplesPerSecond => RuleOfEntry(guid, es, 5);
    case ProfileLevel => RuleOfEntry(guid, es, 6);
    case PreferWaveFormatEx => RuleOfEntry(guid, es, 7);
    case UserData => RuleOfEntry(guid, es, 8);
    case FixedSizeSamples => RuleOfEntry(guid, es, 9);
    case PayloadType => RuleOfEntry(guid, es, 10);
    case BitsPerSample => RuleOfEntry(guid, es, 11);
    case _ => NotAudio(name); RuleNeedsEntry(guid, es, name);
  }

  lemma AudioIsNoVideo(guid: Naming)
    requires Distinct(guid)
    ensures guid(Audio) != guid(Video)
  {
    assert guid(Audio) == guid(Video) ==> Audio == Video;
  }

  /** Keys the code has no name for are in neither list. */
  lemma {:induction false} NamelessIsUnlisted(guid: Naming, entries: seq<Entry>, key: Guid)
    requires forall name :: guid(name) != key
    ensures RuleFor(guid, entries, key) == None
  {
    if entries != [] {
      NamelessIsUnlisted(guid, entries[1..], key);
    }
  }

  // ---------------------------------------------------------------- the procedures

  method FindMediaTypeDescriptor(guid: Naming, major: Guid, sub: Guid) returns (d: Option<Descriptor>)
    ensures d == DescriptorOf(guid, major, sub)
  {
    for i := 0 to |VALID_TYPES|
      invariant forall k :: 0 <= k < i ==>
                  !(guid(VALID_TYPES[k].sub) == sub && if VALID_TYPES[k].video then major == guid(Video) else major == guid(Audio))
    {
      var t := VALID_TYPES[i];
      if guid(t.sub) == sub && ((major == guid(Video) && t.video) || (major == guid(Audio) && !t.video)) {
        assert i == 1 ==> !(guid(VALID_TYPES[0].sub) == sub && major == guid(Video));
        return Some(t);
      }
    }
    assert !(guid(VALID_TYPES[0].sub) == sub && major == guid(Video));
    assert !(guid(VALID_TYPES[1].sub) == sub && major == guid(Audio));
    d := None;
  }

  /** A listed attribute with a value that does not fit is an error, an unlisted one is just not valid. */
  method IsAttributeValid(guid: Naming, d: Descriptor, a: Attribute) returns (hr: HResult, valid: bool)
    ensures match Check(guid, d, a) {
              case Valid => hr == Ok && valid
              case Unlisted => hr == Ok && !valid
              case Corrupted => hr == InvalidMediaType && !valid
            }
  {
    assert d.entries[0..] == d.entries;
    for i := 0 to |d.entries|
      invariant RuleFor(guid, d.entries, a.key) == RuleFor(guid, d.entries[i..], a.key)
    {
      assert d.entries[i..][1..] == d.entries[i + 1..];
      if guid(d.entries[i].key) == a.key {
        if Fits(d.entries[i].rule, a.value) {
          return Ok, true;
        }
        return InvalidMediaType, false;
      }
    }
    return Ok, false;
  }

  /** What the sink sends of a media type. */
  method FilterOutputMediaType(guid: Naming, major: Guid, sub: Guid, attributes: seq<Attribute>)
    returns (hr: HResult, kept: seq<Attribute>)
    ensures hr == if Describable(guid, major, sub, attributes) then Ok else InvalidMediaType
    ensures hr == Ok ==> kept == Kept(guid, DescriptorOf(guid, major, sub).value, attributes)
  {
    hide Check, DescriptorOf;
    kept := [];
    var found := FindMediaTypeDescriptor(guid, major, sub);
    if found.None? {
      return InvalidMediaType, [];
    }
    var d := found.value;
    for i := 0 to |attributes|
      invariant kept == Kept(guid, d, attributes[..i])
      invariant forall k :: 0 <= k < i ==> Check(guid, d, attributes[k]) != Corrupted
    {
      assert attributes[..i + 1][..i] == attributes[..i];
      var valid;
      hr, valid := IsAttributeValid(guid, d, attributes[i]);
      if hr != Ok {
        return InvalidMediaType, [];
      }
      if valid {
        kept := kept + [attributes[i]];
      }
    }
    assert attributes[..|attributes|] == attributes;
    hr := Ok;
  }

  /** The check of the source on a media type it received. */
  method ValidateInputMediaType(guid: Naming, major: Guid, sub: Guid, attributes: seq<Attribute>) returns (hr: HResult)
    ensures hr == if Admitted(guid, major, sub, attributes) then Ok else InvalidMediaType
  {
    hide Check, DescriptorOf;
    var found := FindMediaTypeDescriptor(guid, major, sub);
    if found.None? {
      return InvalidMediaType;
    }
    var d := found.value;
    for i := 0 to |attributes|
      invariant forall k :: 0 <= k < i ==> Check(guid, d, attributes[k]) == Valid
    {
      var valid;
      hr, valid := IsAttributeValid(guid, d, attributes[i]);
      if hr != Ok || !valid {
        return InvalidMediaType;
      }
    }
    hr := Ok;
  }
}
