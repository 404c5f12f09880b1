# Algorithms behind the display mirroring code, modelled and proved

The repository carries two bodies of code with real algorithms in them: the libobs utilities in
`Core/util` (and the reference counting of `Core`), and the STSP streaming source and sink of
Microsoft's SimpleCommunication sample. This project models both in Dafny and proves what they are
for. `dafny verify dfyconfig.toml` checks all of it.

Most results relate two descriptions: code and a function on values, a run and a conserved total, writing and
reading. So that both cannot be wrong together, each part also has results that speak directly of octets,
characters, tokens or nanoseconds: `Profilers.OneCall` and `TwoCalls`,
`StspFraming.MessageOnTheWire`, `StspReceiver.ReceiveMessage`, `StspSession.ConversationSucceeds`,
`StspDescription.DescriptionBytes`, `MediaTypes.VideoAttributes`, the contracts of `CircleBufs`,
`ConfigText.SettingInText`, `CfPreprocess.Conditional` and `DefineThenUse`, `Utf8.EncodedAs` and `SpoiltIsRefused`.

Code that changes things in place is modelled in place, by classes, arrays and loops; each such method is
proved against a function on values, and the properties are proved of the functions. Concurrent code
(the session, the operation queue, the weak references) is a state machine whose steps are the atomic
sections, and the results hold for every interleaving.

- `RobinHood`, `TimesTables`, `ProfileTrees`, `Profilers`: the profiler. A Robin Hood table with
  incremental rehash, two arrays alive at once, and mutually recursive insertion, growth and migration
  behaves like a multiset of durations (`TimesTables.Histogram`, `ShowsExactly`). That the recursion never
  nests is a matter of numbers: eight old slots scanned per addition keep the new array below seven tenths
  until the old one is empty (`TimesTable.PaceLeavesRoom`, `RecordCall`). `ProfileTrees` says on values what
  a trace records: every call once, under its path (`EveryCallIsRecorded`), and nothing is lost in traces
  that are not well nested (`RunAdds`). `Profilers` is the code, trees of entries that own such tables; its
  main result goes from the events to the snapshot (`Profile`), and `OneCall`, `TwoCalls` and `CallLeftOpen` from
  times in nanoseconds to the microseconds shown.
- `StspWire`, `StspBuffers`, `StspFraming`, `StspReceiver`, `StspSession`, `StspDescription`: the stream
  protocol. The receiver keeps a list of windows on shared buffers; `StspReceiver` proves that its
  in-place parse is `Feed` on byte strings, `StspFraming` that any chunking gives the same frames, and
  exactly when it does (`ChunkingIndependence`). `StspSession` proves that no interleaving of source,
  sink and channel brings a packet out of place (`SessionSafety`), and that every list of messages can get through
  (`ConversationSucceeds`). `StspDescription.DescriptionArrives`
  goes from the sink's media types over any chunking to the source's streams; `MediaTypes` holds the table
  of allowed attributes that both sides check.
- `CircleBufs`: the growable ring buffer is a double-ended queue of bytes (`Run`).
- `BaseLexer`, `DynStrings`, `ConfigText`, `ConfigFiles`: the INI files. `ConfigText` says on text what is
  written and read, `ConfigFiles` proves the token-driven reader and the writer against it. A
  configuration comes back from its text if and only if its names can be written (`RoundTrip`).
- `CfProgram`, `CfView`, `CfPreprocess`: the C-family preprocessor. `CfProgram` gives well-nested text a
  meaning; the recursive cursor code is proved to emit exactly that (`Preprocessor.Preprocess`). For
  `#define`, `#undef`, `#ifdef` and `#ifndef` it is also said token by token.
- `TextTrie`, `TextSpelling`, `TextLookups`: the radix trie of translated strings, as a value and as
  linked nodes that are split in place. It agrees with a map for lower-case keys (`LookupAgrees`) and for
  all keys that spell what they share alike (`LookupIgnoresCase`); for all others it is said exactly when
  an added key is found (`AddedKeyIsFound`).
- `Utf8`, `Crc32`, `WideMath`: conversions, the checksum table against bit-at-a-time division, 128-bit
  arithmetic.
- `LinkLists`, `SinkStreams`, `OpQueues`, `WeakRefs`: the anchored doubly linked list, the sink's ordered
  stream list on top of it, the operation queue, strong and weak references; safety
  over every interleaving, and that operations get dispatched and counters freed.

## Where the code does less than one expects

Each of these is a lemma or a contract, not a remark.

- The receiver cannot cut off a whole buffer, so an empty payload with anything behind it fails or not
  depending on the chunks; `ChunkingIndependence` is an equivalence for that reason.
- Operation 0 on the wire is taken for "no header yet", so a header that names it is forgotten when a chunk
  ends with it. The other half of `ChunkingIndependence` is that this never happens with a payload behind
  it (`UnnamedFails`, `OperationZeroDependsOnChunks`).
- Sending a request forgets the header being received. In a conversation with one start nothing is in
  flight then (`HeaderResetIsHarmless`); `RequestWhileReceiving` says exactly which cuts a second start
  would survive.
- `CopyTo` does not step over a buffer that ends exactly where it is asked to begin (`CopyStartExact`).
- Bytes pushed to the front of an empty ring buffer are overwritten by the next push to its back if they
  are as many as the capacity or at least twice as many (`FrontThenBack`), and until something is pushed to
  the back, the back cannot be read.
- An item name may begin with an equals sign; saving a configuration without sections is reported as an
  error (`ConfigText.RoundTrip`, `ConfigFiles.ConfigSave`).
- Redefining a macro has no effect while it is defined (`RedefinitionIgnored`); undefining it then brings
  the second definition to light (`UndefinitionUncovers`).
- The translation table compares labels without regard to case but finds children with regard to it, so a
  key can be lost behind an earlier sibling (`MixedCaseLosesKeys`, and exactly when: `AddedKeyIsFound`) and
  a new key can hide longer ones (`NewChildHides`).
- Octet 0xF5 is refused by the decoder but written by the encoder, which concerns 0x140000 to 0x17ffff,
  beyond Unicode (`Utf8.RoundTrip`); asking for the size only does not look for surrogates
  (`SurrogatesMatter`).
- After its shutdown the sink looks up no identifier any more, so its list stays in order exactly as long
  as nothing is added twice (`RunsStayOrdered`, `AddedTwiceAfterShutdown`).
- An operation whose work item could not be posted, or that was postponed, stays in the queue
  (`NoneStranded` counts them).
- `util_mul_div64` wraps around when the product of the remainder does (`MulDivIsExact`).

## Model

| member | source | states |
|---|---|---|
| RobinHood.CellReaches | Core/util/profiler.c:104-151 | as many probes as there are slots reach every slot, whatever the key |
| RobinHood.SearchComplete | Core/util/profiler.c:104-151 | when a probe meets a slot that is nearer to its home than the probe is, and the key has not been met, the key is nowhere in the table: an existing key is found before anything is displaced |
| RobinHood.StoreKeepsOrder | Core/util/profiler.c:104-151 | storing an absent key where its own probe path ends keeps the Robin Hood invariant (homes, occupied probe paths, unique keys), whoever sat there |
| RobinHood.EvictedPath | Core/util/profiler.c:104-151 | after a displacement the evicted key is absent and its own probe path is complete up to one step beyond its old slot, so carrying it on from there is right |
| RobinHood.PathFull | Core/util/profiler.c:104-151 | a probe path longer than the table exists only if the table is full |
| TimesTables.OverloadedIsSevenTenths | Core/util/profiler.c:104-151 | for every size a table can take, the comparison of doubles with 0.7 is exactly that of ten times the occupied slots with seven times the size |
| TimesTables.CarryStop | Core/util/profiler.c:104-151 | at a slot nearer to its home, neither the carried key nor the key the insertion began with is in the table |
| TimesTables.CarrySwap | Core/util/profiler.c:104-151 | displacing a resident keeps the invariant, the occupancy and, with the carried entry, every key's count; the probe goes on at the next slot |
| TimesTables.CarryStore | Core/util/profiler.c:104-151 | an insertion that ends in an empty slot adds the count to its key, keeps all others, and occupies one slot more |
| TimesTables.CarryMerge | Core/util/profiler.c:104-151 | an insertion that ends at a slot with the carried key has displaced nothing before, and adds the count to that key only (in 64 bits) |
| TimesTables.BudgetSwap | Core/util/profiler.c:104-151 | a displacement uses up one of the at most `size + 1` probe steps an insertion can take |
| TimesTables.TimesTable.constructor | Core/util/profiler.c:153-162 | a new table is empty, valid and has no migration pending |
| TimesTables.TimesTable.InitHashmap | Core/util/profiler.c:153-162 | the table points at fresh empty slots; the array it pointed at before is not freed by it |
| TimesTables.TimesTable.Probe | Core/util/profiler.c:104-151 | the probe loop stops within `size + 1` steps at an empty slot, at the carried key, or at a displacement in an overloaded table, with all counts accounted for |
| TimesTables.TimesTable.AddEntry | Core/util/profiler.c:104-151 | exactly the count is added to the total of the key over both live arrays; an existing key moves no slot; growth happens only for an absent key in an overloaded table with no migration pending; at most `size + 1` probe steps |
| TimesTables.TimesTable.GrowHashmap | Core/util/profiler.c:190-205 | growth with no old slots waiting loses no count and no array, and leaves room for the paced migration |
| TimesTables.TimesTable.MigrateOldEntries | Core/util/profiler.c:164-188 | migrating eight old slots, or all, changes no total and never grows the new array; nothing waits afterwards, or exactly eight more slots were scanned |
| TimesTables.TimesTable.MigrateSlot | Core/util/profiler.c:164-188 | moving one old slot keeps all totals and cannot trigger growth while the pace is kept |
| TimesTables.TimesTable.PaceLeavesRoom | Core/util/profiler.c:164-205 | while old slots wait, the pace of eight scanned slots per addition keeps the new array below the load at which it grows |
| TimesTables.TimesTable.RecordCall | Core/util/profiler.c:240-249 | a bounded migration and then the entry: validity and pace are kept, exactly one occurrence of the duration is added to what the table counts; as an invariant of every run, the recursion of growth and migration never nests |
| TimesTables.TimesTable.CopyMapToArray | Core/util/profiler.c:449-481 | a snapshot shows what was recorded: every key once with its whole count over both arrays, the number of all calls, and the extreme keys |
| TimesTables.SumAgrees | Core/util/profiler.c:449-481 | entries that hold the right count under every key hold the right number of calls in all |
| TimesTables.ShowsExactly | Core/util/profiler.c:449-481 | as long as the calls can be counted in 64 bits a snapshot is exact: the count of every duration, the number of all, and the shortest and the longest that occurred |
| TimesTables.Histogram | Core/util/profiler.c:240-249 | any sequence of calls, recorded one by one from a table of size 1 and copied out, is counted like a plain multiset counts it, with the number of calls and the extremes |
| ProfileTrees.MergeIntoAdds | Core/util/profiler.c:231-257 | merging a call adds, under every path of names, exactly the durations of the calls on that path, and changes no other path |
| ProfileTrees.ClosedAdds | Core/util/profiler.c:395-440 | closing the innermost call records or hands up exactly its own duration, under the path of the open calls; what waited inside it is neither lost nor doubled |
| ProfileTrees.EventAdds | Core/util/profiler.c:368-440 | one event while the profiler runs, also an end of an unknown name or with calls inside still open, changes what is recorded or waiting by exactly the calls it ends |
| ProfileTrees.EndAdds | Core/util/profiler.c:395-440 | the same for the end of a call, also of one started without a name, which takes the name it is ended with |
| ProfileTrees.NothingWhileStopped | Core/util/profiler.c:266-300 | nothing is recorded while the profiler is stopped; a thread that finds it stopped drops out, and its calls change nothing until it is enabled again |
| ProfileTrees.RunAdds | Core/util/profiler.c:368-440 | conservation over every sequence of events while the profiler runs, well nested or not: every call ended is recorded or waits, once |
| ProfileTrees.TracesAreReceived | Core/util/profiler.c:339-440 | a well-nested trace does to the trees what its calls say, and leaves no call open |
| ProfileTrees.EveryCallIsRecorded | Core/util/profiler.c:339-440 | main result: after a well-nested trace, under every path the trees hold the old durations and those of exactly the calls on that path |
| ProfileTrees.DurationsAreRounded | Core/util/profiler.c:89-92 | of calls that end no earlier than they start, as many are recorded under a path at a number of microseconds as last that number rounded to the nearest, written out in nanoseconds |
| ProfileTrees.GapsAreRecorded | Core/util/profiler.c:231-257 | of a root whose rhythm is announced, the times between the starts of its calls are recorded, from the second one on |
| ProfileTrees.GapsAreRounded | Core/util/profiler.c:89-92 | the times between are those of consecutive starts under that name, rounded to the nearest microsecond |
| ProfileTrees.TraceRecordsGaps | Core/util/profiler.c:339-366 | the same over a well-nested trace, and without an announced rhythm nothing |
| ProfileTrees.RecordedWhileRunning | Core/util/profiler.c:266-300 | of calls made before the profiler is stopped, while it is stopped and after it runs again, exactly the first and the last are recorded |
| Profilers.Record | Core/util/profiler.c:240-249 | recording a duration in one table leaves what every other table of the trees has recorded |
| Profilers.InitEntry | Core/util/profiler.c:207-217 | a new entry has two empty tables of its own |
| Profilers.GetChild | Core/util/profiler.c:219-229 | the entry of that name, added at the end if there is none; the first of a name counts |
| Profilers.MergeCall | Core/util/profiler.c:231-257 | merging a call into linked entries with their own tables does to what the tables record what the merge of values does: children first, then the time since the last call if a rhythm is expected, then the duration; no other table changes |
| Profilers.Profiler.constructor | Core/util/profiler.c:259-264 | nothing is recorded, the profiler is off, and the thread takes part |
| Profilers.Profiler.ReenableThread | Core/util/profiler.c:280-288 | a thread that dropped out takes part again if the profiler runs |
| Profilers.Profiler.LockRoot | Core/util/profiler.c:290-300 | succeeds exactly if the profiler runs; otherwise the thread drops out |
| Profilers.Profiler.RegisterRoot | Core/util/profiler.c:302-335 | sets the rhythm of the root of that name in microseconds, rounded in 64 bits, and adds the root if there is none |
| Profilers.Profiler.MergeContext | Core/util/profiler.c:339-366 | a finished root is merged into the entry of its name with the start of the call before it, unless the profiler has been stopped |
| Profilers.Profiler.ProfileStart | Core/util/profiler.c:368-393 | a new call inside the innermost open one, unless the thread dropped out |
| Profilers.Profiler.ProfileEnd | Core/util/profiler.c:395-440 | ends the innermost call of that name after the ones left open inside it; without such a call nothing changes, except that a call without a name takes this one |
| Profilers.Profiler.CloseTop | Core/util/profiler.c:428-440 | the innermost call goes to its parent's children, or as a root into the trees |
| Profilers.Profiler.SnapshotCreate | Core/util/profiler.c:888-943 | the snapshot shows, entry by entry, what the tables of durations and of times between have recorded, and recording goes on unchanged |
| Profilers.RunEvents | Core/util/profiler.c:266-440 | any sequence of starts, ends, switches and registrations does to the linked trees and their tables what it does to the state of values |
| Profilers.Profile | Core/util/profiler.c:339-481 | main result, from events to the snapshot: after any well-nested trace the snapshot has under every path of names exactly the durations of the calls on that path, each with its count (in 64 bits), their number and the extremes |
| Profilers.OneCall | Core/util/profiler.c:89-481 | a call from `t0` to `t1` nanoseconds is shown as one count, at the one number `r` of microseconds with `1000 * r <= t1 - t0 + 500 < 1000 * (r + 1)`, which is also the shortest and the longest; also for a call named at its end only |
| Profilers.CallLeftOpen | Core/util/profiler.c:395-440 | a call left open inside is ended by the end of the one around it, at the times its own end or that end gives, and a stray end changes nothing |
| Profilers.TwoCalls | Core/util/profiler.c:231-335 | the expected rhythm is rounded to microseconds, and between two calls of a root that has one the time between their starts is shown, rounded likewise |
| Profilers.ProfileWithPause | Core/util/profiler.c:266-481 | what is called while the profiler is stopped does not show, what is called before and after does |
| StspWire.DecodeEncoded | MediaExtensions/Microsoft.Samples.SimpleCommunication/StspDefs.h:32-48 | reading a header undoes writing it, whatever follows |
| StspWire.EncodeDecoded | MediaExtensions/Microsoft.Samples.SimpleCommunication/StspDefs.h:32-48 | the eight bytes of a header are determined by what is read from them |
| StspBuffers.MediaBufferWrapper.constructor | MediaExtensions/Microsoft.Samples.SimpleCommunication/MediaBufferWrapper.cpp:84-112 | a new wrapper sees all of the valid data of its buffer |
| StspBuffers.MediaBufferWrapper.GetCurrentLength | MediaExtensions/Microsoft.Samples.SimpleCommunication/MediaBufferWrapper.cpp:220-245 | the number of bytes the window shows |
| StspBuffers.MediaBufferWrapper.SetCurrentLength | MediaExtensions/Microsoft.Samples.SimpleCommunication/MediaBufferWrapper.cpp:247-269 | a length that fits behind the offset is set, another one is refused and changes nothing |
| StspBuffers.MediaBufferWrapper.TrimLeft | MediaExtensions/Microsoft.Samples.SimpleCommunication/MediaBufferWrapper.cpp:271-289 | the window loses its first bytes; more than it shows are refused |
| StspBuffers.MediaBufferWrapper.TrimRight | MediaExtensions/Microsoft.Samples.SimpleCommunication/MediaBufferWrapper.cpp:292-333 | the last bytes become a window of their own on the same memory, and the two together show what was there; it refuses to take everything |
| StspBuffers.CopyStartExact | MediaExtensions/Microsoft.Samples.SimpleCommunication/BufferPacket.cpp:304-370 | copying starts at the requested offset exactly if no buffer of the packet ends there |
| StspBuffers.BufferPacket.constructor | MediaExtensions/Microsoft.Samples.SimpleCommunication/BufferPacket.cpp:24-27 | an empty packet |
| StspBuffers.BufferPacket.AddBuffer | MediaExtensions/Microsoft.Samples.SimpleCommunication/BufferPacket.cpp:153-158 | the bytes of the packet are followed by those of the buffer |
| StspBuffers.BufferPacket.GetTotalLength | MediaExtensions/Microsoft.Samples.SimpleCommunication/BufferPacket.cpp:276-302 | the number of bytes of the packet |
| StspBuffers.BufferPacket.CopyTo | MediaExtensions/Microsoft.Samples.SimpleCommunication/BufferPacket.cpp:304-370 | a contiguous part of the packet's bytes over all buffer borders, as long as asked for or up to the end, without changing the packet |
| StspBuffers.BufferPacket.MoveLeft | MediaExtensions/Microsoft.Samples.SimpleCommunication/BufferPacket.cpp:372-388 | returns and removes the first bytes, or refuses and changes nothing |
| StspBuffers.BufferPacket.TrimLeft | MediaExtensions/Microsoft.Samples.SimpleCommunication/BufferPacket.cpp:390-428 | removes the first bytes, whole buffers and part of one; the last buffer stays last unless all of it went |
| StspBuffers.BufferPacket.TrimLastRight | MediaExtensions/Microsoft.Samples.SimpleCommunication/StspMediaSource.cpp:871-878 | cuts the surplus off the last buffer and so off the packet; refused unless it is strictly inside that buffer |
| StspFraming.FeedAgrees | MediaExtensions/Microsoft.Samples.SimpleCommunication/StspMediaSource.cpp:825-894 | one received chunk, parsed step by step with the recursion on the surplus, hands on the frames of everything received so far, and leaves less than a header or a header with less than its payload |
| StspFraming.ReferenceResumes | MediaExtensions/Microsoft.Samples.SimpleCommunication/StspMediaSource.cpp:825-894 | framing more of a stream continues where framing a prefix of it stopped |
| StspFraming.FeedAllAgrees | MediaExtensions/Microsoft.Samples.SimpleCommunication/StspMediaSource.cpp:789-894 | any sequence of chunks hands on the frames of their concatenation |
| StspFraming.UntameFails | MediaExtensions/Microsoft.Samples.SimpleCommunication/StspMediaSource.cpp:871-878 | a stream with an empty payload before its end, received in one piece, fails with an invalid argument |
| StspFraming.UnnamedFails | MediaExtensions/Microsoft.Samples.SimpleCommunication/StspMediaSource.cpp:843-858 | a stream in which an acceptable header with a payload names operation 0 is not framed as a whole when it arrives byte by byte |
| StspFraming.ChunkingIndependence | MediaExtensions/Microsoft.Samples.SimpleCommunication/StspMediaSource.cpp:825-894 | main result: a stream is framed the same however it is cut into chunks if and only if no acceptable header with a payload names operation 0 and no frame with an empty payload is followed by anything |
| StspFraming.FramesDelivered | MediaExtensions/Microsoft.Samples.SimpleCommunication/StspMediaSource.cpp:789-894 | however the bytes of well-formed messages arrive, exactly the complete messages are handed on, in order, and the rest is kept |
| StspFraming.MessageOnTheWire | MediaExtensions/Microsoft.Samples.SimpleCommunication/StspMediaSource.cpp:843-919 | byte by byte: the eight octets of length and operation, least significant first, and the payload, in any chunks, hand on that one message for the operations 4, 5 and 6; the requests 1 to 3 end in an unsupported format after being handed on, operations from 7 on without |
| StspFraming.TooLongOnTheWire | MediaExtensions/Microsoft.Samples.SimpleCommunication/StspMediaSource.cpp:843-858 | a header that announces more than one megabyte ends in an unsupported format, whatever follows |
| StspFraming.OperationZeroDependsOnChunks | MediaExtensions/Microsoft.Samples.SimpleCommunication/StspMediaSource.cpp:843-858 | operation 0 doubles as "no header yet": for every payload, header and payload in one chunk are handed on and refused, and a chunk that ends with the header leaves the parser as if nothing had come |
| StspReceiver.Receiver.constructor | MediaExtensions/Microsoft.Samples.SimpleCommunication/StspMediaSource.cpp:81-89 | the parser of a new source is idle |
| StspReceiver.Receiver.ParseCurrentBuffer | MediaExtensions/Microsoft.Samples.SimpleCommunication/StspMediaSource.cpp:825-894 | the code on shared buffers does what framing does on byte strings: same frames, same error, same state afterwards |
| StspReceiver.Receiver.TakeHeader | MediaExtensions/Microsoft.Samples.SimpleCommunication/StspMediaSource.cpp:843-858 | the header is peeled off once it is complete; until then the packet is untouched and the expected size is the largest |
| StspReceiver.Receiver.ParsePayload | MediaExtensions/Microsoft.Samples.SimpleCommunication/StspMediaSource.cpp:860-893 | size check, cut, dispatch and recursion on the surplus, as framing on byte strings |
| StspReceiver.Receiver.Receive | MediaExtensions/Microsoft.Samples.SimpleCommunication/StspMediaSource.cpp:789-822 | one reception of up to 2 KiB is one chunk of the framing |
| StspReceiver.Receiver.ReceiveAll | MediaExtensions/Microsoft.Samples.SimpleCommunication/StspMediaSource.cpp:789-822 | receptions one after the other, until one fails, are the chunks of the framing |
| StspReceiver.ReceiveMessage | MediaExtensions/Microsoft.Samples.SimpleCommunication/StspMediaSource.cpp:789-919 | a new receiver that is given the octets of one message in any chunks of up to 2 KiB: operations 4, 5 and 6 are delivered with their payload and the parser is idle again, all others are refused |
| StspReceiver.Receiver.ProcessPacket | MediaExtensions/Microsoft.Samples.SimpleCommunication/StspMediaSource.cpp:896-919 | the packet is handed on with its header; an operation that is not one of the server's is refused |
| StspSession.ReferenceInverse | MediaExtensions/Microsoft.Samples.SimpleCommunication/StspMediaSource.cpp:825-894 | framing loses nothing: the frames and the rest give the stream back |
| StspSession.ChunkInFlight | MediaExtensions/Microsoft.Samples.SimpleCommunication/StspMediaSource.cpp:825-894 | a chunk of the bytes in flight hands on the next messages that were sent, and the others stay in flight |
| StspSession.NextKeeps | MediaExtensions/Microsoft.Samples.SimpleCommunication/StspMediaSource.cpp:542-1045 | every step of the source, the sink and the channel keeps the invariant of the conversation |
| StspSession.SessionSafety | MediaExtensions/Microsoft.Samples.SimpleCommunication/StspMediaSource.cpp:896-1045 | main result, over all interleavings: `MF_E_UNEXPECTED` is never raised, the description is processed exactly in Opening, every sample in Started, and unless the source is shut down the packets processed are the first ones the sink sent |
| StspSession.ConversationSucceeds | MediaExtensions/Microsoft.Samples.SimpleCommunication/StspMediaSource.cpp:542-1045 | main result: for every description and every list of samples and format changes there is a conversation in which both requests are sent, the source ends up started, and exactly these messages have been processed with nothing left on the wire |
| StspSession.OutOfPlaceIsRaised | MediaExtensions/Microsoft.Samples.SimpleCommunication/StspMediaSource.cpp:896-1045 | a message that arrives while the source is not opening (a description) or not started (any other) is raised and ends the reception; a description in its place stops the source |
| StspSession.ShutDownIsFinal | MediaExtensions/Microsoft.Samples.SimpleCommunication/StspMediaSource.cpp:316-345 | every session can be shut down in every state; from then on nothing is processed and nothing more is requested |
| StspSession.HeaderResetIsHarmless | MediaExtensions/Microsoft.Samples.SimpleCommunication/StspMediaSource.cpp:737-786 | whenever a request resets the parse header, the parser is between two packets and nothing is in flight |
| StspSession.RequestWhileReceiving | MediaExtensions/Microsoft.Samples.SimpleCommunication/StspMediaSource.cpp:764-786 | a request while a message is being received (a second start): the message is still delivered exactly if the cut is inside its header or behind it |
| StspDescription.SendDescription | MediaExtensions/Microsoft.Samples.SimpleCommunication/StspMediaSink.cpp:877-976 | the packet is the header, with the size of what follows in 32 bits, the stream count, the entries and the attributes in stream order, for any number of streams |
| StspDescription.ProcessServerDescription | MediaExtensions/Microsoft.Samples.SimpleCommunication/StspMediaSource.cpp:922-1013 | the handler on buffers refuses every packet outside Opening, otherwise accepts exactly the packets the checks on byte strings and media types accept, creates their streams, and then is Stopped |
| StspDescription.ProcessStreams | MediaExtensions/Microsoft.Samples.SimpleCommunication/StspMediaSource.cpp:949-998 | the size checks with their 32-bit sum, and the streams created in turn or the error of the first that is refused |
| StspDescription.CreateStreams | MediaExtensions/Microsoft.Samples.SimpleCommunication/StspMediaSource.cpp:989-998 | each stream takes its own attributes off the packet, in order; one without attributes, with an unreadable blob or a type that is not admitted is refused with its error |
| StspDescription.InitializeStream | MediaExtensions/Microsoft.Samples.SimpleCommunication/StspMediaStream.cpp:725-732 | the blob is read and the type checked, with the error of the one that fails |
| StspDescription.FillStreamDescription | MediaExtensions/Microsoft.Samples.SimpleCommunication/StspStreamSink.cpp:1151-1184 | the stream description of a media type carries the filtered attributes; a type that may not be described is refused |
| StspDescription.DescribedIsAdmitted | MediaExtensions/Microsoft.Samples.SimpleCommunication/StspStreamSink.cpp:1151-1184 | whatever the sink describes, the source admits |
| StspDescription.AdmittedIsDescribed | MediaExtensions/Microsoft.Samples.SimpleCommunication/StspStreamSink.cpp:1151-1184 | a type of H.264 video or AAC audio that the source would take is described as it is |
| MediaTypes.FindMediaTypeDescriptor | MediaExtensions/Microsoft.Samples.SimpleCommunication/Validation.cpp:76-91 | video is H.264 and audio is AAC; no other type is known |
| MediaTypes.IsAttributeValid | MediaExtensions/Microsoft.Samples.SimpleCommunication/Validation.cpp:93-115 | listed attributes with a fitting value are valid, unlisted ones are not, and a listed one with a value that does not fit is an error |
| MediaTypes.VideoAttributes | MediaExtensions/Microsoft.Samples.SimpleCommunication/Validation.cpp:20-51 | for each attribute by name: which seven a video stream may carry, with values of which kind, the sequence header with less than 128 octets |
| MediaTypes.AudioAttributes | MediaExtensions/Microsoft.Samples.SimpleCommunication/Validation.cpp:53-67 | the same for the twelve attributes of an audio stream |
| MediaTypes.NamelessIsUnlisted | MediaExtensions/Microsoft.Samples.SimpleCommunication/Validation.cpp:93-115 | a key the code has no name for is in neither list |
| MediaTypes.FilterOutputMediaType | MediaExtensions/Microsoft.Samples.SimpleCommunication/Validation.cpp:118-167 | exactly the valid attributes are kept; an unknown type or a corrupted attribute is refused |
| MediaTypes.ValidateInputMediaType | MediaExtensions/Microsoft.Samples.SimpleCommunication/Validation.cpp:170-208 | accepted exactly if the type is known and every attribute is valid |
| MediaTypes.KeptIsAdmitted | MediaExtensions/Microsoft.Samples.SimpleCommunication/Validation.cpp:118-208 | what the filter of the sink lets through, the source takes |
| MediaTypes.AdmittedIsUnfiltered | MediaExtensions/Microsoft.Samples.SimpleCommunication/Validation.cpp:118-208 | the source takes exactly the types the filter would send unchanged |
| StspDescription.DescriptionRoundTrip | MediaExtensions/Microsoft.Samples.SimpleCommunication/StspMediaSource.cpp:922-1013 | the source gets back what the sink described, stream by stream, exactly if there are one or two streams, at most 0x10000 octets of attributes, and each stream is admitted: a blob that is not empty, can be read, and has only listed attributes for H.264 video or AAC audio |
| StspDescription.AcceptedExactly | MediaExtensions/Microsoft.Samples.SimpleCommunication/StspMediaSource.cpp:922-1013 | which packets the source accepts: exactly those that are the description of the streams it then has; any other length, count or order of bytes is refused |
| StspDescription.DescriptionBytes | MediaExtensions/Microsoft.Samples.SimpleCommunication/StspDefs.h:50-62 | the count, forty octets for each stream with its two GUIDs, its number and the size of its attributes, then the attributes in stream order |
| StspDescription.DescriptionArrives | MediaExtensions/Microsoft.Samples.SimpleCommunication/StspMediaSink.cpp:877-976 | end to end from media types: if the sink's types can be described, then however its packet for one or two of them is cut into chunks, one packet is handed on and accepted with exactly those streams |
| CircleBufs.RingAfterWrite | Core/util/circlebuf.h:120-169 | a wrapped write at an offset replaces exactly those bytes of the ring |
| CircleBufs.RingGrows | Core/util/circlebuf.h:52-65 | moving the front segment to the end of the larger memory keeps the bytes |
| CircleBufs.CircleBuf.constructor | Core/util/circlebuf.h:41-44 | an empty buffer without memory |
| CircleBufs.CircleBuf.ReorderData | Core/util/circlebuf.h:52-65 | the front segment moves to the new end exactly if the buffer is wrapped; nothing else moves |
| CircleBufs.CircleBuf.EnsureCapacity | Core/util/circlebuf.h:67-80 | room for the announced size, doubling at least, and the bytes held so far stay |
| CircleBufs.CircleBuf.Reserve | Core/util/circlebuf.h:82-90 | the capacity only grows; the bytes stay |
| CircleBufs.CircleBuf.Upsize | Core/util/circlebuf.h:92-117 | up to the size, octets that are 0 are appended, and those before stay; it never shrinks |
| CircleBufs.CircleBuf.Place | Core/util/circlebuf.h:120-144 | overwrites at a position; between the old end and a position behind it every octet is 0, and the rest stays |
| CircleBufs.CircleBuf.PushBack | Core/util/circlebuf.h:146-169 | the bytes are appended, also while wrapped or growing; a buffer filled from its front while it was empty is overwritten instead |
| CircleBufs.CircleBuf.PushFront | Core/util/circlebuf.h:171-190 | the bytes are put in front; the back is lost exactly if it was not there to begin with, because the buffer was empty or its back unreadable, and the buffer is full afterwards |
| CircleBufs.CircleBuf.PushBackZero | Core/util/circlebuf.h:192-213 | octets that are 0 are appended, and those before stay |
| CircleBufs.CircleBuf.PushFrontZero | Core/util/circlebuf.h:215-232 | octets that are 0 are put in front, with the same exception as for bytes |
| CircleBufs.CircleBuf.PeekFront | Core/util/circlebuf.h:234-251 | the first bytes, over the end of the memory |
| CircleBufs.CircleBuf.PeekBack | Core/util/circlebuf.h:253-274 | the last bytes, over the beginning of the memory; needs an end position behind the last byte |
| CircleBufs.CircleBuf.PopFront | Core/util/circlebuf.h:276-290 | returns and removes the first bytes |
| CircleBufs.CircleBuf.PopBack | Core/util/circlebuf.h:292-307 | returns and removes the last bytes |
| CircleBufs.CircleBuf.Data | Core/util/circlebuf.h:309-321 | the place of the byte with that index, nothing beyond the size |
| CircleBufs.Run | Core/util/circlebuf.h:82-307 | main result: any run of pushes, pops, peeks, places, upsizes and reserves has the contents and outputs of the same run on a plain double-ended queue, as long as no push to the front loses the back and no unreadable back is read |
| CircleBufs.FrontThenBack | Core/util/circlebuf.h:146-190 | exactly when the front of an empty buffer can be used: bytes pushed to its back afterwards are appended, unless the bytes in front are as many as the capacity or at least twice as many; then they are overwritten |
| BaseLexer.RunIs | Core/util/lexer.c:240-286 | a run of characters of one kind is exactly the longest prefix of that kind |
| BaseLexer.KindsByCode | Core/util/lexer.c:228-238 | the kind of a character by its ASCII code |
| BaseLexer.NewlineTokens | Core/util/lexer.c:240-286 | two different line ends in a row are one token, two equal ones are two |
| BaseLexer.Lexer.constructor | Core/util/lexer.c:228-238 | the tokenizer starts at the front of the text |
| BaseLexer.Lexer.GetBaseToken | Core/util/lexer.c:240-286 | the next maximal token, newline pairs as one, white space skipped on request; none exactly at the end of the text |
| DynStrings.ReplacedLength | Core/util/dstr.c:603-675 | the length after replacing, from the number of occurrences: what the code allocates |
| DynStrings.ReplaceStep | Core/util/dstr.c:603-675 | replacing goes on behind the first occurrence; what was put in is not searched again |
| DynStrings.Dstr.Replace | Core/util/dstr.c:603-675 | the three in-place loops on the character array (shorter, longer, equal) each do the left-to-right replacement of all occurrences |
| DynStrings.Dstr.CountAll | Core/util/dstr.c:640-653 | the number of occurrences counted before the array grows |
| DynStrings.Dstr.Strstr | Core/util/dstr.c:618-664 | the first occurrence from a position on, found by comparing characters up to the terminator, or none |
| DynStrings.Dstr.Substitute | Core/util/dstr.c:618-664 | moving the tail and copying over the occurrence, or at the end of the text writing it with a new terminator |
| DynStrings.Dstr.Shrink | Core/util/dstr.c:615-635 | the loop for a shorter replacement, and the number of replacements it counts |
| DynStrings.Dstr.Expand | Core/util/dstr.c:637-665 | the loop for a longer replacement in the array that was made large enough first |
| DynStrings.Dstr.Exchange | Core/util/dstr.c:667-671 | the loop for a replacement of the same length |
| DynStrings.AstrCmpI | Core/util/dstr.c:38-56 | zero exactly for texts equal letter case aside; otherwise the sign of the first difference, characters compared as signed octets |
| DynStrings.AstrCmpIN | Core/util/dstr.c:122-142 | zero exactly if the first `n` characters are equal letter case aside |
| DynStrings.CapitalLetters | Core/util/dstr.c:38-56 | exactly the small letters of ASCII are folded, to their capitals |
| DynStrings.OrderOfCharacters | Core/util/dstr.c:38-56 | octets from 128 on come before ASCII, otherwise characters are in the order of their codes |
| ConfigText.EscapeIsEach | Core/util/config-file.c:379-404 | the three global replacements do not disturb each other: each character is escaped on its own |
| ConfigText.UnescapeUndoesEscape | Core/util/config-file.c:137-163 | reading a value undoes writing it, and the written value stays on its line, for every text |
| ConfigText.EscapesOf | Core/util/config-file.c:379-404 | backslash, line feed and carriage return are escaped by these two characters each, and nothing else is |
| ConfigText.EscapeAppends | Core/util/config-file.c:379-404 | escaping goes through a text piece by piece |
| ConfigText.ParsedSectionsAreGood | Core/util/config-file.c:227-262 | whatever text is parsed, every name that comes out is one that can be written back |
| ConfigText.ItemRoundTrip | Core/util/config-file.c:165-225 | a written item is read back as it was, and the reader stands behind its line |
| ConfigText.LineIgnored | Core/util/config-file.c:179-225 | a comment, or a line without an equals sign, followed by anything is read like what follows |
| ConfigText.BlankIgnored | Core/util/config-file.c:179-225 | a blank, a tab or a line end in front changes nothing |
| ConfigText.SectionRoundTrip | Core/util/config-file.c:227-262 | a written header and its items are read back as they were |
| ConfigText.RoundTrip | Core/util/config-file.c:379-404 | main result: a configuration comes back from its text if and only if every name in it can be written: section names not empty, without `]` and line ends; item names without line ends, without `=` behind the first character, not starting with white space, `#` or `[` |
| ConfigText.Reparse | Core/util/config-file.c:227-262 | any text at all, once parsed, is stable under printing and parsing again |
| ConfigText.SettingInText | Core/util/config-file.c:227-424 | character by character: the text of one section with one item, both when it is written and when it is read |
| ConfigFiles.ConfigParseString | Core/util/config-file.c:108-135 | extends the reference up to the end character or the end of the line, with white space inside, and reports which it was |
| ConfigFiles.UnescapeInPlace | Core/util/config-file.c:137-163 | the in-place rewrite with its two cursors is the unescaping of the text before |
| ConfigFiles.ItemValue | Core/util/config-file.c:165-177 | an item gets the unescaped copy of the text it refers to |
| ConfigFiles.ConfigParseItem | Core/util/config-file.c:179-225 | one line: an item, unless it ends before an equals sign |
| ConfigFiles.ConfigParseSection | Core/util/config-file.c:179-225 | the items up to the next header, comments and blank lines skipped, as the specification on the text says |
| ConfigFiles.ParseConfigData | Core/util/config-file.c:227-262 | the sections of the text, in order; an empty section name ends the reading |
| ConfigFiles.ConfigOpenString | Core/util/config-file.c:322-346 | the tokenizer-driven reader computes the sections of the text |
| ConfigFiles.EscapeValue | Core/util/config-file.c:379-404 | the replacements in the order the code makes them are the escaping |
| ConfigFiles.ConfigSave | Core/util/config-file.c:356-424 | the text of the sections; a configuration without sections is reported as an error |
| ConfigFiles.FindAfterSet | Core/util/config-file.c:548-590 | what was set is found, and every other setting is as before, names compared without regard to case |
| ConfigFiles.SetKeepsGood | Core/util/config-file.c:548-590 | setting under names that can be written keeps a configuration that can be written |
| ConfigFiles.SettingSurvives | Core/util/config-file.c:356-424 | main result across operations: a setting survives saving and reading back, and so does every other one |
| ConfigFiles.FindItemIndex | Core/util/config-file.c:523-546 | the first item of that name, letter case aside |
| ConfigFiles.Config.FindItem | Core/util/config-file.c:523-546 | searches every section of that name, in order |
| ConfigFiles.Config.SetItem | Core/util/config-file.c:548-590 | replaces the value in the first section of that name, or adds item or section |
| CfProgram.ExpandIsClean | Core/util/cf-lexer.c:1170-1235 | expanding a token leaves no name that is a defined macro, for an acyclic table |
| CfProgram.ExpandAllIsClean | Core/util/cf-lexer.c:1170-1235 | the same for a list of tokens |
| CfProgram.LookupExtended | Core/util/cf-lexer.c:787-801 | a new definition is found only if the name had none: the first one counts |
| CfProgram.RedefinitionIgnored | Core/util/cf-lexer.c:841-888 | a second definition of a name changes no expansion, at any depth |
| CfProgram.UndefinitionUncovers | Core/util/cf-lexer.c:890-923 | after an undefinition the name is still a macro if and only if it was defined at least twice |
| CfPreprocess.Preprocessor.constructor | Core/util/cf-lexer.c:1314-1327 | nothing is defined, nothing has come out, nothing is skipped |
| CfPreprocess.Preprocessor.GetDefIdx | Core/util/cf-lexer.c:787-801 | the first definition of that name, or that there is none |
| CfPreprocess.Preprocessor.AddToken | Core/util/cf-lexer.c:1170-1235 | unless skipping, the full expansion of the token comes out, and no name that is a macro at that moment; the recursion ends by the rank of names |
| CfPreprocess.Preprocessor.NextToken | Core/util/cf-lexer.c:542-556 | the next token that is not a space, on the same line |
| CfPreprocess.Preprocessor.GoToNewline | Core/util/cf-lexer.c:530-540 | the end of the line |
| CfPreprocess.Preprocessor.DefineBody | Core/util/cf-lexer.c:815-888 | the rest of the line behind the space that leads every body |
| CfPreprocess.Preprocessor.PreprocessDefine | Core/util/cf-lexer.c:841-888 | a definition is appended unless skipping, and the cursor is at the end of its line |
| CfPreprocess.Preprocessor.PreprocessUndef | Core/util/cf-lexer.c:890-923 | the first definition of the name is removed unless skipping |
| CfPreprocess.Preprocessor.PreprocessInclude | Core/util/cf-lexer.c:711-745 | an include that cannot be opened changes only the error list |
| CfPreprocess.Preprocessor.PreprocessSubblock | Core/util/cf-lexer.c:926-947 | the branch is processed or skipped, and the flag is as before; nothing comes out of a skipped branch and nothing gets defined in it |
| CfPreprocess.Preprocessor.PreprocessTokens | Core/util/cf-lexer.c:1237-1277 | the main loop emits what the items ahead mean under the definitions so far and stops at the word that ends the block or at the end of the file |
| CfPreprocess.Preprocessor.PreprocessIfdef | Core/util/cf-lexer.c:949-979 | exactly the branch that the definitions select is processed, nested conditionals included |
| CfPreprocess.Preprocessor.Directive | Core/util/cf-lexer.c:981-1031 | each directive does what it means, and only `else` and `endif` inside a block end it |
| CfPreprocess.Preprocessor.Preprocess | Core/util/cf-lexer.c:1314-1327 | main result: for any text with acyclic object-like macros it ends, no macro name comes out and the flag is restored; for well-nested text what comes out is exactly its meaning, and nothing is reported |
| CfPreprocess.Conditional | Core/util/cf-lexer.c:949-1031 | token by token: between `#ifdef` or `#ifndef` with a name, an optional `#else`, and `#endif`, exactly the first part comes out if the name is defined (or is not), otherwise the other part, if any |
| CfPreprocess.DefineThenUse | Core/util/cf-lexer.c:841-888 | token by token: after `#define` with a name and a body on its line, that name is replaced by the body in the line that follows |
| CfPreprocess.Undefine | Core/util/cf-lexer.c:890-923 | token by token: `#undef` removes the first definition of the name, and nothing if there is none |
| TextTrie.InsertKeepsWellFormed | Core/util/text-lookup.c:143-180 | adding a lower-case key keeps distinct first characters of siblings, and at least two children for a node without a value |
| TextTrie.SplitIsWellFormed | Core/util/text-lookup.c:116-134 | so does splitting a node |
| TextTrie.ValueInSplit | Core/util/text-lookup.c:116-134 | splitting a node stores the new value and keeps every path through the node |
| TextTrie.ValueAfterInsert | Core/util/text-lookup.c:143-180 | adding stores the value under its key and changes no other key |
| TextTrie.GetIsValue | Core/util/text-lookup.c:335-358 | the search without regard to case finds what is stored at the lowered query |
| TextTrie.LookupAgrees | Core/util/text-lookup.c:335-358 | main result: after any run of additions with lower-case keys, a query in any case finds the last value stored, and nothing else is found |
| TextTrie.MixedCaseLosesKeys | Core/util/text-lookup.c:143-180 | an input in different spellings: a key stored last is not found |
| TextSpelling.FitsAfterInsert | Core/util/text-lookup.c:143-180 | adding a key that is spelled like another one leaves the trie such that the other one can be added rightly |
| TextSpelling.InsertLowered | Core/util/text-lookup.c:143-180 | for keys spelled alike, adding and lowering all labels commute |
| TextSpelling.GetLowered | Core/util/text-lookup.c:335-358 | the search does not notice how the labels are spelled |
| TextSpelling.LookupIgnoresCase | Core/util/text-lookup.c:335-358 | main result for keys of any case: if keys that agree letter case aside on a prefix spell it the same, a query finds the last value stored under a key equal to it letter case aside, and nothing else |
| TextSpelling.AddedKeyIsFound | Core/util/text-lookup.c:143-180 | main result for any table and any spelling: asked for the key it was just given, the table answers with the new value if and only if no earlier sibling is taken by the search on the way on which the code adds the key; otherwise it answers what it answered before |
| TextSpelling.NewChildHides | Core/util/text-lookup.c:105-114 | a key whose first letter no child spells becomes the first child, and exactly the longer words, letter case aside, are not found any more |
| TextLookups.TextNodeByChar | Core/util/text-lookup.c:68-81 | walks the siblings to the first label with that first character |
| TextLookups.TextNodeByName | Core/util/text-lookup.c:83-96 | walks the siblings to the first label the name starts with, letter case aside |
| TextLookups.FindString | Core/util/text-lookup.c:335-358 | the search over linked nodes is the search in the trie they stand for; it ends because no label is empty |
| TextLookups.CreateSubnode | Core/util/text-lookup.c:105-114 | a new first child; all other nodes stand for what they stood for |
| TextLookups.CommonPrefix | Core/util/text-lookup.c:143-165 | how far label and key agree, letter case aside |
| TextLookups.ReplaceLeaf | Core/util/text-lookup.c:136-141 | only the value of the node changes |
| TextLookups.SplitNode | Core/util/text-lookup.c:116-134 | the relinking of the halves and the new node is the split of the trie |
| TextLookups.AddString | Core/util/text-lookup.c:143-180 | the recursive descent over linked nodes is the insertion in the trie; no node outside changes |
| TextLookups.TextLookup.Add | Core/util/text-lookup.c:143-180 | the nodes stand for the trie of all entries added, whatever the keys |
| TextLookups.TextLookup.GetStr | Core/util/text-lookup.c:335-358 | the linked table answers like the trie, and for keys spelled alike with the last value stored |
| Utf8.EncodeDecodes | Core/util/utf8.c:133-239 | the octets of a character decode to it, and the decoder accepts them exactly if it is outside 0x140000 to 0x17ffff |
| Utf8.EncodedAs | Core/util/utf8.c:262-371 | the octets of every character, written out as in section 3 of RFC 3629, up to the four-octet forms |
| Utf8.SpoiltIsRefused | Core/util/utf8.c:133-239 | which octets are refused, written out: a first octet from 0x80 to 0xc1, 0xf5, 0xfe or 0xff, or one of the octets it announces behind it missing or outside 0x80 to 0xbf; nothing else but a surrogate is |
| Utf8.SpoiltBehind | Core/util/utf8.c:133-239 | a text with such a sequence behind any others converts to nothing |
| Utf8.ShortestForm | Core/util/utf8.c:262-371 | no sequence the decoder accepts for a character is shorter than its encoding (section 3 of RFC 3629) |
| Utf8.FrontOfEncoded | Core/util/utf8.c:133-239 | the first character of an encoded text is found again, whatever follows |
| Utf8.RoundTrip | Core/util/utf8.c:133-371 | main result: a text comes back from UTF-8 if and only if every character in it survives: positive, no surrogate, and outside 0x140000 to 0x17ffff |
| Utf8.OctetsEncode | Core/util/utf8.c:262-371 | the shifts on the octets of the machine word give the six-bit groups of the code point |
| Utf8.PutSequence | Core/util/utf8.c:262-371 | writes the encoding of one character and nothing before it |
| Utf8.WcharToUtf8 | Core/util/utf8.c:262-371 | the size and the octets of the encoded text; without a buffer the same size; zero for a forbidden character or a buffer that is too small |
| Utf8.SequenceContinues | Core/util/utf8.c:133-239 | whether all announced continuation octets are there |
| Utf8.Assemble | Core/util/utf8.c:133-239 | the backward sum over the octets is the code point |
| Utf8.Utf8ToWchar | Core/util/utf8.c:133-239 | the number of characters and the characters; without a buffer surrogates are not looked for; zero for malformed text or a buffer that is too small |
| Utf8.SurrogatesMatter | Core/util/utf8.c:133-239 | asking for the size only and converting agree if and only if no surrogate is decoded or the text is malformed for both |
| Crc32.TableIsOctet | Core/util/crc32.c:22-65 | every one of the 256 entries is what eight shift-and-divide steps make of its index |
| Crc32.TableStep | Core/util/crc32.c:67-78 | one turn of the loop equals eight steps of the division |
| Crc32.CalcCrc32 | Core/util/crc32.c:67-78 | the loop computes the checksum of the buffer from the one before |
| Crc32.InTurn | Core/util/crc32.c:67-78 | the checksum of two buffers in turn is that of the buffers put together |
| Crc32.TableIsBitAtATime | Core/util/crc32.c:67-78 | main result: for every input the checksum is the division one message bit at a time by the reflected polynomial 0xEDB88320, started with the complement and complemented at the end (section 8 of RFC 1952) |
| Crc32.BitIsReversible | Core/util/crc32.c:67-78 | a step of the division loses nothing |
| Crc32.OneOctetIsNoticed | Core/util/crc32.c:67-78 | messages that differ in one octet have different checksums |
| WideMath.AddIsExact | Core/util/util_uint128.h:31-52 | the sum over four words with carries is the sum modulo two to the 128 |
| WideMath.Lshift32 | Core/util/util_uint128.h:54-68 | the shifted word is 2^32 times the number, nothing lost |
| WideMath.Lshift64 | Core/util/util_uint128.h:54-68 | the shifted word is 2^64 times the number, nothing lost |
| WideMath.MulIsExact | Core/util/util_uint128.h:70-89 | the 128-bit product is exact for all 64-bit factors |
| WideMath.Div128By32 | Core/util/util_uint128.h:91-108 | the long division over four words is floor division by any positive 32-bit number |
| WideMath.QuotientSplits | Core/util/util_uint64.h:19-24 | whole part times factor plus the remainder's share is the quotient of the exact product |
| WideMath.MulDivIsExact | Core/util/util_uint64.h:19-24 | main result: the 64-bit expression is the exact quotient if and only if the remainder's product and the quotient fit in 64 bits |
| WideMath.ShortWayAgrees | Core/util/util_uint64.h:19-24 | under the same condition, and only then, it agrees with dividing the 128-bit product |
| LinkLists.LinkIn | MediaExtensions/Microsoft.Samples.SimpleCommunication/LinkList.h:112-136 | four assignments of links put a node into the ring, between its neighbours |
| LinkLists.LinkOut | MediaExtensions/Microsoft.Samples.SimpleCommunication/LinkList.h:152-185 | two assignments of links take a node out of the ring |
| LinkLists.List.constructor | MediaExtensions/Microsoft.Samples.SimpleCommunication/LinkList.h:189-195 | an empty list: the anchor linked to itself |
| LinkLists.List.InsertAfter | MediaExtensions/Microsoft.Samples.SimpleCommunication/LinkList.h:112-136 | the item stands behind the node; a null node is refused |
| LinkLists.List.RemoveItem | MediaExtensions/Microsoft.Samples.SimpleCommunication/LinkList.h:152-185 | the item of the node is returned and removed; a null node and the anchor are refused |
| LinkLists.List.InsertBack | MediaExtensions/Microsoft.Samples.SimpleCommunication/LinkList.h:203-206 | the item is appended |
| LinkLists.List.InsertFront | MediaExtensions/Microsoft.Samples.SimpleCommunication/LinkList.h:209-212 | the item is put in front |
| LinkLists.List.InsertPos | MediaExtensions/Microsoft.Samples.SimpleCommunication/LinkList.h:214-222 | the item stands in front of the one at the position |
| LinkLists.List.RemoveBack | MediaExtensions/Microsoft.Samples.SimpleCommunication/LinkList.h:226-236 | the last item is returned and removed; an empty list fails |
| LinkLists.List.RemoveFront | MediaExtensions/Microsoft.Samples.SimpleCommunication/LinkList.h:240-250 | the first item is returned and removed; an empty list fails |
| LinkLists.List.GetCount | MediaExtensions/Microsoft.Samples.SimpleCommunication/LinkList.h:280-280 | the number of items |
| LinkLists.List.FrontPosition | MediaExtensions/Microsoft.Samples.SimpleCommunication/LinkList.h:321-331 | the position of the first item, or of the end |
| LinkLists.List.Next | MediaExtensions/Microsoft.Samples.SimpleCommunication/LinkList.h:350-360 | the position behind, and the end stays the end |
| LinkLists.List.GetItemPos | MediaExtensions/Microsoft.Samples.SimpleCommunication/LinkList.h:338-348 | the item at the position; the end fails |
| LinkLists.List.Remove | MediaExtensions/Microsoft.Samples.SimpleCommunication/LinkList.h:365-380 | the item at the position is returned and removed; the end is refused |
| LinkLists.List.Clear | MediaExtensions/Microsoft.Samples.SimpleCommunication/LinkList.h:289-309 | no item and no node but the anchor is left |
| SinkStreams.InsertKeepsOrder | MediaExtensions/Microsoft.Samples.SimpleCommunication/StspMediaSink.cpp:350-434 | inserting in front of the first larger identifier keeps the order strict exactly if the identifier is new |
| SinkStreams.RemoveKeepsOrder | MediaExtensions/Microsoft.Samples.SimpleCommunication/StspMediaSink.cpp:436-476 | removing keeps the order and all other identifiers |
| SinkStreams.RunsStayOrdered | MediaExtensions/Microsoft.Samples.SimpleCommunication/StspMediaSink.cpp:350-476 | main result over every run of additions, removals and shutdowns: the identifiers are strictly increasing if and only if none was added twice since the first shutdown; they are exactly those present, or after a shutdown exactly those added since |
| SinkStreams.AddedTwiceAfterShutdown | MediaExtensions/Microsoft.Samples.SimpleCommunication/StspMediaSink.cpp:350-434 | whatever came before, after a shutdown adding an identifier twice breaks the order |
| SinkStreams.MediaSink.GetStreamSinkById | MediaExtensions/Microsoft.Samples.SimpleCommunication/StspMediaSink.cpp:546-600 | found exactly if the identifier is in the list, also with the early end of the search |
| SinkStreams.MediaSink.AddStreamSink | MediaExtensions/Microsoft.Samples.SimpleCommunication/StspMediaSink.cpp:350-434 | an identifier that is there is refused, any other one takes its place in the order; nothing changes when the stream sink cannot be initialized |
| SinkStreams.MediaSink.RemoveStreamSink | MediaExtensions/Microsoft.Samples.SimpleCommunication/StspMediaSink.cpp:436-476 | exactly the stream of that identifier goes |
| SinkStreams.MediaSink.GetStreamSinkByIndex | MediaExtensions/Microsoft.Samples.SimpleCommunication/StspMediaSink.cpp:497-544 | the stream at the index in the order; the index is looked at before the shutdown |
| SinkStreams.MediaSink.Shutdown | MediaExtensions/Microsoft.Samples.SimpleCommunication/StspMediaSink.cpp:665-697 | no stream is left and the sink refuses further requests |
| OpQueues.NextKeeps | MediaExtensions/Microsoft.Samples.SimpleCommunication/OpQueue.h:139-220 | every enqueueing and every run of a work item keeps the invariant of the queue |
| OpQueues.EveryRun | MediaExtensions/Microsoft.Samples.SimpleCommunication/OpQueue.h:139-220 | main result: under every schedule operations are dispatched once each and in the order they were queued, the queue holds one reference for each operation on it, and the waiting operations are as many as the outstanding and the lost work items |
| OpQueues.Draining | MediaExtensions/Microsoft.Samples.SimpleCommunication/OpQueue.h:188-220 | the outstanding work items can all run, and lose nothing |
| OpQueues.NoneStranded | MediaExtensions/Microsoft.Samples.SimpleCommunication/OpQueue.h:139-220 | once the work items have run, every operation was dispatched if and only if no work item was refused and no operation postponed |
| OpQueues.AllDispatched | MediaExtensions/Microsoft.Samples.SimpleCommunication/OpQueue.h:139-220 | what is dispatched is always a first part of what the callers asked for, in their order, and all of it if no work item is refused and no operation postponed |
| OpQueues.OpQueue.constructor | MediaExtensions/Microsoft.Samples.SimpleCommunication/OpQueue.h:115-119 | an empty queue |
| OpQueues.OpQueue.QueueOperation | MediaExtensions/Microsoft.Samples.SimpleCommunication/OpQueue.h:139-153 | the operation is on the queue with a reference even when no work item could be posted |
| OpQueues.OpQueue.ProcessQueue | MediaExtensions/Microsoft.Samples.SimpleCommunication/OpQueue.h:164-178 | a work item is posted exactly if there is something to do |
| OpQueues.OpQueue.ProcessQueueAsync | MediaExtensions/Microsoft.Samples.SimpleCommunication/OpQueue.h:188-220 | the front is looked at, and taken and dispatched if it can be performed; references are balanced either way |
| WeakRefs.NextKeeps | Core/obs-internal.h:446-482 | every atomic step of every thread keeps the invariant of the counters |
| WeakRefs.EveryRun | Core/obs-internal.h:446-482 | main result: under every interleaving the counter is the number of owners less one, the source is destroyed once and only without owners, the counters are freed once and only when nobody uses them, an upgrade succeeds only while there is an owner and gives up only when there is none |
| WeakRefs.NoRevival | Core/obs-source.c:4-20 | after the counter has reached minus one no upgrade succeeds, whatever happens later |
| WeakRefs.UndisturbedUpgrade | Core/obs-internal.h:469-482 | an upgrade that nobody disturbs gives one owner more if there is one, and otherwise gives up and changes nothing |
| WeakRefs.NothingLeaks | Core/obs-internal.h:446-482 | from every state that can be reached, upgrades under way included, the references can be released so that the source is destroyed once and its counters are freed once |

## Left out

- StspSession.SessionSafety: one start per connection, as the queue of start operations allows more and `RequestWhileReceiving` shows what they can do; transport errors, failures of handlers other than a packet out of place, and the sink's refusal of a second client are not steps.
- StspReceiver.Receiver.ProcessPacket: the handlers are not called from the class and cannot fail there, the packet is recorded instead; what the handlers do is in StspDescription and, as far as the source's state goes, in StspSession.
- StspDescription.CreateStreams: GUID values, the reading of a blob (MFInitAttributesFromBlob) and its writing are functions of the platform; that reading gives back what was written, and that no blob is empty, is assumed where the sink is involved. Calls into Media Foundation behind those checks do not fail.
- ProfileTrees.RunAdds: the profiler is not stopped and calls are started with a name; an end that names a nameless call is EndAdds, a stopped profiler NothingWhileStopped and RecordedWhileRunning.
- Profilers.Profiler.ProfileEnd: one thread; the lock around the merge into a root is not modelled, nor are calls of other threads between its steps. Names are compared as pointers in the source and as numbers here.
- Profilers.Profiler.SnapshotCreate: the sorting of the copied entries by duration is not modelled.
- Profilers.Profile: the times between the calls of a registered root are in SnapshotCreate, TraceRecordsGaps and TwoCalls, not in this result.
- TimesTables.TimesTable.GrowHashmap: freeing memory is a set of live arrays; allocation does not fail. Table sizes stay below 2^50 in the comparison of doubles.
- CircleBufs.CircleBuf.PeekBack: the back of a buffer whose end position is zero is excluded by the precondition, because the source then reads in front of its memory.
- CfPreprocess.Preprocessor.PreprocessInclude: no file can be opened; the text of an included file is not part of the model.
- CfPreprocess.Preprocessor.Preprocess: macros with arguments are not modelled, and a rank of names that falls in every body is given. Where a cyclic macro is expanded the source does not end; texts that define one and never expand it are not covered.
- DynStrings.Dstr.Replace: an empty text to find is excluded, because the source's loop does not end on it, and so is the terminator inside texts, which a C string cannot hold.
- ConfigFiles.ConfigSave: the text only; the file, its byte order mark and the writing are not modelled. Names and values hold no terminator.
- ConfigFiles.ConfigOpenString: files, defaults and the typed getters on top of the text are not modelled.
- Utf8.Utf8ToWchar: without flags, and the portable branch only; ignoring errors and skipping the byte order mark are not modelled.
- Utf8.WcharToUtf8: wide characters have 32 bits.
- TextSpelling.LookupIgnoresCase: one way for whole runs; when keys are spelled differently it depends on the order of the additions, and AddedKeyIsFound and NewChildHides say it for one addition to any table.
- TextLookups.TextLookup.Add: the file format of translations and the unescaping of values are not modelled.
- LinkLists.List.Remove: items are values; the COM references of ComPtrList are counted in OpQueues.
- OpQueues.EveryRun: a critical section is one step; what an operation does when it is dispatched is not modelled.
- WeakRefs.EveryRun: the counters are unbounded and the memory is sequentially consistent.
- SinkStreams.MediaSink.AddStreamSink: a stream sink is its identifier; making and initializing one is a parameter.
- Buffer lengths, text lengths and ring buffer sizes are unbounded, except where a 32-bit sum is checked or wrapped by the source (stream descriptions) and in the arithmetic of WideMath, Crc32 and the profiler's counts.
- InsertBuffer, RemoveBuffer, FromMFSample and ToMFSample of the packet, the sample and format-change handlers behind their state check, and the network classes: calls into Media Foundation and WinRT.
- The string comparison families, darray, serializer and bitstream on their own: they would only add easy members.
- Function-like macros, formatted printing, statistics in floating point, profiler dumps, logging, platform and thread wrappers, video output, encoders, and the application with its Direct3D, XAML and Bluetooth code.
