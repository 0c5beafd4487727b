# Verified models of the IMS vendor library

This project models the parts of the MediaTek IMS video-telephony library that are hardest to get
right, and proves what they promise. Every file is one module.

**The CCB shared-memory page ring** (`CcbRing`, `CcbProtocol`, `CcbChannel`, `CcbLayout`). A producer
allocates pages, completes them in any order and publishes the finished prefix; a consumer takes
published pages and frees them; both work on four indices in shared memory without a lock.
`CcbProtocol` runs both ends concurrently, one shared access per step, with every load of
`free_index` and every increment of `write_index` a step of its own, and proves the ring invariant
and in-order delivery for every interleaving. A session starts where a registering producer finds the
ring, so pages published earlier may still be unread and pages dropped earlier may still be marked ALLOC; the
other end is this library's own reader or any
peer that moves `read` up to `write` and `free` up to `read`. Four ghost counters F, R, W and A count the pages ever
freed, taken, published and handed out. `CcbChannel` has the same calls as imperative methods over
the shared header and the page array, with the other end moving between any two shared accesses.
`CcbLayout` covers the buffer headers and page areas: what initialisation writes is what registration
reads, and no two pages share a byte.

**The modem partition and its settings** (`BitMask`, `ImageHeader`, `PartitionWalker`, `ImageRestore`,
`SettingsParser`). The bytes of the image headers, the walk over them with mask-aligned sizes, the copy
loop under short reads and short writes, and the parser of `[name]:value` lines.

**H.264 parameter sets** (`EmulationPrevention`, `BitReader`, `SpsSyntax`, `SpsParser`, `AvcConfig`).
In-place removal of emulation prevention bytes, the bit reader with Exp-Golomb codes, the sequence
parameter set parser against a writer of section 7.3.2.1.1 of ITU-T H.264, and the writer and reader
of the AVC decoder configuration record of section 5.2.4.1 of ISO/IEC 14496-15.

**Call control** (`CallControl`). Start, stop, hold by either side, and turning video off, over the flag
word of `ImsMa`. Each posted request succeeds with its effect on the source, the sink or an RTP
direction, or fails and leaves its module as it was; what the requests of a run return is a parameter,
and every call states which requests it posts. Every request may only be posted where the modules are
and stay safe.

**The media loops** (`NalAssembler`, `PcmPacketizer`, `VideoRenderer`, `FrameDropper`). Assembling NAL
units into frames, packetizing PCM, scheduling frames against the audio clock, and dropping frames in
front of the encoder.

`Common` and `Arithmetic` hold bytes, 32-bit conversion, optional values and division.

Where the source updates fields or buffers in place, the model is a class or a method over an array,
proved against a function of its inputs, and the promises of the source are lemmas about that
function. Actions of the surroundings (what a read returns, whether a request succeeds, how far the
other end has come) are nondeterministic.

Findings that the lemmas state exactly:

- `write_done` admits lengths up to the page size, but a payload of that length stays inside its page
  exactly when it leaves room for the 8-byte page header (`CcbLayout.PayloadInsidePage`).
- `write_done` accepts only pages that were handed out, in every state of a session, exactly when no
  page is marked ALLOC when the session starts (`CcbProtocol.ExactFromCleanStart`). Registering again
  between two calls starts so exactly when every page handed out had been published and no other page was
  marked (`ReregisteredCleanExactly`), and every session with room has a run after which it does not
  (`StaleAllocIsReached`). The order of the counters and of deliveries holds in all sessions
  (`EveryInterleaving`, `DeliveredInOrder`, `DeliveredOrFlushed`): a page accepted without having been
  handed out completes and publishes nothing (`StaleCompletesNothing`).
- `read_done` frees only when exactly one page is outstanding; with two outstanding it is refused until
  a flush (`CcbProtocol.ReadDoneStuck`), and every session over an empty ring of three pages or
  more has a run that gets there (`TwoOutstandingIsReached`).
- The 8-bit size of the prevention byte removal makes it act on the whole unit exactly for units of at
  most 255 bytes (`EmulationPrevention.WholeUnitExactlyWhenSmall`), and so parameter sets are collected
  as they were sent exactly when no transmitted unit is larger (`AvcConfig.TransmittedSetsComeBack`).
- The 1024-byte buffer of the record reader holds the byte stream of a record exactly when that stream
  has at most 1024 bytes; the code does not check (`AvcConfig.RecordRoom`).
- The window of the frame rate estimate stays within ten intervals exactly unless ten intervals and the
  new one span no time; with a standing clock it grows without end (`FrameDropper.WindowStaysShort`,
  `StandingClockGrows`).
- A 03 appended behind data that ends in a zero byte is removed exactly when the data ends in two
  zeros (`EmulationPrevention.FinalThreeRemoved`).
- The parameter set parser stays in step for all sets of a profile, those with twelve scaling lists
  aside, exactly when the profile is none of 118, 128, 134, 135, 138 and 139, of which it does not know that
  they have the extended fields; with twelve lists it loses step (`SpsParser.ProfileScopeIsExact`).
- Resuming both paths from a hold while a video of them is turned off fails a CHECK
  (`CallControl.ImsMa.ResumeHold`), and four calls from the beginning get there
  (`CallControl.ResumeAbortIsReached`).
- The walk over the image headers ends on every partition whose headers lead forward, and on any partition
  exactly unless it comes back to an offset with the same padding (`PartitionWalker.ForwardEnds`,
  `EndsUnlessItRepeats`). A first header with data size 0xFFFFFE00 and header size 512 leads nowhere and is
  read for ever (`WrappedDistance`, `StandsStill`).
- The adaptive dropper posts at least the target, and exactly the target only for a camera taken to deliver 30
  frames a second; below that it posts more (`FrameDropper.PostsTheTarget`).
- A resume from a hold that does not fail a CHECK can return OK while the hold stands exactly if a video of
  the path is turned off and ending the hold posts a request, that is, unless it is a local hold inside a
  hold by the peer (`CallControl.MaskedExactly`); for given answers of the requests,
  `CallControl.ImsMa.Resume` says when it does, and `CallControl.OkStillOnHold` is a run that gets there.

## Model

| member | source | states |
|---|---|---|
| CcbRing.SlotIsRemainder | include/ccci_sys/ccci_lib.c:856-859 | stepping an index with wrap-around c times from zero gives c modulo the number of pages |
| CcbRing.SlotGap | include/ccci_sys/ccci_lib.c:846-852 | inside one lap two indices differ by their distance, less the ring size exactly when the end of the ring lies between |
| CcbRing.SlotsApart | include/ccci_sys/ccci_lib.c:854-859 | allocations less than a lap apart never use the same page |
| CcbRing.ConsumerMovedKeeps | include/ccci_sys/ccci_lib.c:1048-1051 | whatever the consumer does between two accesses of the producer, the ring invariant stays, and no page that leaves the window is a stale ALLOC page |
| CcbRing.SameAcceptable | include/ccci_sys/ccci_lib.c:909-913 | which pages write_done would accept does not depend on what the consumer does |
| CcbRing.AvailableIsExact | include/ccci_sys/ccci_lib.c:846-852 | all three branches compute N - 1 - (A - F) |
| CcbRing.AvailableUnderInterference | include/ccci_sys/ccci_lib.c:846-852 | with pages freed between the three loads the wrapped value may be any number, but it is zero exactly when no page is free at the last load |
| CcbProtocol.StepKeeps | include/ccci_sys/ccci_lib.c:826-1101 | every single step of producer, consumer, peer or page owner keeps the ring invariant, and a clean session clean |
| CcbProtocol.EveryInterleaving | include/ccci_sys/ccci_lib.c:826-941 | in every interleaving with this library's reader or any peer, from every ring a registering producer may find, stale ALLOC pages included, F <= R <= W <= A <= F + N - 1, each index is its counter modulo N, all of [F, W) is WRITE_DONE, and between calls page W is ALLOC whenever W < A |
| CcbProtocol.DeliveredInOrder | include/ccci_sys/ccci_lib.c:826-1089 | whatever the order of completions, whatever was unread and whatever pages were marked ALLOC at the start, read_get returns the allocations in order, each once, with the length and payload given to write_done |
| CcbProtocol.DeliveredOrFlushed | include/ccci_sys/ccci_lib.c:1018-1101 | in every session, with flushes and peers, deliveries are still in allocation order and distinct, and with the pages flushed or passed they account for every page since the start |
| CcbProtocol.PublishedPageIsStable | include/ccci_sys/ccci_lib.c:826-1089 | a published page keeps status, length and payload until it is freed, so it is never reallocated before |
| CcbProtocol.HandedOutPageIsFree | include/ccci_sys/ccci_lib.c:853-860 | the page write_alloc hands out is none of those not yet freed |
| CcbProtocol.AllocFailsOnlyWhenFull | include/ccci_sys/ccci_lib.c:842-869 | write_alloc goes on with zero pages exactly when the ring is full at that load |
| CcbProtocol.AcceptsExactlyOutstanding | include/ccci_sys/ccci_lib.c:893-915 | write_done accepts, with a length up to the page size, exactly the pages handed out and not completed and the stale ALLOC pages, of which a clean session has none; a refusal changes nothing |
| CcbProtocol.StaleCompletesNothing | include/ccci_sys/ccci_lib.c:909-941 | accepting a stale page writes its status and length, completes and publishes nothing, and stops the publish loop at once |
| CcbProtocol.RepeatIsRefused | include/ccci_sys/ccci_lib.c:909-913 | completing an allocation again before its page is freed is refused without a change |
| CcbProtocol.ExactFromCleanStart | include/ccci_sys/ccci_lib.c:732 | that exactness holds throughout a session, over every ring it may start with, if and only if no page is marked ALLOC at its start |
| CcbProtocol.StaysClean | include/ccci_sys/ccci_lib.c:826-1101 | a session that starts without stale ALLOC pages has none in any later state |
| CcbProtocol.ResumableIsRegistered | include/ccci_sys/ccci_lib.c:731-732 | every memory with allocate at write, read between free and write, and the pages between free and write WRITE_DONE starts a session |
| CcbProtocol.ReregisteredCleanExactly | include/ccci_sys/ccci_lib.c:731-732 | registering again between two calls of any session starts a session, without an ALLOC page if and only if every page handed out had been published and no other page was marked |
| CcbProtocol.DroppedPageIsAccepted | include/ccci_sys/ccci_lib.c:732-913 | a page handed out and not published is accepted by write_done in the next session, which has not handed it out |
| CcbProtocol.StaleAllocIsReached | include/ccci_sys/ccci_lib.c:732-869 | every session with room has a run after which registering again leaves such a page |
| CcbProtocol.TwoOutstandingIsReached | include/ccci_sys/ccci_lib.c:826-1089 | every session over an empty ring of three pages or more has a flush-free run to two outstanding pages, where read_done is refused |
| CcbProtocol.PublishLoopProgress | include/ccci_sys/ccci_lib.c:927-941 | the cursor equals write_index, each turn leaves or shortens A - W, and on leaving W is the first allocation not completed |
| CcbProtocol.FreesExactlyOne | include/ccci_sys/ccci_lib.c:1074-1080 | the guard of read_done holds exactly with one page outstanding, or in a one-page ring |
| CcbProtocol.ReadDoneAcceptsExactlyOne | include/ccci_sys/ccci_lib.c:1060-1089 | read_done frees exactly with one page outstanding and then free equals read; otherwise nothing changes |
| CcbProtocol.ReadDoneStuck | include/ccci_sys/ccci_lib.c:1074-1080 | once two pages are outstanding read_done is refused in every later state of every run without a flush |
| CcbProtocol.FlushEmpties | include/ccci_sys/ccci_lib.c:1091-1101 | read_flush takes everything published when it begins, delivering none of it, and frees everything taken when it ends |
| CcbProtocol.PeerMayMove | include/ccci_sys/ccci_lib.c:826-941 | a peer may pass any number of published pages and free any number of those passed, and changes nothing else |
| CcbProtocol.ReadAvailableIsExact | include/ccci_sys/ccci_lib.c:954-958 | the consumer sees exactly W - R pages |
| CcbProtocol.ExecGrows | include/ccci_sys/ccci_lib.c:826-1101 | over every run the counters only grow and a completed allocation keeps its message |
| CcbChannel.AddressesDiffer | include/ccci_sys/ccci_lib.c:815-820 | two pages of an area start at different addresses |
| CcbChannel.PageHasPayload | include/ccci_sys/ccci_lib.c:815-820 | of the address 8 bytes behind the start of a page, every byte of a payload that leaves room for the page header lies in that page and is no byte of the status or length of any page |
| CcbChannel.Channel.constructor | include/ccci_sys/ccci_lib.c:731-732 | from every ring a registering producer may find a session starts valid with the counters and messages found; it is clean exactly if no page is marked ALLOC |
| CcbChannel.Channel.CountAvailable | include/ccci_sys/ccci_lib.c:846-852 | with the consumer moving between the loads, the count is zero exactly when the ring is full at the last load |
| CcbChannel.Channel.WriteAlloc | include/ccci_sys/ccci_lib.c:826-869 | hands out the address 8 bytes behind the start of the page of the next allocation, from where a fitting payload meets no page header; none only if the ring was full when the call began |
| CcbChannel.Channel.FindPage | include/ccci_sys/ccci_lib.c:899-908 | finds the page of an address, or none exactly if no page has it |
| CcbChannel.Channel.FindAcceptable | include/ccci_sys/ccci_lib.c:893-913 | yields a page exactly if the length fits and the address is that of an acceptable page: handed out and not completed, or stale |
| CcbChannel.Channel.WriteDone | include/ccci_sys/ccci_lib.c:871-946 | accepted exactly for an outstanding address or a stale one, of which a clean session has none; records length and payload as the message of the allocation handed out, and nothing for a stale page; refused without a change |
| CcbChannel.Channel.PublishFinished | include/ccci_sys/ccci_lib.c:927-941 | moves the write index over the whole finished prefix while the consumer moves, and ends |
| CcbChannel.Channel.ReadAvailable | include/ccci_sys/ccci_lib.c:954-958 | returns W - R |
| CcbChannel.Channel.ReadGet | include/ccci_sys/ccci_lib.c:1018-1058 | returns the next page in allocation order, by the address 8 bytes behind its start, with its length and payload, EAGAIN only if nothing was published, and never finds a wrong state |
| CcbChannel.Channel.ReadDone | include/ccci_sys/ccci_lib.c:1060-1089 | frees the single outstanding page, or changes nothing |
| CcbChannel.Channel.ReadFlush | include/ccci_sys/ccci_lib.c:1091-1101 | takes and frees every page published at its loads |
| CcbLayout.QueryConfig | include/ccci_sys/ccci_lib.c:612-623 | returns the user's k-th entry, and none exactly if k is not below the number of the user's buffers |
| CcbLayout.CountBuffers | include/ccci_sys/ccci_lib.c:681-684 | counts exactly the user's entries |
| CcbLayout.ConfigsOfUser | include/ccci_sys/ccci_lib.c:612-623 | the user's entries are exactly those of the table with that user, each as often as it stands there |
| CcbLayout.InitUser | include/ccci_sys/ccci_lib.c:564-588 | writes fresh headers with the sizes of the user's k-th entry at its k-th place, and touches no other header |
| CcbLayout.FreshIsNotAccepted | include/ccci_sys/ccci_lib.c:564-708 | what initialisation writes are empty rings that registration refuses at the first buffer until the peer has accepted them |
| CcbLayout.Register | include/ccci_sys/ccci_lib.c:681-787 | succeeds on headers the peer accepted, with every buffer derived as the table says, downlinks flushed and uplink allocation reset; on failure the headers are those of a registration torn down at the first buffer not accepted |
| CcbLayout.RegisterBuffers | include/ccci_sys/ccci_lib.c:703-787 | succeeds exactly if every header of the user has been accepted by the peer; otherwise stops at the first that is not and tears down what it reached |
| CcbLayout.Unregister | include/ccci_sys/ccci_lib.c:763-773 | restores the end guard bands of the buffers reached and touches no other header |
| CcbLayout.TakeBuffer | include/ccci_sys/ccci_lib.c:704-752 | marks both headers as taken with read, free and allocate set to write, and derives both areas |
| CcbLayout.BufferIsCut | include/ccci_sys/ccci_lib.c:704-752 | downlink and uplink of a buffer have neighbouring headers and areas without a gap, each with as many pages as fit into it |
| CcbLayout.InitThenRegister | include/ccci_sys/ccci_lib.c:564-753 | after initialisation and acceptance, registration derives every buffer from the user's own entry |
| CcbLayout.PagesInArea | include/ccci_sys/ccci_lib.c:815-820 | the pages of one direction lie in its data area one behind the other |
| CcbLayout.AreasDisjoint | include/ccci_sys/ccci_lib.c:721-752 | the data areas of different directions or buffers do not meet |
| CcbLayout.PagesDisjoint | include/ccci_sys/ccci_lib.c:721-820 | the byte ranges of all pages of all buffers and directions are disjoint, inside the user's area, with different addresses |
| CcbLayout.PayloadInsidePage | include/ccci_sys/ccci_lib.c:893-897 | a length admitted by write_done ends before the next page exactly if length plus 8 is at most the page size |
| CcbLayout.PayloadMeetsNoHeader | include/ccci_sys/ccci_lib.h:17-21 | no byte of a payload that leaves room for the page header is one of the 8 header bytes of any page |
| BitMask.MaskIsRoundUp | include/ccci_sys/ccci_lib.c:149-163 | for a power of two the masked sum is the round-up |
| BitMask.RoundUpIsLeast | include/ccci_sys/ccci_lib.c:149-163 | the round-up is the least multiple not below the size |
| ImageHeader.FieldsBack | include/ccci_sys/ccci_lib.c:74-95 | reading the 512 bytes of a header yields the magic, sizes, name, alignment and end mark written into it, each at its offset |
| ImageHeader.MembersAt | include/ccci_sys/ccci_lib.c:74-95 | the members read lie at bytes 0, 4, 8, 52, 64 and 68 of the header |
| ImageHeader.WordBack | include/ccci_sys/ccci_lib.c:74-95 | four bytes are read as a word exactly if they are that word with its low byte first |
| ImageHeader.StringBack | include/ccci_sys/ccci_lib.c:141 | the C string read is the name exactly if the bytes begin with the name, without a zero byte in it, and then end or go on with a zero byte |
| ImageHeader.EveryHeader | include/ccci_sys/ccci_lib.c:74-95 | every 512 bytes are the bytes of one header |
| PartitionWalker.DistanceIsSpan | include/ccci_sys/ccci_lib.c:149-160 | in C arithmetic the distance to the next header is header plus rounded data |
| PartitionWalker.PaddingComputed | include/ccci_sys/ccci_lib.c:161-163 | in C arithmetic the signature padding is the round-up to 4096 less the span, plus 256 |
| PartitionWalker.LocateHeader | include/ccci_sys/ccci_lib.c:118-140 | finds the header at the offset or behind the padding, with -5 exactly at a short read and -6 exactly at a missing magic |
| PartitionWalker.NextImage | include/ccci_sys/ccci_lib.c:149-165 | behind an image that is not last the list goes on exactly where the walk looks next, strictly further on |
| PartitionWalker.FindImage | include/ccci_sys/ccci_lib.c:104-184 | over every partition on which the walk ends, returns code, offset and size of its last turn; -1 exactly at an offset before the start |
| PartitionWalker.EndsUnlessItRepeats | include/ccci_sys/ccci_lib.c:113-165 | over every partition, the walk ends if and only if it never comes back to an offset with the same padding |
| PartitionWalker.ForwardEnds | include/ccci_sys/ccci_lib.c:113-165 | the walk ends on every partition whose headers, other than the last and the one sought, all have a positive distance |
| PartitionWalker.StandsStill | include/ccci_sys/ccci_lib.c:149-165 | a first header of distance zero is read again and again |
| PartitionWalker.WrappedDistance | include/ccci_sys/ccci_lib.c:149-160 | data size 0xFFFFFE00 behind a header of 512 bytes gives distance zero |
| PartitionWalker.PaddingInRange | include/ccci_sys/ccci_lib.c:161-163 | the padding is at least 256 and below 4352 for negative distances too |
| PartitionWalker.ListedEnds | include/ccci_sys/ccci_lib.c:104-184 | over every laid-out list the walk ends at the first image of the name with its size, or with -7, -5 or -6 as the list ends |
| PartitionWalker.FindListed | include/ccci_sys/ccci_lib.c:104-184 | the call on a partition that holds the bytes of a laid-out list returns offset + 512 and size of the first image of the name, or that code |
| PartitionWalker.FirstNamedOnDisk | include/ccci_sys/ccci_lib.c:141-148 | the 512 bytes at the offset reported are a header of the image reported |
| PartitionWalker.FirstNamedIsFirst | include/ccci_sys/ccci_lib.c:141-148 | the image reported is the first of the list with that name |
| ImageRestore.RestoreImage | include/ccci_sys/ccci_lib.c:230-293 | for every answer of every read and write: how far the copy comes and which of the outcomes ends it is what these answers say, the file is a prefix of the image, and as long as all answers are positive it ends with the whole image; a positive result is the number of bytes restored |
| ImageRestore.AnswersDecide | include/ccci_sys/ccci_lib.c:269-293 | the answers leave no choice: two restores with the same answers make the same progress and end the same way |
| ImageRestore.PositiveAnswersComplete | include/ccci_sys/ccci_lib.c:269-293 | a restore of an image that lies on the disk does not end at positive answers before all is copied |
| ImageRestore.CopyBlock | include/ccci_sys/ccci_lib.c:269-293 | one turn reads what its read returns of up to 4096 bytes, appends what its write takes of them, or ends with the outcome of the one that returned nothing |
| SettingsParser.ParseInfo | include/ccci_sys/ccci_lib.c:301-364 | the loop over two fixed buffers returns what the state machine finds, cut to the caller's size, or -1 |
| SettingsParser.ParserUndoesPrinter | include/ccci_sys/ccci_lib.c:301-364 | on every printed list of entries it stays inside its buffers and finds the value of the first entry of the name, or none |
| SettingsParser.OnlySettingsAreFound | include/ccci_sys/ccci_lib.c:301-364 | whatever stands between the settings (other text, names broken by a line end, names no colon follows), the first setting of the name is found, or none |
| SettingsParser.ParsePrinted | include/ccci_sys/ccci_lib.c:301-364 | the whole call on a printed list returns that value cut to size, or -1 |
| EmulationPrevention.RemovePreventionByte | comutils/comutils.cpp:87-104 | scanning a fixed size over stale copies of the last byte leaves in front exactly the functional unescape, behind it copies of the last byte, and nothing behind the size changes |
| EmulationPrevention.RemoveFromUnit | comutils/comutils.cpp:926-927 | called with a whole unit's size, it acts on the size modulo 256 |
| EmulationPrevention.WholeUnitExactlyWhenSmall | comutils/comutils.cpp:87 | that is the unescape of the whole unit if and only if the unit has at most 255 bytes |
| EmulationPrevention.TripleIsData | comutils/comutils.cpp:91-93 | no prevention triple is ever found in the stale copies |
| EmulationPrevention.UnescapeIsDrop | comutils/comutils.cpp:91-99 | looking ahead for triples removes the same bytes as counting zeros |
| EmulationPrevention.UnescapeUndoesEscape | comutils/comutils.cpp:87-104 | removal undoes the insertion of section 7.4.1 for every byte string |
| EmulationPrevention.FinalThreeRemoved | comutils/comutils.cpp:87-104 | a 03 appended to the data is removed if and only if the data ends in two counted zeros |
| EmulationPrevention.EscapedHasNoForbiddenTriple | comutils/comutils.cpp:91-93 | escaped data holds none of the byte triples forbidden inside a NAL unit |
| BitReader.ReadUEBack | comutils/comutils.cpp:793-858 | reading an unsigned Exp-Golomb code gives back every value written and stops exactly behind it |
| BitReader.ReadSEBack | comutils/comutils.cpp:758 | the same for signed codes |
| BitReader.BitOfByte | comutils/comutils.cpp:787-791 | bit 8i + j of the data is bit j of byte i, counted from the most significant one |
| BitReader.ToBitsAt | comutils/comutils.cpp:787-791 | bit j of an n-bit number is worth 2 to the n - 1 - j |
| BitReader.BitsOfBytes | comutils/comutils.cpp:787-791 | packing bits into bytes and reading the bits of the bytes gives them back |
| BitReader.FirstCodes | comutils/comutils.cpp:758 | the first codes are those of tables 9-2 and 9-3 of ITU-T H.264 |
| BitReader.Reader.GetBits | comutils/comutils.cpp:787-791 | reads an n-bit number, most significant bit first, and moves the cursor by n |
| BitReader.Reader.ParseUE | comutils/comutils.cpp:793-858 | the loop over leading zeros reads what the code definition reads |
| BitReader.Reader.ParseSE | comutils/comutils.cpp:758 | maps code numbers to signed values as section 9.1.1 does |
| SpsParser.ScalingListInStep | comutils/comutils.cpp:752-764 | a scaling list of any length and content is read exactly to its end |
| SpsParser.CRemOf256 | comutils/comutils.cpp:752-762 | the remainder of the next scale has the sign of the dividend |
| SpsParser.ListsInStep | comutils/comutils.cpp:766-778 | eight scaling lists, each present or not, are read exactly to their end |
| SpsParser.HighInStep | comutils/comutils.cpp:797-814 | the extended fields are read exactly to their end with their chroma format |
| SpsParser.PocInStep | comutils/comutils.cpp:817-835 | the picture order count fields, with a cycle of any length, are read exactly to their end |
| SpsParser.CropInStep | comutils/comutils.cpp:853-858 | the cropping offsets are read back |
| SpsParser.DimensionsAgree | comutils/comutils.cpp:840-881 | the unsigned arithmetic yields the cropped width and height of section 7.4.2.1.1 |
| SpsParser.ParserInStep | comutils/comutils.cpp:780-882 | for every parameter set in the scope of the code, the parser consumes exactly its bits and returns profile, level, width and height |
| SpsParser.ProfileOutOfStep | comutils/comutils.cpp:797-798 | for each profile with extended fields missing from the code's list, a concrete set it misreads |
| SpsParser.TwelveListsOutOfStep | comutils/comutils.cpp:766-778 | a concrete 4:4:4 set with twelve lists it misreads |
| SpsParser.ProfileScopeIsExact | comutils/comutils.cpp:797-814 | without twelve scaling lists the parser is in step with all sets of a profile if and only if the profile is none of 118, 128, 134, 135, 138 and 139; with twelve lists it loses step on every profile |
| SpsParser.FindAvcSpsInfo | comutils/comutils.cpp:780-882 | the imperative parser does what the reading function says and fails exactly when the bits run out |
| SpsParser.FindInfo | comutils/comutils.cpp:780-786 | the call on a unit parses the bits behind the unit header |
| AvcConfig.ReadRecordBack | comutils/comutils.cpp:1034-1117 | reading a record yields exactly the parameter sets it was built from, in order |
| AvcConfig.SmallestRecord | comutils/comutils.cpp:1034-1046 | less than 7 bytes or another version fails a check; 7 bytes may be a record of no units |
| AvcConfig.CopyUnits | comutils/comutils.cpp:1061-1083 | copies exactly the units read, each behind a start code, and fails exactly at a unit that is not whole |
| AvcConfig.ParseAvcCodecSpecificData | comutils/comutils.cpp:1034-1117 | returns the units as a byte stream, or fails its checks exactly when the record is not whole |
| AvcConfig.CollectParameterSets | comutils/comutils.cpp:906-977 | collects what removal leaves of units of any size in order, with the refusals and failed checks of the code |
| AvcConfig.CollectedIsWritable | comutils/comutils.cpp:920-977 | what is collected has a non-empty SPS first, the three bytes behind its first one, and fits 16-bit lengths |
| AvcConfig.CollectedUnits | comutils/comutils.cpp:906-977 | whatever is collected is what removal leaves of the first units, in order |
| AvcConfig.CollectionStops | comutils/comutils.cpp:896-972 | collection stops at the first unit that is not an SPS before all PPS or a PPS behind an SPS; which unit it is decides between success with the units so far, refusal and a failed check |
| AvcConfig.WriteRecord | comutils/comutils.cpp:979-1024 | fills exactly the bytes allocated, with the record of section 5.2.4.1 |
| AvcConfig.RecordBegins | comutils/comutils.cpp:978-990 | a record begins with 1, the three head bytes, 0xFD and 0xE0 plus the number of SPS |
| AvcConfig.MakeAvcCodecSpecificData | comutils/comutils.cpp:884-1031 | returns the record of the sets collected with profile and level of the first SPS, or the refusal or failed check; the record begins with version 1, bytes 1 to 3 of the first SPS, two-byte lengths and the number of SPS |
| AvcConfig.TransmittedSetsComeBack | comutils/comutils.cpp:906-1117 | a list of parameter sets sent with prevention bytes is collected as sent if and only if no unit has more than 255 bytes, and reading its record gives it back |
| AvcConfig.RecordRoom | comutils/comutils.cpp:1034-1117 | the reader has room for a record if and only if the byte stream of its sets fits 1024 bytes |
| AvcConfig.MakeThenParse | comutils/comutils.cpp:884-1117 | both calls in a row yield exactly the start-code-prefixed sets in order, or fail exactly when the first SPS ends too early |
| AvcConfig.InfoOfTransmitted | comutils/comutils.cpp:87-882 | for every parameter set in scope, whatever bits follow it, packed into bytes behind a unit header and transmitted with prevention bytes in at most 255 bytes, removal and parser return profile, level and cropped dimensions |
| AvcConfig.InfoOfUnit | comutils/comutils.cpp:926-1012 | the same for the unit that carries a parameter set with its trailing bits |
| CallControl.ImsMa.Post | imsma/ImsMa.cpp:2798-2811 | between any two requests, failed ones included, a running source has a running uplink and a running downlink a running sink |
| CallControl.PostsPrefix | imsma/ImsMa.cpp:2798-2811 | of a sequence of requests a prefix is posted, and all of it if it succeeds |
| CallControl.ImsMa.ModifyFlags | imsma/ImsMa.cpp:2813-2827 | sets or clears exactly one flag, or assigns it |
| CallControl.ImsMa.Start | imsma/ImsMa.cpp:1878-1950 | keeps the run invariant, posts exactly its requests, and marks exactly the paths started; a failure leaves the flags, or marks the sink exactly if its requests succeeded |
| CallControl.ImsMa.Stop | imsma/ImsMa.cpp:2714-2797 | keeps the run invariant, posts exactly its requests, and leaves of a stopped path only the stopped flag; a failure leaves the flags, or stops the source exactly if its requests succeeded |
| CallControl.ImsMa.HoldByPeer | imsma/ImsMa.cpp:2211-2260 | nests with a local hold; aborts exactly for a path other than the started source; posts exactly the requests of its script, up to the first that fails |
| CallControl.ImsMa.UnholdByPeer | imsma/ImsMa.cpp:2261-2315 | restarts the modules only if no local hold is left; tells the peer in any case; posts exactly the requests of its script, up to the first that fails |
| CallControl.ImsMa.HoldByLocal | imsma/ImsMa.cpp:2317-2395 | stops the modules of its paths unless they are held already |
| CallControl.ImsMa.UnholdByLocal | imsma/ImsMa.cpp:2396-2464 | restarts the sink side, and the source side only if the peer does not hold it |
| CallControl.ImsMa.SetHold | imsma/ImsMa.cpp:2204-2470 | keeps the run invariant, changes exactly the hold flags asked for, aborts exactly where a CHECK fails, and after a failure leaves the flags or of both local paths does the first |
| CallControl.ImsMa.SetTurnOffVideo | imsma/ImsMa.cpp:2471-2602 | keeps the run invariant, changes exactly the video flags or on failure none, aborts exactly where a CHECK fails, and posts exactly the request of its path and mode |
| CallControl.ImsMa.PauseNormal | imsma/ImsMa.cpp:2603-2662 | keeps the flags consistent in every run, posts exactly its requests, and after a failure leaves the flags of what succeeded |
| CallControl.ImsMa.ResumeNormal | imsma/ImsMa.cpp:2663-2713 | keeps the flags consistent in every run, posts exactly its requests, and after a failure leaves the flags of what succeeded |
| CallControl.ImsMa.Pause | imsma/ImsMa.cpp:1993-2027 | keeps the run invariant, aborts exactly where a CHECK fails, and on success sets exactly the flags of its mode |
| CallControl.ImsMa.ResumeHold | imsma/ImsMa.cpp:2029-2101 | returns the status of the hold, or of re-applying a turned-off video instead, each the answers of exactly the requests it posts; the flags are those the hold left, without the video that could not be re-applied; aborts exactly where the hold does, or for both paths with a video turned off |
| CallControl.ImsMa.ResumeVideo | imsma/ImsMa.cpp:2029-2101 | while the uplink is held or on hold only the flag is cleared |
| CallControl.ImsMa.Resume | imsma/ImsMa.cpp:2029-2101 | keeps the run invariant in every mode, aborts exactly where a CHECK fails, and returns OK with exactly the flags of its mode cleared, or with the hold standing if and only if the answers mask a failed hold |
| CallControl.MaskedExactly | imsma/ImsMa.cpp:2040-2059 | answers that leave the hold standing behind an OK exist if and only if the resume does not fail a CHECK, a video of the path is turned off, and it is not a local hold inside a hold by the peer |
| CallControl.ImsMa.Run | imsma/ImsMa.cpp:1878-2797 | over every run without normal pauses and failures, source and uplink run iff started and neither on hold nor held, sink and downlink iff started and not on hold; without failures the flags are those of the functional run, and it stops exactly at a failed CHECK |
| CallControl.RunsStayConsistent | imsma/ImsMa.cpp:1878-2797 | over all runs, normal pauses included, started and stopped exclude each other and any paused, hold, held or turn-off flag implies started on its path |
| CallControl.ConsistentMeans | imsma/ImsMa.cpp:1878-2797 | that consistency is what the flags mean, flag by flag |
| CallControl.ResumeUndoesPause | imsma/ImsMa.cpp:1993-2101 | resuming undoes a new pause of any mode, whatever else is paused, if and only if it is not a hold of both paths with a video turned off |
| CallControl.HoldsNest | imsma/ImsMa.cpp:2204-2470 | local and peer holds nest in any order: after the first release nothing runs on the uplink, after the second the flags are the old ones |
| CallControl.ResumeAbortIsReached | imsma/ImsMa.cpp:1878-2470 | starting both paths, turning the camera off, holding both and resuming fails a CHECK, and only the last call does |
| CallControl.OkStillOnHold | imsma/ImsMa.cpp:2040-2059 | a run from the beginning that ends with OK and the local hold still set |
| NalAssembler.Assembler.WaitForNextNal | sink/Sink.cpp:790-889 | one arrival: the units of the group stand whole and in order in the frame, or the unit waits |
| NalAssembler.Assembler.Flush | sink/Sink.cpp:832-885 | the frame is the queued units behind start codes, in a buffer of exactly that size, with the last unit's time |
| NalAssembler.JoinedSizeIsSize | sink/Sink.cpp:835-841 | the size allocated is the size of the joined units |
| NalAssembler.UnitInJoined | sink/Sink.cpp:852-865 | every unit stands whole in a frame, directly behind the start code 00 00 00 01 and the units before it |
| NalAssembler.StreamIsJoined | sink/Sink.cpp:790-889 | the data of frames of groups is the units of the groups behind start codes |
| NalAssembler.CutsAreBoundaries | sink/Sink.cpp:790-889 | the cuts are exactly the positions behind a marker that did not change the time and in front of a changed time |
| NalAssembler.AssembleIsSplit | sink/Sink.cpp:790-889 | over every sequence the frames are exactly the pieces between the cuts and the queue is what follows the last |
| NalAssembler.NothingLost | sink/Sink.cpp:790-889 | emitted units followed by the queue are the arrivals in order |
| NalAssembler.FramesHaveOneTime | sink/Sink.cpp:797-818 | every frame is non-empty and holds units of a single time |
| NalAssembler.MarkerWithNewTimeWaits | sink/Sink.cpp:797-889 | a marker whose arrival changes the time stays queued |
| NalAssembler.FeedAll | sink/Sink.cpp:790-889 | the data of all frames in order, followed by the queued units behind start codes, are the bytes of all arrivals behind start codes; every frame is one group of the splitter and has the time of each of its units |
| PcmPacketizer.SwapSamples | sink/EncoderContext.cpp:438-446 | swaps the bytes of every sample in place |
| PcmPacketizer.DurationIsExact | sink/EncoderContext.cpp:469-470 | the duration of c frames is 125c/6 rounded down, and of a full unit exactly 10000 |
| PcmPacketizer.Packetizer.FeedRawAudioInputBuffers | sink/EncoderContext.cpp:430-534 | drains the queue with the effect of feeding its buffers one after the other |
| PcmPacketizer.Packetizer.FeedSwapped | sink/EncoderContext.cpp:450-481 | one buffer first finishes the carried-over unit, then begins units |
| PcmPacketizer.Packetizer.BeginUnits | sink/EncoderContext.cpp:483-531 | posts every full unit and carries the rest over |
| PcmPacketizer.FeedConserves | sink/EncoderContext.cpp:430-534 | one buffer adds exactly its swapped bytes to what has been handed over |
| PcmPacketizer.NothingLost | sink/EncoderContext.cpp:430-534 | over every sequence of buffers, posted payloads followed by the partial unit are the swapped inputs; every posted unit is the header and 1920 bytes |
| PcmPacketizer.BegunAt | sink/EncoderContext.cpp:450-531 | the j-th unit begun in a buffer carries its j-th block of 1920 bytes and the time t + 125c/6 rounded down + 10000j |
| PcmPacketizer.FinishKeepsTimes | sink/EncoderContext.cpp:450-481 | a unit that a later buffer adds to or finishes keeps the time it was begun with |
| PcmPacketizer.FeedAddsTimes | sink/EncoderContext.cpp:450-531 | a buffer only adds the times of the units begun in it |
| PcmPacketizer.TimesKept | sink/EncoderContext.cpp:430-534 | over every sequence of buffers the times of the units posted and unfinished are those they were begun with, in order |
| VideoRenderer.Renderer.QueueOutputBuffer | sink/Renderer.cpp:1220-1258 | appends the frame, starts the scan with the first one, posts a render message only if none is in flight, and is an arrival on the clock of the device |
| VideoRenderer.Renderer.ScheduleVideoRenderIfNecessary | sink/Renderer.cpp:1303-1311 | posts one message, and only for a non-empty queue with none in flight |
| VideoRenderer.Renderer.OnRenderVideo | sink/Renderer.cpp:1312-1460 | frames leave in decoder order, each once, a message is in flight afterwards exactly for a non-empty queue, and the whole is a step on the clock of the device |
| VideoRenderer.Renderer.QueueAccessUnit | sink/Renderer.cpp:1136-1147 | records the network time of a unit exactly if it is valid |
| VideoRenderer.Renderer.Run | sink/Renderer.cpp:1136-1460 | every run of the handlers is a run of the timed queue, so the timing results hold of it |
| VideoRenderer.Renderer.ShowDueFrames | sink/Renderer.cpp:1321-1457 | the loop shows what the functional round shows and asks for its delay |
| VideoRenderer.LeadIsExact | sink/Renderer.cpp:1260-1300 | a frame is compared with nothing without A/V sync, with the audio renderer if there is one, and else with the device clock exactly if both it and the frame's network time are known and within 10 seconds |
| VideoRenderer.ShowsExactlyTheDueFrames | sink/Renderer.cpp:1321-1457 | a number of frames is shown if and only if all of them are at most 20000 early and the next is not, or was stopped by a refused frame |
| VideoRenderer.ShownAreForgotten | sink/Renderer.cpp:1321-1457 | the network times kept are those of the frames not shown, and of one that was refused |
| VideoRenderer.OutcomeAt | sink/Renderer.cpp:1370-1447 | the next message comes after half the lead of the frame put off, or after the error delay |
| VideoRenderer.HalvedIsCeiling | sink/Renderer.cpp:1379 | halving the lead k times, rounding up, is one division by 2 to the k rounded up |
| VideoRenderer.StepKeepsTiming | sink/Renderer.cpp:1303-1460 | every arrival and every render message keeps the timing invariant |
| VideoRenderer.FiresRemembers | sink/Renderer.cpp:1303-1460 | a message counts the frame left at the head as put off once more, or as put off first with its lead, and every lead of a frame shown is kept |
| VideoRenderer.PutOffFramesCatchUp | sink/Renderer.cpp:1303-1460 | in every run over an audio or device clock of unit rate no frame is shown more than 20000 early of what it is compared with, and after k re-examinations a lead is at most the first one over 2 to the k rounded up |
| VideoRenderer.ShownAfterEnoughWaits | sink/Renderer.cpp:1370-1416 | a frame is shown by the next message once its first lead is within 20000 times 2 to the k |
| VideoRenderer.Renderer.OnScanDisplayStatus | sink/Renderer.cpp:979-1030 | one scan message leads to the next and to a notice exactly when the display state changes |
| VideoRenderer.ShowingUnlessQuiet | sink/Renderer.cpp:991-1027 | over every sequence of scans the video counts as stopped exactly from the fourth scan in a row without a new frame |
| VideoRenderer.NoticesAlternate | sink/Renderer.cpp:1014-1023 | the notices alternate, beginning with a stop, and the last one is the state |
| FrameDropper.LookupNeverMisses | source/EncoderSource.cpp:820-848 | once the guards have passed, the shifted lookup finds a criterion |
| FrameDropper.CriterionIsRate | source/EncoderSource.cpp:594-630 | a criterion posts of 30 frames as many as its rate says, and only that of 30 drops none |
| FrameDropper.PostsTheTarget | source/EncoderSource.cpp:820-848 | whenever frames are dropped, a camera of the rate it is taken to have still posts at least the target, and exactly the target if and only if that rate is 30 |
| FrameDropper.EventsAreFromTable | source/EncoderSource.cpp:796-851 | every frame is decided, and only by criteria of the table |
| FrameDropper.WhenJudgedOrReset | source/EncoderSource.cpp:796-851 | a frame is judged exactly if a rate of at least 10 was evaluated that is more than 2 above a target of the table other than 30; the dropper is reset exactly otherwise for rate or after a jump of 5 |
| FrameDropper.PostedOfFrames | source/EncoderSource.cpp:853-869 | after a reset n frames under P posts and D drops post exactly P(n/(P+D)) + min(P, n mod (P+D)) |
| FrameDropper.AtMostFiveInARow | source/EncoderSource.cpp:796-875 | across any criterion switches and resets at most five frames in a row are dropped |
| FrameDropper.SumOfDeltas | source/EncoderSource.cpp:734-750 | the summed intervals are the time between the first and the last frame |
| FrameDropper.WindowIsRecent | source/EncoderSource.cpp:734-761 | after every sequence of frames the window holds the intervals between the most recent frames, up to the last |
| FrameDropper.WindowStaysShort | source/EncoderSource.cpp:741-761 | a frame keeps the window within ten intervals exactly unless ten and the new one span no time, and never lengthens a window of more than half a second that is evaluated |
| FrameDropper.WindowIsBounded | source/EncoderSource.cpp:734-761 | while time goes on from frame to frame the window never holds more than ten intervals |
| FrameDropper.StandingClockGrows | source/EncoderSource.cpp:734-757 | with a standing clock nothing is evaluated and every interval stays |
| FrameDropper.EstimateIsRate | source/EncoderSource.cpp:737-757 | from five intervals on, and only if time has passed, the estimate is the largest whole rate at which the intervals take no less than the time since the first frame of the window |
| FrameDropper.Puller.FramerateEvaluation | source/EncoderSource.cpp:723-771 | updates the estimator as its function says |
| FrameDropper.Puller.DropFrameAsAdaptive | source/EncoderSource.cpp:773-870 | a frame does to the dropper exactly what the rates say, and never more than five in a row are dropped |
| FrameDropper.Puller.PostOrDrop | source/EncoderSource.cpp:853-869 | posts until the posts are reached, then drops until the drops are, then starts anew |
| FrameDropper.Puller.SetConfig | source/EncoderSource.cpp:712-721 | a new positive rate resets the dropper |
| FrameDropper.Puller.Restart | source/EncoderSource.cpp:659-699 | starting, pausing and resuming leave no count and no frame time |
| FrameDropper.Puller.Run | source/EncoderSource.cpp:712-880 | over every sequence of frames, rate changes and restarts, no six consecutive frames are dropped |

## Left out

- Null argument pointers, and session checks before a call reaches its work.
- Device and kernel access (ioctls, mmap, open and close, blocking polls, A/B slot lookup): their results are nondeterministic or parameters.
- Transmit and receive notifications of the ring, and `ccci_ccb_poll`: no shared index changes there.
- Giving back the mappings and descriptors in `ccci_ccb_unregister`, and registration of several users at once: one user is registered.
- Buffer ids and guard bands: the ring calls are modelled for a registered buffer, past the checks at their heads.
- Page size zero in a header: registration divides by it.
- Weak memory: shared memory is taken as sequentially consistent; the source has one barrier, before the write index moves, and none on the reading side.
- CcbChannel.Channel.ReadFlush: the flush during registration runs before the buffer is in use, so it is modelled as part of TakeBuffer there.
- PartitionWalker.FindImage: a turn in which a sum of C ints overflows has no result, and a seek before the start of the partition returns -1; on a partition where the walk never ends the call has no result.
- PartitionWalker.FindListed: a list is laid out with alignments that are powers of two or zero and offsets within a C int; FindImage has no such bound.
- Errors of the header reads in the walk other than short reads.
- SettingsParser.ParseInfo: the two 32-byte buffers are not checked by the code, so names and values of the text must fit them.
- EmulationPrevention.RemovePreventionByte: sizes up to 255, the range of its 8-bit parameter; RemoveFromUnit covers calls with larger ones.
- Splitting the parameter string at commas and decoding base64: a unit that cannot be decoded is an absent one.
- AvcConfig.MakeAvcCodecSpecificData: width and height come from a library function that is not part of this repository, and the sample aspect ratio is never written.
- AvcConfig.ParseAvcCodecSpecificData: records with room, since the code copies beyond its buffer otherwise; for a record of no units the contents of the returned buffer are not stated, only its size.
- BitReader.Reader.ParseUE: codes of more than 31 leading zeros, which the shift of the bit reader cannot represent, end the parse like missing bits. The bit reader itself is not part of this repository; it is modelled from section 7.2 and 9.1 of ITU-T H.264.
- SpsParser.ParserInStep: profiles outside the code's list with extended fields and 4:4:4 sets with scaling lists, where the parser loses step, as ProfileScopeIsExact states.
- `FindHEVCWH`, resolution adaptation, colour formats, codec levels and other finite tables.
- CallControl.ImsMa.PauseNormal: normal-mode pauses stop the sink without the downlink, so the module properties are stated for runs without them.
- CallControl.ImsMa.Post: pausing and resuming the encoder does not change whether the source runs, and telling the peer changes no module.
- Locks, message transport and sockets of ImsMa: calls happen one at a time and every request is answered.
- The AVPF feedback, capability and surface messages of Sink and Renderer, and the audio renderer.
- Writing the unit's token and trace marks.
- PcmPacketizer.Packetizer.FeedRawAudioInputBuffers: even-sized buffers, since the samples are swapped two bytes at a time; the floating-point duration is computed over the reals.
- VideoRenderer.Renderer.OnRenderVideo: the log of the last display decision and the counter of dropped frames, which no branch sets, are left out; counters do not wrap.
- VideoRenderer.PutOffFramesCatchUp: for a clock of unit rate, of the audio renderer or of the device, and timers that are never early; for other clocks the lead of a frame put off may do anything, and ShowsExactlyTheDueFrames says what is shown.
- System properties that override frame rates, thresholds and the A/V-sync switch keep their defaults; the switch is a parameter of each reading.
- FrameDropper.Puller.DropFrameAsAdaptive: built with the camera frame rate evaluation enabled.
- Logging, tracing and dump files.
