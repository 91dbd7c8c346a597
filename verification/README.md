# Verified model of the BL808 flashing stack and its companions

A Dafny model of the parts of the repository that carry state, interleaving or arithmetic,
with the properties they are there for. `dafny verify dfyconfig.toml` checks all of it.

**SPI-NOR flashing.** `Nor` is the chip: 2^24 cells, erase sets 0xFF, programming is AND and
wraps inside a 256-byte page. `SfController` and `FlashOps` are the routines shared by the UART
anchor and the JTAG stub, over a controller that may time out on any command, with or without
the command having taken effect. `Service` is one pass of the anchor's request loop, `Framing`
and `Checksums` what travels on the wire.

- `Scripts`, `Segments` and `UartSession` are the requests of a flashing session: which can be
  confused, which can still be on their way, what each promises. `SessionPlan` is what a session
  leaves in flash request by request.
- UART acknowledgements: `UartLink` is the state machine of host, two lossy in-order queues and
  anchor; `UartHost` the host loops as code, every execution of which is a run of that machine;
  `UartAmbiguity` says exactly which segments and sessions are safe, `Attempts` how often each
  request is sent.
- JTAG acknowledgements: `JtagAck` is the anchor one store at a time and the host's test on a
  snapshot; `SnapshotSession` and `SnapshotAmbiguity` the whole session in that mode.
- JTAG mailbox: `Mailbox` is the stub one store at a time with a host that stops it anywhere;
  `Layout` what flashing several segments leaves. `MailboxSession` adds the host's erase, blank-check
  and write loops with their retries, of a busy stub too; `MailboxSafety` follows every such flashing
  to its end, and `MailboxAmbiguity` builds those that lose a segment. `JtagHost` runs stub and host
  as code, every execution of which is recorded as a flashing of that machine.

**Emulated devices.** `Clint` (mtime and mtimecmp, as in section 3.2.1 of the RISC-V Privileged
Architecture specification, version 1.12), `I2s`, `Audio` and `UartDevice` over the ring in
`DeviceFifo`. Each is a class whose entry points keep one invariant; `AnyHistory` states it for
every sequence of events.

**Firmware and tools.** `BleTime` and `BleTimers` (slot time, counter, one-shot timers), `CacheRange` (the
three cache maintenance loops), `Conv` (the int8 SAME convolution oracle).

## Where the code falls short, and exactly when

- An erase whose address + length + 4095 passes 2^32 stops short of its range and still reports
  OK (`EraseSpanCovers`).
- In both acknowledge modes a session can end with a single-chunk segment missing, unless that is
  all 0xFF: erase and write share address + length (`SessionsWriteExactlyWhenUnambiguous`,
  `SnapshotSessionsWriteExactlyWhenUnambiguous`). A 596-byte partition table in 4096-byte chunks
  is such a segment. It takes a repeated erase (`SessionWritesEverySegment`) or, with JTAG
  acknowledgements, a sequence number that could not be read
  (`SnapshotSessionWritesEverySegment`, `UnreadSnapshots`).
- A snapshot of a request with address + length zero, such as PING and READ_ID, can pass early
  (`SoundExactlyWhenNonzero`); neither touches the flash.
- A mailbox command retried because the exception text quotes a verify error, while the stub is
  still busy, can be answered DONE without being executed (`BusyRetryMisleads`,
  `RetryWhileBusyIsTheOnlyHole`). One such retry does no harm, because the verify error came after
  the chunk was programmed: every segment is in flash when flashing returns
  (`FlashingWritesEverySegment`). More than one can lose a segment if and only if some segment is
  exposed (`ReliableExactlyWhenNotExposed`, `LosesSegment`): neither the first nor the LP core's, at
  most 4096 bytes long, with checksum 0, the word an erase carries, over as many bytes of the data
  window as the chunks loaded before have left there, and with a bit that those bytes lack. Its erase
  can then be executed as a write of the window. Zeros at the front of the window are enough
  (`ZerosExpose`).
- The overlap check alone does not protect unaligned neighbours (`UnalignedNeighboursCollide`,
  `IntactExactlyWhenSpared`).
- A store to MTIME while a hart's comparator has its reset value makes the deadline overflow and
  the interrupt come early or at once (`BootComparatorIsEarly`, `BootComparatorFiresAtOnce`,
  `DeadlineExactlyWhenItFits`). The
  comment there calls MTIME read-only; the code writes it, and the model follows the code.
- The CLINT raises a line up to one tick before, and keeps it low up to one tick after,
  `mtime` has reached `mtimecmp`; `DueWithinOneTick` and `DueExactlyWhen` give the exact times,
  `LineLags` and `LineLeads` an instance of each.
- A BLE timer polled late is missed from 2^27 slots on, in every turn of 2^28
  (`LatePollsMissed`). The sampled counter counts units of 312 us while both conversions take a
  unit as 2 us, so that they agree on two samples only if these are at most 3 us apart
  (`CountersAgreeExactlyWhen`, `CountersDisagree`).
- A store to the UART's UTX_CONFIG can leave a pending interrupt on a low line, exactly when
  `GoesStale` holds before it; every other store leaves the line current.
- Cache maintenance of a range whose size + addr % line overflows the machine word touches at
  most one line (`OverflowMisses`).

## Model

| member | source | states |
|---|---|---|
| `UartSession.SessionWritesEverySegment` | tools/hw_validate.py:3446-3506 | over every run of the UART session (lost frames, timeouts, retries, any earlier flash contents) in which no erase of a single-chunk segment, other than one of 0xFF only, was repeated: once the host is through, every segment is in flash, then and in every later state |
| `UartAmbiguity.SessionsWriteExactlyWhenUnambiguous` | tools/hw_validate.py:3446-3506 | every completed run of a session leaves every segment in flash if and only if each segment is longer than one chunk or consists of 0xFF only |
| `UartAmbiguity.WritesExactlyWhenUnambiguous` | tools/hw_validate.py:3446-3506 | with UART acknowledgements every run that gets through leaves the segment in flash if and only if the segment is longer than one chunk or consists of 0xFF only |
| `SnapshotSession.SnapshotSessionWritesEverySegment` | tools/hw_validate.py:3159-3247 | the session theorem in JTAG-acknowledge mode, for any segments: snapshots between any two stores of the anchor, requests lost and repeated, provided that no single-chunk erase (other than of 0xFF) was repeated and that the sequence number ahead of its write was read |
| `SnapshotAmbiguity.SnapshotSessionsWriteExactlyWhenUnambiguous` | tools/hw_validate.py:3159-3247 | in this mode too every completed run of a session leaves every segment in flash if and only if each is longer than one chunk or 0xFF only |
| `SnapshotAmbiguity.UnreadSnapshots` | tools/hw_validate.py:3178-3183 | for every other single-chunk segment a run that repeats nothing, fails to read one sequence number, and ends without the segment in flash |
| `SnapshotSession.UnambiguousSnapshotsWrite` | tools/hw_validate.py:3159-3247 | with unambiguous segments the theorem holds of every run |
| `SnapshotAmbiguity.SnapshotsWriteExactlyWhenUnambiguous` | tools/hw_validate.py:3159-3247 | the exact condition in JTAG-acknowledge mode: more than one chunk, or only 0xFF |
| `MailboxAmbiguity.ReliableExactlyWhenNotExposed` | tools/hw_validate.py:2727-2860 | over every flashing through the mailbox, with any number of retries of a busy stub and any earlier flash contents: one that completes has written every segment if and only if no segment is exposed |
| `MailboxSafety.FlashingWritesEverySegment` | tools/hw_validate.py:2727-2860 | a flashing that completes leaves every segment in flash if a busy stub was retried at most once or no segment is exposed, and leaves exactly the flash of all segments flashed in order if none was retried or no erase can pass for a write |
| `JtagHost.FlashFirmware` | tools/hw_validate.py:2863-2946 | if flashing over JTAG returns, the segments were disjoint, and every image reads back at its place (M0 at 0x000000, 0x00E000, 0x00F000 and 0x010000, LP at 0x0C0000, D0 at 0x100000) if a busy stub was retried at most once or no segment is exposed; without such retries, or where no erase can pass for a write, the flash is exactly the old one with the segments flashed in order; it raises only before the first segment or on an error that is not a verify error with attempts left |
| `UartHost.FlashSession` | tools/hw_validate.py:3609-3636 | the host loops against lossy queues and the anchor's own code: a normal return means every segment is in flash, if no single-chunk erase (other than of 0xFF) was repeated |
| `UartHost.FlashFirmware` | tools/hw_validate.py:3530-3636 | from the build outputs: refused exactly for an empty or overlapping list or a bad chunk size; on return every segment is in flash if all are unambiguous or no single-chunk erase was repeated; every image then reads back at its place; a failure means the ping was never answered or some request was sent three times without an acknowledgement |
| `Layout.ListedImagesAreIn` | tools/hw_validate.py:2444-2477 | the list puts each image at its own address: LP at 0x0C0000, D0 at 0x100000, the four M0 images at 0x000000, 0x00E000, 0x00F000 and 0x010000 |
| `Attempts.EveryRunIsCounted` | tools/hw_validate.py:3267-3317 | in every run each request but the ping is sent at most three times, each one passed at least once, and exactly three times when the host raises |
| `Attempts.RaisedIsGivenUp` | tools/hw_validate.py:3267-3317 | a host that raised had sent its request three times, none of them taken for acknowledged |
| `UartSession.UnambiguousSegmentsAreWritten` | tools/hw_validate.py:3446-3506 | with unambiguous segments the session theorem holds of every run |
| `UartLink.NextKeeps` | tools/hw_validate.py:3250-3317 | every step of host, link and anchor keeps the invariant: frames travel in script order, nothing older than the previous request is in flight, not even that one if the two can be confused harmfully, positive replies tell the truth, settled writes are in flash |
| `UartLink.AcceptanceIsGenuine` | tools/hw_validate.py:3296-3304 | a reply that passes the status and counter test answers the request being waited for, or an erase whose effect is that request's, and that request holds in flash |
| `UartLink.EveryRunIsSafe` | tools/hw_validate.py:3250-3317 | the invariant holds at the end of every run in which no request harmfully sharing its counter with the next was repeated, so nothing still queued can undo a settled write |
| `Scripts.ServeKeepsWrite` | tools/uart_flash_anchor.c:580-638 | serving a repeated or later request leaves an earlier write in place |
| `Scripts.ServeKeepsSettled` | tools/uart_flash_anchor.c:580-638 | serving anything that can still be in flight leaves all settled work in place, late erases of 0xFF segments included |
| `Scripts.EraseServesBoth` | tools/uart_flash_anchor.c:605-610 | an erase makes, and keeps, the 0xFF that an all-0xFF write of the same range asks for |
| `Scripts.LookalikeStands` | tools/hw_validate.py:3302-3304 | of all requests that can be in flight only the awaited one and a harmless twin carry its counter |
| `UartSession.SessionIsSafe` | tools/hw_validate.py:3446-3506 | the requests of aligned disjoint segments never disturb an earlier write, none can be acknowledged by a ping or id reply, and no three in a row share a counter |
| `UartSession.TwinsAreSingleChunks` | tools/hw_validate.py:3263-3265 | in a whole session only the erase and the only chunk of a single-chunk segment share a counter |
| `UartSession.CountersNonzero` | tools/hw_validate.py:3263-3265 | every erase and write of a session has a nonzero counter |
| `UartSession.ScriptMakesSegment` | tools/hw_validate.py:3490-3506 | if every chunk's write holds, the whole segment is in flash |
| `UartSession.SegmentsDoNotDisturb` | tools/hw_validate.py:2407-2422 | requests of non-overlapping aligned segments touch each other's bytes nowhere and never share a counter |
| `UartSession.TwinInScript` | tools/hw_validate.py:3263-3265 | two neighbouring requests of a segment share their counter if and only if they are the erase and the only chunk |
| `UartAmbiguity.MistakenRun` | tools/hw_validate.py:3250-3317 | for every single-chunk segment with a byte other than 0xFF a run in which the host returns and the segment is not in flash: a late acknowledgement of a repeated erase passes for that of the write |
| `UartAmbiguity.MistakenSession` | tools/hw_validate.py:3446-3506 | in every session with such a segment, wherever it stands, a completed run that leaves it out |
| `UartAmbiguity.SafeRun` | tools/hw_validate.py:3446-3506 | a segment is in flash after every run that got through without repeating a harmful erase |
| `SessionPlan.SegmentPlan` | tools/hw_validate.py:3446-3506 | any segment can be programmed on any flash, changing only its own sectors |
| `SessionPlan.MissingPlan` | tools/hw_validate.py:3446-3506 | flash contents, request by request, of a session that goes through with one segment's only chunk never written |
| `UartAmbiguity.OneEraseRun` | tools/hw_validate.py:3474-3506 | a single-chunk segment is safe on every run in which the erase was not repeated |
| `UartHost.Bench.WorldStep` | tools/uart_flash_anchor.c:580-638 | losing a frame or serving the oldest request is a step of the machine |
| `UartHost.Bench.TakeReply` | tools/hw_validate.py:3286-3304 | the host's judgement of the oldest reply is a step of the machine and advances exactly on acceptance |
| `UartHost.Bench.Attempt` | tools/hw_validate.py:3267-3308 | one attempt ends accepted with the next request due, or refused with the retry state due |
| `UartHost.Bench.Command` | tools/hw_validate.py:3267-3317 | three attempts: a return means one of them was acknowledged, an exception that the request was sent exactly three times and never acknowledged |
| `UartHost.Bench.PingUntilReady` | tools/hw_validate.py:3359-3375 | single ping attempts until the deadline |
| `UartHost.Bench.ProgramSegment` | tools/hw_validate.py:3446-3506 | erase and chunk loop send exactly the requests of the segment, in order |
| `UartHost.FlashOneSegment` | tools/hw_validate.py:3446-3506 | programming one unambiguous segment: a normal return means it is in flash |
| `UartHost.ProgramSegments` | tools/hw_validate.py:3625-3632 | the segment loop works through the whole script |
| `Service.Anchor.Serve` | tools/uart_flash_anchor.c:580-638 | one pass of the request loop has an effect and a status that `Serves` allows, and answers with address + length mod 2^32 |
| `Service.Anchor.ServeErase` | tools/uart_flash_anchor.c:605-610 | an empty erase is refused; otherwise the rounded range, or after a timeout some leading part of it, is erased |
| `Service.Anchor.ServeWrite` | tools/uart_flash_anchor.c:611-622 | bad length, bad checksum, or a programmed prefix of the payload; OK means the payload reads back |
| `Service.Anchor.ReceivePayload` | tools/uart_flash_anchor.c:565-571 | the payload is in the data buffer |
| `Service.ServesOnlyTouched` | tools/uart_flash_anchor.c:580-638 | a request changes no cell outside its erase range or its write range |
| `Service.ServedWriteHolds` | tools/uart_flash_anchor.c:611-622 | a write that reported OK is in flash |
| `Service.ServedExactly` | tools/uart_flash_anchor.c:596-628 | which requests are refused, with which status and no effect; status 0 means the sectors that meet the range are 0xFF and nothing else has changed, or the payload reads back |
| `Service.ServingAgain` | tools/uart_flash_anchor.c:533-563 | a duplicate write is harmless whatever it reports |
| `JtagAck.AcceptedMeansDone` | tools/hw_validate.py:3178-3234 | an accepted snapshot with nonzero address + length and no other outstanding request of equal address + length comes only after the final counter store of that very request, with status OK, recorded after the sequence number was read, and a write is in flash |
| `JtagAck.SoundExactlyWhenNonzero` | tools/hw_validate.py:3178-3234 | snapshots of a request are sound if and only if its address + length is nonzero mod 2^32 |
| `JtagAck.TornSnapshotAtZero` | tools/uart_flash_anchor.c:585-632 | for address + length zero a run whose snapshot passes two stores before the end |
| `JtagAck.EqualCountersMislead` | tools/uart_flash_anchor.c:585-632 | with an outstanding request of equal address + length a snapshot passes while only the header has been stored |
| `JtagAck.NextKeeps` | tools/uart_flash_anchor.c:585-632 | every store of the anchor keeps the invariant on the debug words |
| `SnapshotSession.AcceptanceIsGenuine` | tools/hw_validate.py:3203-3234 | in a session an accepted snapshot was left by the request being waited for, or by an erase with the same effect, and that request holds in flash |
| `SnapshotSession.NextKeeps` | tools/hw_validate.py:3159-3247 | every step of host, link and anchor keeps the session invariant in this mode |
| `SnapshotSession.EveryStateIsSafe` | tools/hw_validate.py:3159-3247 | the invariant holds in every state of every run |
| `SnapshotAmbiguity.MistakenSnapshots` | tools/uart_flash_anchor.c:585-632 | for every other single-chunk segment a run that reads every sequence number, repeats the erase, and ends without the segment in flash: a torn snapshot passes |
| `UartAmbiguity.SessionCompletes` | tools/hw_validate.py:3446-3506 | every UART session has a run that gets through, from any flash contents |
| `SnapshotAmbiguity.SnapshotSessionCompletes` | tools/hw_validate.py:3159-3247 | every session with JTAG acknowledgements has a run that gets through |
| `Mailbox.AnswersBelong` | tools/jtag_flash_stub.c:308-347 | over every run without a retry of a busy stub: a DONE or ERROR belongs to the command last written, the result word is its result, the flash is what it made of it, DONE means success |
| `Mailbox.OutcomeExactly` | tools/jtag_flash_stub.c:272-340 | the same of the stub's commands |
| `Mailbox.FalseDone` | tools/hw_validate.py:2712-2724 | a retry after a deadline that quotes the verify error while the stub is still busy gets DONE for a command that was never executed |
| `Mailbox.BusyRetryMisleads` | tools/hw_validate.py:2840-2855 | after every careful run that quotes a verify error with the stub busy, every retry can be answered DONE with result OK, the flash unchanged and the command never executed |
| `Mailbox.RetryWhileBusyIsTheOnlyHole` | tools/hw_validate.py:2840-2855 | after every careful run that quotes a verify error: a retry, whatever it asks for and however things go on, is answered for what it did if and only if the stub is not busy |
| `Mailbox.CarefulNextKeeps` | tools/jtag_flash_stub.c:308-347 | every store of the stub and every host action between stores keeps the mailbox invariant |
| `MailboxSafety.MoveKeeps` | tools/hw_validate.py:2674-2860 | every store of the stub and every command, answer, retry and exception of the host keeps the invariant of a flashing, as long as a busy stub was retried at most once or no segment is exposed |
| `MailboxSafety.PlayKeeps` | tools/hw_validate.py:2674-2860 | the invariant holds in every such state of every flashing |
| `MailboxSafety.ServedDone` | tools/jtag_flash_stub.c:308-347 | a command executed as asked and answered OK brings about what the host goes on from: zone blank, prefix written, earlier segments intact |
| `MailboxSafety.CrossedDone` | tools/jtag_flash_stub.c:308-347 | the other command executed with its parameters does so too: an erase in place of a blank check stays inside the blank zone; a write in place of an erase needs an exposed segment to do harm |
| `MailboxSafety.GrantedDone` | tools/hw_validate.py:2840-2855 | a retry answered DONE unread finds its effect in flash already |
| `MailboxSafety.VerifyFailed` | tools/jtag_flash_stub.c:272-306 | a verify error comes after the whole chunk was programmed, or leaves a blank zone blank |
| `MailboxAmbiguity.LosesSegment` | tools/hw_validate.py:2727-2860 | for every exposed segment a flashing that completes without it: the verify error ahead of its erase and those of its chunks are lost in retries of a busy stub |
| `MailboxAmbiguity.Crosses` | tools/jtag_flash_stub.c:308-347 | an erase written when the stub is about to start a write is executed as a write of the data window |
| `MailboxAmbiguity.Misled` | tools/hw_validate.py:2840-2855 | a chunk that failed its verify is retried on the busy stub and answered DONE unread, with the stub polling or about to start the retry again |
| `MailboxAmbiguity.FlashingCompletes` | tools/hw_validate.py:2727-2860 | every list of segments has a flashing that completes without a retry of a busy stub |
| `MailboxAmbiguity.ZerosExpose` | tools/hw_validate.py:2760-2769 | zeros in the data window expose every later segment of at most 4096 bytes with a nonzero byte, other than the LP core's |
| `JtagHost.Target.Step` | tools/jtag_flash_stub.c:308-347 | the stub's code, one store at a time, follows the machine from any state |
| `JtagHost.Target.Execute` | tools/jtag_flash_stub.c:326-340 | what executing one command does to the flash and to the result |
| `JtagHost.Target.ExecuteWrite` | tools/jtag_flash_stub.c:272-306 | length and checksum tests, then program and verify |
| `JtagHost.Target.WaitForStub` | tools/hw_validate.py:2644-2671 | the stub is polling an empty mailbox when the host goes on |
| `JtagHost.Target.Load` | tools/hw_validate.py:2824-2828 | the chunk is at the front of the data window, the rest as before |
| `JtagHost.Target.RunCommand` | tools/hw_validate.py:2674-2724 | the stub takes its steps from the command as written to the words the host reads; from an idle stub a return or a reported error is about this very command and its effect on the flash |
| `JtagHost.Target.Recover` | tools/hw_validate.py:2840-2846 | the caller tries again exactly when the text quotes a verify error and attempts are left, counting retries of a busy stub |
| `JtagHost.Target.EraseSegment` | tools/hw_validate.py:2760-2769 | on return the flashing is past the erase; the erase zone and nothing else is blank where contents are known exactly |
| `JtagHost.Target.Transmit` | tools/hw_validate.py:2824-2839 | loading the chunk and running the command goes along a flashing of the machine |
| `JtagHost.Target.WriteOnce` | tools/hw_validate.py:2824-2846 | success means the chunk reads back, with at most one busy retry or no exposed segment; success and verify error both mean the whole chunk was programmed |
| `JtagHost.Target.WriteChunk` | tools/hw_validate.py:2818-2857 | retries on verify errors, of a busy stub too, amount to one program of the chunk |
| `JtagHost.Target.BlankCheck` | tools/hw_validate.py:2771-2789 | the blank check changes nothing and passes only on an erased range |
| `JtagHost.Target.EraseAndCheck` | tools/hw_validate.py:2791-2812 | repeated erase and blank check, retries of a busy stub included, amount to one erase of the zone |
| `JtagHost.Target.WriteSegment` | tools/hw_validate.py:2816-2860 | the chunk loop is one program of the whole segment |
| `JtagHost.Target.ProgramSegment` | tools/hw_validate.py:2727-2860 | on return the flashing is at the next segment, and the flash exactly the old one with the zone erased and the data programmed, unless a busy retry let an erase pass for a write |
| `JtagHost.Target.FlashAll` | tools/hw_validate.py:2936-2943 | on return every segment is in flash, with at most one busy retry or no exposed segment; the flash is the fold of all segments, without busy retries or where no erase can pass for a write |
| `JtagHost.BlankSweep` | tools/jtag_flash_stub.c:272-306 | a sweep of 0xFF writes never changes the flash and, absent controller failure, passes if and only if the whole range is erased |
| `JtagHost.BlankStep` | tools/jtag_flash_stub.c:272-306 | the same for one chunk |
| `JtagHost.BlankProgrammable` | tools/jtag_flash_stub.c:272-306 | 0xFF can be programmed exactly where 0xFF already is |
| `Layout.EverySegmentSurvives` | tools/hw_validate.py:2444-2476 | flashing aligned disjoint segments in the host's order leaves each intact, although erases round outward |
| `Layout.IntactExactlyWhenSpared` | tools/hw_validate.py:2753-2758 | flashing one segment leaves a disjoint one intact if and only if every byte of it inside the erase zone is 0xFF |
| `Layout.FlashedCells` | tools/hw_validate.py:2727-2860 | cell by cell: segment data, 0xFF in the rest of the zone, everything else unchanged |
| `Layout.FlashListIsInOrder` | tools/hw_validate.py:2444-2477 | the list built from the build outputs ascends by address, its starts aligned, whatever precedes the LP segment lying below it |
| `Layout.UnalignedNeighboursCollide` | tools/hw_validate.py:2407-2422 | any two disjoint segments that share a sector: the later one wipes the end of the earlier unless it is 0xFF |
| `Layout.ZoneOnChip` | tools/hw_validate.py:2753-2758 | the zone the stub erases for the host's request contains the segment and stays on the chip |
| `Layout.EraseIsRounded` | tools/hw_validate.py:2753-2758 | the LP segment is erased in whole 64 KiB blocks, as few as hold it; any other over its own range |
| `Segments.ValidateNoOverlap` | tools/hw_validate.py:2407-2422 | accepts exactly the lists whose nonempty segments are pairwise disjoint |
| `Segments.PiecesMakeTheWhole` | tools/hw_validate.py:3490-3506 | if every chunk reads back, the concatenation does |
| `Segments.PiecesAscend` | tools/hw_validate.py:3490-3506 | the chunks tile the segment in ascending order, each within the size limit |
| `Segments.SectorsStayClear` | tools/uart_flash_anchor.c:454-476 | the sectors of an aligned segment do not reach into another aligned disjoint one |
| `FlashOps.Chip.EraseRange` | tools/uart_flash_anchor.c:454-476 | the mixed 64 KiB and 4 KiB loop erases exactly the rounded range, every command aligned and inside it; after a timeout some leading sectors; a 64 KiB command exactly where a whole aligned block lies before the end |
| `FlashOps.EraseSpanCovers` | tools/uart_flash_anchor.c:456-458 | the erased span covers the request if and only if address + length + 4095 does not wrap 32 bits, and then exceeds it by less than a sector |
| `FlashOps.SectorBySectorIsErased` | tools/uart_flash_anchor.c:454-476 | erasing sector by sector gives the same flash |
| `FlashOps.EraseChoice` | tools/uart_flash_anchor.c:461-473 | the next command is aligned to its own size and does not pass the end |
| `FlashOps.Chip.EraseCmd` | tools/uart_flash_anchor.c:443-452 | one block blanked, or reported failure with the block blanked or not |
| `FlashOps.Chip.ProgramVerify` | tools/uart_flash_anchor.c:533-563 | page splitting refines one AND of the whole payload; nothing else changes; OK implies the range equals the payload; without controller failure OK if and only if the range could take the payload |
| `FlashOps.Chip.ProgramPage` | tools/uart_flash_anchor.c:546-555 | write enable, buffer fill, program and wait apply the chunk to one page |
| `FlashOps.PageChunk` | tools/uart_flash_anchor.c:541-545 | a chunk never crosses its page |
| `FlashOps.ProgramTurn` | tools/uart_flash_anchor.c:540-557 | a page command extends the programmed prefix |
| `FlashOps.Chip.CopyToBuf` | tools/uart_flash_anchor.c:493-508 | the first n bytes of the controller's word buffer are the payload bytes |
| `FlashOps.Chip.ReadCompare` | tools/uart_flash_anchor.c:510-531 | true only if the range equals the data, and exactly then unless the controller failed |
| `FlashOps.Chip.WaitReady` | tools/uart_flash_anchor.c:417-428 | polling changes nothing and fails exactly when it records a fault |
| `FlashOps.Chip.SendCmd` | tools/uart_flash_anchor.c:384-415 | a command acts, or fails having acted or not |
| `FlashOps.Chip.ReadChipId` | tools/uart_flash_anchor.c:435-441 | reading the id leaves the flash alone |
| `FlashOps.ProgrammedReadsBack` | tools/uart_flash_anchor.c:533-563 | programmed data reads back if and only if only bits had to be cleared |
| `FlashOps.BlankIsProgrammable` | tools/uart_flash_anchor.c:533-563 | an erased range takes any data |
| `Nor.EraseStep` | tools/uart_flash_anchor.c:443-452 | an aligned erase command extends an erased range by its block |
| `Nor.ProgramStep` | tools/uart_flash_anchor.c:540-557 | a program command inside its page extends a programmed range |
| `Nor.ProgramConcat` | tools/hw_validate.py:2816-2860 | programming two consecutive stretches is programming their concatenation |
| `Nor.ProgramAgain` | tools/hw_validate.py:2818-2857 | programming prefixes again is programming the longest |
| `SfController.SetLaneLanes` | tools/uart_flash_anchor.c:502-505 | the shift-and-mask packing step sets one byte lane and keeps the others |
| `Checksums.MaskedChecksumIsChecksum` | tools/hw_validate.py:2588-2592 | the masked Python fold equals the 32-bit C fold on every byte string |
| `Checksums.OneWrongByteIsDetected` | tools/uart_flash_anchor.c:478-486 | payloads of equal length differing in one byte have different checksums |
| `Checksums.ChecksumIsXorOfBytes` | tools/uart_flash_anchor.c:478-486 | the checksum is the exclusive or of the bytes, each turned left by five bits for every byte after it |
| `Checksums.OneWrongWordIsDetected` | tools/uart_flash_anchor.c:488-491 | a header with one wrong word has another checksum |
| `Checksums.HeadersAgreeExactlyWhen` | tools/uart_flash_anchor.c:488-491 | two headers share a checksum if and only if the exclusive or of their words agrees |
| `Checksums.ChecksumData` | tools/uart_flash_anchor.c:478-486 | the device loop computes the fold of the first bytes of its buffer |
| `Checksums.HostChecksum` | tools/hw_validate.py:2588-2592 | the host loop computes the device's value |
| `Framing.ScanWindow` | tools/uart_flash_anchor.c:303-318 | the sliding window stops at the first occurrence of the magic, or there is none |
| `Framing.ScanMatches` | tools/hw_validate.py:3071-3098 | the restarting matcher stops at the first occurrence of a magic of distinct bytes, or there is none |
| `Framing.ReceiveRequest` | tools/uart_flash_anchor.c:300-332 | the header decoded is the one after the first magic; a wrong guard gives the empty request |
| `Framing.RequestSurvivesJunk` | tools/uart_flash_anchor.c:300-332 | after junk without the magic the anchor decodes exactly the header sent, and its checksum test passes |
| `Framing.RequestLayout` | tools/hw_validate.py:3269-3278 | the 24 header bytes in order: magic, guard, command, address, length, checksum, low bytes first |
| `Framing.ReplySurvivesJunk` | tools/hw_validate.py:3287-3291 | after junk without the magic the host decodes exactly the status, result and counter sent |
| `Framing.NoStraddle` | tools/hw_validate.py:3071-3098 | a magic of distinct bytes cannot begin inside junk and end inside the real one |
| `Framing.EncodedWord` | tools/uart_flash_anchor.c:282-298 | each word written little endian is read back |
| `Clint.MtimeAtDeadline` | qemu-machine/hw/intc/thead_clint.c:50-69 | mtime at the programmed deadline is the comparator or one less, decided by two remainders, and the comparator itself when the timebase divides 10^9 |
| `Clint.TicksAtDeadline` | qemu-machine/hw/intc/thead_clint.c:28-32 | ticks elapsed at the deadline: all of them, or one short, and exactly when |
| `Clint.DeadlineExactlyWhenItFits` | qemu-machine/hw/intc/thead_clint.c:64-67 | the programmed deadline is the wanted one if and only if it fits the signed 64-bit clock; otherwise it is early |
| `Clint.BootComparatorFiresAtOnce` | qemu-machine/hw/intc/thead_clint.c:152-168 | with the value 0 at time 0 the reset comparator fires at once |
| `Clint.BootComparatorIsEarly` | qemu-machine/hw/intc/thead_clint.c:152-168 | at the default timebase the reset comparator's deadline overflows and comes early for a store to MTIME at any time of any value in the lower 99.9 percent |
| `Clint.DueWithinOneTick` | qemu-machine/hw/intc/thead_clint.c:44-69 | for every timebase up to 1 GHz the line is high at the earliest one tick before mtime reaches the comparator and at the latest when it has passed, with the exact nanosecond condition |
| `Clint.DueExactlyWhen` | qemu-machine/hw/intc/thead_clint.c:44-69 | when the timebase divides 10^9: high exactly when mtime is past the comparator, or at it and as far into its tick as at the last evaluation |
| `Clint.LineLags` | qemu-machine/hw/intc/thead_clint.c:50-69 | the line can be low although mtime has reached the comparator |
| `Clint.LineLeads` | qemu-machine/hw/intc/thead_clint.c:50-69 | the line can be high one tick before mtime reaches the comparator |
| `Clint.AnyHistory` | qemu-machine/hw/intc/thead_clint.c:110-172 | after any interleaving of stores, time and callbacks a line is high exactly when its comparator is due, and follows mtime against mtimecmp within the stated lag unless the deadline overflowed or mtime wrapped |
| `Clint.Device.WriteTimecmp` | qemu-machine/hw/intc/thead_clint.c:50-69 | the line is high exactly when the comparator has been reached; otherwise the hart's timer is set to its deadline |
| `Clint.Device.Write` | qemu-machine/hw/intc/thead_clint.c:110-172 | the register map by address: a store at 4h sets hart h's software interrupt, at 0x4000 + 8h and 0x4004 + 8h the low and high half of its comparator with its line, at 0xBFF8 and 0xBFFC the halves of mtime with every line; any other address or size changes nothing |
| `Clint.Device.MoveMtime` | qemu-machine/hw/intc/thead_clint.c:152-168 | a half store to MTIME makes mtime read as written and re-evaluates every comparator |
| `Clint.Device.TimerCallback` | qemu-machine/hw/intc/thead_clint.c:44-48 | a low line rises only at the deadline of the hart's current comparator, on time absent overflow |
| `Clint.Device.RunTimers` | qemu-machine/hw/intc/thead_clint.c:44-48 | once expired timers have run, high means due, and the line follows mtime within the stated lag |
| `Clint.Device.Read` | qemu-machine/hw/intc/thead_clint.c:71-108 | the same map for loads: software interrupt, halves of comparator and mtime, 0 elsewhere |
| `BleTime.BtsRoundTrip` | src/bl808/bleblob_support.c:778-816 | within 2^30 - 625 of the reference, counter to slot time and back is exact and nothing overflows |
| `BleTime.SlotTimeRoundTrip` | src/bl808/bleblob_support.c:778-816 | slot time to counter and back loses at most one microsecond, toward the reference |
| `BleTime.EvenSlotTimeRoundTrip` | src/bl808/bleblob_support.c:778-816 | an even distance comes back unchanged |
| `BleTime.CountersAgreeExactlyWhen` | src/bl808/bleblob_support.c:541-557 | converting a later sample's time with an earlier sample as reference gives the later sample's counter if and only if the 2 us and 312 us scales agree over the distance |
| `BleTime.CountersDisagree` | src/bl808/bleblob_support.c:541-557 | four microseconds apart or more, they never do |
| `BleTime.OneUnitIsNotOneUnit` | src/bl808/bleblob_support.c:541-557 | samples at 0 and 312 us: the counter moves by 1, the conversion by 156 |
| `BleTime.ReachedExactlyWhen` | src/bl808/bleblob_support.c:559-574 | for all times: the comparison passes exactly by the slot distance modulo 2^28 and the two remainders |
| `BleTime.ReachedIsPassed` | src/bl808/bleblob_support.c:559-574 | within 2^27 slots the circular comparison is the comparison of times |
| `BleTime.LatePollsMissed` | src/bl808/bleblob_support.c:559-574 | which polls at or after the target miss it, for every lateness |
| `BleTimers.HandlerFiresExactlyOnce` | src/bl808/bleblob_support.c:720-776 | over any handler calls and timers set in between, calls being often enough: the timer, not armed again, is fired by exactly the first call whose test comes at or after its target |
| `BleTimers.HandlerFiresOnce` | src/bl808/bleblob_support.c:720-776 | over any handler calls at any rate and any timers set in between: a call fires the timer, not armed again, if and only if its target has expired then and at no earlier call |
| `BleTimers.FiresExactlyOnce` | src/bl808/bleblob_support.c:720-776 | over any tests and armings, with any polling: as long as nothing arms the timer again, a test of it fires if and only if it is the first to find the target expired in circular order |
| `BleTimers.HeldUntilExpired` | src/bl808/bleblob_support.c:720-776 | until a test finds it expired the timer keeps its target, from then on it is off, with any polling |
| `BleTimers.FiresAtFirstTestAfter` | src/bl808/bleblob_support.c:720-776 | tested often enough, exactly the first test at or after the target fires |
| `BleTimers.ArmedUntilPassed` | src/bl808/bleblob_support.c:720-776 | tested often enough, the timer keeps its target until a test comes at or after it and is off afterwards |
| `BleTimers.RearmingStartsAnew` | src/bl808/bleblob_support.c:720-776 | an arming from outside or by a callback that runs begins a period of its own, the rest of the same handler call included; tested often enough, exactly the first test at or after the new target fires |
| `BleTimers.ArmingStartsAnew` | src/bl808/bleblob_support.c:720-776 | the same with any polling: exactly the first later test that finds the new target expired fires |
| `BleTimers.AlarmArmedInTheSamePass` | src/bl808/bleblob_support.c:759-776 | the arbiter's callback arms the alarm: the test of the alarm in the same call fires it exactly if the target has come |
| `BleTimers.RearmingIsKept` | src/bl808/bleblob_support.c:759-776 | what the callback of a fired timer arms is what that timer holds after the handler's test, the fired timer included |
| `BleTimers.FiredStaysOff` | src/bl808/bleblob_support.c:720-776 | a timer that fired and was not armed again fires at no later test of a run |
| `BleTimers.RwipEnv.BtTimeToBts` | src/bl808/bleblob_support.c:778-792 | the conversion computes the specified counter |
| `BleTimers.RwipEnv.BtsToBtTime` | src/bl808/bleblob_support.c:794-816 | the two normalising loops arrive at floor and remainder |
| `BleTimers.RwipEnv.SetCo` | src/bl808/bleblob_support.c:720-728 | the target given as a counter is stored as slot time |
| `BleTimers.RwipEnv.SampleTime` | src/bl808/bleblob_support.c:541-557 | records slot, remainder and counter of the time |
| `BleTimers.RwipEnv.TimeReached` | src/bl808/bleblob_support.c:559-574 | the masked signed test is the circular comparison |
| `BleTimers.RwipEnv.Isr` | src/bl808/bleblob_support.c:759-776 | each timer fires exactly if the target it holds when its turn comes has expired at that time, is disarmed before its callback, and ends with the last target armed for it; the reference is that of the last test of an armed timer |
| `BleTimers.OneCall` | src/bl808/bleblob_support.c:759-776 | one call timer by timer: who fires, what each held, what each holds afterwards |
| `BleTimers.CalledArmingsLast` | src/bl808/bleblob_support.c:759-776 | what a callback arms last for a timer stays unless a later test of the call fires that timer or a later callback arms it |
| `BleTimers.RwipEnv.Happen` | src/bl808/bleblob_support.c:720-776 | one handler call, or one timer set from outside and nothing else |
| `BleTimers.RwipEnv.Live` | src/bl808/bleblob_support.c:720-776 | any history of handler calls and of timers set from outside is the sequence of their tests and armings |
| `BleTimers.RwipEnv.SetTimer` | src/bl808/bleblob_support.c:720-740 | one timer gets its target, the others keep theirs |
| `I2s.AnyHistory` | qemu-machine/hw/audio/bl808_i2s.c:78-375 | after any history: queued samples with the transmitter running have a bottom half pending, the flag agrees with it, the interrupt equals the level function, accepted samples are the sent and then the queued ones |
| `I2s.Controller.Write` | qemu-machine/hw/audio/bl808_i2s.c:288-345 | each register takes its word bit by bit and no other store touches it; queued samples, error flags and the receive FIFO change only as stated; in reset nothing changes; the interrupt stays current and no wake-up is lost |
| `I2s.Controller.LevelOfRegisters` | qemu-machine/hw/audio/bl808_i2s.c:78-118 | the interrupt level in terms of clocks, thresholds, error flags, enables and masks |
| `I2s.Controller.RequestOfRegisters` | qemu-machine/hw/audio/bl808_i2s.c:239-246 | the DMA write request in terms of the registers |
| `I2s.ThresholdsOf` | qemu-machine/hw/audio/bl808_i2s.c:68-76 | the two 4-bit thresholds sit at bits 16 and 24 |
| `I2s.Controller.TxBottomHalf` | qemu-machine/hw/audio/bl808_i2s.c:135-152 | a running transmitter sends everything queued; a stopped one keeps it |
| `I2s.Controller.PushTx` | qemu-machine/hw/audio/bl808_i2s.c:163-176 | the sample is queued, or dropped with the overflow flag when full |
| `I2s.Controller.PopRx` | qemu-machine/hw/audio/bl808_i2s.c:178-193 | the oldest sample, or 0 with the underflow flag |
| `I2s.Controller.DmaWrite` | qemu-machine/hw/audio/bl808_i2s.c:253-257 | a transfer made while the request is up finds room and wakes the serializer |
| `I2s.Controller.SetClockEnabled` | qemu-machine/hw/audio/bl808_i2s.c:195-205 | gating keeps the invariant |
| `I2s.Controller.SetModuleClockEnabled` | qemu-machine/hw/audio/bl808_i2s.c:207-217 | gating keeps the invariant |
| `I2s.Controller.SetResetAsserted` | qemu-machine/hw/audio/bl808_i2s.c:219-228 | asserting drops what is queued, releasing drops nothing |
| `Audio.AnyHistory` | qemu-machine/hw/audio/bl808_audio.c:128-604 | after any history: no lost wake-up, flag and bottom half agree, interrupt equals the level function, no sample lost |
| `Audio.Controller.UpdateIrq` | qemu-machine/hw/audio/bl808_audio.c:128-168 | status words recomputed from fill and threshold, sticky flags kept, and the interrupt level set |
| `Audio.Controller.Write` | qemu-machine/hw/audio/bl808_audio.c:355-444 | each register takes its word bit by bit and no other store touches it; flushes, samples and sticky flags change only as stated; in reset nothing changes; the interrupt stays current and no wake-up is lost |
| `Audio.Controller.LevelOfRegisters` | qemu-machine/hw/audio/bl808_audio.c:128-168 | the interrupt level in terms of clock, enables, thresholds, fill and sticky flags |
| `Audio.Controller.RequestOfRegisters` | qemu-machine/hw/audio/bl808_audio.c:272-278 | the DMA write request in terms of the registers |
| `Audio.ThresholdOf` | qemu-machine/hw/audio/bl808_audio.c:97-100 | the 6-bit threshold sits at bit 16 |
| `Audio.Controller.WriteAuadc` | qemu-machine/hw/audio/bl808_audio.c:499-560 | the second window cannot touch the transmit path; it sets the receive control, the PDM enable and the receive flush as the main window does |
| `Audio.Controller.TxBottomHalf` | qemu-machine/hw/audio/bl808_audio.c:186-199 | a running transmitter sends everything queued; a stopped one keeps it |
| `Audio.Controller.PushTx` | qemu-machine/hw/audio/bl808_audio.c:209-222 | the sample is queued, or dropped with the sticky overrun when full |
| `Audio.Controller.PopRx` | qemu-machine/hw/audio/bl808_audio.c:224-239 | the oldest sample, or 0 with the sticky underrun |
| `Audio.Controller.DmaWrite` | qemu-machine/hw/audio/bl808_audio.c:285-289 | a transfer made while the request is up finds room and wakes the serializer |
| `Audio.Controller.SetClockEnabled` | qemu-machine/hw/audio/bl808_audio.c:241-251 | gating keeps the invariant |
| `Audio.Controller.SetResetAsserted` | qemu-machine/hw/audio/bl808_audio.c:253-262 | asserting drops what is queued, releasing drops nothing |
| `UartDevice.AnyHistory` | qemu-machine/hw/char/bl808_uart.c:126-523 | after any history: accepted characters are the emitted ones followed by the queued ones in order, and a running transmitter has none queued |
| `UartDevice.Uart.FlushTx` | qemu-machine/hw/char/bl808_uart.c:126-150 | drains in order; what is left, and whether the transfer ends, are exactly `Left` and `Ends`, the 32-bit total wrapping; the total starts anew when a transfer ends |
| `UartDevice.TransferLength` | qemu-machine/hw/char/bl808_uart.c:126-150 | away from the wrap a transfer ends with the flush that reaches its length, after exactly the missing characters |
| `UartDevice.Uart.Write` | qemu-machine/hw/char/bl808_uart.c:331-430 | each register takes its word bit by bit and no other store touches it; in reset nothing changes; a current interrupt line becomes wrong if and only if the store is one to UTX_CONFIG that `GoesStale` names beforehand |
| `UartDevice.Uart.LevelOfRegisters` | qemu-machine/hw/char/bl808_uart.c:74-103 | the interrupt level in terms of clocks, latched and dynamic interrupts, enables and masks |
| `UartDevice.LengthFieldOf` | qemu-machine/hw/char/bl808_uart.c:134 | the transfer length is the upper half of the configuration word |
| `UartDevice.ThresholdsOf` | qemu-machine/hw/char/bl808_uart.c:77-78 | the two 5-bit thresholds sit at bits 16 and 24 |
| `UartDevice.Uart.WriteTxConfig` | qemu-machine/hw/char/bl808_uart.c:341-350 | turning the transmitter on drains the FIFO; the line, left as it was, is wrong afterwards if and only if it was low and the flush makes an enabled interrupt pending |
| `UartDevice.Uart.DmaWrite` | qemu-machine/hw/char/bl808_uart.c:241-263 | queued and emitted in order, or refused with the matching error flag |
| `UartDevice.Uart.WriteData` | qemu-machine/hw/char/bl808_uart.c:412-426 | queued and emitted in order, or refused with the matching error flag |
| `UartDevice.Uart.Receive` | qemu-machine/hw/char/bl808_uart.c:152-174 | as many characters as fit, the rest flagged as overflow; a transfer of the set length is latched and its count starts anew |
| `UartDevice.Uart.ReadData` | qemu-machine/hw/char/bl808_uart.c:314-325 | the oldest character, or 0xFF with the underflow flag |
| `UartDevice.Uart.SetClockEnabled` | qemu-machine/hw/char/bl808_uart.c:496-504 | a restarted clock drains the FIFO; the line is current |
| `UartDevice.Uart.SetModuleClockEnabled` | qemu-machine/hw/char/bl808_uart.c:506-514 | a restarted clock drains the FIFO; the line is current |
| `UartDevice.Uart.SetResetAsserted` | qemu-machine/hw/char/bl808_uart.c:516-523 | reset drops what is queued and nothing that was emitted; asserted, it sets every register to its reset value |
| `UartDevice.StaleInterrupt` | qemu-machine/hw/char/bl808_uart.c:341-350 | a history that gets there |
| `DeviceFifo.Fifo.Push` | qemu-machine/hw/audio/bl808_i2s.c:171-173 | the ring's contents grow by the new element at the end |
| `DeviceFifo.Fifo.Pop` | qemu-machine/hw/audio/bl808_i2s.c:188-190 | the ring gives its oldest element and keeps the rest in order |
| `Conv.Conv2dInt8Same` | tools/inspect_tflite_model.py:325-386 | rank and channel errors exactly when they apply; otherwise slot (y * width + x) * channels + c holds the bias and all taps of its window, each at its input row, column and channel less half the padding, outside the image nothing, requantized and clipped |
| `Conv.PaddingIsSplit` | tools/inspect_tflite_model.py:348-351 | the padding is what the last window lacks, half of it before the image and an odd row or column after it |
| `Conv.IndicesAreRowMajor` | tools/inspect_tflite_model.py:372-385 | input, weight and output buffers are row-major, channels innermost |
| `Conv.ElementIsSumOfTaps` | tools/inspect_tflite_model.py:356-385 | the nested sums over the padded image are one sum over the window's taps counted row by row |
| `Conv.Convolve` | tools/inspect_tflite_model.py:356-386 | the output loops fill every slot with its own element, all indices in bounds |
| `Conv.Accumulate` | tools/inspect_tflite_model.py:360-375 | the accumulator that skips rows and columns outside the image equals the sum over all taps of the padded image |
| `Conv.AddRow` | tools/inspect_tflite_model.py:365-375 | one kernel row, columns outside skipped |
| `Conv.AddTap` | tools/inspect_tflite_model.py:369-375 | one tap inside the image, all channels |
| `Conv.OutsideTapIsZero` | tools/inspect_tflite_model.py:366-368 | a tap outside the image adds nothing when padded with the zero point |
| `Conv.OutsideRowIsZero` | tools/inspect_tflite_model.py:362-364 | nor does a whole row |
| `Conv.WindowsFit` | tools/inspect_tflite_model.py:348-351 | with nonnegative strides no window leaves the padded image |
| `Conv.InputIndex` | tools/inspect_tflite_model.py:370-370 | the input index is in bounds |
| `Conv.WeightIndex` | tools/inspect_tflite_model.py:371-371 | the weight index is in bounds |
| `Conv.OutputInjective` | tools/inspect_tflite_model.py:385-385 | no two output elements share a slot |
| `CacheRange.MaintainRange` | src/bl808/riscv_csr.h:189-241 | each of the three loops operates on exactly the lines meeting the range, once each, if and only if size + addr % line fits a machine word; what is issued goes up line by line from the start of the sweep until the rounded count is reached |
| `CacheRange.Sweep` | src/bl808/riscv_csr.h:195-203 | the loop issues ascending line steps and stops with the first that reaches the byte count |
| `CacheRange.InOrderIsExact` | src/bl808/riscv_csr.h:189-241 | a sweep from anywhere in the first line covers every line of the range once |
| `CacheRange.OverflowMisses` | src/bl808/riscv_csr.h:192-192 | when the byte count overflows, at most one line is touched and the range meets two or more |
| `CacheRange.MaskAligns` | src/bl808/riscv_csr.h:193-193 | the mask rounds down to a line boundary for both cores' line sizes |

## Left out

- SessionWritesEverySegment: leaves out runs that repeat the erase of a single-chunk segment other than of 0xFF, because `MistakenSession` shows them to be unsafe.
- FlashSession: promises nothing when such an erase was repeated, for the same reason.
- SnapshotSessionWritesEverySegment: leaves out runs that repeat such an erase or miss the sequence number after it, because `MistakenSnapshots` and `UnreadSnapshots` show them to be unsafe.
- FlashFirmware: in `JtagHost` promises nothing about the flash after two retries of a busy stub when some segment is exposed, because `LosesSegment` shows a flashing that ends without it; in both modules segments lie on the chip, which the source does not check, and a bad chunk size is refused before the first request rather than before the first segment.
- BtTimeToBts: takes inputs whose 32-bit signed products and sums fit, because C leaves the others undefined.
- BtsToBtTime: takes inputs whose 32-bit signed products and sums fit, because C leaves the others undefined.
- Conv2dInt8Same: takes buffers as long as their shapes say; a shorter list makes the source raise an index error.
- Flash addresses above 24 bits select the cell of their low 24 bits; a smaller chip is not modelled.
- A chip that is still busy after a timed-out command accepts the next one in the model.
- Corruption inside a frame: the link delivers whole frames or loses them, and `headerOk` stands for the anchor's comparison of header checksums; the comparison itself is in `Framing`.
- The reboot request at the end of a session and what the anchor does after it, its banner, and the bytes of an oversized payload that it leaves unread.
- Real-time deadlines and sleeps: any wait may end at any time.
- OpenOCD, telnet and serial port handling, building and loading the two RAM programs, dry runs, logs, and exceptions for missing or empty files.
- The program counter test of `wait_for_jtag_flash_stub`; the mailbox is zeroed before the stub is loaded.
- Caches between the anchor's stores and the debugger: stores become visible in program order.
- The JTAG-acknowledge command loop as imperative code: its sends, polls and retries are steps of `SnapshotSession`.
- Plain configuration registers of the I2S, audio and UART devices that nothing reads back into behaviour, and register reads other than the data registers; the audio status bits set by two volume registers are overwritten at once by the interrupt update.
- Filling the receive FIFOs of the I2S and audio devices: nothing in these files does it.
- Floating point scaling and rounding in `requantize_int8`: an arbitrary function of the accumulator.
- Which of the three cache operations each loop issues; only the addresses are recorded.
- Wi-Fi, macOS and PUF scripts, RF and clock bring-up, symbol audits, secure boot and attestation tools.
