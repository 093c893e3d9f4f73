# Verification of the WASI-USB host, guests and benchmarks

This project models the parts of the WASI-USB repository whose correctness depends on a protocol, on
arithmetic, or on two pieces of code agreeing, and proves what they promise.

- **Host transfers** (`TransferLifecycle`, `TransferSafety`, `TransferOrders`, `TransferDiscipline`,
  `TransferHost`). The life of a libusb transfer between guest calls and the event thread, as interleaved
  atomic steps over a table of transfers. The callback is split into store, send, free and the drop of its
  context; submit, cancel and drop are split between their load of `completed` and what they do with the
  transfer next. The methods of `TransferHost` perform exactly those steps, so what is proved of every
  interleaving holds of the calls.
- **Isochronous buffers and frame reassembly** (`IsoFlatBuffer`, `UvcReassembly`, `WebcamCapture`). The
  host's packet slots, the guest's recut of the flat buffer, payload headers, and the state machine that
  puts frames together, proved separately and end to end.
- **Bulk-Only Transport, SCSI and byte reads** (`BulkOnlyCodec`, `BlockDisk`, `BotDevice`,
  `BulkTransport`, `TransportRuns`, `ScsiDevice`, `BulkBenchmark`, `PartitionReader`). Both transports
  over a device that moves data in pieces of its own choosing: with a conforming device they refine a flat
  byte array, and with one that answers anything a command succeeds only on its own status.
- **Calendar, log and timestamps** (`CivilCalendar`, `DecimalText`, `LogTimestamp`, `CsvText`, `CsvLog`,
  `CsvLogger`). The branch-free date arithmetic against the Gregorian rules, and the benchmark log
  against a reader, for the Rust and the C writer.
- **Hotplug** (`Hotplug`): queue, device filter and reference counts over every run.
- **Splicers and walkers** (`JpegDht`, `JpegSearch`, `JpegTables`, `DescriptorWalk`, `BlockCache`): Huffman
  table injection and the tables injected, the descriptor walk, the guest's block cache.

`UsbBase` holds bytes, machine-integer ranges, endianness and the lemmas about sequences.
`dafny verify dfyconfig.toml` checks everything.

## Where the code and its description differ

Each of these is proved, with the condition under which the code does meet the description.

- `docs/implementation.md:168` has the drop path work without races. No lock joins the load of `completed`
  to the `libusb_cancel_transfer` behind it, in cancel or in drop: if the callback frees the transfer in
  between, the call gets freed memory, and only then (`TransferSafety.CallTouchesFreedIffOverlapped`,
  `TransferOrders.OverlappedCancelTouchesFreed`). The call is safe from that, whatever the event thread
  does, if and only if the transfer is settled when the call begins: completed, or never submitted
  (`TransferDiscipline.CallCleanIffSettled`). A guest that submits each transfer once, and cancels or drops
  it only before the submit or after the await, meets that in every run (`DisciplinedRunIsClean`).
- A second `submit_transfer` after completion reads the freed transfer before it checks `completed`
  (`TransferSafety.TouchesFreedIff`, `TransferOrders.ResubmitAfterCompletion`).
- The end-of-frame bit is ignored on a packet that toggles the frame identifier
  (`UvcReassembly.NextOpen`, `FeedFrame`).
- The WASM transport sends an empty but present OUT data phase as an empty packet, the native one sends
  nothing (`BulkTransport.InStep`). The bulk benchmark's command line refuses zero blocks, so this needs
  a direct call of `write_blocks`.
- `IoSlice` refuses negative offsets from the end, rewinds a window at address 0 instead of refusing
  to go in front of it, overflows on the largest offsets, and saturates in a window that ends at the last
  u64 address (`PartitionReader.SeekMeetsRequestIff`); a read spanning more than 65535 blocks panics
  (`PartitionReader.UsbMassStorage.ReadInto`).
- Table injection searches for byte pairs, not for markers: a payload that holds such a pair misleads it,
  and so does a length field, alone or where it meets the payload (`JpegDht.StandardInjectionIff`,
  `JpegSearch.StandardInjectionBySegments`, `SosPairInPayload`, `DhtPairInPayload`, `LengthFieldMisleads`).
- A single-block write to an uncached block is inserted clean and lost, and an evicted dirty block is
  written to the address of the block that replaces it (`BlockCache.WriteDurableIff`, `FirstWriteLost`).

## Model

| member | source | states |
|---|---|---|
| TransferOrders.OrderSafeIffStoresFirst | usb-wasi-host/src/main.rs:275-278 | of the six orders of the callback's store, send and free, exactly those that store `completed` first are safe: however the callback's steps interleave with those of the guest calls, no run that submits each transfer once, and has no call overlapped by the free, reads, writes or frees freed memory |
| TransferOrders.SingleSubmitRunFromStart | usb-wasi-host/src/main.rs:337-485 | a run that submits each transfer once reaches freed memory if and only if in one of its calls the callback's free falls between the load of `completed` and the use behind it |
| TransferOrders.OverlappedCancelTouchesFreed | usb-wasi-host/src/main.rs:448-449 | in every order, the code's too, a cancel that reads the flag just before the callback runs calls libusb with a freed transfer |
| TransferSafety.FreedExactlyOnce | usb-wasi-host/src/main.rs:458-485 | in every reachable state a transfer has been freed at most once, not at all while in flight or still unsubmitted, and exactly once when the guest has dropped it and no callback context is left |
| TransferSafety.CallbackReclaims | usb-wasi-host/src/main.rs:190-280 | whatever the device reports, the callback can run to its end without help from the guest, and leaves the transfer completed, freed once and its context gone |
| TransferSafety.TouchesFreedIff | usb-wasi-host/src/main.rs:337-485 | exactly which steps reach freed memory: either half of a submit of a transfer whose callback has freed it, an OUT submit after a refused one dropped the buffer, and the cancel call of a cancel or a drop whose load came before the callback's free |
| TransferSafety.CallTouchesFreedIffOverlapped | usb-wasi-host/src/main.rs:448-475 | a cancel or drop that read `completed == false` calls libusb with a freed transfer if and only if the callback's free fell between its load and its call |
| TransferDiscipline.CallCleanIffSettled | usb-wasi-host/src/main.rs:444-485 | from every reachable state, and for each order that stores first: neither half of a cancel or a drop reaches freed memory, whatever the event thread does in between, if and only if the call finds the transfer settled, that is completed or never submitted |
| TransferDiscipline.SettledRunIsClean | usb-wasi-host/src/main.rs:337-485 | a run that submits each transfer once, and whose cancels and drops all find settled transfers, never reaches freed memory |
| TransferDiscipline.DisciplinedRunIsClean | usb-wasi-host/src/main.rs:458-485 | the same on the guest's calls alone: submit each transfer once, and cancel or drop it only before the submit or after an await of it has returned |
| TransferDiscipline.DisciplinedIsSettled | usb-wasi-host/src/main.rs:493-514 | under that discipline every cancel and drop finds its transfer settled, from any reachable state that agrees with what the guest knows |
| TransferSafety.SingleSubmitRunIff | usb-wasi-host/src/main.rs:337-485 | the same equivalence from any reachable state, also in the middle of a call |
| TransferOrders.ResubmitAfterCompletion | usb-wasi-host/src/main.rs:344-360 | a concrete run in which a second submit reads the freed transfer before it looks at `completed` |
| TransferOrders.FreeFirstIsUnsafe | usb-wasi-host/src/main.rs:275-277 | an order that frees first lets a cancel that starts afterwards reach the freed transfer |
| TransferOrders.SendFirstIsUnsafe | usb-wasi-host/src/main.rs:275-277 | an order that sends first lets the woken guest drop the transfer before `completed` is stored, so that it is freed twice |
| TransferSafety.InFlightBufferOwnedOnce | usb-wasi-host/src/main.rs:411-439 | while a transfer is in flight or in its callback its buffer is alive, owned by the context and not by the table entry, and has its allocated size and setup packet; an entry that still owns a buffer belongs to a transfer never in flight and not freed |
| TransferSafety.SubmitPlacesData | usb-wasi-host/src/main.rs:362-409 | an accepted submit hands over a buffer with the setup packet in front and the OUT data behind it; an IN buffer is untouched |
| TransferSafety.SetupPacketDecodes | usb-wasi-host/src/main.rs:790-801 | a device decodes the request it was given from the first eight bytes; wLength is the data length if and only if that fits 16 bits; the data part starts out as zeros |
| TransferSafety.CallbackComputesReceivedData | usb-wasi-host/src/main.rs:199-259 | a completed IN transfer yields exactly the bytes received, an isochronous one the whole buffer with its packet list, an OUT one no device data, and no slice is out of bounds |
| TransferSafety.DeliveredAtMostOnce | usb-wasi-host/src/main.rs:493-552 | `await_transfer` returns at most one delivery for a transfer, and it is what the callback computed, packet list included |
| TransferSafety.AwaitReturnsWhatCallbackComputed | usb-wasi-host/src/main.rs:508-540 | when an await resumes, the flag is set, the packet list is already stored, and the call returns the callback's delivery |
| TransferSafety.NoLostWakeup | usb-wasi-host/src/main.rs:505-514 | a guest that waits has its result in the channel, or libusb or the callback still holds the sender |
| TransferSafety.AwaitFindsReceiver | usb-wasi-host/src/main.rs:500-505 | an await waits if and only if the transfer was submitted and nothing was delivered before; otherwise it reports NotFound |
| TransferLifecycle.StepKeepsInv | usb-wasi-host/src/main.rs:190-552 | every step of every interleaving keeps the ownership, free-count, channel and history invariant, for each order that stores first |
| TransferSafety.RunKeepsInv | usb-wasi-host/src/main.rs:190-552 | so does every run |
| TransferHost.Host.NewTransfer | usb-wasi-host/src/main.rs:726-849 | performs the allocation step: a fresh entry that owns a buffer of the transfer's length, zeros behind any setup packet, no receiver, and a transfer neither completed nor freed |
| TransferHost.Host.SubmitTransfer | usb-wasi-host/src/main.rs:337-442 | in terms of the transfer's fields: a completed transfer is Busy; an OUT submit whose data is not as long as the buffer is InvalidParam, both with nothing changed; a missing buffer panics; a negative libusb code is returned as its error and the buffer is gone; otherwise the transfer is started and the context owns the buffer with the OUT data in place. Its steps are those of the protocol, and on a fresh transfer none touches freed memory |
| TransferHost.FromRawMeans | usb-wasi-host/src/main.rs:297-314 | a libusb code is reported as the error with that number in libusb, and as Other if it is none of them |
| TransferHost.Host.CancelTransfer | usb-wasi-host/src/main.rs:444-456 | performs the load and, if the flag was false, the call, with or without the callback in between; leaves the transfer as the callback, if it ran, or the caller left it, reports exactly libusb's error for a transfer found uncompleted, and touches freed memory if and only if the callback ran in between |
| TransferHost.Host.DropTransfer | usb-wasi-host/src/main.rs:458-485 | performs the steps of its three cases, with or without the callback in between; the entry is gone, the transfer is freed once or its callback will free it, the drop frees it itself if and only if it was never submitted, and touches freed memory if and only if the callback ran in between |
| TransferHost.Host.TransferCallback | usb-wasi-host/src/main.rs:190-280 | performs the callback's five steps in the order of the code and ends in their state |
| TransferHost.Host.RunCallback | usb-wasi-host/src/main.rs:201-280 | the packet loop collects every descriptor; then flag, send, free, drop |
| TransferHost.Host.AwaitTransfer | usb-wasi-host/src/main.rs:493-552 | takes the receiver or reports NotFound, waits for the callback to end, whether it has yet to begin, has begun or is over, and returns what it computed; of a completed isochronous transfer in flight, the buffer and one entry for each packet with its length and its status, an unknown status as Error; none of its steps touches freed memory |
| TransferHost.Host.FinishCallback | usb-wasi-host/src/main.rs:275-280 | what a callback that has begun still has to do |
| TransferHost.Host.ResumeAwait | usb-wasi-host/src/main.rs:511-551 | consumes the channel; an error is returned as it is, a result with its data and, packet by packet, the stored lengths and statuses, an unknown status as Error |
| TransferHost.Host.Transfer | usb-wasi-host/src/main.rs:337-552 | allocate, submit, await, drop, for every IN transfer and every OUT transfer with data of its length: returns the device's report (the bytes received, the packets, or the error by its cause), leaves no entry, frees the transfer once, and is a run that never reaches freed memory |
| TransferHost.ReportOf | usb-wasi-host/src/main.rs:199-273 | what a callback's result becomes for the guest: each failed status its own error, the bytes received of an IN transfer, zeros for those sent, the packet list of an isochronous one |
| IsoFlatBuffer.ConfigurePackets | usb-wasi-host/src/main.rs:813-831 | the loop gives each packet an equal share and the last one the remainder; the lengths sum to the buffer |
| IsoFlatBuffer.SlotStartIsMultiple | usb-wasi-host/src/main.rs:813-829 | slot `i` starts at `i` times the base length |
| IsoFlatBuffer.SlotsCoverBuffer | usb-wasi-host/src/main.rs:813-831 | the slots end exactly where the buffer ends |
| IsoFlatBuffer.SlicesAreExact | usb-wasi-guest/examples/webcam/src/webcam.rs:284-323 | with count times stride bytes every guest slice is in bounds and slice `i` is exactly packet `i` |
| IsoFlatBuffer.SlicePanicsIff | usb-wasi-guest/examples/webcam/src/webcam.rs:315-323 | a slice panics if and only if a packet that received something starts behind the end of the data |
| IsoFlatBuffer.CutsAgreeIff | usb-wasi-guest/examples/webcam/src/webcam.rs:312-323 | the host's cut and the guest's cut agree on every transfer if and only if the buffer is count times stride, or empty, or one packet no longer than the stride |
| UvcReassembly.FramesRecoveredIff | usb-wasi-guest/examples/webcam/src/webcam.rs:337-384 | for frames of one identifier each with the end marked at most on the last packet, completed buffers followed by the pending one are exactly the frames sent, in order, if and only if no frame has the identifier of data still open when it starts |
| UvcReassembly.RecoveredCount | usb-wasi-guest/examples/webcam/src/webcam.rs:337-384 | otherwise there are strictly fewer buffers than frames: merging never makes up for itself |
| UvcReassembly.AlternatingKeepsApart | usb-wasi-guest/examples/webcam/src/webcam.rs:339-346 | a camera whose consecutive frames with data have different identifiers keeps them apart, whatever its frames without data do, with or without end-of-frame marks |
| UvcReassembly.FeedFrame | usb-wasi-guest/examples/webcam/src/webcam.rs:337-384 | what one whole frame does to any state: the pending data comes out first and the frame follows, or it is merged; an end-of-frame mark on a lone toggling packet is ignored |
| UvcReassembly.DataConserved | usb-wasi-guest/examples/webcam/src/webcam.rs:340-383 | for any packet stream, completed buffers followed by the current one are the payloads fed in, in order |
| UvcReassembly.BuffersHoldOneFrame | usb-wasi-guest/examples/webcam/src/webcam.rs:340-383 | for any packet stream, every buffer holds bytes of packets of a single identifier, the current one that of `last_fid` |
| UvcReassembly.MarkingIsTransparent | usb-wasi-guest/examples/webcam/src/webcam.rs:340-383 | tracing bytes to their packets does not change what reassembly does |
| UvcReassembly.SameFidMerges | usb-wasi-guest/examples/webcam/src/webcam.rs:339-384 | two frames with one identifier and no end mark come back as one |
| WebcamCapture.CameraFramesRecoveredIff | usb-wasi-guest/examples/webcam/src/webcam.rs:298-387 | end to end: packets placed in slots by the host, returned flat, recut and parsed by the guest, come out of reassembly as the frames sent, under the same exact condition |
| WebcamCapture.FoundIsSent | usb-wasi-guest/examples/webcam/src/webcam.rs:312-335 | the guest finds in the flat buffer exactly the packets the device sent |
| WebcamCapture.ParseInvertsHeader | usb-wasi-guest/examples/webcam/src/webcam.rs:325-335 | the guest finds a packet in some bytes if and only if these are a header as in section 2.4.3.3 of UVC 1.5 with that identifier and end mark, and the payload behind it |
| WebcamCapture.NothingParsedIff | usb-wasi-guest/examples/webcam/src/webcam.rs:325-331 | it finds none exactly in fewer than two bytes, behind a header length below 2, and behind one past the end |
| WebcamCapture.CallbackDeliversFilledTransfer | usb-wasi-host/src/main.rs:201-225 | the delivery of an isochronous callback carries the lengths and bytes the guest's cut needs |
| WebcamCapture.WebcamFrameStream.ProcessPacket | usb-wasi-guest/examples/webcam/src/webcam.rs:337-384 | the in-place packet step is the pure one |
| WebcamCapture.WebcamFrameStream.ProcessSlice | usb-wasi-guest/examples/webcam/src/webcam.rs:315-384 | one iteration of the packet loop feeds the packet found in its slice, or nothing |
| WebcamCapture.WebcamFrameStream.ProcessTransfer | usb-wasi-guest/examples/webcam/src/webcam.rs:312-385 | the loop over a transfer feeds its packets in order and stops at the first whole JPEG |
| WebcamCapture.WebcamFrameStream.CaptureFrame | usb-wasi-guest/examples/webcam/src/webcam.rs:298-388 | at most 2000 transfers, up to the first failed one or a frame; the packets fed are those of these transfers; the frame is the first completed buffer of the form FF D8, anything, FF D9, and without a frame no completed buffer has that form |
| WebcamCapture.WebcamFrameStream.CaptureLoop | usb-wasi-guest/examples/webcam/src/webcam.rs:298-387 | that loop |
| WebcamCapture.WholeJpegIff | usb-wasi-guest/examples/webcam/src/webcam.rs:38-42 | the test for a whole JPEG holds exactly of SOI, anything, EOI |
| WebcamCapture.CapturedIsFirstJpegSent | usb-wasi-guest/examples/webcam/src/webcam.rs:298-388 | from the start, while the packets processed are those of frames kept apart, cut off anywhere, the frame returned is the first of the frames sent that is SOI, anything, EOI |
| BulkOnlyCodec.CbwRoundTrip | benchmarks/usb-bench-rs/src/bulk_only/wasm.rs:173-185 | decoding a built command wrapper as in section 6.2 of Bulk-Only Transport 1.0 recovers tag, length, direction and command block |
| BulkOnlyCodec.BuildCbw | benchmarks/usb-bench-rs/src/bulk_only/native.rs:123-140 | the array filled field by field is that encoding, and byte by byte 55 53 42 43, tag and length in little-endian order, direction bit, logical unit 0, block length, block, zeros |
| BulkOnlyCodec.AcceptsOwnSuccess | benchmarks/usb-bench-rs/src/bulk_only/wasm.rs:187-211 | of all encodable status wrappers a command accepts exactly those with its tag and status 0 |
| BulkOnlyCodec.CswVerdict | benchmarks/usb-bench-rs/src/bulk_only/wasm.rs:187-211 | the verdict on any bytes: fewer than 13 are too short, then the signature 55 53 42 53, the tag and the status are checked in that order |
| BulkOnlyCodec.TagsRepeatIff | benchmarks/usb-bench-rs/src/bulk_only/native.rs:116-120 | two commands share a tag if and only if their distance is a multiple of 2^32 |
| BulkOnlyCodec.TagWraps | benchmarks/usb-bench-rs/src/bulk_only/native.rs:116-120 | the tag after command `n` is the wrapping successor of its tag |
| BulkOnlyCodec.StaleCswRejected | benchmarks/usb-bench-rs/src/bulk_only/wasm.rs:201-206 | thirteen or more bytes that carry the tag of one of the previous 2^32 - 1 commands are rejected, whatever else they say |
| TransportRuns.RunCommands | benchmarks/usb-bench-rs/src/bulk_only/native.rs:188-233 | over any run on either transport, against a device that answers each command with any thirteen bytes, command number `n` succeeds if and only if those bytes are a passing status wrapper with the tag of command `n`; up to the first command that leaves host and device out of step (4 GiB or more natively, an empty data phase on WASM), which fails |
| TransportRuns.StalePassesIff | benchmarks/usb-bench-rs/src/bulk_only/native.rs:116-120 | a passing wrapper of command `m` passes for a later command `n` if and only if they are a multiple of 2^32 apart |
| TransportRuns.Send | benchmarks/usb-bench-rs/src/bulk_only/wasm.rs:245-365 | one such command, and exactly when it leaves host and device out of step |
| BulkTransport.Transport.NextTag | benchmarks/usb-bench-rs/src/bulk_only/native.rs:116-120 | returns the tag of the command the count is at, and keeps field and count in step |
| BulkTransport.Transport.WriteCbw | benchmarks/usb-bench-rs/src/bulk_only/native.rs:123-150 | the device ends in the state its reading of the command calls for |
| BulkTransport.Transport.ReadCsw | benchmarks/usb-bench-rs/src/bulk_only/native.rs:153-181 | any thirteen bytes arriving in any pieces are gathered and judged; the device is ready for the next command |
| BulkTransport.Transport.ReadCswWasm | benchmarks/usb-bench-rs/src/bulk_only/wasm.rs:287-304 | the same in one transfer |
| BulkTransport.ConformingIn | benchmarks/usb-bench-rs/src/bulk_only/native.rs:188-210 | with a device's own status wrapper the result of an IN command depends on disk and command only, not on the tag |
| BulkTransport.ConformingOut | benchmarks/usb-bench-rs/src/bulk_only/native.rs:212-232 | and so does that of an OUT command |
| BulkTransport.Transport.ReadDataNative | benchmarks/usb-bench-rs/src/bulk_only/native.rs:193-206 | data arriving in any positive pieces fills the buffer with exactly the data phase |
| BulkTransport.Transport.WriteDataNative | benchmarks/usb-bench-rs/src/bulk_only/native.rs:217-229 | data taken in any positive pieces reaches the device whole and once; data longer than announced stalls after the announced part |
| BulkTransport.Transport.CommandInNative | benchmarks/usb-bench-rs/src/bulk_only/native.rs:189-210 | returns the same function of disk, command and status bytes as the WASM form, however the device splits the data |
| BulkTransport.Transport.CommandInWasm | benchmarks/usb-bench-rs/src/bulk_only/wasm.rs:247-306 | single-shot form, same result |
| BulkTransport.Transport.CommandOutNative | benchmarks/usb-bench-rs/src/bulk_only/native.rs:212-232 | result and disk are functions of disk, command, data and status bytes, however the device splits them; data of 4 GiB or more is cut in the length field and fails |
| BulkTransport.Transport.CommandOutWasm | benchmarks/usb-bench-rs/src/bulk_only/wasm.rs:309-364 | same result and disk for all data but one case: `Some` empty data is sent as an empty packet, which halts the device |
| BulkTransport.Transport.CommandIn | benchmarks/usb-bench-rs/src/bulk_only/native.rs:189-210 | both transports as one interface |
| BulkTransport.Transport.CommandOut | benchmarks/usb-bench-rs/src/bulk_only/wasm.rs:309-364 | the transports agree unless the data is empty but present on WASM, or 4 GiB or more natively; on these the command fails with the device out of step |
| BlockDisk.BlockCommandRoundTrip | benchmarks/usb-bench-rs/src/mass_storage.rs:117-125 | a device decodes opcode, block address and count from a built READ (10) or WRITE (10); address and count are big-endian and all other bytes zero |
| BlockDisk.WriteRangeAt | benchmarks/usb-bench-rs/src/mass_storage.rs:147-171 | a write changes exactly the bytes of its blocks |
| BlockDisk.WriteBackIsIdentity | benchmarks/usb-bench-rs/src/mass_storage.rs:187-191 | writing back what was read changes nothing |
| ScsiDevice.Open | benchmarks/usb-bench-rs/src/mass_storage.rs:50-98 | the reported capacity is the disk's if and only if it has fewer than 2^32 blocks, and never more |
| ScsiDevice.Scsi.ReadBlocks | benchmarks/usb-bench-rs/src/mass_storage.rs:112-130 | returns the blocks if they exist and their length fits 32 bits; a length that wraps is a phase error, missing blocks a failure; the disk is unchanged |
| ScsiDevice.Scsi.WriteBlocks | benchmarks/usb-bench-rs/src/mass_storage.rs:147-171 | writes exactly all the bytes of blocks that exist, if their length fits 32 bits; a wrong length, missing blocks, a wrapped length, the empty WASM write and a native write of 4 GiB or more each fail in their own way with the disk unchanged |
| ScsiDevice.Scsi.ReadWriteBlocks | benchmarks/usb-bench-rs/src/mass_storage.rs:187-191 | never changes the disk and returns what it read |
| ScsiDevice.Session | benchmarks/usb-bench-rs/src/mass_storage.rs:112-191 | any sequence of reads and writes over either transport gives the replies and the disk of a flat block array, up to the first write, if any, that leaves host and device out of step; that write fails and leaves the disk alone |
| ScsiDevice.Perform | benchmarks/usb-bench-rs/src/mass_storage.rs:112-171 | one operation, and exactly when host and device are out of step after it |
| ScsiDevice.LastWriteWins | benchmarks/usb-bench-rs/src/mass_storage.rs:147-171 | after any sequence each byte is what the last accepted write covering it put there |
| ScsiDevice.ReadReturnsLastWrites | benchmarks/usb-bench-rs/src/mass_storage.rs:112-171 | a read after any sequence succeeds if and only if its blocks exist and their length fits, and returns exactly those bytes |
| BulkBenchmark.RunBenchmark | benchmarks/usb-bench-rs/src/bin/w_bulk.rs:89-215 | for every seed the run succeeds if and only if it has no iterations, or one iteration fits the device and 32 bits of length and is not an empty WASM write; it touches the blocks chosen, all of which exist, writes exactly the pattern there in write mode, changes nothing otherwise or when it fails, and counts its bytes |
| BulkBenchmark.ChosenBlocksExist | benchmarks/usb-bench-rs/src/bin/w_bulk.rs:144-150 | whatever the generator's state, the chosen blocks exist if and only if one iteration's blocks fit the device |
| BulkBenchmark.ChosenAreChoices | benchmarks/usb-bench-rs/src/bin/w_bulk.rs:144-150 | the blocks of a run: block 0 in every iteration without `random`, else the draws of the generator reduced to the blocks that leave room |
| BulkBenchmark.LcgStep | benchmarks/usb-bench-rs/src/bin/w_bulk.rs:133-138 | the states of the generator, from the seed, with its multiplier and increment modulo 2^64 |
| BulkBenchmark.RunIteration | benchmarks/usb-bench-rs/src/bin/w_bulk.rs:143-168 | one turn of the loop: the block chosen, the generator moved on, and what is left on the disk |
| BulkBenchmark.FilledExactly | benchmarks/usb-bench-rs/src/bin/w_bulk.rs:119-168 | write mode sets exactly the bytes of the chosen blocks to 0x5A |
| BulkBenchmark.Iterate | benchmarks/usb-bench-rs/src/bin/w_bulk.rs:157-168 | one iteration in each mode: when it succeeds and what it leaves on the disk |
| PartitionReader.IoSlice.CopyAll | benchmarks/usb-native/src/readlot.rs:35-46 | reading until 0 yields exactly the disk bytes of the partition if the device holds them, for every sequence of buffer sizes spanning at most 65535 blocks and less than 4 GiB, and fails otherwise |
| PartitionReader.IoSlice.Read | benchmarks/usb-native/src/readlot.rs:35-46 | one read of as many bytes as the buffer and the window have: nothing at the end, an error past the device, a device error for 4 GiB or more, a panic past 65535 blocks, else the next bytes of the window |
| PartitionReader.IoSlice.ReadSome | benchmarks/usb-native/src/readlot.rs:35-46 | one read with any buffer of such a size moves forward and returns the bytes passed over |
| PartitionReader.SpanFitsIff | benchmarks/usb-native/src/readlot.rs:310-339 | a buffer is such a size if and only if the bytes to read are none, or span at most 65535 blocks of less than 4 GiB |
| PartitionReader.UsbMassStorage.ReadInto | benchmarks/usb-native/src/readlot.rs:310-339 | fills the buffer with the disk bytes at the position and leaves the rest of it alone, or fails or panics exactly when the cut block count says so |
| PartitionReader.UsbMassStorage.Read10 | benchmarks/usb-native/src/readlot.rs:281-301 | succeeds if and only if the blocks exist and their length fits 32 bits, and returns them |
| PartitionReader.ReadPlan | benchmarks/usb-native/src/readlot.rs:323-334 | the block address fits 32 bits; the blocks fetched hold the range, at the computed offset, if and only if their number fits 16 bits |
| PartitionReader.UsbMassStorage.PlanRead | benchmarks/usb-native/src/readlot.rs:323-333 | computes that plan |
| PartitionReader.SpanOnDisk | benchmarks/usb-native/src/readlot.rs:317-325 | a range inside the capacity lies in blocks that exist, and the 32-bit cast of its block address loses nothing |
| PartitionReader.Open | benchmarks/usb-native/src/readlot.rs:134-159 | the capacity computed from READ CAPACITY (10) is the size of the disk for every device |
| PartitionReader.SeekMeetsRequestIff | benchmarks/usb-native/src/readlot.rs:48-62 | seeking meets the request, or refuses it, except in exactly five families: a negative offset from the end that lands in the window; one from the current position past address 0 in a window that starts there; with overflow checks, an offset that takes the sum past u64; and, in a window that ends at the last u64 address, any offset but 0 from the end, and one from the current position past that address |
| PartitionReader.BackFromEndRefused | benchmarks/usb-native/src/readlot.rs:52 | an input of the first family |
| PartitionReader.BackPastZeroRewinds | benchmarks/usb-native/src/readlot.rs:53 | an input of the second |
| PartitionReader.LargestOffsetPanics | benchmarks/usb-native/src/readlot.rs:51 | an input of the third, and its refusal without overflow checks |
| PartitionReader.PastLastAddressSaturates | benchmarks/usb-native/src/readlot.rs:52-53 | an input of each of the last two |
| PartitionReader.IoSlice.Seek | benchmarks/usb-native/src/readlot.rs:48-62 | the outcome for every offset of the three kinds, the five families included; moves window and device to the address, or leaves both alone |
| CivilCalendar.YmdInvertsDayNumber | benchmarks/usb-bench-rs/src/csv.rs:148-160 | for every day number the result is a valid Gregorian date whose day number is the input |
| CivilCalendar.DayNumberInvertsYmd | benchmarks/usb-bench-rs/src/csv.rs:148-160 | for every valid date the code maps its day number back to it |
| CivilCalendar.NextDayFollows | benchmarks/usb-bench-rs/src/csv.rs:148-160 | day `z + 1` is the calendar successor of day `z` |
| CivilCalendar.IntermediatesInRange | benchmarks/usb-bench-rs/src/csv.rs:149-157 | every intermediate is in the range the code's comments and casts state, and nothing overflows i64 once the first addition does not |
| CivilCalendar.DayNumberCountsDays | benchmarks/usb-bench-rs/src/csv.rs:146-160 | the independent day count is the calendar's: consecutive dates have consecutive numbers, from 1970-01-01 |
| CivilCalendar.DayNumberInjective | benchmarks/usb-bench-rs/src/csv.rs:146-160 | no two dates share a day number |
| CivilCalendar.YearOfEraFindsYear | benchmarks/usb-bench-rs/src/csv.rs:152-154 | the year-of-era formula finds the year the day lies in |
| CivilCalendar.YearOfEraInCycle | benchmarks/usb-bench-rs/src/csv.rs:152 | by four-year cycle and century |
| CivilCalendar.MonthPrimeFindsMonth | benchmarks/usb-bench-rs/src/csv.rs:155-156 | the month formula finds the month the day lies in |
| CivilCalendar.EraIsFloor | benchmarks/usb-bench-rs/src/csv.rs:150 | the truncating division with its correction is floor division, also for negative days |
| CivilCalendar.EpochStarts | benchmarks/usb-bench-rs/src/csv.rs:146-160 | day 0 is 1970-01-01 |
| LogTimestamp.IsoReadsBack | benchmarks/usb-bench-rs/src/csv.rs:130-144 | every second from the epoch on, for any year, is recovered from its timestamp |
| LogTimestamp.IsoTimestampForm | benchmarks/usb-bench-rs/src/csv.rs:130-144 | the text is YYYY-MM-DDThh:mm:ssZ with the date of the day and the time of day |
| LogTimestamp.TimestampsDistinct | benchmarks/usb-bench-rs/src/csv.rs:130-144 | no two seconds share a timestamp |
| Hotplug.ReferencesConserved | usb-wasi-host/src/usb_backend.rs:160-163 | over every run and for each device, the references held are the resources the guest owns plus queued events plus an event about to be queued |
| Hotplug.ReachableDevicesReferenced | usb-wasi-host/src/main.rs:596-604 | a drop always finds a reference to return, and a queued device is always referenced |
| Hotplug.NothingLeaks | usb-wasi-host/src/main.rs:596-604 | when the guest owns nothing and nothing is queued, no reference is held |
| Hotplug.EventsDeliveredInOrder | usb-wasi-host/src/usb_backend.rs:313-320 | in any interleaving, polled events, then the queue, then the event in the callback are exactly the allowed arrive and leave events in callback order, each once |
| Hotplug.EventsAreCallbacks | usb-wasi-host/src/usb_backend.rs:116-166 | on the labels of a run: the `k`-th event polled, queued or in the callback is that of the `k`-th callback whose device is described, in the allowed or not in the denied list, and arrived or left; it names that device and says which of the two |
| Hotplug.GuestSeesOnlyAllowed | usb-wasi-host/src/main.rs:149-154 | every device handed out by listing or polling, or queued, is in the list of allowed devices or not in that of denied ones |
| Hotplug.KeptInOrder | usb-wasi-host/src/usb_backend.rs:224-240 | listing keeps exactly the described devices that are in the allowed or not in the denied list, each once and in the order they were found |
| Hotplug.KeptAllowed | usb-wasi-host/src/usb_backend.rs:238-240 | what listing keeps passes the filter |
| Hotplug.Backend.HotplugCallback | usb-wasi-host/src/usb_backend.rs:116-166 | performs its enter and push steps, or nothing in the three ignored cases: the queue gains the event of an arrival or a departure as such, and the device one reference, exactly if the device is described and passes the filter |
| Hotplug.Backend.DrainQueue | usb-wasi-host/src/usb_backend.rs:313-320 | the queue is emptied from the front, in order |
| Hotplug.Backend.PollEvents | usb-wasi-host/src/main.rs:891-903 | performs the poll step: each event once, each with its own new resource, which stands for its device |
| Hotplug.Backend.ListBackend | usb-wasi-host/src/usb_backend.rs:204-278 | a reference for exactly the devices kept, in order |
| Hotplug.Backend.ListDevices | usb-wasi-host/src/main.rs:872-883 | performs the list step, with a new resource for each device kept, which stands for it |
| Hotplug.Backend.DropDevice | usb-wasi-host/src/main.rs:596-604 | returns one reference and leaves the table entry |
| CsvText.RecordsReadBack | benchmarks/usb-bench-rs/src/csv.rs:97-126 | a reader after section 2 of RFC 4180 (LF line ends) recovers every field of any sequence of written records, whatever the fields hold |
| CsvText.FieldReadsBack | benchmarks/usb-bench-rs/src/csv.rs:118-126 | an escaped field is read back as itself |
| CsvText.QuotingIsExact | benchmarks/usb-bench-rs/src/csv.rs:121 | unquoted, a field is read back if and only if the quoting test clears it |
| CsvText.LineReadsBack | benchmarks/usb-bench-rs/src/csv.rs:97-113 | a line is read as one record of exactly its fields |
| CsvLog.RowReadsBack | benchmarks/usb-bench-rs/src/csv.rs:85-113 | every column of a row is decoded to its value; an absent text and an empty one are written alike, all else is kept |
| CsvLog.ColumnsNameFields | benchmarks/usb-bench-rs/src/csv.rs:77-95 | each field of a row stands in the column named after it in the header |
| CsvLog.RowTextIsLine | benchmarks/usb-bench-rs/src/csv.rs:97-113 | the numbers the code does not escape need no escaping |
| CsvLog.LogReadsBack | benchmarks/usb-bench-rs/src/csv.rs:66-115 | however rows are split over sessions, the file has one header and a reader gets every row back in order |
| CsvLog.LogReadsByName | benchmarks/usb-bench-rs/src/csv.rs:66-115 | in the log of any sessions a reader finds each field of each row under its name |
| CsvLogger.RunSessions | benchmarks/usb-bench-rs/src/csv.rs:66-115 | the buffered logger, opened, written and dropped any number of times, produces that file |
| CsvLogger.RunSession | benchmarks/usb-bench-rs/src/csv.rs:67-115 | one session appends the header if the file was empty, then its rows |
| CsvLogger.Logger.Write | benchmarks/usb-bench-rs/src/csv.rs:85-115 | a write flushes what was buffered and its own row |
| CsvLogger.FieldNeedsQuote | benchmarks/usb-bench-c/src/csv.c:31-38 | the C scan up to NUL decides as the Rust test does |
| CsvLogger.WriteField | benchmarks/usb-bench-c/src/csv.c:40-53 | the C byte loop appends the bytes of the Rust quoting for every NUL-free string, and nothing for NULL |
| CsvLogger.BenchCsvWrite | benchmarks/usb-bench-c/src/csv.c:92-120 | the C row writer appends the bytes of the Rust row, its 13 fields in order |
| JpegDht.StandardInjectionIff | usb-wasi-guest/examples/webcam/src/webcam.rs:471-489 | injection yields the same segments with the four tables in front of SOS if and only if no DHT byte pair occurs anywhere and the first SOS pair is the SOS marker |
| JpegDht.InjectAddsSegmentsIff | usb-wasi-guest/examples/webcam/src/webcam.rs:471-489 | the same for any tables that are DHT segments |
| JpegDht.InjectIdempotent | usb-wasi-guest/examples/webcam/src/webcam.rs:471-489 | injecting twice is injecting once |
| JpegDht.RemoveUndoesInject | usb-wasi-guest/examples/webcam/src/webcam.rs:477-489 | deleting the inserted bytes at the first DHT pair restores the frame; without an SOS pair nothing changes |
| JpegDht.InjectKeepsComplete | usb-wasi-guest/examples/webcam/src/webcam.rs:424-490 | a complete JPEG stays complete |
| JpegDht.StandardTablesAreSegments | usb-wasi-guest/examples/webcam/src/webcam.rs:427-469 | the 432 bytes are four DHT segments (section B.2.4.2 of ITU-T T.81) |
| JpegDht.DcLumaIsTable | usb-wasi-guest/examples/webcam/src/webcam.rs:427-432 | length field, class, destination and code-length counts of the DC luminance table agree with its size |
| JpegDht.DcChromaIsTable | usb-wasi-guest/examples/webcam/src/webcam.rs:433-437 | the same for DC chrominance |
| JpegDht.AcLumaIsTable | usb-wasi-guest/examples/webcam/src/webcam.rs:439-453 | the same for AC luminance |
| JpegDht.AcChromaIsTable | usb-wasi-guest/examples/webcam/src/webcam.rs:455-469 | the same for AC chrominance |
| JpegTables.DcSymbolsListed | usb-wasi-guest/examples/webcam/src/webcam.rs:427-437 | both DC tables list the size categories 0 to 11, each once |
| JpegTables.AcLumaSymbolsListed | usb-wasi-guest/examples/webcam/src/webcam.rs:439-453 | the AC luminance table lists every run of 0 to 15 with every size of 1 to 10, end of block and the run of 16 zeros, each once |
| JpegTables.AcChromaSymbolsListed | usb-wasi-guest/examples/webcam/src/webcam.rs:455-469 | and so does the AC chrominance table |
| JpegTables.DcCodes | usb-wasi-guest/examples/webcam/src/webcam.rs:427-437 | the code lengths of each DC table leave exactly the longest word of all ones unused (annex C of ITU-T T.81) |
| JpegTables.AcCodes | usb-wasi-guest/examples/webcam/src/webcam.rs:439-469 | and so do those of each AC table |
| JpegTables.TablesInOrder | usb-wasi-guest/examples/webcam/src/webcam.rs:481-485 | the tables are inserted as DC 0, DC 1, AC 0, AC 1 |
| JpegDht.InjectStandardDht | usb-wasi-guest/examples/webcam/src/webcam.rs:424-490 | the code's search and appends compute that injection |
| JpegDht.DecodeEncode | usb-wasi-guest/examples/webcam/src/webcam.rs:471-489 | the segment list is determined by the bytes |
| JpegDht.DecodedIsEncoding | usb-wasi-guest/examples/webcam/src/webcam.rs:471-489 | and the bytes by the segment list |
| JpegSearch.StandardInjectionBySegments | usb-wasi-guest/examples/webcam/src/webcam.rs:471-489 | the same condition segment by segment: no segment is a table, none holds either byte pair in its length field and payload, and the scan holds no DHT pair |
| JpegSearch.SearchFindsMarkersIff | usb-wasi-guest/examples/webcam/src/webcam.rs:471-478 | the search finds the markers it looks for if and only if that holds |
| JpegSearch.LengthFieldMisleads | usb-wasi-guest/examples/webcam/src/webcam.rs:471-478 | a segment of 0xFFDA or 0xFFC4 bytes violates it by its length field alone |
| JpegSearch.SosPairInPayload | usb-wasi-guest/examples/webcam/src/webcam.rs:477-485 | a JPEG with the SOS pair in an application segment gets the tables inside that segment |
| JpegSearch.DhtPairInPayload | usb-wasi-guest/examples/webcam/src/webcam.rs:471-475 | one with the DHT pair in an application segment gets none |
| DescriptorWalk.WalkDescriptors | usb-wasi-guest/examples/lsusb.rs:174-206 | the loop ends on every block of bytes and prints what the recursive walk prints, or panics when it does |
| DescriptorWalk.BlockWalked | usb-wasi-guest/examples/lsusb.rs:174-206 | a header followed by descriptors, interfaces (type 4) of at least 5 bytes and endpoints (type 5) of at least 7, then possibly one cut short: each is shown once, at its boundary, with its own fields, and nothing else is |
| DescriptorWalk.PanicsIff | usb-wasi-guest/examples/lsusb.rs:180-200 | the walk panics if and only if it stops at a descriptor whose fields run past the block |
| DescriptorWalk.StopsAdvance | usb-wasi-guest/examples/lsusb.rs:175-205 | each stop is a complete descriptor and the next stop follows it by its length, or by one for length 0 |
| DescriptorWalk.PanicNeedsShortDescriptor | usb-wasi-guest/examples/lsusb.rs:179-200 | a panic needs an interface descriptor (type 4) of fewer than 5 bytes or an endpoint descriptor (type 5) of fewer than 7, within the last bytes of the block |
| DescriptorWalk.ShortInterfacePanics | usb-wasi-guest/examples/lsusb.rs:182-185 | such a block |
| BlockCache.ReachableUnique | usb-wasi-guest/examples/mass-storage/src/mass_storage.rs:370-380 | in every reachable state no block has two entries and there are at most 128 |
| BlockCache.FlushIsOverlay | usb-wasi-guest/examples/mass-storage/src/mass_storage.rs:105-118 | flushing turns the device into the device overlaid with exactly the dirty entries, and empties the cache |
| BlockCache.FlushOrderIrrelevant | usb-wasi-guest/examples/mass-storage/src/mass_storage.rs:107-115 | in any iteration order |
| BlockCache.WriteDurableIff | usb-wasi-guest/examples/mass-storage/src/mass_storage.rs:443-464 | a single-block write reaches the device with the next flush, and nothing else changes, if and only if the block is cached, or the device already holds the data and nothing dirty is evicted, or the evicted entry is that same data and safe |
| BlockCache.RefillDurableIff | usb-wasi-guest/examples/mass-storage/src/mass_storage.rs:363-381 | a refill by read leaves what is durable alone if and only if it replaces no dirty data by other data and evicts no dirty entry that matters |
| BlockCache.FirstWriteLost | usb-wasi-guest/examples/mass-storage/src/mass_storage.rs:453-463 | from an empty cache, a single-block write followed by a flush leaves the device as it was |
| BlockCache.MassStorageDevice.FlushCache | usb-wasi-guest/examples/mass-storage/src/mass_storage.rs:105-118 | the two loops perform that flush: each dirty entry's block holds its data, every other block is as it was, and the cache is empty |
| BlockCache.MassStorageDevice.FindEntry | usb-wasi-guest/examples/mass-storage/src/mass_storage.rs:370 | a find moves the first entry of the block to the front and leaves the order of the others, or finds none |
| BlockCache.MassStorageDevice.InsertClean | usb-wasi-guest/examples/mass-storage/src/mass_storage.rs:373-379 | a clean entry at the front; a list of 128 loses its last entry, which is written, if dirty, to the inserted block |
| BlockCache.MassStorageDevice.RefillChunk | usb-wasi-guest/examples/mass-storage/src/mass_storage.rs:370-380 | an entry of the block moves to the front with the new data and its old mark; otherwise the data is inserted |
| BlockCache.MassStorageDevice.WriteSingle | usb-wasi-guest/examples/mass-storage/src/mass_storage.rs:443-464 | byte by byte: the bytes land at their offset in the data of the block's entry, or of the device if there is none, and every other byte of it stays; the entry comes to the front, dirty only if it was cached |

## Left out

Host transfers:

- Steps taken as atomic: `new_transfer`; each half of submit, cancel, drop and await, a drop's first half
  including the free of a transfer never submitted; and the callback's computation of its result. `&mut
  self` keeps other guest calls out of a running one.
- TransferHost.Host.AwaitTransfer: has the callback end while the call waits; an await that resumes between
  the send and the free is covered by the step lemmas alone.
- TransferHost.Host.CancelTransfer: has the whole callback or none of it between load and call; parts of it,
  and other transfers' callbacks, are covered by `TransferSafety` and `TransferDiscipline`.
- TransferHost.Host.DropTransfer: likewise.
- libusb is the contract in `ConformingCompletion`: the buffer keeps its size, lengths fit, OUT data and
  setup packets are left alone. Its internals, Wasmtime and the kernel are not modelled.
- The guest's data is shorter than 2^32 bytes, so that the host's `as u32` of its length is exact.
- Dropping the await future, closing a device handle with transfers in flight, a failing `table.push`,
  address reuse by the allocator, stream ids, timeouts, and buffer sizes for which `8 + buf_size` or the
  `i32` casts wrap.
- A second submit of a transfer still in flight is a trap (the panic on the missing buffer); what the OUT
  copy that precedes the panic puts in the buffer in flight is not modelled.

Camera:

- Packets left in a transfer after a frame is returned are never fed to reassembly, as in the code; the
  theorems are about packets processed.
- UVC negotiation, device and alternate-setting selection, warm-up, and the resolution guess.

Bulk storage:

- Devices that stall, or end a data phase with a short packet: the native loop would read on into the
  status phase. The device model pads a failed data phase and reports the failure in the status.
- BulkTransport.Transport.CommandOutWasm: that an empty packet outside a data phase halts the device is
  the device model's choice (section 6.6.1 of Bulk-Only Transport 1.0), not something the code fixes.
- Products of u32, and on wasm of usize, wrap as in a release build; a build with overflow checks panics
  there. On wasm a slice is shorter than 2^32 bytes.
- BulkTransport.Transport.CommandOutNative: after data of 4 GiB or more, or after the empty WASM write, the
  device is out of step until a reset, and no later command is modelled.
- PartitionReader.IoSlice.ReadSome: picks the buffer size itself, which stands for every size whose read
  spans at most 65535 blocks and less than 4 GiB; larger ones fail or panic.
- `receive_cbw` and `send_cbw` of `readlot.rs` send the same bytes and run the same loops as the native
  transport and are taken to be it; the mass-storage reset, endpoint discovery and timing are left out.
- `UsbMassStorage::seek` from the end and from the current position, which the partition reader never uses.

Hotplug:

- The references that `libusb_get_device_list` and `libusb_free_device_list` take and return cancel out and
  are not counted. The filter is fixed for the run. Bus numbers, speeds and descriptors are not modelled.

Log:

- RFC 4180 ends a record with CRLF, the log with LF, and the reader here takes LF; a quoted field may hold
  CRLF. What a reader that insists on CRLF makes of a log is not modelled.
- Two loggers open on one file at the same time. The C functions that open and close the file and format
  the timestamp; resource usage and timing.

Splicers and walkers:

- JPEG fill bytes before a marker and restart markers in the header are not part of the segment model.
- `decode_usb_string`, and the requests that fetch the descriptors.
- BlockCache.ReachableUnique: covers the multi-block write as the steps it is made of, up to its panic on
  a cached block (the copied slice is longer than an entry); that loop, the buffer arithmetic of `read`
  and the cursor are not modelled.

Other parts of the repository: generated bindings, command-line parsing, plotting and statistics, maze
games, gamepad parsing, and the second copies of the storage stack.
