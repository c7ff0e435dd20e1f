# Verified models of the Windows runtime bridge

This project models the stateful cores of the runtime bridge in Dafny and proves what they
promise. `dafny verify dfyconfig.toml` checks all of it.

**The remote HIP bridge.** A stub library inside the game's process invents device addresses;
a native daemon owns the real ones, behind handles it never reuses. The two talk over a
hand-written binary protocol. `Bridge` is the pair as a transition system: any number of client
threads, one connection under a mutex, writes that fail part-way, replies that never arrive, a
daemon that may hang up. Bytes on the wire are real encodings, so what each side decodes is
proved, not assumed. `BridgeSafety` is its invariant, `BridgeRefinement` its meaning: to the
game, the two processes are one flat device, and `BridgeReplies` says that every reply a thread is
handed tells the truth about it. `LongCopies` and `Overruns` are the two ways to break this, and
`CopyBounds` carries what a caller checks of its copies through a run. The parts are classes with
in-place state proved against specification functions: `AddressSpace.dfy` (module `FakeAddresses`),
`HandleTable.dfy`, `KernelArgs.dfy` (the client's pointer scan and the daemon's patch loop),
`ProtocolStream.dfy` (readers and writers) over `Protocol.dfy` (layouts), `Daemon.dfy` (the request
loop) and `HipStub.dfy` (the HIP entry points, each statement paired with a step of the transition
system). HIP itself is `HipContract`: a malloc returns a block disjoint from every live one and at least
as large as asked, copies move the bytes they say, a module is made of the bytes given, a function
is the one named in its module, a kernel may write any live byte, and any call may fail.
`hipModuleLaunchKernel` returns before the kernel has run; the model gives the
kernel's writes to the step that launches it, which is all the game can see of them, because the
copies and frees that follow are ordered behind it on the null stream (`hip_sys.rs` launches on it).

**The deferred-submission ring.** `Ring` interleaves the CPU's steps with an in-order GPU for
any ring size; `RingProbe` is the probe's own code running against such a GPU; `SnapshotGate` is
the batch test it uses.

**Bounded arithmetic.** `WideParse` (saturating wide-string parsers), `FlatIndex` (the 32-bit
flattened tensor index), `OffloadBundle` (the code-object size parser).

**Tables.** `AllocCap`, `Registry`, `ReorderDetector`, `CallConfig`, `BackendSwitch`.

Where code and documentation disagree the model follows the code:

- `alloc_cap.h` lines 30-35 call a full table conservative. It is not: the allocation is added to
  no total (`AllocCap.FullTableEscapesCap`), and `AllocCap.CapHoldsIffTableOutlastsIt` says exactly
  which caps still hold.
- The index sweep labels 2^31 elements the signed-overflow edge. The last index there is still
  exact; the first wrong one is at 2^32 (`FlatIndex.SweepVerdicts`).
- The wide-string parsers differ from section 7.29.4.1.2 of ISO C11 on a bare "0x" and on negative
  unsigned overflow, and nowhere else (`WideParse.LongIsC11Iff`, `WideParse.ULongIsC11Iff`).
- A D2H copy of 4 GiB or more produces a response whose length field is cut. Where what is left is
  above 256 MiB the stub refuses it; where it is not, later replies are read out of device data
  (`LongCopies.HandlesDistinctIffKeepsStep`). The steps of `Bridge` allow every length; the results
  over runs ask for the harmless ones (`KeepsStep`), and hold of H2D copies of every size.
- The stub resolves only a copy's first byte and the daemon forwards any length, so a copy can run
  past its allocation into another (`Overruns.NeverAnotherIffFits`). Handles, replies and launches
  stay right on such runs; only the byte map does not.

## Model

| member | source | states |
|---|---|---|
| BridgeRefinement.RunRefinesFlat | windows-runtime-bridge/hip-stub/src/lib.rs:666-768 | Any run of the two processes, with any interleaving of client threads and any lost frame or reply, is step by step a run of one flat byte map keyed by fake address: malloc adds fresh bytes, free removes exactly its own, an H2D copy writes its bytes and no others, and a D2H reply holds what the map holds both when the daemon gives it and when a thread is handed it. The caller checks two things: that each copy ends inside its allocation (`Fits`; a copy in above the frame cap is refused and may be of any size), and that the lengths of copies out keep step (`InStep`) |
| BridgeRefinement.StepRefinesFlat | windows-runtime-bridge/hip-bridge/native-daemon/src/main.rs:55-86 | The same for one step of either side, from any state that satisfies the invariant and in which the copies under way fit |
| BridgeRefinement.DeliveredCopyOut | windows-runtime-bridge/hip-stub/src/lib.rs:738-752 | The bytes a thread is handed for a copy out are as many as it asked for and, if the copy fits its allocation and nobody has freed that meanwhile, are the flat device's bytes at that very moment |
| BridgeReplies.DeliveredCopyIn | windows-runtime-bridge/hip-stub/src/lib.rs:720-737 | When a copy in that fits its allocation is acknowledged the flat device holds its bytes, unless the allocation was freed meanwhile |
| BridgeReplies.DeliveredLaunch | windows-runtime-bridge/hip-stub/src/lib.rs:896-923 | An acknowledged launch is the last kernel the device ran, once, on the translated blob; a refused one left the daemon as it was |
| BridgeReplies.ReplyAnswersItsCall | windows-runtime-bridge/hip-stub/src/lib.rs:94-108 | On any run and interleaving, whatever reply a thread is handed is the answer the daemon gave to that thread's own call, in the one daemon step between its request and its reply |
| BridgeReplies.GameSeesFlatDevice | windows-runtime-bridge/hip-stub/src/lib.rs:666-924 | On any run from the start, copies past their allocation included, that daemon step is the event which the reply tells of: Ok to a copy out is a read of those bytes, Ok to a copy in is that write, Ok to a launch is one kernel on the translated blob, Ok to a malloc a handle never issued before, Ok to a free that the real block is gone; an error means nothing was written or run. A copy whose allocation another thread has freed by then is no event. If the copies fit, the events are a run of the flat device |
| BridgeReplies.NothingCarriedOutTwice | windows-runtime-bridge/hip-bridge/native-daemon/src/main.rs:160-178 | Between two requests the daemon carries out a further one was sent: no request is carried out twice, whatever is lost |
| BridgeRefinement.ServedD2H | windows-runtime-bridge/hip-bridge/native-daemon/src/main.rs:80-86 | When the daemon answers a copy out of a live range, the bytes it sends are the flat device's bytes at that moment; late copies out of freed ranges change nothing |
| BridgeRefinement.RequestReachesItsAllocation | windows-runtime-bridge/hip-bridge/native-daemon/src/main.rs:63-86 | A served copy or free carrying handle h starts inside the block h was issued for, or is refused without touching memory; it changes no byte outside that block unless it is a copy in that runs past the end |
| Overruns.ServedCopyIsFlatIff | windows-runtime-bridge/hip-bridge/native-daemon/src/main.rs:73-86 | In any state, a served copy on a live allocation is the flat device's step it claims to be iff offset plus length is at most the allocation's size |
| Overruns.NeverAnotherIffFits | windows-runtime-bridge/hip-stub/src/lib.rs:720-737 | Over all runs whose copies in are of a given length at a given offset of allocations of a given size: none ever moves a byte of another allocation iff the copy ends inside the allocation (one byte, for one of size 0) or its frame is above the 256 MiB cap |
| Overruns.OverrunReachesAnother | windows-runtime-bridge/hip-bridge/native-daemon/src/main.rs:73-79 | For every other such copy, a run from the start (two mallocs and the copy) that writes over the second allocation: neither side checks the length |
| BridgeRefinement.LaunchRefinement | windows-runtime-bridge/hip-bridge/native-daemon/src/main.rs:113-156 | A served launch runs exactly once, the function and dimensions asked for, on the caller's blob with every 8-aligned word that resolved at scan time made the real address of the byte it pointed at and every other byte unchanged, iff function and handles are bound and HIP accepts; otherwise no kernel runs and the daemon's state is untouched |
| BridgeSafety.StepInv | windows-runtime-bridge/hip-stub/src/lib.rs:94-108 | Every step of any thread, the wire or the daemon, bar a copy out of a length that does not keep step, keeps the invariant: ledger and handle table agree, bound handles own separate real blocks, live ranges and live handles correspond one to one, at most one exchange is on the wire, and a reply on the wire is the daemon's answer to the waiting thread's call; no handle is reissued or rebased |
| BridgeSafety.RunInv | windows-runtime-bridge/hip-stub/src/lib.rs:94-108 | The same over whole runs |
| BridgeSafety.LiveHandlesDistinctAndBound | windows-runtime-bridge/hip-stub/src/lib.rs:160-211 | On every run from the start whose copies out keep step, live fake ranges carry pairwise distinct handles, each bound in the daemon to a real block of at least the range's size |
| BridgeSafety.DeliveredIsServed | windows-runtime-bridge/hip-stub/src/lib.rs:100-107 | The reply a waiting thread reads is the daemon's answer to the call that thread is waiting for, and leaves nothing behind on the stream |
| BridgeSafety.ServedIsSent | windows-runtime-bridge/hip-bridge/native-daemon/src/main.rs:160-178 | Whatever request the daemon decodes is the one the client encoded, whole, with nothing after it |
| BridgeSafety.TornFrameNeverServed | windows-runtime-bridge/hip-stub/src/lib.rs:97-100 | A request cut short by a failing write is never executed |
| BridgeSafety.NothingSentAfterDrop | windows-runtime-bridge/hip-stub/src/lib.rs:95-107 | Once the connection is dropped it stays dropped on every later run and no byte is added to the stream towards the daemon |
| HipStub.Stub.CallBridge | windows-runtime-bridge/hip-stub/src/lib.rs:94-108 | One request and one reply under the mutex: the connection survives iff it was up, nothing fails on the way, and request and reply bodies are each at most 256 MiB, and then the caller gets exactly the daemon's answer; otherwise the request was carried out once or not at all; on a dropped connection nothing is written |
| HipStub.Stub.HipMalloc | windows-runtime-bridge/hip-stub/src/lib.rs:666-693 | Success iff the connection was up, nothing fails on the way and HIP allocated; then the pointer is the next unused base, at or above 0x700000000000, and its size bytes appear in the flat device; otherwise null, the no-device error, and no visible change |
| HipStub.Stub.HipFree | windows-runtime-bridge/hip-stub/src/lib.rs:695-718 | A live base disappears from the flat device at once, whatever the wire does; it succeeds iff the connection was up, nothing fails on the way and HIP freed, and then the real block is gone and no other is touched; null succeeds without a request; any other pointer changes nothing and fails |
| HipStub.Stub.CopyToDevice | windows-runtime-bridge/hip-stub/src/lib.rs:720-737 | Success iff the pointer resolves, the connection was up, nothing fails on the way, HIP copied and the frame is within the 256 MiB cap; a resolved copy above it gives the connection up for good. If the copy fits its allocation, on success the flat device holds the data at the pointer and is otherwise unchanged, and on failure the copy happened whole or not at all |
| HipStub.Stub.CopyFromDevice | windows-runtime-bridge/hip-stub/src/lib.rs:738-761 | Success iff the pointer resolves, the connection was up, nothing fails on the way, HIP copied and the length is within the 256 MiB cap. The caller then gets the bytes HIP read, as many as it asked for, and they are the flat device's if the copy fits its allocation; in every case the flat device is unchanged. For lengths that keep step, 4 GiB and more included |
| HipStub.Stub.HipLaunchKernel | windows-runtime-bridge/hip-stub/src/lib.rs:844-924 | Success iff the pointers are not null, the function is registered and bound, the connection was up, nothing fails on the way and HIP accepted; then exactly one kernel ran, the registered one with the caller's dimensions, on the blob in which every live fake pointer is real. On failure it ran once so (lost reply) or nothing changed in the daemon. Either way the flat device made the matching step |
| HipStub.Stub.RegisterFatBinary | windows-runtime-bridge/hip-stub/src/lib.rs:316-368 | A new token in any case; a module handle under it iff the bundle was recognised, fits a frame, reached the daemon and loaded, and then the module is the one HIP made of exactly these bytes |
| HipStub.Stub.RegisterFunction | windows-runtime-bridge/hip-stub/src/lib.rs:370-408 | Iff the token has a module and the exchange and HIP succeed, the host pointer gets the function HIP found under this very name in that module, replacing an earlier one; otherwise the registry is unchanged |
| Daemon.DaemonProcess.HandleRequest | windows-runtime-bridge/hip-bridge/native-daemon/src/main.rs:39-158 | The in-place tables and device end in the state, and the daemon answers the response, that the request's specification gives from the old state |
| Daemon.DaemonProcess.LaunchRequest | windows-runtime-bridge/hip-bridge/native-daemon/src/main.rs:113-156 | The launch arm with its in-place patch loop meets the functional launch: no HIP call unless every fixup was patched |
| Daemon.DaemonProcess.ServeOne | windows-runtime-bridge/hip-bridge/native-daemon/src/main.rs:160-178 | One turn of the client loop: one frame consumed, one response appended; a stream that ends or makes no sense changes nothing |
| Daemon.AnswerIs | windows-runtime-bridge/hip-bridge/native-daemon/src/main.rs:39-158 | For each of the ten requests, exactly when the daemon answers with success and with what |
| Daemon.ServeAnswersAll | windows-runtime-bridge/hip-bridge/native-daemon/src/main.rs:160-178 | Whatever requests within the cap a stream holds, before something that makes no sense, each is carried out in the state the one before left and answered in order |
| Daemon.DaemonProcess.HandleClient | windows-runtime-bridge/hip-bridge/native-daemon/src/main.rs:160-178 | The loop does this: on a stream of requests it carries out all of them in order, and writes exactly their replies |
| HandleTables.HandlesNeverRebound | windows-runtime-bridge/hip-bridge/native-daemon/src/handles.rs:31-49 | Over any run of inserts and removes a handle issued earlier is bound to its own value or to nothing, an unbound one stays unbound, and 0 is never bound |
| HandleTables.HandleTable.Insert | windows-runtime-bridge/hip-bridge/native-daemon/src/handles.rs:31-35 | Issues a handle never issued before and binds it, changing no other entry |
| HandleTables.HandleTable.Remove | windows-runtime-bridge/hip-bridge/native-daemon/src/handles.rs:37-39 | Returns and forgets the bound value, keeping the counter |
| HandleTables.HandleTable.Get | windows-runtime-bridge/hip-bridge/native-daemon/src/handles.rs:47-49 | Returns the bound value, or none |
| FakeAddresses.ResolveIsScan | windows-runtime-bridge/hip-stub/src/lib.rs:195-203 | On any valid space the predecessor lookup answers (h, o) iff a scan of all ranges finds the range with base <= ptr < base + max(size, 1) |
| FakeAddresses.ResolveNone | windows-runtime-bridge/hip-stub/src/lib.rs:195-203 | It answers none iff no range covers the pointer |
| FakeAddresses.ValidSeparates | windows-runtime-bridge/hip-stub/src/lib.rs:181-191 | Live ranges are page-aligned, below the next base, and at least 4096 addresses apart |
| FakeAddresses.RunValidWithinBudget | windows-runtime-bridge/hip-stub/src/lib.rs:185-210 | Every run of allocations and removals stays valid and moves the next base by exactly its reservations, at most size + 8192 each: the exact no-wrap budget |
| FakeAddresses.DeadStaysDead | windows-runtime-bridge/hip-stub/src/lib.rs:195-210 | An address already handed out that resolves to nothing never resolves on any later run |
| FakeAddresses.FreedNeverResolves | windows-runtime-bridge/hip-stub/src/lib.rs:205-210 | No pointer into a freed range resolves on any later run |
| FakeAddresses.AddressSpace.Allocate | windows-runtime-bridge/hip-stub/src/lib.rs:185-191 | Inserts the new range at the old next base, which moves on by the size rounded up to whole pages, at least one, and one page more; validity is kept, and the base then resolves to (handle, 0) |
| Utf8.Utf8Examples | windows-runtime-bridge/hip-bridge/protocol/src/lib.rs:260-272 | Four strings and what becomes of them: a character, a bad byte, a cut-off character, a lead byte with the wrong successor |
| FakeAddresses.AddressSpace.Resolve | windows-runtime-bridge/hip-stub/src/lib.rs:195-203 | Meets the lookup specification: some answer iff some range covers the pointer |
| FakeAddresses.AddressSpace.RemoveExact | windows-runtime-bridge/hip-stub/src/lib.rs:208-210 | Removes by exact base only and reports the handle; any other pointer changes nothing |
| KernelArgs.ScanFixups | windows-runtime-bridge/hip-stub/src/lib.rs:880-894 | The scan loop finds the specified fixup list |
| KernelArgs.ScanExact | windows-runtime-bridge/hip-stub/src/lib.rs:884-892 | A fixup is listed iff it is an 8-aligned word of the blob that resolves, with its handle and offset; offsets strictly increase, so no word is listed twice |
| KernelArgs.LaunchFitsFrame | windows-runtime-bridge/hip-stub/src/lib.rs:839-907 | A 4096-byte blob has at most 512 fixups and its request always fits the frame limit |
| KernelArgs.PatchInPlace | windows-runtime-bridge/hip-bridge/native-daemon/src/main.rs:126-147 | The in-place loop succeeds iff every fixup is in bounds and bound, and then leaves the specified blob |
| KernelArgs.PatchSucceedsIffBound | windows-runtime-bridge/hip-bridge/native-daemon/src/main.rs:128-147 | With fixups in bounds, patching succeeds iff every handle is bound |
| KernelArgs.PatchedWord | windows-runtime-bridge/hip-bridge/native-daemon/src/main.rs:138-139 | After patching, each fixup's word reads, little-endian, as the real base bound to its handle plus its offset, modulo 2^64 |
| KernelArgs.UntouchedByte | windows-runtime-bridge/hip-bridge/native-daemon/src/main.rs:128-147 | No byte outside the fixups' words changes |
| KernelArgs.PatchOrderIrrelevant | windows-runtime-bridge/hip-bridge/native-daemon/src/main.rs:128-147 | Any two lists of the same separate fixups give the same blob, or both fail |
| KernelArgs.ScanThenPatch | windows-runtime-bridge/hip-stub/src/lib.rs:880-907 | Scanning on the client and patching in the daemon gives the blob translated byte by byte iff every scanned handle is still bound, and fails otherwise |
| KernelArgs.TranslatedIsReal | windows-runtime-bridge/hip-bridge/native-daemon/src/main.rs:128-152 | In the translated blob every 8-aligned word that points into a live range at base b reads as that range's real base plus the pointer minus b, modulo 2^64, and every other byte is the caller's |
| KernelArgs.MadeRealUnique | windows-runtime-bridge/hip-bridge/native-daemon/src/main.rs:128-152 | Only one blob is like that |
| KernelArgs.SmallWordsStay | windows-runtime-bridge/hip-stub/src/lib.rs:170-179 | A word below 0x700000000000, such as a count, is never translated |
| BridgeRefinement.RealAddressIsFlat | windows-runtime-bridge/hip-bridge/native-daemon/src/main.rs:138-139 | What a live pointer is made into is the real address the flat device reads that byte from |
| Protocol.RequestRoundTrip | windows-runtime-bridge/hip-bridge/protocol/src/lib.rs:64-229 | A request followed by anything is read back, leaving the rest, iff its body is at most 256 MiB; a larger one is refused if its length fits the field, and an H2D copy whatever its length |
| Protocol.ResponseRoundTrip | windows-runtime-bridge/hip-bridge/protocol/src/lib.rs:243-272 | The same for responses |
| Protocol.NeverMisreadIffKeepsStep | windows-runtime-bridge/hip-bridge/protocol/src/lib.rs:243-299 | A response, whatever follows it, is read back whole or refused iff its body is below 4 GiB or what the 32-bit length field keeps of its length is above the cap |
| Protocol.OversizedResponseDesynchronises | windows-runtime-bridge/hip-bridge/protocol/src/lib.rs:243-299 | For every other length it is read as its first bytes, and at least 4 GiB of its body are left in front of the next response |
| LongCopies.HandlesDistinctIffKeepsStep | windows-runtime-bridge/hip-stub/src/lib.rs:738-761 | Over all runs whose copies out have a given length, live ranges always carry distinct handles iff that length keeps step |
| LongCopies.OutOfStepBreaksHandles | windows-runtime-bridge/hip-stub/src/lib.rs:738-761 | For every length that does not, a run from the start (malloc, copy out, malloc) that ends with two live ranges under one handle, the second read out of device data |
| Protocol.RequestStreamRoundTrip | windows-runtime-bridge/hip-bridge/protocol/src/lib.rs:116-229 | Decoding the concatenation of any list of requests within the cap, then any tail, gives the list and the tail |
| Protocol.ResponseStreamRoundTrip | windows-runtime-bridge/hip-bridge/protocol/src/lib.rs:243-272 | The same for responses |
| Protocol.RequestCanonical | windows-runtime-bridge/hip-bridge/protocol/src/lib.rs:124-229 | An accepted frame re-encodes to the bytes consumed; one with opcode 1, whose body is ignored, to the empty-body frame |
| Protocol.ResponseCanonical | windows-runtime-bridge/hip-bridge/protocol/src/lib.rs:260-272 | An accepted response re-encodes to the bytes consumed iff it is a success or its error text was valid UTF-8 |
| Protocol.RequestPrefixRejected | windows-runtime-bridge/hip-bridge/protocol/src/lib.rs:286-299 | Every strict prefix of an encoding leaves the reader at end of file |
| Protocol.ResponsePrefixRejected | windows-runtime-bridge/hip-bridge/protocol/src/lib.rs:286-299 | The same for responses |
| Protocol.RequestPrefixOrWhole | windows-runtime-bridge/hip-bridge/protocol/src/lib.rs:124-135 | However much of a frame arrives, it is decoded only when whole, and then to the request sent; H2D copies of any length included |
| Protocol.RequestLayout | windows-runtime-bridge/hip-bridge/protocol/src/lib.rs:49-122 | Every request's frame byte by byte: its tag, its length, and each field at its offset, fixups at 40 + 20 k |
| Protocol.ResponseLayout | windows-runtime-bridge/hip-bridge/protocol/src/lib.rs:243-258 | The same for responses |
| Protocol.DeviceCountTakesAnyBody | windows-runtime-bridge/hip-bridge/protocol/src/lib.rs:124-140 | A frame with opcode 1 is a device-count request whatever its body |
| Protocol.RequestsPrefixFree | windows-runtime-bridge/hip-bridge/protocol/src/lib.rs:116-122 | No encoding is a proper prefix of another, and different requests have different encodings |
| Protocol.ResponsesPrefixFree | windows-runtime-bridge/hip-bridge/protocol/src/lib.rs:243-258 | The same for responses |
| ProtocolStream.EncodeBody | windows-runtime-bridge/hip-bridge/protocol/src/lib.rs:64-114 | Building the body piece by piece gives the specified layout, for all ten opcodes |
| ProtocolStream.WriteRequest | windows-runtime-bridge/hip-bridge/protocol/src/lib.rs:116-122 | Appends exactly one encoded frame to the stream |
| ProtocolStream.WriteResponse | windows-runtime-bridge/hip-bridge/protocol/src/lib.rs:243-258 | Appends exactly one encoded response |
| ProtocolStream.ReadFramedBody | windows-runtime-bridge/hip-bridge/protocol/src/lib.rs:286-299 | Reads a length and that many bytes; refuses a length above the cap before reading a body |
| ProtocolStream.DecodeFixupTable | windows-runtime-bridge/hip-bridge/protocol/src/lib.rs:199-216 | The cursor loop decodes the 20-byte entries in order |
| ProtocolStream.ReadRequestFrom | windows-runtime-bridge/hip-bridge/protocol/src/lib.rs:124-229 | Reading from the stream agrees with the specification on result and remaining bytes |
| ProtocolStream.ReadResponseFrom | windows-runtime-bridge/hip-bridge/protocol/src/lib.rs:260-272 | The same for responses |
| Bytes.EncodeDecode | windows-runtime-bridge/hip-bridge/protocol/src/lib.rs:64-114 | k little-endian bytes of n decode to n modulo 256^k |
| Bytes.LittleEndian | windows-runtime-bridge/hip-bridge/protocol/src/lib.rs:64-114 | The bytes themselves: least significant first, negative numbers in two's complement |
| Utf8.ValidIffEncoding | windows-runtime-bridge/hip-bridge/protocol/src/lib.rs:175-187 | The byte test behind String::from_utf8 accepts exactly the encodings of scalar-value sequences (section 4 of RFC 3629) |
| Utf8.LossyIdentityIffValid | windows-runtime-bridge/hip-bridge/protocol/src/lib.rs:260-272 | Lossy conversion of an error text changes nothing iff the text is valid |
| Utf8.LossyKeepsValid | windows-runtime-bridge/hip-bridge/protocol/src/lib.rs:260-272 | It keeps every valid character and puts one U+FFFD in the place of each ill-formed run |
| Ring.RunInv | windows-runtime-bridge/investigations/faithful_submission_probe.c:155-190 | Every interleaving of CPU and GPU steps, for any ring size, keeps the invariant tying queue, fence, slots and copied words together |
| Ring.ResetIsSafe | windows-runtime-bridge/investigations/faithful_submission_probe.c:163-170 | On every run, when a slot is about to be reset no queued or executing work uses it |
| Ring.SlotWaitTarget | windows-runtime-bridge/investigations/faithful_submission_probe.c:163-164 | Before submission n the slot about to be used holds 0 if n < N and fence value n - N + 1 otherwise |
| Ring.LastUseOfNext | windows-runtime-bridge/investigations/faithful_submission_probe.c:158-164 | The last fence value given to the slot value mod N is value - N + 1 |
| Ring.AtMostSlotsOutstanding | windows-runtime-bridge/investigations/faithful_submission_probe.c:163-182 | At most N submissions are ever queued and not completed |
| Ring.WaitTargetQueued | windows-runtime-bridge/investigations/faithful_submission_probe.c:113-125 | A fence value waited for and not yet reached has its signal in the GPU's hands, and the GPU can move |
| Ring.WaitEnds | windows-runtime-bridge/investigations/faithful_submission_probe.c:113-125 | While the CPU waits, a measure falls with each GPU step, so any run of that many GPU steps reaches the target |
| Ring.FlushCompletes | windows-runtime-bridge/investigations/faithful_submission_probe.c:186-190 | When a flush may return, the queue is empty and every submission so far is in the readback buffer |
| RingProbe.RingSubmission.Submit | windows-runtime-bridge/investigations/faithful_submission_probe.c:155-184 | One more submission, signalled with the next fence value; the gate accepts it |
| RingProbe.RingSubmission.WaitValue | windows-runtime-bridge/investigations/faithful_submission_probe.c:113-125 | Returns with the fence at or past the target, for any pace of the GPU |
| RingProbe.RingSubmission.Flush | windows-runtime-bridge/investigations/faithful_submission_probe.c:186-190 | Afterwards every submitted word has been copied |
| RingProbe.Probe | windows-runtime-bridge/investigations/faithful_submission_probe.c:245-276 | Submit, flush and verify report no gate failure and no mismatch for any ring size and any number of submissions, and readback word i is 9000 + i modulo 2^32 |
| SnapshotGate.BatchMatch | windows-runtime-bridge/investigations/snapshot_gate.c:6-19 | Accepts iff the threads agree, the batch size is 1 to 64, and the non-null producer is the last list and occurs nowhere else |
| SnapshotGate.LastAndOnlyMeaning | windows-runtime-bridge/investigations/snapshot_gate.c:6-19 | That is: an in-order batch runs the producer exactly once and nothing after it |
| WideParse.Wcstol | windows-runtime-bridge/hip-unixlib/wine/unixlib.h:160-206 | For every wide string and base: the value of the longest digit run clamped to [-2^31, 2^31 - 1], and the end of the digits consumed |
| WideParse.Wcstoul | windows-runtime-bridge/hip-unixlib/wine/unixlib.h:208-251 | The same clamped to 2^32 - 1, then negated modulo 2^32 after a minus sign |
| WideParse.AccumulateLong | windows-runtime-bridge/hip-unixlib/wine/unixlib.h:194-200 | One guarded signed step: the next clamped value, no product or difference leaving 32 bits |
| WideParse.SaturatingStep | windows-runtime-bridge/hip-unixlib/wine/unixlib.h:242-245 | The guarded unsigned step on a clamped value gives the clamped next value, and saturation is absorbing |
| WideParse.ParseOfRendered | windows-runtime-bridge/hip-unixlib/wine/unixlib.h:160-251 | Any number printed in any base 2 to 36, in either case, after any blanks, sign and base mark ("0x", "0X", "0" or none) and before a non-digit, parses back to its clamped value with the end right after it |
| WideParse.JunkConsumesNothing | windows-runtime-bridge/hip-unixlib/wine/unixlib.h:160-251 | What begins with no blank, sign, letter or digit parses to 0 and consumes nothing |
| WideParse.LongIsC11Iff | windows-runtime-bridge/hip-unixlib/wine/unixlib.h:160-206 | For every string and every base 0 or 2 to 36, the signed parser returns what section 7.29.4.1.2 of ISO C11 says, value and end, iff the number is not a bare "0x" |
| WideParse.ULongIsC11Iff | windows-runtime-bridge/hip-unixlib/wine/unixlib.h:208-251 | The unsigned parser does iff in addition no minus sign stands before a number above 2^32 - 1; there it returns 1 |
| WideParse.BareHexPrefixConsumesNothing | windows-runtime-bridge/hip-unixlib/wine/unixlib.h:176-180 | On every bare "0x", spaces, sign and case included, the code consumes nothing where C11 consumes the zero |
| FlatIndex.IndexIsBijection | windows-runtime-bridge/investigations/index_overflow_probe.c:90-95 | For positive dimensions in-range coordinates map one to one onto [0, Z*H*W*C) |
| FlatIndex.LastIndex | windows-runtime-bridge/investigations/index_overflow_probe.c:198-206 | The coordinates the sweep uses are in range and map to the product minus 1 |
| FlatIndex.WrappedIsCongruent | windows-runtime-bridge/investigations/index_overflow_probe.c:90-95 | Evaluation wrapped to 32 bits after each operation is congruent to the true index modulo 2^32 |
| FlatIndex.WrappedExactIff | windows-runtime-bridge/investigations/index_overflow_probe.c:90-95 | It equals the true index iff that is a 32-bit value |
| FlatIndex.ExactIffProductFits | windows-runtime-bridge/investigations/index_overflow_probe.c:198-222 | It is exact for all in-range coordinates iff the product is at most 2^31 |
| FlatIndex.SweepVerdicts | windows-runtime-bridge/investigations/index_overflow_probe.c:211-235 | The five cases: the first three are exact, the 2^31 one included; the fourth and fifth address element -1 |
| OffloadBundle.OffloadBundleTotalSize | windows-runtime-bridge/hip-stub/src/lib.rs:263-302 | The cursor loop computes the specified size or refusal |
| OffloadBundle.TotalSizeMeans | windows-runtime-bridge/hip-stub/src/lib.rs:277-302 | On the serialisation of any entry list: the size answered covers every offset plus size and is 32 or one of these sums; it is refused iff there are more than 1000 entries, some triple is longer than 4096 bytes or some offset plus size exceeds 536870912 |
| OffloadBundle.BuildLayout | windows-runtime-bridge/hip-stub/src/lib.rs:1068-1079 | The serialisation: the 24 characters, the count, then each entry's offset, size, triple length and triple |
| OffloadBundle.BadMagicRefused | windows-runtime-bridge/hip-stub/src/lib.rs:263-268 | Bytes that do not begin with the 24 characters are refused |
| OffloadBundle.TotalSizeOfBuilt | windows-runtime-bridge/hip-stub/src/lib.rs:1068-1089 | The parser answers the largest saturated end of the entries, at least 32, or refuses |
| OffloadBundle.SizeOfEntries | windows-runtime-bridge/hip-stub/src/lib.rs:277-300 | The cursor visits the start of each serialised entry in turn |
| OffloadBundle.LargestEndIs | windows-runtime-bridge/hip-stub/src/lib.rs:291-299 | That answer is an upper bound of all ends and is attained |
| OffloadBundle.TotalSizeOrderIrrelevant | windows-runtime-bridge/hip-stub/src/lib.rs:277-300 | Permuting the entries changes neither the answer nor a refusal |
| AllocCap.Tracker.RecordAlloc | windows-runtime-bridge/hip-unixlib/alloc_cap.c:27-36 | Appends an entry and adds its size; null or a full table records nothing and adds nothing |
| AllocCap.Tracker.ReleaseAlloc | windows-runtime-bridge/hip-unixlib/alloc_cap.c:38-54 | Swap-removes the pointer's entry and returns its size, keeping the total equal to the sum over the table |
| AllocCap.ReleaseTakesOne | windows-runtime-bridge/hip-unixlib/alloc_cap.c:38-54 | A release takes exactly one entry of the pointer out and answers its size; null or an unknown pointer changes nothing |
| AllocCap.WouldExceedExactIff | windows-runtime-bridge/hip-unixlib/alloc_cap.c:19-25 | The 64-bit test means "the sum exceeds the cap" iff the sum does not wrap or its wrapped value still exceeds |
| AllocCap.TrackedNeverExceedsCap | windows-runtime-bridge/hip-unixlib/native.c:390-420 | After any run of mallocs and frees the tracked bytes respect a non-zero cap |
| AllocCap.OutstandingObeysCap | windows-runtime-bridge/hip-unixlib/native.c:390-420 | On runs where no malloc succeeds while the table is full, all outstanding bytes do |
| AllocCap.FullTableEscapesCap | windows-runtime-bridge/hip-unixlib/alloc_cap.c:27-36 | Under any cap above 4096 one-byte mallocs reach any number of outstanding bytes: the full table is not conservative |
| AllocCap.CapHoldsIffTableOutlastsIt | windows-runtime-bridge/hip-unixlib/alloc_cap.c:27-36 | The cap bounds outstanding bytes on every run iff it is at most 4096, the number of entries |
| AllocCap.ReleaseReturnsRecordedSize | windows-runtime-bridge/hip-unixlib/alloc_cap.c:38-54 | Freeing a live pointer subtracts exactly its recorded size and keeps every other entry |
| AllocCap.UnixMalloc | windows-runtime-bridge/hip-unixlib/native.c:390-410 | Refuses without asking HIP when the cap would be exceeded; otherwise passes HIP's answer on and records a success |
| AllocCap.UnixFree | windows-runtime-bridge/hip-unixlib/native.c:412-420 | Takes the entry out only if HIP freed the block |
| Registry.Dispatch | windows-runtime-bridge/hip-unixlib/native.c:496-677 | Each dispatch function has the effect and leaves the tables its specification gives |
| Registry.Tables.AddFunction | windows-runtime-bridge/hip-unixlib/registry.c:59-78 | Appends key, function and the first 127 characters of the name if there is room; a full table is unchanged |
| Registry.Tables.Find | windows-runtime-bridge/hip-unixlib/registry.c:80-112 | The scan answers the first entry for the key |
| Registry.TablesIndependent | windows-runtime-bridge/hip-unixlib/registry.c:41-112 | A call adds to a table at most its own entry for that table, and only below capacity |
| Registry.FirstRegistrationWins | windows-runtime-bridge/hip-unixlib/registry.c:51-112 | Over any run, a lookup answers what the first successful registration of the key stored |
| Registry.LaunchUsesFirstRegistration | windows-runtime-bridge/hip-unixlib/native.c:559-677 | A launch uses the function and truncated name of the first registration of its host pointer, resolved in the module first loaded for its token |
| Registry.UnregisteredNeverLaunched | windows-runtime-bridge/hip-unixlib/native.c:622-677 | A host pointer never successfully registered is never launched |
| Registry.SymbolCopyUsesFirstRegistration | windows-runtime-bridge/hip-unixlib/native.c:496-507 | A symbol copy goes to the first registered device address plus the offset |
| Registry.UnregisteredNeverWritten | windows-runtime-bridge/hip-unixlib/native.c:496-507 | A symbol never successfully registered is never written through |
| Registry.RegisteredIsUsable | windows-runtime-bridge/hip-unixlib/native.c:529-677 | With room and new keys, a bundle, kernel and variable just registered are launched and written to at the function and address HIP resolved, under the first 127 characters of the name |
| Registry.FailedRegistrationsChangeNothing | windows-runtime-bridge/hip-unixlib/native.c:529-608 | A registration that does not succeed leaves the tables alone |
| ReorderDetector.SpinPoll | windows-runtime-bridge/investigations/submission_timing_probe.c:182-208 | On return, for any values polled: resolved slots are those seen in some pass, the last index is their maximum, and the flag is set iff some slot was first seen in a later pass than a slot after it |
| ReorderDetector.OnePass | windows-runtime-bridge/investigations/submission_timing_probe.c:184-195 | One pass over the slots carries that verdict from k passes to k + 1 |
| ReorderDetector.SnapshotsNeverFlag | windows-runtime-bridge/investigations/submission_timing_probe.c:182-201 | If each pass is one snapshot of an in-order GPU the flag stays 0 |
| ReorderDetector.InOrderGpuCanBeFlagged | windows-runtime-bridge/investigations/submission_timing_probe.c:182-201 | Passes that are not snapshots can raise it for an in-order GPU |
| ReorderDetector.FlagNeedsTornPass | windows-runtime-bridge/investigations/submission_timing_probe.c:182-201 | For an in-order GPU the flag is set iff some pass read a slot unresolved before reading a later slot complete |
| CallConfig.PeShim.PushCallConfiguration | windows-runtime-bridge/hip-unixlib/pe_shim.c:134-156 | A push below depth 16 with both dimensions stores the configuration; any other fails and leaves the stack alone |
| CallConfig.PeShim.PopCallConfiguration | windows-runtime-bridge/hip-unixlib/pe_shim.c:158-179 | A pop returns the top configuration, or fails on an empty stack and changes only the error |
| CallConfig.PeShim.ReadLastError | windows-runtime-bridge/hip-unixlib/pe_shim.c:239-251 | Returns and clears the sticky error |
| CallConfig.StacksAgreeIffNoOverflow | windows-runtime-bridge/hip-stub/src/lib.rs:467-533 | The 16-deep C stack and the unbounded Rust stack answer every push and pop of a run alike iff the run never pushes onto sixteen |
| CallConfig.PopReturnsMatchingPush | windows-runtime-bridge/hip-unixlib/pe_shim.c:116-179 | In a well-nested run within the depth each pop returns its matching push and restores the stack |
| CallConfig.LastErrorIsLatestFailure | windows-runtime-bridge/hip-unixlib/pe_shim.c:239-251 | The error read is the latest failure since the previous read |
| CallConfig.StubErrorIsLatestFailure | windows-runtime-bridge/hip-stub/src/lib.rs:645-650 | In the Rust stub the error read is the latest failure of the whole run: no success and no read clears it |
| CallConfig.RustStub.PushCallConfiguration | windows-runtime-bridge/hip-stub/src/lib.rs:467-493 | A push with both dimensions appends the configuration, at any depth; any other fails and leaves the stack alone |
| CallConfig.RustStub.PopCallConfiguration | windows-runtime-bridge/hip-stub/src/lib.rs:495-533 | A pop returns and removes the last configuration, or fails on an empty stack |
| BackendSwitch.GameDirectory.BackupPresent | windows-runtime-bridge/backends/switch_backend.sh:39-49 | The loop moves exactly the listed files that are present into the store |
| BackendSwitch.GameDirectory.RestoreBackend | windows-runtime-bridge/backends/switch_backend.sh:51-66 | The loop moves back the stored files and reports missing iff a listed file is in neither place |
| BackendSwitch.GameDirectory.SwitchTo | windows-runtime-bridge/backends/switch_backend.sh:68-78 | The whole script leaves the specified layout |
| BackendSwitch.ListedFiles | windows-runtime-bridge/backends/switch_backend.sh:19-20 | The files listed for each backend |
| BackendSwitch.SwitchFile | windows-runtime-bridge/backends/switch_backend.sh:68-78 | Each listed file present anywhere ends in the game directory if it is the target's and in its store otherwise, with the game directory's copy winning |
| BackendSwitch.ConservesIffSinglePlaced | windows-runtime-bridge/backends/switch_backend.sh:39-78 | A switch keeps every copy of every listed file iff no listed file is in both places before it |
| BackendSwitch.SwitchesConserve | windows-runtime-bridge/backends/switch_backend.sh:39-78 | From such a start any sequence of switches keeps each file in one place with its contents, and the game directory holds only the last target's listed files |
| BackendSwitch.UnlistedUntouched | windows-runtime-bridge/backends/switch_backend.sh:39-66 | Files not listed are untouched in all three directories |
| BackendSwitch.SwitchIdempotent | windows-runtime-bridge/backends/switch_backend.sh:68-78 | Switching twice to the same backend is switching once |
| BackendSwitch.SwitchAwayAndBack | windows-runtime-bridge/backends/switch_backend.sh:68-78 | Switching away and back restores the layout of the first switch |

## Left out

- Sockets, logging, `dlopen`/`dlsym`, environment variables and Wine's call dispatch: input and output with no property of their own.
- Error texts: the wording comes with the HIP outcome; the models fix when an error is answered, not what it says.
- The HIP runtime: `HipContract` is what the proofs rely on; what a kernel computes is any change to live bytes.
- HipStub.Stub.RegisterFatBinary: takes the bundle its size parser delimits; telling a wrapper structure from a bundle is a raw pointer read.
- HipStub.Stub.RegisterFunction: a name of 4 GiB or more, which no compiler emits, is outside its precondition.
- What HIP does with a copy past its block: a copy in is taken to write every live byte in its way, a copy out to return any bytes; a runtime that refuses such copies is a special case.
- HipStub.Stub.CopyFromDevice: the length must keep step; `LongCopies` shows what the others do.
- Copies other than host to device and device to host, `hipMemset` and events in the stub: every branch is one constant error.
- FakeAddresses.AddressSpace.Allocate: requires that `next_base` does not wrap; `RunValidWithinBudget` gives the exact budget.
- HandleTables.HandleTable.Insert: requires that the 64-bit counter does not wrap; the atomic increment and locked map are one step.
- A second client process: the daemon serves connections one after another on the same tables, which `Daemon.DaemonProcess.HandleClient` covers from any state; `Bridge` has one client process and one connection.
- A client that never connected: it behaves as one whose connection has dropped.
- D3D12 objects, barriers and mapping, and the 30-second wait limit: a timed-out wait is a stopped run.
- OffloadBundle.OffloadBundleTotalSize: memory holds every header the loop reads before it answers or refuses (raw pointer reads beyond it have no defined result); `resolve_bundle_ptr` is not modelled.
- AllocCap.UnixMalloc: sequential; the C code takes no lock around the cap.
- AllocCap.TrackedNeverExceedsCap: live blocks together stay below 2^64 bytes, as any address space forces.
- `registry_reset` in the middle of a run, and the memory behind the stub's fat-binary tokens.
- The lazy lock initialisation in `pe_shim.c`, and floating-point event timing.
- BackendSwitch.GameDirectory.SwitchTo: a failing `mv` and files changed by another process in between are not modelled.
- The probes and clients that are straight scripts over D3D12, Vulkan, HIP or comgr.
