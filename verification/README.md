# CPU-X: a Dafny model

CPU-X shows hardware information. This project models the parts of it whose correctness is
not settled by reading one function, and proves properties of the model for all inputs, all
runs and all interleavings.

| file | what it models |
|---|---|
| `Table.dfy`, `Decoder.dfy`, `Printer.dfy` | the two-pass walk over an SMBIOS structure table, which rewrites the table while walking, against a recursive reference parse and a printer (DSP0134, sections 6.1.2 and 6.1.3) |
| `StringSet.dfy` | string numbers, in-place filtering and the type 34 length fixup |
| `Records.dfy` | records nested in one structure: types 42, 40 and 37 |
| `EntryPoint.dfy` | entry points, checksums, the crafted binary dump and reading it back (DSP0134, section 5.2) |
| `Primes.dfy`, `Benchmark.dfy` | the two primality tests and the multithreaded prime benchmark |
| `Lockstep.dfy`, `Sticks.dfy` | the packet exchange between a client and its request handler in the daemon, and the memory sticks that travel through it |
| `Server.dfy`, `ClientSocket.dfy` | handler threads, the running-threads counter and the life of descriptors on both sides |
| `Sizes.dfy`, `UnitTokens.dfy`, `Prefixes.dfy` | size arithmetic, unit tokens and prefix choice |
| `PipeFraming.dfy` | strings sent through a pipe |
| `CoreSelection.dfy` | the self-repairing selection of a CPU type and core |
| `Chunks.dfy` | aligned buffers and shuffled chunk pointers of the bandwidth tests |

## How it is modelled

Code that changes buffers or fields in place is modelled by classes and methods over arrays, each
proved equal to a function of the old state; the properties are then proved about these functions.
Threads and sockets are state machines whose steps are single accesses to shared state, single
reads or single writes; a run is any sequence of enabled steps. Integers are unbounded, and every
place where the width matters is written out: checksums and crafted bytes modulo 256, string
numbers cut to eight bits, sixteen-bit thread counts and CPU numbers, the score counter with an
arbitrary capacity. `Bytes.Peek` makes a caller show that a byte lies in a given window, so code
written with it is proved to read nothing outside that window.

Calls into code that is not modelled become parameters: which strings the printing of a structure
asks for (`Decoder.Requests`), the bound that stands for the truncated square root, the values of
the random generator, the translated unit names, the replies that a handler computes, the outcome
of every read, transfer and connect.

## Where the code does not do what one expects

Each of these is stated with the exact condition under which the expected property holds.

- Outside quiet mode the first pass does not stop at the end-of-table marker, although its comment
  says that it does "if so instructed": it tests the table's flag in the word of the options. The
  second pass still decodes a prefix of what the first visited (`Table.PrefixKept`), and the whole
  of it exactly when there is no marker to stop at (`Table.PassesAgreeIff`).
- The raw dump of a string set ends only for sets of at most 254 strings (`StringSet.DumpLoopEndsIff`,
  with an endless example in `Printer.FullDumpEndless`).
- The type 34 fixup puts five characters in front of the first string; for an empty set they become
  a string of their own (`StringSet.FixupStrings`).
- A structure whose string set starts with a lone zero byte is not what printing its contents
  gives (`Printer.PrintReadIff`).
- The device loop of type 37 starts one slot late, so it lists the second device for the first
  (`Records.ChannelShifted`), and it can read a byte past the structure (`Records.ChannelInsideIff`),
  even past the table (`Records.ChannelOverrun`).
- A dump of a 32-bit entry point of announced length 0x1E is read back only if the byte that is
  not written is zero (`EntryPoint.DumpRoundTrip`); such entry points are accepted
  (`EntryPoint.ShortDumpRefused`).
- After a failure of the table decoder the client stops reading while the handler goes on sending
  (`Lockstep.ReadsAllIff`), and some run loses the client (`Lockstep.LostIff`), whatever the next
  call is that waits for an answer (`Lockstep.FailureLosesClient`).
- Requests without a reply can still be unread when the client begins its next call
  (`Lockstep.Lockstep`).
- The timeout exit is safe as long as the sixteen-bit thread counter has not wrapped (`Server.TimeoutExit`).
- The client lists what the decoder found only for fewer than 256 memory devices, because the
  counter that is sent has eight bits (`Sticks.ReportedAllIff`, `Lockstep.DevicesListedIff`).
- The number of memory sticks starts at 255 with an empty list. When the transfer of the sticks
  fails, a selection made before stays allowed, and looking it up can go past the end of the list
  (`Sticks.AccessAfterRun`, `Sticks.BrokenTransferIff`, `Sticks.BrokenTransferFails`).
- A refused connection leaves a closed descriptor with a valid number (`ClientSocket.NeverStaleIff`).
- A sign that does not open a closed token makes the token loop run forever (`UnitTokens.EndsIffClosed`).
- A memory device without a size returns the previous text (`Sizes.TextDeterminedIff`).
- CPU numbers are unique only while the total fits sixteen bits (`CoreSelection.BijectionIff`).
- Starting the benchmark again while an earlier timer thread is at work can end in a thread being
  joined twice (`Benchmark.LaunchSafeIff`), and while an earlier worker is alive in a wrong count
  (`Benchmark.LaunchExactIff`). Both are excluded exactly when the list of compute threads is empty,
  respectively all its threads have exited; the user interfaces only look at the running flag.

## Model

| member | source | states |
|---|---|---|
| Table.ScanEndFirstPair | src/core/dmidecode/dmidecode.c:6009-6018 | the scan for the next structure ends at the first pair of zero bytes |
| Table.ParseSound | src/core/dmidecode/dmidecode.c:5988-6028 | every structure found is accepted, structures follow each other without gaps, each takes at least six bytes |
| Table.AcceptedUnique | src/core/dmidecode/dmidecode.c:6015-6022 | where an accepted structure ends is determined by where it starts |
| Table.ParseComplete | src/core/dmidecode/dmidecode.c:5988-6022 | no accepted structure starts where the parse stops |
| Table.PrefixKept | src/core/dmidecode/dmidecode.c:5944-6074 | the second pass decodes a prefix of what the first visited, for all tables, counts and flags |
| Table.FirstPassExact | src/core/dmidecode/dmidecode.c:5944-5983 | the first pass takes the reference structures in order and stops early only for the count or the marker it was told to respect |
| Table.ReportExact | src/core/dmidecode/dmidecode.c:5985-6091 | what the second pass reports follows from the structures it decoded: the count reached, where it stopped, whether on a broken or a cut structure |
| Table.PassesAgreeIff | src/core/dmidecode/dmidecode.c:5944-6074 | when both passes visit the same structures |
| Table.SecondPassExact | src/core/dmidecode/dmidecode.c:6005-6074 | where the second pass stops, relative to a first pass that ignores the end-of-table marker |
| Table.CleanIffTiled | src/core/dmidecode/dmidecode.c:6007-6091 | the checks of count, length and entries find nothing exactly when the table is made of the announced number of structures and nothing else; what that means without an announced count |
| Decoder.SilentIff | src/core/dmidecode/dmidecode.c:6005-6091 | no message at all, with the warnings about repaired lengths and cut structures, exactly when the table is tiled and nothing shown was repaired |
| Decoder.TableReader.Decode | src/core/dmidecode/dmidecode.c:5937-6092 | both passes see the reference parse of the original table although the second one rewrites it; for every decoded structure exactly the strings asked for are masked, the header is repaired as shown, and no other byte changes; all messages as the original table deserves them |
| Decoder.DecodeAllExact | src/core/dmidecode/dmidecode.c:6005-6068 | from the original and the final table alone: a decoded structure that is shown or holds the keyword has exactly the requested strings masked, every other one keeps its bytes, and so does the rest of the table |
| Decoder.MessagesExact | src/core/dmidecode/dmidecode.c:6005-6091 | which complaints are made, each with its exact condition on the table, and none in quiet mode |
| Decoder.RepairIff | src/core/dmidecode/dmidecode.c:3786-3806 | the announced length is replaced, by eleven, exactly for the faulty headers of type 34 without the no-quirks option |
| Decoder.TableReader.CollectPass | src/core/dmidecode/dmidecode.c:5942-5983 | the first pass visits what the reference parse yields under the count and marker rules |
| Decoder.TableReader.DecodePass | src/core/dmidecode/dmidecode.c:5985-6074 | the second pass decodes what the reference parse of the original table yields and masks exactly the strings asked for |
| Decoder.TableReader.DecodeAccepted | src/core/dmidecode/dmidecode.c:6042-6066 | header repair, then the requests for display or for a keyword |
| Decoder.FixupType34 | src/core/dmidecode/dmidecode.c:3792-3806 | a length of 0x10 becomes 0x0B exactly when the five bytes between are printable, with a warning if the structure is shown |
| Decoder.IsPrintable | src/core/dmidecode/dmidecode.c:111-120 | whether a range holds printable ASCII only |
| Decoder.NextStructure | src/core/dmidecode/dmidecode.c:6032-6037 | the scan loop computes the reference end |
| Decoder.DecodeOneHarmless | src/core/dmidecode/dmidecode.c:6042-6066 | decoding one structure masks non-zero bytes of its string set only, also after a header repair |
| Decoder.ParseKept | src/core/dmidecode/dmidecode.c:6005-6068 | masking the strings of one structure leaves the parse of the whole table as it was |
| Decoder.DecodeAllSafe | src/core/dmidecode/dmidecode.c:6005-6068 | after any decoding the table has the same structures, formatted areas and extents, and only string bytes were masked |
| Decoder.Disjoint | src/core/dmidecode/dmidecode.c:5988-6028 | different structures of a table do not overlap |
| Printer.ParsePrint | src/core/dmidecode/dmidecode.c:5988-6028 | parsing a printed list of structures finds exactly that list |
| Printer.PassesOnPrinted | src/core/dmidecode/dmidecode.c:5937-6091 | the first pass on a printed table, and a clean, complete second pass when the count is right |
| Printer.PrintReadIff | src/core/dmidecode/dmidecode.c:132-151 | printing what was read gives the same bytes exactly when the set does not start with a lone zero |
| StringSet.FindString | src/core/dmidecode/dmidecode.c:132-151 | the s-th string of the set or nothing, reading only inside the structure; filtering touches that string only |
| StringSet.DmiString | src/core/dmidecode/dmidecode.c:153-166 | not specified for 0, bad index past the set, otherwise the filtered s-th string |
| StringSet.AsciiFilter | src/core/dmidecode/dmidecode.c:123-130 | in-place masking of one range |
| StringSet.FilterAllExact | src/core/dmidecode/dmidecode.c:123-151 | after any requests exactly the named strings are masked and the set has the same strings otherwise |
| StringSet.MaskedText | src/core/dmidecode/dmidecode.c:123-130 | a masked text is printable, keeps its length and its printable characters, and has a dot for every other one |
| StringSet.StartsFollowZeros | src/core/dmidecode/dmidecode.c:132-144 | string boundaries depend only on which bytes are zero |
| StringSet.FixupStrings | src/core/dmidecode/dmidecode.c:3786-3806 | the string set before and after the type 34 fixup |
| StringSet.DumpStrings | src/core/dmidecode/dmidecode.c:253-280 | the raw dump lists and filters every string in order |
| StringSet.DumpExact | src/core/dmidecode/dmidecode.c:256-272 | after any number of rounds of the raw dump exactly the strings met so far are masked, at most 255 |
| StringSet.DumpLoopEndsIff | src/core/dmidecode/dmidecode.c:256-272 | the raw dump, which masks the strings it meets, ends exactly for fewer than 255 strings |
| Printer.FullDumpEndless | src/core/dmidecode/dmidecode.c:256-272 | an accepted structure whose dump never ends |
| Records.ParseController | src/core/dmidecode/dmidecode.c:4322-4544 | which outcome a host interface has, its device data, and that its records are the reference walk; all reads inside the structure |
| Records.ReadDevice | src/core/dmidecode/dmidecode.c:4363-4476 | the device data by type, reading no byte outside the announced size |
| Records.DeviceRoundTrip | src/core/dmidecode/dmidecode.c:4363-4476 | stored device data is shown as it was stored |
| Records.DeviceShownIff | src/core/dmidecode/dmidecode.c:4363-4476 | a device is shown exactly when its type is known and its layout fits the announced size |
| Records.WalkProtocols | src/core/dmidecode/dmidecode.c:4498-4543 | the record loop with its running total computes the reference walk, the early length byte included in the structure |
| Records.ProtocolsTile | src/core/dmidecode/dmidecode.c:4506-4542 | records are contiguous, in order, inside the structure, and the walk stops early only where the next one would not fit |
| Records.TilesOrdered | src/core/dmidecode/dmidecode.c:4506-4542 | records that tile a range are disjoint and ordered |
| Records.ProtocolsRoundTrip | src/core/dmidecode/dmidecode.c:4506-4542 | stored records that fit are all found, with identifier and payload |
| Records.ParseProtocol | src/core/dmidecode/dmidecode.c:4146-4279 | a Redfish record of sufficient length is decoded by its layout, service identifier, port and VLAN included, reading only inside the record |
| Records.RedfishRoundTrip | src/core/dmidecode/dmidecode.c:4146-4279 | a stored Redfish record is shown as it was stored, with port and VLAN exactly for the assignments that have them |
| Records.HostnameShownIff | src/core/dmidecode/dmidecode.c:4262-4279 | the host name is shown exactly when its announced length fits the record |
| Records.ReadUuid | src/core/dmidecode/dmidecode.c:543-585 | an identifier is not present, not settable, or shown in its byte order |
| Records.UuidInjective | src/core/dmidecode/dmidecode.c:543-585 | different identifiers are shown differently |
| Records.ParseAdditional | src/core/dmidecode/dmidecode.c:4005-4047 | the entry loop computes the reference walk although it masks strings meanwhile; all entry bytes come from the formatted area |
| Records.EntriesTile | src/core/dmidecode/dmidecode.c:4005-4047 | entries are contiguous, inside the formatted area, and the walk stops early only where no entry fits |
| Records.EntriesRoundTrip | src/core/dmidecode/dmidecode.c:4005-4047 | stored entries are all found, with handle, offset, string number and value |
| Records.ListChannel | src/core/dmidecode/dmidecode.c:5518-5528 | the device loop lists the slots from the second on, and whether it needs bytes after the table |
| Records.ChannelShifted | src/core/dmidecode/dmidecode.c:3867-3882 | of the stored devices, the one listed at a position is the next one |
| Records.ChannelInsideIff | src/core/dmidecode/dmidecode.c:3867-3882 | when all reads of the device loop lie in the accepted structure |
| Records.ChannelOverrun | src/core/dmidecode/dmidecode.c:3867-3882 | an accepted structure for which a byte after the table is read |
| EntryPoint.Checksum | src/core/dmidecode/util.c:79-87 | the eight-bit sum is zero |
| EntryPoint.OverwriteDmiAddress | src/core/dmidecode/dmidecode.c:6165-6172 | the table address becomes 32, only the checksum byte changes besides, and every checksum over both stays as right as it was |
| EntryPoint.OverwriteSmbios3Address | src/core/dmidecode/dmidecode.c:6175-6187 | the same for a 64-bit entry point |
| EntryPoint.OverwriteDmiSum | src/core/dmidecode/dmidecode.c:6159-6172 | every checksum over the checksum byte and the address keeps its validity |
| EntryPoint.OverwriteSmbios3Sum | src/core/dmidecode/dmidecode.c:6174-6187 | the same for 64-bit entry points |
| EntryPoint.TableDump | src/core/dmidecode/dmidecode.c:5876-5930 | the file written, and failure exactly for an empty table or a failing step |
| EntryPoint.MyRead | src/core/dmidecode/util.c:50-77 | for any short or interrupted reads the buffer is filled with the right bytes or the call fails for a reason |
| EntryPoint.ReadFile | src/core/dmidecode/util.c:98-150 | offset, trimming at the end of the file and contents, and why a read fails, for any failing steps |
| EntryPoint.ReadDump | src/core/dmidecode/dmidecode.c:6524-6560 | reading a dump finds an entry point exactly when its first 32 bytes hold a sound one and the reads work, and the table it points to, or fails for a reason |
| EntryPoint.AcceptedIff | src/core/dmidecode/dmidecode.c:6189-6371 | an entry point is accepted exactly when it has an anchor, an admissible length inside the buffer and checksums that add up to zero, for all three kinds |
| EntryPoint.DamageRefused | src/core/dmidecode/dmidecode.c:6204-6354 | after a change of any one covered byte outside anchor and length an accepted entry point is refused |
| EntryPoint.DumpRoundTrip | src/core/dmidecode/dmidecode.c:6189-6385 | a dump is read back with the same table, count, size and version exactly when its entry point survives |
| EntryPoint.SmbiosSurvives | src/core/dmidecode/dmidecode.c:6271-6328 | the 32-bit case of the round trip, with both checksums |
| EntryPoint.ShortDumpRefused | src/core/dmidecode/dmidecode.c:6271-6328 | a family of accepted entry points whose dumps are refused |
| EntryPoint.Smbios3RoundTrip | src/core/dmidecode/dmidecode.c:6189-6246 | a 64-bit entry point printed from its fields is accepted with these fields |
| EntryPoint.SmbiosRoundTrip | src/core/dmidecode/dmidecode.c:6271-6328 | a 32-bit entry point printed from its fields is accepted with these fields, its version corrected where the quirks say so |
| EntryPoint.LegacyRoundTrip | src/core/dmidecode/dmidecode.c:6330-6371 | a legacy entry point printed from its fields is accepted with these fields |
| Primes.SlowTest | src/core/benchmarks.cpp:47-53 | the slow test decides primality |
| Primes.FastTest | src/core/benchmarks.cpp:47-53 | the fast test decides primality for every admissible bound |
| Primes.FastRightIff | src/core/benchmarks.cpp:49-52 | for which bounds the fast test is right |
| Primes.SmallDivisor | src/core/benchmarks.cpp:48-50 | a composite number has a divisor up to its square root |
| Primes.ModesAgree | src/core/benchmarks.cpp:47-53 | both modes agree on every candidate |
| Benchmark.StepKeepsInv | src/core/benchmarks.cpp:37-152 | every step of every thread keeps the counting and the joining invariant |
| Benchmark.ScoreDuringRun | src/core/benchmarks.cpp:42-54 | over any number of launches, each after the timers have finished: counted primes plus primes in hand equal the number of primes up to the last candidate, and no thread is joined twice |
| Benchmark.DrawnExactlyOnce | src/core/benchmarks.cpp:44-45 | every candidate from 3 on is drawn once, by one thread |
| Benchmark.FinalScore | src/core/benchmarks.cpp:74-81 | after all threads have been joined the score is the prime count until the next launch |
| Benchmark.EndedWhileJoining | src/core/benchmarks.cpp:58-88 | over careful runs, a timer that joins or has finished last has cleared the running flag, because the time was up or the user stopped the run |
| Benchmark.TimersFinish | src/core/benchmarks.cpp:58-88 | from every reachable state there is a run without a launch or a stop by the user after which all timers have finished, no worker is alive and the score is the prime count |
| Benchmark.LaunchSafeIff | src/core/benchmarks.cpp:115-152 | starting again can never end in a double join exactly if the earlier timers have finished, which is when there are no compute threads |
| Benchmark.LaunchExactIff | src/core/benchmarks.cpp:131-136 | the next count is sure to be right exactly if no earlier worker is alive |
| Benchmark.EarlyLaunchUnsafe | src/core/benchmarks.cpp:74-81 | with an unfinished timer, a run from the next launch to a double join |
| Benchmark.EarlyLaunchInexact | src/core/benchmarks.cpp:131-136 | with a worker alive, a run from the next launch to a wrong count |
| Lockstep.Lockstep | src/daemon/server.cpp:76-274 | no party is lost, queues are empty between calls once the handler has caught up, every call gets the reply computed for it |
| Lockstep.StepKeepsInv | src/daemon/server.cpp:235-274 | every read and write of either party keeps the protocol invariant |
| Lockstep.RequestShape | src/core/libcpuid.cpp:34-46 | the packets of a request are those its handler reads, in order |
| Lockstep.RequestUnderstood | src/daemon/server.cpp:60-233 | the packets that a handler understands as a call are exactly its request: the command with core, count or module name |
| Lockstep.RequestInjective | src/core/libcpuid.cpp:318-372 | equal requests come from equal calls |
| Lockstep.HeardAsIssued | src/daemon/server.cpp:245-274 | over all runs, the packets the handler read for its j-th answer say what the j-th call asked |
| Lockstep.NoDeadlock | src/daemon/server.cpp:245-274 | while a call or a request is unfinished one of the parties can go on |
| Lockstep.StepsUsedUp | src/daemon/server.cpp:245-274 | every step but the start of a call uses up a measure, so a call cannot go on for ever |
| Lockstep.EveryCallCanReturn | src/daemon/server.cpp:245-274 | from every state reached without a failure, the calls begun can all be completed, each with the reply computed for it |
| Lockstep.ReplyShape | src/core/dmidecode/libdmidecode.cpp:43-80 | each reply packet is the one the client reads next, and the client stops with the last |
| Lockstep.ReadsAllIff | src/core/dmidecode/libdmidecode.cpp:53-55 | a call reads its whole reply exactly when the decoder reported success |
| Lockstep.ClientReadsKeepsInv | src/core/libcpuid.cpp:318-372 | a client read finds the expected packet |
| Lockstep.HandlerReadsKeepsInv | src/daemon/server.cpp:210-233 | a handler read finds the expected packet, and a complete request is answered to the call that waits |
| Lockstep.LostIff | src/core/dmidecode/libdmidecode.cpp:53-55 | with a given answer of the table decoder, some run loses the client exactly if it reports a failure |
| Lockstep.FailureLosesClient | src/core/dmidecode/libdmidecode.cpp:53-55 | after any failed answer, any next call that waits for an answer can be lost |
| Lockstep.DevicesListedIff | src/core/dmidecode/libdmidecode.cpp:75-118 | through any interleaving, after its one table decoder call the client lists the decoder's memory devices in order, exactly if there are fewer than 256 |
| Lockstep.DevicesArrive | src/core/dmidecode/libdmidecode.cpp:43-118 | whatever the decoder reports for its devices, a run brings it to the client, which lists exactly that |
| Lockstep.LaterCallListed | src/core/dmidecode/libdmidecode.cpp:75-118 | the same for the last of several calls, when the list also has to be empty before |
| Sticks.DecoderData.AddDevice | src/core/dmidecode/dmidecode.c:5774-5784 | what is sent after one more device, with the wrapping counter |
| Sticks.ReportedLastRound | src/core/dmidecode/dmidecode.c:5774-5784 | the sticks that are sent are the devices after the last full round of the counter |
| Sticks.ReportedAllIff | src/core/dmidecode/dmidecode.c:5774-5784 | all devices are sent exactly when there are fewer than 256 |
| Sticks.MemoryTab.ReceiveSticks | src/core/dmidecode/libdmidecode.cpp:75-118 | the list after the messages that arrive, also when a transfer fails, and the number of sticks |
| Sticks.FieldsShown | src/core/dmidecode/libdmidecode.cpp:81-88 | each text of a message goes to its own field of the stick |
| Sticks.MemoryTab.GetSelectedStick | src/data.cpp:503-519 | when looking up the selected stick finds one, told by the state before |
| Sticks.AccessAfterRun | src/options.cpp:263-295 | in every run from the program's start: after a completed transfer the lookup always succeeds, and before that exactly when it does |
| Sticks.BrokenTransferIff | src/data.cpp:509-519 | a stick selected at the start, then a transfer that breaks off: when the lookup goes wrong |
| Sticks.BrokenTransferFails | src/data.cpp:509-519 | an input for which it does |
| Sticks.ListFreshIff | src/core/dmidecode/libdmidecode.cpp:77-88 | the client lists just what was sent exactly when its list was empty before |
| Sticks.StaleTextIff | src/core/dmidecode/libdmidecode.cpp:89-116 | when a message written over another stick, which takes a second call, hides everything of it |
| Sticks.FreshTexts | src/core/dmidecode/libdmidecode.cpp:89-116 | speed and voltage texts are the parts that were sent, separated, in order |
| Server.StepKeepsInv | src/daemon/server.cpp:235-274 | mutex, counter and descriptor invariants survive every step of every thread |
| Server.CounterWhenFree | src/daemon/server.cpp:370-377 | with the mutex free the counter is the number of handlers not cleaned up |
| Server.NoUnderflow | src/daemon/server.cpp:235-242 | the decrement never underflows |
| Server.TimeoutExit | src/daemon/server.cpp:356-364 | when a timeout ends the daemon, and that no connection is open then |
| Server.ClosedExactlyOnce | src/daemon/daemon.h:29-56 | every accepted connection is closed at most once, and exactly once when its handler is gone |
| Server.CloseOwn | src/daemon/server.cpp:235-242 | a handler closes its own connection and no other |
| Server.NoDeadlock | src/daemon/server.cpp:235-274 | while work is left some thread can go on, so the mutex is never waited for in vain |
| Server.DaemonCanRest | src/daemon/server.cpp:235-379 | from every reachable state the handlers can finish: no connection is open, each one has been closed once, the counter is zero and the next timeout ends the daemon |
| ClientSocket.Client.Call | src/daemon/daemon.h:27-56 | the transfers of a guarded call up to the first failure; when it succeeds |
| ClientSocket.ClosedOnceAfterConnect | src/daemon/daemon.h:27-56 | after a successful connect the descriptor is closed once, by the first failed transfer, and never touched again |
| ClientSocket.OpenOrClosedOnce | src/daemon/client.cpp:216-240 | over all calls a descriptor is still open or has been closed once, also when the connection was refused |
| ClientSocket.NeverStaleIff | src/daemon/client.cpp:216-240 | no call uses a closed descriptor exactly when the connection was not refused |
| Sizes.MemorySize | src/core/dmidecode/dmidecode.c:325-366 | the group loop yields the size shifted to the chosen base |
| Sizes.CapacityExact | src/core/dmidecode/dmidecode.c:334-364 | the number is the size rounded down in its unit, below 2^20, with less than a 1024th cut off, exact when no lower group is set |
| Sizes.DenotesAmount | src/core/dmidecode/dmidecode.c:334-364 | the unit printed for a rank weighs what the rank stands for |
| Sizes.DeviceSizeExact | src/core/dmidecode/dmidecode.c:2871-2889 | a memory device size denotes the bytes its code stands for: mebibytes with bit 15 clear, kibibytes with it set |
| Sizes.ExtendedSizeExact | src/core/dmidecode/dmidecode.c:2906-2924 | an extended size denotes its mebibytes in the greatest unit that needs no rounding |
| Sizes.RuntimeSizeExact | src/core/dmidecode/dmidecode.c:411-421 | a runtime size denotes its bytes, in kibibytes exactly when they are whole |
| Sizes.RomSizeExact | src/core/dmidecode/dmidecode.c:437-450 | a ROM size denotes 64 KiB blocks, or the mebibytes or gibibytes of the extended code; other codes have no unit |
| Sizes.TextFits | src/core/dmidecode/dmidecode.c:411-421 | a size text is never cut by its buffer |
| Sizes.DecimalValue | src/core/dmidecode/dmidecode.c:365-365 | the digits denote the number |
| Sizes.Shown | src/util.cpp:169-231 | what the client shows for a size |
| Sizes.RomFieldShown | src/core/dmidecode/dmidecode.c:5755-5757 | a field of two joined sizes is translated in both places |
| Sizes.DeviceSizeBuffer.SizeText | src/core/dmidecode/dmidecode.c:2871-2889 | the text returned and kept in the static buffer |
| Sizes.TextDeterminedIff | src/core/dmidecode/dmidecode.c:2875-2878 | the text depends on the code alone exactly when there is a size |
| UnitTokens.SetSizeUnit | src/util.cpp:169-231 | the loop computes the translation |
| UnitTokens.TranslateRendered | src/util.cpp:169-231 | each token is replaced by its unit, everything else is kept in order |
| UnitTokens.TranslateSegments | src/util.cpp:169-231 | any text split into tokens and ordinary characters is translated piece by piece, whatever the names |
| UnitTokens.NoSignLeft | src/util.cpp:181-228 | no sign is left |
| UnitTokens.EndsIffClosed | src/util.cpp:181-228 | the loop ends exactly when the text consists of ordinary characters and closed tokens |
| Prefixes.PrefixUnit.FindBestPrefix | src/util.cpp:48-94 | the divisor is the largest one possible and the prefix keeps the quantity |
| Prefixes.DivisorsMultiply | src/util.cpp:53-75 | weights of ranks multiply, in both tables |
| Prefixes.DivisorTable | src/util.cpp:53-75 | powers of 1000 are SI and powers of 1024 are not |
| PipeFraming.Pipe.WriteString | src/util.cpp:268-274 | behind what was in the pipe one read finds the string, and a queue of strings gets one more at its end |
| PipeFraming.Pipe.ReadString | src/util.cpp:277-304 | the string read and what is left in the pipe |
| PipeFraming.FramesRoundTrip | src/util.cpp:268-304 | any list of strings is read as it was written |
| PipeFraming.CutStringPadded | src/util.cpp:277-304 | a string cut off by the end of the pipe is read padded with blanks |
| PipeFraming.NothingWritten | src/util.cpp:277-288 | an empty pipe yields empty strings |
| CoreSelection.Options.SetSelectedType | src/options.cpp:221-231 | an existing type is selected with its first core, another one resets the type; nothing else changes |
| CoreSelection.Options.SetSelectedCore | src/options.cpp:367-378 | the core becomes the selected one exactly when it exists or no counts are known, else core 0 does |
| CoreSelection.Options.GetSelectedCore | src/options.cpp:380-384 | a selection in range is read unchanged, another one is repaired into range |
| CoreSelection.Options.GetSelectedCoreId | src/options.cpp:346-359 | the sixteen-bit CPU number of the repaired selection |
| CoreSelection.Options.SetNumTypes | src/options.cpp:211-219 | all core counts become unknown, the selection stays, and the processor counts as identified |
| CoreSelection.Options.SetNumCores | src/options.cpp:361-365 | the count of one type is set, once there are counts, and nothing else |
| CoreSelection.ReadInRange | src/options.cpp:331-384 | what is read is in range whatever was stored |
| CoreSelection.ObservedInRange | src/options.cpp:199-384 | after any operations the observed type, core and CPU number are in range |
| CoreSelection.ValidKept | src/options.cpp:199-384 | every operation keeps counts and types consistent |
| CoreSelection.BijectionIff | src/options.cpp:346-359 | type and core pairs correspond one to one to CPU numbers exactly when the total fits sixteen bits |
| CoreSelection.NumberingOrder | src/options.cpp:346-359 | CPU numbers start at zero and go up by one through the cores of a type and on to the next type |
| Chunks.ShuffledChunks | src/core/bandwidth/TestingX86.c:191-223 | the pointer array is a permutation of the chunk starts for any random values |
| Chunks.EveryOrderPossible | src/core/bandwidth/TestingX86.c:211-223 | some random values give any order of the chunks |
| Chunks.ChunksDisjoint | src/core/bandwidth/TestingX86.c:202-223 | shuffled chunks are disjoint and inside the buffer |
| Chunks.AlignedInside | src/core/bandwidth/TestingX86.c:169-189 | the aligned buffer lies inside the allocated block |
| Chunks.Touch | src/core/bandwidth/TestingX86.c:509-516 | every touch lies inside the buffer and every page of it is touched |

## Left out

- Printing, labels, the code-to-string tables and `dmioem.c`: each case is settled by reading it.
- The vendor and CPUID type that the first pass remembers: they only choose among printing tables.
- The per-field extraction of `dmi_decode_cpux`: only which strings it asks for matters to the table, and any choice is allowed.
- Probing of sysfs, EFI and memory ranges: table and entry point are inputs, and the size thresholds of these sources are not part of the model.
- What a failed write leaves in a dump file: only the failure is modelled.
- Packet payloads and sizes in the daemon exchange: a packet is a constructor with its fields, and reading a packet of another kind counts as being lost.
- The translation of a stick's size text: a parameter of the stick list; `Sizes` and `UnitTokens` treat it. Other texts are untranslated.
- The architecture test before MSR calls and the module test before loading: such calls are simply not made.
- The wrap of the benchmark's 64-bit candidate counter after 2^64 draws, and a change of mode between or during runs: the other mode has counters of its own.
- The plain, non-atomic fields of the benchmark: they are read and written atomically here, a timer's look at time and flag is one step, and so is its look at a thread with the join.
- The destructor of the benchmark data at program exit.
- Failures of poll and accept, and the file descriptors other than those of connections.
- Core affinity, logging and the other settings of `Options`: no property spans them.
- The sequential and random access routines of the bandwidth tests, which are assembly code.
- Floating point: the square root is any admissible bound, and averages are not modelled.
