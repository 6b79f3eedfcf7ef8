# hpav tools: a verified model

A Dafny model of a small HomePlug AV tool set: the IEEE 1901-2010 management-frame codec, the event
registry with its two threads, the `hpav-stats` program with its timed request protocol, the
`loop-mm-types` sweep, and the Python wrapper around `hpav-stats`. `dafny verify dfyconfig.toml`
checks everything.

## What is modelled

**Codec** (`codec.dfy`, `sender.dfy`, `records.dfy`; theorems in `codec_theorems.dfy`,
`roundtrip.dfy`). The dispatcher, the four confirm decoders, the registrations and the sender work on
bytes with a cursor and the C arithmetic of the sources: an `int remaining_size` compared as
`size_t`, on a 64-bit little-endian target. They are proved to produce exactly what a cursor-free
description, `Outcome`, says, and the theorems are about that description: which records are read,
that the discover list is the grammar "count, stations, count, networks", that padding is never read
as a record, that records lie inside the frame, that registrations do not interfere, and that every
list of records comes back from frame and decoder.

**Event registry** (`registry.dfy`, `registry_model.dfy`, `registry_threads.dfy`,
`registry_cancel.dfy`, `registry_safety.dfy`, `registry_teardown.dfy`, `registry_delivered.dfy`,
`registry_refinement.dfy`, `registry_ids.dfy`). The intrusive list is modelled as
heap nodes with `le_next` and a back link. Each operation is proved to take one step of a value-level
registry, and over all histories ids are ordered, cancelling is exact and events are conserved. A
second model interleaves the statements of the scheduling thread and of the event thread; it shows
that runs are safe unless an event is cancelled while its one-shot proxy runs, that no run gets past
such a cancel, that cancelling is safe exactly if no live one-shot event has the id, so that cancelling
delivered ids is always safe, and that the teardown returns exactly if it does not interrupt a callback.
Every interleaving of the second model without overlap has the list and the frees of a history of the
value-level registry. A third model shows exactly when ids drawn outside the lock are unique.

**hpav-stats** (`address_text.dfy`, `stats_options.dfy`, `request_plan.dfy`, `plan_theorems.dfy`,
`stats_receiver.dfy`, `confirm_printing.dfy`, `link_protocol.dfy`, `link_timing.dfy`). Options are folded
into a configuration, a configuration has a plan of requests, sleeps and a phase switch, and `main` is
proved to carry out that plan. What a station sends is proved to be printed whole. A link-stats confirm tells neither its direction nor its link: the request id
carries the link, and the direction is read from a shared phase variable when the confirm arrives. The
protocol is a labelled transition system with a clock, and the main theorem gives, for every
configuration, exactly the delay of confirms up to which all runs attribute all of them rightly.

**Wrapper** (`section_numbers.dfy`, `listings.dfy`, `stats_wrapper.dfy`, `stats_report.dfy`,
`stats_comparison.dfy`, `link_conservation.dfy`, `wrapper_run.dfy`). Section names are proved not to
collide, the partition and the grouping neither lose nor add a section whatever order the dictionary is
listed in, and the comparison of two stations is a left outer join of the counters they sent.
`LinkConservation.EndToEnd` joins it all: from a run of the protocol to what the wrapper returns,
request by request; `WrapperRun.LinkStatsReturns` says what that means for the wrapper's own call.

**loop-mm-types** (`operation_select.dfy`). The four option counters and the nested sweep.

## Departures from the evident intent

The model does what the code does. Where that is not what the code or its documentation means, a lemma
says exactly when the two agree:

- The discover-list decoder answers `EXIT_FAILURE` after a complete parse (`DiscoverAlwaysFails`).
- The category filter swaps the bytes of `mmtype` (`FilterAsMeant`, `VendorTypePasses`); no type that
  has a decoder is affected (`ServedTypesPass`).
- The length announced to the link-stats callback is wrong for frames over 2 GiB
  (`LinkStatsLengthInFrame`; `LinkStatsLengthLeavesFrame` is the shortest such frame).
- `events_schedule_single_shot` swaps two arguments: the event is one-shot exactly if no id is wanted,
  and the id is never delivered (`EventRegistry.ScheduleSingleShot`).
- After `event_new` fails, the rollback faults, in event_del and again through the null back link
  (`RegistryModel.FaultsExactly`, `EventRegistry.Context.Destroy`).
- The id counter wraps around after 2^64 ids (`UniqueIdsExactly`) and is bumped outside the lock
  (`RegistryIds.UniqueExactly`).
- Cancelling is safe exactly if no live one-shot event has the id (`CancelSafeExactly`). If its proxy is
  running, the call faults or stays in event_del for ever (`OverlapIsFatal`).
- `events_teardown` cancels and joins the event thread and then calls event_del on every event. If the
  thread was inside a callback, event_del waits for ever for that callback to end, so the teardown
  returns exactly if it does not interrupt one (`RegistryTeardown.ReturnsExactly`, `TeardownCanHang`).
- By default lids 0 to 4 are queried, not 0 to 3 (`LidsAsDocumented`).
- `gap * 2` and `gap * 5` are computed in 32 bits (`WithinTwoGaps`, `WithinFiveGaps`).
- Options that wrap a counter switch their operation off (`EnabledAsSelectedExactly`,
  `WrapDisablesRequest`).

## Model

| member | source | states |
|---|---|---|
| Codec.Context.constructor | src/ieee1901-2010.c:15-23 | a fresh context has no callback |
| Codec.Context.Register | src/ieee1901-2010.c:237-309 | replaces exactly one slot, a null function clears it, a null context is refused |
| Codec.Context.HandleMessage | src/ieee1901-2010.c:25-74 | result and callbacks are those of `Outcome` on the first `len` bytes; null arguments are refused; registrations stay |
| Codec.Context.RecordList | src/ieee1901-2010.c:123-139 | reads the records that fit, in order; cursor plus `remaining_size` is constant and never negative |
| Codec.Context.DiscoverListConfirm | src/ieee1901-2010.c:108-164 | both lists as `DiscoverOutcome` parses them |
| Codec.Context.CountedConfirm | src/ieee1901-2010.c:166-235 | records and result of the counted list as `CountedOutcome` parses it; which lists succeed is exact in `CodecTheorems.AnsweredExactly` |
| Codec.Context.LinkStatsConfirm | src/ieee1901-2010.c:76-105 | the one callback with head, rest and announced length of `LinkStatsOutcome` |
| Codec.RemainingBounds | src/ieee1901-2010.c:80 | the length as an `int` is never too large and negative only for frames over 2 GiB |
| Codec.ExactArithmetic | src/ieee1901-2010.c:128-137 | comparing and subtracting sizes in mixed signedness is exact while `remaining_size` is not negative |
| CodecTheorems.RecordsShape | src/ieee1901-2010.c:123-139 | as many records as fit; complete exactly if all n do |
| CodecTheorems.RecordAt | src/ieee1901-2010.c:123-139 | the i-th record is the i-th slice of the frame |
| CodecTheorems.DiscoverGrammar | src/ieee1901-2010.c:108-164 | a parse is complete with two lists if and only if the body starts with their encoding |
| CodecTheorems.DiscoverReads | src/ieee1901-2010.c:108-164 | for frames of any length: min(n, floor((end-20)/12)) stations, then, if those were all, min(m, floor(rest/13)) networks, in order, where `end` is the real end unless the length does not fit an `int` |
| CodecTheorems.DiscoverCalls | src/ieee1901-2010.c:125-161 | each callback gets exactly its own list, with the sender's address |
| CodecTheorems.DiscoverAlwaysFails | src/ieee1901-2010.c:163 | with a callback registered a discover list is never answered with success |
| CodecTheorems.EndExactly | src/ieee1901-2010.c:112 | where a decoder takes a frame to end: behind the length modulo 2^32, or behind the header if that is 2^31 or more |
| CodecTheorems.AnsweredExactly | src/ieee1901-2010.c:25-235 | for every frame of every type and length and all registrations: success if and only if the header bytes pass, no discover-list callback is registered for a discover list, and the count and all its records, or a link-stats receive field, fit wherever a callback is registered |
| CodecTheorems.CountedReads | src/ieee1901-2010.c:117-235 | for records of any size: min(n, floor(room/size)) of them, in order; complete if and only if that is n |
| CodecTheorems.ParseOfCounted | src/ieee1901-2010.c:166-235 | parsing an encoded list gives the list, whatever follows |
| CodecTheorems.CountedOfParse | src/ieee1901-2010.c:166-235 | the bytes consumed by a complete parse are the encoding of its records |
| CodecTheorems.PaddingExactly | src/ieee1901-2010.c:76-235 | for frames of any type and length: the calls made stay a prefix when bytes are appended if and only if every record reported lies before the end the decoder takes the longer frame to have, and a link-stats callback was not called; lists complete by then give the same outcome |
| CodecTheorems.PaddingInsensitive | src/ieee1901-2010.c:76-235 | for lengths that fit an `int`: padding harms no list frame and leaves complete lists alone; one byte of it changes what a link-stats callback sees if and only if the frame had at least 55 bytes |
| CodecTheorems.LinkStatsSeesPadding | src/ieee1901-2010.c:76-105 | the link-stats callback gets appended bytes as part of its payload |
| CodecTheorems.RecordsInFrame | src/ieee1901-2010.c:108-235 | for frames of any length each record has its size and lies inside the frame |
| CodecTheorems.LinkStatsLengthInFrame | src/ieee1901-2010.c:80-101 | the announced length stays inside the frame if and only if the length modulo 2^32 is below 0x80000002 |
| CodecTheorems.LinkStatsLengthLeavesFrame | src/ieee1901-2010.c:80-101 | the shortest frame for which it does not: nearly 2^64 bytes are announced |
| CodecTheorems.RegistrationsDoNotInterfere | src/ieee1901-2010.c:47-71 | what a slot's callback sees depends only on that slot's own registration history |
| CodecTheorems.FilterAsMeant | src/ieee1901-2010.c:38-40 | exactly which types the byte-swapped filter classifies as meant |
| CodecTheorems.VendorTypePasses | src/ieee1901-2010.c:38-40 | a vendor-specific type passes the filter |
| CodecTheorems.ServedTypesPass | src/ieee1901-2010.c:38-71 | no type with a decoder is filtered out |
| Sender.FillHeader | src/ieee1901-2010.c:324-338 | the frame buffer holds the header and zeros |
| Sender.MessageSend | src/ieee1901-2010.c:311-371 | emits header, payload and zeros up to 60 bytes, once; refuses a missing or oversized payload without sending |
| Sender.FrameSize | src/ieee1901-2010.c:340-370 | frames have max(60, 19+len) bytes and fit the receivers' buffer exactly if the payload is within the limit |
| Sender.TypeAndOperRecovered | src/ieee1901-2010.c:334 | type and operation are recovered from the combined `mmtype` if and only if the type is a multiple of 4 |
| Sender.OrBitwise | src/ieee1901-2010.c:334 | for every type, multiple of 4 or not, each bit of the combined `mmtype` is set if and only if it is set in type or operation |
| Sender.TypeAndOperUnique | include/ieee1901-2010.h:8-18 | two sends with the same `mmtype` have the same type and operation |
| Sender.HeaderReadBack | src/ieee1901-2010.c:324-338 | the dispatcher reads back addresses, type and operation of an emitted frame |
| Records.StationLayout | include/ieee1901-2010.h:297-315 | every field of a station record at its byte |
| Records.NetworkLayout | include/ieee1901-2010.h:317-328 | every field of a network record at its byte |
| Records.NwInfoLayout | include/ieee1901-2010.h:330-341 | every field of a network-info record at its byte |
| Records.StatsLayout | include/ieee1901-2010.h:343-350 | every field of a network-stats record at its byte |
| Records.StationRoundTrip | include/ieee1901-2010.h:297-315 | station records and 12-byte strings correspond one to one |
| Records.NetworkRoundTrip | include/ieee1901-2010.h:317-328 | network records and 13-byte strings correspond one to one |
| Records.NwInfoRoundTrip | include/ieee1901-2010.h:330-341 | decoding undoes encoding; bytes come back if and only if the unused bits are zero |
| Records.StatsRoundTrip | include/ieee1901-2010.h:343-350 | network-stats records and 8-byte strings correspond one to one |
| RoundTrip.DiscoverListRoundTrip | src/ieee1901-2010.c:108-164 | every two lists that fit, framed and dispatched, reach the callbacks exactly, in order |
| RoundTrip.NwInfoRoundTripFrame | src/ieee1901-2010.c:202-235 | the same for network-info lists, with success |
| RoundTrip.NwStatsRoundTripFrame | src/ieee1901-2010.c:166-200 | the same for network-stats lists, with success |
| RoundTrip.LinkStatsRoundTripFrame | src/ieee1901-2010.c:76-105 | head and field arrive for every field that fits, however short, filled with zeros up to 39 bytes |
| RegistryModel.IdsOrdered | src/events.c:121-261 | over every history ids fall strictly from the head and lie below the count of ids drawn |
| RegistryModel.CancelIsExact | src/events.c:239-261 | cancel removes the one event with the id, keeps the rest in order, and fails if and only if the id is not live |
| RegistryModel.EventsConserved | src/events.c:109-175 | every drawn id belongs to one event, live or freed once |
| RegistryModel.TeardownFreesAll | src/events.c:70-85 | after teardown nothing is live and every event was freed exactly once |
| RegistryModel.ScheduleAnswers | src/events.c:121-230 | ENOMEM, EINVAL or 0, and only a completed schedule adds to the list, in front, of the kind asked for |
| RegistryModel.FiringExactly | src/events.c:87-107 | firing destroys exactly a one-shot event and frees it; after any other callback nothing has changed |
| RegistryModel.PeriodicEndsExactly | src/events.c:95-107 | one operation takes an event that is no one-shot off the list if and only if it is the teardown or a cancel of its id |
| RegistryModel.PeriodicLivesExactly | src/events.c:87-261 | over every history: such an event, once live, is live if and only if there has been neither since, whatever fired |
| RegistryModel.FaultsExactly | src/events.c:151-172 | a history faults if and only if `event_new` failed in it; that such a step faults is derived in `EventRegistry.Context.Schedule` |
| RegistryModel.UniqueIdsExactly | src/events.c:145 | over the number n of ids drawn: all histories that draw n keep live ids different if and only if n is at most 2^64 |
| RegistryModel.IdsCollide | src/events.c:145 | the witness: with 2^64 + 1 ids two live events share one and a cancelled id stays live |
| EventRegistry.Context.constructor | include/events.h:37-41 | an empty, well-formed list and a counter at zero |
| EventRegistry.Context.InsertHead | src/events.c:158 | the list is well formed and has the node in front |
| EventRegistry.Context.Remove | src/events.c:115 | unlinking through the back link removes exactly this node; a node that was never inserted has a null back link, and the last store faults |
| EventRegistry.Context.Destroy | src/events.c:109-119 | takes the unlink step and frees the node; for a node never inserted it faults, in event_del or, were that tolerant of null, in LIST_REMOVE |
| EventRegistry.Context.Schedule | src/events.c:121-230 | takes the schedule step for every way the library calls can fail; a failing `event_add` leaves the list as it was |
| EventRegistry.Context.Arm | src/events.c:157-172 | inserted, or rolled back to the list as it was |
| EventRegistry.Context.Search | src/events.c:244-257 | the loop finds the first node with the id |
| EventRegistry.Context.Cancel | src/events.c:239-261 | takes the cancel step |
| EventRegistry.Context.Fired | src/events.c:87-107 | a one-shot event is unlinked and freed after its callback; after any other the list is what it was |
| EventRegistry.Context.Teardown | src/events.c:76-79 | takes the teardown step and terminates, event_del taken to return; when it does is in `RegistryTeardown.ReturnsExactly` |
| EventRegistry.ScheduleSingleShot | src/events.c:177-180 | as called, the event is one-shot if and only if no id is wanted, and no id is delivered |
| EventRegistry.SchedulePeriodic | src/events.c:182-185 | a periodic event, its id delivered if wanted |
| RegistryThreads.StepKeeps | src/events.c:87-261 | every step of either thread keeps the invariant unless it leads to the overlap |
| RegistryThreads.SafeRuns | src/events.c:87-261 | in every interleaving without overlap nothing faults, the list is well formed whenever the mutex is free, no search meets a freed node, no event is freed twice |
| RegistryThreads.FaultsExactly | src/events.c:87-261 | a run without overlap faults if and only if an `event_new` failed in it |
| RegistryThreads.LinksChangeUnderLock | src/events.c:114-116 | links change only while the acting thread holds the mutex |
| RegistryThreads.NoDeadlock | src/events.c:70-261 | while a call is under way some thread can take a step if and only if the teardown is not in event_del of the event in whose callback it joined the event thread |
| RegistryThreads.CancelDuringCallbackFaults | src/events.c:248-255 | a run from the start that cancels during the callback and faults |
| RegistrySafety.CancelSafeExactly | src/events.c:239-261 | between calls of any safe run: cancelling an id is safe in all interleavings if and only if no live one-shot event has it, live meaning on the list and not just being unlinked |
| RegistrySafety.OneShotCancelFaults | src/events.c:239-261 | cancelling a live one-shot event faults in some interleaving of the call |
| RegistrySafety.CancellingOverRuns | src/events.c:239-261 | every interleaving of a call that finds no live one-shot event keeps the invariant |
| RegistrySafety.OverlapIsFatal | src/events.c:87-119 | every run that meets the overlap ends in a fault or with the cancelling thread still in front of event_del |
| RegistrySafety.DoomedCanFault | src/events.c:87-119 | and from every state on the way the fault can be reached |
| RegistrySafety.ReadyOverRuns | src/events.c:121-230 | until teardown every event on the list is armed, firing, or in the scheduling thread's hands |
| RegistryTeardown.ReturnsExactly | src/events.c:70-85 | from any state of a safe run: some continuation of the teardown returns if and only if the event thread was not inside a callback |
| RegistryTeardown.TeardownEnds | src/events.c:70-85 | every run of the teardown has at most eight steps an event and one more; it can go no further if and only if it has returned, or else stands in event_del of the interrupted event |
| RegistryTeardown.TeardownCanHang | src/events.c:72-79 | a run from the start, eleven steps long, after which no thread can ever take a step |
| RegistryDelivered.DeliveredCancelsSafe | src/events.c:121-261 | every run of at most 2^64 steps that cancels only delivered ids, which no one-shot event has, meets no overlap and does not fault |
| RegistryRefinement.RunsRefine | src/events.c:87-261 | every interleaving of at most 2^64 steps without overlap has the list and counter of a history of the value-level registry, each call taking effect at one of its own statements |
| RegistryRefinement.StepRefines | src/events.c:87-261 | the operation taking effect in a step is one that registry can take, with the return value its caller gets; the end of a callback that is no one-shot counts as a firing |
| RegistryRefinement.CallbackRefines | src/events.c:95-107 | the return from the callback of an event that is no one-shot leaves nodes and list as they are |
| RegistryRefinement.PeriodicLeftAlone | src/events.c:87-119 | in every interleaving an event that is no one-shot leaves the list only when the scheduling thread destroys it |
| RegistryRefinement.FreesRefine | src/events.c:109-119 | and its frees: an event in no thread's hands was freed as often as in that history |
| RegistryCancel.SortedOverRuns | src/events.c:109-261 | in every state of every run without overlap: ids fall along the list, an insertion is the newest, a search has not passed its event |
| RegistryCancel.IdsFallInEveryRun | src/events.c:145-158 | ids fall strictly from the head of the list under every interleaving |
| RegistryCancel.SearchIsExact | src/events.c:242-259 | under every interleaving a search that gives up proves the id absent, and one that stops has found the only event with the id |
| RegistryIds.UniqueExactly | src/events.c:145 | ids are unique if and only if no thread reads the counter between another's read and write |
| RegistryIds.OneThreadApart | src/events.c:200 | with one scheduling thread that never happens |
| AddressText.MatchesIffAddress | src/helper.c:21-30 | the regular expression accepts exactly n two-digit hex groups joined by colons |
| AddressText.HexDigitsExactly | src/helper.c:21 | the hex digits are the ten digits and six letters in either case, and stand for their places |
| AddressText.GroupExactly | src/helper.c:34-41 | two hex digits stored as one byte, the first counting sixteen times; a colon behind all but the last |
| AddressText.ScanHex | src/helper.c:34 | `%x` reads the whole run of hex digits and, of two digits, their value |
| AddressText.ScanGroups | src/helper.c:34 | on an address the left-to-right scan finds every group by position |
| AddressText.Parse | src/helper.c:11-86 | accepts if and only if the text is an address, stores its groups without truncation, leaves the destination alone on failure |
| AddressText.ParseOfPrinted | bin/hpav-stats.c:251 | parsing what `%02x` printed gives the bytes back |
| AddressText.PrintedExactly | bin/hpav-stats.c:251 | the printed text digit by digit: two lower-case hex digits a byte, colons between |
| AddressText.PrintedOfParse | src/helper.c:11-86 | printing what was parsed gives the text in lower case |
| StatsOptions.Parser.ParseOpt | bin/hpav-stats.c:114-190 | one option's effect, or refusal |
| StatsOptions.Parser.End | bin/hpav-stats.c:191-211 | defaults filled in, or refusal |
| StatsOptions.ParseCommandLine | bin/hpav-stats.c:351 | the fold of all options, stopping at the first refused one |
| StatsOptions.FoldAccepts | bin/hpav-stats.c:114-190 | the options are accepted if and only if each is well formed and at most one is an interface name |
| StatsOptions.ValidCommandLine | bin/hpav-stats.c:191-211 | a command line passes if and only if each option is well formed, one is an interface name, and link statistics, if selected, come with a network id and a device address |
| StatsOptions.SelectedByCommandLine | bin/hpav-stats.c:139-202 | what is selected is what is named, and everything of a kind if nothing of it is named |
| StatsOptions.LastOptionWins | bin/hpav-stats.c:114-184 | of options on the same field the last decides |
| StatsOptions.DefaultsExactly | bin/hpav-stats.c:341-349 | what no option decides: broadcast destination, version 1.1, 200 ms gap, in bytes and microseconds |
| StatsOptions.LastDestination | bin/hpav-stats.c:120-125 | the two fixed destinations, byte by byte, when given last |
| RequestPlan.Program.ReqLinkStats | bin/hpav-stats.c:325-333 | sends the request as it stands, once |
| RequestPlan.Program.SweepLids | bin/hpav-stats.c:408-413 | terminates, also at limit 255, and asks about every lid up to the limit |
| RequestPlan.Program.RequestLinks | bin/hpav-stats.c:403-414 | the one lid given, or the sweep |
| RequestPlan.Program.Run | bin/hpav-stats.c:353-446 | carries out the plan of the configuration and puts its frames on the wire; what these are is in `PlanTheorems.WireExactly`, `NetworkRequestOnWire` and `RequestOnWire` |
| PlanTheorems.PlannedRequests | bin/hpav-stats.c:372-439 | the requests are the optional network request, then transmit, then receive, over all lids |
| PlanTheorems.EachAskedOnce | bin/hpav-stats.c:389-437 | direction and request id identify a link request, and lids ascend |
| PlanTheorems.CommandLineRequests | bin/hpav-stats.c:191-439 | for every command line that passes, the requests in terms of its options |
| PlanTheorems.LastLidAsked | bin/hpav-stats.c:158-167 | of the lids given the last is asked about, and no other |
| PlanTheorems.LidsAsDocumented | bin/hpav-stats.c:339 | the documented lids are queried if and only if `-i` or `-a` is given; otherwise lid 4 comes on top |
| PlanTheorems.RequestOnWire | include/ieee1901-2010.h:392-402 | every field of an emitted link-stats request at its offset |
| PlanTheorems.NetworkRequestOnWire | bin/hpav-stats.c:374-380 | all 60 bytes of an emitted network-stats request |
| PlanTheorems.WireExactly | bin/hpav-stats.c:372-439 | one frame per request of the plan, in order, and nothing else |
| StatsReceiver.Receiver.constructor | bin/hpav-stats.c:365-368 | the registrations this program makes |
| StatsReceiver.Receiver.LinkStats | bin/hpav-stats.c:258-323 | prints a section of the phase's direction, or nothing |
| StatsReceiver.Receiver.NwStats | bin/hpav-stats.c:244-256 | prints one numbered section |
| StatsReceiver.Receiver.HandleData | bin/hpav-stats.c:218-233 | the gate, the dispatcher and the callbacks have the effect of `Handle`, which `ConfirmPrinting.HandledWhole` ties to the data |
| StatsReceiver.LinkLength | bin/hpav-stats.c:227-232 | past the gate the callback's length is exact and at least 39 |
| StatsReceiver.ConfirmRecorded | bin/hpav-stats.c:266-300 | every successful confirm is recorded in either phase, under the phase's direction: no length check rejects it |
| StatsReceiver.OthersRecorded | bin/hpav-stats.c:218-256 | no other frame makes a link section; network confirms make one section per record |
| ConfirmPrinting.HandledWhole | bin/hpav-stats.c:218-233 | data of 60 to 1500 bytes is dispatched as it is, shorter data does nothing, of longer data exactly the first 1500 bytes count |
| ConfirmPrinting.NetworkConfirmPrinted | bin/hpav-stats.c:244-256 | every list of network records a station can frame adds one section per record, in order, with the record's bytes under the sender's address |
| ConfirmPrinting.LinkConfirmPrinted | bin/hpav-stats.c:258-323 | every field a station can frame adds one section of the phase's direction, with request id and field, if the response type is success, and nothing otherwise |
| ConfirmPrinting.NwRecordsExactly | bin/hpav-stats.c:218-256 | the network records counted as received, read off the bytes of the data |
| ConfirmPrinting.ReceivedOfConfirm | bin/hpav-stats.c:218-256 | a station's confirm counts its records, each as often as it holds it, for this station only |
| ConfirmPrinting.AnswersMatchRequests | bin/hpav-stats.c:325-380 | records and fields are taken only from frames of the type that was asked for on the wire, with the confirm bit |
| LinkProtocol.InvariantOverRuns | bin/hpav-stats.c:383-441 | in every state of every run: pace, phase, and an explanation for every section |
| LinkProtocol.MisreadExactly | bin/hpav-stats.c:266-300 | a request's confirms are attributed rightly in all runs if and only if no switch to the other phase follows it within the bound |
| LinkProtocol.MissedExactly | bin/hpav-stats.c:441-443 | they are all received in all runs if and only if no teardown follows within the bound |
| LinkTiming.PlanOrderly | bin/hpav-stats.c:398-422 | every request is sent in its own phase and the teardown is last |
| LinkTiming.LinkPosition | bin/hpav-stats.c:389-437 | direction and request id determine the place of a request in the plan |
| LinkTiming.AttributionExactly | bin/hpav-stats.c:383-439 | all confirms of all runs get the right direction and lid if and only if one direction only is asked for or the bound is at most two gaps, three in a sweep, as computed in 32 bits |
| LinkTiming.WithinTwoGaps | bin/hpav-stats.c:420 | confirms within two gaps are attributed rightly if and only if the gap is below 2^31 or one direction only is asked for |
| LinkTiming.ReceiveAlwaysRight | bin/hpav-stats.c:417-438 | confirms of receive requests are attributed rightly however late they come |
| LinkTiming.ReceptionExactly | bin/hpav-stats.c:441-443 | exactly which bound makes all runs receive all confirms |
| LinkTiming.WithinFiveGaps | bin/hpav-stats.c:441 | confirms within five gaps are all received if and only if five gaps fit 32 bits or there are no link requests |
| LinkTiming.SmallGapsWork | bin/hpav-stats.c:349 | for gaps below 2^32 / 5 confirms within two gaps are neither misread nor missed |
| SectionNumbers.HandleTidy | bin/hpav-stats.c:249-303 | any frame in any phase keeps numbers and counters in step |
| SectionNumbers.DecimalInjective | bin/hpav-stats.c:277 | the decimal rendering is injective |
| SectionNumbers.DecimalDenotes | bin/hpav-stats.c:249 | the number printed is the number meant, without leading zeros |
| SectionNumbers.NamesDistinctExactly | bin/hpav-stats.c:262 | section names are distinct if and only if no kind has more than 2^64 sections |
| StatsWrapper.LinkStats | bin/hpav_stats.py:26-46 | the sections by direction in the listing's order; an error if nothing was loaded, or at the first name of neither kind |
| Listings.PickPosition | bin/hpav_stats.py:38-42 | within a list the sections stand in the order in which they were listed |
| StatsWrapper.SubstringTellsKind | bin/hpav_stats.py:39-41 | the substring tests classify every name the program prints |
| StatsWrapper.LinkSectionsConserved | bin/hpav_stats.py:33-46 | whatever the order, each section is returned once, in the list of its printed direction, and each link is named as often as it was printed |
| StatsWrapper.RefusesExactly | bin/hpav_stats.py:30-44 | an error is raised if and only if nothing was printed or a network section is among the sections |
| StatsWrapper.NetworkStats | bin/hpav_stats.py:62-82 | each sender's group is its reports, in order; no other groups; an error if nothing was loaded, or at the first name of another kind |
| StatsWrapper.ReportsRefusedExactly | bin/hpav_stats.py:66-80 | an error is raised if and only if nothing was printed or a link section is among the sections |
| StatsWrapper.ReportsConserved | bin/hpav_stats.py:69-78 | each report is in its sender's group as often as it was printed |
| StatsWrapper.ReportPosition | bin/hpav_stats.py:71-78 | no report is lost: its place in its group is given by the reports of that sender before it |
| StatsWrapper.ReportOrigin | bin/hpav_stats.py:71-78 | no entry of a group is added |
| StatsReport.EntriesOfReceive | bin/hpav-stats.c:302-318 | all eight counters of a receive record at their offsets, among them the one compared |
| StatsReport.EntriesOfTransmit | bin/hpav-stats.c:277-294 | all counters of a transmit record at their offsets, among them the two compared |
| StatsReport.PrintLinkStats | bin/hpav_stats.py:88-111 | the lines entry by entry, up to the first division by zero; what they say is in the next two rows |
| StatsReport.RxLineExactly | bin/hpav_stats.py:88-103 | each receive line printed, in complete and interrupted reports: "missing" if and only if no entry has its lid, otherwise received and sent counts of the last match, delta their difference, and percent times sent 100 times the delta |
| StatsReport.TxLineExactly | bin/hpav_stats.py:105-111 | each line behind those: lid, sent and acked counts of its entry, delta acked minus sent, and percent times sent 100 times the delta |
| StatsReport.SearchTx | bin/hpav_stats.py:94-97 | the inner loop finds the last match |
| StatsReport.LastMatchIsLast | bin/hpav_stats.py:94-97 | there is a match if and only if some entry has the lid, and no later one has |
| StatsReport.CompleteExactly | bin/hpav_stats.py:101-110 | the report is cut short if and only if it divides by a count of zero |
| StatsReport.LeftOuterJoin | bin/hpav_stats.py:88-111 | a complete report: one line per receive entry, "missing" or joined with the last match, and one per transmit entry, with its counts |
| StatsComparison.ReceiveRecorded | bin/hpav-stats.c:297-318 | a receive record confirmed in the receive phase gives an entry with its counter under the request id |
| StatsComparison.TransmitRecorded | bin/hpav-stats.c:271-294 | a transmit record confirmed in the transmit phase gives an entry with its counters under the request id |
| StatsComparison.ListsSized | bin/hpav_stats.py:88-111 | after any run the wrapper's lists hold whole fields of their direction |
| StatsComparison.StationsCompared | bin/hpav_stats.py:88-103 | the join on the lists of two stations: recorded counters compared by link, "missing" if and only if the other list has no entry of the link |
| StatsComparison.StationReported | bin/hpav_stats.py:105-111 | the lines behind the join report the sent and acknowledged counters recorded in the station's own transmit sections |
| LinkConservation.RunTidy | bin/hpav-stats.c:258-323 | sections are numbered on in every run |
| LinkConservation.ConfirmsPrinted | bin/hpav-stats.c:258-323 | within the guard time, as many sections show a request's direction and link as confirms of it arrived before the teardown |
| LinkConservation.NoneMissed | bin/hpav-stats.c:441-443 | within the drain time none of them is missed |
| LinkConservation.EndToEnd | bin/hpav_stats.py:26-46 | from any run within the guard time to what the wrapper returns: an error if and only if nothing or a network section was printed, otherwise one entry per section under the direction and link asked about, and per request as many entries as confirms received |
| LinkConservation.OneEntryPerConfirm | bin/hpav_stats.py:33-46 | within the drain time as well, one entry for every confirm |
| LinkConservation.ReportsPrinted | bin/hpav-stats.c:244-256 | every network record received is printed once, under its sender |
| LinkConservation.NetworkEndToEnd | bin/hpav_stats.py:62-82 | from any run to the groups returned: an error if and only if nothing or a link section was printed, otherwise each record in its sender's group as often as received |
| WrapperRun.OptionsAccepted | bin/hpav_stats.py:27-63 | hpav-stats accepts the wrapper's command lines if and only if network id and address have the form of one |
| WrapperRun.LinkStatsReturns | bin/hpav_stats.py:13-49 | for every run with confirms within 600 ms: an error if and only if nothing or a network section was printed, otherwise one entry per confirm for each direction and each of the lids 0 to 4, and none for another lid |
| WrapperRun.SixHundredExactly | bin/hpav_stats.py:27 | the call attributes every confirm rightly if and only if they come within 600 ms |
| WrapperRun.NetworkStatsReturns | bin/hpav_stats.py:51-85 | for every run: an error if and only if nothing was printed, never over a section's name, otherwise each record in its sender's group as often as received |
| OperationSelect.Config.ParseOpt | bin/loop-mm-types.c:65-134 | one option's effect on the four counters |
| OperationSelect.ParseOptions | bin/loop-mm-types.c:146-153 | the counters after all options |
| OperationSelect.EnabledExactly | bin/loop-mm-types.c:90-113 | for any options, exactly which operations end up enabled |
| OperationSelect.EnabledAsSelectedExactly | bin/loop-mm-types.c:90-113 | for any options: the enabled operations are those given, or request if none is, if and only if no counter wrapped around to zero |
| OperationSelect.EnabledAsSelected | bin/loop-mm-types.c:90-113 | in particular up to 2^31 options |
| OperationSelect.OrderIrrelevant | bin/loop-mm-types.c:90-113 | order and repetition do not matter |
| OperationSelect.WrapDisablesRequest | bin/loop-mm-types.c:91-97 | with 2^31 + 1 options it can fail: request was asked for and is off |
| OperationSelect.SendAll | bin/loop-mm-types.c:165-189 | the nested loops send the frames of the table's selected messages in order |
| OperationSelect.SupportsExactly | bin/loop-mm-types.c:173 | a row supports an operation if and only if its bit of the flags is set, bits 0 to 3 for request, confirm, indication, response |
| OperationSelect.FramesOfPairs | bin/loop-mm-types.c:179-185 | each of these frames carries its row's type and its operation |
| OperationSelect.SweepExactly | bin/loop-mm-types.c:165-189 | for any options that wrap no counter, exactly the supported and selected operations, once each, in table order |

## Left out

- Sockets, ioctl and interface setup (`src/net.c`): a send appends a frame to a trace and its result
  is a parameter; a receive is any byte sequence or a failing read.
- libevent and pthread internals: `event_new` and `event_add` may fail, the mutex is an owner, firing is
  nondeterministic, and three facts about libevent are stated at the head of `registry_threads.dfy`.
- Memory order: `link_stats_req_type` is shared without synchronisation; the model reads and writes it
  atomically. Before the plan first sets it, it is uninitialised; the model lets it be either phase.
- Confirms that answer no request of the run, for instance those of another program's requests, are not
  among the labels of the link-stats protocol.
- usleep is taken to last at least as long as asked for; interruption by a signal is not modelled.
- The registry's threads: one scheduling thread and one event thread; callbacks that call back into the
  registry are not modelled, nor is the failure of `pthread_cancel`. Freed addresses are not reused.
- The event thread cancelled in the middle of printing: a confirm is handled whole or not at all, so a
  section that the teardown truncates does not occur.
- POSIX regular expressions, `sscanf` and `strtoul` in general: one regular expression, `%x` on hex
  digits; the numbers other options scan are parameters, and so is a failing `regcomp`.
- argp, printf layout, YAML, subprocess and argparse: options arrive as values (an interface name that
  begins with a dash would be an option), sections as records, YAML as a faithful map in which a later key
  replaces an earlier one.
- Floating-point rounding of the percentages in `print_link_stats`, which are exact reals.
- The interface name, verbose output and timestamps.
- `bin/hpav-discover.c`, which repeats the receive path; `ieee1901_2010_vendor_message_send`, a stub.
- The fixed `MMTypes` table and the name lookups: the sweep is proved for every table.
- The seven bit fields behind a station's access nibble, kept as one byte; latency bins.
- RegistryThreads.SafeRuns: for runs in which `event_new` does not fail, since its rollback always faults
  (`FaultsExactly`), and without the overlap, whose effect is stated in `RegistrySafety.OverlapIsFatal`; which cancels can
  lead to it is exact in `RegistrySafety.CancelSafeExactly`.
- RegistryDelivered.DeliveredCancelsSafe: for runs of at most 2^64 steps, after which ids may repeat, and in
  which `event_new` does not fail.
- RegistryRefinement.RunsRefine: the same, and without the overlap.
- RegistryCancel.SearchIsExact: for runs of at most 2^64 steps, after which ids may repeat
  (`RegistryModel.IdsCollide`).
- LinkConservation.EndToEnd: while no section counter has wrapped around (`NamesDistinctExactly` says
  that this is what keeps names apart).
- WrapperRun.LinkStatsReturns: the same.
