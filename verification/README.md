# V-MAC: a verified model of the reliability protocol and the key bookkeeping

V-MAC is a kernel-level multicast link layer. A sender numbers the data frames of one
*encoding*, keeps the last 500 in a ring and retransmits what a *DACK* asks for. A receiver
keeps a window of 700 slots, drops repeats, asks for a DACK every five numbers and reports the
gaps of its window as at most 40 holes `[le, re)`. This project models that protocol, the
pending-DACK slot that two kernel contexts share, the rate ladder, and the key handling of
`vmac/key.c`, and proves what they keep.

Each part has a specification in values and, where the source changes things in place, a class
or methods proved equal to it; the theorems are about the specification. What the specification
itself lets through is pinned in numbers, over walks, arrivals and runs (`AnswerLaws`, `HoleLaws`,
`PendingFates`, `KeyLinks`, `KeyCounts`, `KeyUploads`, the ends of `ReceiverTheorems`, `RateLadder` and
`DackWire`).

| files | part of the source |
|---|---|
| `VmacTypes` | machine integers, constants |
| `ReceiverWindow`, `ReceiverTheorems` | data branch of the receiver |
| `HoleScan`, `HoleScanTheorems`, `HoleLaws` | the scan and the delay in `prepDACK` |
| `SenderRing`, `WalkTheorems`, `WalkExact`, `WalkBuffers`, `SenderConservation` | data send, DACK branch with the buffers it hands over, cleanup |
| `RepairProgress`, `RepairTurns` | receiver and sender exchanging DACKs |
| `Protocol`, `ProtocolSafety`, `ProtocolDelivery`, `ProtocolPacing`, `AnswerLaws`, `ProtocolFailures` | whole runs over a lossy, repeating, reordering channel |
| `PendingDack`, `DackSlot`, `PendingFates`, `DackOrder` | generator thread against timer callback, and the way from the receiver's trigger to the management queue |
| `DackWire` | the bytes of a DACK |
| `RateLadder` | rate adaptation |
| `KeyBooks`, `KeySlots`, `KeyOperations`, `KeyTable` | counts, slots, operations and their in-place form in `key.c` |
| `KeyBalance`, `KeyWiring`, `KeyInvariant`, `KeyTeardown`, `KeyRestore`, `KeyBringUp`, `KeyRuns`, `KeyLinks`, `KeyCounts`, `KeyUploads` | tailroom accounting, no dangling keys, teardown, bringing interfaces up, runs; what a link comes to, what stays pending, what is in the hardware |

## Assumptions

* One encoding per table, because lookup does not compare keys (`vmac/main.c:101-128`), and one
  epoch of 65536 sequence numbers in the protocol runs. `CopiesAreConserved` covers longer runs.
* Entries come from an allocator that does not clear them (`vmac/tx.c:118`, `vmac/tx.c:166`):
  window, ring and timers start with arbitrary contents. The pending-DACK pointer starts null.
* `vmac/dack.c:266` reads one word in front of the window for every multiple of 700. In the entry
  (`vmac/vmac.h:158-161`, `vmac/vmac.h:196-200`) that word is tail padding of `struct enc_cleanup`:
  it holds whatever the allocator left, and nothing writes it while the entry lives. It is a
  parameter (`before`), the same in all scans of a run, and it is proved exactly when it matters.
* `vmac/rx.c:356` reads the pointer-sized word behind the ring for number 500. In the entry
  (`vmac/vmac.h:179-180`) the pacing timers follow the ring, so with eight-byte pointers that word
  is made of timers 0 to 7, which the same loop writes. It is computed from them.
* A number for which the walk makes no copy hands the buffer of the copy before it to the queue
  once more (`vmac/rx.c:356-366`). The queue keeps pointers (`vmac/queue.c:136-146`), and sending
  pushes a header into the buffer and gives it away (`vmac/queue.c:257`, `vmac/tx.c:280-287`), so
  what such a buffer puts on the air is not known. Buffers are numbered by the copy they hold
  (`handed`); one that is handed over twice puts no frame on the channel of the model, and nothing
  is claimed of its bytes.
* Sends, arrivals, scans and answers are steps of their own. In the source the scan reads the
  window without a lock beside the data branch, and the ring is written outside the lock on the
  counter; what they might see of each other in between is not modelled. The pending-DACK slot is
  modelled assignment by assignment.
* The pacing timers are bytes (`vmac/vmac.h:180`), so `round + 6` is taken modulo 256. The random
  word is any `long`, whose remainder by two may be -1.
* `skb_pull` leaves a buffer alone that is shorter than what is pulled. What lies in memory behind
  a frame is a parameter (`behind`) of the parser, of nine bytes at least.
* `unsigned long` has 64 bits; the machine is little-endian; allocations succeed; a division by
  zero ends the run; a timer's callback never runs beside itself.
* In `key.c` every operation runs under the key mutex, a VLAN always has its access point, driver
  answers are arbitrary, and a driver fixes a key's flags when it accepts the key.
  An access point comes up together with its VLANs, itself first; who calls the reset and the
  enabling in `key.c`, and in which order, is not part of this model.

Where comments and code differ the code is followed. The comment on `__sendDACK`
(`vmac/dack.c:71-99`) describes a free signal, a check for the frame and a retry after two
jiffies that the code does not have; the one on `request_DACK` calls the round five times the
latest number, while the code passes a fifth of it; the one on `prepDACK` starts the scan at the
latest number less the window, while the code starts at five times the round less the window.

## Model

| member | source | states |
|---|---|---|
| ReceiverWindow.EncodingRx.constructor | vmac/tx.c:118-136 | a new entry has zero counters and whatever the allocator left in the window |
| ReceiverWindow.EncodingRx.AdvanceTo | vmac/rx.c:277-284 | the in-place loop clears exactly the slots of the numbers skipped and of the new latest |
| ReceiverWindow.EncodingRx.MarkArrived | vmac/rx.c:291-294 | the slot is set behind the guard, and only it |
| ReceiverWindow.EncodingRx.TakeEstimate | vmac/rx.c:296-305 | the estimate is taken once from two frames, or divides by zero exactly when the second repeats the last number |
| ReceiverWindow.EncodingRx.RxData | vmac/rx.c:277-312 | the in-place data branch computes `Arrive`: new fields, and dropped, accepted, or accepted with a DACK request |
| ReceiverTheorems.AdvanceAt | vmac/rx.c:279-283 | after an advance every newly covered number reads missing and every older one in the window is untouched |
| ReceiverTheorems.ArriveRefines | vmac/rx.c:277-294 | the window is the set of accepted numbers seen through the last 700, and an in-window arrival is dropped exactly when it is a repeat |
| ReceiverTheorems.ArriveKeepsMarked | vmac/rx.c:285-294 | an arrival of any age leaves accepted numbers in the window marked |
| ReceiverTheorems.StaleArrivalRefines | vmac/rx.c:285-294 | a frame older than the window keeps every slot of the window at zero or one, as received or not, exactly when its own slot is taken or the weak guard of line 291 stops it |
| ReceiverTheorems.FreshRefines | vmac/tx.c:118-136 | the uncleared entry means "nothing received" exactly when slot 0 reads zero |
| ReceiverTheorems.ArriveDecides | vmac/rx.c:285-294 | whatever words other than one the window holds for missing numbers, an in-window arrival is dropped exactly when it is a repeat, and that goes on |
| ReceiverTheorems.FreshDecides | vmac/tx.c:118-136 | the uncleared entry drops rightly exactly unless slot 0 holds one, and then the first arrival of number 0 is dropped |
| ReceiverTheorems.StaleArrivalDecides | vmac/rx.c:285-294 | a frame older than the window is dropped or passed on rightly exactly if it and the number that shares its slot were both received or both not; later drops stay right exactly if that number was received or the guard of line 291 stops the mark |
| ReceiverTheorems.StaleArrivalFails | vmac/rx.c:285-294 | the failing cases: with latest 701, a first arrival of 0 is dropped because of 700, or a repeat of 0 is passed on |
| ReceiverTheorems.ArriveNeverDividesByZero | vmac/rx.c:296-306 | with in-window arrivals the divisor of the inter-arrival estimate is never zero |
| ReceiverTheorems.EstimateIs | vmac/rx.c:296-305 | for an entry that keeps the low word of its first frame's time, and any second time: the estimate is the elapsed time per number exactly if the sequence gap divides the high word of the first time; for an older second frame it is 0, or 1 |
| ReceiverTheorems.EstimateFails | vmac/rx.c:296-305 | the failing case: after 2^32 jiffies, six jiffies for two numbers are estimated at 2147483651 each |
| ReceiverTheorems.FirstTwoEstimate | vmac/rx.c:296-305 | over two arrivals at a new entry, s1 at t1 and a newer s2 at t2: the estimate is zero before the second and then (t2 - t1) / (s2 - s1), in 32 bits, exactly if s2 - s1 divides the high word of t1 |
| ReceiverTheorems.EstimateStays | vmac/rx.c:300-305 | once the second frame's time is kept, no arrivals, however many, change the estimate |
| ReceiverTheorems.DropsChangeNothing | vmac/rx.c:285-289 | an arrival is dropped exactly when it is not newer and its slot holds one, and then no field changes |
| ReceiverTheorems.ArriveKeepsTrigger | vmac/rx.c:306-312 | round <= latest < round + 5 always; only frames advancing latest ask for a DACK, for strictly larger rounds with 5 * round <= latest |
| ReceiverTheorems.RequestsFiveApart | vmac/rx.c:306-312 | after a request by number s for round s / 5, the next is made by the first number from s + 5 on, for a fifth of it; others ask for nothing and leave that so |
| HoleScan.SearchLeft | vmac/dack.c:265-272 | the backward loop finds the left edge and counts its steps in a byte |
| HoleScan.SearchRight | vmac/dack.c:273-279 | the forward loop finds the right edge, one short of the end at most |
| HoleScan.FindHole | vmac/dack.c:265-278 | both edges of one hole, with the byte counter ahead by its width |
| HoleScan.StoreHole | vmac/dack.c:263-281 | one turn moves exactly one hole from the rest of the scan to the array |
| HoleScan.ScanHoles | vmac/dack.c:256-283 | the scan with its jumping index fills the array with `Holes`, at most 40, and counts their width modulo 256 |
| HoleScan.PrepareDack | vmac/dack.c:254-323 | holes, capped estimate and delay as the code computes them |
| HoleScanTheorems.LeftEdgeStays | vmac/dack.c:266-270 | the backward search moves exactly when it starts at a multiple of 700 past the scan's start and the word before the array is zero |
| HoleScanTheorems.GapsAreMaximalRuns | vmac/dack.c:261-283 | the gaps are the maximal missing runs, ordered and not adjacent, and cover every missing number below the last one scanned |
| HoleScanTheorems.ScanIsGaps | vmac/dack.c:261-283 | from any index, the scan reports the first gaps exactly when no reported gap reads a zero word before the array |
| HoleScanTheorems.HolesAreFirstRuns | vmac/dack.c:256-283 | for any window and round the DACK holds the first 40 maximal missing runs, exactly under that condition |
| HoleScanTheorems.StrayWordClaimsReceived | vmac/dack.c:266-270 | the failing case: a DACK reports 699 as missing although it was received |
| HoleScanTheorems.LeftEdgeMoves | vmac/dack.c:266-270 | a search that reads zero before the array takes in the received number before its run, and beyond it only missing ones |
| HoleScanTheorems.HoleOfRun | vmac/dack.c:261-283 | every hole against the run it stands for: same right edge, and what its left edge takes in |
| HoleScanTheorems.DelayInRange | vmac/dack.c:309-323 | the delay is 1 to 100 exactly when the estimate is zero, not five are missing, or the random remainder is not -1 |
| HoleLaws.ReportsZeros | vmac/dack.c:254-283 | for any window and round, as far as forty holes reach: of the 700 numbers below five times the round, but for the last, the DACK reports exactly those whose slot reads zero, and in error the one before a missing multiple of 700 if the word before the window is zero |
| HoleLaws.DelayFallsWithLoss | vmac/dack.c:309-321 | between 1 and 100 jiffies each further missing number up to the fifth shortens the delay by twice the estimate |
| HoleLaws.DelayGrowsBeyond | vmac/dack.c:309-321 | past the sixth each further one lengthens it by that |
| HoleLaws.DelayFollowsParity | vmac/dack.c:255 | an odd random word moves the delay by twice the estimate, up if it is positive and down if it is negative |
| HoleLaws.DelayStarts | vmac/dack.c:309-356 | with nothing missing and an even word the delay is ten times an estimate of 1 to 10, and 10 jiffies for a larger one; with five missing it is 1; estimates above 100 count as 100 |
| HoleLaws.DelayIs | vmac/dack.c:309-356 | the delay for every estimate, loss and random word, in closed form |
| SenderRing.EncodingTx.constructor | vmac/tx.c:166-176 | a new entry starts at number 0 with ring and timers as the allocator left them |
| SenderRing.EncodingTx.Send | vmac/tx.c:193-218 | numbering, timer reset, copy into the ring and free of the displaced copy are `Transmit` |
| SenderRing.EncodingTx.AnswerNumber | vmac/rx.c:352-367 | the loop body for one number: eligibility, budget, copy, pacing, and the hand-over of the last copy's buffer, which may be the one handed over before |
| SenderRing.EncodingTx.AnswerHole | vmac/rx.c:350-369 | the inner loop, with its break on the spent budget, walks the numbers of the hole below seq |
| SenderRing.EncodingTx.OnDack | vmac/rx.c:343-371 | the nested loops leave the timers of one walk over all candidates, and hand over its frames, each in the buffer of the copy it was made as |
| SenderRing.EncodingTx.Cleanup | vmac/clean.c:96-102 | cleanup frees the copies in the first min(seq, 500) slots |
| SenderRing.SpentWalkSkips | vmac/rx.c:354-355 | breaking out of a hole on a spent budget equals walking the rest of it |
| WalkTheorems.CallsAreCallable | vmac/rx.c:350-352 | the calls are the live, eligible candidates, without repeats unless the pacing byte wraps |
| WalkTheorems.NextIsEligible | vmac/rx.c:352-361 | whatever was stamped before, the next call is eligible when the loop meets it |
| WalkTheorems.OnlyCallsCount | vmac/rx.c:343-371 | for any holes the walk is the walk over its calls: every other visit changes nothing |
| WalkTheorems.CallsAnswered | vmac/rx.c:343-371 | if each of the first 20 calls for 500 finds the word behind the ring set, exactly the first 20 calls are queued in order and paced |
| WalkExact.AnswersExactly | vmac/rx.c:343-371 | for any holes, round and timers: exactly when the sender queues the first 20 distinct candidates that `QueuedExactly` lets through, each once, in walk order |
| WalkExact.RepeatsDecide | vmac/rx.c:352-366 | with the word set, a number is queued twice exactly if the round is 250 or more and its eligible occurrences repeat among the first 20 |
| WalkTheorems.CandidatesAreBelow | vmac/rx.c:350 | every number walked is below seq and inside some hole |
| WalkExact.NullWordRepeats | vmac/rx.c:356-366 | a call for 500 that finds the word null hands over the buffer before it once more |
| WalkBuffers.HandedOnce | vmac/rx.c:356-366 | for any holes, round and timers: no buffer is handed over twice, and there are as many entries as copies, exactly if, within the budget, no call finds the word null behind one that found a copy |
| WalkExact.PastEndWord | vmac/rx.c:356-361 | for rounds below 250, the test behind the ring does no harm exactly when 500 is no pick or one of timers 0 to 7 is set when the walk reaches it |
| WalkExact.WalkSetsWord | vmac/rx.c:356-361 | an input where the walk itself sets the word before 500 is visited |
| WalkExact.WalkClearsWord | vmac/rx.c:356-361 | an input where the walk itself clears it, and number 1 goes out in place of 500 |
| SenderConservation.SendKeepsOrder | vmac/tx.c:193-218 | a send frees the copy 500 sends older and no other |
| SenderConservation.CleanupFreesRest | vmac/clean.c:96-102 | just before cleanup exactly min(seq, 500) copies are held, those of the last sends, in the slots cleanup visits |
| SenderConservation.CopiesAreConserved | vmac/tx.c:199-218 | over any run of sends and a cleanup each copy is freed exactly once, exactly when fewer than 65536 frames were sent |
| RepairProgress.GapsListMissing | vmac/dack.c:261-283 | walking the gaps meets the missing numbers in ascending order |
| RepairProgress.CappedHolesAreEnough | vmac/dack.c:261-283 | only the last hole can be empty, so the 40-hole cap never starves the 20-frame budget |
| RepairProgress.AskedFor | vmac/rx.c:343-356 | a DACK asks for a prefix of the missing numbers that covers the budget |
| RepairProgress.PicksAnswered | vmac/rx.c:343-371 | the answer is the kept copies of the ready ones among the numbers asked for |
| RepairProgress.DeliverAllMarks | vmac/rx.c:285-312 | all queued frames are accepted on arrival, mark only their slots and ask for no DACK |
| RepairProgress.ExchangeDelivers | vmac/rx.c:277-371 | one exchange delivers and marks exactly what was picked, and keeps both sides' invariants |
| RepairProgress.ExchangeRepairs | vmac/rx.c:277-371 | if all missing numbers are live and unpaced, one exchange repairs the first 20 of them, or all |
| RepairTurns.TurnRepairs | vmac/rx.c:343-371 | one exchange repairs a ready missing number, or 20 missing numbers below it |
| RepairTurns.RankFalls | vmac/rx.c:277-294 | whatever is sent and arrives between two DACKs of growing rounds, no missing number joins below one that is still scanned and live |
| RepairTurns.MissingIsRepaired | vmac/dack.c:256-283 | a number that stays scanned, live and unpaced with those below it is repaired after rank / 20 + 1 exchanges of growing rounds |
| RepairTurns.TurnsHappen | vmac/dack.c:256-283 | the conditions of that theorem are met by runs of two turns: with only number 5 * round of those before received, each number from 20 on waits through the DACK that repairs 0 to 19, and those below 40 are repaired by the next |
| ProtocolSafety.WalkQueuesCandidates | vmac/rx.c:350-366 | whatever the holes, round and stray word, only kept copies of live candidates are queued |
| ProtocolSafety.TransmitHolds | vmac/tx.c:193-218 | the ring goes on holding the frames first sent with the last 500 numbers |
| ProtocolSafety.LiveMissing | vmac/rx.c:350-352 | a late scan may read recycled slots, but a live number that reads missing was not accepted |
| ProtocolSafety.BuiltIsTruthful | vmac/dack.c:256-283 | a built DACK asks for no live accepted number, exactly unless a reported run starts right behind one where the word before the window is read as zero |
| ProtocolSafety.ArrivalIsSafe | vmac/rx.c:277-312 | an arrival of any age keeps the safety invariant |
| ProtocolSafety.AnswerIsSafe | vmac/rx.c:343-371 | answering any DACK ever built, at any later time, keeps the safety invariant, whose byte identity speaks of buffers handed over once |
| ProtocolSafety.AnswerHandsOnce | vmac/rx.c:356-366 | an answer hands over each buffer once exactly if it makes no echo |
| ProtocolSafety.EveryRunIsSafe | vmac/rx.c:343-371 | in every run a frame sent again from a buffer handed over once is byte-identical to the first sending, and rounds are requested and built in increasing order; in every run without echoes this is every frame sent again; in every run without a misled scan each is of a number not received when its DACK was built |
| ProtocolFailures.SoundnessFails | vmac/dack.c:266-270 | for any payloads and any memory with a zero word before the window, a run in which a misled scan makes the sender repeat a number received before the scan |
| ProtocolDelivery.ArrivalDeliversOnce | vmac/rx.c:285-289 | an in-window arrival is passed upward exactly when its number never was |
| ProtocolDelivery.EveryRunDeliversOnce | vmac/rx.c:277-306 | in every run with in-window arrivals, from any memory whose slot 0 does not hold one, each accepted number is delivered exactly once, and the estimate never divides by zero |
| ProtocolDelivery.FirstFrameLost | vmac/rx.c:285-289 | from any other memory a run loses the first frame: it is sent, arrives for the first time, and is dropped |
| ProtocolPacing.SendKeepsTimers | vmac/tx.c:194-196 | a send resets only the timer of the number it makes too old to ask for |
| ProtocolPacing.EchoesDecide | vmac/rx.c:352-366 | for rounds below 250 one walk queues no number twice, exactly if 500 never finds the word null behind an earlier call |
| ProtocolPacing.AnswerKeepsSixApart | vmac/rx.c:352-361 | for rounds below 250 an answer keeps all retransmissions of a number six rounds apart, exactly if it makes no such echo |
| ProtocolPacing.EveryRunIsPaced | vmac/rx.c:352-361 | over every interleaving of answers whose rounds fit the byte and that make no echo, a number resent for r1 and later for r2 has r2 >= r1 + 6 |
| AnswerLaws.QueuedExactly | vmac/rx.c:350-367 | for any numbers, round, timers and word behind the ring: a number other than 500 is queued exactly if the walk meets it with fewer than 20 copies made, seq - 500 <= s < seq, and its timer is no later than the round; then its timer is round + 6 in a byte, and otherwise unchanged |
| AnswerLaws.FiveHundredExactly | vmac/rx.c:356-367 | number 500 is queued exactly if, live and unpaced, it is met with budget left while one of timers 0 to 7 is set |
| AnswerLaws.AskedIsQueued | vmac/rx.c:350-367 | a walk that ends with budget left queues a number other than 500 exactly if it is in the list, among the last 500, and its timer is no later than the round |
| AnswerLaws.EveryTimerTells | vmac/rx.c:361 | in every run of answers that fit the byte the timer of a live number is six above the latest round it was sent again for, or zero |
| AnswerLaws.EveryAnswerResends | vmac/rx.c:343-371 | in every such run an answer that ends with budget left sends a number other than 500 again exactly if the DACK asks for it, it is one of the last 500 sent, and every earlier retransmission of it was for a round at least six below |
| ProtocolFailures.PacingFails | vmac/rx.c:356-366 | a run for any memory and payloads whose one answer, for a round that fits the byte, queues 499 twice by an echo |
| ProtocolFailures.PacingWrapFails | vmac/rx.c:361 | a run for any memory and payloads, without echoes, in which 760 is sent again for round 250 and once more for round 251 |
| ProtocolPacing.PacingNeedsByte | vmac/rx.c:361 | the byte timer gives six rounds of pacing exactly when round + 6 fits it |
| PendingDack.StepKeepsOwners | vmac/dack.c:325-364 | no single assignment of either thread loses or doubles the owner of a DACK |
| PendingDack.StepKeepsFlags | vmac/dack.c:112-132 | lock discipline, flag and pointer agreement, and the timer's promise survive every step |
| PendingDack.EveryRunKeepsInv | vmac/dack.c:101-133 | the whole invariant holds in every interleaving |
| PendingDack.PendingIsOwned | vmac/dack.c:325-364 | each DACK is at every moment held, pending, handed over once or freed once; unlocked, the flag is up exactly when a frame is pending, and then its timer is armed or its callback in flight |
| PendingDack.HandedInBuildOrder | vmac/dack.c:114-128 | the management queue gets real frames in the order they were built, though DACKs are dropped or replaced |
| PendingFates.CallbackFreesNothing | vmac/dack.c:112-132 | no step of the callback frees a DACK or takes one off the queue |
| PendingFates.EveryFate | vmac/dack.c:325-364 | in every interleaving: the queue is what the callback took from the slot, in that order, but for one on its way; freed, or about to be, is exactly what met a busy lock or was replaced; every other DACK is pending or in the generator's hand |
| PendingFates.AtRest | vmac/dack.c:101-133 | with both threads at rest each DACK built is pending, was handed over exactly if it was taken, or freed exactly if it was replaced or met a busy lock |
| PendingFates.NobodyWaits | vmac/dack.c:101-133 | each step of a thread brings it nearer to its end, whatever the other did; a callback that meets a busy lock ends with its timer armed again |
| PendingFates.PendingIsSent | vmac/dack.c:112-132 | in every run a pending DACK is handed over by the next firing of its timer, if that is left alone |
| PendingFates.AllHanded | vmac/dack.c:325-364 | for any rounds there is a run that hands over the DACKs of all of them and frees none |
| DackOrder.HandedRoundsIncrease | vmac/rx.c:307-312 | from the receiver's trigger through generator and callback, in every run and interleaving, the rounds on the management queue strictly increase |
| DackOrder.AllRoundsHanded | vmac/rx.c:307-312 | and for every run of the protocol there is an interleaving in which every round asked for is handed over |
| DackSlot.StoreSection | vmac/dack.c:331-359 | the generator's section as one change: replace and return the old frame, or store and arm |
| DackSlot.TakeSection | vmac/dack.c:119-131 | the callback's section as one change: empty a pending slot |
| DackSlot.DackInfo.Store | vmac/dack.c:331-359 | the in-place section ends where the uninterrupted steps of the protocol end |
| DackSlot.DackInfo.Take | vmac/dack.c:119-131 | the same for the callback |
| DackWire.BuildFrame | vmac/dack.c:286-306 | put and push write the encoding; everything appended fits the allocation, and the 802.11 header fits in front exactly with 39 bytes of padding |
| DackWire.ParseFrame | vmac/rx.c:242-349 | pulling header, DACK header and holes one by one is `Decode`, for a frame of any length |
| DackWire.DecodeOfEncode | vmac/rx.c:327-349 | for every encoding, round and list of at most 40 holes, parsing recovers what was built, whatever lies behind the frame |
| DackWire.FieldsInPlace | vmac/vmac.h:102-117 | where each field of a built DACK stands, byte by byte, low byte first |
| DackWire.EncodeOfDecode | vmac/rx.c:327-349 | a DACK of the announced length is the encoding of what is parsed from it |
| DackWire.HolesAt | vmac/rx.c:343-349 | each hole parsed from a frame of any length: its own bytes, and past the frame's end always the same hole, of the bytes left over and what lies behind them |
| RateLadder.RateControl.constructor | vmac/rate.c:31-40 | the ladder starts at 2, 3, 11 |
| RateLadder.RateControl.FallRung | vmac/rate.c:76-92 | one in-place lowering, with the jump from 35 to 11 |
| RateLadder.RateControl.RiseRung | vmac/rate.c:96-111 | one in-place raise, with the jump from 11 to 35 |
| RateLadder.RateControl.Adjust | vmac/rate.c:63-113 | one report is `Adapt`, or nothing when the lock is taken |
| RateLadder.AdaptKeepsLadder | vmac/rate.c:73-111 | rungs stay ordered, equal only at 11, within 10, 11, and 11 or exactly 35 |
| RateLadder.LossLowers | vmac/rate.c:76-92 | exactly when a rung is lowered, and by how much: more than half of the round's frames missing at it, not yet lowered for this round, and room above the rung below |
| RateLadder.FewLossesRaise | vmac/rate.c:96-111 | exactly when a rung is raised, and by how much: fewer than seven tenths missing, counted down, three rounds since its last raise, not lowered for this round, and room below the rung above |
| RateLadder.MovesAreMarked | vmac/rate.c:96-111 | a raise moves its mark by at least three rounds, a fall by at least one |
| RateLadder.NoRungMovesTwice | vmac/rate.c:76-111 | one report never both lowers and raises a rung |
| RateLadder.LadderHolds | vmac/rate.c:31-111 | from rate_init, under any reports for any encodings, the ladder holds and one encoding raises a rung at most 85 times and lowers it at most 255 times |
| KeyTable.KeyTable.UpdateVlans | vmac/key.c:63-80 | the loop moves each VLAN's count once |
| KeyTable.KeyTable.Increment | vmac/key.c:82-114 | an interface and its VLANs count one more |
| KeyTable.KeyTable.Decrease | vmac/key.c:116-125 | the same downward, and the warning fires exactly when the count is below the decrement |
| KeyTable.KeyTable.EnableHwAccel | vmac/key.c:127-219 | the upload with all its refusals: new flags, new counts and return value, and no warning if the count is positive |
| KeyTable.KeyTable.DisableHwAccel | vmac/key.c:221-254 | removal from the hardware takes the tailroom need back |
| KeyTable.KeyTable.SetDefaultKey | vmac/key.c:279-285 | the chosen data defaults lead to the linked key of that data index, or are null if there is none; nothing else moves and the wiring is kept |
| KeyTable.KeyTable.SetDefaultMgmtKey | vmac/key.c:303-309 | the same for the management default and the management indices |
| KeyTable.KeyTable.FollowDefaults | vmac/key.c:345-371 | pointers to the old key are set anew from an index, all decided before any is set |
| KeyTable.KeyTable.VacateSlot | vmac/key.c:312-376 | replacing by nothing: slot, list and defaults lose the key |
| KeyTable.KeyTable.OccupySlot | vmac/key.c:312-376 | replacing by a new key: slot, lists and defaults go over to it |
| KeyTable.KeyTable.DestroyKey | vmac/key.c:568-590 | a destroyed key gives up its count now or as a pending decrement; from sound counts no warning fires |
| KeyTable.KeyTable.FreeKey | vmac/key.c:702-715 | free is vacate and destroy |
| KeyTable.KeyTable.InstallKey | vmac/key.c:677-684 | count, replace, destroy the old key |
| KeyTable.KeyTable.FinishLink | vmac/key.c:688-694 | upload, and free on refusal |
| KeyTable.KeyTable.LinkKey | vmac/key.c:646-700 | the whole link is `Link` and keeps the bookkeeping sound |
| KeyTable.KeyTable.RemoveKey | vmac/key.c:1092-1113 | a key withdrawn by the driver takes its need back before it is freed |
| KeyTable.KeyTable.DelayedDec | vmac/key.c:942-970 | pending decrements are paid and never exceed the count |
| KeyTable.KeyTable.FreeKeysIface | vmac/key.c:843-862 | pays, vacates the list and returns its keys |
| KeyTable.KeyTable.CollectFrom | vmac/key.c:877-882 | the same for the interface and its VLANs in turn |
| KeyTable.KeyTable.DestroyCollected | vmac/key.c:886-887 | the collected keys are destroyed one by one, each within its count |
| KeyTable.KeyTable.FreeAllKeys | vmac/key.c:864-910 | the loops of ieee80211_free_keys are `FreeKeys` |
| KeyTable.KeyTable.FreeStaKeys | vmac/key.c:912-940 | the loops over group and pairwise slots are `FreeStation` and keep the bookkeeping sound |
| KeyTable.KeyTable.EnableOne | vmac/key.c:739-740 | one turn of the loop of ieee80211_enable_keys counts the key and uploads it |
| KeyTable.KeyTable.EnableKeys | vmac/key.c:738-741 | the loop of ieee80211_enable_keys is `EnableAll`, and from a count at zero or above no warning fires in it |
| KeyTable.KeyTable.ResetTailroom | vmac/key.c:746-760 | an interface and its VLANs count zero |
| KeyBalance.ShareAdjusted | vmac/key.c:63-125 | an adjustment changes the interface's own share by that much and, although VLANs follow, no other's |
| KeyBalance.EnterNeutral | vmac/key.c:681 | a new key enters with its need counted |
| KeyBalance.EnableNeutral | vmac/key.c:135-189 | an upload keeps each count in step with the keys, exactly unless the key was already in the hardware without tailroom and is tainted or accepted again |
| KeyBalance.DisableNeutral | vmac/key.c:240-253 | so does a removal from the hardware |
| KeyBalance.DestroyNeutral | vmac/key.c:568-590 | so does a destruction, delayed or not |
| KeyBalance.PayNeutral | vmac/key.c:942-970 | so does paying the pending decrements |
| KeyBalance.WithdrawNeutral | vmac/key.c:1104-1110 | so does the driver's own removal |
| KeyBalance.CountsSuffice | vmac/key.c:116-125 | the count covers all pending decrements and every key needing tailroom, so the warning cannot fire |
| KeyWiring.VacateWired | vmac/key.c:312-376 | vacating keeps all slots, lists and pointers leading to attached keys, and takes the key out of all of them |
| KeyWiring.OccupyWired | vmac/key.c:312-376 | a new key takes the slot, and every default that led to the old key leads to it |
| KeyWiring.DefaultWired | vmac/key.c:256-285 | setting a data default keeps it null or equal to a slot in its range |
| KeyWiring.DefaultMgmtWired | vmac/key.c:287-309 | the same for the management default |
| KeyWiring.NothingDangles | vmac/key.c:312-376 | a key is reachable from a slot, list or default exactly while it is attached |
| KeyInvariant.FreeSound | vmac/key.c:702-715 | freeing keeps counts and wiring sound and removes exactly that key |
| KeyInvariant.InstallSound | vmac/key.c:681-684 | installing keeps both sound, through the displaced key's destruction |
| KeyInvariant.LinkSound | vmac/key.c:646-700 | a link keeps both sound, also when it fails |
| KeyInvariant.EnabledIs | vmac/key.c:135-218 | enabling succeeds exactly when the hardware takes the key or software may do it |
| KeyInvariant.IdenticalIs | vmac/key.c:613-644 | re-installation means equal bytes, apart from the eight TX MIC bytes of a station's TKIP group key |
| KeyInvariant.RemoveSound | vmac/key.c:1092-1113 | the driver's removal keeps both sound |
| KeyTeardown.CollectSound | vmac/key.c:843-882 | collecting gathers exactly the keys of the interface and its VLANs, each once |
| KeyTeardown.DestroyAllSound | vmac/key.c:886-887 | destroying the collected keys keeps both sound |
| KeyTeardown.FreeKeysSound | vmac/key.c:864-887 | ieee80211_free_keys removes exactly those keys, leaves the others unchanged and pays all pending decrements |
| KeyTeardown.TeardownBalances | vmac/key.c:889-907 | afterwards an access point with its VLANs, or any other interface, counts zero, and a lone VLAN equals its master, so no warning fires |
| KeyTeardown.StationFreed | vmac/key.c:912-940 | ieee80211_free_sta_keys removes exactly the station's keys |
| KeyBringUp.MembersGap | vmac/key.c:717-760 | enabling the keys of several interfaces raises each count over its need by its own stale refused and needy keys only |
| KeyBringUp.BringUpSound | vmac/key.c:717-760 | reset and enabling of an interface with its VLANs keeps the bookkeeping sound, exactly if on each of them the pending decrements are as many as the stale keys refused |
| KeyBringUp.NothingPending | vmac/key.c:729-736 | with nothing pending, as the warnings ask, that means that no stale key is refused |
| KeyRuns.StepSound | vmac/key.c:646-760 | every operation keeps counts and wiring sound |
| KeyRuns.EveryRunIsSound | vmac/key.c:646-1113 | counts and wiring are sound in every run of links, frees, removals, teardowns, delayed decrements, default changes, and interfaces that come up with as many stale keys refused as decrements pending |
| KeyRuns.NeededIs | vmac/key.c:63-125 | in every run the needed count is the pending decrements plus the keys needing tailroom, and a VLAN adds its master's |
| KeyRuns.ReachedWhileLinked | vmac/key.c:312-376 | in every run a key is reachable exactly while linked, and sits in its own slot only |
| KeyRuns.LinkOutcome | vmac/key.c:667-700 | an identical key changes nothing; otherwise the old key goes, and the new one is in its slot exactly when the link succeeds |
| KeyLinks.LinkResult | vmac/key.c:646-700 | when a link returns zero and when -EINVAL, when its key is in the hardware, and with which flags, from the key, the device and the driver's answer |
| KeyLinks.LinkCounts | vmac/key.c:681-694 | a link raises the share of its interface by one unless the driver took the key with neither tailroom flag; a failed link and a displaced key each leave one decrement pending, and a displaced key its demand |
| KeyLinks.LinkDisplaces | vmac/key.c:659-684 | a link unlinks exactly the key of the same index of the same interface, or of the same station and kind, and leaves all others as they were |
| KeyLinks.LinkMovesDefaults | vmac/key.c:341-371 | the defaults that led to the displaced key lead to the new one, or nowhere if the link failed; no other default moves |
| KeyLinks.LinkAppends | vmac/key.c:325-326 | a linked key goes to the end of its interface's list, from which only the key it displaced is gone |
| KeyLinks.FreeClearsDefaults | vmac/key.c:341-360 | freeing a key clears the defaults that led to it and moves no other |
| KeyCounts.DestroyCounts | vmac/key.c:568-590 | a delayed destruction leaves the key's demand in the count and adds one pending decrement; an immediate one takes one off; a key in the hardware without tailroom first gets its demand back |
| KeyCounts.RemoveCounts | vmac/key.c:1092-1113 | a key withdrawn by the driver gives up its demand at once and leaves nothing more pending |
| KeyCounts.PayCounts | vmac/key.c:942-970 | the delayed work takes exactly what is pending off the interface's own share |
| KeyCounts.TeardownPending | vmac/key.c:843-887 | ieee80211_free_keys leaves nothing pending on the interface and its VLANs, and elsewhere what was |
| KeyCounts.StationPending | vmac/key.c:912-940 | ieee80211_free_sta_keys leaves one decrement pending for each of the station's keys, on that key's interface |
| KeyUploads.EveryUploadIsSupported | vmac/key.c:151-173 | in every run no group key of a VLAN is in the hardware, none of a station without per-station GTK support, and none at all if the driver takes no keys |
| KeyUploads.BringUpUploads | vmac/key.c:717-760 | after coming up each key of the interface and its VLANs is in the hardware exactly if it is untainted and the driver took it, or had it before; other keys are unchanged |
| KeyRestore.TurnGap | vmac/key.c:738-741 | one turn of ieee80211_enable_keys raises the count over the need by one exactly for a key that needed tailroom or is stale and refused |
| KeyRestore.EnableRestores | vmac/key.c:717-744 | from zero counts the interface is balanced again exactly when as many stale keys are refused as decrements are pending |
| KeyRestore.EnableCounts | vmac/key.c:738-741 | a count at zero or above stays there through the loop |
| KeyRestore.ResetShares | vmac/key.c:746-760 | a reset takes the share of an interface and its VLANs whatever it was, moves no other, and leaves a VLAN reset alone short of its master's count |

## Left out

- EveryRunDeliversOnce: for in-window arrivals, and memory whose slot 0 does not hold one. `StaleArrivalDecides` says exactly which older arrivals are judged wrongly, with the cases in `StaleArrivalFails`, and `FreshDecides` which memory fails, with the run `FirstFrameLost`.
- EveryRunIsPaced: for answers whose round fits the pacing byte and that make no echo; `PacingNeedsByte` and `AnswerKeepsSixApart` say exactly when those conditions matter, and `PacingWrapFails` and `PacingFails` are runs without the one and the other.
- EveryRunIsSafe: within one epoch of sequence numbers; nothing is said of the bytes of a buffer handed over twice, which `HandedOnce` says exactly when happens; its last part is for runs without a misled scan, of which `BuiltIsTruthful` gives the exact condition and `SoundnessFails` a run.
- MissingIsRepaired: for exchanges in which the words outside the arrays do no harm, by the exact conditions of `HolesAreFirstRuns` and `CallsAnswered`.
- PendingIsOwned: the cleanup of a receiver entry, which frees a pending DACK and may race with timer and generator.
- EveryRunIsSound: a VLAN that comes up without its access point, whose count the reset leaves short by its master's (`ResetShares`); and the warnings of ieee80211_enable_keys on counts that are not zero.
- Hardware registration, driver stubs and vendored declarations (`vmac/hooks.c`, `vmac/hw.h`, `vmac/ieee80211_i.h`, `vmac/sta_info.h`, `ath9k_htc`): not logic of the protocol.
- Netlink and low-level transmission: delivery upward and sending are logs.
- Queues and threads of `vmac/queue.c`: FIFO channels that would add only easy members.
- Hash tables of `vmac/main.c`: lookup does not compare keys, so a map refinement does not hold.
- DACK suppression (`vmac/rx.c:373-387`): unreachable, because the pointer was set to null before.
- Failed allocations and failed frame copies; interest and announcement frames beyond entry creation.
- Crypto setup, RCU, debugfs and `synchronize_net` in `vmac/key.c`: the driver's answer is a parameter.
- Key iteration, receive counters, cipher tables and rekey notification in `vmac/key.c`: simple copies.
- Linked lists as such: a key list is a sequence, and pointers are identifiers in maps, so aliasing of list nodes is not modelled.
