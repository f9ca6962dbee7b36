# Port 76 transport: a verified model

This project models the path of a Reticulum frame through the Meshtastic bridge: from the
local client through fragmentation and a paced, bounded queue, over a radio that loses,
reorders and duplicates, back to a delivered frame. Everything is proved for every input,
every run or every reachable state; nothing here executes the bridge.

`dafny verify dfyconfig.toml` checks the whole project.

## How it is laid out

Each component that changes state step by step has three layers. A `...Spec` module gives its
state as a value and each operation as a function on it. A class of the source's own shape,
with the source's fields, loops and branches, is proved against that specification: every
method states its whole new state and its answer. Theorem modules then reason about the
specification over whole runs.

| component | specification | class | theorems |
|---|---|---|---|
| fragmentation, reassembly, repair (`framing.py`) | `Fragments`, `FragmentSpec` | `FragmentProtocols` | `Sending`, `Completions`, `Remembering`, `AssemblyLogs`, `RepairBudget`, `RepairAttempts`, `Reassembly`, `Retransmission`, `PollChoice`, `ProtocolAnswers`, `RepairDialogue`, `RepairConvergence` |
| its Android twin (`FragmentProtocol.java`) | `AndroidFragmentSpec` | `AndroidFragmentProtocols` | `AndroidRepairs`, `ProtocolTwins`, `CacheOrder` |
| `TransmitScheduler` | `SchedulerSpec` | `TransmitSchedulers` | `SchedulerAccounting`, `SchedulerVerdicts`, `SchedulerOrder`, `SchedulerProgress` |
| `RnsPeerRouter` | `PeerRouterSpec` | `RnsPeerRouters` | `RouterHistory` |
| `ReticulumTcpServer`, `InboundFrameSpool` | `ServerSpec`, `SpoolSpec` | `ReticulumTcpServers`, `InboundFrameSpools` | `DeliveryOrder`, `DeliveryFates` |
| `HdlcCodec`, `StreamFrameCodec` | `ByteMachines`, `Hdlc`, `StreamFrames` | `Hdlc`, `StreamFrames` | `ByteMachines`, `Hdlc`, `StreamFrames` |
| `ProtoCodec` | `ProtoWire`, `ProtoPackets` | `ProtoCodec` | `ProtoPackets`, `ProtoSent`, `ProtoReceived` |
| limits in `BridgeEngine` | `Admission` | `Admission` | `Admission` |

`Common`, `OrderedMaps` and `FragmentFacts` hold shared vocabulary and facts.

## Conventions

- Clocks are integers that do not run backwards. A call of the protocol or of the spool reads
  the clock twice: `swept` drives the clean-up, `now` stamps what the call does, and
  `swept <= now`. Runs are `Timed` when these readings never go backwards.
- Digests, the metadata extracted from Reticulum headers, the canonical form of a node name,
  whether a write succeeds, what the sender answers and how a Java hash map is walked are
  inputs of the steps. Results hold for all of them.
- A synchronized block is one atomic step. The worker's waits between them are loops over the
  readings of the time source; that a sleep lasts at least as long as asked is an assumption
  about the time source.
- An exception is a value: `Raised`, `Refused`, `Malformed`, `None`.
- A lookup for an index asks for its history: `Sparse` says that any 257 consecutive frames
  span more than the lifetime, so no index is reused while it is live.

## Where the code falls short of its aim

- A data fragment can be taken for a request (`Fragments.LooksLikeRequestIff`,
  `Fragments.LookalikeExists`); it is then answered as one instead of being filed, and its frame
  is never delivered (`Reassembly.NeverDelivered`, `Reassembly.DeliveryIff`).
- `replayed` does not always mean written (`DeliveryOrder.ReplayHonestIff`,
  `DeliveryOrder.ReplayLies`).
- After `close` the counters are wrong exactly when a batch is in flight, and then go below
  zero (`SchedulerAccounting.CloseAccountsIff`, `SchedulerAccounting.ClosedGoesNegative`).
- The two implementations part on a wire position of -128 and on a truncated request
  (`ProtocolTwins.HearAgreesIff`).
- Storing under a key that is still cached moves it to the end of the eviction queue in
  `framing.py` only (`ProtocolTwins.SendOrderIff`), so after an eviction the two sides may hold
  different frames (`ProtocolTwins.SendAgreesIff`) and answer differently
  (`CacheOrder.CachesPart`).
- A poll serves the assembly begun first, so an older assembly that is due holds up a younger one
  (`RepairDialogue.PollTurnIff`).
- Repair traffic is held up too while the only data queued is announcements that may not begin
  yet and the last send was repair traffic (`SchedulerProgress.ContestedChoice`).
- A length of 2^63 or above is cut to 32 bits when its field is read and refused when it is skipped
  (`ProtoSent.SkipReadsAlikeIff`).
- A repair that could be sent is not always reported as deferred
  (`ProtocolTwins.ReceiveDeferredIff`, `ProtocolTwins.DeferredTooLate`).

## Model

| member | source | states |
|---|---|---|
| `RepairConvergence.AllConverge` | src/rns_meshtastic/framing.py:175-300 | any number of partial frames from any number of senders at once: if all outstanding positions together fit the free budget, exactly one lossless exchange and one request per outstanding position (the final ones included) deliver exactly the wanted frames, each once, and every other assembly stays as it was |
| `RepairConvergence.Converges` | src/rns_meshtastic/framing.py:175-300 | one frame, on conditions that can be told beforehand: whatever else is being assembled, as long as no assembly begun earlier has an askable position at any poll, exactly the cached frame is delivered after one request per outstanding position |
| `RepairConvergence.OneFragmentIsEnough` | src/rns_meshtastic/framing.py:98-300 | from fresh objects: of the transmissions a broadcast emits only one non-final one arrives; one exchange per lost transmission restores exactly the frame |
| `Sending.EncodeIs` | src/rns_meshtastic/framing.py:98-124 | in any state a frame is refused, with nothing changed, if and only if it is empty or longer than 127 bodies; otherwise transmission `i` is fragment `i` under the next index, data, to the given destination, and there are as many as chunks |
| `Sending.TwinEncodeIs` | android/app/src/main/java/bg/reticulum/meshtastic/bridge/FragmentProtocol.java:149-170 | the same for the Android side |
| `Sending.SentUnder` | src/rns_meshtastic/framing.py:107-119 | in any run accepted frame number `n` goes out under index `n % 256` |
| `Sending.SentIsDelivered` | src/rns_meshtastic/framing.py:98-263 | what any sender in any state emits for a frame, heard by a fresh receiver in any order and with repetitions, delivers exactly the frame with the last transmission to arrive, unless one looks like a request |
| `ProtocolAnswers.PollIs` | src/rns_meshtastic/framing.py:175-202 | a poll for any number of requests asks for the first of all askable positions, assembly by assembly in the order they were begun and position by position, as many as the caller allows and the rolling budget leaves |
| `ProtocolAnswers.FileAsks` | src/rns_meshtastic/framing.py:243-251 | a fragment that leaves its frame incomplete is answered with one request, for the first askable position, if the end is known, some position is askable and the budget leaves one; with silence otherwise |
| `ProtocolAnswers.RefusedIff` | src/rns_meshtastic/framing.py:126-135 | exactly which received payloads are refused, and that nothing but the clean-up happens then |
| `ProtocolAnswers.TwinRefusedIff` | android/app/src/main/java/bg/reticulum/meshtastic/bridge/FragmentProtocol.java:176-186 | exactly which received payloads the Android side refuses, and that only the clean-up happens then |
| `ProtocolAnswers.QuietDeliversTheSame` | src/rns_meshtastic/framing.py:126-135 | without permission for control traffic nothing is sent and the same frames are delivered |
| `ProtocolAnswers.QuietPoll` | src/rns_meshtastic/framing.py:175-202 | without permission a poll sends nothing and only cleans up |
| `ProtocolAnswers.TrafficClass` | android/app/src/main/java/bg/reticulum/meshtastic/bridge/TransmitScheduler.java:579-581 | everything `encode` returns is data to the scheduler, everything `receive` and `poll_repairs` return is control traffic |
| `RepairConvergence.ExchangeStep` | src/rns_meshtastic/framing.py:204-300 | one exchange brings exactly one outstanding position; the frame is delivered when it was the last one; the other frames, the budget and the senders stay in order |
| `RepairDialogue.PollTurnIff` | src/rns_meshtastic/framing.py:175-202 | a poll asks for exactly one position, on behalf of a wanted frame if and only if no unwanted assembly that is due was begun before them all |
| `PollChoice.PollOneIs` | src/rns_meshtastic/framing.py:175-202 | a poll for one request asks for the first askable position of the first assembly that is due, and for nothing if none is |
| `PollChoice.PollNone` | src/rns_meshtastic/framing.py:290-292 | with the trimmed window full a poll asks for nothing |
| `Reassembly.Integrity` | src/rns_meshtastic/framing.py:218-263 | for every interleaving, reordering, duplication and loss, with any other traffic, each frame delivered under a source and index that name one frame is that frame, byte for byte |
| `Reassembly.Delivery` | src/rns_meshtastic/framing.py:218-263 | the call that brings the last outstanding position answers with exactly the frame, and no earlier call delivers anything under that key |
| `Reassembly.DeliveryIff` | src/rns_meshtastic/framing.py:126-263 | under the same conditions the completing call answers with the frame if and only if no fragment of it looks like a request |
| `Reassembly.NeverDelivered` | src/rns_meshtastic/framing.py:126-263 | a frame with a fragment that looks like a request is never delivered, whatever arrives and however often |
| `Reassembly.NoLookalikeIff` | src/rns_meshtastic/framing.py:126-135 | no fragment looks like a request unless the index is 82, the frame has at least 70 fragments and the body of position 69 begins with `Q` |
| `Reassembly.AnyOrder` | src/rns_meshtastic/framing.py:218-263 | a fresh receiver that hears the fragments of a frame in any order, some repeatedly, answers with exactly the frame when the last outstanding one arrives |
| `Reassembly.ShortFramesAreSafe` | src/rns_meshtastic/framing.py:126-135 | frames of at most 69 fragments, and frames under any index but 82, are never taken for requests |
| `Completions.AtMostOncePerLifetime` | src/rns_meshtastic/framing.py:226-262 | in every run two deliveries for one source and index are more than the lifetime apart |
| `Completions.CachesStayInLockstep` | src/rns_meshtastic/framing.py:254-262 | in every run the index cache is the projection of the digest cache, entry by entry and time by time |
| `Completions.DigestCheckIsDead` | src/rns_meshtastic/framing.py:254-262 | when the index is not remembered, no digest of it is either |
| `Completions.DigestNeverMatters` | src/rns_meshtastic/framing.py:254-262 | under any two digest functions, colliding or not, every call of every run answers the same |
| `Retransmission.AnswersAreGenuine` | src/rns_meshtastic/framing.py:204-216 | every answer to a request is one transmission to the asking node, byte for byte the asked-for fragment of a frame sent under that index, to that node or to everybody, within the lifetime |
| `Retransmission.AnsweredIff` | src/rns_meshtastic/framing.py:204-216 | with at most 256 frames per lifetime there is at most one live frame per index, and the answer is its asked-for fragment if and only if there is one, it went to the asking node or to everybody, and it has that position; in every other case silence |
| `RepairBudget.SlidingWindow` | src/rns_meshtastic/framing.py:290-297 | over the history of all requests of any run, any `maxRequests + 1` consecutive ones span at least the window |
| `RepairBudget.ExhaustedIff` | src/rns_meshtastic/framing.py:333-336 | after any run the budget is used up if and only if `maxRequests` requests fell within the last window |
| `AssemblyLogs.AssemblyIs` | src/rns_meshtastic/framing.py:226-242 | in every run an unfinished frame holds at each position the body last filed there, as its end the last position marked final, as its age the last fragment that was news, and per position the number and the last time of the requests since there was news about it, all told from the fragments and requests alone |
| `Remembering.RememberedIff` | src/rns_meshtastic/framing.py:254-262 | after any run, at any later time, fragments of a source and index are dropped as belonging to a finished frame if and only if a frame was delivered under them within the lifetime |
| `RepairAttempts.AttemptCap` | src/rns_meshtastic/framing.py:276-300 | within the life of one assembly a position is requested at most `maxAttempts` times whatever resets its counters, and request `k` comes at least `cooldown * (2^k - 2)` after the first |
| `RepairAttempts.PositionsFit` | src/rns_meshtastic/framing.py:228-251 | every position ever requested lies in 0..127, as the number handed to the header and as read back from the wire, so packing it never fails |
| `AndroidRepairs.TwinSlidingWindow` | android/app/src/main/java/bg/reticulum/meshtastic/bridge/FragmentProtocol.java:383-395 | the budget of the Android side is a true sliding window over every run, for every way of walking the hash map |
| `AndroidRepairs.TwinAttemptCap` | android/app/src/main/java/bg/reticulum/meshtastic/bridge/FragmentProtocol.java:326-334 | on the Android side a position is requested at most three times in one assembly life, with the same back-off, for every way of walking the hash map, and every position fits the signed byte |
| `Fragments.ChunksRejoin` | src/rns_meshtastic/framing.py:101-103 | cutting loses and adds nothing: the chunks laid end to end are the frame |
| `Fragments.ChunkCount` | src/rns_meshtastic/framing.py:101-105 | the number of fragments is the length divided by the body size, rounded up |
| `Fragments.ChunkAt` | android/app/src/main/java/bg/reticulum/meshtastic/bridge/FragmentProtocol.java:158-167 | the bytes copied out of the frame at each offset are the chunks of the slicing encoder |
| `Fragments.HeaderReadsBack` | src/rns_meshtastic/framing.py:302-309 | what the receiver reads from a fragment is the index, the position with the sign marking the last, and the body that were written |
| `Fragments.LooksLikeRequestIff` | src/rns_meshtastic/framing.py:126-135 | a data fragment is taken for a request if and only if its index is 82, it is position 69 of at least 70, and its body begins with `Q` |
| `Fragments.LookalikeExists` | src/rns_meshtastic/framing.py:126-135 | a concrete frame with such a fragment |
| `FragmentProtocols.FragmentProtocol.Encode` | src/rns_meshtastic/framing.py:98-124 | new state and transmissions, or the refusal, of the specification |
| `FragmentProtocols.FragmentProtocol.Receive` | src/rns_meshtastic/framing.py:126-135 | new state and answer of the specification, for requests, fragments and refused payloads |
| `FragmentProtocols.FragmentProtocol.PollRepairs` | src/rns_meshtastic/framing.py:175-202 | new state and requests of the specification |
| `FragmentProtocols.FragmentProtocol.HandleRequest` | src/rns_meshtastic/framing.py:204-216 | the answer of the specification; changes nothing |
| `FragmentProtocols.FragmentProtocol.HandleFragment` | src/rns_meshtastic/framing.py:218-263 | new state and answer of the specification |
| `FragmentProtocols.FragmentProtocol.AppendRepairRequests` | src/rns_meshtastic/framing.py:265-300 | the assembly, budget window and transmissions of the specification |
| `FragmentProtocols.FragmentProtocol.CleanupLocked` | src/rns_meshtastic/framing.py:311-331 | the swept state of the specification |
| `FragmentProtocols.FragmentProtocol.CleanupRepairBudget` | src/rns_meshtastic/framing.py:333-336 | the trimmed budget window |
| `FragmentProtocols.FragmentProtocol.Cut` | src/rns_meshtastic/framing.py:101-103 | the chunks of the specification |
| `FragmentProtocols.FragmentProtocol.MissingPositions` | src/rns_meshtastic/framing.py:247-247 | the missing positions of the specification |
| `ProtocolTwins.TwinsAgree` | android/app/src/main/java/bg/reticulum/meshtastic/bridge/FragmentProtocol.java:149-264 | call by call, every run is answered alike by the two implementations, as long as every call lies on their common ground, no frame is evicted from the cache, and polls visit the assemblies that are due in the order they were begun, the others in any order |
| `ProtocolTwins.PollOneAgreesIff` | android/app/src/main/java/bg/reticulum/meshtastic/bridge/FragmentProtocol.java:247-262 | a poll for one request asks for the same on both sides if and only if the walk through the hash map meets the same due assembly first |
| `ProtocolTwins.AnyWalk` | android/app/src/main/java/bg/reticulum/meshtastic/bridge/FragmentProtocol.java:247-262 | with at most one assembly due every walk through the hash map will do |
| `ProtocolTwins.SparseNeverEvicts` | android/app/src/main/java/bg/reticulum/meshtastic/bridge/FragmentProtocol.java:168-169 | while no index is reused within a lifetime nothing is ever evicted |
| `ProtocolTwins.SendAgreesIff` | android/app/src/main/java/bg/reticulum/meshtastic/bridge/FragmentProtocol.java:149-170 | one sent frame, on twin states: the transmissions agree, and the caches hold the same afterwards if and only if nothing is evicted or both evict the same entry |
| `ProtocolTwins.SendOrderIff` | android/app/src/main/java/bg/reticulum/meshtastic/bridge/FragmentProtocol.java:168-169 | and caches in the same order stay in the same order if and only if the key is new or already last |
| `ProtocolTwins.MoveMattersIff` | android/app/src/main/java/bg/reticulum/meshtastic/bridge/FragmentProtocol.java:168-168 | moving a stored entry to the end changes the queue if and only if its key was there and not last |
| `CacheOrder.CachesPart` | android/app/src/main/java/bg/reticulum/meshtastic/bridge/FragmentProtocol.java:168-169 | a run of 514 frames within one lifetime after which `framing.py` answers a request for the frame sent last to a node and the Android side is silent |
| `ProtocolTwins.HearAgreesIff` | android/app/src/main/java/bg/reticulum/meshtastic/bridge/FragmentProtocol.java:176-235 | on twin states one received payload is answered alike if and only if its position is not -128 and it is not a truncated request that may be answered; without a source, if and only if the Android side refuses it too |
| `ProtocolTwins.PopIsFilter` | android/app/src/main/java/bg/reticulum/meshtastic/bridge/FragmentProtocol.java:365-381 | forgetting from the front, as `framing.py` does, forgets exactly what filtering forgets, because completions are stored in the order of time |
| `ProtocolTwins.ReceiveDeferredIff` | android/app/src/main/java/bg/reticulum/meshtastic/bridge/FragmentProtocol.java:210-218 | "deferred" holds exactly when the same call with repair traffic allowed would send something, except that fragments also need a budget that did not look full at clean-up; frames and refusals do not depend on permission |
| `ProtocolTwins.PollDeferredIff` | android/app/src/main/java/bg/reticulum/meshtastic/bridge/FragmentProtocol.java:241-264 | the same for polls, for any order of walking the assemblies |
| `ProtocolTwins.DeferredTooLate` | android/app/src/main/java/bg/reticulum/meshtastic/bridge/FragmentProtocol.java:210-218 | a concrete state in which the exception occurs |
| `AndroidFragmentProtocols.FragmentProtocol.Encode` | android/app/src/main/java/bg/reticulum/meshtastic/bridge/FragmentProtocol.java:149-170 | new state and transmissions, or the refusal, of the Android specification |
| `AndroidFragmentProtocols.FragmentProtocol.CutAll` | android/app/src/main/java/bg/reticulum/meshtastic/bridge/FragmentProtocol.java:158-167 | copying by offset gives the same fragments as slicing |
| `AndroidFragmentProtocols.FragmentProtocol.Receive` | android/app/src/main/java/bg/reticulum/meshtastic/bridge/FragmentProtocol.java:176-235 | new state and answer of the Android specification |
| `AndroidFragmentProtocols.FragmentProtocol.HandleFragment` | android/app/src/main/java/bg/reticulum/meshtastic/bridge/FragmentProtocol.java:182-234 | new state and answer of the Android specification behind the header |
| `AndroidFragmentProtocols.FragmentProtocol.PollRepairs` | android/app/src/main/java/bg/reticulum/meshtastic/bridge/FragmentProtocol.java:241-264 | new state and answer of the Android specification for any order of walking the hash map |
| `AndroidFragmentProtocols.FragmentProtocol.HandleRequest` | android/app/src/main/java/bg/reticulum/meshtastic/bridge/FragmentProtocol.java:266-283 | the answer or the deferral; changes nothing |
| `AndroidFragmentProtocols.FragmentProtocol.AppendRepairRequests` | android/app/src/main/java/bg/reticulum/meshtastic/bridge/FragmentProtocol.java:294-315 | assembly, budget window and transmissions of the shared specification |
| `AndroidFragmentProtocols.FragmentProtocol.HasDueRepair` | android/app/src/main/java/bg/reticulum/meshtastic/bridge/FragmentProtocol.java:317-324 | true if and only if some missing position has attempts left and its back-off has passed |
| `AndroidFragmentProtocols.FragmentProtocol.TakeRepairBudget` | android/app/src/main/java/bg/reticulum/meshtastic/bridge/FragmentProtocol.java:383-388 | takes one unit if and only if the trimmed window has room |
| `AndroidFragmentProtocols.FragmentProtocol.Cleanup` | android/app/src/main/java/bg/reticulum/meshtastic/bridge/FragmentProtocol.java:365-381 | the swept state of the Android specification |
| `SchedulerOrder.CausalOrder` | android/app/src/main/java/bg/reticulum/meshtastic/bridge/TransmitScheduler.java:384-465 | per lane, the log of successful sends is the concatenation, in admission order, of a prefix of every admitted frame, whole except for abandoned frames, the current one and those waiting; a frame of `n` fragments costs at most `n + 2` sender calls |
| `SchedulerAccounting.AccountingHolds` | android/app/src/main/java/bg/reticulum/meshtastic/bridge/TransmitScheduler.java:302-465 | in every reachable open state the counters equal the sums over queued and in-flight batches; at most one serialized frame is pending and then it is the only data frame; with none, total and data use keep their limits in frames, fragments and bytes |
| `SchedulerAccounting.ReserveIsReal` | android/app/src/main/java/bg/reticulum/meshtastic/bridge/TransmitScheduler.java:519-536 | in every reachable open state a control frame that fits the reserve beside the pending control is accepted, whatever data was admitted before |
| `SchedulerAccounting.AdmitsIff` | android/app/src/main/java/bg/reticulum/meshtastic/bridge/TransmitScheduler.java:283-362 | in every reachable open state a serialized frame is accepted if and only if no data is pending, any other if and only if it can ever fit and what is really queued and in flight leaves room for it (beside a serialized frame: the reserve, for control only) |
| `SchedulerVerdicts.VerdictIff` | android/app/src/main/java/bg/reticulum/meshtastic/bridge/TransmitScheduler.java:283-362 | the verdict in every reachable open state: nothing to do if and only if nothing was offered; impossible if and only if the offer can never fit and may not be serialized; accepted or full if and only if it can and there is or there is not room beside what is really queued and in flight |
| `SchedulerVerdicts.ClosedVerdict` | android/app/src/main/java/bg/reticulum/meshtastic/bridge/TransmitScheduler.java:302-331 | after closing every possible offer is answered as closed, and no caller is told to wait |
| `SchedulerVerdicts.OneMoreAttempt` | android/app/src/main/java/bg/reticulum/meshtastic/bridge/TransmitScheduler.java:375-465 | whatever follows closing, at most one attempt ends, the one that was in flight, and nothing is tried again |
| `SchedulerVerdicts.FullIsServed` | android/app/src/main/java/bg/reticulum/meshtastic/bridge/TransmitScheduler.java:315-333 | an offer answered as full is accepted once the queues have drained |
| `SchedulerVerdicts.AcceptedBatch` | android/app/src/main/java/bg/reticulum/meshtastic/bridge/TransmitScheduler.java:334-362 | an accepted offer is one new batch behind all others of its kind, with its transmissions and priority; repair traffic has no priority of its own |
| `SchedulerAccounting.AcceptsControlIff` | android/app/src/main/java/bg/reticulum/meshtastic/bridge/TransmitScheduler.java:364-369 | what `canAcceptControl` answers is what admission of a control frame of that size decides |
| `SchedulerAccounting.StepLanes` | android/app/src/main/java/bg/reticulum/meshtastic/bridge/TransmitScheduler.java:384-465 | what each step does to each lane: taking a batch and putting it back change nothing, a success serves its head, a failure retries or drops it |
| `SchedulerAccounting.CloseAccountsIff` | android/app/src/main/java/bg/reticulum/meshtastic/bridge/TransmitScheduler.java:587-606 | after `close` the counters agree with what is left if and only if nothing was in flight |
| `SchedulerAccounting.ClosedGoesNegative` | android/app/src/main/java/bg/reticulum/meshtastic/bridge/TransmitScheduler.java:442-452 | a success that finishes after `close` drives the fragment counter to -1 |
| `SchedulerProgress.DrainsAndAdmits` | android/app/src/main/java/bg/reticulum/meshtastic/bridge/TransmitScheduler.java:384-465 | from every reachable open state, for any announcement spacing, a bounded number of sender calls, whichever fail, empties the scheduler, and then a frame is accepted if and only if it can ever fit or qualifies as serialized |
| `SchedulerProgress.TurnIsLegal` | android/app/src/main/java/bg/reticulum/meshtastic/bridge/TransmitScheduler.java:375-405 | the turns that drain the queues are turns the waits of the worker allow |
| `SchedulerProgress.Paced` | android/app/src/main/java/bg/reticulum/meshtastic/bridge/TransmitScheduler.java:507-517 | every attempt starts no earlier than any earlier success plus interval plus advised delay |
| `SchedulerProgress.RetriesSleep` | android/app/src/main/java/bg/reticulum/meshtastic/bridge/TransmitScheduler.java:405-436 | after a first or second failure of a frame no attempt starts for 1,000,000,000 nanoseconds |
| `SchedulerProgress.ContestedChoice` | android/app/src/main/java/bg/reticulum/meshtastic/bridge/TransmitScheduler.java:384-396 | with both kinds queued, repair traffic is taken if and only if the last successful send was not repair traffic; nothing is taken if and only if it was and only announcements that may not begin yet are queued |
| `SchedulerProgress.Alternates` | android/app/src/main/java/bg/reticulum/meshtastic/bridge/TransmitScheduler.java:384-396 | with both kinds always queued, successful sends alternate strictly |
| `SchedulerProgress.BoundedBypass` | android/app/src/main/java/bg/reticulum/meshtastic/bridge/TransmitScheduler.java:474-490 | while an announcement that may begin waits, at most four other data frames finish before one is taken up |
| `SchedulerProgress.TakesByPriority` | android/app/src/main/java/bg/reticulum/meshtastic/bridge/TransmitScheduler.java:474-490 | a normal frame is taken only with no high one queued; an announcement that may begin only with no other data queued or after four other frames finished since the last announcement, and then before them |
| `SchedulerVerdicts.PriorityOrder` | android/app/src/main/java/bg/reticulum/meshtastic/bridge/TransmitScheduler.java:474-490 | the same by the priorities the callers gave: no normal frame while a high one is queued, no announcement while other data is, but after four other data frames the announcement first |
| `SchedulerVerdicts.StartedIff` | android/app/src/main/java/bg/reticulum/meshtastic/bridge/TransmitScheduler.java:438-465 | in every run a batch counts as started if and only if some fragment of it was sent |
| `SchedulerVerdicts.GivenUpAtThree` | android/app/src/main/java/bg/reticulum/meshtastic/bridge/TransmitScheduler.java:405-436 | in every run a frame is given up exactly at its third failed attempt, never before |
| `SchedulerProgress.AnnouncementsSpaced` | android/app/src/main/java/bg/reticulum/meshtastic/bridge/TransmitScheduler.java:474-490 | a new announcement is taken up no earlier than the spacing after any earlier one was finished |
| `TransmitSchedulers.TransmitScheduler.RunOnce` | android/app/src/main/java/bg/reticulum/meshtastic/bridge/TransmitScheduler.java:375-465 | one turn of the worker loop: both steps it makes are enabled where it makes them, and the new state is the one they lead to |
| `TransmitSchedulers.TransmitScheduler.AwaitGlobalPacing` | android/app/src/main/java/bg/reticulum/meshtastic/bridge/TransmitScheduler.java:507-517 | the wait ends at the first reading not before the pacing allows |
| `TransmitSchedulers.TransmitScheduler.AwaitWork` | android/app/src/main/java/bg/reticulum/meshtastic/bridge/TransmitScheduler.java:380-400 | the wait ends at the first reading at which some batch may be taken, with that batch taken |
| `TransmitSchedulers.TransmitScheduler.Enqueue` | android/app/src/main/java/bg/reticulum/meshtastic/bridge/TransmitScheduler.java:283-362 | verdict and new state of one admission pass |
| `TransmitSchedulers.TransmitScheduler.CanAcceptControl` | android/app/src/main/java/bg/reticulum/meshtastic/bridge/TransmitScheduler.java:364-369 | true if and only if a control frame of that size would be accepted now |
| `TransmitSchedulers.TransmitScheduler.HasCapacity` | android/app/src/main/java/bg/reticulum/meshtastic/bridge/TransmitScheduler.java:519-532 | the capacity condition, for data, control, and control beside a serialized frame |
| `TransmitSchedulers.TransmitScheduler.Take` | android/app/src/main/java/bg/reticulum/meshtastic/bridge/TransmitScheduler.java:384-403 | the batch the worker takes and the queue it leaves |
| `TransmitSchedulers.TransmitScheduler.OnSent` | android/app/src/main/java/bg/reticulum/meshtastic/bridge/TransmitScheduler.java:438-465 | the whole new state after a success |
| `TransmitSchedulers.TransmitScheduler.OnFailed` | android/app/src/main/java/bg/reticulum/meshtastic/bridge/TransmitScheduler.java:405-436 | the whole new state after a failure: back to the head of its queue, or abandoned with its counters |
| `TransmitSchedulers.TransmitScheduler.Close` | android/app/src/main/java/bg/reticulum/meshtastic/bridge/TransmitScheduler.java:587-606 | the whole new state after closing |
| `TransmitSchedulers.TransmitScheduler.SumBytes` | android/app/src/main/java/bg/reticulum/meshtastic/bridge/TransmitScheduler.java:297-297 | the sum of the payload sizes |
| `TransmitSchedulers.TransmitScheduler.AllControl` | android/app/src/main/java/bg/reticulum/meshtastic/bridge/TransmitScheduler.java:294-294 | true if and only if every transmission is repair traffic |
| `RouterHistory.DecisionIff` | android/app/src/main/java/bg/reticulum/meshtastic/bridge/RnsPeerRouter.java:119-143 | for every frame: it goes to one node if and only if it is data, a link request or a proof, for a single destination or a link, and its destination was touched within 86,400,000 ms with fewer than 512 other keys touched since; the node is then the last accepted teacher of that key; every other frame is broadcast, with the reason named for each |
| `RouterHistory.StaysBounded` | android/app/src/main/java/bg/reticulum/meshtastic/bridge/RnsPeerRouter.java:166-184 | in every reachable state at most 512 routes and 32 peers |
| `RouterHistory.OrderIsAge` | android/app/src/main/java/bg/reticulum/meshtastic/bridge/RnsPeerRouter.java:166-184 | map order agrees with the order of the time stamps |
| `RouterHistory.EvictedOvertaken` | android/app/src/main/java/bg/reticulum/meshtastic/bridge/RnsPeerRouter.java:177-183 | in any run, when a young route is evicted at least 512 other keys were touched since it was last touched |
| `RouterHistory.RefusedIff` | android/app/src/main/java/bg/reticulum/meshtastic/bridge/RnsPeerRouter.java:88-95 | in any run a node is refused as a teacher if and only if it was not heard within the lifetime and 32 others were, told from the arrivals alone |
| `RouterHistory.RepliesReturn` | android/app/src/main/java/bg/reticulum/meshtastic/bridge/RnsPeerRouter.java:105-116 | after an accepted peer was heard, whatever is sent to the hash of its packet, to the destination it announced or on its link, other than an announcement and for a single destination or a link, goes to that peer alone, for as long as the lifetime |
| `RouterHistory.TaughtIff` | android/app/src/main/java/bg/reticulum/meshtastic/bridge/RnsPeerRouter.java:105-116 | which keys a received packet teaches: its own hash always, its destination if announced or a link, the link it requests |
| `RnsPeerRouters.RnsPeerRouter.ObserveInbound` | android/app/src/main/java/bg/reticulum/meshtastic/bridge/RnsPeerRouter.java:85-117 | new state of the specification |
| `RnsPeerRouters.RnsPeerRouter.DestinationFor` | android/app/src/main/java/bg/reticulum/meshtastic/bridge/RnsPeerRouter.java:119-143 | new state and decision of the specification |
| `RnsPeerRouters.RnsPeerRouter.Learn` | android/app/src/main/java/bg/reticulum/meshtastic/bridge/RnsPeerRouter.java:166-184 | the new route map, eviction included |
| `RnsPeerRouters.RnsPeerRouter.HearPeer` | android/app/src/main/java/bg/reticulum/meshtastic/bridge/RnsPeerRouter.java:88-98 | accepted or not, and the new peer map |
| `RnsPeerRouters.RnsPeerRouter.Prune` | android/app/src/main/java/bg/reticulum/meshtastic/bridge/RnsPeerRouter.java:186-189 | the maps without what is past its lifetime |
| `DeliveryOrder.InOrder` | android/app/src/main/java/bg/reticulum/meshtastic/bridge/ReticulumTcpServer.java:86-189 | whenever the write lock is free a connected output means an empty spool, the deliveries over any number of connections and failed writes are an in-order subsequence of the arrivals, the spooled frames continue it, and the books balance |
| `DeliveryFates.SendIff` | android/app/src/main/java/bg/reticulum/meshtastic/bridge/ReticulumTcpServer.java:128-142 | with an output and a write that succeeds a frame is delivered, as the next of all deliveries; otherwise nothing is written, the output is gone, and the frame is spooled, a duplicate, rejected or refused as the spool decides |
| `DeliveryFates.OfferIff` | android/app/src/main/java/bg/reticulum/meshtastic/bridge/InboundFrameSpool.java:81-99 | a frame is queued, and is then the last entry, if and only if it is not empty, its digest is not among the entries that have not expired, and frames and bytes leave room; duplicate if and only if it is among them; rejected only for want of room |
| `DeliveryFates.EveryFrame` | android/app/src/main/java/bg/reticulum/meshtastic/bridge/ReticulumTcpServer.java:86-189 | conservation: in every run the arrivals, each as often as it came, are the frames booked as delivered, the expired, the refused and the resident ones |
| `DeliveryFates.BookedIsWritten` | android/app/src/main/java/bg/reticulum/meshtastic/bridge/ReticulumTcpServer.java:148-166 | in every run in which no frame expires between its write and its removal, booked as delivered means written, in order |
| `DeliveryFates.NoneIsLost` | android/app/src/main/java/bg/reticulum/meshtastic/bridge/ReticulumTcpServer.java:86-189 | and then every arrival is written, expired, refused or resident |
| `DeliveryFates.CountersTell` | android/app/src/main/java/bg/reticulum/meshtastic/bridge/InboundFrameSpool.java:81-131 | in every run the counters are the numbers of frames answered with each verdict, of expired frames and of frames booked as delivered |
| `DeliveryFates.FlushWrites` | android/app/src/main/java/bg/reticulum/meshtastic/bridge/ReticulumTcpServer.java:148-166 | a replay writes the spooled frames in order up to the first write that fails, keeps the rest in order, and drops the client if and only if a write failed |
| `DeliveryFates.FlushCompletes` | android/app/src/main/java/bg/reticulum/meshtastic/bridge/ReticulumTcpServer.java:148-166 | while writes succeed a replay goes on until the spool is empty and keeps the client |
| `DeliveryFates.ConnectIs` | android/app/src/main/java/bg/reticulum/meshtastic/bridge/ReticulumTcpServer.java:86-102 | a new client is either connected to an empty spool in the end or gone again; without an output stream nothing is written and the stream of the client before stays in use |
| `DeliveryFates.ReaderEndsOwnClient` | android/app/src/main/java/bg/reticulum/meshtastic/bridge/ReticulumTcpServer.java:104-126 | the end of a reader disconnects its own client and no other |
| `DeliveryFates.ReplacedReaderIsHarmless` | android/app/src/main/java/bg/reticulum/meshtastic/bridge/ReticulumTcpServer.java:104-126 | a client that replaced another stays connected when the reader of the old one ends |
| `DeliveryOrder.ReplayHonestIff` | android/app/src/main/java/bg/reticulum/meshtastic/bridge/ReticulumTcpServer.java:148-166 | the frames booked as replayed are the frames written, in order, if and only if none expires between the peek and the removal |
| `DeliveryOrder.ReplayLies` | android/app/src/main/java/bg/reticulum/meshtastic/bridge/ReticulumTcpServer.java:148-166 | a concrete spool in which a frame leaves as replayed that was never written |
| `SpoolSpec.ReplayedIsWrittenIff` | android/app/src/main/java/bg/reticulum/meshtastic/bridge/InboundFrameSpool.java:107-114 | removal takes the frame just peeked if and only if that frame has not expired meanwhile |
| `SpoolSpec.OfferBalanced` | android/app/src/main/java/bg/reticulum/meshtastic/bridge/InboundFrameSpool.java:81-99 | offering keeps bytes, digests, limits and `queued = replayed + expired + resident` |
| `SpoolSpec.RemoveBalanced` | android/app/src/main/java/bg/reticulum/meshtastic/bridge/InboundFrameSpool.java:107-114 | removing keeps them |
| `SpoolSpec.CleanupBalanced` | android/app/src/main/java/bg/reticulum/meshtastic/bridge/InboundFrameSpool.java:123-131 | expiry keeps them, drops only a prefix, and leaves a young head |
| `ReticulumTcpServers.ReticulumTcpServer.ReplaceClient` | android/app/src/main/java/bg/reticulum/meshtastic/bridge/ReticulumTcpServer.java:86-102 | new state and replayed frames of the specification |
| `ReticulumTcpServers.ReticulumTcpServer.ReaderEnded` | android/app/src/main/java/bg/reticulum/meshtastic/bridge/ReticulumTcpServer.java:104-126 | disconnects if and only if the ended reader belongs to the current client |
| `ReticulumTcpServers.ReticulumTcpServer.SendFrame` | android/app/src/main/java/bg/reticulum/meshtastic/bridge/ReticulumTcpServer.java:128-142 | new state, verdict and written frames of the specification |
| `ReticulumTcpServers.ReticulumTcpServer.FlushSpool` | android/app/src/main/java/bg/reticulum/meshtastic/bridge/ReticulumTcpServer.java:148-166 | new state and written frames of the replay loop |
| `ReticulumTcpServers.ReticulumTcpServer.DisconnectBrokenClient` | android/app/src/main/java/bg/reticulum/meshtastic/bridge/ReticulumTcpServer.java:176-189 | no client and no output; everything else unchanged |
| `InboundFrameSpools.InboundFrameSpool.Offer` | android/app/src/main/java/bg/reticulum/meshtastic/bridge/InboundFrameSpool.java:81-99 | new spool and verdict of the specification |
| `InboundFrameSpools.InboundFrameSpool.Peek` | android/app/src/main/java/bg/reticulum/meshtastic/bridge/InboundFrameSpool.java:101-105 | the first young frame and the swept spool |
| `InboundFrameSpools.InboundFrameSpool.RemoveReplayed` | android/app/src/main/java/bg/reticulum/meshtastic/bridge/InboundFrameSpool.java:107-114 | the new spool of the specification |
| `InboundFrameSpools.InboundFrameSpool.CleanupExpired` | android/app/src/main/java/bg/reticulum/meshtastic/bridge/InboundFrameSpool.java:123-131 | the swept spool of the specification |
| `Hdlc.RoundTrip` | android/app/src/main/java/bg/reticulum/meshtastic/bridge/HdlcCodec.java:15-52 | any cutting of the concatenated encodings of non-empty frames gives back exactly those frames |
| `ByteMachines.FeedChunksIsFeed` | android/app/src/main/java/bg/reticulum/meshtastic/bridge/HdlcCodec.java:31-52 | how the stream is cut into reads never matters, for any byte-by-byte decoder from any state; both decoders here are such |
| `Hdlc.Resync` | android/app/src/main/java/bg/reticulum/meshtastic/bridge/HdlcCodec.java:31-52 | from any decoder state one encoded frame yields at most one stray frame followed by it, and the decoder is left between frames |
| `Hdlc.StuffedHasNoFlag` | android/app/src/main/java/bg/reticulum/meshtastic/bridge/HdlcCodec.java:15-29 | transparency: no flag octet inside an encoded frame (section 4.2 of RFC 1662) |
| `Hdlc.StuffIs` | android/app/src/main/java/bg/reticulum/meshtastic/bridge/HdlcCodec.java:15-29 | the wire form of a single octet, literally: 0x7e as 0x7d 0x5e, 0x7d as 0x7d 0x5d, every other one as itself, between two flags |
| `Hdlc.StuffedAppend` | android/app/src/main/java/bg/reticulum/meshtastic/bridge/HdlcCodec.java:15-29 | a frame is stuffed octet by octet |
| `Hdlc.EscapedIs` | android/app/src/main/java/bg/reticulum/meshtastic/bridge/HdlcCodec.java:31-52 | inside a frame any octet but a flag after an escape stands for itself with bit 5 flipped (`FlipsBit5`) |
| `Hdlc.FlipsBit5` | android/app/src/main/java/bg/reticulum/meshtastic/bridge/HdlcCodec.java:15-29 | the flipped octet differs by exactly 32 and in no other bit, and flips back |
| `Hdlc.HdlcCodec.Encode` | android/app/src/main/java/bg/reticulum/meshtastic/bridge/HdlcCodec.java:15-29 | the wire form of the specification |
| `Hdlc.HdlcCodec.FeedBytes` | android/app/src/main/java/bg/reticulum/meshtastic/bridge/HdlcCodec.java:31-52 | new decoder state and frames of the specification |
| `StreamFrames.RoundTrip` | android/app/src/main/java/bg/reticulum/meshtastic/bridge/StreamFrameCodec.java:14-54 | noise without the start pair, then any sequence of encoded payloads with such noise between them, cut anywhere, gives exactly the payloads in order |
| `StreamFrames.FeedEncoding` | android/app/src/main/java/bg/reticulum/meshtastic/bridge/StreamFrameCodec.java:25-54 | one encoded payload brings the waiting decoder back to waiting and emits exactly the payload |
| `StreamFrames.EncodingIs` | android/app/src/main/java/bg/reticulum/meshtastic/bridge/StreamFrameCodec.java:14-23 | above 512 bytes refused; otherwise 0x94, 0xc3, the length with its high byte first, the payload |
| `StreamFrames.OversizedHeader` | android/app/src/main/java/bg/reticulum/meshtastic/bridge/StreamFrameCodec.java:25-54 | a header that announces more than 512 bytes is dropped and the hunt for a start goes on |
| `StreamFrames.StreamFrameCodec.Encode` | android/app/src/main/java/bg/reticulum/meshtastic/bridge/StreamFrameCodec.java:14-23 | the wire form, or a refusal above 512 bytes |
| `StreamFrames.StreamFrameCodec.FeedBytes` | android/app/src/main/java/bg/reticulum/meshtastic/bridge/StreamFrameCodec.java:25-54 | new decoder state and packets of the specification |
| `ProtoPackets.RoundTrip` | android/app/src/main/java/bg/reticulum/meshtastic/bridge/ProtoCodec.java:256-317 | the fields of a sent packet, with any well-formed unknown fields inserted in the packet and in its Data message, parse to the source, destination, channel, port 76, payload, id and hop fields that were sent |
| `ProtoPackets.WrittenPacketParses` | android/app/src/main/java/bg/reticulum/meshtastic/bridge/ProtoCodec.java:154-182 | the same for the very bytes `toRadioPacket` nests |
| `ProtoReceived.ReceivedIs` | android/app/src/main/java/bg/reticulum/meshtastic/bridge/ProtoCodec.java:256-300 | a received packet, for any well-formed fields in any order, repeated and unknown ones included: malformed if and only if some Data message in it is; dropped if and only if the last one has no payload; otherwise each member is the last field of its literal number and wire type, or its default |
| `ProtoReceived.ReceivedRoundTrip` | android/app/src/main/java/bg/reticulum/meshtastic/bridge/ProtoCodec.java:256-300 | every packet with a payload can be received: its members written under their numbers, with defaults left out or not and well-formed fields of other numbers inserted anywhere, parse to exactly that packet |
| `ProtoReceived.ReceivedExample` | android/app/src/main/java/bg/reticulum/meshtastic/bridge/ProtoCodec.java:256-300 | ten concrete bytes of a direct message with `pki_encrypted` set, and the packet they mean |
| `ProtoReceived.DataMembers` | android/app/src/main/java/bg/reticulum/meshtastic/bridge/ProtoCodec.java:302-317 | port, payload and request id of a Data message are the last fields 1, 2 and 6 |
| `ProtoReceived.RoutingErrorIs` | android/app/src/main/java/bg/reticulum/meshtastic/bridge/ProtoCodec.java:319-329 | the error of a Routing message is its first field 3, whatever comes before or after it |
| `ProtoSent.SentFields` | android/app/src/main/java/bg/reticulum/meshtastic/bridge/ProtoCodec.java:154-182 | what a reader that knows only the wire format finds in the bytes sent: field 1 with one packet; in it the addresses, the id and priority 70, channel and hop fields if and only if they are not zero, field 10 if and only if an acknowledgement is wanted; in its Data message port 76, the payload, and field 9 if and only if MQTT is permitted |
| `ProtoSent.ReadFieldsInverts` | android/app/src/main/java/bg/reticulum/meshtastic/bridge/ProtoCodec.java:345-417 | such a reader gets back any well-formed fields, in order |
| `ProtoPackets.ParsePacketIsFold` | android/app/src/main/java/bg/reticulum/meshtastic/bridge/ProtoCodec.java:256-300 | parsing the encoding of any well-formed fields is folding over the fields |
| `ProtoPackets.ParseDataIsFold` | android/app/src/main/java/bg/reticulum/meshtastic/bridge/ProtoCodec.java:302-317 | the same for Data messages |
| `ProtoPackets.PacketIgnoresUnknown` | android/app/src/main/java/bg/reticulum/meshtastic/bridge/ProtoCodec.java:256-300 | unknown fields of a packet change nothing |
| `ProtoPackets.DataIgnoresUnknown` | android/app/src/main/java/bg/reticulum/meshtastic/bridge/ProtoCodec.java:302-317 | unknown fields of a Data message change nothing |
| `ProtoWire.VarintInverts` | android/app/src/main/java/bg/reticulum/meshtastic/bridge/ProtoCodec.java:388-397 | every 64-bit varint reads back, leaving the rest of the input |
| `ProtoWire.TagInverts` | android/app/src/main/java/bg/reticulum/meshtastic/bridge/ProtoCodec.java:382-386 | every field number and wire type reads back |
| `ProtoWire.Fixed32Inverts` | android/app/src/main/java/bg/reticulum/meshtastic/bridge/ProtoCodec.java:399-407 | every fixed 32-bit value reads back as its low 32 bits |
| `ProtoWire.BytesInvert` | android/app/src/main/java/bg/reticulum/meshtastic/bridge/ProtoCodec.java:409-417 | every length-delimited value reads back |
| `ProtoWire.SkipInverts` | android/app/src/main/java/bg/reticulum/meshtastic/bridge/ProtoCodec.java:419-427 | skipping a well-formed field ends exactly behind it |
| `ProtoWire.IntSurvives` | android/app/src/main/java/bg/reticulum/meshtastic/bridge/ProtoCodec.java:256-300 | a 32-bit value, negative ones included, survives sign extension and truncation |
| `ProtoSent.VarintForm` | android/app/src/main/java/bg/reticulum/meshtastic/bridge/ProtoCodec.java:364-370 | a varint is the base 128 form of its value, least significant group first, every group but the last marked, and without superfluous groups |
| `ProtoSent.ReadVarintIs` | android/app/src/main/java/bg/reticulum/meshtastic/bridge/ProtoCodec.java:388-397 | of any input the groups up to the first one below 128, if that is among the first ten, give their base 128 value cut to 64 bits; otherwise the input is malformed |
| `ProtoSent.Fixed32Form` | android/app/src/main/java/bg/reticulum/meshtastic/bridge/ProtoCodec.java:350-356 | four bytes, least significant first, of the low 32 bits |
| `ProtoSent.ReadTagIs` | android/app/src/main/java/bg/reticulum/meshtastic/bridge/ProtoCodec.java:382-386 | which varints are tags, and field number and wire type of each |
| `ProtoSent.ReadBytesIs` | android/app/src/main/java/bg/reticulum/meshtastic/bridge/ProtoCodec.java:409-417 | which lengths are read, those of 2^63 and above included, and what they give |
| `ProtoSent.SkipIs` | android/app/src/main/java/bg/reticulum/meshtastic/bridge/ProtoCodec.java:419-427 | for each wire type when a field can be skipped and what is left |
| `ProtoSent.SkipReadsAlikeIff` | android/app/src/main/java/bg/reticulum/meshtastic/bridge/ProtoCodec.java:409-427 | length-delimited data is read and skipped alike if and only if its length is not one of 2^63 and above that is read |
| `ProtoSent.AsIntIs` | android/app/src/main/java/bg/reticulum/meshtastic/bridge/ProtoCodec.java:256-300 | the cast to `int` keeps the low 32 bits and reads them as a signed number |
| `ProtoCodec.ToRadioPacket` | android/app/src/main/java/bg/reticulum/meshtastic/bridge/ProtoCodec.java:154-182 | the bytes of the specification |
| `ProtoCodec.ParseMeshPacket` | android/app/src/main/java/bg/reticulum/meshtastic/bridge/ProtoCodec.java:256-300 | the packet, no payload, or malformed, of the specification |
| `ProtoCodec.ParseData` | android/app/src/main/java/bg/reticulum/meshtastic/bridge/ProtoCodec.java:302-317 | the Data message or malformed |
| `ProtoCodec.ParseRoutingError` | android/app/src/main/java/bg/reticulum/meshtastic/bridge/ProtoCodec.java:319-329 | the first error code, none, or malformed |
| `ProtoCodec.Writer.PutVarint` | android/app/src/main/java/bg/reticulum/meshtastic/bridge/ProtoCodec.java:364-370 | appends the varint |
| `ProtoCodec.Writer.PutFixed32Field` | android/app/src/main/java/bg/reticulum/meshtastic/bridge/ProtoCodec.java:350-356 | appends the field, low byte first |
| `ProtoCodec.Writer.PutBytesField` | android/app/src/main/java/bg/reticulum/meshtastic/bridge/ProtoCodec.java:358-362 | appends the field |
| `ProtoCodec.Reader.ReadVarint` | android/app/src/main/java/bg/reticulum/meshtastic/bridge/ProtoCodec.java:388-397 | value and rest, or malformed |
| `ProtoCodec.Reader.ReadTag` | android/app/src/main/java/bg/reticulum/meshtastic/bridge/ProtoCodec.java:382-386 | tag and rest, or malformed |
| `ProtoCodec.Reader.ReadFixed32` | android/app/src/main/java/bg/reticulum/meshtastic/bridge/ProtoCodec.java:399-407 | value and rest, or malformed |
| `ProtoCodec.Reader.ReadBytes` | android/app/src/main/java/bg/reticulum/meshtastic/bridge/ProtoCodec.java:409-417 | bytes and rest, or malformed |
| `ProtoCodec.Reader.Skip` | android/app/src/main/java/bg/reticulum/meshtastic/bridge/ProtoCodec.java:419-427 | the rest behind the field, or malformed |
| `Admission.CompleteLimitIff` | android/app/src/main/java/bg/reticulum/meshtastic/bridge/BridgeEngine.java:86-99 | with the computed limit, a frame passes the encoder and normal admission if and only if it is no longer than the limit |
| `Admission.SerializedLimitIff` | android/app/src/main/java/bg/reticulum/meshtastic/bridge/BridgeEngine.java:99-111 | exactly which frames are ever admitted, normally or serialized; all within the reported serialized limit are, and serialized admission exceeds 8192 bytes by less than one fragment body |
| `Admission.QueueHorizon` | android/app/src/main/java/bg/reticulum/meshtastic/bridge/BridgeEngine.java:568-571 | the queue is the largest of 4 to 256 fragments that is sent within 8000 ms, and four when not even those are |
| `Admission.EngineLimitsAre` | android/app/src/main/java/bg/reticulum/meshtastic/bridge/BridgeEngine.java:86-111 | the limits handed to the scheduler, literally, and that the serialized limit is the largest number of fragments that the wire index, 8192 bytes and 90,000 ms allow |
| `Admission.CompleteFrameByteLimit` | android/app/src/main/java/bg/reticulum/meshtastic/bridge/BridgeEngine.java:573-580 | the downward search answers with the largest length that fits, or zero |
| `Admission.LimitIsProduct` | android/app/src/main/java/bg/reticulum/meshtastic/bridge/BridgeEngine.java:573-580 | with room for the headers that length is fragments times body size |
| `Admission.CountWithin` | android/app/src/main/java/bg/reticulum/meshtastic/bridge/BridgeEngine.java:573-580 | a frame needs at most `n` fragments if and only if it is at most `n` bodies long |
| `Admission.OfferSize` | android/app/src/main/java/bg/reticulum/meshtastic/bridge/BridgeEngine.java:243-244 | fragments and bytes the encoder hands to the scheduler for a frame |

## Left out

- RepairConvergence.AllConverge: the pace of the exchanges and the absence of expiry are conditions
  on the clock readings of the conversation (`Unhurried`, and for one frame `Paced`); whether a poll
  without them asks is what `RepairDialogue.PollTurnIff` and `PollChoice.PollOneIs` state.
- ProtocolTwins.TwinsAgree: leaves out polls for zero requests (both sides ask for nothing, but only
  the Android side cleans up), empty sources (`HearAgreesIff` says when they are answered alike),
  evictions (`SendAgreesIff`), and polls that meet the assemblies that are due in another order than
  they were begun (`PollOneAgreesIff`, for one request); it compares frames, transmissions and
  refusals, not the deferred mark, which only the Android side has.
- SchedulerProgress.RetriesSleep: the end of the sleep after a failure is where the next turn of
  the worker begins (`RunOnce`); the sleep itself is the time source's.
- FragmentProtocols.FragmentProtocol.Encode: assemblies, cached frames and scheduler batches are
  values inside the fields of the objects, not objects of their own; nothing outside the objects
  holds a reference to them, so no aliasing is lost.
- TransmitSchedulers.TransmitScheduler.Enqueue: a caller that waits for capacity is the same
  admission repeated after `Full`. An unknown priority, which the source refuses, does not exist
  in the type. The three pending counters are kept together as one `Use`.
- RnsPeerRouters.RnsPeerRouter.ObserveInbound: header parsing (`RnsPacketMetadata`) and node name
  parsing (`NodeId`) happen before the call; a malformed name is `None`.
- ProtoCodec.Reader.ReadBytes: a length so large that position plus length overflows an `int` is
  malformed here; the source fails with another exception.
- The clocks of `framing.py` are floating point; rounding is not modelled.
- Java counters are unbounded integers; `long` varints and 32-bit fields have their exact width.
- Telling the counters after `close` beyond `CloseAccountsIff` and `ClosedGoesNegative`.
- Telemetry, snapshots, peak values, drain estimates, rejection texts and notification callbacks.
- Real threads, monitors, sockets and Bluetooth, serial and MQTT transports: only "a send or a
  write may fail" is kept.
- The other messages of `ProtoCodec` (FromRadio, MyNodeInfo, Config, QueueStatus, names of
  codes): the same reader with simpler loops.
- The Python interface queue (`interface.py`): the scheduler is the stronger object.
- Configuration, services, environment files, traffic reports, journals, acknowledgement policy:
  single checks and bookkeeping.
