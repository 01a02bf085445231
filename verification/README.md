# The packet core of supervpn, verified

supervpn joins machines in one Ethernet segment over UDP or TLS. This project models the stages a frame passes
between two of them and proves what they promise while packets are lost, duplicated on two paths, reordered and
echoed. `dafny verify dfyconfig.toml` checks all of it.

| file | models |
|---|---|
| Bytes, Words, Blocking | bytes, XOR, big-endian numbers, 64-bit shifts and masks, division into blocks |
| Erasure | the XOR code as the loops compute it; the Reed-Solomon library by its law only |
| FecSpec, FecStreaming, FecRuns, FecLifetimes, FecActivity | the FEC decoder on values: one block against a batch decoder, whole runs, the lifetimes of a block in them, and its clocks in terms of the packets |
| FecExamples | concrete runs of the decoder |
| FecDecoder, FecPipe | the decoder, its blocks and pool, the encoder and the pipe as objects updated in place |
| FecEndToEnd | sender, channel and decoder together |
| Delivery, DeliveryLossless, FragmentDelivery | receive loops, fragment handlers with their reassembler and flush goroutine under `orderMu`, step by step |
| Replay | the 512-bit window over eight words, and the cipher around it |
| Hub, LoopGuard, LoopFreedom | the learning switch, the macOS bridge's loop guard, and both as one transition system |
| MssClamp, MssGrammar | the option scanner, the incremental checksum, and the frames they are about |
| FragmentSpec, FragmentRuns, FragmentAny, Fragment | splitting and reassembly, of split frames and of any pieces |
| ClientHello, HelloExactly, Reality | the hello parser on the grammar and on any bytes, and admission with a bounded replay cache |
| Proto | the wire codecs |

Where the original updates state in place there is a class or a loop, proved equal to a function of the old state;
the theorems are about those functions, over all inputs, runs or interleavings. Time is a parameter that does not go
back. AES-GCM, X25519, SHA-256 and the Reed-Solomon library are values with their law as a premise: what is sealed
opens, hashes of different padded frames differ, any k of k + r shards rebuild the data. Random choices of the
original, such as map order and pool reuse, are left open.

What the code does where its comments or a first reading say otherwise:

- Order is per block. The decoder releases a newer block while an older one has a gap, so there is no global
  (block, index) order as cmd/supervpn-server/main.go:157-158 says; `Delivery.SlotsLeaveInOrder` is what holds.
- `Pipe.Send` resets its index only when repair symbols came back. `FecEndToEnd.NumberingHoldsIff` and
  `AllEncodedIff` say exactly when the numbering holds; `NumberingFailsWithoutRepairs` is the run at r = 0.
- A packet for an expired block creates it again, so a slot can leave twice: by delivery
  (`FecExamples.ASlotCanLeaveTwice`) or because a flush finds the late copy stuck (`AFlushedSlotCanLeaveTwice`).
  `FecEndToEnd.SlotLeavesAgainIff` says exactly when, flushes included, `FecRuns.ReleasedAtMostTwice` bounds it.
- The checksum update treats the MSS as an aligned word. `MssClamp.ChecksumPreservedIff` is the exact condition,
  `OddOffsetFails` a segment that fails it.
- The window test of the Reality listener multiplies seconds into a 64-bit Duration, and the time to live doubles
  them; both can wrap, so the promise that the cache never needs a longer memory
  (internal/transport/reality_server.go:73-75) has a condition. `Reality.AcceptedTwiceBetweenIff` is the exact one,
  `AcceptedTwiceInRangeIff` the part of it that concerns the configured window; `AHelloCanBeAcceptedTwice` and
  `AWideWindowForgets` are runs.
- A dropped duplicate shorter than twelve bytes makes the bridge's log line slice past its end
  (pkg/tun/bpf_darwin.go:305-309). `LoopGuard.Bridge.ReadQueued` says exactly when.
- The replay window moves before the tag is checked, so a packet that fails its tag uses its counter up:
  `SecureChannel.AnyPacketExactly` is what holds for arbitrary packets.
- The byte guard of the bridge also looks a frame up without its last four bytes. That can hit a shorter frame of
  another station: `LoopFreedom.LocalFramesReachTheHubIff` says exactly which local frames are safe. And a stale note
  of the longer bytes hides the shorter ones, which the comment there does not say: `LoopGuard.DedupSeenIff` is the
  exact condition, `AStaleNoteHidesTheCutForm` the failing input.
- `orderMu` carries the order: `Delivery.WithoutLockSlotsInvert` is a run without it.

Premises of the loop theorems: each address has one home session, the card's own address lives at its own session,
and an echo carries a source injected there less than five minutes ago. `LoopFreedom.ForeignFramesAreDroppedIff`
says exactly what the bridge drops, `ALateEchoPasses` that a later echo is let through. Premise of the end-to-end
theorems: no more frames than 2^32 blocks hold, so that no block number repeats. `ClientHello.SomeHelloFits` gives
hellos of the grammar the parser theorem is about.

## Model

| member | source | states |
|---|---|---|
| Erasure.ComputeParity | internal/fec/fec.go:345-359 | the column loop computes the parity of the block: the XOR of all frames, each zero-padded to the longest |
| Erasure.XorOut | internal/fec/fec.go:376-388 | what is left of a repair symbol after every arrived frame is XORed out, cut at the symbol's length |
| Erasure.XorRecover | internal/fec/fec.go:362-391 | error exactly when two or more frames are missing; otherwise only the missing slot is filled, with the rebuilt frame |
| Erasure.XorRecoveryIsExact | internal/fec/fec.go:345-391 | the parity of frames of any lengths, with any one of them missing, rebuilds that frame zero-padded to the longest: the any-k-of-k+1 law is proved, not assumed, for r = 1 |
| Erasure.EncodeBlockNil | internal/fec/fec.go:74-81 | a full block gets no repair symbols exactly at r = 0 or, for r > 1, when all its frames are empty; otherwise it gets r symbols of the longest length |
| Erasure.RebuildIsExact | internal/fec/fec.go:361-460 | with as many repair symbols as missing frames every missing frame comes back, zero-padded to the longest, for XOR and for any code with the any-k-of-(k+r) law |
| FecDecoder.DecBlock.Reset | internal/fec/fec.go:199-213 | a returned block is in every field as a new one, whatever it held |
| FecDecoder.DecBlock.Recover | internal/fec/fec.go:299-323 | the erasure code's rebuild of the arrived slots: XOR for one repair symbol, the library otherwise |
| FecDecoder.DecBlock.Deliver | internal/fec/fec.go:326-341 | hands out the slots from the delivery position up to the first gap and marks the block done exactly at the end |
| FecDecoder.DecBlock.TryRecover | internal/fec/fec.go:291-342 | recovers when 0 < missing <= repairs, then delivers; the error leaves the block as it was |
| FecDecoder.DecBlock.Accept | internal/fec/fec.go:160-188 | the whole new block state and the released frames for any index, duplicate, range error or done block |
| FecDecoder.DecBlock.FlushIfStale | internal/fec/fec.go:261-286 | a block is closed exactly when stale and stuck, and then hands out its received, unreleased slots |
| FecDecoder.SortedIds | internal/fec/fec.go:255-259 | the ids of the block map, each once, ascending |
| FecDecoder.Decoder.GetOrCreate | internal/fec/fec.go:190-197 | the block of the id, or a clean one from the pool or the heap; no other block changes and no two ids share one |
| FecDecoder.Decoder.ReturnBlock | internal/fec/fec.go:199-215 | a pooled block is clean, belongs to no id, and pooling it changes nothing visible |
| FecDecoder.Decoder.Expire | internal/fec/fec.go:221-242 | the scan in place deletes what the value scan deletes, in the same order and with the same number of loop iterations |
| FecDecoder.Decoder.BlockDone | internal/fec/fec.go:143-149 | true exactly for an id in the map whose block is done |
| FecDecoder.Decoder.Add | internal/fec/fec.go:151-188 | new state of all blocks, scan pointer and highest id, and the returned frames or error, for every arrival |
| FecDecoder.Decoder.FlushStale | internal/fec/fec.go:248-289 | one flush over all blocks in ascending id order: new state and returned frames |
| FecStreaming.StreamingRefinesBatch | internal/fec/fec.go:151-188 | for every honest block, arrival order and duplication the frames released so far are slots 0..p-1 in order, p being k once k distinct symbols are there and else the received prefix; each is the original or its zero-padding; done exactly with k symbols |
| FecRuns.ScanDeletes | internal/fec/fec.go:227-241 | the scan deletes exactly the blocks it steps over, all expirable and in ascending order, stops only at the threshold or a kept block, and spends one iteration a step |
| FecRuns.ExpiryIsAmortised | internal/fec/fec.go:217-242 | over any run the expiry loop iterates at most minBlockID plus the number of add calls |
| FecActivity.LastActivityIs | internal/fec/fec.go:171-187 | in every run a block's lastActivity is the time of the last packet since its last deletion that brought it a new symbol in range while it was open, from the events alone |
| FecActivity.AnyPacketExactly | internal/fec/fec.go:151-188 | what any packet gives out, genuine or not and after any others: nothing if repeated, out of range or late; with at least as many repair symbols as missing frames the rest of the block or the code's error; else the received frames up to the next gap |
| FecActivity.ExpiredIff | internal/fec/fec.go:155-242 | after any run, from the events alone: an arrival deletes a block exactly when it brings a new highest id and the scan, from where the last one ended up to eight behind it or to a live block with a new packet in the last two seconds, passes it |
| FecActivity.NextHighestExpires | internal/fec/fec.go:221-242 | so a block the scan has not passed goes with the next new highest id exactly when it is more than eight behind and no live block up to it had a new packet for two seconds |
| FecActivity.ExpiryIsSafe | internal/fec/fec.go:155-159 | after any run no arrival deletes a block within eight of the newest id or one to which a new packet came in the last two seconds |
| FecRuns.StuckIsExact | internal/fec/fec.go:279-283 | the frames gathered from a stuck block are its received ones from the position on, each once, ascending |
| FecActivity.FlushIsExact | internal/fec/fec.go:248-289 | by the fields: a flush closes a block if and only if it is not done, has a last activity maxAge or more ago and holds a frame past its delivery position; then it hands out exactly those; other blocks are untouched |
| FecActivity.FlushedIff | internal/fec/fec.go:248-289 | the same after any run in terms of the packets: open, last new packet maxAge or more ago, and some slot received behind a gap; of such a block the first packet of each such slot leaves |
| FecActivity.StuckButFreshStaysOpen | internal/fec/fec.go:261-264 | a stuck block that took a new packet less than maxAge ago is left as it is |
| FecActivity.QuietWithoutGapStaysOpen | internal/fec/fec.go:265-276 | a block quiet for any time with no frame behind a gap is left as it is |
| FecRuns.FlushIsOrdered | internal/fec/fec.go:253-259 | the frames of one flush are strictly increasing in (block, slot) |
| FecLifetimes.BlocksAreIndependent | internal/fec/fec.go:151-289 | in every run a block's state and the frames of its current lifetime are those of the block run alone on its own arrivals since its last deletion and before the flush that closed it; once flushed, that block closed and after its frames the ones stuck in it |
| FecRuns.ReleasedAtMostTwice | internal/fec/fec.go:151-242 | in every run an id is deleted at most once and a slot leaves at most once per lifetime, in increasing order |
| FecRuns.OnceIfSilentAfterExpiry | internal/fec/fec.go:190-242 | a block that gets no packet after its expiry releases each slot at most once |
| FecRuns.RecreatedBlockStays | internal/fec/fec.go:190-242 | a block created again by a late packet is never deleted again |
| FecExamples.ASlotCanLeaveTwice | internal/fec/fec.go:151-242 | a concrete run at k = 1 in which a late copy of a packet makes its slot leave twice |
| FecExamples.AFlushedSlotCanLeaveTwice | internal/fec/fec.go:151-289 | a concrete run at k = 2, r = 1 in which a late copy is stuck in the block it re-creates and a flush makes its slot leave twice |
| FecPipe.Encoder.Add | internal/fec/fec.go:67-85 | buffer, block counter (32 bits) and repair symbols or nil, in place |
| FecPipe.Pipe.Send | internal/fec/pipe.go:77-119 | the new counters whatever the callbacks do; the calls made in order up to the first one that refuses, the error, and the queued repair job when there is a delay and room |
| FecPipe.Pipe.TakeJob | internal/fec/pipe.go:154-161 | the idle background sender takes the first job off the channel before it waits |
| FecPipe.Pipe.SendDue | internal/fec/pipe.go:162-176 | the job in hand, once it is due, is sent with all its calls whatever they answer |
| FecPipe.DispatchIsOfTheStep | internal/fec/pipe.go:91-119 | a send and the job it queues give out a prefix of that send's packets in order, and all of them when every callback accepts |
| FecPipe.SendsUntilRefused | internal/fec/pipe.go:91-119 | which callbacks a send makes, when it fails and what it queues: ended by a refused frame; repairs queued with a delay and room, all sent on a full queue, sent up to the first refusal without a delay |
| FecPipe.RepairsWait | internal/fec/pipe.go:98-176 | in every run a turn of the background sender gives out all the repair symbols of the block one earlier send filled, and not before the delay after that send |
| FecPipe.CallbacksAreOfTheRun | internal/fec/pipe.go:77-180 | in every run of sends and background turns, with refusing callbacks and a full queue, the callbacks made are packets of the frames sent, none made more often than it was produced; when nothing refuses, they and the waiting jobs are all of them |
| FecPipe.CallbacksMakeAChannel | internal/fec/pipe.go:77-180 | so a channel that carries what the callbacks were given, in any order and number, is one the receiver's theorems are about |
| FecEndToEnd.SenderState | internal/fec/pipe.go:77-89 | after n sends the buffer holds the last n mod k frames and the counter is n div k; the index is n mod k when every full block got repairs |
| FecEndToEnd.NumberingHoldsIff | internal/fec/pipe.go:84-86 | pktIdx equals the buffer length after every send if and only if every completed block got repair symbols |
| FecEndToEnd.AllEncodedIff | internal/fec/pipe.go:84-86 | which holds exactly when r = 1, or r > 1 and no completed block consists of empty frames only |
| FecEndToEnd.NumberingFailsWithoutRepairs | internal/fec/pipe.go:84-86 | a concrete run at r = 0 whose second frame gets a tag outside its block |
| FecEndToEnd.NthSend | internal/fec/pipe.go:77-116 | the n-th send gives out its frame tagged (n div k modulo 2^32, n mod k) and, when it fills its block, the r repair symbols under indices 0 to r - 1, and nothing else |
| FecEndToEnd.TagsSurviveTheHeader | internal/proto/packet.go:91-108 | every tag the sender makes fits its field and unpacks to itself |
| FecEndToEnd.EmittedIff | internal/fec/pipe.go:77-116 | a packet leaves the sender if and only if it is a frame under its own tag or one of the repair symbols of a full block |
| FecEndToEnd.RecoverableBlocksArrive | internal/fec/fec.go:151-289 | through a channel that drops, duplicates and reorders, with expiry and flushes, a block has handed out in its current lifetime, rising and as sent up to padding, exactly the slots its symbols since the last deletion reach, and if flushed the data slots that had come: everything once k of k+r arrived |
| FecEndToEnd.SlotLeavesAgainIff | internal/fec/fec.go:151-289 | in every such run: beyond its releases of earlier lifetimes a slot leaves exactly once more if the symbols since the last deletion reach it or a flush found it stuck, and not at all otherwise |
| FecEndToEnd.EveryReleaseWasSent | internal/fec/pipe.go:77-132 | whatever arrives, expires or is flushed, every released frame is the one sent under that block and slot, as sent or zero-padded |
| Delivery.OutputIsLockOrder | internal/vpnclient/client.go:829-912 | for every interleaving of threads that each walk their own batch: at most one is between lock and unlock, and the output followed by what the holder has left of its batch is the deliverable part of the results in decoding order, which are one sequential decoder run with whole frames between |
| Delivery.WithoutLockSlotsInvert | internal/fec/pipe.go:186-192 | without the lock a concrete two-thread run hands over slot 1 of a block before slot 0 |
| Delivery.SlotsLeaveInOrder | cmd/supervpn-server/main.go:897-1003 | in every interleaving, cut short or not, two frames of one block leave in strictly increasing slot order unless the block was deleted between them |
| Delivery.NoSlotLeavesThrice | internal/vpnclient/client.go:804-912 | with both receive loops feeding one decoder no slot of a block leaves three times, raw or zero-padded |
| Delivery.SkippedRepairIsIdle | internal/vpnclient/client.go:871-875 | a repair skipped because its block is done would have changed nothing and released nothing |
| Delivery.EveryOutputWasSent | internal/vpnclient/client.go:820-912 | from sender to output, with drops, duplicates, reordering, two loops, expiry and flushes in every interleaving: each block frame that leaves is the one sent under its block and slot, as sent or zero-padded |
| DeliveryLossless.EverythingIsOffered | internal/vpnclient/client.go:820-912 | every packet or flush a thread takes in is given to the decoder once, or dropped before it, or still to come |
| DeliveryLossless.DropsIff | internal/vpnclient/client.go:871-875 | exactly repairs of blocks that are there and done are dropped before the lock |
| DeliveryLossless.OfferedIsRun | internal/vpnclient/client.go:871-875 | with the packets dropped before the decoder put back in their places it is in the same state and has handed out the same |
| DeliveryLossless.RecoverableBlocksLeave | internal/vpnclient/client.go:829-912 | outside the lock and before the session ends, a sent frame of 14 bytes or more is in the output of its block's current lifetime if and only if the symbols taken in since the block was last deleted reach its slot or a flush has found it stuck |
| FragmentDelivery.WholeFramesAreConserved | cmd/supervpn-server/main.go:944-957 | in every interleaving each frame a fragment handler was given is among the results under the lock or still carried by its thread |
| FragmentDelivery.WholeFramesWereSent | cmd/supervpn-server/main.go:916-957 | from pieces to output: each whole frame that leaves is the one its sender split, at least 14 bytes long, and leaves at most once more than its reassembly entry was evicted |
| FragmentDelivery.WholeFramesAllLeave | internal/vpnclient/client.go:849-867 | with every thread done and the session open, such a frame has left exactly as often as the reassembler returned it |
| ReplayGuard.ShiftMovesPositions | internal/crypto/crypto.go:143-163 | the eight-word shift moves every one of the 512 positions up by the shift and fills with zeros |
| ReplayGuard.ReplayWindow.ShiftWords | internal/crypto/crypto.go:146-162 | the loop from the high word down writes each word from unshifted sources |
| ReplayGuard.ReplayWindow.Check | internal/crypto/crypto.go:133-182 | accepts exactly a counter that is at least 1, above maxSeen - 512 and never accepted; the words then represent the larger set |
| SecureChannel.Cipher.Seal | internal/crypto/crypto.go:83-100 | numbers the packet with the next 64-bit counter |
| SecureChannel.Cipher.Open | internal/crypto/crypto.go:103-121 | too short, replayed or undecryptable, in that order, else the plaintext; the window moves before the tag is checked |
| SecureChannel.OpenSealed | internal/crypto/crypto.go:83-121 | opening a sealed packet gives its plaintext exactly when its counter is fresh |
| SecureChannel.SealedLayout | internal/crypto/crypto.go:83-100 | the packet byte by byte: peer id, counter, counter and salt as the nonce, then the plaintext sealed under that nonce with the peer id as associated data |
| SecureChannel.NoncesDiffer | internal/crypto/crypto.go:83-100 | a cipher uses no nonce twice for fewer than 2^64 packets |
| SecureChannel.WindowTracksRun | internal/crypto/crypto.go:103-182 | after any arrivals the window holds the highest number and exactly the numbers delivered |
| SecureChannel.DeliveredExactlyWhenFirstInWindow | internal/crypto/crypto.go:83-182 | under any loss, duplication and reordering an arrival is delivered if and only if it is within 512 of the highest and no earlier copy was delivered |
| SecureChannel.NoCounterOpensTwice | internal/crypto/crypto.go:103-121 | whatever byte strings arrive, forged, altered or replayed, no two with the same counter are both opened |
| SecureChannel.AnyPacketExactly | internal/crypto/crypto.go:103-182 | for any byte strings in any order, the result of each exactly: too short, refused unless its counter is within 512 of the highest before and no earlier packet, genuine or not, used it up, and else what the tag says |
| Hub.Switch.Forward | internal/hub/hub.go:88-185 | learns as specified and sends to exactly the target sessions, each once, never to the source; frames under 12 bytes do nothing; the flap count rises exactly for a moved source |
| Hub.Switch.PurgeMACTable | internal/hub/hub.go:234-243 | keeps exactly the entries that have not expired |
| Hub.RunTracks | internal/hub/hub.go:96-151 | after any run an entry names the last session its address was heard from and expires one to five minutes after that; an address heard in the last minute has its entry |
| Hub.DeliveredByBytes | internal/hub/hub.go:88-185 | after any run, from the bytes: a frame with the low bit of its first byte set, or to an address never heard from, goes to every joined session but its own; one to an address heard in the last minute goes to that session alone if it is joined and not its own, nowhere if it is its own, to all others if it has left |
| Hub.LearnedByBytes | internal/hub/hub.go:103-151 | the entry of bytes 6 to 11 is written if and only if there is none, it names another session or has under a minute left; then it names this session for five minutes, with the sender of an ARP or IPv4 packet |
| Hub.FastPathRefinesAlwaysLearning | internal/hub/hub.go:88-185 | against a switch that writes on every frame and never forgets: never the source, never fewer clients, and the same clients if and only if the destination was never heard, is a group, still has its entry (as it has for a minute) or its session is gone or the only one a flood reaches |
| Hub.PurgeForgetsTheSilent | internal/hub/hub.go:234-243 | an address heard in the last minute survives a purge, one silent for five minutes does not |
| Hub.FlapMeansTheSourceMoved | internal/hub/hub.go:103-121 | a flap is counted only when the source was last heard on another session, and always when that was in the last minute |
| LoopGuard.Bridge.DedupSeen | pkg/tun/bpf_darwin.go:235-243 | the second lookup, four bytes shorter, is used only when the first finds no entry |
| LoopGuard.Bridge.DedupRecord | pkg/tun/bpf_darwin.go:219-229 | the map gets the hash of the padded bytes and loses what is over 300 ms old |
| LoopGuard.Bridge.HubMACRecord | pkg/tun/bpf_darwin.go:247-270 | notes the source of an injection, never the card's own, and sweeps at most once a second |
| LoopGuard.Bridge.LoopSeen | pkg/tun/bpf_darwin.go:281-294 | true exactly for a foreign source noted less than five minutes ago |
| LoopGuard.Bridge.ReadQueued | pkg/tun/bpf_darwin.go:298-325 | the first queued frame that passes both guards, each with its own clock reading; the frames before it dropped and counted by guard; a panic exactly at a logged duplicate of under twelve bytes |
| LoopGuard.Bridge.WriteFrame | pkg/tun/bpf_darwin.go:360-368 | a non-empty frame is recorded in both maps |
| LoopGuard.LoopSeenIff | pkg/tun/bpf_darwin.go:247-294 | after any injections, whatever was swept, loopSeen holds if and only if the source is not the host's and was injected less than five minutes ago |
| LoopGuard.DedupSeenIff | pkg/tun/bpf_darwin.go:219-243 | after any injections dedupSeen holds if and only if the bytes, as they are or padded, were injected less than 300 ms ago, or no note of them is left and their form without the last four bytes was |
| LoopGuard.AStaleNoteHidesTheCutForm | pkg/tun/bpf_darwin.go:231-243 | a concrete run with a stale note, in which the form without the last four bytes goes unrecognised 200 ms after it was injected |
| LoopGuard.SweepsBoundTheMap | pkg/tun/bpf_darwin.go:258-268 | after an injection the map holds no source older than five minutes and one second |
| LoopFreedom.ForwardAloneIsForward | internal/hub/hub.go:88-185 | the steps Forward is split into at its locks, uninterrupted, give the table, flap count and targets of the whole call |
| LoopFreedom.Invariant | pkg/tun/bpf_darwin.go:247-294 | the joint invariant of hub, links, Forward calls under way and all bridges holds in every reachable state |
| LoopFreedom.NoEntryLeavesHome | internal/hub/hub.go:88-185 | with one home session per address and echoes within five minutes, no table entry ever names another session and no flap is ever counted |
| LoopFreedom.LocalFramesReachTheHubIff | pkg/tun/bpf_darwin.go:231-323 | a frame that originates on the segment passes in every reachable state if and only if its form without the last four bytes, zero-padded, still has a source of that segment; every frame of 16 bytes or more does |
| LoopFreedom.LoopSeenSparesLocalFrames | pkg/tun/bpf_darwin.go:281-294 | loopSeen alone suppresses no local frame of any length |
| LoopFreedom.ForeignFramesAreDroppedIff | pkg/tun/bpf_darwin.go:247-323 | in every reachable state a full frame with a source from elsewhere is dropped if and only if that source was injected there less than five minutes ago |
| LoopFreedom.ALateEchoPasses | pkg/tun/bpf_darwin.go:54-56 | a reachable state in which an echo exactly five minutes old is let through |
| LoopFreedom.NothingLoops | pkg/tun/bpf_darwin.go:298-368 | an echo of an injected source never reaches the hub, bytes altered or not, so the hub receives only frames that originated where they were sent from |
| LoopFreedom.SuppressingRun | pkg/tun/bpf_darwin.go:235-243 | for every local frame whose cut form has a source from elsewhere, a run of hub and bridges after which it is dropped |
| MssClamp.ParseSyn | internal/bridge/mssclamp.go:34-55 | the header checks, with the TCP offset and options end, or none of them |
| MssClamp.ScanOptions | internal/bridge/mssclamp.go:56-85 | the first well-formed MSS option before an end or malformed option |
| MssClamp.FoldSum | internal/bridge/mssclamp.go:93-95 | the fold loop ends with the end-around-carry sum |
| MssClamp.FixChecksum16 | internal/bridge/mssclamp.go:90-97 | the two checksum bytes become Eqn. 3 in section 3 of RFC 1624 |
| MssClamp.ClampTCPMSS | internal/bridge/mssclamp.go:33-86 | the frame itself or a changed fresh copy; the input array keeps its bytes |
| MssGrammar.ClampsTheGrammar | internal/bridge/mssclamp.go:33-86 | every frame written from its fields, with any IP options, any options before the MSS option and anything after: with the SYN bit set and whatever other flags it becomes the frame of the same fields with the MSS lowered to the bound and the checksum updated; with the bit clear it stays |
| MssGrammar.ClampsOnlyTheGrammar | internal/bridge/mssclamp.go:33-86 | a frame the clamp changes is one written from its fields, with the SYN bit set and an MSS over the bound behind well-formed options |
| MssClamp.ClampIsLocal | internal/bridge/mssclamp.go:57-86 | only the two MSS and two checksum bytes may change, the option stays where it is and becomes the smaller of old and bound |
| MssClamp.ClampsCompose | internal/bridge/mssclamp.go:33-97 | clamping to a and then b is byte for byte clamping to the smaller |
| MssClamp.ChecksumPreservedIff | internal/bridge/mssclamp.go:69-97 | a valid TCP checksum stays valid if and only if there is nothing to lower, the MSS is at an even offset or the change is divisible by 257 |
| MssClamp.OddOffsetFails | internal/bridge/mssclamp.go:75-80 | a concrete valid segment, MSS behind one NOP, whose checksum the clamp breaks |
| Fragment.Split | internal/fragment/fragment.go:20-34 | the loop cuts the frame into the specified pieces |
| FragmentSpec.SplitRoundTrip | internal/fragment/fragment.go:20-34 | joining the pieces gives the frame back |
| FragmentSpec.SplitShape | internal/fragment/fragment.go:24-32 | all pieces but the last are full, the last is not empty, their number is the ceiling of the quotient |
| Fragment.Reassembler.DropExpired | internal/fragment/fragment.go:139-143 | removes exactly the entries over their time to live |
| Fragment.Reassembler.Evict | internal/fragment/fragment.go:138-158 | then, from a full table, one entry no other is older than |
| Fragment.Reassembler.Add | internal/fragment/fragment.go:78-134 | new table and result for every piece: invalid, single, tombstone, new id, changed count, duplicate, last |
| FragmentSpec.EvictionIsJustified | internal/fragment/fragment.go:136-158 | an entry leaves only when another id needs room, and then over its time to live or oldest in a full table |
| FragmentRuns.ReturnedWhenComplete | internal/fragment/fragment.go:78-134 | in any order with duplicates a piece returns the exact original frame when it completes the set seen since the entry was made, and nothing otherwise |
| FragmentRuns.ReturnedOncePerLifetime | internal/fragment/fragment.go:94-134 | a frame is returned at most once more than its entry was evicted |
| FragmentRuns.TableIsBounded | internal/fragment/fragment.go:41-47 | whatever pieces arrive the table never exceeds 256 entries and every eviction in a run is justified |
| FragmentAny.EntriesAre | internal/fragment/fragment.go:78-134 | after any pieces, with whatever indices and counts, an entry is there exactly while it has pieces, and has their count, the time of the first and the first piece of each index; it is a tombstone exactly when all have come |
| FragmentAny.AnyPieceExactly | internal/fragment/fragment.go:78-134 | what any piece returns: nothing for an index not below its count, itself if it is the only one, the first pieces joined when it completes its entry, else nothing |
| FragmentAny.EvictedIff | internal/fragment/fragment.go:136-158 | an entry leaves the table if and only if a proper piece comes for an id that has none and its own first piece is over two seconds old, or it is the one found oldest of 256 or more younger ones |
| FragmentAny.OldestIs | internal/fragment/fragment.go:146-157 | the entry found oldest is one of the younger ones whose first piece none of theirs came before |
| Reality.ReplayCache.Fresh | internal/transport/reality_server.go:104-118 | drops what is over the time to live; true exactly for a key not kept, which is then stored |
| Reality.Authenticate | internal/transport/reality_server.go:174-212 | the verdict and the new cache: name, key, blob by the first key that opens it, short id, window, cache |
| Reality.AcceptedIff | internal/transport/reality_server.go:104-212 | in any run with a clock that does not go back a hello is accepted if and only if its blob opens, its time is in the window and its session id was not accepted within the time to live, all three in 64-bit arithmetic |
| Reality.AdmittedIff | internal/transport/reality_server.go:174-212 | from the hello's bytes: accepted if and only if the name list is empty or holds the name, the share is a public key, the first private key that opens the 32-byte session id under the first twelve random bytes gives a known short id and a time in the window, and the session id was not accepted within the time to live |
| Reality.AcceptedExactly | internal/transport/reality_server.go:104-212 | the same in closed form within 584 years of the timestamp |
| Reality.AcceptedTwiceBetweenIff | internal/transport/reality_server.go:73-75 | for all inputs: a hello can be accepted twice between two times if and only if its blob opens and the window test passes at two of them more than the time to live apart |
| Reality.AcceptedTwiceInRangeIff | internal/transport/reality_server.go:71-75 | with its timestamp within a Duration of both attempts a hello can be accepted twice if and only if the configured window as it wraps outlasts the time to live as it wraps |
| Reality.WindowForgetsIff | internal/transport/reality_server.go:71-75 | which for a window below 2^63 seconds is: twice the window does not fit an int64 and its product with a second does not wrap to a negative number |
| Reality.InWindowIff | internal/transport/reality_server.go:203-209 | within 584 years of the timestamp the window test passes exactly up to the window and again past the longest Duration |
| Reality.AcceptedTwiceIff | internal/transport/reality_server.go:73-75 | the same for two given attempts |
| Reality.AcceptedAtMostOnce | internal/transport/reality_server.go:73-75 | so with a window whose double fits an int64 one ClientHello is accepted at most once ever when its distance from both clocks fits a Duration |
| Reality.AHelloCanBeAcceptedTwice | internal/transport/reality_server.go:201-211 | a concrete run that accepts one hello, dated 292 years back, twice within three minutes |
| Reality.AWideWindowForgets | internal/transport/reality_server.go:71-75 | a concrete run that, with a window of 2^62 seconds, accepts one hello twice in the same second |
| Reality.CacheIsRecent | internal/transport/reality_server.go:107-116 | after an accepted attempt the cache holds nothing older than the time to live but that attempt, stored with the current time |
| ClientHello.ByteReader.Take | internal/transport/reality_hello.go:145-152 | advances by n bytes and returns them, or fails and stays |
| ClientHello.ByteReader.TakeU16Vec | internal/transport/reality_hello.go:187-193 | a 16-bit length and that many bytes; a failure leaves the cursor where it was or behind the length |
| ClientHello.ReadSni | internal/transport/reality_hello.go:95-115 | the first entry of type host_name, or the empty name |
| ClientHello.ReadKeyShare | internal/transport/reality_hello.go:117-136 | the first 32-byte X25519 share |
| ClientHello.ReadExtensions | internal/transport/reality_hello.go:77-93 | the fields after all whole extensions |
| ClientHello.ReadRecord | internal/transport/reality_hello.go:25-75 | on any bytes it ends within bounds with the specified result |
| ClientHello.ParserInvertsGrammar | internal/transport/reality_hello.go:25-193 | for every hello of the grammar in sections 4.1.2 and 4.2.8 of RFC 8446 and section 3 of RFC 6066 that fits one record and has distinct extensions: exactly its random, session id, first host name and X25519 share |
| HelloExactly.RecordParsesIff | internal/transport/reality_hello.go:25-193 | for every byte string: accepted with these fields if and only if it is a handshake record holding a ClientHello with its lengths in order, whatever follows at each level; the fields are its random, session id, the first host name of its last server_name and the first 32-byte X25519 share of its last key_share |
| Proto.SeqRoundTrips | internal/proto/packet.go:91-123 | each of the three Unpack functions inverts its Pack, shifts and ors on 64-bit words |
| Proto.PackedIffPaddingIsZero | internal/proto/packet.go:80-123 | a Seq is what Pack makes of its fields if and only if its padding bytes are zero |
| Proto.SeqLayout | internal/proto/packet.go:80-123 | the three packings as numbers, each field at its place |
| Proto.HeaderLayout | internal/proto/packet.go:61-66 | the fifteen bytes of a header, highest byte of each field first |
| Proto.MarshalHeader | internal/proto/packet.go:61-66 | the first fifteen bytes are the header, the rest of the buffer stays |
| Proto.HeaderParsesIff | internal/proto/packet.go:61-78 | a packet parses to a header if and only if it starts with that header's bytes |
| Proto.MarshalAuthHello | internal/proto/packet.go:146-155 | the documented layout in a fresh buffer |
| Proto.AuthHelloLayout | internal/proto/packet.go:146-155 | hub id, login behind its length byte, hash and flags at their places |
| Proto.AuthHelloParsesIff | internal/proto/packet.go:157-176 | a payload parses to a hello if and only if it starts with its bytes, or is its bytes without the flags and the flags are zero |
| Proto.AuthHelloRoundTripsIff | internal/proto/packet.go:146-176 | the message round-trips if and only if the login has at most 255 bytes; without the flags byte the flags read as zero |
| Proto.MarshalHubList | internal/proto/packet.go:270-288 | the layout of the list cut to 255 hubs and 255-byte names |
| Proto.HubListLayout | internal/proto/packet.go:270-288 | the number of hubs, then each hub's id and its name behind a length byte |
| Proto.ParseHubList | internal/proto/packet.go:291-312 | the parsing loop over the shrinking slice gives the specified list or error |
| Proto.HubListParsesIff | internal/proto/packet.go:291-312 | a payload parses to a list if and only if the list fits and the payload starts with its bytes: every truncation is an error, a tail is ignored |
| Proto.HubListRoundTrip | internal/proto/packet.go:270-312 | parsing a marshalled list gives the list cut, which is the list exactly when it fits |

## Left out

- Global order across FEC blocks and the pipe at r = 0: the code does not provide them.
- The timer of the background repair sender and its cancellation: the job in hand is sent when its time has come, or never, which the channel allows for.
- FecPipe.Pipe.Send: one call is one step; concurrent callers number their frames under the lock as here and can interleave their callbacks.
- The Reed-Solomon library and the shard pool of rsEncode: only the any-k-of-(k+r) law and the padding around it.
- sync.Pool beyond "a reused block is clean"; map iteration order, which is left open.
- AES-GCM, HKDF, X25519, SHA-256, bcrypt: functions with laws, no cryptography.
- Reality.InWindowIff: timestamps more than 584 years from the clock, where the product wraps again; Reality.AcceptedIff and Reality.AcceptedTwiceBetweenIff cover them with the window test as the code has it.
- LoopFreedom.NoEntryLeavesHome: echoes of a source last injected five minutes ago or earlier are outside the premise; LoopFreedom.ALateEchoPasses shows that the code lets them through.
- Hub.Switch.Forward: one call is one step with one clock reading; LoopFreedom splits the same call at its locks and proves the safety properties there.
- The clock of the Reality listener is taken to show a time from 1970 on, so that the difference of two readings fits an int64.
- LoopFreedom.NothingLoops: the two lookups of a read share one clock reading there, and a short duplicate whose log line panics counts as dropped.
- LoopGuard.Bridge.ReadQueued: the guard does not change during a call; parsing the BPF read buffer (pkg/tun/bpf_darwin.go:342-355) reads memory unsafely and is left out.
- Delivery.OutputIsLockOrder: decryption and the replay window come before the lock and any packet may reach it; their own theorems are in Replay.
- One-piece fragments, which the reassembler does not deduplicate and senders do not make: Fragment.Reassembler.Add models the branch, the run theorems are about frames of two to 255 pieces.
- AuthOK and AuthError messages: as AuthHello, with fixed fields.
- Fragment id and session id allocation, secondary path registration, statistics, log lines and their rate limits beyond the hub's flap counter.
- GUI, CLI, installers, adapters, firewall, TCP framing, ARP emulation, discovery, self-update, HTTP API: I/O or plumbing.
