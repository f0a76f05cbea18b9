# Reliable file transfer and file directory: a verified model

This project models, in Dafny 4.11, the peer-to-peer file sharing program in `skeleton/`: the
Selective Repeat ARQ that carries a file over UDP, the packets and checksum it uses, the client's
loops that drive it, and the directory server through which clients find each other's files.

`dafny verify dfyconfig.toml` checks everything.

## How it is built

| file | what it holds |
|---|---|
| `Protocol.dfy`, `Chunking.dfy`, `Windows.dfy`, `CStrings.dfy` | constants and C's unsigned arithmetic; how a file is cut up; least missing numbers and 64-slot indices; fixed-width strings |
| `Checksum.dfy`, `Packets.dfy` | the folding checksum, the 16-byte header, building and reading packets, what corruption is caught |
| `SenderSpec.dfy`, `ReceiverSpec.dfy` | each side without its ring: a set of acknowledged chunks with timers; a map of every chunk ever accepted |
| `SenderRing.dfy`, `ReceiverRing.dfy` | each side as it is written: a class around a 64-slot array, every method proved against the ring-free form |
| `Transfer.dfy` | both sides and two channels as a state machine over byte packets; the results that hold in every run |
| `Retries.dfy`, `EventLoop.dfy` | the sender's transmission history, on any clock; the loop that drives it and why it ends |
| `Sessions.dfy`, `Outcomes.dfy`, `LostAcks.dfy` | that loop interleaved in every way with the receiver; how and when a whole transfer is decided; a session in which every ACK is lost |
| `Confluence.dfy`, `Download.dfy`, `Lossless.dfy` | order and repetition of arrivals; the receive loop; both classes put together |
| `Registry.dfy`, `DirectoryRuns.dfy`, `DirectoryServer.dfy`, `FileList.dfy` | the directory as a value, its whole runs beside a record of the operations, the server's arrays updated in place, and the file list on the wire |

The simple form of each side is where the results about runs are proved; the class is where the mod-64
slots, the early returns, the counters and the 32-bit arithmetic are. A class method's contract is the
very predicate (`WindowSent`, `TimeoutsChecked`, `DataHandled`) that is a step of the state machine.

A channel is the set of packets ever put into it, and any of them may arrive at any time, any number of
times or never. The data channel may also deliver any bytes that the receiver's checks reject, of any length
and from any source; copies with one byte changed, or with up to 256 bytes outside the checksum field
changed so that the byte sum changes, are among them (`Transfer.CorruptedArrives`).

## What the program depends on

- One transfer, both channels empty at its start, of a file of any size. Both sides are given the size cut
  to 32 bits (`Chunking.Cut`); the sender counts the chunks itself and the receiver is given the announced
  count, which comes from the whole size. `Transfer.SenderDoneMeansReceiverDone` says exactly when these fit
  together; `Transfer.OversizedNeverArrives` and `Transfer.FourGigabytes` are sizes where they do not.
- What the receiver holds does not depend on ACKs being right: `Transfer.EndToEnd` is for runs in which any bytes are
  handed to the sender as ACKs. What the sender believes does, because it does not look at an ACK's
  checksum: the two sides stay together exactly if every ACK is harmless (`Transfer.AckHarmlessExactly`,
  `Transfer.RunInvExactly`), `Transfer.AckChecksumUnchecked` is an input where they part, and a channel
  that does not alter ACKs never does this (`Transfer.UnalteredIsHarmless`).
- Both hosts are little-endian: the checksum is the one field stored in host order.
- Retry limits hold on any clock, with differences wrapping at 64 bits as written
  (`Retries.BackwardReading` is what a backward clock does). Only bounds in plain milliseconds
  (`Retries.GivesUpLate`, `EventLoop.dfy`, `Sessions.dfy`) need a clock that does not go back.
- Connections register once and share files only while registered, and id counters do not wrap
  (`DirectoryRuns.dfy`); `RegisterExactly`, `ShareExactly`, `ReRegisterOrphans` and `ShareServed` show
  that these conditions are exact.
- A datagram handed to the receiver is at most 1040 bytes long, as the caller's buffer is.

The comments in `skeleton/protocol.h` (147-149) call the ACK number the next expected one and cumulative;
the code acknowledges single chunks, and the model follows the code.

## Model

| member | source | states |
|---|---|---|
| `Transfer.EndToEnd` | skeleton/selective_repeat.c:408-544 | for files of every size, in every state of every run, whatever the channels do and whatever bytes the sender is given as ACKs, the receiver's buffer equals the file up to the receiver's base; a complete receiver holds the first (size mod 2^32) bytes if those are at most 2^32 − 1024, and the file exactly if its size is below 2^32 |
| `Transfer.SenderDoneMeansReceiverDone` | skeleton/selective_repeat.c:232-351 | for files of every size, in every run whose ACKs were harmless, when the sender's completion test is true the receiver is complete exactly if (size + 1023) mod 2^42 is below 2^32, and holds the file exactly if that has at most 2^32 − 1024 bytes |
| `Transfer.OversizedNeverArrives` | skeleton/client.c:1113-1126 | if size mod 2^32 is above 2^32 − 1024, in every state of every run the sender is complete, nothing is in flight and the buffer is untouched; the receiver waits (below 2^32: for 4194304 chunks), or, just below a multiple of 2^42, is complete with nothing received |
| `Transfer.FourGigabytes` | skeleton/client.c:1113-1179 | counterexample: a file of 2^32 bytes is cut to none, and in every run the sender is complete while the receiver waits for 4194304 chunks |
| `Transfer.WindowsNeverPart` | skeleton/selective_repeat.c:182-271 | in every run with harmless ACKs: sender base ≤ receiver base ≤ next_seq ≤ sender base + 64, so every packet in flight reads as a chunk that is inside the receiver's window |
| `Transfer.EveryArrivalAnswered` | skeleton/selective_repeat.c:456-476 | in every run with harmless ACKs, a packet that was sent is answered each time it arrives, also when its chunk has come before, by exactly one ACK that reads as its number |
| `Transfer.ArrivalIsGenuineOrRejected` | skeleton/selective_repeat.c:434-463 | whatever the data channel delivers is either rejected, or was sent, carries the file's own chunk and fits the receiver's buffers; with harmless ACKs it is also within the window |
| `Transfer.CorruptedArrives` | skeleton/selective_repeat.c:434-447 | every copy of a packet in flight with one byte changed, or up to 256 outside the checksum field that change the sum, is something the channel of these runs may deliver |
| `Transfer.RunSafe` | skeleton/selective_repeat.c:157-492 | both sides, what is in flight and every ACK sent are genuine in every state of every run, with any ACKs handed to the sender |
| `Transfer.StepSafe` | skeleton/selective_repeat.c:157-492 | each of the four calls, in any interleaving and with any ACK, keeps that |
| `Transfer.AckHarmlessExactly` | skeleton/selective_repeat.c:251-263 | one ACK of any bytes keeps the joint invariant exactly if it does not parse, names a chunk not sent yet, or names one the receiver has |
| `Transfer.ReceivedAckHarmless` | skeleton/selective_repeat.c:497-522 | every ACK the receiver ever sent is harmless at any later time |
| `Transfer.RunInv` | skeleton/selective_repeat.c:157-492 | with harmless ACKs the sender has acknowledged only what the receiver has, in every state of every run |
| `Transfer.StepInv` | skeleton/selective_repeat.c:157-492 | a step keeps the joint invariant exactly if it is no ACK or a harmless one |
| `Transfer.RunInvExactly` | skeleton/selective_repeat.c:157-492 | the joint invariant holds throughout a run exactly if every ACK in it was harmless when it was handled |
| `Transfer.UnalteredIsHarmless` | skeleton/selective_repeat.c:497-522 | a run in which every ACK handled had been sent by the receiver is harmless |
| `Transfer.AckChecksumUnchecked` | skeleton/selective_repeat.c:251-263 | counterexample: after the first window of any one-chunk file, sixteen bytes with a wrong checksum are not harmless and leave the sender complete and the receiver not |
| `SenderRing.SrSender.constructor` | skeleton/selective_repeat.c:67-92 | a new ring stands for a sender that has sent nothing; the count is the wrapping 32-bit one |
| `SenderRing.InitSender` | skeleton/selective_repeat.c:53-92 | a sender that has sent nothing of the file cut to its 32-bit size, and -1 if the structure, the peer, the file or the link is missing |
| `SenderRing.SrSender.SendWindow` | skeleton/selective_repeat.c:157-226 | sends exactly the chunks from next_seq on, byte for byte and in order, until next_seq is num_chunks or base + 64; the occupied-slot exit is never taken; sent minus retransmitted stays next_seq |
| `SenderRing.SrSender.HandleAck` | skeleton/selective_repeat.c:232-276 | an ACK for any chunk already sent adds it to the acknowledged set, any other changes nothing; afterwards the base is the least unacknowledged chunk and freed slots are empty |
| `SenderRing.SrSender.CheckTimeouts` | skeleton/selective_repeat.c:283-341 | resends exactly the overdue chunks before the first that has used up its retries, from the slot's copy, and restarts their timers; returns -1 exactly if there is such a one; the number-mismatch skip is never taken |
| `SenderRing.SrSender.IsComplete` | skeleton/selective_repeat.c:347-351 | the counter comparison is true exactly when base equals num_chunks |
| `SenderRing.SlotMeaning` | skeleton/selective_repeat.c:258-271 | in the window, a slot is empty, pending or acknowledged exactly as its chunk is unsent, unacknowledged or acknowledged, and holds that chunk's number and bytes |
| `SenderRing.AckedSlotsCount` | skeleton/selective_repeat.c:260-271 | chunks acknowledged = base + number of slots marked acknowledged |
| `SenderSpec.CompleteIffBase` | skeleton/selective_repeat.c:349-349 | counting acknowledged chunks to num_chunks, base = num_chunks, and every chunk being acknowledged are the same |
| `SenderSpec.GivesUp` | skeleton/selective_repeat.c:299-307 | the scan fails exactly if some unacknowledged chunk is both overdue and out of retries |
| `SenderSpec.ResentMeans` | skeleton/selective_repeat.c:303-336 | a chunk is resent exactly if its timer ran out before the scan stopped; only those timers change |
| `SenderSpec.TimeoutReads` | skeleton/selective_repeat.c:299-340 | what is resent reads as the chunks whose timers were restarted, once each and in order; the result is their number, or -1 exactly if some unacknowledged chunk has been resent ten times and 500 ms have passed |
| `SenderSpec.TimeoutIs500` | skeleton/selective_repeat.c:303-307 | a chunk sent at t is not resent up to t + 499; at t + 500 it is, if it has fewer than ten retries and no chunk before it stops the scan; with ten the check fails |
| `SenderSpec.SendWindowUnique` | skeleton/selective_repeat.c:182-223 | the pointwise description of sending a window determines the new state |
| `SenderSpec.WindowFilled` | skeleton/selective_repeat.c:182-223 | afterwards no chunk of the file inside the window of 64 is unsent; new chunks have a fresh timer, and nothing else has changed |
| `SenderSpec.WindowReads` | skeleton/selective_repeat.c:182-223 | what is sent reads, at a receiver, as each new chunk of the file once and in order |
| `ReceiverRing.SrReceiver.constructor` | skeleton/selective_repeat.c:380-403 | for any announced size and count, a new ring stands for a receiver that has accepted nothing, over a buffer of any contents |
| `ReceiverRing.InitReceiver` | skeleton/selective_repeat.c:359-403 | -1 exactly if an argument or the memory is missing, and otherwise such a receiver |
| `ReceiverRing.SrReceiver.HandleData` | skeleton/selective_repeat.c:408-492 | for every packet: says exactly whether its copies stay in the file buffer; the ACK is sent in either case; if they do, it refines the unbounded map of accepted chunks (bad packets change nothing, a chunk in the window is kept the first time, every chunk in or before it is acknowledged once, base is then the least chunk missing and the buffer holds all chunks below it) |
| `ReceiverSpec.DataMeans` | skeleton/selective_repeat.c:434-476 | a packet that fails the checks does nothing; one that passes is answered with its own number exactly if its chunk lies before the end of the window, repeated or not; it is kept if it is new, and what was kept stays |
| `ReceiverSpec.OverrunExactly` | skeleton/selective_repeat.c:478-486 | while every chunk kept fits, the chunk at the base overruns the buffer exactly if its payload is too long for its place; a chunk ahead is kept without overrunning yet |
| `ReceiverSpec.OverlongLastChunk` | skeleton/selective_repeat.c:434-486 | counterexample: a well-formed packet with 1024 bytes for a file of one byte passes every check and overruns |
| `ReceiverRing.SrReceiver.SendAck` | skeleton/selective_repeat.c:497-522 | the reply is the well-formed ACK of that number |
| `ReceiverRing.SrReceiver.IsComplete` | skeleton/selective_repeat.c:528-533 | true exactly when no chunk is missing |
| `ReceiverRing.SlotMeaning` | skeleton/selective_repeat.c:465-488 | a slot in use holds the one chunk of the 64 from base on that has its index, although the code never compares the number |
| `ReceiverRing.ReceivedSlotsCount` | skeleton/selective_repeat.c:473-488 | chunks received = base + number of slots in use |
| `ReceiverSpec.AssembledIsPrefix` | skeleton/selective_repeat.c:478-489 | with genuine chunks the buffer is the file up to the base and untouched after it |
| `ReceiverSpec.CompleteIsFile` | skeleton/selective_repeat.c:528-544 | with all chunks present the assembled buffer is the file |
| `Windows.SlotsDistinct` | skeleton/selective_repeat.c:465-465 | within 64 consecutive numbers no two share a slot, and 64 apart they do |
| `Windows.RingCount` | skeleton/selective_repeat.c:258-271 | counting slots of the ring is counting numbers of the window |
| `Retries.RetryCap` | skeleton/selective_repeat.c:299-338 | in every run, with any ACKs and any clock, each chunk is transmitted at most 11 times, each at least 500 ms after the one before by the code's wrapping difference |
| `Retries.PlainSpacing` | skeleton/selective_repeat.c:303-306 | two successive transmissions are at least 500 ms apart in plain time wherever the reading did not go back between them |
| `Retries.ExpiredExactly` | skeleton/selective_repeat.c:303-306 | a chunk counts as overdue exactly 500 ms on, or when the clock has gone back and not by within 500 of 2^64 |
| `Retries.BackwardReading` | skeleton/selective_repeat.c:303-336 | counterexample: a clock that goes from 1 to 0 makes a chunk sent at 1 be sent again at 0 |
| `Retries.NeverResentAfterAck` | skeleton/selective_repeat.c:303-303 | on any clock, from the moment a chunk is acknowledged it is never transmitted again |
| `Retries.GivesUpExactly` | skeleton/selective_repeat.c:306-307 | in every run, on any clock, -1 is returned exactly if some unacknowledged chunk was sent 11 times and last 500 ms ago |
| `Retries.GivesUpLate` | skeleton/selective_repeat.c:306-307 | if the clock has not gone back, that chunk was first sent at least 5500 ms ago |
| `Retries.TransmissionsBounded` | skeleton/selective_repeat.c:196-196 | one transfer makes at most 11 transmissions per chunk begun, below 2^31; the `int` counters themselves are process-wide statics (lines 26-28), so this bounds what one transfer adds to them |
| `EventLoop.Iterate` | skeleton/client.c:1193-1245 | one pass of the loop: ACK, window, timeouts, then over exactly if given up or complete; what is sent is what those calls send |
| `EventLoop.PassLeaves` | skeleton/client.c:1193-1245 | after a pass exactly its ACK has been added, the window that opens is sent, and no pending chunk is overdue unless the transfer ended; it ends exactly if complete or if a chunk is overdue after ten retries |
| `EventLoop.PassIsRun` | skeleton/client.c:1193-1245 | a pass of the loop is the stretch of a transfer run made of its two or three calls, ending in the loop's new sender and with all it sent in flight |
| `EventLoop.BasePending` | skeleton/selective_repeat.c:182-223 | after the window is sent an unfinished transfer has its base chunk pending |
| `EventLoop.TickProgress` | skeleton/client.c:1203-1244 | a pass that leaves the transfer active never raises 11·(chunks left) − retries of the base, and lowers it if its check comes 500 ms after the base was last sent |
| `EventLoop.EndsInTime` | skeleton/client.c:1203-1244 | if the loop looks at the clock at least every g ms, a transfer of n chunks is over within 11·n·(500+g) ms, whatever ACKs come |
| `EventLoop.EndsInChecks` | skeleton/client.c:1203-1244 | if checks are at least 500 ms apart, a transfer survives at most 11·n of them |
| `Sessions.IsTransferRun` | skeleton/client.c:1193-1245 | any interleaving of passes of the loop with packets handed to the receiver is a run of the transfer, harmless if the ACKs heard were |
| `Sessions.IsSenderRun` | skeleton/client.c:1193-1245 | and a history of the sender with the same log, on a clock that does not go back |
| `Sessions.IsLoopRun` | skeleton/client.c:1193-1245 | and a run of the loop over exactly its passes |
| `Outcomes.DecidedInTime` | skeleton/client.c:1203-1244 | for files of every size, with harmless ACKs, data lost, repeated, reordered and corrupted, and a loop that looks at the clock every g ms: within 11·n·(500+g) ms either the sender has finished, and the receiver holds the file exactly if it has at most 2^32 − 1024 bytes, or it has given up on an unacknowledged chunk sent 11 times, first at least 5500 ms ago |
| `Outcomes.FinishedExactly` | skeleton/client.c:1203-1244 | after that time, whatever ACKs came, the sender has finished exactly if it has heard an ACK for every chunk, and exactly if each came before the chunk's eleventh transmission timed out |
| `Outcomes.GivesUpExactly` | skeleton/client.c:1208-1217 | whatever ACKs come, the sender has given up exactly if in some pass a chunk's eleventh transmission timed out before an ACK for it had been heard |
| `Outcomes.AnsweredCompletes` | skeleton/client.c:1203-1244 | completion under loss: with harmless ACKs, in that time the transfer is finished exactly if no chunk's eleventh transmission timed out unanswered, and then the receiver has the file exactly if it has at most 2^32 − 1024 bytes |
| `Outcomes.SilentGivesUp` | skeleton/client.c:1208-1217 | a sender with something to send that hears no ACK has given up by then |
| `Outcomes.AckedExactly` | skeleton/selective_repeat.c:251-263 | the sender takes a chunk for acknowledged exactly if its loop has heard an ACK for it after sending it |
| `Outcomes.ReceivedAckAnswers` | skeleton/selective_repeat.c:251-263 | hearing any ACK that the receiver sent answers a chunk that the receiver has |
| `Outcomes.RedeliveryAnswers` | skeleton/selective_repeat.c:458-476 | a lost ACK is made good: delivering a packet again, however often, sends an ACK that answers its chunk in whatever later pass it is heard |
| `LostAcks.SenderGivesUpOnDelivered` | skeleton/client.c:557-580 | counterexample: for every one-chunk file there is a session, with nothing altered and the loop on time, at whose end the receiver holds the file and the sender has given up |
| `LostAcks.TurnPossible` | skeleton/client.c:1193-1245 | after any move the loop can make any pass: the packets it has to send exist |
| `Confluence.AckConfluence` | skeleton/selective_repeat.c:251-271 | two sequences of ACKs naming the same numbers, in any order and with any repetition, leave the same sender |
| `Confluence.SendRingDetermined` | skeleton/selective_repeat.c:258-271 | and so the same slot states, numbers, bytes and pending timers |
| `Confluence.DeliveryConfluence` | skeleton/selective_repeat.c:456-489 | two sequences of the file's packets with the same numbers, all in the window at the start, leave the same receiver: base, chunks and buffer |
| `Confluence.RecvRingDetermined` | skeleton/selective_repeat.c:463-488 | and so the same slots in use with the same contents |
| `Download.Receive` | skeleton/client.c:557-580 | the loop ignores other senders, stops at the first state in which the file is complete, or with an error at the first failed receive before that; complete, the buffer is the file; its ACKs are exactly one for each datagram taken from the peer that reads as a chunk before the end of the window at that moment, in order and with that number |
| `Download.AfterAllMeans` | skeleton/client.c:557-580 | what the receiver then holds is what it held and exactly the chunks of the datagrams it answered |
| `Download.ArrivalSound` | skeleton/client.c:560-575 | what arrives in a run of the transfer, and fits the loop's buffer, meets the loop's needs |
| `Lossless.CopyOver` | skeleton/selective_repeat.c:53-544 | the two classes joined by a network that loses nothing finish, for every file up to 2^32 − 1024 bytes, and the copy is the file |
| `Lossless.Exchange` | skeleton/selective_repeat.c:232-492 | a chunk that is next for both sides, delivered and acknowledged, moves both bases on by one |
| `Checksum.CalculateChecksum` | skeleton/protocol.h:158-169 | both loops end with the complement of the byte sum folded modulo 65535; exact up to 16843009 bytes, and with the 32-bit wrap beyond |
| `Checksum.FoldedResidue` | skeleton/protocol.h:165-167 | folding gives the residue modulo 65535 in 1..65535, and 0 only for 0 |
| `Checksum.ChecksumCancels` | skeleton/protocol.h:158-169 | the checksum makes the byte sum a multiple of 65535, and is 65535 only for a zero sum |
| `Checksum.ByteSumAdds` | skeleton/protocol.h:160-163 | the byte sum of a concatenation is the sum of the byte sums, and of one byte the byte |
| `Checksum.FoldStep` | skeleton/protocol.h:165-167 | a pass of the folding loop makes the sum smaller and keeps its residue |
| `Checksum.AllOnesSum` | skeleton/protocol.h:160-163 | 16843009 bytes is the exact bound for the 32-bit sum |
| `Checksum.ChecksumDetects` | skeleton/protocol.h:158-175 | strings that differ in at most 256 places have equal checksums exactly if their byte sums are equal |
| `Checksum.DetectionBoundIsTight` | skeleton/protocol.h:158-175 | with 257 changed bytes the sum can change and the checksum not |
| `Packets.CorruptionRejected` | skeleton/selective_repeat.c:434-447 | any one changed byte, or up to 256 outside the checksum field that change the sum, makes a good packet be rejected |
| `Packets.AlterationAccepted` | skeleton/selective_repeat.c:439-447 | a change outside the checksum field goes unnoticed exactly if the sums are congruent modulo 65535 and both zero or both not |
| `Packets.DataRoundTrip` | skeleton/selective_repeat.c:434-454 | every packet built for a number and payload passes all checks and reads as exactly those |
| `Packets.AckRoundTrip` | skeleton/selective_repeat.c:251-254 | every ACK built for a number reads as that number, and never as data |
| `Packets.DataPacketBytes` | skeleton/selective_repeat.c:113-126 | every byte of a data packet by its offset: type 1, big-endian number, length and window 64, payload, checksum low byte first |
| `Packets.AckPacketBytes` | skeleton/selective_repeat.c:139-149 | every byte of an ACK by its offset |
| `Packets.ParseDataExactly` | skeleton/selective_repeat.c:434-454 | exactly which bytes are accepted as data and what is read from them; bytes after the payload are allowed |
| `Packets.ParseAckExactly` | skeleton/selective_repeat.c:251-254 | exactly which bytes are taken for an ACK |
| `Packets.DataPacketUnique` | skeleton/selective_repeat.c:310-310 | a retransmission is byte-identical to the first transmission |
| `Packets.BuildDataPacket` | skeleton/selective_repeat.c:99-127 | the buffer's front becomes the one packet for that number and payload, which reads back as them |
| `Packets.BuildAckPacket` | skeleton/selective_repeat.c:133-150 | the buffer becomes the one ACK for that number, which reads back as it |
| `Chunking.SenderCountExact` | skeleton/selective_repeat.c:77-77 | the 32-bit count is the number of chunks up to 2^32 − 1024 bytes, and 0 above |
| `Chunking.CountsAgree` | skeleton/client.c:1113-1126 | the sender's count and the announced one agree exactly if the rounded-up size modulo 2^42 is below 2^32; for sizes up to 2^42 − 1024 exactly up to 2^32 − 1024 |
| `Chunking.BothCounts` | skeleton/client.c:1113-1126 | for every size below 2^32 the announced count is the right one; the sender's is the same up to 2^32 − 1024 bytes and 0 above |
| `Chunking.Cut` | skeleton/client.c:1125-1179 | what 32 bits of size speak of: a prefix, and the whole file if its size is below 2^32 |
| `Chunking.CountsOrdered` | skeleton/client.c:1113-1126 | for every size the announced count is at least the sender's, and the sender's covers the cut size up to 2^32 − 1024 |
| `Chunking.ChunkArithmetic` | skeleton/selective_repeat.c:187-193 | for every chunk sent no 32-bit or 16-bit step wraps, the length computed is the chunk's, and its bytes are the file's from 1024 times its number on |
| `Chunking.ChunksRebuildFile` | skeleton/selective_repeat.c:187-191 | the chunks one after the other are the file |
| `Registry.RequestServed` | skeleton/server.c:213-264 | under the invariant a request is never answered with "no peers": a listed file gives its record and its owner's endpoint, any other "not found" |
| `Registry.RegisterExactly` | skeleton/server.c:119-123 | registering keeps the invariant exactly if the connection was not registered and the counter does not wrap |
| `Registry.ShareExactly` | skeleton/server.c:141-161 | sharing keeps it exactly if the table is full, or the client is registered and the counter does not wrap |
| `Registry.ReRegisterOrphans` | skeleton/server.c:119-123 | after a second registration all listed files can be had exactly if that connection had shared none |
| `Registry.ShareServed` | skeleton/server.c:141-161 | a file just shared is served from its owner exactly if the client is registered, and otherwise answered with "no peers" |
| `Registry.ShareMeans` | skeleton/server.c:155-161 | the new id then gives the size, hash and name (up to 255 bytes) that were offered, at the sharer's endpoint; every other request is answered as before |
| `Registry.RemoveInv` | skeleton/server.c:73-102 | removal keeps distinct ids, the client count, sorted file ids and an active owner for every file |
| `Registry.RemoveMeans` | skeleton/server.c:73-102 | removing an active client makes its slot and no other inactive; a request for a file it owned is then not found, and every other request is answered as before |
| `Registry.ConnectInv` | skeleton/server.c:336-352 | a new connection keeps them too |
| `Registry.ConnectTwice` | skeleton/server.c:336-352 | of two connections that come in one after the other, without registering, only the second leaves a trace |
| `Registry.ConnectionRead` | skeleton/server.c:336-352 | a new descriptor is found in the first inactive slot, with its address and not registered; no other slot changes |
| `Registry.ConnectionLost` | skeleton/server.c:336-352 | when a connection comes in, one that was being read is still read exactly if its slot is not the first inactive one, as when it has registered; otherwise it is in no slot any more |
| `DirectoryRuns.RunInv` | skeleton/server.c:43-161 | in every run the tables agree with an independent record of the operations: slots with where each connected from, its registration number and port; every listed file with what was offered; and every file is listed as long as its owner is connected |
| `DirectoryRuns.RequestReturnsWhatWasShared` | skeleton/server.c:213-264 | in every run a request for an id that was given out returns the size, hash and name that were offered and the endpoint its client connected from and registered, as long as that client is connected; otherwise, and for any other id, "not found" |
| `DirectoryRuns.RemovedForGood` | skeleton/server.c:73-102 | in every run, from the removal of the client that shared a file on, every request for it is answered "not found" |
| `DirectoryServer.Server.RemoveFiles` | skeleton/server.c:78-92 | the shift-and-recheck loops end and leave exactly the entries of other owners, in order, for every array |
| `DirectoryServer.Server.RemoveClient` | skeleton/server.c:73-102 | an active client goes with its files and no others; an inactive one changes nothing (what that means: `Registry.RemoveMeans`) |
| `DirectoryServer.Server.AcceptNewClient` | skeleton/server.c:336-352 | the connection takes the first slot that is not active, or none |
| `DirectoryServer.Server.HandleRegister` | skeleton/server.c:119-138 | the slot becomes active under the next id, which is acknowledged |
| `DirectoryServer.Server.HandleShareFile` | skeleton/server.c:141-179 | the file is appended under the next id and the sharer's, or refused if the table is full (what can then be had: `Registry.ShareMeans`) |
| `DirectoryServer.Server.FindClient` | skeleton/server.c:43-50 | the first active slot with that id |
| `DirectoryServer.Server.FindClientByFd` | skeleton/server.c:53-60 | the first slot with that positive descriptor |
| `DirectoryServer.Server.FindFile` | skeleton/server.c:63-70 | the first entry with that id |
| `DirectoryServer.Server.HandleRequestFile` | skeleton/server.c:213-264 | the reply is the one that `RequestServed` speaks of |
| `FileList.ListRoundTrip` | skeleton/client.c:240-296 | the client shows exactly the stored ids, sizes and names in order up to 220 files, and rejects the reply exactly if there are more |
| `FileList.HandleListFiles` | skeleton/server.c:182-210 | the reply is a 16-bit length, cut off, and the records in order |
| `FileList.ReadList` | skeleton/client.c:240-296 | rejects exactly lengths that are no multiple of 297 or exceed what arrives, and otherwise reads each record from its place |
| `FileList.LengthExact` | skeleton/server.c:196-196 | the 16-bit length is right up to 220 files; for 221 to 1024 it is no multiple of 297 |
| `FileList.InfoRoundTrip` | skeleton/server.c:199-206 | a record is read as the stored id, size and name |
| `FileList.InfoLayout` | skeleton/server.c:199-206 | every byte of a record by its offset: big-endian id and size, hash, peer count 1, name |
| `CStrings.NameCopy` | skeleton/server.c:159-160 | copying a name keeps its text, up to 255 bytes |
| `CStrings.NameCopyStable` | skeleton/server.c:204-205 | copying a stored name again changes nothing |

## Left out

- ReceiverRing.SrReceiver.HandleData: says nothing of the state after a copy past the file buffer, because anything could follow; it takes datagrams of at most 1040 bytes, as the caller's buffer holds (skeleton/client.c:468-469).
- Transfer.SenderDoneMeansReceiverDone: its converse, that a complete receiver means a complete sender, is false of the code; `LostAcks.SenderGivesUpOnDelivered` is such a session and `Outcomes.FinishedExactly` the exact condition.
- SenderRing.SrSender.constructor: the process-wide statistics start at zero, so they count one transfer.
- The conversion of a chunk count of 2^31 or more to `int` is taken to keep its low 32 bits.
- Sockets, polling, partial sends and receives, signals, TCP framing: no behaviour of their own here.
- Random loss (`skeleton/lossy_udp.c`): replaced by a channel that may drop any packet.
- SHA-256, reading and writing files, printing.
- The UDP request and start messages, and the command line.
- `skeleton/share_file_logic.c`: appends to a client's own list of shared files and searches it by id.
- A run of the directory names slots where the server looks up descriptors, so it allows more than the server does; `Registry.ConnectionLost` is about the descriptors.
- More than one transfer at a time, and ACKs left over from an earlier one.
- Bytes of the directory's replies other than the file list.
