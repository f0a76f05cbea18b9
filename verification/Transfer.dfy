/** One transfer: a sender and a receiver joined by two channels that lose, repeat and reorder packets, and
    put in bytes of their own. Every interleaving of the calls is a run. `file` is the file on disk, of any
    size; the two sides work on `Cut(file)`. */
module Transfer {
  import opened Protocol
  import opened Checksum
  import opened Packets
  import opened Chunking
  import opened Windows
  import opened SenderSpec
  import opened ReceiverSpec

  /** A channel is the set of packets ever put into it. Any of them may arrive at any time, any number
      of times or never, which is loss, repetition and reordering at once. */
  datatype System = System(s: Sender, r: Receiver, data: set<Packet>, acks: set<Packet>)

  datatype Step =
    | AckStep(p: Packet)
    | SendStep(now: Word64, sent: seq<Packet>)
    | TimeoutStep(now: Word64, sent: seq<Packet>, res: int)
    | DataStep(p: Packet, replies: seq<Packet>)

  /** What the data channel may hand over: a packet that was sent, or any bytes, of any length and from any
      source, that do not pass the receiver's checks. */
  ghost predicate Arrives(channel: set<Packet>, p: Packet) {
    p in channel || ParseData(p) == None
  }

  ghost predicate Extended(before: set<Packet>, sent: seq<Packet>, after: set<Packet>) {
    after == before + set p | p in sent
  }

  /** The sender is given the cut size and counts the chunks itself; the receiver is given the cut size and
      the announced count, which comes from the whole size. */
  ghost predicate Initial(c: System, file: seq<Byte>) {
    && |c.r.initial| == U32(|file|)
    && c.s == InitialSender(Cut(file))
    && c.r == InitialReceiver(AnnouncedChunkCount(|file|), c.r.initial)
    && c.data == {} && c.acks == {}
  }

  /** One call. An ACK may be any bytes at all. A data packet that makes the receiver copy past its buffer
      has unpredictable results, so nothing is assumed about the receiver after one. */
  ghost predicate Next(c: System, d: System, step: Step) {
    c.s.Valid() &&
    match step
    case AckStep(p) =>
      d == c.(s := HandleAck(c.s, p))
    case SendStep(now, sent) =>
      WindowSent(c.s, d.s, now, sent) && Extended(c.data, sent, d.data) && d == c.(s := d.s, data := d.data)
    case TimeoutStep(now, sent, res) =>
      TimeoutsChecked(c.s, d.s, now, sent, res) && Extended(c.data, sent, d.data) && d == c.(s := d.s, data := d.data)
    case DataStep(p, replies) =>
      && Arrives(c.data, p)
      && (Admissible(c.r, p) ==> DataHandled(c.r, d.r, p, replies) && Extended(c.acks, replies, d.acks))
      && d == c.(r := d.r, acks := d.acks)
  }

  ghost predicate IsRun(file: seq<Byte>, run: seq<System>, steps: seq<Step>) {
    && |run| == |steps| + 1
    && Initial(run[0], file)
    && forall i :: 0 <= i < |steps| ==> Next(run[i], run[i + 1], steps[i])
  }

  ghost predicate InFlight(p: Packet, file: seq<Byte>, n: nat) {
    exists k: nat :: k < n && IsChunkPacket(p, file, k)
  }

  ghost predicate Acknowledges(p: Packet, r: Receiver) {
    exists k: Word32 :: k in r.chunks && IsAckPacket(p, k)
  }

  /** What holds whatever ACKs the sender is given. */
  ghost predicate Safe(c: System, file: seq<Byte>) {
    && c.s.Valid() && c.r.Valid()
    && c.s.file == Cut(file)
    && c.s.numChunks == SenderChunkCount(U32(|file|)) && c.r.numChunks == AnnouncedChunkCount(|file|)
    && Genuine(c.r, Cut(file))
    && (forall p :: p in c.data ==> InFlight(p, Cut(file), c.s.nextSeq))
    && (forall p :: p in c.acks ==> Acknowledges(p, c.r))
    && (forall k :: k in c.r.chunks ==> k < c.s.nextSeq)
  }

  /** The sender believes only what is true. */
  ghost predicate Synced(c: System) {
    forall k :: k in c.s.acked ==> k in c.r.chunks
  }

  ghost predicate Inv(c: System, file: seq<Byte>) {
    Safe(c, file) && Synced(c)
  }

  /** An ACK that says nothing, names a chunk not sent yet, or names one that has been received. */
  ghost predicate Harmless(c: System, p: Packet) {
    match ParseAck(p)
    case None => true
    case Some(k) => k >= c.s.nextSeq || k in c.r.chunks
  }

  ghost predicate HarmlessRun(run: seq<System>, steps: seq<Step>)
    requires |run| == |steps| + 1
  {
    forall i :: 0 <= i < |steps| && steps[i].AckStep? ==> Harmless(run[i], steps[i].p)
  }

  lemma InitialInv(c: System, file: seq<Byte>)
    requires Initial(c, file)
    ensures Inv(c, file)
  {
    hide SenderChunkCount, AnnouncedChunkCount, Cut;
  }

  /** The sender's window never passes the receiver's, nor falls more than 64 behind what was sent. */
  lemma WindowsSynchronised(c: System, file: seq<Byte>)
    requires Inv(c, file)
    ensures c.s.Base() <= c.r.Base() <= c.s.nextSeq <= c.s.Base() + WINDOW_SIZE
  {
    hide SenderChunkCount, AnnouncedChunkCount, Cut;
    MexMonotone(c.s.acked, c.r.chunks.Keys);
    assert c.s.nextSeq !in c.r.chunks;
  }

  lemma ChunkPacketReads(p: Packet, file: seq<Byte>, k: nat)
    requires IsChunkPacket(p, file, k)
    ensures ParseData(p) == Some(Data(k, Chunk(file, k)))
    ensures HEADER_SIZE <= |p| <= HEADER_SIZE + CHUNK_SIZE && ChecksumOk(p)
  {
    DataRoundTrip(p, Data(k, Chunk(file, k)));
  }

  /** Corrupted copies of what was sent are among what the data channel may hand over. */
  lemma CorruptedArrives(c: System, file: seq<Byte>, g: Packet, p: Packet)
    requires Safe(c, file) && g in c.data
    ensures |g| >= HEADER_SIZE && (Corrupts(g, p) ==> Arrives(c.data, p))
  {
    hide ParseData, Corrupts, ChecksumOk, IsDataPacket, SenderChunkCount, AnnouncedChunkCount, Cut, Genuine;
    var k: nat :| k < c.s.nextSeq && IsChunkPacket(g, Cut(file), k);
    ChunkPacketReads(g, Cut(file), k);
    if Corrupts(g, p) {
      CorruptionRejected(g, p);
    }
  }

  /** Handling a chunk of the file, or nothing, keeps the receiver's chunks genuine. */
  lemma GenuineKept(r: Receiver, file: seq<Byte>, p: Packet)
    requires r.Valid() && Genuine(r, file)
    requires ParseData(p).Some? ==>
               var d := ParseData(p).value;
               d.seqNum * CHUNK_SIZE <= |file| && d.payload == Chunk(file, d.seqNum)
    ensures Genuine(HandleData(r, p), file) && Admissible(r, p)
  {
    hide ParseData, Offset;
    var t := HandleData(r, p);
    GenuineFits(t, file, t.Base());
  }

  /** Whatever arrives is either rejected, or was sent and is a chunk of the file that the receiver has room
      for; and with a sender that knows only the truth, it is never too far ahead. */
  lemma ArrivalIsGenuineOrRejected(c: System, file: seq<Byte>, p: Packet)
    requires Safe(c, file) && Arrives(c.data, p)
    ensures Admissible(c.r, p)
    ensures ParseData(p).Some? ==>
              var d := ParseData(p).value;
              && p in c.data && |p| <= HEADER_SIZE + CHUNK_SIZE && d.seqNum < c.s.nextSeq
              && d.seqNum * CHUNK_SIZE <= |Cut(file)| && d.payload == Chunk(Cut(file), d.seqNum)
              && (Synced(c) ==> c.r.InWindow(d.seqNum))
  {
    hide ParseData, IsDataPacket, ChecksumOk, Admissible, SenderChunkCount, AnnouncedChunkCount, Cut;
    if p in c.data {
      var k: nat :| k < c.s.nextSeq && IsChunkPacket(p, Cut(file), k);
      ChunkPacketReads(p, Cut(file), k);
      if Synced(c) {
        ChunkInWindow(c, file, k);
      }
    }
    GenuineKept(c.r, Cut(file), p);
  }

  lemma ChunkInWindow(c: System, file: seq<Byte>, k: nat)
    requires Inv(c, file) && k < c.s.nextSeq
    ensures c.r.InWindow(k)
  {
    hide SenderChunkCount, AnnouncedChunkCount, Cut;
    WindowsSynchronised(c, file);
    CountsOrdered(|file|);
  }

  lemma SentInFlight(c: System, d: System, file: seq<Byte>, sent: seq<Packet>, ks: seq<nat>)
    requires Safe(c, file) && CarriesChunks(sent, Cut(file), ks) && Extended(c.data, sent, d.data)
    requires c.s.nextSeq <= d.s.nextSeq && forall i :: 0 <= i < |ks| ==> ks[i] < d.s.nextSeq
    ensures forall p :: p in d.data ==> InFlight(p, Cut(file), d.s.nextSeq)
  {
    hide IsChunkPacket, SenderChunkCount, AnnouncedChunkCount, Cut;
    forall p | p in d.data ensures InFlight(p, Cut(file), d.s.nextSeq) {
      if p in c.data {
        var k: nat :| k < c.s.nextSeq && IsChunkPacket(p, Cut(file), k);
      } else {
        var i :| 0 <= i < |sent| && sent[i] == p;
        assert IsChunkPacket(sent[i], Cut(file), ks[i]);
      }
    }
  }

  lemma AckStepSafe(c: System, d: System, file: seq<Byte>, p: Packet)
    requires Safe(c, file) && Next(c, d, AckStep(p))
    ensures Safe(d, file)
  {
    hide IsAckPacket, IsChunkPacket, ParseAck, SenderChunkCount, AnnouncedChunkCount, Cut, Genuine, Acknowledges;
  }

  lemma SendStepSafe(c: System, d: System, file: seq<Byte>, now: Word64, sent: seq<Packet>)
    requires Safe(c, file) && Next(c, d, SendStep(now, sent))
    ensures Safe(d, file) && d.s.acked == c.s.acked
  {
    hide IsChunkPacket, IsAckPacket, SenderChunkCount, AnnouncedChunkCount, Cut, Genuine, Acknowledges;
    SentInFlight(c, d, file, sent, Range(c.s.nextSeq, d.s.nextSeq));
  }

  lemma TimeoutStepSafe(c: System, d: System, file: seq<Byte>, now: Word64, sent: seq<Packet>, res: int)
    requires Safe(c, file) && Next(c, d, TimeoutStep(now, sent, res))
    ensures Safe(d, file) && d.s.acked == c.s.acked
  {
    hide IsChunkPacket, IsAckPacket, SenderChunkCount, AnnouncedChunkCount, Cut, Genuine, Acknowledges;
    var ks := Resent(c.s, now);
    assert forall i :: 0 <= i < |ks| ==> ks[i] in ks;
    SentInFlight(c, d, file, sent, ks);
  }

  lemma DataStepSafe(c: System, d: System, file: seq<Byte>, p: Packet, replies: seq<Packet>)
    requires Safe(c, file) && Next(c, d, DataStep(p, replies))
    ensures Safe(d, file) && forall k :: k in c.r.chunks ==> k in d.r.chunks
  {
    hide ParseData, IsAckPacket, IsChunkPacket, Arrives, Genuine, Admissible;
    hide SenderChunkCount, AnnouncedChunkCount, Cut;
    ArrivalIsGenuineOrRejected(c, file, p);
    GenuineKept(c.r, Cut(file), p);
    forall q | q in d.acks ensures Acknowledges(q, d.r) {
      if q in c.acks {
        var k: Word32 :| k in c.r.chunks && IsAckPacket(q, k);
        assert k in d.r.chunks;
      } else {
        assert replies == [q];
      }
    }
  }

  lemma DataStepKeepsAcks(c: System, d: System, file: seq<Byte>, p: Packet, replies: seq<Packet>)
    requires Safe(c, file) && Next(c, d, DataStep(p, replies))
    ensures c.acks <= d.acks
  {
    hide Safe, Arrives, Admissible, DataHandled;
    ArrivalIsGenuineOrRejected(c, file, p);
  }

  /** Each of the four calls, in any interleaving and with any ACK, keeps both sides safe. */
  lemma StepSafe(c: System, d: System, file: seq<Byte>, step: Step)
    requires Safe(c, file) && Next(c, d, step)
    ensures Safe(d, file)
  {
    match step
    case AckStep(p) => AckStepSafe(c, d, file, p);
    case SendStep(now, sent) => SendStepSafe(c, d, file, now, sent);
    case TimeoutStep(now, sent, res) => TimeoutStepSafe(c, d, file, now, sent, res);
    case DataStep(p, replies) => DataStepSafe(c, d, file, p, replies);
  }

  /** One ACK of any bytes keeps the two sides together exactly if it is harmless. */
  lemma AckHarmlessExactly(c: System, file: seq<Byte>, p: Packet)
    requires Inv(c, file)
    ensures Inv(c.(s := HandleAck(c.s, p)), file) <==> Harmless(c, p)
  {
    hide ParseAck, SenderChunkCount, AnnouncedChunkCount, Cut, Genuine;
    var d := c.(s := HandleAck(c.s, p));
    AckStepSafe(c, d, file, p);
  }

  /** Every ACK that the receiver sent is harmless, whenever and however often it arrives. */
  lemma ReceivedAckHarmless(c: System, file: seq<Byte>, p: Packet)
    requires Safe(c, file) && p in c.acks
    ensures Harmless(c, p)
  {
    hide IsAckPacket, ParseAck, SenderChunkCount, AnnouncedChunkCount, Cut, Genuine;
    var k: Word32 :| k in c.r.chunks && IsAckPacket(p, k);
    AckRoundTrip(p, k);
  }

  lemma StepInv(c: System, d: System, file: seq<Byte>, step: Step)
    requires Inv(c, file) && Next(c, d, step)
    ensures Inv(d, file) <==> (step.AckStep? ==> Harmless(c, step.p))
  {
    hide Safe, Harmless;
    match step
    case AckStep(p) => AckHarmlessExactly(c, file, p);
    case SendStep(now, sent) => SendStepSafe(c, d, file, now, sent);
    case TimeoutStep(now, sent, res) => TimeoutStepSafe(c, d, file, now, sent, res);
    case DataStep(p, replies) => DataStepSafe(c, d, file, p, replies);
  }

  /** Every state of every run is safe, whatever ACKs were handed over. */
  lemma {:induction false} RunSafe(file: seq<Byte>, run: seq<System>, steps: seq<Step>, i: nat)
    requires IsRun(file, run, steps) && i < |run|
    ensures Safe(run[i], file)
  {
    hide Safe, Next, Initial;
    if i == 0 {
      assert Inv(run[0], file) by { InitialInv(run[0], file); }
    } else {
      RunSafe(file, run, steps, i - 1);
      StepSafe(run[i - 1], run[i], file, steps[i - 1]);
    }
  }

  lemma {:induction false} RunInv(file: seq<Byte>, run: seq<System>, steps: seq<Step>, i: nat)
    requires IsRun(file, run, steps) && HarmlessRun(run, steps) && i < |run|
    ensures Inv(run[i], file)
  {
    hide Inv, Next, Initial, Harmless;
    if i == 0 {
      InitialInv(run[0], file);
    } else {
      RunInv(file, run, steps, i - 1);
      StepInv(run[i - 1], run[i], file, steps[i - 1]);
    }
  }

  /** The two sides stay together in every state of a run exactly if every ACK handed over in it was
      harmless when it was. */
  lemma RunInvExactly(file: seq<Byte>, run: seq<System>, steps: seq<Step>)
    requires IsRun(file, run, steps)
    ensures (forall i :: 0 <= i < |run| ==> Inv(run[i], file)) <==> HarmlessRun(run, steps)
  {
    hide Inv, Next, Initial, Harmless;
    if HarmlessRun(run, steps) {
      forall i | 0 <= i < |run| ensures Inv(run[i], file) {
        RunInv(file, run, steps, i);
      }
    } else if forall i :: 0 <= i < |run| ==> Inv(run[i], file) {
      var i :| 0 <= i < |steps| && steps[i].AckStep? && !Harmless(run[i], steps[i].p);
      assert Inv(run[i], file) && Inv(run[i + 1], file);
      StepInv(run[i], run[i + 1], file, steps[i]);
    }
  }

  /** A channel that does not alter ACKs gives harmless runs. */
  lemma UnalteredIsHarmless(file: seq<Byte>, run: seq<System>, steps: seq<Step>)
    requires IsRun(file, run, steps)
    requires forall i :: 0 <= i < |steps| && steps[i].AckStep? ==> steps[i].p in run[i].acks
    ensures HarmlessRun(run, steps)
  {
    hide Safe, Next, Initial, Harmless;
    forall i | 0 <= i < |steps| && steps[i].AckStep? ensures Harmless(run[i], steps[i].p) {
      RunSafe(file, run, steps, i);
      ReceivedAckHarmless(run[i], file, steps[i].p);
    }
  }

  /** End-to-end safety, whatever ACKs the sender is given: in every state of every run the receiver's
      buffer agrees with the file up to the receiver's base. A complete receiver holds the part of the file
      that 32 bits of size speak of, unless that is too large for the sender's count; it holds the file
      exactly if the size fits 32 bits. */
  lemma EndToEnd(file: seq<Byte>, run: seq<System>, steps: seq<Step>, i: nat)
    requires IsRun(file, run, steps) && i < |run|
    ensures run[i].r.Valid() && |run[i].r.initial| == U32(|file|) && run[i].r.AllFit(run[i].r.Base())
    ensures var r := run[i].r;
            var m := Min(r.Base() * CHUNK_SIZE, U32(|file|));
            m <= |file| && r.Assembled(r.Base())[..m] == file[..m]
    ensures run[i].r.Complete() && U32(|file|) <= MAX_FILE_SIZE ==> run[i].r.Assembled(run[i].r.Base()) == Cut(file)
    ensures run[i].r.Complete() ==> (run[i].r.Assembled(run[i].r.Base()) == file <==> |file| < TWO_32)
  {
    hide IsRun, Next, Offset, SenderChunkCount, AnnouncedChunkCount;
    RunSafe(file, run, steps, i);
    var r := run[i].r;
    GenuineFits(r, Cut(file), r.Base());
    AssembledIsPrefix(r, Cut(file), r.Base());
    assert U32(|file|) <= |file|;
    if r.Complete() && U32(|file|) <= MAX_FILE_SIZE {
      CountsOrdered(|file|);
      CompleteIsFile(r, Cut(file));
    } else if r.Complete() && |file| < TWO_32 {
      OversizedWaits(run[i], file);
    }
  }

  /** Where every ACK was harmless, a sender that is complete means a complete receiver exactly if the size,
      rounded up to chunks and taken modulo 2^42, is below 2^32; and a receiver with the file exactly for
      files up to `MAX_FILE_SIZE`. */
  lemma SenderDoneMeansReceiverDone(file: seq<Byte>, run: seq<System>, steps: seq<Step>, i: nat)
    requires IsRun(file, run, steps) && HarmlessRun(run, steps) && i < |run| && run[i].s.Complete()
    ensures run[i].r.Complete() <==> (|file| + CHUNK_SIZE - 1) % (TWO_32 * CHUNK_SIZE) < TWO_32
    ensures run[i].r.AllFit(run[i].r.Base())
    ensures run[i].r.Complete() && run[i].r.Assembled(run[i].r.Base()) == file <==> |file| <= MAX_FILE_SIZE
  {
    hide IsRun, HarmlessRun, Next, SenderChunkCount, AnnouncedChunkCount, Genuine, Cut;
    RunInv(file, run, steps, i);
    CompleteIffBase(run[i].s);
    WindowsSynchronised(run[i], file);
    CountsOrdered(|file|);
    CountsAgree(|file|);
    EndToEnd(file, run, steps, i);
  }

  /** A size whose low 32 bits are too large for the sender's count. */
  lemma OversizedWaits(c: System, file: seq<Byte>)
    requires Safe(c, file) && U32(|file|) > MAX_FILE_SIZE
    ensures c.s.Complete() && c.data == {} && c.r.Base() == 0
    ensures c.r.Complete() <==> (|file| + CHUNK_SIZE - 1) % (TWO_32 * CHUNK_SIZE) < TWO_32
    ensures |file| < TWO_32 ==> c.r.numChunks == 0x40_0000 && !c.r.Complete()
  {
    hide SenderChunkCount, AnnouncedChunkCount, Genuine, Cut, Acknowledges;
    CountsOrdered(|file|);
    CountsAgree(|file|);
    MexUnique(c.r.chunks.Keys, 0);
    if |file| < TWO_32 {
      BothCounts(|file|);
    }
  }

  /** Such a file never moves: in every state of every run the sender is complete and nothing is in flight.
      Below 2^32 the receiver waits for 4194304 chunks of which none is sent; just below a multiple of 2^42
      it expects none, and is complete with its buffer untouched. */
  lemma OversizedNeverArrives(file: seq<Byte>, run: seq<System>, steps: seq<Step>, i: nat)
    requires IsRun(file, run, steps) && i < |run| && U32(|file|) > MAX_FILE_SIZE
    ensures run[i].s.Complete() && run[i].data == {}
    ensures run[i].r.Base() == 0 && run[i].r.Assembled(0) == run[i].r.initial
    ensures run[i].r.Complete() <==> (|file| + CHUNK_SIZE - 1) % (TWO_32 * CHUNK_SIZE) < TWO_32
    ensures |file| < TWO_32 ==> run[i].r.numChunks == 0x40_0000 && !run[i].r.Complete()
  {
    hide IsRun, Next, Safe;
    RunSafe(file, run, steps, i);
    OversizedWaits(run[i], file);
  }

  /** A file of 4 GiB is cut to nothing: the sender is complete from the start, the receiver never. */
  lemma FourGigabytes(file: seq<Byte>, run: seq<System>, steps: seq<Step>, i: nat)
    requires IsRun(file, run, steps) && i < |run| && |file| == TWO_32
    ensures run[i].s.Complete() && run[i].r.numChunks == 0x40_0000 && !run[i].r.Complete()
  {
    hide IsRun, Next, Genuine, Acknowledges;
    RunSafe(file, run, steps, i);
    MexUnique(run[i].r.chunks.Keys, 0);
  }

  /** Window synchronisation in every state of every run with harmless ACKs: nothing in flight is ever too
      far ahead for the receiver, so no genuine packet is discarded for that reason. */
  lemma WindowsNeverPart(file: seq<Byte>, run: seq<System>, steps: seq<Step>, i: nat, p: Packet)
    requires IsRun(file, run, steps) && HarmlessRun(run, steps) && i < |run|
    ensures var c := run[i];
            && c.s.Base() <= c.r.Base() <= c.s.nextSeq <= c.s.Base() + WINDOW_SIZE
            && (p in c.data ==> ParseData(p).Some? && c.r.InWindow(ParseData(p).value.seqNum))
  {
    hide IsRun, HarmlessRun, Next, ParseData, IsChunkPacket, SenderChunkCount, AnnouncedChunkCount, Cut;
    RunInv(file, run, steps, i);
    WindowsSynchronised(run[i], file);
    if p in run[i].data {
      var k: nat :| k < run[i].s.nextSeq && IsChunkPacket(p, Cut(file), k);
      ChunkPacketReads(p, Cut(file), k);
      ChunkInWindow(run[i], file, k);
    }
  }

  /** Every packet that was sent is answered each time it arrives, with an ACK of its own number, also when
      its chunk has come before; so a lost ACK is made good by the next transmission. */
  lemma EveryArrivalAnswered(file: seq<Byte>, run: seq<System>, steps: seq<Step>, i: nat)
    requires IsRun(file, run, steps) && HarmlessRun(run, steps) && i < |steps|
    requires steps[i].DataStep? && steps[i].p in run[i].data
    ensures ParseData(steps[i].p).Some? && |steps[i].replies| == 1
    ensures var k := ParseData(steps[i].p).value.seqNum;
            && ParseAck(steps[i].replies[0]) == Some(k)
            && steps[i].replies[0] in run[i + 1].acks && k in run[i + 1].r.chunks
  {
    hide IsRun, HarmlessRun, ParseData, ParseAck, Safe, Admissible, DataHandled, HandleData;
    assert Next(run[i], run[i + 1], steps[i]) by { RunStep(file, run, steps, i); }
    var c, p, replies := run[i], steps[i].p, steps[i].replies;
    WindowsNeverPart(file, run, steps, i, p);
    RunSafe(file, run, steps, i);
    ArrivalIsGenuineOrRejected(c, file, p);
    var k := ParseData(p).value.seqNum;
    DataMeans(c.r, run[i + 1].r, p, replies, k);
    assert replies[0] in replies;
  }

  lemma RunStep(file: seq<Byte>, run: seq<System>, steps: seq<Step>, i: nat)
    requires IsRun(file, run, steps) && i < |steps|
    ensures |run| == |steps| + 1 && Next(run[i], run[i + 1], steps[i])
  {
  }

  /** Sixteen bytes that no receiver sent, with a wrong checksum. */
  const STRAY_ACK: Packet := [UDP_ACK, 0, 0, 0, 0, 0, 0, 0, 0, 0, 0, 0, 0, 0, 0, 0]

  /** The sender does not check an ACK's checksum: after the first window of a one-chunk file, those bytes
      make it complete while the receiver has nothing. */
  lemma AckChecksumUnchecked(c: System, d: System, file: seq<Byte>, now: Word64, sent: seq<Packet>)
    requires 0 < |file| <= CHUNK_SIZE && Initial(c, file) && Next(c, d, SendStep(now, sent))
    ensures !ChecksumOk(STRAY_ACK) && !Harmless(d, STRAY_ACK)
    ensures var e := d.(s := HandleAck(d.s, STRAY_ACK));
            Next(d, e, AckStep(STRAY_ACK)) && e.s.Complete() && !e.r.Complete()
  {
    hide CarriesChunks, IsChunkPacket, SendWindow, InitialSender, SenderChunkCount, AnnouncedChunkCount;
    OneChunkSent(file, now);
    BothCounts(|file|);
    assert !ChecksumOk(STRAY_ACK) by {
      SumOfHeadByte(STRAY_ACK);
      assert Zeroed(STRAY_ACK) == STRAY_ACK;
    }
    assert ParseAck(STRAY_ACK) == Some(0);
  }

  lemma {:induction false} SumOfHeadByte(p: seq<Byte>)
    requires p != [] && forall i :: 1 <= i < |p| ==> p[i] == 0
    ensures ByteSum(p) == p[0]
  {
    if |p| > 1 {
      SumOfHeadByte(p[..|p| - 1]);
    } else {
      assert p[..0] == [];
    }
  }
}
