/** Sender and receiver put together over a network that loses nothing: the copy is the file. */
module Lossless {
  import opened Protocol
  import opened Packets
  import opened Chunking
  import opened Windows
  import opened SenderSpec
  import opened SenderRing
  import opened ReceiverSpec
  import opened ReceiverRing
  import Transfer

  /** Exactly the chunks below `j` have been received and acknowledged. */
  ghost predicate InStep(s: Sender, r: Receiver, file: seq<Byte>, j: nat) {
    && s.file == file && Genuine(r, file)
    && s.numChunks == r.numChunks
    && (forall k: nat :: k in s.acked <==> k < j)
    && (forall k: nat :: k in r.chunks <==> k < j)
  }

  lemma InStepBase(s: Sender, r: Receiver, file: seq<Byte>, j: nat)
    requires InStep(s, r, file, j)
    ensures s.Base() == j && r.Base() == j
  {
    MexUnique(s.acked, j);
    MexUnique(r.chunks.Keys, j);
  }

  lemma Delivered(r: Receiver, t: Receiver, s: Sender, file: seq<Byte>, k: nat, p: Packet, acks: seq<Packet>)
    requires s.Valid() && r.Valid() && InStep(s, r, file, k) && k < s.nextSeq && IsChunkPacket(p, file, k)
    requires DataHandled(r, t, p, acks)
    ensures |acks| == 1 && IsAckPacket(acks[0], k) && ParseAck(acks[0]) == Some(k)
    ensures InStep(Acknowledge(s, k), t, file, k + 1)
  {
    hide ParseData, IsDataPacket, IsAckPacket, ParseAck, Genuine, Admissible;
    InStepBase(s, r, file, k);
    Transfer.ChunkPacketReads(p, file, k);
    Transfer.GenuineKept(r, file, p);
    AckRoundTrip(acks[0], k);
  }

  lemma Deliverable(s: Sender, r: Receiver, file: seq<Byte>, k: nat, p: Packet)
    requires s.Valid() && r.Valid() && InStep(s, r, file, k) && k < s.nextSeq && IsChunkPacket(p, file, k)
    ensures Admissible(r, p) && |p| <= HEADER_SIZE + CHUNK_SIZE
  {
    hide ParseData, IsDataPacket, Admissible;
    Transfer.ChunkPacketReads(p, file, k);
    Transfer.GenuineKept(r, file, p);
  }

  /** Both objects stand for states of the ring-free kind. */
  lemma Standing(sender: SrSender, receiver: SrReceiver)
    requires sender.Valid() && receiver.Valid()
    ensures sender.model.Valid() && sender.model.file == sender.file && sender.model.nextSeq == sender.nextSeq
    ensures sender.model.numChunks == sender.numChunks && receiver.model.Valid()
    ensures receiver.fileBuffer[..] == receiver.model.Assembled(receiver.model.Base())
  {
    hide SenderRing.RingOk, ReceiverRing.RingOk;
  }

  /** One packet over and its ACK back. */
  method Exchange(sender: SrSender, receiver: SrReceiver, p: Packet, ghost k: nat)
    requires sender.Valid() && receiver.Valid()
    requires InStep(sender.model, receiver.model, sender.file, k)
    requires k < sender.nextSeq && IsChunkPacket(p, sender.file, k)
    modifies sender, sender.window, receiver, receiver.window, receiver.fileBuffer
    ensures sender.Valid() && receiver.Valid() && sender.nextSeq == old(sender.nextSeq)
    ensures InStep(sender.model, receiver.model, sender.file, k + 1)
  {
    hide IsChunkPacket, IsAckPacket, ParseAck, InStep, DataHandled, SenderRing.Matches, ReceiverRing.Matches;
    ghost var s, r := sender.model, receiver.model;
    Standing(sender, receiver);
    Deliverable(s, r, sender.file, k, p);
    var overrun, acks := receiver.HandleData(p);
    Delivered(r, receiver.model, s, sender.file, k, p, acks);
    assert |acks[0]| >= HEADER_SIZE by { AckSize(acks[0], k); }
    sender.HandleAck(acks[0]);
  }

  lemma AckSize(p: Packet, k: Word32)
    requires IsAckPacket(p, k)
    ensures |p| == HEADER_SIZE
  {
  }

  lemma WindowOpens(s: Sender, t: Sender, r: Receiver, now: Word64, sent: seq<Packet>)
    requires WindowSent(s, t, now, sent) && InStep(s, r, s.file, s.nextSeq)
    ensures InStep(t, r, s.file, s.nextSeq) && t.nextSeq == s.nextSeq + |sent|
    ensures s.nextSeq < s.numChunks ==> s.nextSeq < t.nextSeq
    ensures forall i :: 0 <= i < |sent| ==> IsChunkPacket(sent[i], s.file, s.nextSeq + i)
  {
    hide IsChunkPacket;
    InStepBase(s, r, s.file, s.nextSeq);
  }

  /** A window of packets over, and their ACKs back. */
  method Round(sender: SrSender, receiver: SrReceiver, now: Word64)
    requires sender.Valid() && receiver.Valid()
    requires InStep(sender.model, receiver.model, sender.file, sender.nextSeq)
    modifies sender, sender.window, receiver, receiver.window, receiver.fileBuffer
    ensures sender.Valid() && receiver.Valid()
    ensures InStep(sender.model, receiver.model, sender.file, sender.nextSeq)
    ensures old(sender.nextSeq) < sender.numChunks ==> old(sender.nextSeq) < sender.nextSeq
  {
    hide IsChunkPacket, InStep, WindowSent, SenderRing.RingOk, SrReceiver.Valid, Sender.Valid;
    ghost var s := sender.model;
    var packets, sent := sender.SendWindow(now);
    WindowOpens(s, sender.model, receiver.model, now, sent);
    for i := 0 to |sent|
      invariant sender.Valid() && receiver.Valid() && sender.nextSeq == s.nextSeq + |sent|
      invariant InStep(sender.model, receiver.model, sender.file, s.nextSeq + i)
    {
      Exchange(sender, receiver, sent[i], s.nextSeq + i);
    }
  }

  lemma EnoughChunks(file: seq<Byte>)
    requires |file| <= MAX_FILE_SIZE
    ensures Spans(|file|, InitialSender(file).numChunks)
    ensures |file| <= InitialSender(file).numChunks * CHUNK_SIZE
  {
    SenderCountExact(|file|);
  }

  lemma StartsInStep(s: Sender, r: Receiver, file: seq<Byte>)
    requires |file| < TWO_32 && s == InitialSender(file) && |r.initial| == |file|
    requires r == InitialReceiver(s.numChunks, r.initial)
    ensures InStep(s, r, file, 0)
  {
  }

  /** When the sender's base has reached the end, the receiver's buffer is the file. */
  method Collect(sender: SrSender, receiver: SrReceiver) returns (copy: seq<Byte>)
    requires sender.Valid() && receiver.Valid() && sender.base == sender.numChunks
    requires InStep(sender.model, receiver.model, sender.file, sender.nextSeq)
    requires |sender.file| <= sender.numChunks * CHUNK_SIZE
    ensures copy == sender.file
  {
    hide SenderRing.RingOk, ReceiverRing.RingOk;
    InStepBase(sender.model, receiver.model, sender.file, sender.nextSeq);
    CompleteIsFile(receiver.model, sender.file);
    copy := receiver.fileBuffer[..];
  }

  method SendAll(sender: SrSender, receiver: SrReceiver, now: Word64)
    requires sender.Valid() && receiver.Valid()
    requires InStep(sender.model, receiver.model, sender.file, sender.nextSeq)
    modifies sender, sender.window, receiver, receiver.window, receiver.fileBuffer
    ensures sender.Valid() && receiver.Valid() && sender.base == sender.numChunks
    ensures InStep(sender.model, receiver.model, sender.file, sender.nextSeq)
  {
    hide InStep, SenderRing.RingOk, SrReceiver.Valid, Spans;
    var done := sender.IsComplete();
    while !done
      invariant sender.Valid() && receiver.Valid()
      invariant InStep(sender.model, receiver.model, sender.file, sender.nextSeq)
      invariant done <==> sender.base == sender.numChunks
      decreases sender.numChunks - sender.nextSeq
    {
      InStepBase(sender.model, receiver.model, sender.file, sender.nextSeq);
      Round(sender, receiver, now);
      done := sender.IsComplete();
    }
  }

  /** Every file of a size the sender can count is carried over exactly. */
  method CopyOver(file: seq<Byte>, now: Word64) returns (copy: seq<Byte>)
    requires |file| <= MAX_FILE_SIZE
    ensures copy == file
  {
    hide InStep, InitialReceiver, SenderRing.RingOk, SrReceiver.Valid, Spans;
    EnoughChunks(file);
    var sender := new SrSender(file);
    var receiver := new SrReceiver(|file|, sender.numChunks);
    StartsInStep(sender.model, receiver.model, file);
    SendAll(sender, receiver, now);
    copy := Collect(sender, receiver);
  }
}
