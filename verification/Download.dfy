/** The receive loop of the client's `get`, driving the receiver until the file is complete. */
module Download {
  import opened Protocol
  import opened Packets
  import opened Chunking
  import opened ReceiverSpec
  import opened ReceiverRing
  import Transfer

  /** What a call of `recvfrom` gives: a datagram, from the peer that was asked for the file or from some
      other sender, or an error. */
  datatype Arrival = Failed | Datagram(fromPeer: bool, bytes: Packet)

  /** How the loop stands: the file is complete, receiving failed, or it waits for more. */
  datatype Outcome = Done | Error | Waiting

  /** What a peer that owns `file` and the channel between may deliver: chunks of it, or bytes that the
      checksum rejects, in a buffer of 1040 bytes. */
  ghost predicate Sound(g: Arrival, file: seq<Byte>) {
    g.Datagram? && g.fromPeer ==>
      && |g.bytes| <= HEADER_SIZE + CHUNK_SIZE
      && match ParseData(g.bytes)
         case None => true
         case Some(d) => d.seqNum * CHUNK_SIZE <= |file| && d.payload == Chunk(file, d.seqNum)
  }

  ghost predicate AllSound(gs: seq<Arrival>, file: seq<Byte>) {
    forall i :: 0 <= i < |gs| ==> Sound(gs[i], file)
  }

  /** Everything that arrives in a run of the transfer, and that the buffer holds, is sound. */
  lemma ArrivalSound(c: Transfer.System, file: seq<Byte>, p: Packet)
    requires Transfer.Safe(c, file) && Transfer.Arrives(c.data, p) && |p| <= HEADER_SIZE + CHUNK_SIZE
    ensures Sound(Datagram(true, p), Cut(file))
  {
    hide ParseData, Transfer.Safe, Transfer.Arrives, Cut;
    Transfer.ArrivalIsGenuineOrRejected(c, file, p);
  }

  /** The receiver after the loop has taken `gs`, none of which is an error. */
  ghost function AfterAll(r: Receiver, file: seq<Byte>, gs: seq<Arrival>): (t: Receiver)
    requires r.Valid() && Genuine(r, file) && AllSound(gs, file)
    ensures t.Valid() && Genuine(t, file)
  {
    if gs == [] then r
    else
      var t, g := AfterAll(r, file, gs[..|gs| - 1]), gs[|gs| - 1];
      if g.Datagram? && g.fromPeer then
        Transfer.GenuineKept(t, file, g.bytes);
        HandleData(t, g.bytes)
      else t
  }

  lemma AfterOneMore(r: Receiver, file: seq<Byte>, gs: seq<Arrival>, i: nat)
    requires r.Valid() && Genuine(r, file) && AllSound(gs, file) && i < |gs|
    ensures var t := AfterAll(r, file, gs[..i]);
            AfterAll(r, file, gs[..i + 1])
            == if gs[i].Datagram? && gs[i].fromPeer then HandleData(t, gs[i].bytes) else t
    ensures gs[i].Datagram? && gs[i].fromPeer ==>
              Admissible(AfterAll(r, file, gs[..i]), gs[i].bytes) && |gs[i].bytes| <= HEADER_SIZE + CHUNK_SIZE
  {
    hide ParseData, Genuine, Admissible;
    assert gs[..i + 1][..i] == gs[..i];
    if gs[i].Datagram? && gs[i].fromPeer {
      assert Sound(gs[i], file);
      Transfer.GenuineKept(AfterAll(r, file, gs[..i]), file, gs[i].bytes);
    }
  }

  /** A receiver `r` owes an answer to `g`: it comes from the peer, passes the checks, and carries chunk `k`,
      which lies before the end of the window. */
  ghost predicate OwedFor(r: Receiver, g: Arrival, k: nat) {
    && g.Datagram? && g.fromPeer && ParseData(g.bytes).Some? && ParseData(g.bytes).value.seqNum == k
    && k < r.numChunks && (k < r.Base() || k < U32(r.Base() + 64))
  }

  /** The loop, come to arrival `j` of `gs`, owes an answer to it. */
  ghost predicate Owes(r: Receiver, file: seq<Byte>, gs: seq<Arrival>, j: nat, k: nat)
    requires r.Valid() && Genuine(r, file) && AllSound(gs, file) && j < |gs|
  {
    OwedFor(AfterAll(r, file, gs[..j]), gs[j], k)
  }

  /** `acks` answers what was owed among the first `n` arrivals, one for one and in order: ACK `i` is for
      arrival `which[i]`. */
  ghost predicate AnswersAll(r: Receiver, file: seq<Byte>, gs: seq<Arrival>, n: nat, acks: seq<Packet>, which: seq<nat>)
    requires r.Valid() && Genuine(r, file) && AllSound(gs, file) && n <= |gs|
  {
    && |which| == |acks|
    && (forall i :: 0 <= i < |which| ==> which[i] < n)
    && (forall i, j :: 0 <= i < j < |which| ==> which[i] < which[j])
    && (forall i :: 0 <= i < |which| ==> AckNames(acks[i]) && Owes(r, file, gs, which[i], AckName(acks[i])))
    && (forall j, k: nat :: 0 <= j < n && Owes(r, file, gs, j, k) ==> j in which)
  }

  ghost predicate AckNames(a: Packet) {
    ParseAck(a).Some? && ParseData(a) == None && |a| == 16
  }

  ghost function AckName(a: Packet): nat
    requires AckNames(a)
  {
    ParseAck(a).value
  }

  lemma AnswersOneMore(r: Receiver, file: seq<Byte>, gs: seq<Arrival>, n: nat, acks: seq<Packet>, which: seq<nat>,
                       replies: seq<Packet>) returns (which': seq<nat>)
    requires r.Valid() && Genuine(r, file) && AllSound(gs, file) && n < |gs|
    requires AnswersAll(r, file, gs, n, acks, which)
    requires if gs[n].Datagram? && gs[n].fromPeer
             then AcksFor(replies, AfterAll(r, file, gs[..n]), gs[n].bytes)
             else replies == []
    ensures AnswersAll(r, file, gs, n + 1, acks + replies, which')
  {
    hide ParseData, ParseAck, IsAckPacket, Genuine, Sound, AfterAll;
    var t := AfterAll(r, file, gs[..n]);
    WindowReach(t);
    if replies == [] {
      which' := which;
      assert acks + replies == acks;
      assert forall k: nat :: !Owes(r, file, gs, n, k);
    } else {
      which' := which + [n];
      var k := ParseData(gs[n].bytes).value.seqNum;
      AckReads(replies[0], k);
      assert Owes(r, file, gs, n, k);
      assert forall j :: j in which' <==> j in which || j == n;
    }
  }

  lemma AckReads(a: Packet, k: Word32)
    requires IsAckPacket(a, k)
    ensures AckNames(a) && AckName(a) == k
  {
    AckRoundTrip(a, k);
  }

  /** What the loop has taken in: exactly the chunks that were there or that it owed an answer. */
  lemma {:induction false} AfterAllMeans(r: Receiver, file: seq<Byte>, gs: seq<Arrival>, n: nat, k: nat)
    requires r.Valid() && Genuine(r, file) && AllSound(gs, file) && n <= |gs|
    ensures k in AfterAll(r, file, gs[..n]).chunks <==>
            k in r.chunks || exists j :: 0 <= j < n && Owes(r, file, gs, j, k)
  {
    hide ParseData, Genuine, Sound, AfterAll, HandleData;
    if n == 0 {
      AfterNone(r, file, gs);
    } else {
      AfterAllMeans(r, file, gs, n - 1, k);
      AfterOneMore(r, file, gs, n - 1);
      var t, g := AfterAll(r, file, gs[..n - 1]), gs[n - 1];
      if g.Datagram? && g.fromPeer {
        HandledChunks(t, g.bytes, k);
      }
      assert Owes(r, file, gs, n - 1, k) <==> OwedFor(t, g, k);
    }
  }

  lemma HandledChunks(r: Receiver, p: Packet, k: nat)
    requires r.Valid()
    ensures k in HandleData(r, p).chunks <==> k in r.chunks || OwedFor(r, Datagram(true, p), k)
  {
    hide ParseData;
    WindowReach(r);
  }

  lemma AfterNone(r: Receiver, file: seq<Byte>, gs: seq<Arrival>)
    requires r.Valid() && Genuine(r, file)
    ensures AfterAll(r, file, gs[..0]) == r
  {
  }

  lemma AnswersNone(r: Receiver, file: seq<Byte>, gs: seq<Arrival>)
    requires r.Valid() && Genuine(r, file) && AllSound(gs, file)
    ensures AnswersAll(r, file, gs, 0, [], [])
  {
  }

  lemma HandledIs(r: Receiver, t: Receiver, p: Packet, replies: seq<Packet>)
    requires DataHandled(r, t, p, replies)
    ensures r.Valid() && t == HandleData(r, p) && AcksFor(replies, r, p)
  {
  }

  lemma DoneIsFile(r: Receiver, numChunks: nat, base: nat, w: seq<RecvSlot>, received: nat, buffer: seq<Byte>,
                   file: seq<Byte>)
    requires Matches(r, numChunks, base, w, received, buffer) && base == r.Base() && r.Complete() && Genuine(r, file)
    ensures |file| <= numChunks * CHUNK_SIZE ==> buffer == file
  {
    hide RingOk, Genuine;
    if |file| <= numChunks * CHUNK_SIZE {
      CompleteIsFile(r, file);
    }
  }

  /** Every ACK sent is for a chunk that is there. */
  lemma AcksLast(r: Receiver, file: seq<Byte>, gs: seq<Arrival>, n: nat, acks: seq<Packet>, which: seq<nat>)
    requires r.Valid() && Genuine(r, file) && AllSound(gs, file) && n <= |gs|
    requires AnswersAll(r, file, gs, n, acks, which)
    ensures forall i :: 0 <= i < |acks| ==> AckNames(acks[i]) && AckName(acks[i]) in AfterAll(r, file, gs[..n]).chunks
  {
    hide Genuine, Sound, AfterAll, AckName, AckNames, OwedFor;
    forall i | 0 <= i < |acks|
      ensures AckNames(acks[i]) && AckName(acks[i]) in AfterAll(r, file, gs[..n]).chunks
    {
      assert which[i] < n && Owes(r, file, gs, which[i], AckName(acks[i]));
      AfterAllMeans(r, file, gs, n, AckName(acks[i]));
    }
  }

  /** The loop, on what the socket gives; it takes the first `taken` of it, and answers what it owes. */
  method Receive(receiver: SrReceiver, arrivals: seq<Arrival>, ghost file: seq<Byte>)
      returns (outcome: Outcome, taken: nat, acks: seq<Packet>, ghost which: seq<nat>)
    requires receiver.Valid() && Genuine(receiver.model, file) && AllSound(arrivals, file)
    modifies receiver, receiver.window, receiver.fileBuffer
    ensures receiver.Valid() && old(receiver.model.Valid()) && taken <= |arrivals|
    ensures receiver.model == AfterAll(old(receiver.model), file, arrivals[..taken])
    ensures forall j :: 0 <= j < taken ==>
              arrivals[j].Datagram? && !AfterAll(old(receiver.model), file, arrivals[..j]).Complete()
    ensures outcome == Done <==> receiver.model.Complete()
    ensures outcome == Error <==> !receiver.model.Complete() && taken < |arrivals| && arrivals[taken] == Failed
    ensures outcome == Waiting ==> taken == |arrivals|
    ensures outcome == Done && |file| <= receiver.numChunks * CHUNK_SIZE ==> receiver.fileBuffer[..] == file
    ensures AnswersAll(old(receiver.model), file, arrivals, taken, acks, which)
    ensures forall i :: 0 <= i < |acks| ==> AckNames(acks[i]) && AckName(acks[i]) in receiver.model.chunks
  {
    hide ParseData, IsAckPacket, Genuine, Matches, Sound, Admissible, DataHandled, AfterAll, AnswersAll, AcksFor;
    hide AckName, AckNames;
    ValidFits(receiver.model, receiver.numChunks, receiver.base, receiver.window[..], receiver.chunksReceived,
              receiver.fileBuffer[..]);
    ghost var first := receiver.model;
    AfterNone(first, file, arrivals);
    taken, acks, which := 0, [], [];
    AnswersNone(first, file, arrivals);
    var complete := receiver.IsComplete();
    while !complete && taken < |arrivals|
      invariant receiver.Valid() && taken <= |arrivals|
      invariant receiver.model == AfterAll(first, file, arrivals[..taken])
      invariant forall j :: 0 <= j < taken ==>
        arrivals[j].Datagram? && !AfterAll(first, file, arrivals[..j]).Complete()
      invariant complete <==> receiver.model.Complete()
      invariant AnswersAll(first, file, arrivals, taken, acks, which)
      decreases |arrivals| - taken
    {
      if arrivals[taken] == Failed {
        AcksLast(first, file, arrivals, taken, acks, which);
        return Error, taken, acks, which;
      }
      var g := arrivals[taken];
      AfterOneMore(first, file, arrivals, taken);
      taken := taken + 1;
      if !g.fromPeer {
        which := AnswersOneMore(first, file, arrivals, taken - 1, acks, which, []);
        assert acks + [] == acks;
        continue;
      }
      ghost var r := receiver.model;
      var overrun, replies := receiver.HandleData(g.bytes);
      HandledIs(r, receiver.model, g.bytes, replies);
      which := AnswersOneMore(first, file, arrivals, taken - 1, acks, which, replies);
      acks := acks + replies;
      complete := receiver.IsComplete();
    }
    AcksLast(first, file, arrivals, taken, acks, which);
    if complete {
      outcome := Done;
      DoneIsFile(receiver.model, receiver.numChunks, receiver.base, receiver.window[..], receiver.chunksReceived,
                 receiver.fileBuffer[..], file);
    } else {
      outcome := Waiting;
    }
  }
}
