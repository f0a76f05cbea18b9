/** Sessions can always go on, and one of them goes wrong: every ACK is lost, so that the sender gives up on a
    file that the receiver has. */
module LostAcks {
  import opened Protocol
  import opened Packets
  import opened Chunking
  import opened SenderSpec
  import opened ReceiverSpec
  import opened EventLoop
  import opened Sessions
  import opened Outcomes
  import Transfer
  import Retries

  lemma {:induction false} ChunkPackets(file: seq<Byte>, ks: seq<nat>) returns (sent: seq<Packet>)
    requires forall i :: 0 <= i < |ks| ==> ks[i] < TWO_32 && ks[i] * CHUNK_SIZE <= |file|
    ensures CarriesChunks(sent, file, ks)
  {
    hide IsDataPacket, Chunk;
    if ks == [] {
      sent := [];
    } else {
      var n := |ks| - 1;
      sent := ChunkPackets(file, ks[..n]);
      var p := ChunkPacket(file, ks[n]);
      CarriesOneMore(sent, file, ks[..n], ks[n], p);
      assert ks[..n] + [ks[n]] == ks;
      sent := sent + [p];
    }
  }

  lemma ChunkPacket(file: seq<Byte>, k: nat) returns (p: Packet)
    requires k < TWO_32 && k * CHUNK_SIZE <= |file|
    ensures IsChunkPacket(p, file, k)
  {
    hide HasFields, ChecksumOk;
    p := PacketExists(UDP_DATA, k, 0, Chunk(file, k));
  }

  /** What a sender has sent, or may send, are chunks of its file. */
  lemma ChunksInFile(s: Sender, ks: seq<nat>)
    requires s.Valid() && forall i :: 0 <= i < |ks| ==> ks[i] < s.numChunks
    ensures forall i :: 0 <= i < |ks| ==> ks[i] < TWO_32 && ks[i] * CHUNK_SIZE <= |s.file|
  {
  }

  lemma WindowPackets(s: Sender, now: Word64) returns (sent: seq<Packet>)
    requires s.Valid()
    ensures WindowSent(s, SendWindow(s, now), now, sent)
  {
    hide CarriesChunks, SendWindow, Sender.Valid;
    var t := SendWindow(s, now);
    ChunksInFile(s, Range(s.nextSeq, t.nextSeq));
    sent := ChunkPackets(s.file, Range(s.nextSeq, t.nextSeq));
  }

  lemma ResentPackets(s: Sender, now: Word64) returns (sent: seq<Packet>)
    requires s.Valid()
    ensures CarriesChunks(sent, s.file, Resent(s, now))
  {
    hide CarriesChunks, CheckTimeouts, Resent;
    var ks := Resent(s, now);
    forall i | 0 <= i < |ks| ensures ks[i] < s.numChunks {
      assert ks[i] in ks;
      ResentMeans(s, now, ks[i]);
    }
    ChunksInFile(s, ks);
    sent := ChunkPackets(s.file, ks);
  }

  /** Whatever has happened, the loop can make any pass next. */
  lemma TurnPossible(j: Session, p: Pass) returns (k: Session, move: Move)
    requires j.c.s.Valid() && j.clock <= p.sendAt <= p.checkAt
    ensures Next(j, k, move) && move.Turn? && move.p == p && k.c.r == j.c.r && k.clock == p.checkAt
  {
    hide SendWindow, CheckTimeouts, Resent, HandleAck, AfterAck, CarriesChunks, GivesUp, Sender.Valid;
    var s := AfterAck(j.c.s, p.ack);
    var t := SendWindow(s, p.sendAt);
    var u := CheckTimeouts(t, p.checkAt);
    var sent := WindowPackets(s, p.sendAt);
    var resent := ResentPackets(t, p.checkAt);
    move := Turn(p, sent, resent);
    if j.status == Active {
      k := Session(j.c.(s := u, data := j.c.data + (set q | q in sent) + set q | q in resent),
                   j.log + Retries.Logged(Range(s.nextSeq, t.nextSeq), p.sendAt)
                   + Retries.Logged(Resent(t, p.checkAt), p.checkAt),
                   p.checkAt,
                   if GivesUp(t, p.checkAt) then GaveUp else if u.Complete() then Finished else Active);
    } else {
      k := j.(clock := p.checkAt);
    }
  }

  /** A session in which the sender has heard nothing so far, up to `clock`. */
  ghost predicate Silent(file: seq<Byte>, x: Trace, clock: nat) {
    && IsSession(file, x) && Timely(x, TIMEOUT_MS)
    && x.states[|x.moves|].clock == clock
    && forall i :: 0 <= i < |x.moves| ==> Heard(x, i) == None
  }

  ghost function Longer(x: Trace, k: Session, move: Move): Trace {
    x.(states := x.states + [k], moves := x.moves + [move])
  }

  lemma SilentLonger(file: seq<Byte>, x: Trace, clock: nat, k: Session, move: Move)
    requires Silent(file, x, clock) && Next(x.states[|x.moves|], k, move)
    requires move.Turn? ==> move.p.ack == None && move.p.checkAt <= clock + TIMEOUT_MS
    ensures Silent(file, Longer(x, k, move), k.clock)
  {
    hide Next, Transfer.Initial, Transfer.Next;
    var y := Longer(x, k, move);
    forall i | 0 <= i < |y.moves|
      ensures Next(y.states[i], y.states[i + 1], y.moves[i]) && Heard(y, i) == None
      ensures y.moves[i].Turn? ==> y.moves[i].p.checkAt <= y.states[i].clock + TIMEOUT_MS
    {
      if i < |x.moves| {
        assert Next(x.states[i], x.states[i + 1], x.moves[i]) && Heard(x, i) == None;
      }
    }
  }

  /** `n` passes, 500 ms apart, in which nothing is heard. */
  lemma {:induction false} SilentTurns(file: seq<Byte>, x: Trace, clock: nat, n: nat) returns (y: Trace)
    requires Silent(file, x, clock) && clock + TIMEOUT_MS * n < TWO_64
    ensures Silent(file, y, clock + TIMEOUT_MS * n) && y.start == x.start
    ensures y.states[|y.moves|].c.r == x.states[|x.moves|].c.r && y.states[0] == x.states[0]
    ensures n > 0 ==> Passes(y.moves) != []
  {
    hide Next, Starts, Timely, Sender.Valid;
    if n == 0 {
      y := x;
    } else {
      var z := SilentTurns(file, x, clock, n - 1);
      var j, now := z.states[|z.moves|], clock + TIMEOUT_MS * n;
      assert j.c.s.Valid() by { CountOfSender(file, z, |z.moves|); }
      var k, move := TurnPossible(j, Pass(None, now, now));
      SilentLonger(file, z, clock + TIMEOUT_MS * (n - 1), k, move);
      y := Longer(z, k, move);
      assert y.moves[..|z.moves|] == z.moves;
    }
  }

  /** A one-chunk file at rest, sent at time 0. */
  lemma FirstWindow(file: seq<Byte>, initial: seq<Byte>) returns (x: Trace, p: Packet)
    requires 0 < |file| == |initial| <= CHUNK_SIZE
    ensures Silent(file, x, 0) && x.start == 0 && x.moves == []
    ensures IsChunkPacket(p, file, 0) && p in x.states[0].c.data
    ensures x.states[0].c.r == InitialReceiver(1, initial)
  {
    hide SendWindow, CarriesChunks, IsChunkPacket, InitialReceiver, SenderChunkCount, AnnouncedChunkCount;
    BothCounts(|file|);
    OneChunkSent(file, 0);
    var r := InitialReceiver(1, initial);
    InitialReceiverIs(1, initial);
    var rest := Transfer.System(InitialSender(file), r, {}, {});
    var s := SendWindow(rest.s, 0);
    var sent := WindowPackets(rest.s, 0);
    p := OnlyPacket(file, sent);
    var j := Session(Transfer.System(s, r, set q | q in sent, {}), Retries.Logged(Range(0, s.nextSeq), 0), 0, Active);
    assert Transfer.Next(rest, j.c, Transfer.SendStep(0, sent));
    x := Trace(rest, 0, sent, [j], []);
  }

  lemma InitialReceiverIs(n: nat, initial: seq<Byte>)
    requires n < TWO_32 && |initial| < TWO_32
    ensures InitialReceiver(n, initial).initial == initial
  {
  }

  lemma OnlyPacket(file: seq<Byte>, sent: seq<Packet>) returns (p: Packet)
    requires CarriesChunks(sent, file, Range(0, 1))
    ensures sent == [p] && IsChunkPacket(p, file, 0)
  {
    p := sent[0];
  }

  /** The receiver has the file once its one chunk has come. */
  lemma OneChunkArrives(file: seq<Byte>, initial: seq<Byte>, p: Packet) returns (replies: seq<Packet>)
    requires 0 < |file| == |initial| <= CHUNK_SIZE && IsChunkPacket(p, file, 0)
    ensures var r := InitialReceiver(1, initial);
            DataHandled(r, HandleData(r, p), p, replies) && HandleData(r, p).Complete()
  {
    hide ParseData, IsDataPacket, IsAckPacket, HasFields, ChecksumOk;
    var r := InitialReceiver(1, initial);
    Transfer.ChunkPacketReads(p, file, 0);
    var a := AckExists(0);
    replies := [a];
    assert 0 in HandleData(r, p).chunks;
  }

  lemma AckExists(k: Word32) returns (a: Packet)
    ensures IsAckPacket(a, k)
  {
    hide HasFields, ChecksumOk;
    a := PacketExists(UDP_ACK, 0, k, []);
  }

  lemma DeliverPossible(j: Session, p: Packet, replies: seq<Packet>) returns (k: Session)
    requires j.c.s.Valid() && j.c.r.Valid() && p in j.c.data
    requires DataHandled(j.c.r, HandleData(j.c.r, p), p, replies)
    ensures Next(j, k, Deliver(p, replies)) && k.c.r == HandleData(j.c.r, p) && k.clock == j.clock
  {
    hide DataHandled, HandleData, ParseData, Sender.Valid;
    k := j.(c := j.c.(r := HandleData(j.c.r, p), acks := j.c.acks + set q | q in replies));
  }

  /** 22 passes are more than a one-chunk file is given. */
  lemma TimeIsUp(file: seq<Byte>, x: Trace)
    requires 0 < |file| <= CHUNK_SIZE && Silent(file, x, 22 * TIMEOUT_MS) && x.start == 0 && Passes(x.moves) != []
    ensures SenderChunkCount(U32(|file|)) == 1 && Overtime(file, x, TIMEOUT_MS, |x.moves|)
  {
    hide IsSession, Timely, Heard;
    assert x.moves[..|x.moves|] == x.moves;
  }

  /** Every ACK is lost: for every one-chunk file, and whatever the receiver's buffer held at first, there is
      a session, with nothing altered and the loop on time, that ends with the receiver holding the file and
      the sender giving up. */
  lemma SenderGivesUpOnDelivered(file: seq<Byte>, initial: seq<Byte>) returns (x: Trace)
    requires 0 < |file| == |initial| <= CHUNK_SIZE
    ensures x.states != [] && x.states[0].c.r.initial == initial
    ensures IsSession(file, x) && Truthful(x) && Timely(x, TIMEOUT_MS)
    ensures HasFile(x.states[|x.moves|], file) && x.states[|x.moves|].status == GaveUp
  {
    hide Next, Starts, Timely, HasFile, IsChunkPacket, SenderChunkCount, Passes, Heard, Overtime;
    var p;
    x, p := FirstWindow(file, initial);
    CountOfSender(file, x, 0);
    InitialReceiverIs(1, initial);
    var replies := OneChunkArrives(file, initial, p);
    var k := DeliverPossible(x.states[0], p, replies);
    SilentLonger(file, x, 0, k, Deliver(p, replies));
    x := SilentTurns(file, Longer(x, k, Deliver(p, replies)), 0, 22);
    TimeIsUp(file, x);
    SilentGivesUp(file, x, TIMEOUT_MS, |x.moves|);
    CompleteHasFile(file, x, |x.moves|);
  }
}
