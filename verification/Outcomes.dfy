/** How a session ends: in time, and either with the file in place or with a chunk that went unanswered. */
module Outcomes {
  import opened Protocol
  import opened Packets
  import opened Chunking
  import opened SenderSpec
  import opened ReceiverSpec
  import opened EventLoop
  import opened Sessions
  import Transfer
  import Retries

  /** Chunk `k` has been transmitted eleven times, the last of them at least 500 ms before `now`. */
  ghost predicate TimedOut(log: seq<Retries.Transmission>, k: nat, now: Word64) {
    var ts := Retries.Times(log, k);
    |ts| == MAX_RETRIES + 1 && ts[MAX_RETRIES] + TIMEOUT_MS <= now
  }

  /** In move `i` the sender hears an ACK for chunk `k`, which it has sent. */
  ghost predicate Answers(x: Trace, i: nat, k: nat)
    requires i < |x.moves| < |x.states|
  {
    && Heard(x, i).Some? && k < x.states[i].c.s.nextSeq
    && ParseAck(Heard(x, i).value).Some? && ParseAck(Heard(x, i).value).value == k
  }

  /** One of the first `n` moves does that. */
  ghost predicate Answered(x: Trace, n: nat, k: nat)
    requires n <= |x.moves| < |x.states|
  {
    exists i :: 0 <= i < n && Answers(x, i, k)
  }

  lemma AckedStep(x: Trace, i: nat, k: nat)
    requires i < |x.moves| < |x.states| && Next(x.states[i], x.states[i + 1], x.moves[i])
    ensures k in x.states[i + 1].c.s.acked <==> k in x.states[i].c.s.acked || Answers(x, i, k)
  {
    hide ParseAck, SendWindow, CheckTimeouts, Resent, CarriesChunks, GivesUp;
  }

  /** The sender takes a chunk for acknowledged exactly if it has heard an ACK for it. */
  lemma {:induction false} AckedExactly(file: seq<Byte>, x: Trace, m: nat, k: nat)
    requires IsSession(file, x) && m < |x.states|
    ensures k in x.states[m].c.s.acked <==> Answered(x, m, k)
  {
    hide Next, Answers;
    if m == 0 {
      StartsUnacked(file, x);
    } else {
      AckedExactly(file, x, m - 1, k);
      assert Next(x.states[m - 1], x.states[m], x.moves[m - 1]);
      AckedStep(x, m - 1, k);
    }
  }

  lemma StartsUnacked(file: seq<Byte>, x: Trace)
    requires IsSession(file, x)
    ensures x.states[0].c.s.acked == {} && x.states[0].status == Active
  {
    hide SendWindow, CarriesChunks;
  }

  /** At the timeout check of a pass, a spent chunk is one whose last transmission timed out unacknowledged. */
  lemma SpentAtCheck(h: Retries.History, p: Pass, k: nat)
    requires Retries.Inv(h) && Retries.Inv(AtCheck(h, p)) && Retries.InOrder(AtCheck(h, p), k)
    requires p.sendAt <= p.checkAt
    ensures Retries.SpentAt(AtCheck(h, p), k, p.checkAt) <==>
              TimedOut(h.log, k, p.checkAt) && k !in AtCheck(h, p).s.acked
  {
    hide SendWindow, Retries.Times, HandleAck;
    var s, g := AfterAck(h.s, p.ack), AtCheck(h, p);
    Retries.TimesLogged(h.log, Range(s.nextSeq, g.s.nextSeq), p.sendAt, k);
    assert Retries.ChunkOk(h, k) && Retries.ChunkOk(g, k);
    AckKeepsNext(h.s, p.ack);
  }

  lemma AckKeepsNext(s: Sender, ack: Option<Packet>)
    requires s.Valid()
    ensures AfterAck(s, ack).nextSeq == s.nextSeq
  {
  }

  lemma RecordedInv(run: seq<Retries.History>, calls: seq<Retries.Call>, h: Retries.History)
    requires Recorded(run, calls, h)
    ensures Retries.Inv(h) && forall k: nat :: Retries.InOrder(h, k)
  {
    hide Retries.IsRun, Retries.Inv, Retries.Forward, Retries.InOrder;
    assert |run| == |calls| + 1 by { RunShape(run, calls); }
    Retries.RunInv(run, calls, |calls|);
    forall k: nat ensures Retries.InOrder(h, k) {
      Retries.RunInOrder(run, calls, |calls|, k);
    }
  }

  lemma RunShape(run: seq<Retries.History>, calls: seq<Retries.Call>)
    requires Retries.IsRun(run, calls)
    ensures |run| == |calls| + 1
  {
  }

  /** The sender at, and about to make, the timeout check of pass `i`. */
  lemma CheckOfTurn(file: seq<Byte>, x: Trace, i: nat) returns (h: Retries.History, g: Retries.History)
    requires IsSession(file, x) && i < |x.moves| && x.moves[i].Turn? && x.states[i].status == Active
    ensures Retries.Inv(h) && h.log == x.states[i].log && h.s == x.states[i].c.s
    ensures g == AtCheck(h, x.moves[i].p) && Retries.Inv(g) && forall k: nat :: Retries.InOrder(g, k)
    ensures Retries.Inv(PastCheck(g, x.moves[i].p)) && PastCheck(g, x.moves[i].p).log == x.states[i + 1].log
    ensures x.states[i + 1].c.s == PastCheck(g, x.moves[i].p).s
    ensures g.clock == x.moves[i].p.sendAt <= x.moves[i].p.checkAt == x.states[i + 1].clock
    ensures x.states[i + 1].status == GaveUp <==> GivesUp(g.s, x.moves[i].p.checkAt)
  {
    hide SendWindow, CheckTimeouts, Resent, HandleAck, AfterAck, CarriesChunks, GivesUp, Recorded;
    hide Retries.Inv, Retries.InOrder;
    var run, calls;
    assert Next(x.states[i], x.states[i + 1], x.moves[i]);
    var p := x.moves[i].p;
    run, calls, h := IsSenderRun(file, x, i);
    RecordedInv(run, calls, h);
    run, calls := ToCheck(run, calls, h, p);
    g := AtCheck(h, p);
    RecordedInv(run, calls, g);
    run, calls := OverCheck(run, calls, g, p);
    RecordedInv(run, calls, PastCheck(g, p));
  }

  /** In pass `i`, chunk `k` has timed out for the last time and no ACK for it has been heard. */
  ghost predicate Unanswered(x: Trace, i: nat, k: nat)
    requires i < |x.moves| < |x.states|
  {
    && x.moves[i].Turn? && x.states[i].status == Active
    && TimedOut(x.states[i].log, k, x.moves[i].p.checkAt) && !Answered(x, i + 1, k)
  }

  /** A pass gives up exactly if there is such a chunk. */
  lemma TurnGivesUp(file: seq<Byte>, x: Trace, i: nat)
    requires IsSession(file, x) && i < |x.moves| && x.moves[i].Turn? && x.states[i].status == Active
    ensures x.states[i + 1].status == GaveUp <==> exists k: nat :: Unanswered(x, i, k)
  {
    hide Next, Starts, AtCheck, CheckTimeouts, TimedOut, Answered, GivesUp;
    hide Retries.Inv, Retries.SpentAt, Retries.InOrder;
    var h, g := CheckOfTurn(file, x, i);
    var p := x.moves[i].p;
    Retries.SpentMeans(g, p.checkAt);
    forall k: nat ensures Unanswered(x, i, k) <==> Retries.SpentAt(g, k, p.checkAt) {
      SpentAtCheck(h, p, k);
      AckedExactly(file, x, i + 1, k);
    }
  }

  lemma EndedStays(j: Session, k: Session, move: Move)
    requires Next(j, k, move) && (move.Turn? ==> j.status != Active)
    ensures k.status == j.status && k.log == j.log && k.c.s == j.c.s && j.clock <= k.clock
  {
  }

  /** Over a whole session, whatever ACKs come: the sender gives up exactly if some chunk's eleventh
      transmission times out before an ACK for that chunk has been heard. */
  lemma {:induction false} GivesUpExactly(file: seq<Byte>, x: Trace, m: nat)
    requires IsSession(file, x) && m < |x.states|
    ensures x.states[m].status == GaveUp <==> exists i, k: nat :: 0 <= i < m && Unanswered(x, i, k)
  {
    hide Next, Starts, TimedOut, Answered;
    if m == 0 {
      StartsUnacked(file, x);
    } else {
      var i := m - 1;
      GivesUpExactly(file, x, i);
      assert Next(x.states[i], x.states[m], x.moves[i]);
      if x.moves[i].Turn? && x.states[i].status == Active {
        TurnGivesUp(file, x, i);
      } else {
        EndedStays(x.states[i], x.states[m], x.moves[i]);
      }
    }
  }

  /** What a sender that has given up can show: an unacknowledged chunk, transmitted eleven times over at
      least 5000 ms, and 500 ms more without an answer. */
  ghost predicate Failed(j: Session, k: nat) {
    && k < j.c.s.nextSeq && k !in j.c.s.acked && TimedOut(j.log, k, j.clock)
    && Retries.Times(j.log, k)[0] + 5500 <= j.clock
  }

  lemma CheckFails(g: Retries.History, p: Pass, k: nat)
    requires Retries.Inv(g) && Retries.InOrder(g, k) && Retries.Inv(PastCheck(g, p)) && g.clock <= p.checkAt
    requires Retries.SpentAt(g, k, p.checkAt)
    ensures var u := PastCheck(g, p);
            && k < u.s.nextSeq && k !in u.s.acked && TimedOut(u.log, k, p.checkAt)
            && Retries.Times(u.log, k)[0] + 5500 <= p.checkAt
  {
    hide CheckTimeouts, Resent, Retries.Times;
    Retries.SpentLate(g, k, p.checkAt);
    Retries.TimesLogged(g.log, Resent(g.s, p.checkAt), p.checkAt, k);
    assert Retries.ChunkOk(g, k) && Retries.ChunkOk(PastCheck(g, p), k);
  }

  lemma {:induction false} GaveUpFailed(file: seq<Byte>, x: Trace, m: nat) returns (k: nat)
    requires IsSession(file, x) && m < |x.states| && x.states[m].status == GaveUp
    ensures Failed(x.states[m], k)
  {
    hide Next, Starts, AtCheck, CheckTimeouts, Retries.Inv, Retries.SpentAt, Retries.InOrder, GivesUp, Retries.Times;
    if m == 0 {
      StartsUnacked(file, x);
    } else {
      var i := m - 1;
      assert Next(x.states[i], x.states[m], x.moves[i]);
      if x.moves[i].Turn? && x.states[i].status == Active {
        var h, g := CheckOfTurn(file, x, i);
        Retries.SpentMeans(g, x.moves[i].p.checkAt);
        k :| Retries.SpentAt(g, k, x.moves[i].p.checkAt);
        CheckFails(g, x.moves[i].p, k);
      } else {
        EndedStays(x.states[i], x.states[m], x.moves[i]);
        k := GaveUpFailed(file, x, i);
      }
    }
  }

  /** A sender whose loop says so is complete. */
  lemma {:induction false} FinishedComplete(file: seq<Byte>, x: Trace, m: nat)
    requires IsSession(file, x) && m < |x.states| && x.states[m].status == Finished
    ensures x.states[m].c.s.Complete()
  {
    hide Starts, SendWindow, CheckTimeouts, Resent, HandleAck, AfterAck, CarriesChunks, GivesUp;
    if m == 0 {
      StartsUnacked(file, x);
    } else {
      assert Next(x.states[m - 1], x.states[m], x.moves[m - 1]);
      if x.states[m - 1].status == Finished {
        FinishedComplete(file, x, m - 1);
      }
    }
  }

  /** The receiver is complete and what it has assembled is the file. */
  ghost predicate HasFile(j: Session, file: seq<Byte>) {
    && j.c.r.Complete() && j.c.r.AllFit(j.c.r.Base())
    && j.c.r.Assembled(j.c.r.Base()) == file
  }

  lemma CompleteHasFile(file: seq<Byte>, x: Trace, m: nat)
    requires IsSession(file, x) && m < |x.states| && x.states[m].c.r.Complete()
    ensures HasFile(x.states[m], file) <==> |file| < TWO_32
  {
    hide Next, Starts, Transfer.Next, Transfer.Initial;
    var run, steps := IsTransferRun(file, x, m);
    Transfer.EndToEnd(file, run, steps, |steps|);
  }

  /** A sender that has finished means a receiver with the file exactly for files up to `MAX_FILE_SIZE`. */
  lemma FinishedHasFile(file: seq<Byte>, x: Trace, m: nat)
    requires IsSession(file, x) && Truthful(x) && m < |x.states| && x.states[m].status == Finished
    ensures HasFile(x.states[m], file) <==> |file| <= MAX_FILE_SIZE
  {
    hide Next, Starts, Truthful, Transfer.Next, Transfer.Initial, Transfer.HarmlessRun;
    var run, steps := IsTransferRun(file, x, m);
    FinishedComplete(file, x, m);
    Transfer.SenderDoneMeansReceiverDone(file, run, steps, |steps|);
  }

  /** By move `m` the loop has made a pass and 11 * n * (500 + gap) ms have gone by. */
  ghost predicate Overtime(file: seq<Byte>, x: Trace, gap: nat, m: nat)
    requires m <= |x.moves| < |x.states|
  {
    && Passes(x.moves[..m]) != []
    && x.states[m].clock >= x.start + Span((MAX_RETRIES + 1) * SenderChunkCount(U32(|file|)), gap)
  }

  lemma EndedInTime(file: seq<Byte>, x: Trace, gap: nat, m: nat)
    requires IsSession(file, x) && Timely(x, gap) && m < |x.states| && Overtime(file, x, gap, m)
    ensures x.states[m].status != Active
  {
    hide Next, Starts, Span, SenderChunkCount, Tick, SendWindow, InitialSender, Passes;
    var loops := IsLoopRun(file, x, gap, m);
    EndsInTime(Cut(file), x.start, loops, Passes(x.moves[..m]), gap, |loops| - 1);
  }

  /** Every transfer is decided in time: once 11 * n * (500 + gap) ms have gone by and the loop has made a
      pass, the sender has given up on a chunk that nobody acknowledged, or it has finished, and then the
      receiver has the file exactly if it is not too large. The channels may lose, repeat, reorder and
      corrupt data, and deliver any harmless ACK. */
  lemma DecidedInTime(file: seq<Byte>, x: Trace, gap: nat, m: nat)
    requires IsSession(file, x) && Truthful(x) && Timely(x, gap) && m < |x.states| && Overtime(file, x, gap, m)
    ensures || (x.states[m].status == Finished && (HasFile(x.states[m], file) <==> |file| <= MAX_FILE_SIZE))
            || (x.states[m].status == GaveUp && exists k: nat :: Failed(x.states[m], k))
  {
    hide Next, Starts, Truthful, Timely, Overtime, HasFile, Failed;
    EndedInTime(file, x, gap, m);
    if x.states[m].status == Finished {
      FinishedHasFile(file, x, m);
    } else {
      var k := GaveUpFailed(file, x, m);
    }
  }

  lemma CountOfSender(file: seq<Byte>, x: Trace, m: nat)
    requires IsSession(file, x) && m < |x.states|
    ensures x.states[m].c.s.Valid() && x.states[m].c.s.numChunks == SenderChunkCount(U32(|file|))
  {
    hide Next, Starts, Transfer.Next, Transfer.Initial, SenderChunkCount, Genuine;
    var run, steps := IsTransferRun(file, x, m);
    Transfer.RunSafe(file, run, steps, |steps|);
  }

  /** When the time is up, whatever ACKs came: the sender has finished exactly if it has heard an ACK for
      every chunk, and exactly if it had one for each chunk by the time its eleventh transmission timed out. */
  lemma FinishedExactly(file: seq<Byte>, x: Trace, gap: nat, m: nat)
    requires IsSession(file, x) && Timely(x, gap) && m < |x.states| && Overtime(file, x, gap, m)
    ensures x.states[m].status == Finished <==> forall k: nat :: k < SenderChunkCount(U32(|file|)) ==> Answered(x, m, k)
    ensures x.states[m].status == Finished <==> forall i, k: nat :: 0 <= i < m ==> !Unanswered(x, i, k)
  {
    hide Next, Starts, Timely, Overtime, Unanswered, TimedOut, SenderChunkCount, Answered, Sender.Valid;
    EndedInTime(file, x, gap, m);
    GivesUpExactly(file, x, m);
    CountOfSender(file, x, m);
    CompleteIffBase(x.states[m].c.s);
    forall k: nat ensures k in x.states[m].c.s.acked <==> Answered(x, m, k) {
      AckedExactly(file, x, m, k);
    }
    if x.states[m].status == Finished {
      FinishedComplete(file, x, m);
    } else {
      var k := GaveUpFailed(file, x, m);
      SentBelowCount(x.states[m].c.s, k);
      assert !Answered(x, m, k);
    }
  }

  lemma SentBelowCount(s: Sender, k: nat)
    requires s.Valid() && k < s.nextSeq
    ensures k < s.numChunks
  {
  }

  /** Completion under loss: where the ACKs were harmless too, that is exactly when the receiver has the
      file, for every file that is not too large. */
  lemma AnsweredCompletes(file: seq<Byte>, x: Trace, gap: nat, m: nat)
    requires IsSession(file, x) && Truthful(x) && Timely(x, gap) && m < |x.states| && Overtime(file, x, gap, m)
    ensures x.states[m].status == Finished <==> forall i, k: nat :: 0 <= i < m ==> !Unanswered(x, i, k)
    ensures x.states[m].status == Finished ==> (HasFile(x.states[m], file) <==> |file| <= MAX_FILE_SIZE)
  {
    hide Next, Starts, Truthful, Timely, Overtime, HasFile, Unanswered, SenderChunkCount;
    FinishedExactly(file, x, gap, m);
    if x.states[m].status == Finished {
      FinishedHasFile(file, x, m);
    }
  }

  /** A sender that hears nothing gives up. */
  lemma SilentGivesUp(file: seq<Byte>, x: Trace, gap: nat, m: nat)
    requires IsSession(file, x) && Timely(x, gap) && m < |x.states| && Overtime(file, x, gap, m)
    requires SenderChunkCount(U32(|file|)) > 0 && forall i :: 0 <= i < m ==> Heard(x, i) == None
    ensures x.states[m].status == GaveUp
  {
    hide Next, Starts, Timely, Overtime, Unanswered, SenderChunkCount;
    EndedInTime(file, x, gap, m);
    FinishedExactly(file, x, gap, m);
    assert !Answered(x, m, 0);
  }

  /** What the receiver has sent stays sent. */
  lemma {:induction false} AcksStay(file: seq<Byte>, x: Trace, i: nat, j: nat, a: Packet)
    requires IsSession(file, x) && i <= j < |x.states| && a in x.states[i].c.acks
    ensures a in x.states[j].c.acks
  {
    hide Starts, Turned, Transfer.Safe, Transfer.Next;
    if i < j {
      AcksStay(file, x, i, j - 1, a);
      var c, move := x.states[j - 1].c, x.moves[j - 1];
      assert Next(x.states[j - 1], x.states[j], move);
      if move.Deliver? {
        var run, steps := IsTransferRun(file, x, j - 1);
        Transfer.RunSafe(file, run, steps, |steps|);
        Transfer.DataStepKeepsAcks(c, x.states[j].c, file, move.q, move.replies);
      } else {
        TurnKeepsAcks(x.states[j - 1], x.states[j], move);
      }
    }
  }

  lemma TurnKeepsAcks(j: Session, k: Session, move: Move)
    requires Next(j, k, move) && move.Turn?
    ensures k.c.acks == j.c.acks
  {
    hide SendWindow, CheckTimeouts, Resent, HandleAck, AfterAck, CarriesChunks, GivesUp;
  }

  /** A lost ACK is made good: however often a packet has been delivered before, delivering it again sends an
      ACK that answers its chunk in whatever later pass it is heard. */
  lemma RedeliveryAnswers(file: seq<Byte>, x: Trace, i: nat, j: nat)
    requires IsSession(file, x) && Truthful(x) && i < j < |x.moves|
    requires x.moves[i].Deliver? && x.moves[i].q in x.states[i].c.data
    ensures ParseData(x.moves[i].q).Some? && |x.moves[i].replies| == 1
    ensures Heard(x, j) == Some(x.moves[i].replies[0]) ==> Answers(x, j, ParseData(x.moves[i].q).value.seqNum)
  {
    hide Next, Starts, Truthful, ParseData, ParseAck, Transfer.Next, Transfer.Initial, Transfer.HarmlessRun, Heard;
    var q, replies := x.moves[i].q, x.moves[i].replies;
    DeliveryAnswered(file, x, i);
    if Heard(x, j) == Some(replies[0]) {
      AcksStay(file, x, i + 1, j, replies[0]);
      ReceivedAckAnswers(file, x, j);
    }
  }

  lemma DeliveryAnswered(file: seq<Byte>, x: Trace, i: nat)
    requires IsSession(file, x) && Truthful(x) && i < |x.moves|
    requires x.moves[i].Deliver? && x.moves[i].q in x.states[i].c.data
    ensures ParseData(x.moves[i].q).Some? && |x.moves[i].replies| == 1
    ensures ParseAck(x.moves[i].replies[0]) == Some(ParseData(x.moves[i].q).value.seqNum)
    ensures x.moves[i].replies[0] in x.states[i + 1].c.acks
  {
    hide Starts, Turned, Truthful, ParseData, ParseAck, Transfer.Next, Transfer.Initial, Transfer.Harmless;
    var c, d, q, replies := x.states[i].c, x.states[i + 1].c, x.moves[i].q, x.moves[i].replies;
    assert Next(x.states[i], x.states[i + 1], x.moves[i]);
    var run, steps := IsTransferRun(file, x, i);
    var step := Transfer.DataStep(q, replies);
    RunLonger(file, run, steps, c, [c, d], [step]);
    assert Transfer.HarmlessRun([c, d], [step]);
    var all, path := run[..|steps|] + [c, d], steps + [step];
    Transfer.EveryArrivalAnswered(file, all, path, |steps|);
  }

  /** Hearing an ACK that the receiver sent answers the chunk it names, which the receiver has: an ACK
      sent for a chunk delivered always counts. */
  lemma ReceivedAckAnswers(file: seq<Byte>, x: Trace, i: nat)
    requires IsSession(file, x) && i < |x.moves| && Heard(x, i).Some? && Heard(x, i).value in x.states[i].c.acks
    ensures exists k: nat :: k in x.states[i].c.r.chunks && Answers(x, i, k)
  {
    hide Next, Starts, Transfer.Next, Transfer.Initial, Transfer.HarmlessRun, ParseAck, IsAckPacket, Genuine;
    var run, steps := IsTransferRun(file, x, i);
    Transfer.RunSafe(file, run, steps, |steps|);
    assert Transfer.Acknowledges(Heard(x, i).value, x.states[i].c.r);
    var k: Word32 :| k in x.states[i].c.r.chunks && IsAckPacket(Heard(x, i).value, k);
    AckRoundTrip(Heard(x, i).value, k);
    assert Answers(x, i, k);
  }
}
