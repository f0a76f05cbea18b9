/** The client's event loop around the sender, and why every transfer ends. */
module EventLoop {
  import opened Protocol
  import opened Chunking
  import opened Windows
  import opened Packets
  import opened SenderSpec
  import opened SenderRing
  import Transfer

  /** A transfer is over when `active` is false: completed or given up. `clock` is the time of the last
      timeout check. */
  datatype Loop = Loop(s: Sender, active: bool, clock: Word64)

  /** One pass: an ACK if one has arrived, and the two readings of the clock. */
  datatype Pass = Pass(ack: Option<Packet>, sendAt: Word64, checkAt: Word64)

  ghost function AfterAck(s: Sender, ack: Option<Packet>): (t: Sender)
    requires s.Valid()
    ensures t.Valid()
  {
    match ack
    case None => s
    case Some(p) => HandleAck(s, p)
  }

  ghost function Tick(l: Loop, p: Pass): (m: Loop)
    requires l.s.Valid()
    ensures m.s.Valid()
  {
    if !l.active then l.(clock := p.checkAt)
    else
      var s := SendWindow(AfterAck(l.s, p.ack), p.sendAt);
      var t := CheckTimeouts(s, p.checkAt);
      Loop(t, !GivesUp(s, p.checkAt) && !t.Complete(), p.checkAt)
  }

  /** The body of the event loop from the ACK branch on, while `transfer_active` is set. */
  method Iterate(sender: SrSender, p: Pass) returns (active: bool, sent: seq<Packet>, resent: seq<Packet>)
    requires sender.Valid() && (p.ack.Some? ==> |p.ack.value| >= HEADER_SIZE)
    modifies sender, sender.window
    ensures sender.Valid() && Loop(sender.model, active, p.checkAt) == Tick(Loop(old(sender.model), true, p.sendAt), p)
    ensures var s := AfterAck(old(sender.model), p.ack);
            var t := SendWindow(s, p.sendAt);
            && CarriesChunks(sent, sender.file, Range(s.nextSeq, t.nextSeq))
            && CarriesChunks(resent, sender.file, Resent(t, p.checkAt))
  {
    hide CarriesChunks, HandleAck, SendWindow, CheckTimeouts, Resent, RingOk;
    if p.ack.Some? {
      sender.HandleAck(p.ack.value);
    }
    var packets, res;
    packets, sent := sender.SendWindow(p.sendAt);
    res, resent := sender.CheckTimeouts(p.checkAt);
    if res < 0 {
      active := false;
    } else {
      var complete := sender.IsComplete();
      active := !complete;
    }
  }

  /** What a pass leaves: its ACK is taken in first, so that the window it opens is already sent; then every
      chunk that is overdue has been resent, unless one had no retries left. Only that, or a complete file,
      ends the transfer. */
  lemma PassLeaves(l: Loop, p: Pass, k: nat)
    requires l.active && l.s.Valid()
    ensures var m := Tick(l, p);
            && (k in m.s.acked <==>
                  k in l.s.acked || (k < l.s.nextSeq && p.ack.Some? && ParseAck(p.ack.value) == Some(k)))
            && (m.s.nextSeq == m.s.numChunks || m.s.nextSeq == m.s.Base() + 64)
            && (m.active ==> k in m.s.timers ==> Elapsed(p.checkAt, m.s.timers[k].sentAt) < 500)
            && (m.active <==> !m.s.Complete() && !exists j :: OutOfRetries(m.s, j, p.checkAt))
  {
    hide SendWindow, CheckTimeouts, HandleAck, ParseAck, Resent, Elapsed;
    var a := AfterAck(l.s, p.ack);
    var b := SendWindow(a, p.sendAt);
    AckTakes(l.s, p.ack, k);
    WindowFilled(a, p.sendAt, k);
    CheckLeaves(b, p.checkAt);
  }

  lemma AckTakes(s: Sender, ack: Option<Packet>, k: nat)
    requires s.Valid()
    ensures k in AfterAck(s, ack).acked <==>
            k in s.acked || (k < s.nextSeq && ack.Some? && ParseAck(ack.value) == Some(k))
  {
    hide ParseAck;
  }

  lemma CheckLeaves(s: Sender, now: Word64)
    requires s.Valid()
    ensures var t := CheckTimeouts(s, now);
            && (!GivesUp(s, now) ==> forall k :: k in t.timers ==> Elapsed(now, t.timers[k].sentAt) < 500)
            && (GivesUp(s, now) <==> exists j :: OutOfRetries(t, j, now))
  {
    hide CheckTimeouts, Resent;
    var t := CheckTimeouts(s, now);
    if GivesUp(s, now) {
      var j := StopAt(s, now);
      ResentMeans(s, now, j);
      assert OutOfRetries(t, j, now);
    } else {
      forall k | k in t.timers ensures Elapsed(now, t.timers[k].sentAt) < 500 {
        ResentMeans(s, now, k);
        assert !Exhausted(s, k, now);
      }
    }
  }

  /** A pass of the loop is a stretch of a run of the whole transfer, so what holds in every run holds
      around the loop. */
  lemma PassIsRun(c: Transfer.System, p: Pass, sent: seq<Packet>, resent: seq<Packet>)
      returns (run: seq<Transfer.System>, steps: seq<Transfer.Step>)
    requires c.s.Valid()
    requires var s := AfterAck(c.s, p.ack);
             var t := SendWindow(s, p.sendAt);
             WindowSent(s, t, p.sendAt, sent) && CarriesChunks(resent, t.file, Resent(t, p.checkAt))
    ensures |run| == |steps| + 1 && run[0] == c
    ensures run[|steps|] == c.(s := Tick(Loop(c.s, true, p.sendAt), p).s,
                               data := c.data + (set q | q in sent) + set q | q in resent)
    ensures forall i :: 0 <= i < |steps| ==> Transfer.Next(run[i], run[i + 1], steps[i])
    ensures forall i :: 0 <= i < |steps| && steps[i].AckStep? ==> i == 0 && p.ack == Some(steps[i].p)
  {
    hide SendWindow, CheckTimeouts, HandleAck, CarriesChunks, GivesUp, Resent, Sender.Valid, Range;
    var a := c.(s := AfterAck(c.s, p.ack));
    var b := a.(s := SendWindow(a.s, p.sendAt), data := a.data + set q | q in sent);
    var d := b.(s := CheckTimeouts(b.s, p.checkAt), data := b.data + set q | q in resent);
    var res := if GivesUp(b.s, p.checkAt) then -1 else |resent|;
    assert Transfer.Next(a, b, Transfer.SendStep(p.sendAt, sent));
    assert Transfer.Next(b, d, Transfer.TimeoutStep(p.checkAt, resent, res));
    run, steps := [a, b, d], [Transfer.SendStep(p.sendAt, sent), Transfer.TimeoutStep(p.checkAt, resent, res)];
    if p.ack.Some? {
      assert Transfer.Next(c, a, Transfer.AckStep(p.ack.value));
      run, steps := [c] + run, [Transfer.AckStep(p.ack.value)] + steps;
    }
  }

  /** Retransmissions left before the base chunk alone would use up every chunk's allowance. */
  ghost function Budget(s: Sender): int
    requires s.Base() in s.timers
  {
    (MAX_RETRIES + 1) * (s.numChunks - s.Base()) - s.timers[s.Base()].retries
  }

  /** The transfer is not complete, and its base chunk has been waiting at least since `since`. */
  ghost predicate Waiting(s: Sender, since: Word64) {
    && s.Valid()
    && s.Base() < s.numChunks && s.Base() in s.timers
    && s.timers[s.Base()].sentAt <= since
  }

  ghost predicate SentBy(s: Sender, now: Word64) {
    forall k :: k in s.timers ==> s.timers[k].sentAt <= now
  }

  /** After `send_window` an unfinished transfer always has its base chunk pending. */
  lemma BasePending(s: Sender, now: Word64)
    requires s.Valid() && SentBy(s, now)
    ensures var t := SendWindow(s, now);
            t.Base() == s.Base() && SentBy(t, now) && (s.Base() < s.numChunks ==> Waiting(t, now))
  {
  }

  lemma AckKeepsBase(s: Sender, ack: Option<Packet>, now: Word64)
    requires s.Valid() && SentBy(s, now)
    ensures var t := AfterAck(s, ack);
            && t.numChunks == s.numChunks && s.Base() <= t.Base() && SentBy(t, now)
            && (t.Base() == s.Base() && s.Base() in s.timers ==>
                  s.Base() in t.timers && t.timers[s.Base()] == s.timers[s.Base()])
  {
  }

  /** A timeout check 500 ms after the base chunk was last sent resends it or gives up. */
  lemma CheckSpendsBudget(s: Sender, since: Word64, now: Word64)
    requires Waiting(s, since) && SentBy(s, now) && !GivesUp(s, now)
    ensures var t := CheckTimeouts(s, now);
            && t.Base() == s.Base() && SentBy(t, now) && Waiting(t, now)
            && Budget(t) <= Budget(s)
            && (since + TIMEOUT_MS <= now ==> Budget(t) < Budget(s))
            && (Budget(t) == Budget(s) ==> Waiting(t, since))
  {
    hide CheckTimeouts, Resent;
    var t := CheckTimeouts(s, now);
    ResentMeans(s, now, s.Base());
    assert !Exhausted(s, s.Base(), now);
    forall k | k in t.timers ensures t.timers[k].sentAt <= now {
      ResentMeans(s, now, k);
    }
  }

  /** One pass of an unfinished transfer never raises the budget, and lowers it when its timeout check
      comes 500 ms after the base chunk was last sent. */
  lemma TickProgress(l: Loop, p: Pass, since: Word64)
    requires l.active && Waiting(l.s, since) && since <= p.sendAt <= p.checkAt && SentBy(l.s, p.sendAt)
    requires Tick(l, p).active
    ensures var s := Tick(l, p).s;
            && s.numChunks == l.s.numChunks && Waiting(s, p.checkAt) && SentBy(s, p.checkAt)
            && 0 < Budget(s) <= Budget(l.s)
            && (since + TIMEOUT_MS <= p.checkAt ==> Budget(s) < Budget(l.s))
            && (Budget(s) == Budget(l.s) ==> Waiting(s, since))
  {
    hide SendWindow, CheckTimeouts, HandleAck, AfterAck, GivesUp;
    var a := AfterAck(l.s, p.ack);
    var b := SendWindow(a, p.sendAt);
    var c := CheckTimeouts(b, p.checkAt);
    AckKeepsBase(l.s, p.ack, p.sendAt);
    BasePending(a, p.sendAt);
    CompleteIffBase(c);
    if a.Base() == l.s.Base() {
      CheckSpendsBudget(b, since, p.checkAt);
    } else {
      CheckSpendsBudget(b, p.sendAt, p.checkAt);
    }
  }

  /** A transfer of `file` begun at `start`, with any ACKs at all, on a clock that does not run back. */
  ghost predicate IsTransfer(file: seq<Byte>, start: Word64, loops: seq<Loop>, passes: seq<Pass>) {
    && |file| < TWO_32 && |loops| == |passes| + 1
    && loops[0] == Loop(SendWindow(InitialSender(file), start), true, start)
    && forall i :: 0 <= i < |passes| ==> Follows(loops[i], passes[i], loops[i + 1])
  }

  ghost predicate Follows(l: Loop, p: Pass, m: Loop) {
    l.s.Valid() && l.clock <= p.sendAt <= p.checkAt && m == Tick(l, p)
  }

  lemma StartsWaiting(file: seq<Byte>, start: Word64)
    requires |file| < TWO_32 && SenderChunkCount(|file|) > 0
    ensures var s := SendWindow(InitialSender(file), start);
            && Waiting(s, start) && SentBy(s, start) && s.numChunks == SenderChunkCount(|file|)
            && Budget(s) == (MAX_RETRIES + 1) * SenderChunkCount(|file|)
  {
    MexUnique({}, 0);
    BasePending(InitialSender(file), start);
  }

  /** With nothing to send, the first pass ends the transfer. */
  lemma NothingToSend(file: seq<Byte>, start: Word64, loops: seq<Loop>, passes: seq<Pass>)
    requires IsTransfer(file, start, loops, passes) && SenderChunkCount(|file|) == 0 && passes != []
    ensures !loops[1].active
  {
    hide SendWindow, CheckTimeouts, HandleAck, GivesUp;
    assert Follows(loops[0], passes[0], loops[1]);
    var a := AfterAck(loops[0].s, passes[0].ack);
    AckKeepsCount(loops[0].s, passes[0].ack);
    var b := SendWindow(a, passes[0].sendAt);
    assert CheckTimeouts(b, passes[0].checkAt).numChunks == 0;
  }

  lemma AckKeepsCount(s: Sender, ack: Option<Packet>)
    requires s.Valid()
    ensures AfterAck(s, ack).numChunks == s.numChunks
  {
  }

  /** The longest time in which `units` of the budget are spent. */
  ghost function Span(units: nat, gap: nat): nat {
    units * (TIMEOUT_MS + gap)
  }

  lemma SpanMeans(n: nat, gap: nat)
    ensures Span((MAX_RETRIES + 1) * n, gap) == 11 * n * (500 + gap)
  {
  }

  lemma {:induction false} SpanGrows(a: nat, b: nat, gap: nat)
    requires b < a
    ensures Span(b, gap) + TIMEOUT_MS + gap <= Span(a, gap)
  {
    if b + 1 < a {
      SpanGrows(a - 1, b, gap);
    }
    assert Span(a, gap) == Span(a - 1, gap) + TIMEOUT_MS + gap;
  }

  /** What holds while the transfer is active: the base chunk has been waiting since `since`, and the
      budget has paid for the time until then. */
  ghost predicate Paid(s: Sender, n: nat, start: Word64, since: Word64, gap: nat, clock: Word64) {
    && Waiting(s, since) && SentBy(s, clock) && s.numChunks == n
    && 0 < Budget(s) <= (MAX_RETRIES + 1) * n
    && since <= clock < since + TIMEOUT_MS
    && since <= start + Span((MAX_RETRIES + 1) * n - Budget(s), gap)
  }

  lemma PaidStep(l: Loop, p: Pass, n: nat, start: Word64, since: Word64, gap: nat, clock: Word64)
      returns (since': Word64)
    requires l.active && Paid(l.s, n, start, since, gap, clock)
    requires clock <= p.sendAt <= p.checkAt <= clock + gap
    requires Tick(l, p).active
    ensures Paid(Tick(l, p).s, n, start, since', gap, p.checkAt)
  {
    hide Tick, SentBy, Span;
    assert SentBy(l.s, p.sendAt) by { SentLater(l.s, clock, p.sendAt); }
    TickProgress(l, p, since);
    var s := Tick(l, p).s;
    if Budget(s) == Budget(l.s) {
      since' := since;
    } else {
      since' := p.checkAt;
      var total := (MAX_RETRIES + 1) * n;
      SpanGrows(total - Budget(s), total - Budget(l.s), gap);
    }
  }

  lemma SentLater(s: Sender, now: Word64, later: Word64)
    requires SentBy(s, now) && now <= later
    ensures SentBy(s, later)
  {
  }

  lemma StartsPaid(file: seq<Byte>, start: Word64, gap: nat)
    requires |file| < TWO_32 && SenderChunkCount(|file|) > 0
    ensures Paid(SendWindow(InitialSender(file), start), SenderChunkCount(|file|), start, start, gap, start)
  {
    hide SendWindow, InitialSender;
    StartsWaiting(file, start);
    assert Span(0, gap) == 0;
  }

  lemma PaidBound(s: Sender, n: nat, start: Word64, since: Word64, gap: nat, clock: Word64)
    requires Paid(s, n, start, since, gap, clock)
    ensures clock < start + Span((MAX_RETRIES + 1) * n, gap)
  {
    hide Span;
    SpanGrows((MAX_RETRIES + 1) * n, (MAX_RETRIES + 1) * n - Budget(s), gap);
  }

  /** A transfer that is active after a pass was active before it. */
  lemma WasActive(l: Loop, p: Pass)
    requires l.s.Valid() && Tick(l, p).active
    ensures l.active && Tick(l, p).clock == p.checkAt
  {
  }

  lemma {:induction false} PaidRun(file: seq<Byte>, start: Word64, loops: seq<Loop>, passes: seq<Pass>, gap: nat,
                                   m: nat)
      returns (since: Word64)
    requires IsTransfer(file, start, loops, passes) && SenderChunkCount(|file|) > 0 && m < |loops|
    requires forall i :: 0 <= i < |passes| ==> passes[i].checkAt <= loops[i].clock + gap
    requires loops[m].active
    ensures Paid(loops[m].s, SenderChunkCount(|file|), start, since, gap, loops[m].clock)
  {
    hide Tick, SendWindow, InitialSender, SenderChunkCount, Paid;
    if m == 0 {
      since := start;
      StartsPaid(file, start, gap);
    } else {
      assert Follows(loops[m - 1], passes[m - 1], loops[m]);
      WasActive(loops[m - 1], passes[m - 1]);
      since := PaidRun(file, start, loops, passes, gap, m - 1);
      since := PaidStep(loops[m - 1], passes[m - 1], SenderChunkCount(|file|), start, since, gap,
                        loops[m - 1].clock);
    }
  }

  /** Every transfer ends in time: if the loop looks at the clock at least every `gap` ms, a transfer of
      `n` chunks is complete or given up within 11 * n * (500 + gap) ms, whatever ACKs come. */
  lemma EndsInTime(file: seq<Byte>, start: Word64, loops: seq<Loop>, passes: seq<Pass>, gap: nat, m: nat)
    requires IsTransfer(file, start, loops, passes) && 0 < m < |loops|
    requires forall i :: 0 <= i < |passes| ==> passes[i].checkAt <= loops[i].clock + gap
    requires loops[m].clock >= start + Span((MAX_RETRIES + 1) * SenderChunkCount(|file|), gap)
    ensures !loops[m].active
  {
    hide Tick, SendWindow, InitialSender, SenderChunkCount, Paid, Span;
    if SenderChunkCount(|file|) == 0 {
      NothingToSend(file, start, loops, passes);
      StaysEnded(file, start, loops, passes, 1, m);
    } else if loops[m].active {
      var since := PaidRun(file, start, loops, passes, gap, m);
      PaidBound(loops[m].s, SenderChunkCount(|file|), start, since, gap, loops[m].clock);
    }
  }

  lemma {:induction false} StaysEnded(file: seq<Byte>, start: Word64, loops: seq<Loop>, passes: seq<Pass>, i: nat,
                                      j: nat)
    requires IsTransfer(file, start, loops, passes) && i <= j < |loops| && !loops[i].active
    ensures loops[j].s == loops[i].s && !loops[j].active
  {
    hide SendWindow, CheckTimeouts, AfterAck, GivesUp;
    if i < j {
      StaysEnded(file, start, loops, passes, i, j - 1);
      assert Follows(loops[j - 1], passes[j - 1], loops[j]);
    }
  }

  /** Counted in timeout checks: if they are at least 500 ms apart, a transfer of `n` chunks survives at
      most 11 * n of them. */
  lemma EndsInChecks(file: seq<Byte>, start: Word64, loops: seq<Loop>, passes: seq<Pass>, m: nat)
    requires IsTransfer(file, start, loops, passes) && m < |loops|
    requires forall i :: 0 < i < |passes| ==> loops[i].clock + TIMEOUT_MS <= passes[i].checkAt
    requires loops[m].active
    ensures m <= (MAX_RETRIES + 1) * SenderChunkCount(|file|)
  {
    hide Tick, SendWindow, InitialSender, SenderChunkCount;
    if SenderChunkCount(|file|) > 0 {
      CheckedRun(file, start, loops, passes, m);
    } else if m > 0 {
      NothingToSend(file, start, loops, passes);
      StaysEnded(file, start, loops, passes, 1, m);
    }
  }

  lemma {:induction false} CheckedRun(file: seq<Byte>, start: Word64, loops: seq<Loop>, passes: seq<Pass>, m: nat)
    requires IsTransfer(file, start, loops, passes) && SenderChunkCount(|file|) > 0 && m < |loops|
    requires forall i :: 0 < i < |passes| ==> loops[i].clock + TIMEOUT_MS <= passes[i].checkAt
    requires loops[m].active
    ensures var s := loops[m].s;
            && Waiting(s, loops[m].clock) && SentBy(s, loops[m].clock)
            && s.numChunks == SenderChunkCount(|file|)
            && 0 < Budget(s) <= (MAX_RETRIES + 1) * SenderChunkCount(|file|) - (if m == 0 then 0 else m - 1)
  {
    hide Tick, SendWindow, InitialSender, SenderChunkCount, SentBy;
    if m == 0 {
      StartsWaiting(file, start);
    } else {
      var l, p, clock := loops[m - 1], passes[m - 1], loops[m - 1].clock;
      assert Follows(l, p, loops[m]);
      WasActive(l, p);
      CheckedRun(file, start, loops, passes, m - 1);
      SentLater(l.s, clock, p.sendAt);
      TickProgress(l, p, clock);
    }
  }
}
