/** Retry discipline over whole runs of the sender: how often, how far apart and for which chunks it
    transmits, whatever ACKs it is given and whatever the clock says. */
module Retries {
  import opened Protocol
  import opened SenderSpec

  /** One transmission of a chunk. */
  datatype Transmission = Transmission(seqNum: nat, at: Word64)

  /** A sender, everything it has transmitted so far, and the last reading of the clock. */
  datatype History = History(s: Sender, log: seq<Transmission>, clock: Word64)

  datatype Call = AckCall(p: Packet) | SendCall(now: Word64) | TimeoutCall(now: Word64)

  ghost function Logged(ks: seq<nat>, now: Word64): (l: seq<Transmission>)
    ensures |l| == |ks| && forall i :: 0 <= i < |ks| ==> l[i] == Transmission(ks[i], now)
  {
    seq(|ks|, i requires 0 <= i < |ks| => Transmission(ks[i], now))
  }

  ghost predicate Next(c: History, d: History, call: Call) {
    c.s.Valid() &&
    match call
    case AckCall(p) =>
      d == c.(s := HandleAck(c.s, p))
    case SendCall(now) =>
      && d.clock == now && d.s == SendWindow(c.s, now)
      && d.log == c.log + Logged(Range(c.s.nextSeq, d.s.nextSeq), now)
    case TimeoutCall(now) =>
      && d.clock == now && d.s == CheckTimeouts(c.s, now)
      && d.log == c.log + Logged(Resent(c.s, now), now)
  }

  ghost predicate IsRun(run: seq<History>, calls: seq<Call>) {
    && |run| == |calls| + 1
    && |run[0].s.file| < TWO_32 && run[0].s == InitialSender(run[0].s.file) && run[0].log == []
    && forall i :: 0 <= i < |calls| ==> Next(run[i], run[i + 1], calls[i])
  }

  /** When chunk `k` was transmitted, in order. */
  ghost function Times(log: seq<Transmission>, k: nat): seq<Word64> {
    if log == [] then []
    else
      var n := |log| - 1;
      Times(log[..n], k) + if log[n].seqNum == k then [log[n].at] else []
  }

  lemma TimesAppend(log: seq<Transmission>, x: Transmission, k: nat)
    ensures Times(log + [x], k) == Times(log, k) + if x.seqNum == k then [x.at] else []
  {
    assert (log + [x])[..|log|] == log;
  }

  lemma {:induction false} TimesLogged(log: seq<Transmission>, ks: seq<nat>, now: Word64, k: nat)
    requires forall i, j :: 0 <= i < j < |ks| ==> ks[i] < ks[j]
    ensures Times(log + Logged(ks, now), k) == Times(log, k) + if k in ks then [now] else []
  {
    hide Times;
    var all := log + Logged(ks, now);
    if ks == [] {
      assert all == log;
    } else {
      var n := |ks| - 1;
      var init, last := ks[..n], ks[n];
      TimesLogged(log, init, now, k);
      assert all == log + Logged(init, now) + [Transmission(last, now)];
      TimesAppend(log + Logged(init, now), Transmission(last, now), k);
      assert ks == init + [last];
    }
  }

  /** Each waits 500 ms for the one before, as the code measures it: in wrapping 64-bit arithmetic. */
  ghost predicate Spaced(ts: seq<Word64>) {
    forall i :: 0 <= i < |ts| - 1 ==> Elapsed(ts[i + 1], ts[i]) >= TIMEOUT_MS
  }

  /** What the log says about one chunk. */
  ghost predicate ChunkOk(c: History, k: nat) {
    var ts := Times(c.log, k);
    && |ts| <= MAX_RETRIES + 1
    && Spaced(ts)
    && (k >= c.s.nextSeq ==> ts == [])
    && (k in c.s.timers ==> |ts| == c.s.timers[k].retries + 1 && ts[|ts| - 1] == c.s.timers[k].sentAt)
  }

  ghost predicate Inv(c: History) {
    c.s.Valid() && forall k: nat :: ChunkOk(c, k)
  }

  lemma SendKeepsChunk(c: History, d: History, now: Word64, k: nat)
    requires c.s.Valid() && Next(c, d, SendCall(now)) && ChunkOk(c, k)
    ensures ChunkOk(d, k)
  {
    TimesLogged(c.log, Range(c.s.nextSeq, d.s.nextSeq), now, k);
    assert k in d.s.timers && k < c.s.nextSeq ==> k in c.s.timers;
  }

  lemma TimeoutKeepsChunk(c: History, d: History, now: Word64, k: nat)
    requires c.s.Valid() && Next(c, d, TimeoutCall(now)) && ChunkOk(c, k)
    ensures ChunkOk(d, k)
  {
    hide CheckTimeouts, Resent, Times;
    TimesLogged(c.log, Resent(c.s, now), now, k);
    ResentMeans(c.s, now, k);
  }

  lemma StepInv(c: History, d: History, call: Call)
    requires Inv(c) && Next(c, d, call)
    ensures Inv(d)
  {
    forall k: nat ensures ChunkOk(d, k) {
      assert ChunkOk(c, k);
      match call
      case AckCall(p) =>
      case SendCall(now) => SendKeepsChunk(c, d, now, k);
      case TimeoutCall(now) => TimeoutKeepsChunk(c, d, now, k);
    }
  }

  lemma {:induction false} RunInv(run: seq<History>, calls: seq<Call>, i: nat)
    requires IsRun(run, calls) && i < |run|
    ensures Inv(run[i])
  {
    hide Next;
    if i == 0 {
      assert forall k: nat :: Times(run[0].log, k) == [];
    } else {
      RunInv(run, calls, i - 1);
      StepInv(run[i - 1], run[i], calls[i - 1]);
    }
  }

  /** On any clock, each chunk is transmitted at most 11 times, and each time 500 ms by the code's own
      measure after the time before. */
  lemma RetryCap(run: seq<History>, calls: seq<Call>, i: nat, k: nat)
    requires IsRun(run, calls) && i < |run|
    ensures |Times(run[i].log, k)| <= 11
    ensures Spaced(Times(run[i].log, k))
  {
    RunInv(run, calls, i);
    assert ChunkOk(run[i], k);
  }

  /** That measure is plain time wherever the clock has not gone back in between. */
  lemma PlainSpacing(run: seq<History>, calls: seq<Call>, i: nat, k: nat, j: nat)
    requires IsRun(run, calls) && i < |run| && j + 1 < |Times(run[i].log, k)|
    requires Times(run[i].log, k)[j] <= Times(run[i].log, k)[j + 1]
    ensures Times(run[i].log, k)[j] + TIMEOUT_MS <= Times(run[i].log, k)[j + 1]
  {
    RetryCap(run, calls, i, k);
  }

  /** When a chunk is overdue: 500 ms on, or as soon as the clock has gone back, unless by nearly 2^64. */
  lemma ExpiredExactly(s: Sender, k: nat, now: Word64)
    requires k in s.timers
    ensures var t := s.timers[k].sentAt;
            Expired(s, k, now) <==> t + TIMEOUT_MS <= now || now < t <= now + TWO_64 - TIMEOUT_MS
  {
  }

  lemma OverdueAtOnce(s: Sender, now: Word64)
    requires s.Valid() && 0 in s.timers && s.timers[0].retries < MAX_RETRIES
    requires now < s.timers[0].sentAt <= now + TIMEOUT_MS
    ensures 0 in Resent(s, now)
  {
    hide CheckTimeouts, Resent;
    ResentMeans(s, now, 0);
    ExpiredExactly(s, 0, now);
    assert StopAt(s, now) != 0;
  }

  /** A clock that goes back by one millisecond: the chunk sent at 1 is sent again at 0. */
  lemma BackwardReading(file: seq<Byte>) returns (run: seq<History>, calls: seq<Call>)
    requires 0 < |file| <= CHUNK_SIZE
    ensures IsRun(run, calls) && |run| == 3 && run[0].s.file == file
    ensures Times(run[2].log, 0) == [1, 0]
  {
    hide SendWindow, CheckTimeouts, Resent, InitialSender, Times;
    OneChunkSent(file, 1);
    var a := History(InitialSender(file), [], 1);
    var s := SendWindow(a.s, 1);
    OverdueAtOnce(s, 0);
    var b := History(s, [] + Logged(Range(0, s.nextSeq), 1), 1);
    var c := History(CheckTimeouts(s, 0), b.log + Logged(Resent(s, 0), 0), 0);
    run, calls := [a, b, c], [SendCall(1), TimeoutCall(0)];
    assert a.s.file == file by { InitialFile(file); }
    assert Next(a, b, SendCall(1));
    assert Next(b, c, TimeoutCall(0));
    TimesLogged([], Range(0, s.nextSeq), 1, 0);
    TimesLogged(b.log, Resent(s, 0), 0, 0);
    assert Times([], 0) == [] by { NoTimes(0); }
  }

  lemma InitialFile(file: seq<Byte>)
    requires |file| < TWO_32
    ensures InitialSender(file).file == file
  {
  }

  lemma NoTimes(k: nat)
    ensures Times([], k) == []
  {
  }

  /** Once acknowledged, a chunk stays acknowledged and is never sent again. */
  lemma {:induction false} NeverResentAfterAck(run: seq<History>, calls: seq<Call>, i: nat, j: nat, k: nat)
    requires IsRun(run, calls) && i <= j < |run| && k in run[i].s.acked
    ensures k in run[j].s.acked && Times(run[j].log, k) == Times(run[i].log, k)
  {
    hide Next, Times;
    if i < j {
      NeverResentAfterAck(run, calls, i, j - 1, k);
      AckedNotSent(run[j - 1], run[j], calls[j - 1], k);
    }
  }

  lemma AckedNotSent(c: History, d: History, call: Call, k: nat)
    requires Next(c, d, call) && k in c.s.acked
    ensures k in d.s.acked && Times(d.log, k) == Times(c.log, k)
  {
    match call
    case AckCall(p) =>
    case SendCall(now) =>
      TimesLogged(c.log, Range(c.s.nextSeq, d.s.nextSeq), now, k);
    case TimeoutCall(now) =>
      TimesLogged(c.log, Resent(c.s, now), now, k);
      assert !Expired(c.s, k, now);
  }

  /** The readings of the clock never go back. */
  ghost predicate Forward(run: seq<History>, calls: seq<Call>)
    requires |run| == |calls| + 1
  {
    forall i :: 0 <= i < |calls| ==> run[i].clock <= run[i + 1].clock
  }

  /** No transmission is later than the next one, or than now. */
  ghost predicate InOrder(c: History, k: nat) {
    var ts := Times(c.log, k);
    && (forall i :: 0 <= i < |ts| ==> ts[i] <= c.clock)
    && (forall i :: 0 <= i < |ts| - 1 ==> ts[i] <= ts[i + 1])
  }

  lemma StepInOrder(c: History, d: History, call: Call, k: nat)
    requires Next(c, d, call) && c.clock <= d.clock && InOrder(c, k)
    ensures InOrder(d, k)
  {
    hide Times, SendWindow, CheckTimeouts, Resent, HandleAck;
    match call
    case AckCall(p) =>
    case SendCall(now) => TimesLogged(c.log, Range(c.s.nextSeq, d.s.nextSeq), now, k);
    case TimeoutCall(now) => TimesLogged(c.log, Resent(c.s, now), now, k);
  }

  lemma {:induction false} RunInOrder(run: seq<History>, calls: seq<Call>, i: nat, k: nat)
    requires IsRun(run, calls) && Forward(run, calls) && i < |run|
    ensures InOrder(run[i], k)
  {
    hide Next;
    if i > 0 {
      RunInOrder(run, calls, i - 1, k);
      StepInOrder(run[i - 1], run[i], calls[i - 1], k);
    }
  }

  /** Times in order and 500 ms apart spread out. */
  lemma {:induction false} Spread(ts: seq<Word64>)
    requires ts != [] && forall i :: 0 <= i < |ts| - 1 ==> ts[i] + TIMEOUT_MS <= ts[i + 1]
    ensures ts[|ts| - 1] - ts[0] >= TIMEOUT_MS * (|ts| - 1)
  {
    if |ts| > 1 {
      Spread(ts[..|ts| - 1]);
      assert ts[|ts| - 2] + TIMEOUT_MS <= ts[|ts| - 1];
    }
  }

  /** Chunk `k` is unacknowledged, has used all its transmissions, and the last one has timed out. */
  ghost predicate SpentAt(c: History, k: nat, now: Word64) {
    var ts := Times(c.log, k);
    && k < c.s.nextSeq && k !in c.s.acked
    && |ts| == MAX_RETRIES + 1
    && Elapsed(now, ts[MAX_RETRIES]) >= TIMEOUT_MS
  }

  lemma SpentMeans(c: History, now: Word64)
    requires Inv(c)
    ensures forall k: nat :: Exhausted(c.s, k, now) <==> SpentAt(c, k, now)
    ensures GivesUp(c.s, now) <==> exists k: nat :: SpentAt(c, k, now)
  {
    forall k: nat ensures Exhausted(c.s, k, now) <==> SpentAt(c, k, now) {
      assert ChunkOk(c, k);
    }
  }

  lemma SpentLate(c: History, k: nat, now: Word64)
    requires Inv(c) && InOrder(c, k) && c.clock <= now && SpentAt(c, k, now)
    ensures now - Times(c.log, k)[0] >= 5500
  {
    assert ChunkOk(c, k);
    Spread(Times(c.log, k));
  }

  /** On any clock, the timeout check gives up exactly when some chunk has been sent 11 times without an
      ACK and the last time was 500 ms ago by the code's measure. */
  lemma GivesUpExactly(run: seq<History>, calls: seq<Call>, i: nat, now: Word64)
    requires IsRun(run, calls) && i < |run|
    ensures run[i].s.Valid()
    ensures GivesUp(run[i].s, now) <==> exists k: nat :: SpentAt(run[i], k, now)
  {
    RunInv(run, calls, i);
    SpentMeans(run[i], now);
  }

  /** If the clock has not gone back, the first of those transmissions was at least 5500 ms ago. */
  lemma GivesUpLate(run: seq<History>, calls: seq<Call>, i: nat, k: nat, now: Word64)
    requires IsRun(run, calls) && Forward(run, calls) && i < |run| && run[i].clock <= now
    requires SpentAt(run[i], k, now)
    ensures now - Times(run[i].log, k)[0] >= 5500
  {
    RunInv(run, calls, i);
    RunInOrder(run, calls, i, k);
    SpentLate(run[i], k, now);
  }

  /** The transmissions of all chunks below `n`. */
  ghost function Total(log: seq<Transmission>, n: nat): nat {
    if n == 0 then 0 else Total(log, n - 1) + |Times(log, n - 1)|
  }

  lemma {:induction false} TotalAppend(log: seq<Transmission>, x: Transmission, n: nat)
    ensures Total(log + [x], n) == Total(log, n) + if x.seqNum < n then 1 else 0
  {
    if n > 0 {
      TotalAppend(log, x, n - 1);
      TimesAppend(log, x, n - 1);
    }
  }

  lemma {:induction false} TotalIsLength(log: seq<Transmission>, n: nat)
    requires forall k: nat :: n <= k ==> Times(log, k) == []
    ensures Total(log, n) == |log|
  {
    if log == [] {
      TotalEmpty(n);
    } else {
      var init, x := log[..|log| - 1], log[|log| - 1];
      assert log == init + [x];
      forall k: nat ensures Times(log, k) == Times(init, k) + if x.seqNum == k then [x.at] else [] {
        TimesAppend(init, x, k);
      }
      assert x.seqNum < n by { assert Times(log, x.seqNum) != []; }
      TotalIsLength(init, n);
      TotalAppend(init, x, n);
    }
  }

  lemma {:induction false} TotalEmpty(n: nat)
    ensures Total([], n) == 0
  {
    if n > 0 {
      TotalEmpty(n - 1);
    }
  }

  lemma {:induction false} TotalBound(log: seq<Transmission>, n: nat)
    requires forall k: nat :: |Times(log, k)| <= MAX_RETRIES + 1
    ensures Total(log, n) <= (MAX_RETRIES + 1) * n
  {
    if n > 0 {
      TotalBound(log, n - 1);
    }
  }

  /** A transfer makes at most 11 transmissions per chunk begun, so `int` counters cannot overflow in one. */
  lemma TransmissionsBounded(run: seq<History>, calls: seq<Call>, i: nat)
    requires IsRun(run, calls) && i < |run|
    ensures |run[i].log| <= (MAX_RETRIES + 1) * run[i].s.nextSeq < 0x8000_0000
  {
    hide Times, Next, IsRun, Total;
    RunInv(run, calls, i);
    var c := run[i];
    forall k: nat ensures |Times(c.log, k)| <= MAX_RETRIES + 1 && (c.s.nextSeq <= k ==> Times(c.log, k) == []) {
      assert ChunkOk(c, k);
    }
    TotalIsLength(c.log, c.s.nextSeq);
    TotalBound(c.log, c.s.nextSeq);
  }
}
