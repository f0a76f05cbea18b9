/** What the sender does, said without a ring: a set of acknowledged chunks, a next chunk, and a
    timer for every chunk sent and not acknowledged. */
module SenderSpec {
  import opened Protocol
  import opened Packets
  import opened Chunking
  import opened Windows

  datatype Timer = Timer(sentAt: Word64, retries: nat)

  datatype Sender = Sender(file: seq<Byte>, numChunks: nat, nextSeq: nat, acked: set<nat>, timers: map<nat, Timer>) {

    /** The least chunk not acknowledged. */
    ghost function Base(): nat {
      Mex(acked)
    }

    ghost predicate Valid() {
      && Spans(|file|, numChunks)
      && nextSeq <= numChunks
      && Base() <= nextSeq <= Base() + WINDOW_SIZE
      && (forall k :: k in acked ==> k < nextSeq)
      && (forall k: nat :: k in timers <==> k < nextSeq && k !in acked)
      && (forall k :: k in timers ==> timers[k].retries <= MAX_RETRIES)
    }

    /** `sr_sender_is_complete` compares counters. */
    ghost predicate Complete() {
      |acked| >= numChunks
    }
  }

  ghost function InitialSender(file: seq<Byte>): (s: Sender)
    requires |file| < TWO_32
    ensures s.Valid()
  {
    MexUnique({}, 0);
    SenderCountExact(|file|);
    Sender(file, SenderChunkCount(|file|), 0, {}, map[])
  }

  /** `p` is the packet of chunk `k`, first sent or retransmitted. */
  ghost predicate IsChunkPacket(p: Packet, file: seq<Byte>, k: nat) {
    k < TWO_32 && k * CHUNK_SIZE <= |file| && IsDataPacket(p, Data(k, Chunk(file, k)))
  }

  /** `sent` is the packets of chunks `ks`, in that order. */
  ghost predicate CarriesChunks(sent: seq<Packet>, file: seq<Byte>, ks: seq<nat>) {
    && |sent| == |ks|
    && forall i :: 0 <= i < |ks| ==> IsChunkPacket(sent[i], file, ks[i])
  }

  /** The numbers `lo..hi` in order. */
  ghost function Range(lo: nat, hi: nat): (ks: seq<nat>)
    ensures |ks| == if lo <= hi then hi - lo else 0
    ensures forall i :: 0 <= i < |ks| ==> ks[i] == lo + i
    ensures forall k: nat :: k in ks <==> lo <= k < hi
  {
    if hi <= lo then [] else Range(lo, hi - 1) + [hi - 1]
  }

  lemma CarriesOneMore(sent: seq<Packet>, file: seq<Byte>, ks: seq<nat>, k: nat, p: Packet)
    requires CarriesChunks(sent, file, ks) && IsChunkPacket(p, file, k)
    ensures CarriesChunks(sent + [p], file, ks + [k])
  {
  }

  lemma CarriesNone(file: seq<Byte>, k: nat)
    ensures CarriesChunks([], file, Range(k, k))
  {
  }

  lemma RangeOneMore(sent: seq<Packet>, file: seq<Byte>, lo: nat, hi: nat, p: Packet)
    requires lo <= hi && CarriesChunks(sent, file, Range(lo, hi)) && IsChunkPacket(p, file, hi)
    ensures CarriesChunks(sent + [p], file, Range(lo, hi + 1))
  {
    CarriesOneMore(sent, file, Range(lo, hi), hi, p);
  }

  /** How far `sr_sender_send_window` may go. */
  ghost function WindowEnd(s: Sender): (n: nat)
    requires s.Valid()
    ensures s.nextSeq <= n <= s.numChunks
  {
    Min(s.Base() + WINDOW_SIZE, s.numChunks)
  }

  /** `t` is `s` once the chunks from `s.nextSeq` up to `t.nextSeq` have been started. */
  ghost predicate PartlySent(s: Sender, t: Sender, now: Word64) {
    && s.Valid() && t.Valid()
    && t.file == s.file && t.numChunks == s.numChunks && t.acked == s.acked
    && s.nextSeq <= t.nextSeq <= WindowEnd(s)
    && (forall k :: k in t.timers ==> t.timers[k] == if k < s.nextSeq then s.timers[k] else Timer(now, 0))
  }

  lemma NoneStarted(s: Sender, now: Word64)
    requires s.Valid()
    ensures PartlySent(s, s, now)
  {
  }

  lemma StartOneMore(s: Sender, m: Sender, now: Word64)
    requires PartlySent(s, m, now) && m.nextSeq < WindowEnd(s)
    ensures PartlySent(s, Started(m, now), now)
  {
  }

  /** The sender once its next chunk has been started. */
  ghost function Started(s: Sender, now: Word64): Sender {
    s.(nextSeq := s.nextSeq + 1, timers := s.timers[s.nextSeq := Timer(now, 0)])
  }

  ghost function SendWindow(s: Sender, now: Word64): (t: Sender)
    requires s.Valid()
    ensures PartlySent(s, t, now) && t.nextSeq == WindowEnd(s)
  {
    SentUpTo(s, WindowEnd(s), now)
  }

  ghost function SentUpTo(s: Sender, end: nat, now: Word64): (t: Sender)
    requires s.Valid() && s.nextSeq <= end <= WindowEnd(s)
    ensures PartlySent(s, t, now) && t.nextSeq == end
  {
    if end == s.nextSeq then s
    else
      var m := SentUpTo(s, end - 1, now);
      StartOneMore(s, m, now);
      Started(m, now)
  }

  /** `PartlySent` leaves nothing open. */
  lemma SendWindowUnique(s: Sender, t: Sender, now: Word64)
    requires PartlySent(s, t, now) && t.nextSeq == WindowEnd(s)
    ensures t == SendWindow(s, now)
  {
    var u := SendWindow(s, now);
    assert t.timers.Keys == u.timers.Keys;
    assert t.timers == u.timers;
  }

  /** Sending goes on until the file or the window of 64 ends; what is new has a fresh timer, and nothing
      else changes. */
  lemma WindowFilled(s: Sender, now: Word64, k: nat)
    requires s.Valid()
    ensures var t := SendWindow(s, now);
            && (t.nextSeq == t.numChunks || t.nextSeq == s.Base() + 64)
            && t.file == s.file && t.numChunks == s.numChunks && t.acked == s.acked
            && (k in t.timers <==> k in s.timers || s.nextSeq <= k < t.nextSeq)
            && (k in s.timers ==> t.timers[k] == s.timers[k])
            && (s.nextSeq <= k < t.nextSeq ==> t.timers[k] == Timer(now, 0))
  {
  }

  /** An ACK counts if it names any chunk that was sent; repeated ones change nothing. */
  ghost function HandleAck(s: Sender, p: Packet): (t: Sender)
    requires s.Valid()
    ensures t.Valid()
  {
    match ParseAck(p)
    case None => s
    case Some(ackNum) => Acknowledge(s, ackNum)
  }

  ghost function Acknowledge(s: Sender, k: nat): (t: Sender)
    requires s.Valid()
    ensures t.Valid() && t.nextSeq == s.nextSeq && s.Base() <= t.Base()
  {
    if k < s.nextSeq then
      MexMonotone(s.acked, s.acked + {k});
      assert Mex(s.acked + {k}) <= s.nextSeq by { assert s.nextSeq !in s.acked + {k}; }
      s.(acked := s.acked + {k}, timers := s.timers - {k})
    else s
  }

  lemma AckMeans(s: Sender, hdr: Packet)
    requires s.Valid() && |hdr| >= HEADER_SIZE
    ensures HandleAck(s, hdr) == if hdr[0] == UDP_ACK then Acknowledge(s, Load32(hdr, 8)) else s
  {
  }

  /** An ACK for a chunk already acknowledged, or never sent, is without effect. */
  lemma AckIgnored(s: Sender, k: nat)
    requires s.Valid() && (k in s.acked || s.nextSeq <= k)
    ensures Acknowledge(s, k) == s
  {
    if k < s.nextSeq {
      assert s.acked + {k} == s.acked;
      assert s.timers - {k} == s.timers;
    }
  }

  /** The `uint64_t` difference: a clock that ran backwards looks like a very long wait. */
  function Elapsed(now: Word64, sentAt: Word64): Word64 {
    if sentAt <= now then now - sentAt else TWO_64 + now - sentAt
  }

  lemma ElapsedIsDifference(now: Word64, sentAt: Word64)
    ensures Elapsed(now, sentAt) == U64(now - sentAt)
  {
  }

  ghost predicate Expired(s: Sender, k: nat, now: Word64) {
    k in s.timers && Elapsed(now, s.timers[k].sentAt) >= TIMEOUT_MS
  }

  ghost predicate Exhausted(s: Sender, k: nat, now: Word64) {
    Expired(s, k, now) && s.timers[k].retries >= MAX_RETRIES
  }

  /** The chunk at which the scan gives up, or `nextSeq` if it does not. */
  ghost function StopFrom(s: Sender, from: nat, now: Word64): (n: nat)
    requires from <= s.nextSeq
    ensures from <= n <= s.nextSeq
    ensures n < s.nextSeq ==> Exhausted(s, n, now)
    ensures forall k :: from <= k < n ==> !Exhausted(s, k, now)
    decreases s.nextSeq - from
  {
    if from == s.nextSeq || Exhausted(s, from, now) then from else StopFrom(s, from + 1, now)
  }

  ghost function StopAt(s: Sender, now: Word64): (n: nat)
    requires s.Valid()
    ensures s.Base() <= n <= s.nextSeq
    ensures n < s.nextSeq ==> Exhausted(s, n, now)
    ensures forall k :: 0 <= k < n ==> !Exhausted(s, k, now)
  {
    StopFrom(s, s.Base(), now)
  }

  /** The chunks in `lo..hi` whose timer has run out, in order. */
  ghost function Overdue(s: Sender, lo: nat, hi: nat, now: Word64): (ks: seq<nat>)
    ensures forall k: nat :: k in ks <==> lo <= k < hi && Expired(s, k, now)
    ensures forall i, j :: 0 <= i < j < |ks| ==> ks[i] < ks[j]
  {
    if hi <= lo then []
    else
      var rest := Overdue(s, lo, hi - 1, now);
      assert forall i :: 0 <= i < |rest| ==> rest[i] in rest;
      rest + if Expired(s, hi - 1, now) then [hi - 1] else []
  }

  /** The timers once the scan has passed every chunk below `upto`. */
  ghost function Rearmed(s: Sender, upto: nat, now: Word64): Sender {
    s.(timers := map k | k in s.timers ::
      if k < upto && Expired(s, k, now) then Timer(now, s.timers[k].retries + 1) else s.timers[k])
  }

  /** `sr_sender_check_timeouts`: the chunks it resends before it ends or gives up. */
  ghost function Resent(s: Sender, now: Word64): (ks: seq<nat>)
    requires s.Valid()
    ensures forall i, j :: 0 <= i < j < |ks| ==> ks[i] < ks[j]
  {
    Overdue(s, s.Base(), StopAt(s, now), now)
  }

  ghost function CheckTimeouts(s: Sender, now: Word64): (t: Sender)
    requires s.Valid()
    ensures t.Valid() && t == s.(timers := t.timers)
  {
    var stop := StopAt(s, now);
    var t := Rearmed(s, stop, now);
    assert t.timers.Keys == s.timers.Keys;
    assert forall k :: k in t.timers && k < stop && Expired(s, k, now) ==> !Exhausted(s, k, now);
    t
  }

  /** A chunk is resent exactly when its timer has run out before the scan stops; its timer is then
      restarted, and no other timer changes. */
  lemma ResentMeans(s: Sender, now: Word64, k: nat)
    requires s.Valid()
    ensures var t := CheckTimeouts(s, now);
            && (k in Resent(s, now) <==> k < StopAt(s, now) && Expired(s, k, now))
            && (k in t.timers <==> k in s.timers)
            && (k in Resent(s, now) ==>
                  && k in s.timers && s.timers[k].retries < MAX_RETRIES
                  && t.timers[k] == Timer(now, s.timers[k].retries + 1))
            && (k in s.timers && k !in Resent(s, now) ==> t.timers[k] == s.timers[k])
  {
    assert Expired(s, k, now) ==> s.Base() <= k;
    assert k < StopAt(s, now) ==> !Exhausted(s, k, now);
  }

  /** The timeout is 500 ms and there are ten retries: a chunk sent at `t` is left alone until `t + 499`; at
      `t + 500` it is resent if it has been resent fewer than ten times, unless the check stops before it, and
      otherwise the check gives up. */
  lemma TimeoutIs500(s: Sender, k: nat, t: Word64)
    requires s.Valid() && k in s.timers && s.timers[k].sentAt == t && t + 500 < TWO_64
    ensures forall now: Word64 :: t <= now <= t + 499 ==> k !in Resent(s, now)
    ensures s.timers[k].retries < 10 ==>
              (k in Resent(s, t + 500) <==>
               forall j :: j in s.timers && j < k && s.timers[j].retries == 10 ==>
                 Elapsed(t + 500, s.timers[j].sentAt) < 500)
    ensures s.timers[k].retries == 10 ==> GivesUp(s, t + 500) && k !in Resent(s, t + 500)
    ensures s.timers[k].retries <= 10
  {
    hide CheckTimeouts, Resent;
    forall now: Word64 | t <= now <= t + 499 ensures k !in Resent(s, now) {
      ResentMeans(s, now, k);
    }
    ResentMeans(s, t + 500, k);
    var stop := StopAt(s, t + 500);
    assert Expired(s, k, t + 500);
    assert s.timers[k].retries == 10 ==> Exhausted(s, k, t + 500);
    if stop < k {
      assert Exhausted(s, stop, t + 500);
    } else {
      forall j | j in s.timers && j < k && s.timers[j].retries == 10
        ensures Elapsed(t + 500, s.timers[j].sentAt) < 500
      {
        assert !Exhausted(s, j, t + 500);
      }
    }
  }

  /** It returns -1 exactly when some chunk has run out of retries. */
  ghost predicate GivesUp(s: Sender, now: Word64)
    requires s.Valid()
    ensures GivesUp(s, now) <==> exists k :: Exhausted(s, k, now)
  {
    assert forall k :: Exhausted(s, k, now) ==> k in s.timers;
    StopAt(s, now) < s.nextSeq
  }

  /** `m` is `s` once the scan has passed every chunk below `upto` without giving up. */
  ghost predicate Scanned(s: Sender, m: Sender, upto: nat, now: Word64) {
    && s.Valid() && m.Valid()
    && s.Base() <= upto <= s.nextSeq
    && m == s.(timers := m.timers)
    && (forall k :: k in m.timers ==>
          m.timers[k] == if k < upto && Expired(s, k, now) then Timer(now, s.timers[k].retries + 1) else s.timers[k])
    && (forall k :: 0 <= k < upto ==> !Exhausted(s, k, now))
  }

  lemma ScanSkip(s: Sender, m: Sender, k: nat, now: Word64)
    requires Scanned(s, m, k, now) && k < s.nextSeq && !Expired(s, k, now)
    ensures Scanned(s, m, k + 1, now)
    ensures Overdue(s, s.Base(), k + 1, now) == Overdue(s, s.Base(), k, now)
  {
  }

  lemma ScanHit(s: Sender, m: Sender, k: nat, now: Word64)
    requires Scanned(s, m, k, now) && k < s.nextSeq && Expired(s, k, now) && !Exhausted(s, k, now)
    ensures k in m.timers && m.timers[k].retries < MAX_RETRIES && Scanned(s, Retimed(m, k, now), k + 1, now)
    ensures Overdue(s, s.Base(), k + 1, now) == Overdue(s, s.Base(), k, now) + [k]
  {
    assert m.timers[k] == s.timers[k];
  }

  ghost function Retimed(m: Sender, k: nat, now: Word64): (t: Sender)
    requires m.Valid() && k in m.timers && m.timers[k].retries < MAX_RETRIES
    ensures t.Valid() && t == m.(timers := t.timers)
  {
    m.(timers := m.timers[k := Timer(now, m.timers[k].retries + 1)])
  }

  /** Where the scan ends, it has done what `CheckTimeouts` says. */
  lemma ScanStops(s: Sender, m: Sender, k: nat, now: Word64)
    requires Scanned(s, m, k, now) && (k < s.nextSeq ==> Exhausted(s, k, now))
    ensures m == CheckTimeouts(s, now)
    ensures Resent(s, now) == Overdue(s, s.Base(), k, now)
    ensures GivesUp(s, now) <==> k < s.nextSeq
  {
    var n := StopAt(s, now);
    assert n == k by {
      assert n < k ==> n < s.nextSeq;
      assert k < n ==> !Exhausted(s, k, now);
    }
    var t := CheckTimeouts(s, now);
    assert m.timers.Keys == t.timers.Keys;
    assert m.timers == t.timers;
  }

  /** What a call of `sr_sender_send_window` at time `now` does: the new state and the packets sent. */
  ghost predicate WindowSent(s: Sender, t: Sender, now: Word64, sent: seq<Packet>) {
    s.Valid() && t == SendWindow(s, now) && CarriesChunks(sent, s.file, Range(s.nextSeq, t.nextSeq))
  }

  /** What a call of `sr_sender_check_timeouts` at time `now` does, and what it returns. */
  ghost predicate TimeoutsChecked(s: Sender, t: Sender, now: Word64, sent: seq<Packet>, res: int) {
    && s.Valid()
    && t == CheckTimeouts(s, now)
    && CarriesChunks(sent, s.file, Resent(s, now))
    && res == if GivesUp(s, now) then -1 else |sent|
  }

  /** What goes out, as a receiver reads it: from `sr_sender_send_window` each new chunk once, in order. */
  lemma WindowReads(s: Sender, t: Sender, now: Word64, sent: seq<Packet>, i: nat)
    requires WindowSent(s, t, now, sent)
    ensures |sent| == t.nextSeq - s.nextSeq
    ensures i < |sent| ==>
              && (s.nextSeq + i) * 1024 <= |s.file|
              && ParseData(sent[i]) == Some(Data(s.nextSeq + i, Chunk(s.file, s.nextSeq + i)))
  {
    hide ParseData, SendWindow;
    if i < |sent| {
      assert IsChunkPacket(sent[i], s.file, s.nextSeq + i);
      DataRoundTrip(sent[i], Data(s.nextSeq + i, Chunk(s.file, s.nextSeq + i)));
    }
  }

  /** And from `sr_sender_check_timeouts` each chunk whose timer it restarts, once and in order; it returns
      their number, or -1 if some chunk is overdue after ten retries. */
  lemma TimeoutReads(s: Sender, t: Sender, now: Word64, sent: seq<Packet>, res: int, k: nat)
    requires TimeoutsChecked(s, t, now, sent, res)
    ensures forall i :: 0 <= i < |sent| ==> ParseData(sent[i]).Some?
    ensures forall i, j :: 0 <= i < j < |sent| ==> ParseData(sent[i]).value.seqNum < ParseData(sent[j]).value.seqNum
    ensures (exists i :: 0 <= i < |sent| && ParseData(sent[i]).value.seqNum == k) <==>
            k in s.timers && k in t.timers && t.timers[k] == Timer(now, s.timers[k].retries + 1)
    ensures forall i :: 0 <= i < |sent| && ParseData(sent[i]).value.seqNum == k ==>
              k * 1024 <= |s.file| && ParseData(sent[i]).value.payload == Chunk(s.file, k)
    ensures res == -1 <==> exists j :: OutOfRetries(s, j, now)
    ensures res == -1 || res == |sent|
  {
    hide ParseData, CheckTimeouts, Resent, IsDataPacket, Chunk, Sender.Valid;
    var ks := Resent(s, now);
    forall i | 0 <= i < |sent|
      ensures ks[i] * 1024 <= |s.file| && ParseData(sent[i]) == Some(Data(ks[i], Chunk(s.file, ks[i])))
    {
      assert IsChunkPacket(sent[i], s.file, ks[i]);
      DataRoundTrip(sent[i], Data(ks[i], Chunk(s.file, ks[i])));
    }
    ResentMeans(s, now, k);
    assert k in ks <==> exists i :: 0 <= i < |ks| && ks[i] == k;
    GivesUpMeans(s, now);
  }

  /** Chunk `j` is unacknowledged, has been resent ten times, and 500 ms have passed since. */
  ghost predicate OutOfRetries(s: Sender, j: nat, now: Word64) {
    j in s.timers && s.timers[j].retries == 10 && Elapsed(now, s.timers[j].sentAt) >= 500
  }

  lemma GivesUpMeans(s: Sender, now: Word64)
    requires s.Valid()
    ensures GivesUp(s, now) <==> exists j :: OutOfRetries(s, j, now)
  {
    assert forall j: nat :: Exhausted(s, j, now) <==> OutOfRetries(s, j, now);
  }

  /** The counter test is the window test: complete means that the base has reached the end. */
  lemma CompleteIffBase(s: Sender)
    requires s.Valid()
    ensures s.Complete() <==> s.Base() == s.numChunks
    ensures s.Complete() <==> s.acked == Below(s.numChunks)
  {
    assert s.acked <= Below(s.numChunks);
    FullSet(s.acked, s.numChunks);
  }

  /** A one-chunk file after its window has been sent. */
  lemma OneChunkSent(file: seq<Byte>, now: Word64)
    requires 0 < |file| <= CHUNK_SIZE
    ensures var s := SendWindow(InitialSender(file), now);
            && s.Valid() && s.numChunks == s.nextSeq == 1 && s.Base() == 0 && s.acked == {}
            && 0 in s.timers && s.timers[0] == Timer(now, 0)
    ensures InitialSender(file).nextSeq == 0
  {
    MexUnique({}, 0);
  }
}
