/** The sender as it is written: a 64-slot ring updated in place. Each method is proved against the
    ring-free sender of `SenderSpec`. */
module SenderRing {
  import opened Protocol
  import opened Packets
  import opened Chunking
  import opened Windows
  import opened SenderSpec

  datatype SlotState = Empty | Pending | Acked

  datatype SendSlot = SendSlot(state: SlotState, seqNum: Word32, data: seq<Byte>, sentAt: Word64, retries: nat)

  const EMPTY_SLOT := SendSlot(Empty, 0, [], 0, 0)

  /** `slot` is exactly what a ring must hold for chunk `k`: nothing before the chunk is sent, then
      the chunk with its timer, then the chunk marked acknowledged. */
  ghost predicate Stores(slot: SendSlot, s: Sender, k: nat) {
    if k < s.nextSeq then
      && slot.seqNum == k
      && k * CHUNK_SIZE <= |s.file| && slot.data == Chunk(s.file, k)
      && (if k in s.acked then slot.state == Acked
          else slot.state == Pending && k in s.timers && s.timers[k] == Timer(slot.sentAt, slot.retries))
    else slot.state == Empty
  }

  /** The ring stores the 64 chunks from `base` on. */
  ghost predicate RingOk(s: Sender, base: nat, w: seq<SendSlot>) {
    |w| == WINDOW_SIZE && forall k :: base <= k < base + WINDOW_SIZE ==> Stores(w[Slot(k)], s, k)
  }

  /** To change chunk `k` of the model and only its slot in the ring is to stay in step. */
  lemma WriteSlot(s: Sender, t: Sender, base: nat, w: seq<SendSlot>, k: nat, slot: SendSlot)
    requires RingOk(s, base, w) && base <= k < base + WINDOW_SIZE
    requires Stores(slot, t, k)
    requires forall j, other :: base <= j < base + WINDOW_SIZE && j != k && Stores(other, s, j) ==> Stores(other, t, j)
    ensures RingOk(t, base, w[Slot(k) := slot])
  {
    var v := w[Slot(k) := slot];
    forall j | base <= j < base + WINDOW_SIZE ensures Stores(v[Slot(j)], t, j) {
      SlotsDistinct(base, j, k);
    }
  }

  /** The next chunk goes into the slot that was empty for it. */
  lemma StartOne(m: Sender, base: nat, w: seq<SendSlot>, slot: SendSlot, now: Word64)
    requires m.Valid() && base == m.Base() && RingOk(m, base, w) && m.nextSeq < WindowEnd(m)
    requires m.nextSeq * CHUNK_SIZE <= |m.file|
    requires slot == SendSlot(Pending, m.nextSeq, Chunk(m.file, m.nextSeq), now, 0)
    ensures RingOk(Started(m, now), base, w[Slot(m.nextSeq) := slot])
  {
    WriteSlot(m, Started(m, now), base, w, m.nextSeq, slot);
  }

  /** Freeing the base slot once its chunk is acknowledged lets the window move by one. */
  lemma SlideOne(s: Sender, base: nat, w: seq<SendSlot>)
    requires RingOk(s, base, w) && s.nextSeq <= base + WINDOW_SIZE
    ensures RingOk(s, base + 1, w[Slot(base) := w[Slot(base)].(state := Empty)])
  {
    var v := w[Slot(base) := w[Slot(base)].(state := Empty)];
    forall j | base + 1 <= j < base + 1 + WINDOW_SIZE ensures Stores(v[Slot(j)], s, j) {
      if j == base + WINDOW_SIZE {
        SlotsDistinct(base, base, base);
      } else {
        SlotsDistinct(base, j, base);
      }
    }
  }

  /** A slot's state says where its chunk stands. */
  lemma SlotMeaning(s: Sender, base: nat, w: seq<SendSlot>, k: nat)
    requires s.Valid() && RingOk(s, base, w) && base <= k < base + WINDOW_SIZE
    ensures w[Slot(k)].state == Empty <==> k >= s.nextSeq
    ensures w[Slot(k)].state == Acked <==> k in s.acked
    ensures w[Slot(k)].state == Pending <==> k in s.timers
    ensures w[Slot(k)].state != Empty ==>
              w[Slot(k)].seqNum == k && k * CHUNK_SIZE <= |s.file| && w[Slot(k)].data == Chunk(s.file, k)
    ensures k in s.timers ==> s.timers[k] == Timer(w[Slot(k)].sentAt, w[Slot(k)].retries)
  {
    assert Stores(w[Slot(k)], s, k);
  }

  /** The slot of a chunk the scan has not reached still holds the timer the scan began with. */
  lemma SlotTimer(s: Sender, m: Sender, base: nat, w: seq<SendSlot>, k: nat, now: Word64)
    requires Scanned(s, m, k, now) && base == s.Base() && RingOk(m, base, w) && k < s.nextSeq
    ensures w[Slot(k)].seqNum == k
    ensures Expired(s, k, now) <==> w[Slot(k)].state == Pending && Elapsed(now, w[Slot(k)].sentAt) >= TIMEOUT_MS
    ensures Exhausted(s, k, now) <==> Expired(s, k, now) && w[Slot(k)].retries >= MAX_RETRIES
  {
    SlotMeaning(m, base, w, k);
    assert Stores(w[Slot(k)], m, k);
  }

  /** The scan has passed every chunk below `k` and resent what was overdue, as `sent`. */
  ghost predicate ScannedAs(s: Sender, m: Sender, k: nat, now: Word64, sent: seq<Packet>) {
    Scanned(s, m, k, now) && CarriesChunks(sent, s.file, Overdue(s, s.Base(), k, now))
  }

  lemma ScanStart(s: Sender, now: Word64)
    requires s.Valid()
    ensures ScannedAs(s, s, s.Base(), now, [])
  {
  }

  lemma ScanPasses(s: Sender, m: Sender, k: nat, now: Word64, sent: seq<Packet>)
    requires ScannedAs(s, m, k, now, sent) && k < s.nextSeq && !Expired(s, k, now)
    ensures ScannedAs(s, m, k + 1, now, sent)
  {
    ScanSkip(s, m, k, now);
  }

  lemma ScanResends(s: Sender, m: Sender, k: nat, now: Word64, sent: seq<Packet>, p: Packet)
    requires ScannedAs(s, m, k, now, sent) && k < s.nextSeq && Expired(s, k, now) && !Exhausted(s, k, now)
    requires IsChunkPacket(p, s.file, k)
    ensures m.Valid() && k in m.timers && m.timers[k].retries < MAX_RETRIES
    ensures ScannedAs(s, Retimed(m, k, now), k + 1, now, sent + [p])
  {
    hide IsChunkPacket;
    ScanHit(s, m, k, now);
    CarriesOneMore(sent, s.file, Overdue(s, s.Base(), k, now), k, p);
  }

  lemma ScanEnd(s: Sender, m: Sender, k: nat, now: Word64, sent: seq<Packet>)
    requires ScannedAs(s, m, k, now, sent) && (k < s.nextSeq ==> Exhausted(s, k, now))
    ensures TimeoutsChecked(s, m, now, sent, if k < s.nextSeq then -1 else |sent|)
  {
    ScanStops(s, m, k, now);
  }

  /** Chunks acknowledged are those before the base plus the slots marked acknowledged. */
  lemma AckedSlotsCount(s: Sender, w: seq<SendSlot>, slots: set<nat>)
    requires s.Valid() && RingOk(s, s.Base(), w)
    requires forall i: nat :: i in slots <==> i < WINDOW_SIZE && w[i].state == Acked
    ensures |s.acked| == s.Base() + |slots|
  {
    var base := s.Base();
    var ahead := set k | k in s.acked && base <= k;
    forall k: nat ensures k in ahead <==> base <= k < base + WINDOW_SIZE && Slot(k) in slots {
      if base <= k < base + WINDOW_SIZE {
        SlotMeaning(s, base, w, k);
      }
    }
    RingCount(base, slots, ahead);
    SplitAt(s.acked, base, ahead);
  }

  /** What the object's fields say of the sender it stands for, before the window has been moved up. */
  ghost predicate Matches(m: Sender, file: seq<Byte>, numChunks: nat, base: nat, nextSeq: nat, w: seq<SendSlot>) {
    && m.Valid() && m.file == file && m.numChunks == numChunks
    && base <= m.Base()
    && nextSeq == m.nextSeq <= base + WINDOW_SIZE
    && RingOk(m, base, w)
  }

  lemma Facts(m: Sender, file: seq<Byte>, numChunks: nat, base: nat, nextSeq: nat, w: seq<SendSlot>)
    requires Matches(m, file, numChunks, base, nextSeq, w)
    ensures m.Valid() && m.file == file && m.numChunks == numChunks && m.nextSeq == nextSeq
    ensures base <= m.Base() <= nextSeq <= numChunks && |w| == WINDOW_SIZE
    ensures Spans(|file|, numChunks) && U32(base + WINDOW_SIZE) == base + WINDOW_SIZE
    ensures base < numChunks ==> (w[Slot(base)].state == Acked <==> base < m.Base())
  {
    hide Stores;
    SlotMeaning(m, base, w, base);
  }

  /** Within the window, a pending slot is a chunk sent and not acknowledged, and its number matches. */
  lemma PendingMeans(m: Sender, file: seq<Byte>, numChunks: nat, base: nat, nextSeq: nat, w: seq<SendSlot>, k: nat)
    requires Matches(m, file, numChunks, base, nextSeq, w) && base <= k < base + WINDOW_SIZE
    ensures |w| == WINDOW_SIZE
    ensures w[Slot(k)].state == Pending <==> k < nextSeq && k !in m.acked
    ensures w[Slot(k)].state == Pending ==> w[Slot(k)].seqNum == k
  {
    hide Stores;
    SlotMeaning(m, base, w, k);
  }

  lemma ScanFacts(s: Sender, m: Sender, file: seq<Byte>, numChunks: nat, base: nat, nextSeq: nat, w: seq<SendSlot>,
                  k: nat, now: Word64, sent: seq<Packet>)
    requires Matches(m, file, numChunks, base, nextSeq, w) && base == m.Base()
    requires ScannedAs(s, m, k, now, sent) && base <= k < nextSeq
    ensures m.Valid()
    ensures Expired(s, k, now) && !Exhausted(s, k, now) ==> k in m.timers && m.timers[k].retries < MAX_RETRIES
    ensures |w| == WINDOW_SIZE && s.file == file && s.Base() == base && s.nextSeq == nextSeq
    ensures w[Slot(k)].seqNum == k
    ensures Expired(s, k, now) <==> w[Slot(k)].state == Pending && Elapsed(now, w[Slot(k)].sentAt) >= TIMEOUT_MS
    ensures Exhausted(s, k, now) <==> Expired(s, k, now) && w[Slot(k)].retries >= MAX_RETRIES
  {
    SlotTimer(s, m, base, w, k, now);
  }

  lemma MarkStep(m: Sender, file: seq<Byte>, numChunks: nat, base: nat, nextSeq: nat, w: seq<SendSlot>, k: nat)
    requires Matches(m, file, numChunks, base, nextSeq, w) && base <= k < nextSeq && w[Slot(k)].state == Pending
    ensures m.Valid() && k !in m.acked && Acknowledge(m, k).acked == m.acked + {k}
    ensures Matches(Acknowledge(m, k), file, numChunks, base, nextSeq, w[Slot(k) := w[Slot(k)].(state := Acked)])
  {
    SlotMeaning(m, base, w, k);
    WriteSlot(m, Acknowledge(m, k), base, w, k, w[Slot(k)].(state := Acked));
  }

  lemma SlideStep(m: Sender, file: seq<Byte>, numChunks: nat, base: nat, nextSeq: nat, w: seq<SendSlot>)
    requires Matches(m, file, numChunks, base, nextSeq, w) && base < m.Base()
    ensures |w| == WINDOW_SIZE
    ensures Matches(m, file, numChunks, base + 1, nextSeq, w[Slot(base) := w[Slot(base)].(state := Empty)])
  {
    hide Stores;
    SlideOne(m, base, w);
  }

  lemma RetimeStep(m: Sender, file: seq<Byte>, numChunks: nat, base: nat, nextSeq: nat, w: seq<SendSlot>, k: nat,
                   now: Word64)
    requires Matches(m, file, numChunks, base, nextSeq, w) && base <= k < nextSeq
    requires k in m.timers && m.timers[k].retries < MAX_RETRIES
    ensures |w| == WINDOW_SIZE
    ensures var slot := w[Slot(k)].(sentAt := now, retries := w[Slot(k)].retries + 1);
            Matches(Retimed(m, k, now), file, numChunks, base, nextSeq, w[Slot(k) := slot])
  {
    SlotMeaning(m, base, w, k);
    WriteSlot(m, Retimed(m, k, now), base, w, k, w[Slot(k)].(sentAt := now, retries := w[Slot(k)].retries + 1));
  }

  lemma StartStep(s: Sender, m: Sender, file: seq<Byte>, numChunks: nat, base: nat, nextSeq: nat, w: seq<SendSlot>,
                  slot: SendSlot, now: Word64)
    requires Matches(m, file, numChunks, base, nextSeq, w) && base == m.Base()
    requires PartlySent(s, m, now) && nextSeq < WindowEnd(s) && nextSeq * CHUNK_SIZE <= |file| && nextSeq < TWO_32
    requires slot == SendSlot(Pending, nextSeq, Chunk(file, nextSeq), now, 0)
    ensures |w| == WINDOW_SIZE && PartlySent(s, Started(m, now), now)
    ensures Started(m, now).acked == m.acked && Started(m, now).Base() == base && Started(m, now).nextSeq == nextSeq + 1
    ensures Matches(Started(m, now), file, numChunks, base, nextSeq + 1, w[Slot(nextSeq) := slot])
  {
    StartOneMore(s, m, now);
    StartOne(m, base, w, slot, now);
  }

  class SrSender {
    const file: seq<Byte>
    const numChunks: Word32
    const window: array<SendSlot>
    var base: Word32
    var nextSeq: Word32
    var chunksAcked: nat
    var packetsSent: nat
    var packetsRetransmitted: nat
    var acksReceived: nat

    /** The ring-free sender that this object stands for. */
    ghost var model: Sender

    ghost predicate Valid()
      reads this, window
    {
      Unslid() && base == model.Base()
    }

    /** `Valid()` before the window has been moved up. */
    ghost predicate Unslid()
      reads this, window
    {
      Matches(model, file, numChunks, base, nextSeq, window[..]) && CountersOk()
    }

    ghost predicate CountersOk()
      reads this
    {
      && chunksAcked == acksReceived == |model.acked|
      && packetsSent - packetsRetransmitted == nextSeq
    }

    /** `sr_sender_init`, with the process-wide statistics still at their initial zero. */
    constructor (file: seq<Byte>)
      requires |file| < TWO_32
      ensures Valid() && fresh(window) && model == InitialSender(file)
    {
      SenderCountExact(|file|);
      this.file := file;
      numChunks := U32(U32(|file| + CHUNK_SIZE) - 1) / CHUNK_SIZE;
      window := new SendSlot[WINDOW_SIZE](_ => EMPTY_SLOT);
      base, nextSeq, chunksAcked := 0, 0, 0;
      packetsSent, packetsRetransmitted, acksReceived := 0, 0, 0;
      model := InitialSender(file);
      MexUnique({}, 0);
    }

    /** `sr_sender_send_window` at time `now`; `sent` is what it hands to the network, in order. */
    method SendWindow(now: Word64) returns (packets: nat, sent: seq<Packet>)
      requires Valid()
      modifies this, window
      ensures Valid() && WindowSent(old(model), model, now, sent) && packets == |sent|
      ensures nextSeq == numChunks || nextSeq == base + 64
      ensures packetsSent == old(packetsSent) + packets && packetsRetransmitted == old(packetsRetransmitted)
    {
      hide IsChunkPacket, Matches, CarriesChunks, Spans, Sender.Valid, SenderSpec.SendWindow;
      Facts(model, file, numChunks, base, nextSeq, window[..]);
      ghost var s := model;
      packets, sent := 0, [];
      CarriesNone(file, nextSeq);
      NoneStarted(s, now);
      var limit := U32(base + WINDOW_SIZE);
      while nextSeq < limit && nextSeq < numChunks
        invariant Valid() && base == old(base) && packetsRetransmitted == old(packetsRetransmitted)
        invariant PartlySent(s, model, now) && nextSeq == model.nextSeq
        invariant packets == |sent| == packetsSent - old(packetsSent)
        invariant CarriesChunks(sent, file, Range(s.nextSeq, nextSeq))
        decreases numChunks - nextSeq
      {
        var free := SlotFree();
        if !free { break; }  // never taken
        ghost var k := nextSeq;
        var packet := StartNext(s, now);
        RangeOneMore(sent, file, s.nextSeq, k, packet);
        sent := sent + [packet];
        packets := packets + 1;
      }
      SendWindowUnique(s, model, now);
    }

    method SlotFree() returns (free: bool)
      requires Valid() && nextSeq < WindowEnd(model)
      ensures free
    {
      SlotMeaning(model, base, window[..], nextSeq);
      free := window[Slot(nextSeq)].state == Empty;
    }

    /** The body of that loop: send chunk `nextSeq` and keep it in its slot. */
    method StartNext(ghost s: Sender, now: Word64) returns (sent: Packet)
      requires Valid() && PartlySent(s, model, now) && nextSeq < WindowEnd(s) && nextSeq < numChunks
      modifies this, window
      ensures Valid() && PartlySent(s, model, now)
      ensures base == old(base) && nextSeq == model.nextSeq == old(nextSeq) + 1
      ensures IsChunkPacket(sent, file, old(nextSeq))
      ensures packetsSent == old(packetsSent) + 1 && packetsRetransmitted == old(packetsRetransmitted)
    {
      hide IsChunkPacket, Matches, PartlySent, Started, Chunk, WindowEnd, Sender.Valid, Spans;
      Facts(model, file, numChunks, base, nextSeq, window[..]);
      var data;
      sent, data := ChunkToSend();
      packetsSent := packetsSent + 1;
      var slot := SendSlot(Pending, nextSeq, data, now, 0);
      StartStep(s, model, file, numChunks, base, nextSeq, window[..], slot, now);
      window[Slot(nextSeq)] := slot;
      nextSeq := nextSeq + 1;
      model := Started(model, now);
    }

    /** The chunk that starts at `nextSeq`, cut out and packed in 32-bit arithmetic. */
    method ChunkToSend() returns (sent: Packet, data: seq<Byte>)
      requires Valid() && nextSeq < numChunks
      ensures nextSeq * CHUNK_SIZE <= |file| && data == Chunk(file, nextSeq)
      ensures IsChunkPacket(sent, file, nextSeq)
    {
      ChunkArithmetic(file, numChunks, nextSeq);
      var offset := U32(nextSeq * CHUNK_SIZE);
      var chunkLen := if U32(offset + CHUNK_SIZE) > |file| then U16(|file| - offset) else CHUNK_SIZE;
      data := file[offset..offset + chunkLen];
      var packet := new Byte[HEADER_SIZE + CHUNK_SIZE];
      BuildDataPacket(packet, nextSeq, data);
      sent := packet[..HEADER_SIZE + chunkLen];
    }

    /** `sr_sender_handle_ack` on the header at the front of a received packet. */
    method HandleAck(hdr: Packet)
      requires Valid() && |hdr| >= HEADER_SIZE
      modifies this, window
      ensures Valid() && model == SenderSpec.HandleAck(old(model), hdr)
      ensures packetsSent == old(packetsSent) && packetsRetransmitted == old(packetsRetransmitted)
    {
      hide Matches, SenderSpec.HandleAck, Acknowledge, Load32;
      Facts(model, file, numChunks, base, nextSeq, window[..]);
      AckMeans(model, hdr);
      var ackNum := Load32(hdr, 8);
      if ackNum < base {
        AckIgnored(model, ackNum);
        return;
      }
      if hdr[0] != UDP_ACK { return; }
      if ackNum >= U32(base + WINDOW_SIZE) || ackNum >= numChunks {
        AckIgnored(model, ackNum);
        return;
      }
      PendingMeans(model, file, numChunks, base, nextSeq, window[..], ackNum);
      if window[Slot(ackNum)].state == Pending && window[Slot(ackNum)].seqNum == ackNum {
        MarkAcked(ackNum);
      } else {
        AckIgnored(model, ackNum);
      }
      Slide();
    }

    method MarkAcked(k: Word32)
      requires Valid() && base <= k < nextSeq && window[Slot(k)].state == Pending
      modifies this`model, this`chunksAcked, this`acksReceived, window
      ensures old(model).Valid() && Unslid() && model == Acknowledge(old(model), k)
    {
      hide Matches, Acknowledge, Sender.Valid, Spans;
      Facts(model, file, numChunks, base, nextSeq, window[..]);
      MarkStep(model, file, numChunks, base, nextSeq, window[..], k);
      model := Acknowledge(model, k);
      window[Slot(k)] := window[Slot(k)].(state := Acked);
      chunksAcked := chunksAcked + 1;
      acksReceived := acksReceived + 1;
    }

    method Slide()
      requires Unslid()
      modifies this`base, window
      ensures Valid()
    {
      hide Matches;
      while base < numChunks
        invariant Unslid()
      {
        Facts(model, file, numChunks, base, nextSeq, window[..]);
        if window[Slot(base)].state != Acked { break; }
        SlideStep(model, file, numChunks, base, nextSeq, window[..]);
        window[Slot(base)] := window[Slot(base)].(state := Empty);
        base := base + 1;
      }
      Facts(model, file, numChunks, base, nextSeq, window[..]);
    }

    /** `sr_sender_check_timeouts`; `res` is -1 or the number of packets in `sent`. */
    method CheckTimeouts(now: Word64) returns (res: int, sent: seq<Packet>)
      requires Valid()
      modifies this, window
      ensures Valid() && TimeoutsChecked(old(model), model, now, sent, res)
      ensures packetsSent == old(packetsSent) + |sent|
      ensures packetsRetransmitted == old(packetsRetransmitted) + |sent|
    {
      hide Matches, Scanned, CarriesChunks, SenderSpec.CheckTimeouts, Overdue;
      Facts(model, file, numChunks, base, nextSeq, window[..]);
      ghost var s := model;
      ScanStart(s, now);
      sent := [];
      for k := base to nextSeq
        invariant Valid() && base == old(base) && nextSeq == old(nextSeq) == s.nextSeq
        invariant ScannedAs(s, model, k, now, sent)
        invariant |sent| == packetsSent - old(packetsSent) == packetsRetransmitted - old(packetsRetransmitted)
      {
        var failed;
        failed, sent := ScanSlot(s, k, now, sent);
        if failed { return -1, sent; }
      }
      ScanEnd(s, model, nextSeq, now, sent);
      res := |sent|;
    }

    /** The body of that loop, for the chunk `k` of a scan that began in `s`. */
    method ScanSlot(ghost s: Sender, k: Word32, now: Word64, sent: seq<Packet>)
        returns (failed: bool, sent': seq<Packet>)
      requires Valid() && base <= k < nextSeq && ScannedAs(s, model, k, now, sent)
      modifies this, window
      ensures Valid() && base == old(base) && nextSeq == old(nextSeq)
      ensures failed ==> sent' == sent && TimeoutsChecked(s, model, now, sent, -1)
      ensures !failed ==> ScannedAs(s, model, k + 1, now, sent')
      ensures packetsSent - old(packetsSent) == packetsRetransmitted - old(packetsRetransmitted) == |sent'| - |sent|
    {
      hide IsChunkPacket, Elapsed, U64, Matches, Scanned, ScannedAs, CarriesChunks, Expired, Exhausted, TimeoutsChecked,
           Sender.Valid, Spans, Retimed, Slot;
      ScanFacts(s, model, file, numChunks, base, nextSeq, window[..], k, now, sent);
      var slot := window[Slot(k)];
      failed, sent' := false, sent;
      if slot.state != Pending {
        ScanPasses(s, model, k, now, sent);
        return;
      }
      if slot.seqNum != k { return; }  // never taken
      ElapsedIsDifference(now, slot.sentAt);
      if U64(now - slot.sentAt) >= TIMEOUT_MS {
        if slot.retries >= MAX_RETRIES {
          ScanEnd(s, model, k, now, sent);
          return true, sent;
        }
        sent' := ScanResend(s, k, now, sent);
      } else {
        ScanPasses(s, model, k, now, sent);
      }
    }

    method ScanResend(ghost s: Sender, k: Word32, now: Word64, sent: seq<Packet>) returns (sent': seq<Packet>)
      requires Valid() && base <= k < nextSeq && s.file == file && ScannedAs(s, model, k, now, sent) && k < s.nextSeq
      requires k in model.timers && model.timers[k].retries < MAX_RETRIES
      requires Expired(s, k, now) && !Exhausted(s, k, now)
      modifies this, window
      ensures Valid() && base == old(base) && nextSeq == old(nextSeq)
      ensures ScannedAs(s, model, k + 1, now, sent') && |sent'| == |sent| + 1
      ensures packetsSent == old(packetsSent) + 1 && packetsRetransmitted == old(packetsRetransmitted) + 1
    {
      hide IsChunkPacket, Matches, ScannedAs, Expired, Exhausted, Sender.Valid, Retimed;
      ghost var m := model;
      var packet := Resend(k, now);
      ScanResends(s, m, k, now, sent, packet);
      sent' := sent + [packet];
    }

    /** Retransmit from the copy in the slot and restart its timer. */
    method Resend(k: Word32, now: Word64) returns (sent: Packet)
      requires Valid() && base <= k < nextSeq
      requires k in model.timers && model.timers[k].retries < MAX_RETRIES
      modifies this, window
      ensures Valid() && model == Retimed(old(model), k, now)
      ensures base == old(base) && nextSeq == old(nextSeq)
      ensures IsChunkPacket(sent, file, k)
      ensures packetsSent == old(packetsSent) + 1 && packetsRetransmitted == old(packetsRetransmitted) + 1
    {
      hide Matches, IsChunkPacket, Sender.Valid, Spans;
      Facts(model, file, numChunks, base, nextSeq, window[..]);
      sent := PacketInSlot(k);
      packetsSent, packetsRetransmitted := packetsSent + 1, packetsRetransmitted + 1;
      RetimeStep(model, file, numChunks, base, nextSeq, window[..], k, now);
      model := Retimed(model, k, now);
      var slot := window[Slot(k)];
      window[Slot(k)] := slot.(sentAt := now, retries := slot.retries + 1);
    }

    method PacketInSlot(k: Word32) returns (sent: Packet)
      requires Valid() && base <= k < nextSeq
      ensures IsChunkPacket(sent, file, k)
    {
      var slot := window[Slot(k)];
      SlotMeaning(model, base, window[..], k);
      ChunkArithmetic(file, numChunks, k);
      var packet := new Byte[HEADER_SIZE + CHUNK_SIZE];
      BuildDataPacket(packet, slot.seqNum, slot.data);
      sent := packet[..HEADER_SIZE + |slot.data|];
    }

    /** `sr_sender_is_complete`. */
    method IsComplete() returns (complete: bool)
      requires Valid()
      ensures complete <==> model.Complete()
      ensures complete <==> base == numChunks
    {
      CompleteIffBase(model);
      complete := chunksAcked >= numChunks;
    }
  }

  /** `sr_sender_init` as the event loop calls it, with the size cast to 32 bits, and with its tests: -1 for
      a missing structure, peer address, file or link. */
  method InitSender(target: bool, peer: bool, file: Option<seq<Byte>>, link: bool)
      returns (status: int, sender: SrSender?)
    ensures status == 0 <==> sender != null
    ensures sender == null ==> status == -1
    ensures sender != null <==> target && peer && file.Some? && link
    ensures sender != null ==>
              fresh(sender) && fresh(sender.window) && sender.Valid() && sender.model == InitialSender(Cut(file.value))
  {
    if !target || !peer || file.None? || !link { return -1, null; }
    sender := new SrSender(Cut(file.value));
    status := 0;
  }
}
