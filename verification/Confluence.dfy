/** The order and repetition of what arrives do not matter, to either side. */
module Confluence {
  import opened Protocol
  import opened Packets
  import opened Chunking
  import opened Windows
  import opened SenderSpec
  import opened ReceiverSpec
  import SenderRing
  import ReceiverRing

  /** The sender after a sequence of ACKs. */
  ghost function AckAll(s: Sender, ps: seq<Packet>): (t: Sender)
    requires s.Valid()
    ensures t.Valid()
  {
    if ps == [] then s else HandleAck(AckAll(s, ps[..|ps| - 1]), ps[|ps| - 1])
  }

  /** The chunks that a sequence of ACKs names. */
  ghost function AckNumbers(ps: seq<Packet>): set<nat> {
    if ps == [] then {}
    else
      var rest := AckNumbers(ps[..|ps| - 1]);
      match ParseAck(ps[|ps| - 1])
      case None => rest
      case Some(k) => rest + {k}
  }

  /** What a sequence of ACKs leaves is known from the numbers alone. */
  lemma {:induction false} AckAllMeans(s: Sender, ps: seq<Packet>)
    requires s.Valid()
    ensures var t := AckAll(s, ps);
            && t.file == s.file && t.numChunks == s.numChunks && t.nextSeq == s.nextSeq
            && (forall k: nat :: k in t.acked <==> k in s.acked || (k in AckNumbers(ps) && k < s.nextSeq))
            && (forall k :: k in t.timers ==> k in s.timers && t.timers[k] == s.timers[k])
  {
    hide ParseAck;
    if ps != [] {
      AckAllMeans(s, ps[..|ps| - 1]);
    }
  }

  lemma AckConfluence(s: Sender, ps: seq<Packet>, qs: seq<Packet>)
    requires s.Valid() && AckNumbers(ps) == AckNumbers(qs)
    ensures AckAll(s, ps) == AckAll(s, qs)
  {
    hide AckAll, AckNumbers;
    AckAllMeans(s, ps);
    AckAllMeans(s, qs);
    var t, u := AckAll(s, ps), AckAll(s, qs);
    assert t.acked == u.acked;
    assert t.timers.Keys == u.timers.Keys;
    assert t.timers == u.timers;
  }

  /** One sender, one ring: slots in use agree entirely, and the others are empty in both. */
  lemma SendRingDetermined(s: Sender, v: seq<SenderRing.SendSlot>, w: seq<SenderRing.SendSlot>, i: nat)
    requires s.Valid() && SenderRing.RingOk(s, s.Base(), v) && SenderRing.RingOk(s, s.Base(), w) && i < WINDOW_SIZE
    ensures v[i].state == w[i].state
    ensures v[i].state != SenderRing.Empty ==> v[i].seqNum == w[i].seqNum && v[i].data == w[i].data
    ensures v[i].state == SenderRing.Pending ==> v[i] == w[i]
  {
    var k := SeqAt(s.Base(), i);
    SenderRing.SlotMeaning(s, s.Base(), v, k);
    SenderRing.SlotMeaning(s, s.Base(), w, k);
  }

  /** The receiver may be handed this packet: it carries a chunk of the file that is in the window. */
  ghost predicate Offers(r: Receiver, file: seq<Byte>, p: Packet) {
    match ParseData(p)
    case None => false
    case Some(d) => r.InWindow(d.seqNum) && d.seqNum * CHUNK_SIZE <= |file| && d.payload == Chunk(file, d.seqNum)
  }

  ghost predicate AllOffered(r: Receiver, file: seq<Byte>, ps: seq<Packet>) {
    forall i :: 0 <= i < |ps| ==> Offers(r, file, ps[i])
  }

  lemma OfferKeepsGenuine(r: Receiver, file: seq<Byte>, p: Packet)
    requires r.Valid() && Genuine(r, file) && Offers(r, file, p)
    ensures Genuine(HandleData(r, p), file)
  {
    hide ParseData;
  }

  /** Windows only move up, so what was in the window still is or has been passed. */
  lemma OfferLasts(r: Receiver, t: Receiver, file: seq<Byte>, p: Packet)
    requires Offers(r, file, p) && Genuine(r, file) && t.numChunks == r.numChunks && r.Base() <= t.Base()
    ensures Offers(t, file, p)
  {
  }

  /** The receiver after a sequence of packets of the file. */
  ghost function DeliverAll(r: Receiver, file: seq<Byte>, ps: seq<Packet>): (t: Receiver)
    requires r.Valid() && Genuine(r, file) && AllOffered(r, file, ps)
    ensures t.Valid() && Genuine(t, file) && t == r.(chunks := t.chunks) && r.Base() <= t.Base()
  {
    if ps == [] then r
    else
      var t := DeliverAll(r, file, ps[..|ps| - 1]);
      var p := ps[|ps| - 1];
      OfferLasts(r, t, file, p);
      OfferKeepsGenuine(t, file, p);
      HandleData(t, p)
  }

  ghost function SeqNumbers(ps: seq<Packet>): set<nat> {
    if ps == [] then {}
    else
      var rest := SeqNumbers(ps[..|ps| - 1]);
      match ParseData(ps[|ps| - 1])
      case None => rest
      case Some(d) => rest + {d.seqNum}
  }

  lemma {:induction false} DeliverAllMeans(r: Receiver, file: seq<Byte>, ps: seq<Packet>)
    requires r.Valid() && Genuine(r, file) && AllOffered(r, file, ps)
    ensures forall k: nat :: k in DeliverAll(r, file, ps).chunks <==> k in r.chunks || k in SeqNumbers(ps)
  {
    hide ParseData, Genuine;
    if ps != [] {
      var init, p := ps[..|ps| - 1], ps[|ps| - 1];
      DeliverAllMeans(r, file, init);
      OfferLasts(r, DeliverAll(r, file, init), file, p);
      assert ParseData(p).Some?;
    }
  }

  lemma DeliveryConfluence(r: Receiver, file: seq<Byte>, ps: seq<Packet>, qs: seq<Packet>)
    requires r.Valid() && Genuine(r, file) && AllOffered(r, file, ps) && AllOffered(r, file, qs)
    requires SeqNumbers(ps) == SeqNumbers(qs)
    ensures DeliverAll(r, file, ps) == DeliverAll(r, file, qs)
  {
    hide DeliverAll, SeqNumbers, AllOffered;
    DeliverAllMeans(r, file, ps);
    DeliverAllMeans(r, file, qs);
    var t, u := DeliverAll(r, file, ps), DeliverAll(r, file, qs);
    assert t.chunks.Keys == u.chunks.Keys;
    assert t.chunks == u.chunks;
  }

  /** One receiver, one ring: the same slots are in use, with the same contents. */
  lemma RecvRingDetermined(r: Receiver, v: seq<ReceiverRing.RecvSlot>, w: seq<ReceiverRing.RecvSlot>, i: nat)
    requires ReceiverRing.RingOk(r, r.Base(), v) && ReceiverRing.RingOk(r, r.Base(), w) && i < WINDOW_SIZE
    ensures v[i].received == w[i].received && (v[i].received ==> v[i] == w[i])
  {
    ReceiverRing.SlotMeaning(r, r.Base(), v, i);
    ReceiverRing.SlotMeaning(r, r.Base(), w, i);
  }
}
