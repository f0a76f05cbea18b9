/** The receiver as it is written: a 64-slot reassembly ring and a file buffer, updated in place.
    Its methods are proved against the ring-free receiver of `ReceiverSpec`. */
module ReceiverRing {
  import opened Protocol
  import opened Checksum
  import opened Packets
  import opened Windows
  import opened ReceiverSpec

  datatype RecvSlot = RecvSlot(received: bool, seqNum: Word32, data: seq<Byte>)

  const EMPTY_SLOT := RecvSlot(false, 0, [])

  /** `slot` is exactly what a ring must hold for chunk `k`. */
  ghost predicate Keeps(slot: RecvSlot, r: Receiver, k: nat) {
    && (slot.received <==> k in r.chunks)
    && (slot.received ==> slot.seqNum == k && slot.data == r.chunks[k])
  }

  /** The ring keeps the 64 chunks from `base` on, and there are none beyond. */
  ghost predicate RingOk(r: Receiver, base: nat, w: seq<RecvSlot>) {
    && |w| == WINDOW_SIZE
    && (forall k :: base <= k < base + WINDOW_SIZE ==> Keeps(w[Slot(k)], r, k))
    && (forall k :: k in r.chunks ==> k < base + WINDOW_SIZE)
  }

  /** The code never compares a slot's number, and need not: a slot in use can only belong to the one
      chunk of the window that has its index. */
  lemma SlotMeaning(r: Receiver, base: nat, w: seq<RecvSlot>, i: nat)
    requires RingOk(r, base, w) && i < WINDOW_SIZE
    ensures w[i].received <==> SeqAt(base, i) in r.chunks
    ensures w[i].received ==> w[i].seqNum == SeqAt(base, i) && w[i].data == r.chunks[SeqAt(base, i)]
  {
    assert Keeps(w[Slot(SeqAt(base, i))], r, SeqAt(base, i));
  }

  lemma FillSlot(r: Receiver, t: Receiver, base: nat, w: seq<RecvSlot>, d: Data)
    requires RingOk(r, base, w) && base <= d.seqNum < base + WINDOW_SIZE
    requires t.chunks == r.chunks[d.seqNum := d.payload]
    ensures RingOk(t, base, w[Slot(d.seqNum) := RecvSlot(true, d.seqNum, d.payload)])
  {
    var v := w[Slot(d.seqNum) := RecvSlot(true, d.seqNum, d.payload)];
    forall k | base <= k < base + WINDOW_SIZE ensures Keeps(v[Slot(k)], t, k) {
      SlotsDistinct(base, k, d.seqNum);
    }
  }

  lemma SlideOne(r: Receiver, base: nat, w: seq<RecvSlot>)
    requires RingOk(r, base, w)
    ensures RingOk(r, base + 1, w[Slot(base) := w[Slot(base)].(received := false)])
  {
    var v := w[Slot(base) := w[Slot(base)].(received := false)];
    forall k | base + 1 <= k < base + 1 + WINDOW_SIZE ensures Keeps(v[Slot(k)], r, k) {
      if k == base + WINDOW_SIZE {
        SlotsDistinct(base, base, base);
      } else {
        SlotsDistinct(base, k, base);
      }
    }
  }

  /** Chunks received are those before the base plus the slots in use. */
  lemma ReceivedSlotsCount(r: Receiver, w: seq<RecvSlot>, slots: set<nat>)
    requires RingOk(r, r.Base(), w)
    requires forall i: nat :: i in slots <==> i < WINDOW_SIZE && w[i].received
    ensures |r.chunks| == r.Base() + |slots|
  {
    var base := r.Base();
    var ahead := set k | k in r.chunks && base <= k;
    forall k: nat ensures k in ahead <==> base <= k < base + WINDOW_SIZE && Slot(k) in slots {
      if base <= k < base + WINDOW_SIZE {
        assert Keeps(w[Slot(k)], r, k);
      }
    }
    RingCount(base, slots, ahead);
    SplitAt(r.chunks.Keys, base, ahead);
  }

  /** What the object's fields say of the receiver it stands for. */
  ghost predicate Matches(r: Receiver, numChunks: nat, base: nat, w: seq<RecvSlot>, received: nat, buffer: seq<Byte>) {
    && r.Valid() && r.numChunks == numChunks
    && base <= r.Base()
    && RingOk(r, base, w)
    && received == |r.chunks|
    && r.AllFit(base) && buffer == r.Assembled(base)
  }

  class SrReceiver {
    const numChunks: Word32
    const fileBuffer: array<Byte>
    const window: array<RecvSlot>
    var base: Word32
    var chunksReceived: nat

    /** The ring-free receiver that this object stands for. */
    ghost var model: Receiver

    ghost predicate Valid()
      reads this, window, fileBuffer
    {
      Unslid() && base == model.Base()
    }

    /** `Valid()` before the window has been moved up: received chunks may still wait at the base. */
    ghost predicate Unslid()
      reads this, window, fileBuffer
    {
      Matches(model, numChunks, base, window[..], chunksReceived, fileBuffer[..])
    }

    /** `sr_receiver_init`: any announced size and count; the new file buffer may hold anything. */
    constructor (fileSize: Word32, numChunks: Word32)
      ensures Valid() && fresh(window) && fresh(fileBuffer) && fileBuffer.Length == fileSize
      ensures this.numChunks == numChunks
      ensures |model.initial| == fileSize && model == InitialReceiver(numChunks, model.initial)
    {
      this.numChunks := numChunks;
      fileBuffer := new Byte[fileSize];
      window := new RecvSlot[WINDOW_SIZE](_ => EMPTY_SLOT);
      base, chunksReceived := 0, 0;
      new;
      model := InitialReceiver(numChunks, fileBuffer[..]);
    }

    /** `sr_receiver_handle_data`; `acks` is what it hands to the network. `overrun` says that a copy went
        past the end of the file buffer, after which nothing is known. */
    method HandleData(packet: Packet) returns (overrun: bool, acks: seq<Packet>)
      requires Valid() && |packet| <= HEADER_SIZE + CHUNK_SIZE
      modifies this, window, fileBuffer
      ensures overrun <==> !Admissible(old(model), packet)
      ensures AcksFor(acks, old(model), packet)
      ensures !overrun ==> Valid() && DataHandled(old(model), model, packet, acks)
    {
      hide Matches;
      ValidFits(model, numChunks, base, window[..], chunksReceived, fileBuffer[..]);
      overrun, acks := false, [];
      if |packet| < HEADER_SIZE { return; }
      var temp := packet[2 := 0][3 := 0];
      var checksum := CalculateChecksum(temp);
      if ChecksumField(packet) != checksum { return; }
      if packet[0] != UDP_DATA { return; }
      var seqNum, dataLen := Load32(packet, 4), Load16(packet, 12);
      if |packet| < HEADER_SIZE + dataLen { return; }
      overrun, acks := Deliver(seqNum, packet[HEADER_SIZE..HEADER_SIZE + dataLen], packet);
    }

    /** The rest of it, once the packet has been found good. */
    method Deliver(seqNum: Word32, payload: seq<Byte>, ghost packet: Packet) returns (overrun: bool, acks: seq<Packet>)
      requires Valid() && ParseData(packet) == Some(Data(seqNum, payload)) && |payload| <= CHUNK_SIZE
      modifies this, window, fileBuffer
      ensures overrun <==> !Admissible(old(model), packet)
      ensures AcksFor(acks, old(model), packet)
      ensures !overrun ==> Valid() && DataHandled(old(model), model, packet, acks)
    {
      hide ParseData, IsAckPacket, RingOk, Receiver.AllFit;
      overrun, acks := false, [];
      if seqNum >= numChunks { return; }
      if seqNum < base {
        var ack := SendAck(seqNum);
        return false, [ack];
      }
      if seqNum >= U32(base + WINDOW_SIZE) { return; }
      SlotInUse(model, base, window[..], seqNum);
      if !window[Slot(seqNum)].received {
        Store(Data(seqNum, payload));
      }
      var ack := SendAck(seqNum);
      overrun := Slide();
      acks := [ack];
    }

    /** `sr_receiver_send_ack`. */
    method SendAck(seqNum: Word32) returns (sent: Packet)
      ensures IsAckPacket(sent, seqNum)
    {
      var packet := new Byte[HEADER_SIZE];
      BuildAckPacket(packet, seqNum);
      sent := packet[..];
    }

    /** Keep a new chunk in its slot, whose data field holds 1024 bytes. */
    method Store(d: Data)
      requires Valid() && base <= d.seqNum && model.InWindow(d.seqNum) && d.seqNum !in model.chunks
      requires |d.payload| <= CHUNK_SIZE
      modifies this`model, this`chunksReceived, window
      ensures Unslid() && model == Accept(old(model), d)
    {
      ghost var r := model;
      model := Accept(r, d);
      FillSlot(r, model, base, window[..], d);
      AssembledSame(r, model, base);
      window[Slot(d.seqNum)] := RecvSlot(true, d.seqNum, d.payload);
      chunksReceived := chunksReceived + 1;
    }

    /** Move the window up over what has come, copying it out; stops where a copy would overrun. */
    method Slide() returns (overrun: bool)
      requires Unslid()
      modifies this`base, window, fileBuffer
      ensures overrun <==> !model.AllFit(model.Base())
      ensures !overrun ==> Valid()
    {
      hide Matches;
      while base < numChunks
        invariant Unslid()
      {
        SlideMeaning(model, numChunks, base, window[..], chunksReceived, fileBuffer[..]);
        if !window[Slot(base)].received { break; }
        var data := window[Slot(base)].data;
        if U32(base * CHUNK_SIZE) + |data| > fileBuffer.Length { return true; }
        SlideStep(model, numChunks, base, window[..], chunksReceived, fileBuffer[..]);
        CopyOut(U32(base * CHUNK_SIZE), data);
        window[Slot(base)] := window[Slot(base)].(received := false);
        base := base + 1;
      }
      SlideEnds(model, numChunks, base, window[..], chunksReceived, fileBuffer[..]);
      overrun := false;
    }

    /** The `memcpy` of a chunk to its place in the file buffer. */
    method CopyOut(offset: nat, data: seq<Byte>)
      requires offset + |data| <= fileBuffer.Length
      modifies fileBuffer
      ensures fileBuffer[..] == Overwritten(old(fileBuffer[..]), offset, data)
    {
      forall i | 0 <= i < |data| {
        fileBuffer[offset + i] := data[i];
      }
    }

    /** `sr_receiver_is_complete`. */
    method IsComplete() returns (complete: bool)
      requires Valid()
      ensures complete <==> model.Complete()
    {
      complete := base >= numChunks;
    }
  }

  /** `sr_receiver_init` with its tests: -1 for a missing argument or a failed allocation. */
  method InitReceiver(fileSize: Word32, numChunks: Word32, arguments: bool, memory: bool)
      returns (status: int, receiver: SrReceiver?)
    ensures status == if arguments && memory then 0 else -1
    ensures status == 0 <==> receiver != null
    ensures receiver != null ==>
              && fresh(receiver) && fresh(receiver.window) && fresh(receiver.fileBuffer) && receiver.Valid()
              && receiver.numChunks == numChunks && |receiver.model.initial| == fileSize
              && receiver.model == InitialReceiver(numChunks, receiver.model.initial)
  {
    if !arguments || !memory { return -1, null; }
    receiver := new SrReceiver(fileSize, numChunks);
    status := 0;
  }

  lemma SlotInUse(r: Receiver, base: nat, w: seq<RecvSlot>, k: nat)
    requires RingOk(r, base, w) && base <= k < base + WINDOW_SIZE
    ensures |w| == WINDOW_SIZE && (w[Slot(k)].received <==> k in r.chunks)
  {
    assert Keeps(w[Slot(k)], r, k);
  }

  lemma ValidFits(r: Receiver, numChunks: nat, base: nat, w: seq<RecvSlot>, received: nat, buffer: seq<Byte>)
    requires Matches(r, numChunks, base, w, received, buffer) && base == r.Base()
    ensures r.Valid() && r.AllFit(r.Base())
  {
  }

  /** What the slot at the base says. */
  lemma SlideMeaning(r: Receiver, numChunks: nat, base: nat, w: seq<RecvSlot>, received: nat, buffer: seq<Byte>)
    requires Matches(r, numChunks, base, w, received, buffer) && base < numChunks
    ensures |w| == WINDOW_SIZE
    ensures w[Slot(base)].received <==> base < r.Base()
    ensures w[Slot(base)].received && Offset(base) + |w[Slot(base)].data| > |buffer| ==> !r.AllFit(r.Base())
  {
    hide Offset;
    assert Keeps(w[Slot(base)], r, base);
  }

  lemma SlideStep(r: Receiver, numChunks: nat, base: nat, w: seq<RecvSlot>, received: nat, buffer: seq<Byte>)
    requires Matches(r, numChunks, base, w, received, buffer) && base < r.Base()
    requires Offset(base) + |w[Slot(base)].data| <= |buffer|
    ensures Matches(r, numChunks, base + 1, w[Slot(base) := w[Slot(base)].(received := false)], received,
                    Overwritten(buffer, Offset(base), w[Slot(base)].data))
  {
    hide Offset, Overwritten;
    assert base in r.chunks;
    assert Keeps(w[Slot(base)], r, base);
    SlideOne(r, base, w);
  }

  lemma SlideEnds(r: Receiver, numChunks: nat, base: nat, w: seq<RecvSlot>, received: nat, buffer: seq<Byte>)
    requires Matches(r, numChunks, base, w, received, buffer)
    requires base < numChunks ==> |w| == WINDOW_SIZE && !w[Slot(base)].received
    ensures base == r.Base() && r.AllFit(r.Base())
  {
    hide Offset;
    if base < numChunks {
      assert Keeps(w[Slot(base)], r, base);
    }
  }

  /** Chunks that arrive ahead of the base do not disturb what has been assembled. */
  lemma {:induction false} AssembledSame(r: Receiver, t: Receiver, n: nat)
    requires t.initial == r.initial && n <= r.Base() && n <= t.Base() && r.AllFit(n)
    requires forall k :: k in r.chunks ==> k in t.chunks && t.chunks[k] == r.chunks[k]
    requires forall k :: k in t.chunks && k < n ==> k in r.chunks
    ensures t.AllFit(n) && t.Assembled(n) == r.Assembled(n)
  {
    hide Offset;
    if n > 0 {
      AssembledSame(r, t, n - 1);
      assert n - 1 in r.chunks;
    }
  }
}
