/** What the receiver does, said without a ring: it keeps every chunk it has accepted, for ever. */
module ReceiverSpec {
  import opened Protocol
  import opened Packets
  import opened Chunking
  import opened Windows

  /** Where chunk `k` goes in the file buffer, in 32-bit arithmetic. */
  function Offset(k: nat): Word32 {
    U32(k * CHUNK_SIZE)
  }

  /** `initial` is whatever the freshly allocated file buffer held. */
  datatype Receiver = Receiver(numChunks: nat, initial: seq<Byte>, chunks: map<nat, seq<Byte>>) {

    /** The least chunk not received. */
    ghost function Base(): nat {
      Mex(chunks.Keys)
    }

    ghost predicate Valid() {
      && |initial| < TWO_32 && numChunks < TWO_32
      && Base() <= numChunks
      && forall k :: k in chunks ==> k < numChunks && k < Base() + WINDOW_SIZE
    }

    /** The end of the window, which wraps as a `uint32_t` does. */
    ghost function Reach(): int {
      if Base() + WINDOW_SIZE < TWO_32 then Base() + WINDOW_SIZE else Base() + WINDOW_SIZE - TWO_32
    }

    /** A chunk that is acknowledged: one inside the window or before it. */
    ghost predicate InWindow(k: nat) {
      k < numChunks && (k < Base() || k < Reach())
    }

    /** Chunk `k` with this payload lies inside the file buffer. */
    ghost predicate Fits(k: nat, payload: seq<Byte>) {
      Offset(k) + |payload| <= |initial|
    }

    /** Every chunk kept below `n` lies inside the file buffer. */
    ghost predicate AllFit(n: nat) {
      forall k :: k in chunks && k < n ==> Fits(k, chunks[k])
    }

    /** The file buffer when the chunks below `n` have been copied to their places. */
    ghost function Assembled(n: nat): (b: seq<Byte>)
      requires n <= Base() && AllFit(n)
      ensures |b| == |initial|
    {
      if n == 0 then initial
      else
        assert n - 1 in chunks;
        Overwritten(Assembled(n - 1), Offset(n - 1), chunks[n - 1])
    }

    ghost predicate Complete() {
      Base() >= numChunks
    }
  }

  ghost function Overwritten(b: seq<Byte>, offset: nat, data: seq<Byte>): (c: seq<Byte>)
    requires offset + |data| <= |b|
    ensures |c| == |b|
  {
    b[..offset] + data + b[offset + |data|..]
  }

  ghost function InitialReceiver(numChunks: nat, initial: seq<Byte>): (r: Receiver)
    requires numChunks < TWO_32 && |initial| < TWO_32
    ensures r.Valid() && r.Base() == 0
  {
    var r := Receiver(numChunks, initial, map[]);
    MexUnique(r.chunks.Keys, 0);
    r
  }

  /** A chunk inside the window is kept the first time it comes. */
  ghost function Accept(r: Receiver, d: Data): (t: Receiver)
    requires r.Valid()
    ensures t.Valid() && t == r.(chunks := t.chunks) && r.Base() <= t.Base()
    ensures r.InWindow(d.seqNum) ==> d.seqNum in t.chunks
  {
    if r.InWindow(d.seqNum) && d.seqNum !in r.chunks then
      var t := r.(chunks := r.chunks[d.seqNum := d.payload]);
      MexMonotone(r.chunks.Keys, t.chunks.Keys);
      assert t.Base() <= t.numChunks by { assert t.numChunks !in t.chunks; }
      t
    else r
  }

  ghost function HandleData(r: Receiver, p: Packet): (t: Receiver)
    requires r.Valid()
    ensures t.Valid() && t == r.(chunks := t.chunks) && r.Base() <= t.Base()
  {
    match ParseData(p)
    case None => r
    case Some(d) => Accept(r, d)
  }

  /** The copies that this packet sets off stay inside the file buffer. The code does not check that; a
      copy past the end has unpredictable results. */
  ghost predicate Admissible(r: Receiver, p: Packet) {
    r.Valid() && var t := HandleData(r, p); t.AllFit(t.Base())
  }

  /** An ACK goes back for every chunk inside the window, and again for every one before it. */
  ghost predicate AcksFor(acks: seq<Packet>, r: Receiver, p: Packet) {
    match ParseData(p)
    case None => acks == []
    case Some(d) => if r.InWindow(d.seqNum) then |acks| == 1 && IsAckPacket(acks[0], d.seqNum) else acks == []
  }

  /** What a call of `sr_receiver_handle_data` does. */
  ghost predicate DataHandled(r: Receiver, t: Receiver, p: Packet, acks: seq<Packet>) {
    r.Valid() && t == HandleData(r, p) && AcksFor(acks, r, p)
  }

  /** What a packet does, in full. One that fails the checks does nothing. One that passes is answered
      exactly if its chunk lies before the end of the window, whether or not it has come before; it is kept if
      it has not, and what was kept stays as it was. */
  lemma DataMeans(r: Receiver, t: Receiver, p: Packet, acks: seq<Packet>, k: nat)
    requires DataHandled(r, t, p, acks)
    ensures ParseData(p) == None ==> t == r && acks == []
    ensures ParseData(p).Some? ==>
              var d := ParseData(p).value;
              var near := d.seqNum < r.numChunks && (d.seqNum < r.Base() || d.seqNum < U32(r.Base() + 64));
              && (near ==> |acks| == 1 && ParseAck(acks[0]) == Some(d.seqNum))
              && (!near ==> acks == [] && t == r)
              && (k in t.chunks <==> k in r.chunks || (near && k == d.seqNum))
              && (k in r.chunks ==> t.chunks[k] == r.chunks[k])
              && (near && k == d.seqNum && k !in r.chunks ==> t.chunks[k] == d.payload)
  {
    hide ParseData, ParseAck, IsAckPacket;
    if ParseData(p).Some? {
      WindowReach(r);
      if acks != [] {
        AckRoundTrip(acks[0], ParseData(p).value.seqNum);
      }
    }
  }

  lemma WindowReach(r: Receiver)
    requires r.Valid()
    ensures r.Reach() == U32(r.Base() + 64)
  {
  }

  /** When the next chunk arrives, the copy overruns the buffer exactly if its payload does not fit; a
      chunk further ahead is kept unexamined. */
  lemma OverrunExactly(r: Receiver, p: Packet, d: Data)
    requires r.Valid() && r.AllFit(r.numChunks) && ParseData(p) == Some(d)
    requires r.InWindow(d.seqNum) && d.seqNum !in r.chunks
    ensures d.seqNum == r.Base() ==> (Admissible(r, p) <==> r.Fits(d.seqNum, d.payload))
    ensures d.seqNum > r.Base() ==> Admissible(r, p)
    ensures HandleData(r, p).AllFit(r.numChunks) <==> r.Fits(d.seqNum, d.payload)
  {
    var t := HandleData(r, p);
    if d.seqNum == r.Base() {
      assert d.seqNum < t.Base() by {
        assert t.Base() !in t.chunks && forall k :: 0 <= k < r.Base() ==> k in t.chunks;
      }
    } else {
      MexUnique(t.chunks.Keys, r.Base());
    }
  }

  /** A full-sized payload for a file of one byte: every check lets it through and it does not fit. */
  lemma OverlongLastChunk(p: Packet, payload: seq<Byte>, initial: seq<Byte>)
    requires |initial| == 1 && |payload| == CHUNK_SIZE && IsDataPacket(p, Data(0, payload))
    ensures |p| == HEADER_SIZE + CHUNK_SIZE
    ensures ParseData(p) == Some(Data(0, payload)) && InitialReceiver(1, initial).InWindow(0)
    ensures !Admissible(InitialReceiver(1, initial), p)
  {
    var r := InitialReceiver(1, initial);
    DataRoundTrip(p, Data(0, payload));
    OverrunExactly(r, p, Data(0, payload));
  }

  /** Every chunk kept is the file's chunk of that number. */
  ghost predicate Genuine(r: Receiver, file: seq<Byte>) {
    && |r.initial| == |file| < TWO_32
    && forall k :: k in r.chunks ==> k * CHUNK_SIZE <= |file| && r.chunks[k] == Chunk(file, k)
  }

  lemma GenuineFits(r: Receiver, file: seq<Byte>, n: nat)
    requires Genuine(r, file)
    ensures r.AllFit(n)
    ensures forall k :: k in r.chunks ==> Offset(k) == k * CHUNK_SIZE
  {
    hide Offset, Chunk;
    forall k | k in r.chunks ensures Offset(k) == k * CHUNK_SIZE && r.Fits(k, r.chunks[k]) {
      ChunkFits(file, k);
    }
  }

  lemma ChunkFits(file: seq<Byte>, k: nat)
    requires k * CHUNK_SIZE <= |file| < TWO_32
    ensures Offset(k) == k * CHUNK_SIZE && k * CHUNK_SIZE + |Chunk(file, k)| <= |file|
  {
  }

  lemma PrefixGrows(file: seq<Byte>, initial: seq<Byte>, a: nat, m: nat)
    requires a <= m <= |file| == |initial|
    ensures Overwritten(file[..a] + initial[a..], a, file[a..m]) == file[..m] + initial[m..]
  {
    var b := file[..a] + initial[a..];
    assert file[..a] + file[a..m] == file[..m];
    assert b[..a] == file[..a] && b[m..] == initial[m..];
  }

  /** With genuine chunks the buffer is the file up to the base, and untouched after it. */
  lemma {:induction false} AssembledIsPrefix(r: Receiver, file: seq<Byte>, n: nat)
    requires Genuine(r, file) && n <= r.Base() && r.AllFit(n)
    ensures var m := Min(n * CHUNK_SIZE, |file|);
            r.Assembled(n) == file[..m] + r.initial[m..]
  {
    hide Overwritten, Offset;
    if n == 0 {
      assert file[..0] + r.initial[0..] == r.initial;
    } else {
      AssembledIsPrefix(r, file, n - 1);
      assert n - 1 in r.chunks;
      GenuineFits(r, file, n);
      PrefixGrows(file, r.initial, (n - 1) * CHUNK_SIZE, Min(n * CHUNK_SIZE, |file|));
    }
  }

  /** When everything has come, the buffer is the file. */
  lemma CompleteIsFile(r: Receiver, file: seq<Byte>)
    requires Genuine(r, file) && r.Complete() && |file| <= r.numChunks * CHUNK_SIZE && r.AllFit(r.Base())
    ensures r.Assembled(r.Base()) == file
  {
    hide Receiver.Assembled, Offset;
    AssembledIsPrefix(r, file, r.Base());
    assert file[..|file|] + r.initial[|file|..] == file;
  }
}
