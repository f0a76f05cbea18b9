/** The 16-byte packed UDP header: building data and ACK packets and taking them apart.
    Offsets: 0 type, 1 flags, 2..3 checksum, 4..7 seq_num, 8..11 ack_num, 12..13 data_len,
    14..15 window. All fields are big-endian except the checksum, which is stored in host order;
    both ends are taken to be little-endian hosts. */
module Packets {
  import opened Protocol
  import opened Checksum

  datatype Data = Data(seqNum: Word32, payload: seq<Byte>)

  /** `ntohs` and `ntohl` of the bytes at offset `at`. */
  function Load16(p: seq<Byte>, at: nat): Word16
    requires at + 2 <= |p|
  {
    p[at] as int * 0x100 + p[at + 1]
  }

  function Load32(p: seq<Byte>, at: nat): Word32
    requires at + 4 <= |p|
  {
    Load16(p, at) as int * 0x1_0000 + Load16(p, at + 2)
  }

  /** The checksum field, in host order. */
  function ChecksumField(p: Packet): Word16
    requires |p| >= HEADER_SIZE
  {
    p[2] + 0x100 * p[3] as int
  }

  /** The packet with a zero checksum field. */
  function Zeroed(p: Packet): Packet
    requires |p| >= HEADER_SIZE
  {
    p[2 := 0][3 := 0]
  }

  ghost predicate ChecksumOk(p: Packet)
    requires |p| >= HEADER_SIZE
  {
    ChecksumField(p) == ChecksumOf(Zeroed(p))
  }

  ghost predicate HasFields(p: Packet, kind: Byte, seqNum: Word32, ackNum: Word32, dataLen: Word16)
    requires |p| >= HEADER_SIZE
  {
    && p[0] == kind && p[1] == 0
    && Load32(p, 4) == seqNum && Load32(p, 8) == ackNum
    && Load16(p, 12) == dataLen && Load16(p, 14) == WINDOW_SIZE
  }

  /** `p` is the packet that `build_data_packet` must produce for `d`. */
  ghost predicate IsDataPacket(p: Packet, d: Data) {
    && |p| == HEADER_SIZE + |d.payload| < HEADER_SIZE + TWO_16
    && HasFields(p, UDP_DATA, d.seqNum, 0, |d.payload|)
    && p[HEADER_SIZE..] == d.payload
    && ChecksumOk(p)
  }

  /** `p` is the packet that `build_ack_packet` must produce for `ackNum`. */
  ghost predicate IsAckPacket(p: Packet, ackNum: Word32) {
    && |p| == HEADER_SIZE
    && HasFields(p, UDP_ACK, 0, ackNum, 0)
    && ChecksumOk(p)
  }

  /** What the packet checks of `sr_receiver_handle_data` let through, and how it is read. */
  ghost function ParseData(p: Packet): Option<Data> {
    if |p| < HEADER_SIZE then None
    else if !ChecksumOk(p) then None
    else if p[0] != UDP_DATA then None
    else
      var dataLen := Load16(p, 12);
      if |p| < HEADER_SIZE + dataLen then None
      else Some(Data(Load32(p, 4), p[HEADER_SIZE..HEADER_SIZE + dataLen]))
  }

  /** What `sr_sender_handle_ack` reads from a header. It does not look at the checksum. */
  function ParseAck(p: Packet): Option<Word32> {
    if |p| < HEADER_SIZE || p[0] != UDP_ACK then None else Some(Load32(p, 8))
  }

  /** Codec round trip: a data packet is accepted and read as what was put in. */
  lemma DataRoundTrip(p: Packet, d: Data)
    requires IsDataPacket(p, d)
    ensures ParseData(p) == Some(d) && ParseAck(p) == None
  {
    assert p[HEADER_SIZE..HEADER_SIZE + |d.payload|] == p[HEADER_SIZE..];
  }

  /** Codec round trip for ACKs; an ACK is never taken for data. */
  lemma AckRoundTrip(p: Packet, ackNum: Word32)
    requires IsAckPacket(p, ackNum)
    ensures ParseAck(p) == Some(ackNum) && ParseData(p) == None
  {
  }

  /** The two checksum bytes, low byte first. */
  lemma ChecksumBytes(p: Packet)
    requires |p| >= 16
    ensures ChecksumOk(p) <==>
            var sum := ByteSum(p[2 := 0][3 := 0]);
            p[2] + 256 * p[3] as int == if sum == 0 then 65535 else 65534 - (sum - 1) % 65535
  {
    FoldedResidue(ByteSum(Zeroed(p)));
  }

  /** Every byte of a data packet. */
  lemma DataPacketBytes(p: Packet, d: Data)
    requires IsDataPacket(p, d)
    ensures |p| == 16 + |d.payload| && p[0] == 1 && p[1] == 0
    ensures p[4] as int * 0x100_0000 + p[5] as int * 0x1_0000 + p[6] as int * 0x100 + p[7] as int == d.seqNum
    ensures p[8] == p[9] == p[10] == p[11] == 0
    ensures p[12] as int * 0x100 + p[13] as int == |d.payload| && p[14] == 0 && p[15] == 64
    ensures p[16..] == d.payload
    ensures p[2] + 256 * p[3] as int == 65534 - (ByteSum(p[2 := 0][3 := 0]) - 1) % 65535
  {
    ChecksumBytes(p);
    FirstByteCounts(p[2 := 0][3 := 0]);
  }

  lemma {:induction false} FirstByteCounts(p: seq<Byte>)
    requires p != []
    ensures ByteSum(p) >= p[0]
  {
    if |p| > 1 {
      FirstByteCounts(p[..|p| - 1]);
    }
  }

  /** Every byte of an ACK. */
  lemma AckPacketBytes(p: Packet, ackNum: Word32)
    requires IsAckPacket(p, ackNum)
    ensures |p| == 16 && p[0] == 2 && p[1] == 0
    ensures p[4] == p[5] == p[6] == p[7] == 0
    ensures p[8] as int * 0x100_0000 + p[9] as int * 0x1_0000 + p[10] as int * 0x100 + p[11] as int == ackNum
    ensures p[12] == p[13] == p[14] == 0 && p[15] == 64
    ensures p[2] + 256 * p[3] as int == 65534 - (ByteSum(p[2 := 0][3 := 0]) - 1) % 65535
  {
    ChecksumBytes(p);
    FirstByteCounts(p[2 := 0][3 := 0]);
  }

  /** Exactly which bytes are taken for data, and what is read from them; bytes after the payload are allowed
      and covered by the checksum. */
  lemma ParseDataExactly(p: Packet, seqNum: Word32, payload: seq<Byte>)
    ensures ParseData(p) == Some(Data(seqNum, payload)) <==>
            && |p| >= 16 + |payload| && ChecksumOk(p) && p[0] == 1
            && p[4] as int * 0x100_0000 + p[5] as int * 0x1_0000 + p[6] as int * 0x100 + p[7] as int == seqNum
            && p[12] as int * 0x100 + p[13] as int == |payload| && p[16..16 + |payload|] == payload
  {
    hide ChecksumOk;
  }

  /** Exactly which bytes are taken for an ACK: sixteen or more that begin with 2, whatever the checksum. */
  lemma ParseAckExactly(p: Packet, ackNum: Word32)
    ensures ParseAck(p) == Some(ackNum) <==>
            && |p| >= 16 && p[0] == 2
            && p[8] as int * 0x100_0000 + p[9] as int * 0x1_0000 + p[10] as int * 0x100 + p[11] as int == ackNum
  {
  }

  /** The bytes of a field are determined by its value. */
  lemma LoadInjective(p: seq<Byte>, q: seq<Byte>, at: nat)
    requires at + 4 <= |p| && at + 4 <= |q|
    ensures Load16(p, at) == Load16(q, at) ==> p[at] == q[at] && p[at + 1] == q[at + 1]
    ensures Load32(p, at) == Load32(q, at) ==> p[at..at + 4] == q[at..at + 4]
  {
  }

  /** A packet is determined by what it carries, so every copy of it is byte-identical. */
  lemma SameBytes(p: Packet, q: Packet, kind: Byte, seqNum: Word32, ackNum: Word32, dataLen: Word16)
    requires |p| == |q| >= HEADER_SIZE && p[HEADER_SIZE..] == q[HEADER_SIZE..]
    requires HasFields(p, kind, seqNum, ackNum, dataLen) && HasFields(q, kind, seqNum, ackNum, dataLen)
    requires ChecksumOk(p) && ChecksumOk(q)
    ensures p == q
  {
    LoadInjective(p, q, 4);
    LoadInjective(p, q, 8);
    LoadInjective(p, q, 12);
    assert p[14] == q[14] && p[15] == q[15];
    var p0, q0 := Zeroed(p), Zeroed(q);
    forall i | 0 <= i < |p| && i != 2 && i != 3 ensures p[i] == q[i] {
      if 4 <= i < 8 {
        assert p[i] == p[4..8][i - 4];
      } else if 8 <= i < 12 {
        assert p[i] == p[8..12][i - 8];
      } else if HEADER_SIZE <= i {
        assert p[i] == p[HEADER_SIZE..][i - HEADER_SIZE];
      }
    }
    assert p0 == q0;
    assert ChecksumField(p) == ChecksumField(q);
  }

  lemma DataPacketUnique(p: Packet, q: Packet, d: Data)
    requires IsDataPacket(p, d) && IsDataPacket(q, d)
    ensures p == q
  {
    SameBytes(p, q, UDP_DATA, d.seqNum, 0, |d.payload|);
  }

  /** `htons` and `htonl` into the buffer. */
  method Store16(a: array<Byte>, at: nat, x: Word16)
    requires at + 2 <= a.Length
    modifies a
    ensures Load16(a[..], at) == x
    ensures forall i :: 0 <= i < a.Length && i != at && i != at + 1 ==> a[i] == old(a[i])
  {
    a[at], a[at + 1] := x / 0x100, x % 0x100;
  }

  method Store32(a: array<Byte>, at: nat, x: Word32)
    requires at + 4 <= a.Length
    modifies a
    ensures Load32(a[..], at) == x
    ensures forall i :: 0 <= i < a.Length && !(at <= i < at + 4) ==> a[i] == old(a[i])
  {
    Store16(a, at, x / 0x1_0000);
    Store16(a, at + 2, x % 0x1_0000);
  }

  method StoreHeader(packet: array<Byte>, kind: Byte, seqNum: Word32, ackNum: Word32, dataLen: Word16)
    requires packet.Length >= HEADER_SIZE
    modifies packet
    ensures HasFields(packet[..], kind, seqNum, ackNum, dataLen)
    ensures packet[2] == packet[3] == 0
  {
    packet[0], packet[1], packet[2], packet[3] := kind, 0, 0, 0;
    Store32(packet, 4, seqNum);
    Store32(packet, 8, ackNum);
    Store16(packet, 12, dataLen);
    Store16(packet, 14, WINDOW_SIZE);
  }

  /** The closing lines of both builders: sum with a zero checksum field, then store the result. */
  method Seal(packet: array<Byte>, len: nat)
    requires HEADER_SIZE <= len <= packet.Length && len <= MAX_SUMMABLE
    requires packet[2] == packet[3] == 0
    modifies packet
    ensures ChecksumOk(packet[..len])
    ensures forall i :: 0 <= i < packet.Length && i != 2 && i != 3 ==> packet[i] == old(packet[i])
  {
    ghost var unsummed := packet[..len];
    var checksum := CalculateChecksum(packet[..len]);
    packet[2], packet[3] := checksum % 0x100, checksum / 0x100;
    assert Zeroed(packet[..len]) == unsummed;
  }

  /** The fields of a header are in its bytes 0, 1 and 4 to 15. */
  lemma SameFields(p: Packet, q: Packet, kind: Byte, seqNum: Word32, ackNum: Word32, dataLen: Word16)
    requires |p| >= HEADER_SIZE && |q| >= HEADER_SIZE && HasFields(p, kind, seqNum, ackNum, dataLen)
    requires forall i :: 0 <= i < HEADER_SIZE && i != 2 && i != 3 ==> q[i] == p[i]
    ensures HasFields(q, kind, seqNum, ackNum, dataLen)
  {
  }

  /** The bytes of a packet before its checksum is stored. */
  ghost function Unsealed(kind: Byte, seqNum: Word32, ackNum: Word32, payload: seq<Byte>): (p: Packet)
    requires |payload| < TWO_16
    ensures |p| == HEADER_SIZE + |payload| && p[HEADER_SIZE..] == payload && p[2] == p[3] == 0
    ensures HasFields(p, kind, seqNum, ackNum, |payload|)
  {
    var header := [kind, 0, 0, 0] + Bytes32(seqNum) + Bytes32(ackNum) + Bytes16(|payload|) + Bytes16(WINDOW_SIZE);
    assert header[4..8] == Bytes32(seqNum) && header[8..12] == Bytes32(ackNum);
    assert header[12..14] == Bytes16(|payload|) && header[14..16] == Bytes16(WINDOW_SIZE);
    FieldsOf(header, kind, seqNum, ackNum, |payload|);
    SameFields(header, header + payload, kind, seqNum, ackNum, |payload|);
    header + payload
  }

  ghost function Bytes16(x: Word16): (b: seq<Byte>)
    ensures |b| == 2 && Load16(b, 0) == x
  {
    [x / 0x100, x % 0x100]
  }

  ghost function Bytes32(x: Word32): (b: seq<Byte>)
    ensures |b| == 4 && Load32(b, 0) == x
  {
    Bytes16(x / 0x1_0000) + Bytes16(x % 0x1_0000)
  }

  lemma FieldsOf(p: Packet, kind: Byte, seqNum: Word32, ackNum: Word32, dataLen: Word16)
    requires |p| == HEADER_SIZE && p[0] == kind && p[1] == 0
    requires Load32(p[4..8], 0) == seqNum && Load32(p[8..12], 0) == ackNum
    requires Load16(p[12..14], 0) == dataLen && Load16(p[14..16], 0) == WINDOW_SIZE
    ensures HasFields(p, kind, seqNum, ackNum, dataLen)
  {
  }

  /** There is a packet for everything that can be sent. */
  lemma PacketExists(kind: Byte, seqNum: Word32, ackNum: Word32, payload: seq<Byte>) returns (p: Packet)
    requires |payload| < TWO_16
    ensures |p| == HEADER_SIZE + |payload| && p[HEADER_SIZE..] == payload
    ensures HasFields(p, kind, seqNum, ackNum, |payload|) && ChecksumOk(p)
  {
    hide HasFields;
    var q := Unsealed(kind, seqNum, ackNum, payload);
    var c := ChecksumOf(q);
    p := q[2 := c % 0x100][3 := c / 0x100];
    assert Zeroed(p) == q;
    assert p[HEADER_SIZE..] == q[HEADER_SIZE..];
    SameFields(q, p, kind, seqNum, ackNum, |payload|);
  }

  /** `build_data_packet`: fills the front of the caller's buffer. */
  method BuildDataPacket(packet: array<Byte>, seqNum: Word32, data: seq<Byte>)
    requires |data| < TWO_16 && packet.Length >= HEADER_SIZE + |data|
    modifies packet
    ensures IsDataPacket(packet[..HEADER_SIZE + |data|], Data(seqNum, data))
    ensures ParseData(packet[..HEADER_SIZE + |data|]) == Some(Data(seqNum, data))
  {
    hide HasFields, ChecksumOk, ParseData;
    StoreHeader(packet, UDP_DATA, seqNum, 0, |data|);
    ghost var header := packet[..];
    forall i | 0 <= i < |data| {
      packet[HEADER_SIZE + i] := data[i];
    }
    var len := HEADER_SIZE + |data|;
    Seal(packet, len);
    SameFields(header, packet[..len], UDP_DATA, seqNum, 0, |data|);
    assert packet[..len][HEADER_SIZE..] == data;
    DataRoundTrip(packet[..len], Data(seqNum, data));
  }

  /** `build_ack_packet`. */
  method BuildAckPacket(packet: array<Byte>, ackNum: Word32)
    requires packet.Length == HEADER_SIZE
    modifies packet
    ensures IsAckPacket(packet[..], ackNum) && ParseAck(packet[..]) == Some(ackNum)
  {
    hide HasFields, ChecksumOk, ParseAck;
    StoreHeader(packet, UDP_ACK, 0, ackNum, 0);
    ghost var header := packet[..];
    Seal(packet, HEADER_SIZE);
    SameFields(header, packet[..], UDP_ACK, 0, ackNum, 0);
    assert packet[..HEADER_SIZE] == packet[..];
    AckRoundTrip(packet[..], ackNum);
  }

  /** The alterations that the checksum is guaranteed to catch: any one byte, or up to 256 bytes
      outside the checksum field whose sum changes. */
  ghost predicate Corrupts(p: Packet, q: Packet)
    requires |p| >= HEADER_SIZE
  {
    && |q| == |p|
    && (|| Differences(p, q) == 1
        || (p[2..4] == q[2..4] && Differences(p, q) <= 256 && ByteSum(p) != ByteSum(q)))
  }

  lemma {:induction false} ZeroAt(p: seq<Byte>, q: seq<Byte>, i: nat)
    requires i < |p| == |q|
    ensures ByteSum(p[i := 0]) == ByteSum(p) - p[i]
    ensures Differences(p[i := 0], q[i := 0]) == Differences(p, q) - (if p[i] == q[i] then 0 else 1)
  {
    var n := |p| - 1;
    if i == n {
      assert p[i := 0][..n] == p[..n] && q[i := 0][..n] == q[..n];
    } else {
      ZeroAt(p[..n], q[..n], i);
      assert p[i := 0][..n] == p[..n][i := 0] && q[i := 0][..n] == q[..n][i := 0];
    }
  }

  /** Taking the checksum bytes out of the sum and out of the difference count. */
  lemma WithoutChecksum(p: Packet, q: Packet)
    requires |p| == |q| >= HEADER_SIZE
    ensures ByteSum(Zeroed(p)) == ByteSum(p) - p[2] - p[3]
    ensures Differences(Zeroed(p), Zeroed(q))
            == Differences(p, q) - (if p[2] == q[2] then 0 else 1) - (if p[3] == q[3] then 0 else 1)
  {
    ZeroAt(p, q, 2);
    ZeroAt(p[2 := 0], q[2 := 0], 3);
  }

  /** A corrupted copy of a good packet is rejected. */
  lemma CorruptionRejected(p: Packet, q: Packet)
    requires |p| >= HEADER_SIZE && ChecksumOk(p) && Corrupts(p, q)
    ensures !ChecksumOk(q) && ParseData(q) == None
  {
    WithoutChecksum(p, q);
    WithoutChecksum(q, p);
    if p[2] == q[2] && p[3] == q[3] {
      if Differences(p, q) == 1 {
        OneDifferenceMovesSum(p, q);
      }
      ChecksumDetects(Zeroed(p), Zeroed(q));
    } else {
      assert p[2..4][0] == p[2] && p[2..4][1] == p[3];
      NoDifferences(Zeroed(p), Zeroed(q));
    }
  }

  /** Exactly which alterations outside the checksum field go unnoticed. */
  lemma AlterationAccepted(p: Packet, q: Packet)
    requires |p| == |q| >= HEADER_SIZE && ChecksumOk(p) && p[2] == q[2] && p[3] == q[3]
    ensures ChecksumOk(q) <==>
            var a, b := ByteSum(Zeroed(p)), ByteSum(Zeroed(q));
            (a - b) % 0xFFFF == 0 && (a == 0 <==> b == 0)
  {
    FoldedAgree(ByteSum(Zeroed(p)), ByteSum(Zeroed(q)));
  }
}
