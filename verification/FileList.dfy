/** The directory's file list on the wire: 297-byte records behind a 16-bit length, and what the client
    makes of it. */
module FileList {
  import opened Protocol
  import opened Packets
  import opened Registry
  import opened CStrings
  import opened DirectoryServer

  const INFO_SIZE: nat := 297

  /** One line of the client's listing. */
  datatype Info = Info(id: Word32, size: Word32, peers: Byte, name: seq<Byte>)

  datatype Listing = NoFiles | Rejected | Listed(infos: seq<Info>)

  function Big16(x: Word16): seq<Byte> {
    [x / 0x100, x % 0x100]
  }

  function Big32(x: Word32): (b: seq<Byte>)
    ensures |b| == 4
  {
    Big16(x / 0x1_0000) + Big16(x % 0x1_0000)
  }

  lemma Big32RoundTrip(x: Word32)
    ensures Load32(Big32(x), 0) == x
  {
    var b := Big32(x);
    assert Load16(b, 0) == x / 0x1_0000 && Load16(b, 2) == x % 0x1_0000;
  }

  function InfoBytes(f: SharedFile): (b: seq<Byte>)
    ensures |b| == INFO_SIZE
  {
    Big32(f.id) + Big32(f.size) + f.hash + [1] + NameCopy(f.name)
  }

  /** How the client reads one record. */
  function ReadInfo(b: seq<Byte>): Info
    requires |b| == INFO_SIZE
  {
    Info(Load32(b, 0), Load32(b, 4), b[40], Text(b[41..]))
  }

  /** What the client should show for a stored file. */
  function InfoOf(f: SharedFile): Info {
    Info(f.id, f.size, 1, Text(f.name))
  }

  lemma InfoRoundTrip(f: SharedFile)
    ensures ReadInfo(InfoBytes(f)) == InfoOf(f)
  {
    hide Big32, Load32, NameCopy;
    var b := InfoBytes(f);
    Big32RoundTrip(f.id);
    Big32RoundTrip(f.size);
    assert b[..4] == Big32(f.id) && b[4..8] == Big32(f.size);
    LoadAt(b, 0);
    LoadAt(b, 4);
    assert b[40] == 1;
    assert b[41..] == NameCopy(f.name);
    NameCopyStable(f.name);
  }

  /** Every byte of a record. */
  lemma InfoLayout(f: SharedFile)
    ensures var b := InfoBytes(f);
            && |b| == 297
            && b[0] as int * 0x100_0000 + b[1] as int * 0x1_0000 + b[2] as int * 0x100 + b[3] as int == f.id
            && b[4] as int * 0x100_0000 + b[5] as int * 0x1_0000 + b[6] as int * 0x100 + b[7] as int == f.size
            && b[8..40] == f.hash && b[40] == 1 && b[41..] == f.name
  {
    hide NameCopy;
    NameCopyStable(f.name);
    var b := InfoBytes(f);
    assert b[8..40] == f.hash && b[41..] == NameCopy(f.name);
  }

  lemma LoadAt(b: seq<Byte>, at: nat)
    requires at + 4 <= |b|
    ensures Load32(b, at) == Load32(b[at..at + 4], 0)
  {
  }

  ghost function Body(files: seq<SharedFile>): (b: seq<Byte>)
    ensures |b| == INFO_SIZE * |files|
  {
    if files == [] then [] else Body(files[..|files| - 1]) + InfoBytes(files[|files| - 1])
  }

  lemma {:induction false} BodySlice(files: seq<SharedFile>, i: nat)
    requires i < |files|
    ensures Body(files)[INFO_SIZE * i..INFO_SIZE * (i + 1)] == InfoBytes(files[i])
  {
    hide InfoBytes;
    var n := |files| - 1;
    var rest, last := Body(files[..n]), InfoBytes(files[n]);
    if i == n {
      assert (rest + last)[INFO_SIZE * n..] == last;
    } else {
      BodySlice(files[..n], i);
      assert INFO_SIZE * (i + 1) <= |rest|;
      assert (rest + last)[INFO_SIZE * i..INFO_SIZE * (i + 1)] == rest[INFO_SIZE * i..INFO_SIZE * (i + 1)];
    }
  }

  /** `handle_list_files`: the 16-bit length in the header, and the records. */
  method HandleListFiles(server: Server) returns (dataLen: Word16, body: seq<Byte>)
    requires server.Valid()
    ensures dataLen == U16(INFO_SIZE * server.numFiles) && body == Body(server.files[..server.numFiles])
  {
    hide InfoBytes;
    ghost var files := server.files[..server.numFiles];
    dataLen := U16(server.numFiles * INFO_SIZE);
    body := [];
    for i := 0 to server.numFiles
      invariant body == Body(files[..i])
    {
      assert files[..i + 1][..i] == files[..i];
      body := body + InfoBytes(server.files[i]);
    }
    assert files[..server.numFiles] == files;
  }

  /** The client's side: `stream` is what the connection delivers after the header. */
  method ReadList(dataLen: Word16, stream: seq<Byte>) returns (listing: Listing)
    ensures dataLen == 0 <==> listing == NoFiles
    ensures listing == Rejected <==> dataLen % INFO_SIZE != 0 || |stream| < dataLen
    ensures listing.Listed? ==>
              && |listing.infos| == dataLen / INFO_SIZE
              && forall i :: 0 <= i < |listing.infos| ==>
                   INFO_SIZE * (i + 1) <= |stream|
                   && listing.infos[i] == ReadInfo(stream[INFO_SIZE * i..INFO_SIZE * (i + 1)])
  {
    hide ReadInfo;
    if dataLen == 0 { return NoFiles; }
    if dataLen % INFO_SIZE != 0 { return Rejected; }
    if |stream| < dataLen { return Rejected; }
    var buffer := stream[..dataLen];
    var infos: seq<Info> := [];
    for i := 0 to dataLen / INFO_SIZE
      invariant |infos| == i
      invariant forall j :: 0 <= j < i ==>
        INFO_SIZE * (j + 1) <= |stream| && infos[j] == ReadInfo(stream[INFO_SIZE * j..INFO_SIZE * (j + 1)])
    {
      assert INFO_SIZE * (i + 1) <= dataLen;
      assert buffer[INFO_SIZE * i..INFO_SIZE * (i + 1)] == stream[INFO_SIZE * i..INFO_SIZE * (i + 1)];
      infos := infos + [ReadInfo(buffer[INFO_SIZE * i..INFO_SIZE * (i + 1)])];
    }
    listing := Listed(infos);
  }

  /** Up to 220 files the 16-bit length is right; from 221 on it is cut off, and never to a multiple of
      the record size. */
  lemma LengthExact(n: nat)
    requires n <= MAX_FILES
    ensures n <= 220 ==> U16(INFO_SIZE * n) == INFO_SIZE * n
    ensures n > 220 ==> U16(INFO_SIZE * n) % INFO_SIZE != 0
  {
    var q := INFO_SIZE * n / TWO_16;
    assert U16(INFO_SIZE * n) == INFO_SIZE * n - TWO_16 * q;
    assert q == 0 || q == 1 || q == 2 || q == 3 || q == 4;
    assert TWO_16 * q == INFO_SIZE * (220 * q) + 196 * q;
    if n > 220 {
      CutOff(n, q);
    }
  }

  lemma CutOff(n: nat, q: nat)
    requires 1 <= q <= 4 && INFO_SIZE * n >= INFO_SIZE * (220 * q) + 196 * q
    ensures (INFO_SIZE * n - INFO_SIZE * (220 * q) - 196 * q) % INFO_SIZE != 0
  {
    var r := INFO_SIZE * n - INFO_SIZE * (220 * q) - 196 * q;
    assert r == INFO_SIZE * (n - 220 * q) + -196 * q;
    assert r % INFO_SIZE == (-196 * q) % INFO_SIZE;
  }

  /** List round trip: the client shows exactly the stored ids, sizes and names, in order, if and only if
      there are at most 220 files; otherwise it rejects the reply. */
  method ListRoundTrip(server: Server) returns (listing: Listing)
    requires server.Valid()
    ensures server.numFiles == 0 ==> listing == NoFiles
    ensures server.numFiles > 220 <==> listing == Rejected
    ensures 0 < server.numFiles <= 220 ==>
              && listing.Listed? && |listing.infos| == server.numFiles
              && forall i :: 0 <= i < server.numFiles ==> listing.infos[i] == InfoOf(server.files[i])
  {
    hide InfoBytes, ReadInfo, NameCopy, InfoOf;
    var dataLen, body := HandleListFiles(server);
    listing := ReadList(dataLen, body);
    LengthExact(server.numFiles);
    ghost var files := server.files[..server.numFiles];
    if 0 < server.numFiles <= 220 {
      assert listing.Listed? && |listing.infos| == server.numFiles;
      forall i | 0 <= i < server.numFiles ensures listing.infos[i] == InfoOf(files[i]) {
        BodySlice(files, i);
        InfoRoundTrip(files[i]);
      }
    }
  }
}
