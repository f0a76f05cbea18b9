/** How a file is cut into 1024-byte chunks, and where 32-bit arithmetic agrees with that. */
module Chunking {
  import opened Protocol

  /** The largest size whose rounded-up chunk count is computed without wrapping. */
  const MAX_FILE_SIZE: nat := TWO_32 - CHUNK_SIZE

  /** The number of chunks a file of `size` bytes really has. */
  function ChunkCount(size: nat): nat {
    (size + CHUNK_SIZE - 1) / CHUNK_SIZE
  }

  /** `sr_sender_init`: the count in `uint32_t` arithmetic. */
  function SenderChunkCount(fileSize: Word32): nat {
    U32(U32(fileSize + CHUNK_SIZE) - 1) / CHUNK_SIZE
  }

  /** The event loop's announcement: computed as a `long`, converted to `int` and to `uint32_t`. */
  function AnnouncedChunkCount(actualSize: nat): Word32 {
    U32(ChunkCount(actualSize))
  }

  /** Chunk `k` of a file; the last one may be short. */
  function Chunk(file: seq<Byte>, k: nat): (c: seq<Byte>)
    requires k * CHUNK_SIZE <= |file|
    ensures |c| <= CHUNK_SIZE
  {
    file[k * CHUNK_SIZE..Min((k + 1) * CHUNK_SIZE, |file|)]
  }

  /** The part of a file that a 32-bit size speaks of: the client casts the size it has read. */
  function Cut(file: seq<Byte>): (c: seq<Byte>)
    ensures |c| == U32(|file|)
    ensures |file| < TWO_32 ==> c == file
  {
    assert U32(|file|) <= |file|;
    file[..U32(|file|)]
  }

  /** Every one of `n` chunks starts inside a file of `size` bytes, and offsets fit 32 bits. */
  predicate Spans(size: nat, n: nat) {
    size < TWO_32 && n * CHUNK_SIZE < TWO_32 && n * CHUNK_SIZE < size + CHUNK_SIZE
  }

  lemma SenderCountExact(fileSize: Word32)
    ensures fileSize <= MAX_FILE_SIZE ==> SenderChunkCount(fileSize) == ChunkCount(fileSize)
    ensures fileSize > MAX_FILE_SIZE ==> SenderChunkCount(fileSize) == 0 && ChunkCount(fileSize) > 0
    ensures Spans(fileSize, SenderChunkCount(fileSize))
  {
  }

  /** The sender's count and the count announced to the receiver agree exactly when the size, rounded up
      and taken modulo 2^42, is below 2^32; for sizes up to 2^42 that is up to `MAX_FILE_SIZE`. */
  lemma CountsAgree(actualSize: nat)
    ensures SenderChunkCount(U32(actualSize)) == AnnouncedChunkCount(actualSize)
            <==> (actualSize + CHUNK_SIZE - 1) % (TWO_32 * CHUNK_SIZE) < TWO_32
    ensures actualSize < TWO_32 * CHUNK_SIZE - CHUNK_SIZE ==>
              (SenderChunkCount(U32(actualSize)) == AnnouncedChunkCount(actualSize)
               <==> actualSize <= MAX_FILE_SIZE)
  {
    hide SenderChunkCount;
    var x := actualSize + CHUNK_SIZE - 1;
    SenderCountRemainder(actualSize);
    RemaindersAgree(x / CHUNK_SIZE);
    ScaledRemainder(x, TWO_32);
    QuotientBelow(x % (TWO_32 * CHUNK_SIZE));
  }

  /** The announced count is never the smaller, and the sender's covers what it was given. */
  lemma CountsOrdered(actualSize: nat)
    ensures SenderChunkCount(U32(actualSize)) <= AnnouncedChunkCount(actualSize)
    ensures U32(actualSize) <= MAX_FILE_SIZE ==> U32(actualSize) <= SenderChunkCount(U32(actualSize)) * CHUNK_SIZE
    ensures U32(actualSize) > MAX_FILE_SIZE ==> SenderChunkCount(U32(actualSize)) == 0
  {
    SenderCountRemainder(actualSize);
    RemainderSmaller(ChunkCount(actualSize));
    SenderCountExact(U32(actualSize));
    CountCovers(U32(actualSize));
  }

  lemma CountCovers(size: nat)
    ensures size <= ChunkCount(size) * CHUNK_SIZE
  {
  }

  lemma RemainderSmaller(n: nat)
    ensures n % 0x40_0000 <= n % TWO_32
  {
    NestedRemainder(n);
  }

  lemma RemaindersAgree(n: nat)
    ensures n % 0x40_0000 == n % TWO_32 <==> n % TWO_32 < 0x40_0000
  {
    NestedRemainder(n);
  }

  lemma QuotientBelow(z: nat)
    ensures z / CHUNK_SIZE < 0x40_0000 <==> z < TWO_32
  {
  }

  /** What the two counts are for every size that 32 bits can say. */
  lemma BothCounts(size: Word32)
    ensures size <= AnnouncedChunkCount(size) * CHUNK_SIZE < size + CHUNK_SIZE
    ensures size <= MAX_FILE_SIZE ==> SenderChunkCount(size) == AnnouncedChunkCount(size)
    ensures size > MAX_FILE_SIZE ==> SenderChunkCount(size) == 0 && AnnouncedChunkCount(size) == 0x40_0000
  {
    SenderCountExact(size);
  }

  lemma SenderCountRemainder(actualSize: nat)
    ensures SenderChunkCount(U32(actualSize)) == ChunkCount(actualSize) % 0x40_0000
  {
    var x := actualSize + CHUNK_SIZE - 1;
    RoundedUp(actualSize / TWO_32, actualSize % TWO_32);
    ScaledRemainder(x, 0x40_0000);
  }

  lemma RoundedUp(q: nat, r: Word32)
    ensures U32(U32(r + CHUNK_SIZE) - 1) == (q * TWO_32 + r + CHUNK_SIZE - 1) % TWO_32
  {
    var y := if r + CHUNK_SIZE - 1 < TWO_32 then r + CHUNK_SIZE - 1 else r + CHUNK_SIZE - 1 - TWO_32;
    var p := if r + CHUNK_SIZE - 1 < TWO_32 then q else q + 1;
    assert q * TWO_32 + r + CHUNK_SIZE - 1 == p * TWO_32 + y;
  }

  lemma ScaledRemainder(x: nat, m: nat)
    requires m == 0x40_0000 || m == TWO_32
    ensures x % (m * CHUNK_SIZE) / CHUNK_SIZE == x / CHUNK_SIZE % m
  {
    var q, r := x / (m * CHUNK_SIZE), x % (m * CHUNK_SIZE);
    assert x / CHUNK_SIZE == q * m + r / CHUNK_SIZE;
  }

  lemma NestedRemainder(n: nat)
    ensures n % TWO_32 % 0x40_0000 == n % 0x40_0000
  {
    var q, r := n / TWO_32, n % TWO_32;
    assert n == (q * 0x400 + r / 0x40_0000) * 0x40_0000 + r % 0x40_0000;
  }

  /** For a chunk the sender sends, no 32-bit or 16-bit step of `sr_sender_send_window` wraps. */
  lemma ChunkArithmetic(file: seq<Byte>, n: nat, k: nat)
    requires Spans(|file|, n) && k < n
    ensures k * CHUNK_SIZE < |file|
    ensures U32(k * CHUNK_SIZE) == k * CHUNK_SIZE && U32(k * CHUNK_SIZE + CHUNK_SIZE) == (k + 1) * CHUNK_SIZE
    ensures U32(k + WINDOW_SIZE) == k + WINDOW_SIZE
    ensures (if (k + 1) * CHUNK_SIZE > |file| then U16(|file| - k * CHUNK_SIZE) else CHUNK_SIZE) == |Chunk(file, k)|
    ensures 0 < |Chunk(file, k)| <= CHUNK_SIZE
    ensures k * CHUNK_SIZE + |Chunk(file, k)| <= |file|
    ensures forall i :: 0 <= i < |Chunk(file, k)| ==> Chunk(file, k)[i] == file[k * 1024 + i]
    ensures |Chunk(file, k)| == 1024 || k * 1024 + |Chunk(file, k)| == |file|
  {
  }

  /** The first `n` chunks, one after the other. */
  ghost function Joined(file: seq<Byte>, n: nat): seq<Byte>
    requires n <= ChunkCount(|file|)
  {
    if n == 0 then [] else Joined(file, n - 1) + Chunk(file, n - 1)
  }

  /** The chunks in order are the file. */
  lemma {:induction false} ChunksRebuildFile(file: seq<Byte>, n: nat)
    requires n <= ChunkCount(|file|)
    ensures Joined(file, n) == file[..Min(n * CHUNK_SIZE, |file|)]
    ensures n == ChunkCount(|file|) ==> Joined(file, n) == file
  {
    if n > 0 {
      ChunksRebuildFile(file, n - 1);
      var a, b := (n - 1) * CHUNK_SIZE, Min(n * CHUNK_SIZE, |file|);
      assert file[..a] + file[a..b] == file[..b];
    }
    if n == ChunkCount(|file|) {
      assert file[..|file|] == file;
    }
  }
}
