/** The additive checksum of `skeleton/protocol.h` and what it can detect. */
module Checksum {
  import opened Protocol

  /** No `uint32_t` accumulator overflows on this many bytes, and on one more it can. */
  const MAX_SUMMABLE: nat := 16_843_009

  ghost function ByteSum(p: seq<Byte>): nat {
    if p == [] then 0 else ByteSum(p[..|p| - 1]) + p[|p| - 1]
  }

  /** Casting out 65535s: what any number of end-around carries comes to. */
  ghost function Folded(sum: nat): Word16 {
    if sum <= 0xFFFF then sum else Folded(sum - 0xFFFF)
  }

  /** The mathematical checksum: the complement of the folded byte sum. */
  ghost function ChecksumOf(p: seq<Byte>): Word16 {
    0xFFFF - Folded(ByteSum(p))
  }

  /** The two loops, with the accumulator wrapping as a `uint32_t` does. */
  method CalculateChecksum(p: seq<Byte>) returns (checksum: Word16)
    ensures checksum == 0xFFFF - Folded(U32(ByteSum(p)))
    ensures |p| <= MAX_SUMMABLE ==> checksum == ChecksumOf(p)
  {
    var sum: Word32 := 0;
    for i := 0 to |p|
      invariant sum == U32(ByteSum(p[..i]))
    {
      assert p[..i + 1][..i] == p[..i];
      sum := U32(sum + p[i]);
    }
    assert p[..|p|] == p;
    if |p| <= MAX_SUMMABLE {
      ByteSumBound(p);
    }
    ghost var total := sum;
    while sum / TWO_16 != 0
      invariant Folded(sum) == Folded(total)
      decreases sum
    {
      FoldStep(sum);
      sum := sum % TWO_16 + sum / TWO_16;
    }
    checksum := 0xFFFF - sum;
  }

  /** The fold is the representative modulo 65535 in 1..65535, except that 0 stays 0. */
  lemma {:induction false} FoldedResidue(sum: nat)
    ensures Folded(sum) == if sum == 0 then 0 else 1 + (sum - 1) % 0xFFFF
  {
    if sum > 0xFFFF {
      FoldedResidue(sum - 0xFFFF);
      assert sum - 1 == (sum - 0xFFFF - 1) + 0xFFFF;
    }
  }

  /** One pass of the folding loop shrinks the sum and keeps its fold. */
  lemma FoldStep(sum: nat)
    requires sum >= TWO_16
    ensures 0 < sum % TWO_16 + sum / TWO_16 < sum
    ensures Folded(sum % TWO_16 + sum / TWO_16) == Folded(sum)
  {
    var q := sum / TWO_16;
    FoldedShift(sum % TWO_16 + q, q);
  }

  lemma {:induction false} FoldedShift(sum: nat, q: nat)
    requires sum > 0
    ensures Folded(sum + 0xFFFF * q) == Folded(sum)
  {
    if q > 0 {
      FoldedShift(sum, q - 1);
      assert sum + 0xFFFF * q - 0xFFFF == sum + 0xFFFF * (q - 1);
    }
  }

  /** The byte sum is the sum of the bytes, in any grouping. */
  lemma {:induction false} ByteSumAdds(p: seq<Byte>, b: Byte, q: seq<Byte>)
    ensures ByteSum([]) == 0 && ByteSum([b]) == b
    ensures ByteSum(p + q) == ByteSum(p) + ByteSum(q)
  {
    assert [b][..0] == [];
    if q == [] {
      assert p + q == p;
    } else {
      ByteSumAdds(p, b, q[..|q| - 1]);
      assert (p + q)[..|p + q| - 1] == p + q[..|q| - 1];
    }
  }

  /** What the checksum is: the number from 0 to 65534 that makes the sum a multiple of 65535, and 65535 for
      all zeros. */
  lemma ChecksumCancels(p: seq<Byte>)
    ensures (ByteSum(p) + ChecksumOf(p)) % 65535 == 0
    ensures ChecksumOf(p) == 65535 <==> ByteSum(p) == 0
  {
    FoldedResidue(ByteSum(p));
  }

  lemma {:induction false} ByteSumBound(p: seq<Byte>)
    ensures ByteSum(p) <= 255 * |p|
  {
    if p != [] {
      ByteSumBound(p[..|p| - 1]);
    }
  }

  /** `MAX_SUMMABLE` is exact: one byte more can overflow 32 bits. */
  lemma {:induction false} AllOnesSum(n: nat)
    ensures ByteSum(seq(n, _ => 255)) == 255 * n
    ensures n == MAX_SUMMABLE ==> ByteSum(seq(n, _ => 255)) == TWO_32 - 1
    ensures n == MAX_SUMMABLE + 1 ==> ByteSum(seq(n, _ => 255)) >= TWO_32
  {
    if n > 0 {
      AllOnesSum(n - 1);
      assert seq(n, _ => 255 as Byte)[..n - 1] == seq(n - 1, _ => 255);
    }
  }

  /** Two sums fold alike exactly when they are congruent and both zero or both positive. */
  lemma FoldedAgree(a: nat, b: nat)
    ensures Folded(a) == Folded(b) <==> (a - b) % 0xFFFF == 0 && (a == 0 <==> b == 0)
  {
    FoldedResidue(a);
    FoldedResidue(b);
    if a > 0 && b > 0 {
      assert (a - 1) - (b - 1) == a - b;
      if (a - b) % 0xFFFF == 0 {
        var k := (a - b) / 0xFFFF;
        assert a - 1 == b - 1 + 0xFFFF * k;
      }
    }
  }

  /** The number of positions at which two byte strings of one length differ. */
  ghost function Differences(p: seq<Byte>, q: seq<Byte>): nat
    requires |p| == |q|
  {
    if p == [] then 0
    else
      var n := |p| - 1;
      Differences(p[..n], q[..n]) + if p[n] == q[n] then 0 else 1
  }

  /** Each altered byte moves the sum by at most 255. */
  lemma {:induction false} SumMovesSlowly(p: seq<Byte>, q: seq<Byte>)
    requires |p| == |q|
    ensures -255 * Differences(p, q) <= ByteSum(p) - ByteSum(q) <= 255 * Differences(p, q)
  {
    if p != [] {
      SumMovesSlowly(p[..|p| - 1], q[..|p| - 1]);
    }
  }

  /** Altering one byte always changes the sum. */
  lemma {:induction false} OneDifferenceMovesSum(p: seq<Byte>, q: seq<Byte>)
    requires |p| == |q| && Differences(p, q) == 1
    ensures ByteSum(p) != ByteSum(q)
  {
    var n := |p| - 1;
    if p[n] == q[n] {
      OneDifferenceMovesSum(p[..n], q[..n]);
    } else {
      NoDifferences(p[..n], q[..n]);
    }
  }

  lemma {:induction false} NoDifferences(p: seq<Byte>, q: seq<Byte>)
    requires |p| == |q|
    ensures Differences(p, q) == 0 <==> p == q
  {
    if p != [] {
      var n := |p| - 1;
      NoDifferences(p[..n], q[..n]);
      assert p == p[..n] + [p[n]] && q == q[..n] + [q[n]];
    }
  }

  /** Among byte strings that differ in at most 256 places, equal checksums mean equal sums. */
  lemma ChecksumDetects(p: seq<Byte>, q: seq<Byte>)
    requires |p| == |q| && Differences(p, q) <= 256
    ensures ChecksumOf(p) == ChecksumOf(q) <==> ByteSum(p) == ByteSum(q)
  {
    SumMovesSlowly(p, q);
    FoldedAgree(ByteSum(p), ByteSum(q));
  }

  /** The bound 256 is exact: 257 altered bytes can leave the checksum unchanged. */
  lemma DetectionBoundIsTight()
    ensures exists p: seq<Byte>, q: seq<Byte> ::
      |p| == |q| && Differences(p, q) == 257 && ByteSum(p) != ByteSum(q) && ChecksumOf(p) == ChecksumOf(q)
  {
    var p: seq<Byte> := [1] + seq(257, _ => 0);
    var q: seq<Byte> := [1] + seq(257, _ => 255);
    Padded(257);
    FoldedAgree(ByteSum(p), ByteSum(q));
  }

  lemma {:induction false} Padded(n: nat)
    ensures var p: seq<Byte> := [1] + seq(n, _ => 0);
            var q: seq<Byte> := [1] + seq(n, _ => 255);
            ByteSum(p) == 1 && ByteSum(q) == 1 + 255 * n && Differences(p, q) == n
  {
    var p: seq<Byte> := [1] + seq(n, _ => 0);
    var q: seq<Byte> := [1] + seq(n, _ => 255);
    if n > 0 {
      Padded(n - 1);
      assert p[..n] == [1] + seq(n - 1, _ => 0);
      assert q[..n] == [1] + seq(n - 1, _ => 255);
    } else {
      assert p[..0] == [] && q[..0] == [];
    }
  }
}
