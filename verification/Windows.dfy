/** The least number missing from a set, 64-slot indices, and counting. */
module Windows {
  import opened Protocol

  /** `m` is the least natural number that is not in `s`. */
  ghost predicate IsMex(m: nat, s: set<nat>) {
    m !in s && forall k :: 0 <= k < m ==> k in s
  }

  ghost function Mex(s: set<nat>): (m: nat)
    ensures IsMex(m, s)
  {
    MexExists(s, 0);
    var m: nat :| IsMex(m, s);
    m
  }

  lemma MexExists(s: set<nat>, from: nat)
    requires forall k :: 0 <= k < from ==> k in s
    ensures exists m: nat :: IsMex(m, s)
    decreases |s - Below(from)|
  {
    if from in s {
      assert s - Below(from + 1) == s - Below(from) - {from};
      MexExists(s, from + 1);
    } else {
      assert IsMex(from, s);
    }
  }

  lemma MexUnique(s: set<nat>, m: nat)
    requires IsMex(m, s)
    ensures Mex(s) == m
  {
    assert Mex(s) < m ==> Mex(s) in s;
    assert m < Mex(s) ==> m in s;
  }

  lemma MexMonotone(s: set<nat>, t: set<nat>)
    requires s <= t
    ensures Mex(s) <= Mex(t)
  {
    assert Mex(t) < Mex(s) ==> Mex(t) in s;
  }

  ghost function Below(n: nat): (s: set<nat>)
    ensures |s| == n && forall k: nat :: k in s <==> k < n
  {
    if n == 0 then {} else Below(n - 1) + {n - 1}
  }

  /** A set of numbers below `n` has `n` members exactly when nothing below `n` is missing. */
  lemma FullSet(s: set<nat>, n: nat)
    requires s <= Below(n)
    ensures |s| <= n
    ensures |s| == n <==> Mex(s) == n
    ensures |s| == n <==> s == Below(n)
  {
    SubsetSize(s, Below(n));
    if s == Below(n) {
      MexUnique(s, n);
    }
    if Mex(s) == n {
      assert s == Below(n);
    }
  }

  lemma {:induction false} SubsetSize<T>(s: set<T>, t: set<T>)
    requires s <= t
    ensures |s| <= |t|
    ensures |s| == |t| <==> s == t
  {
    assert t == s + (t - s);
    assert |t| == |s| + |t - s|;
    if |s| == |t| {
      assert t - s == {};
    }
  }

  /** A set that holds everything below `m` has `m` members besides those from `m` on. */
  lemma SplitAt(s: set<nat>, m: nat, above: set<nat>)
    requires forall k: nat :: k < m ==> k in s
    requires forall k: nat :: k in above <==> k in s && m <= k
    ensures |s| == m + |above|
  {
    assert s == Below(m) + above;
    assert Below(m) !! above;
  }

  /** The slot of a 64-entry ring that a sequence number uses. */
  function Slot(k: nat): (i: nat)
    ensures i < WINDOW_SIZE
  {
    k % WINDOW_SIZE
  }

  /** Within one window no two sequence numbers share a slot; one window on they do. */
  lemma SlotsDistinct(base: nat, j: nat, k: nat)
    requires base <= j < base + WINDOW_SIZE && base <= k < base + WINDOW_SIZE
    ensures Slot(j) == Slot(k) <==> j == k
    ensures Slot(j + WINDOW_SIZE) == Slot(j)
  {
  }

  /** The one sequence number of the window at `base` that uses slot `i`. */
  function SeqAt(base: nat, i: nat): (k: nat)
    requires i < WINDOW_SIZE
    ensures base <= k < base + WINDOW_SIZE && Slot(k) == i
  {
    base + (i - base) % WINDOW_SIZE
  }

  /** Counting slots is the same as counting the window's sequence numbers. */
  lemma RingCount(base: nat, slots: set<nat>, numbers: set<nat>)
    requires forall i :: i in slots ==> i < WINDOW_SIZE
    requires forall k: nat :: k in numbers <==> base <= k < base + WINDOW_SIZE && Slot(k) in slots
    ensures |slots| == |numbers|
    decreases slots
  {
    if slots == {} {
      assert numbers == {};
    } else {
      var i :| i in slots;
      var k := SeqAt(base, i);
      forall j | j in numbers - {k} ensures Slot(j) in slots - {i} {
        SlotsDistinct(base, j, k);
      }
      RingCount(base, slots - {i}, numbers - {k});
    }
  }
}
