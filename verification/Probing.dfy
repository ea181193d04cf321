/** Triangular probing over a table whose size is a power of two, as the hash index
    uses it: start at the home slot and step by 1, 2, 3, ... */
module Probing {
  import opened Words

  /** The distance from the home slot after `j` steps. */
  function Tri(j: nat): nat
  {
    if j == 0 then 0 else Tri(j - 1) + j
  }

  /** The slot examined after `j` steps. */
  function Probe(home: int, j: nat, n: nat): (slot: nat)
    requires n > 0
    ensures slot < n
  {
    (home + Tri(j)) % n
  }

  lemma {:induction false} TriClosed(j: nat)
    ensures 2 * Tri(j) == j * (j + 1)
  {
    if j == 0 {
    } else {
      TriClosed(j - 1);
    }
  }

  // ----- Divisibility -----------------------------------------------------------

  /** Values with the same remainder differ by a multiple. */
  lemma SameRemainder(x: int, y: int, n: nat) returns (t: int)
    requires n > 0 && x % n == y % n
    ensures x - y == t * n
  {
    t := x / n - y / n;
    assert x == x / n * n + x % n;
    assert y == y / n * n + y % n;
  }

  lemma RemainderUnique(x: int, q: int, r: nat, n: nat)
    requires n > 0 && x == q * n + r && r < n
    ensures x % n == r
  {
    var p, m := x / n, x % n;
    assert x == p * n + m;
    assert (q - p) * n == m - r;
    if q > p {
      MulAtLeast(q - p, n);
    } else if q < p {
      MulAtLeast(p - q, n);
    }
  }

  /** An odd factor does not help a product to a power of two. */
  lemma {:induction false} OddFactor(a: nat, b: nat, q: int, k: nat) returns (r: int)
    requires a % 2 == 1 && a * b == q * Pow2(k)
    ensures b == r * Pow2(k)
    decreases k
  {
    if k == 0 {
      r := b;
    } else {
      var half := q * Pow2(k - 1);
      assert a * b == 2 * half;
      OddTimes(a, b, half);
      var c := b / 2;
      assert a * b == 2 * (a * c);
      r := OddFactor(a, c, q, k - 1);
    }
  }

  lemma OddTimes(a: nat, b: nat, half: int)
    requires a % 2 == 1 && a * b == 2 * half
    ensures b % 2 == 0
  {
    var x := a / 2;
    assert a * b == 2 * (x * b) + b;
    assert b == 2 * (half - x * b);
  }

  // ----- Where the probes go ----------------------------------------------------

  /** Two probes meet only if the product of the gap and the sum is a multiple of 2n. */
  lemma MeetingProduct(home: int, i: nat, j: nat, n: nat) returns (t: int)
    requires i <= j && n > 0 && Probe(home, i, n) == Probe(home, j, n)
    ensures (j - i) * (j + i + 1) == t * (2 * n)
  {
    t := SameRemainder(home + Tri(j), home + Tri(i), n);
    TriClosed(i);
    TriClosed(j);
    assert (j - i) * (j + i + 1) == j * (j + 1) - i * (i + 1);
    assert t * (2 * n) == 2 * (t * n);
  }

  lemma NoMultiple(x: int, r: int, n: nat)
    requires 0 < x < n
    ensures x != r * n
  {
    if r >= 1 {
      MulAtLeast(r, n);
    } else {
      assert -r * n >= 0;
    }
  }

  lemma Pow2Succ(m: nat)
    ensures Pow2(m + 1) == 2 * Pow2(m)
  {
  }

  /** The factors have different parity, so one of them would have to carry the
      whole power of two. */
  lemma NoMeeting(a: nat, b: nat, t: int, m: nat)
    requires 0 < a < 2 * Pow2(m) && 0 < b < 2 * Pow2(m) && (a + b) % 2 == 1
    ensures a * b != t * (2 * Pow2(m))
  {
    hide Pow2;
    Pow2Succ(m);
    if a % 2 == 1 {
      NoMeetingOdd(a, b, t, m + 1);
    } else {
      NoMeetingOdd(b, a, t, m + 1);
      assert a * b == b * a;
    }
  }

  lemma NoMeetingOdd(a: nat, b: nat, t: int, k: nat)
    requires a % 2 == 1 && 0 < b < Pow2(k)
    ensures a * b != t * Pow2(k)
  {
    hide Pow2;
    if a * b == t * Pow2(k) {
      var r := OddFactor(a, b, t, k);
      NoMultiple(b, r, Pow2(k));
    }
  }

  /** The first n probes are pairwise different. */
  lemma ProbesDistinct(home: int, i: nat, j: nat, m: nat)
    requires i < j < Pow2(m)
    ensures Probe(home, i, Pow2(m)) != Probe(home, j, Pow2(m))
  {
    hide Tri, Probe;
    if Probe(home, i, Pow2(m)) == Probe(home, j, Pow2(m)) {
      var t := MeetingProduct(home, i, j, Pow2(m));
      NoMeeting(j - i, j + i + 1, t, m);
    }
  }

  /** The probe sequence first returns to its start after 2n - 1 steps. */
  lemma FirstReturn(home: int, j: nat, m: nat)
    requires 1 <= j < 2 * Pow2(m)
    ensures Probe(home, j, Pow2(m)) == Probe(home, 0, Pow2(m)) <==> j == 2 * Pow2(m) - 1
  {
    var n := Pow2(m);
    if j == 2 * n - 1 {
      TriClosed(j);
      assert 2 * Tri(j) == j * (2 * n) == 2 * (j * n);
      assert home + Tri(j) == home + j * n;
      ShiftByMultiple(home, j, n);
    } else if Probe(home, j, n) == Probe(home, 0, n) {
      var t := MeetingProduct(home, 0, j, n);
      NoMeeting(j, j + 1, t, m);
    }
  }

  lemma ShiftByMultiple(x: int, k: int, n: nat)
    requires n > 0
    ensures (x + k * n) % n == x % n
  {
    assert x == x / n * n + x % n;
    assert x + k * n == (x / n + k) * n + x % n;
    RemainderUnique(x + k * n, x / n + k, x % n, n);
  }

  lemma ReduceFirst(x: int, d: int, n: nat)
    requires n > 0
    ensures (x % n + d) % n == (x + d) % n
  {
    assert x == x / n * n + x % n;
    ShiftByMultiple(x % n + d, x / n, n);
  }

  /** One step of the loop: add the step, wrap around, increase the step. */
  lemma NextProbe(home: int, j: nat, n: nat)
    requires n > 0
    ensures (Probe(home, j, n) + (j + 1)) % n == Probe(home, j + 1, n)
  {
    ReduceFirst(home + Tri(j), j + 1, n);
  }

  /** A home slot is as good as the hash it came from. */
  lemma ProbeFromSlot(home: int, j: nat, n: nat)
    requires n > 0
    ensures Probe(home % n, j, n) == Probe(home, j, n)
  {
    ReduceFirst(home, Tri(j), n);
  }

  // ----- Every slot is reached ----------------------------------------------------

  ghost function Visited(home: int, k: nat, n: nat): set<nat>
    requires n > 0
  {
    set j | 0 <= j < k :: Probe(home, j, n)
  }

  lemma {:induction false} VisitedCount(home: int, k: nat, m: nat)
    requires k <= Pow2(m)
    ensures |Visited(home, k, Pow2(m))| == k
  {
    hide Probe;
    if k == 0 {
    } else {
      var n := Pow2(m);
      VisitedCount(home, k - 1, m);
      forall i | 0 <= i < k - 1
        ensures Probe(home, i, n) != Probe(home, k - 1, n)
      {
        ProbesDistinct(home, i, k - 1, m);
      }
      assert Visited(home, k, n) == Visited(home, k - 1, n) + {Probe(home, k - 1, n)};
    }
  }

  ghost function Below(n: nat): (r: set<nat>)
    ensures forall s: nat :: s in r <==> s < n
    ensures |r| == n
  {
    if n == 0 then {} else Below(n - 1) + {n - 1}
  }

  lemma SubsetOfSameSize(a: set<nat>, b: set<nat>)
    requires a <= b && |a| == |b|
    ensures a == b
  {
    if x :| x in b && x !in a {
      assert a <= b - {x};
      SubsetSize(a, b - {x});
    }
  }

  lemma {:induction false} SubsetSize(a: set<nat>, b: set<nat>)
    requires a <= b
    ensures |a| <= |b|
    decreases a
  {
    if a == {} {
    } else {
      var x :| x in a;
      SubsetSize(a - {x}, b - {x});
    }
  }

  /** Within the first n probes every slot is examined. */
  lemma AllVisited(home: int, slot: nat, m: nat) returns (j: nat)
    requires slot < Pow2(m)
    ensures j < Pow2(m) && Probe(home, j, Pow2(m)) == slot
  {
    hide Probe;
    var n := Pow2(m);
    VisitedCount(home, n, m);
    SubsetOfSameSize(Visited(home, n, n), Below(n));
    assert slot in Visited(home, n, n);
    j :| 0 <= j < n && Probe(home, j, n) == slot;
  }
}
