/** The round-robin counter: a 64-bit atomic that wraps, reduced modulo the number of candidates. */
module RoundRobin {
  import opened Hashing

  /** The position picked by the `c`-th decision; the counter wraps at `modulus`. */
  function Pick(c: nat, modulus: nat, n: nat): (i: nat)
    requires modulus >= 1 && n >= 1
    ensures i < n
  {
    (c % modulus) % n
  }

  /** How many of the `len` decisions from `start` on pick position `i`. */
  function Hits(start: nat, len: nat, modulus: nat, n: nat, i: nat): nat
    requires modulus >= 1 && n >= 1
  {
    if len == 0 then 0
    else Hits(start, len - 1, modulus, n, i) + (if Pick(start + len - 1, modulus, n) == i then 1 else 0)
  }

  ghost predicate Periodic(start: nat, end: nat, modulus: nat, n: nat)
    requires modulus >= 1 && n >= 1
  {
    forall c | start <= c < end :: Pick(c, modulus, n) == c % n
  }

  /** The first decision takes the first candidate, and each later one the next, the first again after the
    * last, until the counter wraps; then the first.
    */
  lemma PicksCycle(c: nat, modulus: nat, n: nat)
    requires modulus >= n >= 1
    ensures Pick(0, modulus, n) == 0
    ensures Pick(c + 1, modulus, n)
            == if (c + 1) % modulus == 0 || Pick(c, modulus, n) == n - 1 then 0 else Pick(c, modulus, n) + 1
  {
    DivUnique(0, modulus, 0, 0);
    DivUnique(0, n, 0, 0);
    var q, r := c / modulus, c % modulus;
    assert c == q * modulus + r;
    if r == modulus - 1 {
      DivUnique(c + 1, modulus, q + 1, 0);
    } else {
      DivUnique(c + 1, modulus, q, r + 1);
      NextRemainder(r, n);
    }
  }

  lemma NextRemainder(c: nat, n: nat)
    requires n >= 1
    ensures (c + 1) % n == if c % n == n - 1 then 0 else c % n + 1
  {
    var q, r := c / n, c % n;
    assert c == q * n + r;
    if r == n - 1 {
      DivUnique(c + 1, n, q + 1, 0);
    } else {
      DivUnique(c + 1, n, q, r + 1);
    }
  }

  lemma {:induction false} HitsFromFront(start: nat, len: nat, modulus: nat, n: nat, i: nat)
    requires modulus >= 1 && n >= 1 && len >= 1
    ensures Hits(start, len, modulus, n, i) ==
            (if Pick(start, modulus, n) == i then 1 else 0) + Hits(start + 1, len - 1, modulus, n, i)
    decreases len
  {
    if len > 1 {
      HitsFromFront(start, len - 1, modulus, n, i);
      assert start + 1 + (len - 1) - 1 == start + len - 1;
    } else {
      assert Hits(start, 0, modulus, n, i) == 0 && Hits(start + 1, 0, modulus, n, i) == 0;
    }
  }

  lemma {:induction false} HitsSplit(start: nat, a: nat, b: nat, modulus: nat, n: nat, i: nat)
    requires modulus >= 1 && n >= 1
    ensures Hits(start, a + b, modulus, n, i) == Hits(start, a, modulus, n, i) + Hits(start + a, b, modulus, n, i)
    decreases b
  {
    if b > 0 {
      HitsSplit(start, a, b - 1, modulus, n, i);
      assert start + (a + b) - 1 == (start + a) + b - 1;
    }
  }

  lemma {:induction false} FirstRound(len: nat, modulus: nat, n: nat, i: nat)
    requires modulus >= 1 && n >= 1 && len <= n && i < n && Periodic(0, n, modulus, n)
    ensures Hits(0, len, modulus, n, i) == if i < len then 1 else 0
    decreases len
  {
    if len > 0 {
      FirstRound(len - 1, modulus, n, i);
      DivUnique(len - 1, n, 0, len - 1);
      assert Pick(0 + len - 1, modulus, n) == (len - 1) % n;
    }
  }

  lemma {:induction false} PeriodicRound(start: nat, modulus: nat, n: nat, i: nat)
    requires modulus >= 1 && n >= 1 && i < n && Periodic(0, start + n, modulus, n)
    ensures Hits(start, n, modulus, n, i) == 1
    decreases start
  {
    if start == 0 {
      FirstRound(n, modulus, n, i);
    } else {
      PeriodicRound(start - 1, modulus, n, i);
      HitsFromFront(start - 1, n, modulus, n, i);
      assert start - 1 + 1 == start;
      SameRemainder(start - 1, n);
      assert Pick(start + n - 1, modulus, n) == (start - 1 + n) % n;
      assert Pick(start - 1, modulus, n) == (start - 1) % n;
    }
  }

  lemma SameRemainder(c: nat, n: nat)
    requires n >= 1
    ensures (c + n) % n == c % n
  {
    var q, r := c / n, c % n;
    assert c + n == (q + 1) * n + r;
    DivUnique(c + n, n, q + 1, r);
  }

  lemma {:induction false} HitsMonotone(start: nat, a: nat, b: nat, modulus: nat, n: nat, i: nat)
    requires modulus >= 1 && n >= 1 && a <= b
    ensures Hits(start, a, modulus, n, i) <= Hits(start, b, modulus, n, i)
  {
    HitsSplit(start, a, b - a, modulus, n, i);
  }

  lemma {:induction false} PeriodicShares(start: nat, len: nat, modulus: nat, n: nat, i: nat)
    requires modulus >= 1 && n >= 1 && i < n && Periodic(0, start + len + n, modulus, n)
    ensures len / n <= Hits(start, len, modulus, n, i) <= len / n + 1
    decreases len
  {
    if len < n {
      PeriodicRound(start, modulus, n, i);
      HitsMonotone(start, len, n, modulus, n, i);
      DivZero(len, n);
    } else {
      PeriodicRound(start, modulus, n, i);
      HitsSplit(start, n, len - n, modulus, n, i);
      PeriodicShares(start + n, len - n, modulus, n, i);
      DivStep(len - n, n);
    }
  }

  lemma NoWrapIsPeriodic(end: nat, modulus: nat, n: nat)
    requires n >= 1 && modulus >= 1 && end <= modulus
    ensures Periodic(0, end, modulus, n)
  {
    forall c | 0 <= c < end ensures Pick(c, modulus, n) == c % n {
      DivUnique(c, modulus, 0, c);
    }
  }

  /** A window within one lap of the counter picks as a counter would that starts in the same place and
    * has room to spare.
    */
  lemma {:induction false} SameLap(start: nat, len: nat, modulus: nat, roomier: nat, n: nat, i: nat)
    requires modulus >= 1 && n >= 1 && roomier >= 1
    requires start % modulus + len <= modulus && start % modulus + len <= roomier
    ensures Hits(start, len, modulus, n, i) == Hits(start % modulus, len, roomier, n, i)
    decreases len
  {
    if len > 0 {
      SameLap(start, len - 1, modulus, roomier, n, i);
      SamePick(start, len - 1, modulus, roomier, n);
    }
  }

  lemma SamePick(start: nat, k: nat, modulus: nat, roomier: nat, n: nat)
    requires modulus >= 1 && n >= 1 && start % modulus + k < modulus && start % modulus + k < roomier
    ensures Pick(start + k, modulus, n) == Pick(start % modulus + k, roomier, n)
  {
    var q, r := start / modulus, start % modulus;
    assert start == q * modulus + r;
    DivUnique(start + k, modulus, q, r + k);
    DivUnique(r + k, roomier, 0, r + k);
  }

  /** Without a wrap, any `n` consecutive decisions hit each of the `n` candidates exactly once. */
  lemma RoundHitsOnce(start: nat, modulus: nat, n: nat, i: nat)
    requires modulus >= 1 && n >= 1 && i < n && start % modulus + n <= modulus
    ensures Hits(start, n, modulus, n, i) == 1
  {
    var r := start % modulus;
    SameLap(start, n, modulus, r + n, n, i);
    NoWrapIsPeriodic(r + n, r + n, n);
    PeriodicRound(r, r + n, n, i);
  }

  /** Over any window without a wrap, up to the very end of the lap, each candidate's share is the window
    * divided by their number, or one more; so shares differ by at most one.
    */
  lemma SharesWithinOne(start: nat, len: nat, modulus: nat, n: nat, i: nat)
    requires modulus >= 1 && n >= 1 && i < n && start % modulus + len <= modulus
    ensures len / n <= Hits(start, len, modulus, n, i) <= len / n + 1
  {
    var room := start % modulus + len + n;
    SameLap(start, len, modulus, room, n, i);
    NoWrapIsPeriodic(room, room, n);
    PeriodicShares(start % modulus, len, room, n, i);
  }

  lemma DivisorIsPeriodic(end: nat, modulus: nat, n: nat)
    requires n >= 1 && modulus >= 1 && modulus % n == 0
    ensures Periodic(0, end, modulus, n)
  {
    forall c | 0 <= c < end ensures Pick(c, modulus, n) == c % n {
      RemainderOfRemainder(c, modulus, n);
    }
  }

  lemma RemainderOfRemainder(c: nat, modulus: nat, n: nat)
    requires n >= 1 && modulus >= 1 && modulus % n == 0
    ensures (c % modulus) % n == c % n
  {
    var q, r, k := c / modulus, c % modulus, modulus / n;
    FactorOut(n, k, q, r / n, r % n);
    assert c == modulus * q + r && modulus == n * k && r == n * (r / n) + r % n;
    DivUnique(c, n, k * q + r / n, r % n);
  }

  lemma FactorOut(n: nat, k: nat, q: nat, q': nat, r: nat)
    ensures (n * k) * q + (n * q' + r) == (k * q + q') * n + r
  {
  }

  /** Across the wrap the balance survives exactly when the candidate count divides the counter's range,
    * that is, for 64 bits, when it is a power of two.
    */
  lemma RoundsSurviveWrapIff(modulus: nat, n: nat)
    requires modulus >= n >= 1
    ensures (forall start: nat, i: nat | i < n :: Hits(start, n, modulus, n, i) == 1) <==> modulus % n == 0
  {
    if modulus % n == 0 {
      forall start: nat, i: nat | i < n ensures Hits(start, n, modulus, n, i) == 1 {
        DivisorIsPeriodic(start + n, modulus, n);
        PeriodicRound(start, modulus, n, i);
      }
    } else {
      WrapHitsTwice(modulus, n);
    }
  }

  lemma WrapHitsTwice(modulus: nat, n: nat)
    requires modulus >= n >= 1 && modulus % n != 0
    ensures modulus % n - 1 < n && Hits(modulus - 1, n, modulus, n, modulus % n - 1) == 2
  {
    var r := modulus % n;
    HitsFromFront(modulus - 1, n, modulus, n, r - 1);
    LastBeforeWrap(modulus, n);
    AfterWrap(modulus, n, n - 1, r - 1);
    assert modulus - 1 + 1 == modulus;
  }

  lemma LastBeforeWrap(modulus: nat, n: nat)
    requires modulus >= n >= 1 && modulus % n != 0
    ensures Pick(modulus - 1, modulus, n) == modulus % n - 1
  {
    DivUnique(modulus - 1, modulus, 0, modulus - 1);
    var q, r := modulus / n, modulus % n;
    assert modulus - 1 == q * n + (r - 1);
    DivUnique(modulus - 1, n, q, r - 1);
  }

  lemma {:induction false} AfterWrap(modulus: nat, n: nat, len: nat, i: nat)
    requires modulus >= n >= 1 && len < n && i < n
    ensures Hits(modulus, len, modulus, n, i) == if i < len then 1 else 0
    decreases len
  {
    if len > 0 {
      AfterWrap(modulus, n, len - 1, i);
      PickAfterWrap(modulus, n, len - 1);
    }
  }

  lemma PickAfterWrap(modulus: nat, n: nat, c: nat)
    requires modulus >= n >= 1 && c < n
    ensures Pick(modulus + c, modulus, n) == c
  {
    DivUnique(modulus + c, modulus, 1, c);
    DivUnique(c, n, 0, c);
  }
}
