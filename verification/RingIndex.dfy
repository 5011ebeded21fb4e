/** Ring indices: the bit trick behind `wrap_ring`, the power-of-two guard of the
    `start_*_queue` functions, and the modular arithmetic every ring proof uses. */
module RingIndex {

  /** Bitwise AND of two unsigned machine words, digit by digit. */
  function BitAnd(a: nat, b: nat): nat
    decreases a, 1
  {
    if a == 0 || b == 0 then 0 else AndDigits(a, b)
  }

  /** The lowest digits, then the others. */
  function AndDigits(a: nat, b: nat): nat
    requires a > 0 && b > 0
    decreases a, 0
  {
    (a % 2) * (b % 2) + 2 * BitAnd(a / 2, b / 2)
  }

  function Pow2(k: nat): (p: nat)
    ensures p >= 1
  {
    if k == 0 then 1 else 2 * Pow2(k - 1)
  }

  ghost predicate IsPowerOfTwo(n: nat) {
    exists k: nat :: n == Pow2(k)
  }

  /** `(index + 1) & (ring_size - 1)` */
  function WrapRing(index: nat, ringSize: nat): nat
    requires ringSize >= 1
  {
    BitAnd(index + 1, ringSize - 1)
  }

  /** The guard both queues are started with: `n & (n - 1) == 0`. */
  predicate SizeGuard(n: nat)
    requires n >= 1
  {
    BitAnd(n, n - 1) == 0
  }

  lemma {:induction false} MaskIsMod(x: nat, k: nat)
    ensures BitAnd(x, Pow2(k) - 1) == x % Pow2(k)
  {
    if k > 0 {
      MaskIsMod(x / 2, k - 1);
      MaskStep(x, Pow2(k - 1), Pow2(k));
    } else {
      assert Pow2(k) == 1 && BitAnd(x, 0) == 0;
    }
  }

  lemma MaskStep(x: nat, p: nat, n: nat)
    requires p >= 1 && n == 2 * p && BitAnd(x / 2, p - 1) == x / 2 % p
    ensures BitAnd(x, n - 1) == x % n
  {
    var low := BitAnd(x / 2, p - 1);
    assert BitAnd(x, n - 1) == x % 2 + 2 * low by {
      OddMask(x, n - 1);
      assert (n - 1) / 2 == p - 1;
    }
    SplitMod(x, p, n, low);
  }

  lemma OddMask(x: nat, m: nat)
    requires m % 2 == 1
    ensures BitAnd(x, m) == x % 2 + 2 * BitAnd(x / 2, m / 2)
  {
  }

  lemma SplitMod(x: nat, p: nat, n: nat, r: nat)
    requires p >= 1 && n == 2 * p && r == x / 2 % p
    ensures x % n == x % 2 + 2 * r
  {
    var q := x / 2 / p;
    assert x / 2 == q * p + r;
    assert x == q * n + (x % 2 + 2 * r) by {
      assert q * n == 2 * (q * p);
    }
    ModUnique(x, q, x % 2 + 2 * r, n);
  }

  lemma MulBounds(a: int, m: nat)
    ensures a >= 1 ==> a * m >= m
    ensures a <= 0 ==> a * m <= 0
    ensures a <= -1 ==> a * m + m <= 0
  {
    assert (a - 1) * m == a * m - m;
    assert (a + 1) * m == a * m + m;
  }

  lemma MulMonotone(a: nat, b: nat, n: nat)
    requires a <= b
    ensures a * n <= b * n
  {
    MulBounds(b - a, n);
    assert (b - a) * n == b * n - a * n;
  }

  lemma ModUnique(x: int, q: int, r: int, m: int)
    requires m >= 1 && 0 <= r < m && x == q * m + r
    ensures x % m == r && x / m == q
  {
    var q', r' := x / m, x % m;
    assert (q - q') * m == r' - r;
    MulBounds(q - q', m);
  }

  /** The guard accepts exactly the powers of two. */
  lemma {:induction false} SizeGuardExact(n: nat)
    requires n >= 1
    ensures SizeGuard(n) <==> IsPowerOfTwo(n)
  {
    if n == 1 {
      assert n == Pow2(0);
    } else if n % 2 == 1 {
      OddDigits(n);
      SelfAnd(n / 2);
      forall k: nat ensures n != Pow2(k) {
      }
    } else {
      EvenDigits(n);
      SizeGuardExact(n / 2);
      HalfPower(n);
    }
  }

  lemma EvenDigits(n: nat)
    requires n >= 2 && n % 2 == 0
    ensures BitAnd(n, n - 1) == 2 * BitAnd(n / 2, n / 2 - 1)
  {
    assert (n - 1) / 2 == n / 2 - 1;
  }

  lemma OddDigits(n: nat)
    requires n >= 3 && n % 2 == 1
    ensures BitAnd(n, n - 1) == 2 * BitAnd(n / 2, n / 2)
  {
    assert (n - 1) / 2 == n / 2 && (n - 1) % 2 == 0;
  }

  lemma HalfPower(n: nat)
    requires n >= 2 && n % 2 == 0
    ensures IsPowerOfTwo(n / 2) <==> IsPowerOfTwo(n)
  {
    if IsPowerOfTwo(n / 2) {
      var k: nat :| n / 2 == Pow2(k);
      assert n == Pow2(k + 1);
    }
    if IsPowerOfTwo(n) {
      var k: nat :| n == Pow2(k);
      assert n / 2 == Pow2(k - 1);
    }
  }

  lemma Square(bit: nat)
    requires bit < 2
    ensures bit * bit == bit
  {
  }

  lemma {:induction false} SelfAnd(a: nat)
    ensures BitAnd(a, a) == a
  {
    if a > 0 {
      SelfAnd(a / 2);
      Square(a % 2);
    }
  }

  /** On a ring of `n` slots `wrap_ring` is the successor modulo `n` for every slot
      exactly when `n` is a power of two. */
  lemma WrapRingExact(n: nat)
    requires n >= 1
    ensures IsPowerOfTwo(n) <==> forall i: nat :: i < n ==> WrapRing(i, n) == (i + 1) % n
  {
    if IsPowerOfTwo(n) {
      var k: nat :| n == Pow2(k);
      forall i: nat | i < n ensures WrapRing(i, n) == (i + 1) % n {
        MaskIsMod(i + 1, k);
      }
    } else {
      SizeGuardExact(n);
      assert WrapRing(n - 1, n) != 0 == n % n;
    }
  }

  /** Counting form: the index of counter `c` moves to the index of `c + 1`. */
  lemma WrapCounter(c: nat, i: nat, n: nat)
    requires n >= 1 && IsPowerOfTwo(n) && i == c % n
    ensures WrapRing(i, n) == (c + 1) % n
  {
    WrapRingExact(n);
    ModStep(c, n);
  }

  lemma ModStep(c: nat, n: nat)
    requires n >= 1
    ensures (c + 1) % n == (c % n + 1) % n
  {
    ModShift(c, 1, n);
  }

  lemma ModShift(c: nat, d: nat, n: nat)
    requires n >= 1
    ensures (c + d) % n == (c % n + d) % n
  {
    var q, r := c / n, c % n;
    var q', r' := (r + d) / n, (r + d) % n;
    assert c == q * n + r && r + d == q' * n + r';
    assert c + d == (q + q') * n + r';
    ModUnique(c + d, q + q', r', n);
  }

  /** Two counters less than one lap apart share a slot only if they are equal. */
  lemma ModInjective(a: nat, b: nat, n: nat)
    requires n >= 1 && a <= b < a + n
    ensures a % n == b % n <==> a == b
  {
    var qa, qb := a / n, b / n;
    assert a == qa * n + a % n && b == qb * n + b % n;
    assert b - a == (qb - qa) * n + (b % n - a % n) by {
      assert qb * n - qa * n == (qb - qa) * n;
    }
    MulBounds(qb - qa, n);
  }

  /** One full lap returns to the same slot. */
  lemma ModLap(a: nat, n: nat)
    requires n >= 1
    ensures (a + n) % n == a % n
  {
    ModUnique(a + n, a / n + 1, a % n, n);
  }

  /** Slots of counters less than a lap apart are distinct. */
  lemma SlotsDiffer(a: nat, b: nat, n: nat)
    requires n >= 1 && a != b && a < b + n && b < a + n
    ensures a % n != b % n
  {
    if a < b { ModInjective(a, b, n); } else { ModInjective(b, a, n); }
  }

  lemma WrapBelow(i: nat, n: nat)
    requires n >= 1 && IsPowerOfTwo(n)
    ensures WrapRing(i, n) < n
  {
    var k: nat :| n == Pow2(k);
    MaskIsMod(i + 1, k);
  }

  lemma SlotAhead(i: nat, d: nat, n: nat)
    requires n >= 1 && i < n && d <= n
    ensures (i + d) % n == if i + d < n then i + d else i + d - n
  {
    if i + d < n { ModUnique(i + d, 0, i + d, n); } else { ModUnique(i + d, 1, i + d - n, n); }
  }

  /** `k` applications of `wrap_ring`. */
  function WrapTimes(i: nat, k: nat, n: nat): nat
    requires n >= 1
  {
    if k == 0 then i else WrapRing(WrapTimes(i, k - 1, n), n)
  }

  lemma {:induction false} WrapTimesIsMod(i: nat, k: nat, n: nat)
    requires n >= 1 && IsPowerOfTwo(n) && i < n
    ensures WrapTimes(i, k, n) == (i + k) % n
  {
    if k == 0 {
      ModUnique(i, 0, i, n);
    } else {
      WrapTimesIsMod(i, k - 1, n);
      WrapCounter(i + k - 1, WrapTimes(i, k - 1, n), n);
    }
  }

  /** `wrap_ring` is one single cycle: from any slot, every slot is reached after exactly
      one number of steps below `n`, and the `n`-th step is back at the start. */
  lemma WrapRingIsOneCycle(i: nat, j: nat, n: nat) returns (k: nat)
    requires n >= 1 && IsPowerOfTwo(n) && i < n && j < n
    ensures k < n && WrapTimes(i, k, n) == j
    ensures forall k': nat :: k' < n && WrapTimes(i, k', n) == j ==> k' == k
    ensures WrapTimes(i, n, n) == i
  {
    k := if j >= i then j - i else j + n - i;
    ModLap(j, n);
    ModUnique(j, 0, j, n);
    WrapTimesIsMod(i, k, n);
    forall k': nat | k' < n && WrapTimes(i, k', n) == j ensures k' == k {
      WrapTimesIsMod(i, k', n);
      if k' <= k { ModInjective(i + k', i + k, n); } else { ModInjective(i + k, i + k', n); }
    }
    WrapTimesIsMod(i, n, n);
    ModLap(i, n);
    ModUnique(i, 0, i, n);
  }

  // ---- stretches of a ring ----

  /** Slot `i` lies in the stretch from index `from` up to, not including, index `to`. */
  predicate InRing(i: nat, from: nat, to: nat) {
    if from <= to then from <= i < to else from <= i || i < to
  }

  /** The stretch between the indices of two counters less than a lap apart holds exactly the
      slots of the counters between them. */
  lemma InRingCounter(i: nat, a: nat, b: nat, n: nat) returns (c: nat)
    requires n >= 1 && i < n && a <= b < a + n
    ensures a <= c < a + n && c % n == i
    ensures InRing(i, a % n, b % n) <==> c < b
  {
    var x, m := a % n, b - a;
    c := if i >= x then a + (i - x) else a + (i + n - x);
    ModShift(a, m, n);
    SlotAhead(x, m, n);
    ModShift(a, c - a, n);
    SlotAhead(x, c - a, n);
  }
}
