/** Quotients and remainders by a variable divisor. */
module Division {

  lemma SmallMultiple(k: int, d: int)
    requires -d < k * d < d
    ensures k == 0
  {
    assert k >= 1 ==> k * d >= d;
    assert k <= -1 ==> k * d <= -d;
  }

  /** Quotient and remainder are determined by the number. */
  lemma SameQuotient(a: int, r: nat, b: int, q: nat, n: nat)
    requires r < n && q < n && a * n + r == b * n + q
    ensures a == b && r == q
  {
    assert (a - b) * n == a * n - b * n;
    SmallMultiple(a - b, n);
  }

  lemma Quotient(x: nat, q: nat, r: nat, n: nat)
    requires r < n && x == q * n + r
    ensures x / n == q && x % n == r
  {
    assert x == (x / n) * n + x % n;
    SameQuotient(x / n, x % n, q, r, n);
  }

  /** Counting one further. */
  lemma NextQuotient(k: nat, n: nat)
    requires n > 0
    ensures (k + 1) % n == 0 ==> (k + 1) / n == k / n + 1 && k % n == n - 1
    ensures (k + 1) % n != 0 ==> (k + 1) / n == k / n && (k + 1) % n == k % n + 1
    ensures k % n < n
  {
    NextOf(k, k / n, k % n, n);
  }

  lemma NextOf(k: nat, q: nat, r: nat, n: nat)
    requires r < n && k == q * n + r
    ensures if r + 1 == n then (k + 1) / n == q + 1 && (k + 1) % n == 0 else (k + 1) / n == q && (k + 1) % n == r + 1
  {
    if r + 1 == n {
      assert (q + 1) * n == q * n + n;
      Quotient(k + 1, q + 1, 0, n);
    } else {
      Quotient(k + 1, q, r + 1, n);
    }
  }

  lemma MulGrows(a: nat, b: nat, n: nat)
    requires a <= b
    ensures a * n <= b * n
  {
  }

  lemma MulMonotone(a: nat, b: nat, n: nat)
    requires n > 0
    ensures a <= b <==> a * n <= b * n
  {
    if a > b {
      assert a * n >= (b + 1) * n == b * n + n;
    } else {
      assert a * n <= b * n;
    }
  }

  /** Numbers are ordered like their quotients, then like their remainders. */
  lemma QuotientOrder(a: nat, r: nat, b: nat, t: nat, n: nat)
    requires r < n && t < n && a * n + r < b * n + t
    ensures a < b || (a == b && r < t)
  {
    assert (b + 1) * n == b * n + n;
    if a > b {
      MulGrows(b + 1, a, n);
    }
  }

  lemma QuotientAtLeast(x: nat, n: nat, q: nat)
    requires n > 0
    ensures x / n >= q <==> x >= q * n
  {
    assert x == (x / n) * n + x % n;
    assert (x / n + 1) * n == (x / n) * n + n;
    if x / n >= q {
      MulGrows(q, x / n, n);
    } else {
      MulGrows(x / n + 1, q, n);
    }
  }

  /** Dividing in two steps, carrying the remainder. */
  lemma DivideOn(r: nat, d: nat, n: nat)
    requires n > 0
    ensures (r + d) / n == d / n + (r + d % n) / n && (r + d) % n == (r + d % n) % n
  {
    DivideParts(r, d, n, d / n, d % n, (r + d % n) / n, (r + d % n) % n);
  }

  lemma DivideParts(r: nat, d: nat, n: nat, q: nat, e: nat, c: nat, f: nat)
    requires d == q * n + e && r + e == c * n + f && f < n
    ensures (r + d) / n == q + c && (r + d) % n == f
  {
    assert (q + c) * n == q * n + c * n;
    Quotient(r + d, q + c, f, n);
  }

  lemma NothingCarried(x: nat, n: nat)
    requires n > 0
    ensures x / n == 0 ==> x % n == x
  {
    assert x == (x / n) * n + x % n;
  }
}
