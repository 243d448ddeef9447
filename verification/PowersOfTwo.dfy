/** Powers of two and modular arithmetic, as used by the index computations of the library. */
module PowersOfTwo {

  const TWO64: nat := 0x1_0000_0000_0000_0000

  function Pow2(k: nat): (p: nat)
    ensures p > 0
  {
    if k == 0 then 1 else 2 * Pow2(k - 1)
  }

  lemma Pow2One()
    ensures Pow2(0) == 1 && Pow2(1) == 2
  {
  }

  lemma Pow2Next(k: nat)
    ensures Pow2(k + 1) == 2 * Pow2(k)
  {
  }

  lemma Regroup(x: nat, y: nat)
    ensures 2 * (x * y) == (2 * x) * y
  {
  }

  lemma {:induction false} Pow2Add(a: nat, b: nat)
    ensures Pow2(a + b) == Pow2(a) * Pow2(b)
    decreases a
  {
    if a == 0 {
      assert Pow2(0) == 1;
    } else {
      hide Pow2;
      Pow2Add(a - 1, b);
      Pow2Next(a - 1);
      Pow2Next(a - 1 + b);
      Regroup(Pow2(a - 1), Pow2(b));
    }
  }

  lemma {:induction false} Pow2Monotone(a: nat, b: nat)
    requires a <= b
    ensures Pow2(a) <= Pow2(b)
    decreases b - a
  {
    if a < b {
      Pow2Monotone(a + 1, b);
    }
  }

  lemma Pow2Double(k: nat, v: nat)
    requires Pow2(k) == v
    ensures Pow2(2 * k) == v * v
  {
    hide Pow2;
    Pow2Add(k, k);
  }

  lemma Pow2At64()
    ensures Pow2(64) == TWO64
  {
    assert Pow2(4) == 0x10;
    hide Pow2;
    Pow2Double(4, 0x10);
    Pow2Double(8, 0x100);
    Pow2Double(16, 0x10000);
    Pow2Double(32, 0x1_0000_0000);
  }

  /** The smallest power of two that is at least n, searching upwards from p. */
  function RoundUp(n: nat, p: nat): (r: nat)
    requires p > 0
    ensures r >= n
    ensures r > p ==> r < 2 * n
    decreases if p >= n then 0 else n - p
  {
    if p >= n then p else RoundUp(n, 2 * p)
  }

  /** Rounding up from a power gives a power: the first from there on that is large enough. */
  lemma {:induction false} RoundUpIsLeast(n: nat, k: nat, limit: nat) returns (j: nat)
    requires k <= limit && n <= Pow2(limit)
    ensures k <= j <= limit && RoundUp(n, Pow2(k)) == Pow2(j) >= n
    ensures forall i :: k <= i < j ==> Pow2(i) < n
    decreases limit - k
  {
    j := k;
    if Pow2(k) < n {
      j := RoundUpIsLeast(n, k + 1, limit);
    }
  }

  lemma MulGrows(a: int, n: nat)
    requires a >= 1
    ensures a * n >= n
  {
    assert a * n == (a - 1) * n + n;
  }

  lemma QuotientUnique(n: nat, q: int, r: int, q': int, r': int)
    requires q * n + r == q' * n + r' && 0 <= r < n && 0 <= r' < n
    ensures r == r'
  {
    assert (q - q') * n == r' - r;
    if q > q' {
      MulGrows(q - q', n);
    } else if q < q' {
      assert (q' - q) * n == r - r';
      MulGrows(q' - q, n);
    }
  }

  lemma ModUnique(x: int, n: nat, q: int, r: int)
    requires n > 0 && x == q * n + r && 0 <= r < n
    ensures x % n == r
  {
    QuotientUnique(n, q, r, x / n, x % n);
  }

  lemma Quotient(x: nat, n: nat) returns (q: nat)
    requires n > 0
    ensures x == q * n + x % n && x % n < n
  {
    q := x / n;
  }

  lemma ModOfMod(x: int, n: nat, m: nat)
    requires n > 0 && m > 0
    ensures n * m > 0 && (x % (n * m)) % n == x % n
  {
    var q, r := x / (n * m), x % (n * m);
    assert x == (n * m) * q + r;
    var q', r' := r / n, r % n;
    assert r == n * q' + r';
    assert x == (m * q + q') * n + r' by {
      assert (n * m) * q == (m * q) * n;
    }
    ModUnique(x, n, m * q + q', r');
  }
}
