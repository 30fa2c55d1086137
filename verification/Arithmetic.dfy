/** Facts about products, quotients and remainders of naturals. */
module Arithmetic {

  // ----- 64-bit words

  /** The number of 64-bit words. */
  const LIMIT: nat := 0x1_0000_0000_0000_0000

  /** Reduction to 64 bits. */
  function Wrap(n: nat): (w: nat)
    ensures w < LIMIT
  {
    n % LIMIT
  }

  lemma WrapSmall(n: nat)
    requires n < LIMIT
    ensures Wrap(n) == n
  {
  }

  lemma WrapAdd(a: nat, b: nat, c: nat)
    ensures Wrap(Wrap(a) + b) == Wrap(a + b)
    ensures Wrap(Wrap(a) + Wrap(b) + c) == Wrap(a + b + c)
  {
    WrapShift(Wrap(a) + b, a / LIMIT);
    WrapShift(Wrap(a) + Wrap(b) + c, a / LIMIT + b / LIMIT);
  }

  lemma WrapShift(n: nat, q: nat)
    ensures Wrap(n + q * LIMIT) == Wrap(n)
  {
  }

  // ----- Products, quotients and remainders

  lemma Distribute(k: nat, m: nat, n: nat)
    ensures k * (m + n) == k * m + k * n
  {
  }

  lemma MulNext(m: nat, d: nat)
    ensures (m + 1) * d == m * d + d
  {
  }

  lemma MulMonotone(d: nat, m: nat, n: nat)
    requires m <= n
    ensures d * m <= d * n
  {
  }

  lemma MulCancel(d: nat, m: nat, n: nat)
    requires d > 0 && d * m == n * d
    ensures m == n
  {
    if m < n {
      MulMonotone(d, m + 1, n);
    } else if n < m {
      MulMonotone(d, n + 1, m);
    }
  }

  lemma Quotient(n: nat, d: nat) returns (m: nat)
    requires d > 0
    ensures n == d * m + n % d
  {
    m := n / d;
  }

  /** The remainder is the only one below the divisor. */
  lemma ModUnique(x: nat, n: nat, q: nat, r: nat)
    requires n > 0 && x == q * n + r && r < n
    ensures x % n == r
  {
    var q' := x / n;
    var r' := x % n;
    assert x == q' * n + r';
    assert (q - q') * n == r' - r;
    if q > q' {
      MulMonotone(n, 1, q - q');
    } else if q < q' {
      MulMonotone(n, 1, q' - q);
    }
  }

  lemma DivMod(x: nat, q: nat, n: nat, r: nat)
    requires r < n && x == q * n + r
    ensures x / n == q && x % n == r
  {
    ModUnique(x, n, q, r);
    assert x == n * (x / n) + x % n;
    MulCancel(n, x / n, q);
  }

  lemma QuotientBelow(x: nat, q: nat, n: nat)
    requires x < q * n
    ensures n > 0 && x / n < q
  {
    MulMonotone(q, 0, n);
    if n > 0 && x / n >= q {
      MulMonotone(n, q, x / n);
    }
  }

  /** The remainder by repeated subtraction. */
  function Residue(i: nat, n: nat): (r: nat)
    requires n > 0
    ensures r < n && r <= i
  {
    if i < n then i else Residue(i - n, n)
  }

  lemma {:induction false} ResidueIsMod(i: nat, n: nat) returns (q: nat)
    requires n > 0
    ensures i == q * n + Residue(i, n) && Residue(i, n) == i % n
  {
    if i < n {
      q := 0;
      ModUnique(i, n, 0, i);
    } else {
      var q' := ResidueIsMod(i - n, n);
      q := q' + 1;
      MulNext(q', n);
      ModUnique(i, n, q, Residue(i, n));
    }
  }

  /** Numbers less than `n` apart have different residues. */
  lemma {:induction false} ResidueApart(i: nat, p: nat, n: nat)
    requires n > 0 && i < p < i + n
    ensures Residue(p, n) != Residue(i, n)
  {
    if i >= n {
      ResidueApart(i - n, p - n, n);
    }
  }
}
