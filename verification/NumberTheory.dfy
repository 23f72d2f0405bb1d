/** Elementary facts about products, remainders and the greatest common divisor. */
module NumberTheory {

  lemma MulMono(x: int, y: int, d: int)
    requires x <= y && 0 <= d
    ensures x * d <= y * d
  {
    assert (y - x) * d >= 0;
  }

  lemma DivisionUnique(q: int, r: int, q': int, r': int, d: int)
    requires 0 <= r < d && 0 <= r' < d && q * d + r == q' * d + r'
    ensures q == q' && r == r'
  {
    if q < q' {
      MulMono(q + 1, q', d);
    } else if q' < q {
      MulMono(q' + 1, q, d);
    }
  }

  lemma MulCancel(a: int, b: int, d: int)
    requires d > 0 && a * d == b * d
    ensures a == b
  {
    DivisionUnique(a, 0, b, 0, d);
  }

  lemma MulDistribute(a: int, b: int, d: int)
    ensures (a + b) * d == a * d + b * d
    ensures (a - b) * d == a * d - b * d
  {
  }

  lemma MulAssociate(a: int, b: int, c: int)
    ensures (a * b) * c == a * (b * c) == (a * c) * b
  {
  }

  /**
   * The remainder of n by repeated subtraction. Proofs use this form because it keeps
   * products out of the solver's sight; `WrapIsMod` says that it is `n % len`.
   */
  function Wrap(n: nat, len: nat): (r: nat)
    requires len > 0
    ensures r < len
  {
    if n < len then n else Wrap(n - len, len)
  }

  /** n is Wrap(n, len) and a whole number of turns. */
  lemma {:induction false} WrapQuotient(n: nat, len: nat) returns (q: nat)
    requires len > 0
    ensures n == q * len + Wrap(n, len)
  {
    if n < len {
      q := 0;
    } else {
      var q' := WrapQuotient(n - len, len);
      q := q' + 1;
      MulDistribute(q', 1, len);
    }
  }

  lemma WrapUnique(n: nat, len: nat, q: int, r: int)
    requires 0 <= r < len && n == q * len + r
    ensures Wrap(n, len) == r
  {
    var q' := WrapQuotient(n, len);
    DivisionUnique(q, r, q', Wrap(n, len), len);
  }

  lemma WrapIsMod(n: nat, len: nat)
    requires len > 0
    ensures Wrap(n, len) == n % len
  {
    WrapUnique(n, len, n / len, n % len);
  }

  lemma WrapOnce(n: nat, len: nat)
    requires len <= n < 2 * len
    ensures Wrap(n, len) == n - len
  {
    WrapUnique(n, len, 1, n - len);
  }

  /** Wrapping one summand first makes no difference. */
  lemma WrapAdd(n: nat, m: nat, len: nat)
    requires len > 0
    ensures Wrap(Wrap(n, len) + m, len) == Wrap(n + m, len)
  {
    var q := WrapQuotient(n, len);
    var q' := WrapQuotient(Wrap(n, len) + m, len);
    MulDistribute(q, q', len);
    WrapUnique(n + m, len, q + q', Wrap(Wrap(n, len) + m, len));
  }

  /** Wrapping to a multiple of g does not change the remainder by g. */
  lemma WrapRespectsDivisor(n: nat, g: nat, times: nat)
    requires g > 0 && times * g > 0
    ensures Wrap(Wrap(n, times * g), g) == Wrap(n, g)
  {
    var q := WrapQuotient(n, times * g);
    var q' := WrapQuotient(Wrap(n, times * g), g);
    MulAssociate(q, times, g);
    MulDistribute(q * times, q', g);
    WrapUnique(n, g, q * times + q', Wrap(Wrap(n, times * g), g));
  }

  // ----- Greatest common divisor -----

  /** Euclid's recursion on the remainders that the loop of `gcd` runs through. */
  function Gcd(m: nat, n: nat): (g: nat)
    requires n > 0
    ensures 0 < g <= n
    decreases n
  {
    if Wrap(m, n) == 0 then n else Gcd(n, Wrap(m, n))
  }

  /** The result divides both arguments; `a` and `b` are the two quotients. */
  lemma {:induction false} GcdDivides(m: nat, n: nat) returns (a: nat, b: nat)
    requires n > 0
    ensures m == a * Gcd(m, n) && n == b * Gcd(m, n)
    decreases n
  {
    var q := WrapQuotient(m, n);
    if Wrap(m, n) == 0 {
      a, b := q, 1;
    } else {
      var a', b' := GcdDivides(n, Wrap(m, n));
      var g := Gcd(n, Wrap(m, n));
      MulAssociate(q, a', g);
      MulDistribute(q * a', b', g);
      a, b := q * a' + b', a';
    }
  }

  /** Bezout: the result is an integer combination of the arguments. */
  lemma {:induction false} Bezout(m: nat, n: nat) returns (u: int, v: int)
    requires n > 0
    ensures u * m + v * n == Gcd(m, n)
    decreases n
  {
    if Wrap(m, n) == 0 {
      u, v := 0, 1;
    } else {
      var q := WrapQuotient(m, n);
      var u', v' := Bezout(n, Wrap(m, n));
      u, v := v', u' - v' * q;
      BezoutStep(m, n, q, Wrap(m, n), u', v');
    }
  }

  lemma BezoutStep(m: int, n: int, q: int, r: int, u': int, v': int)
    requires m == q * n + r
    ensures v' * m + (u' - v' * q) * n == u' * n + v' * r
  {
    MulAssociate(v', q, n);
    MulDistribute(u', v' * q, n);
    assert v' * (q * n + r) == v' * (q * n) + v' * r;
  }

  /** Every common divisor divides the result, so the result is the greatest one. */
  lemma {:induction false} GcdIsGreatest(m: nat, n: nat, d: nat, a: nat, b: nat)
    requires n > 0 && d > 0 && m == a * d && n == b * d
    ensures Wrap(Gcd(m, n), d) == 0 && d <= Gcd(m, n)
  {
    var u, v := Bezout(m, n);
    MulAssociate(u, a, d);
    MulAssociate(v, b, d);
    MulDistribute(u * a, v * b, d);
    WrapUnique(Gcd(m, n), d, u * a + v * b, 0);
  }

  /** The quotients of two numbers by their greatest common divisor are coprime. */
  lemma QuotientsCoprime(m: nat, n: nat) returns (a: nat, b: nat, u: int, v: int)
    requires n > 0
    ensures m == a * Gcd(m, n) && n == b * Gcd(m, n) && u * a + v * b == 1
  {
    var g := Gcd(m, n);
    a, b := GcdDivides(m, n);
    u, v := Bezout(m, n);
    MulAssociate(u, a, g);
    MulAssociate(v, b, g);
    MulDistribute(u * a, v * b, g);
    MulCancel(u * a + v * b, 1, g);
  }
}
