/** The decrypt primitive `mpz_powm(decrypted, block, e, n)`: textbook RSA
    (RSADP / RSAVP1 of section 5.1.2 and 5.2.2 of RFC 8017, without padding),
    computed by binary square-and-multiply exponentiation. */
module ModExp {
  import opened Numerals

  /** `c^e mod n`, with every intermediate product reduced below `n`. GMP
      divides by `n`; a zero modulus is a fatal arithmetic fault there. */
  method ModPow(c: nat, e: nat, n: nat) returns (m: nat)
    requires n > 0
    ensures m == Pow(c, e) % n
  {
    var x: nat, k: nat := c % n, e;
    m := 1 % n;
    PowModBase(c, e, n);
    MulModLeft(1, Pow(c % n, e), n);
    while k > 0
      invariant m < n && x < n
      invariant (m * Pow(x, k)) % n == Pow(c, e) % n
      decreases k
    {
      SquareStep(m, x, k, n);
      if k % 2 == 1 {
        m := (m * x) % n;
      }
      x, k := (x * x) % n, k / 2;
    }
    assert m * Pow(x, k) == m;
    DivModUnique(m, n, 0, m);
  }

  /** One round of square-and-multiply keeps `m * x^k mod n` unchanged. */
  lemma SquareStep(m: nat, x: nat, k: nat, n: nat)
    requires n > 0
    ensures k % 2 == 1 ==>
      (((m * x) % n) * Pow((x * x) % n, k / 2)) % n == (m * Pow(x, k)) % n
    ensures k % 2 == 0 ==>
      (m * Pow((x * x) % n, k / 2)) % n == (m * Pow(x, k)) % n
  {
    var k' := k / 2;
    var m' := if k % 2 == 1 then (m * x) % n else m;
    PowHalve(x, k);
    if k % 2 == 1 {
      MulAssoc(m, x, Pow(x * x, k'));
      MulModLeft(m * x, Pow(x * x, k'), n);
    }
    assert (m' * Pow(x * x, k')) % n == (m * Pow(x, k)) % n;
    MulModRight(m', Pow(x * x, k'), n);
    PowModBase(x * x, k', n);
    MulModRight(m', Pow((x * x) % n, k'), n);
  }

  /** Exponents add under multiplication of powers. */
  lemma {:induction false} PowAdd(b: nat, x: nat, y: nat)
    ensures Pow(b, x + y) == Pow(b, x) * Pow(b, y)
    decreases x
  {
    if x > 0 {
      PowAdd(b, x - 1, y);
      MulAssoc(b, Pow(b, x - 1), Pow(b, y));
    }
  }

  /** A power of a power multiplies the exponents: `(m^d)^e == m^(d*e)`. */
  lemma {:induction false} PowMul(m: nat, d: nat, e: nat)
    ensures Pow(Pow(m, d), e) == Pow(m, d * e)
    decreases e
  {
    if e > 0 {
      PowMul(m, d, e - 1);
      PowAdd(m, d, d * (e - 1));
      assert d + d * (e - 1) == d * e;
    }
  }

  /** Halving the exponent squares the base. */
  lemma PowHalve(x: nat, k: nat)
    ensures k % 2 == 0 ==> Pow(x, k) == Pow(x * x, k / 2)
    ensures k % 2 == 1 ==> Pow(x, k) == x * Pow(x * x, k / 2)
  {
    if k % 2 == 0 {
      PowSquare(x, k / 2);
    } else {
      PowSquare(x, k / 2);
      assert Pow(x, k) == x * Pow(x, 2 * (k / 2));
    }
  }

  lemma {:induction false} PowSquare(x: nat, j: nat)
    ensures Pow(x, 2 * j) == Pow(x * x, j)
    decreases j
  {
    if j > 0 {
      PowSquare(x, j - 1);
      calc {
        Pow(x, 2 * j);
        x * Pow(x, 2 * j - 1);
        x * (x * Pow(x, 2 * (j - 1)));
        { MulAssoc(x, x, Pow(x, 2 * (j - 1))); }
        (x * x) * Pow(x * x, j - 1);
        Pow(x * x, j);
      }
    }
  }

  /** Reducing the base first does not change a power modulo `n`. */
  lemma {:induction false} PowModBase(a: nat, k: nat, n: nat)
    requires n > 0
    ensures Pow(a, k) % n == Pow(a % n, k) % n
    decreases k
  {
    if k > 0 {
      var p, q := Pow(a, k - 1), Pow(a % n, k - 1);
      PowModBase(a, k - 1, n);
      calc {
        Pow(a, k) % n;
        (a * p) % n;
        { MulModLeft(a, p, n); }
        ((a % n) * p) % n;
        { MulModRight(a % n, p, n); }
        ((a % n) * (p % n)) % n;
        ((a % n) * (q % n)) % n;
        { MulModRight(a % n, q, n); }
        ((a % n) * q) % n;
        Pow(a % n, k) % n;
      }
    }
  }

  /** Adding a multiple of `n` does not change a residue. */
  lemma ModAddMultiple(j: nat, s: nat, n: nat)
    requires n > 0
    ensures (j * n + s) % n == s % n
  {
    var q, r := s / n, s % n;
    DivMod(s, n);
    assert j * n + s == (j + q) * n + r;
    DivModUnique(j * n + s, n, j + q, r);
  }

  lemma MulModRight(a: nat, b: nat, n: nat)
    requires n > 0
    ensures (a * b) % n == (a * (b % n)) % n
  {
    var q, r := b / n, b % n;
    DivMod(b, n);
    assert a * b == (a * q) * n + a * r;
    ModAddMultiple(a * q, a * r, n);
  }

  lemma MulModLeft(a: nat, b: nat, n: nat)
    requires n > 0
    ensures (a * b) % n == ((a % n) * b) % n
  {
    MulModRight(b, a, n);
  }
}
