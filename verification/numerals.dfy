/** Positional numerals written with ASCII digits, as GMP reads them
    (`mpz_set_str`) and writes them (`mpz_get_str`) in base 10 for the key and
    the ciphertext blocks and in base 2 for the bit packer. */
module Numerals {
  import opened Text

  /** ASCII '0'. */
  const ZERO: byte := 48

  /** `b` raised to `e`, with `Pow(0, 0) == 1` as GMP has it. */
  function Pow(b: nat, e: nat): nat
    decreases e
  {
    if e == 0 then 1 else b * Pow(b, e - 1)
  }

  predicate IsDigit(c: byte, base: nat)
  {
    ZERO <= c < ZERO + base
  }

  /** Every byte of `s` is a digit of `base`; the empty string qualifies. */
  predicate Digits(s: seq<byte>, base: nat)
  {
    forall i :: 0 <= i < |s| ==> IsDigit(s[i], base)
  }

  /** The value of a most-significant-first digit string (what `mpz_set_str`
      stores). The empty string reads as 0: GMP rejects it and leaves the
      freshly initialised 0 in place. */
  function Value(s: seq<byte>, base: nat): (v: nat)
    requires 2 <= base <= 10
    requires Digits(s, base)
    decreases |s|
  {
    if s == [] then 0
    else Value(s[..|s| - 1], base) * base + (s[|s| - 1] - ZERO)
  }

  /** A string of `|s|` digits stays below `base^|s|`. */
  lemma {:induction false} ValueBound(s: seq<byte>, base: nat)
    requires 2 <= base <= 10 && Digits(s, base)
    ensures Value(s, base) < Pow(base, |s|)
    decreases |s|
  {
    if s != [] {
      var p := Value(s[..|s| - 1], base);
      var d := s[|s| - 1] - ZERO;
      var power := Pow(base, |s| - 1);
      assert Value(s, base) == p * base + d;
      assert Pow(base, |s|) == base * power;
      ValueBound(s[..|s| - 1], base);
      MulMonotone(p + 1, power, base);
      MulSucc(p, base);
      MulComm(power, base);
    }
  }

  lemma MulSucc(a: nat, b: nat)
    ensures (a + 1) * b == a * b + b
  {
  }

  lemma MulComm(a: nat, b: nat)
    ensures a * b == b * a
  {
  }

  lemma MulMonotone(a: nat, b: nat, c: nat)
    requires a <= b
    ensures a * c <= b * c
  {
  }

  /** The digit string GMP writes for `n` (what `mpz_get_str` produces): most
      significant digit first, "0" for zero, never a leading '0' otherwise. */
  function Render(n: nat, base: nat): (s: seq<byte>)
    requires 2 <= base <= 10
    ensures Digits(s, base) && |s| >= 1
    ensures (s[0] == ZERO) == (n == 0)
    decreases n
  {
    if n < base then [ZERO + n]
    else Render(n / base, base) + [ZERO + n % base]
  }

  /** A digit string as `Render` writes them: non-empty, and a leading '0'
      only in the string "0" itself. */
  predicate Canonical(s: seq<byte>)
  {
    |s| >= 1 && (s[0] == ZERO ==> |s| == 1)
  }

  /** Reading back what was written gives the number again. */
  lemma {:induction false} ValueOfRender(n: nat, base: nat)
    requires 2 <= base <= 10
    ensures Value(Render(n, base), base) == n
    decreases n
  {
    if n >= base {
      var q, r := n / base, n % base;
      var prefix := Render(q, base);
      var s := prefix + [ZERO + r];
      assert s == Render(n, base);
      assert s[..|s| - 1] == prefix;
      DivShrinks(n, base);
      ValueOfRender(q, base);
      assert Value(s, base) == q * base + r;
      DivMod(n, base);
    }
  }

  /** A string with a non-zero leading digit has a non-zero value. */
  lemma {:induction false} ValuePositive(s: seq<byte>, base: nat)
    requires 2 <= base <= 10
    requires Digits(s, base) && |s| >= 1 && s[0] != ZERO
    ensures Value(s, base) > 0
    decreases |s|
  {
    var prefix := s[..|s| - 1];
    assert Value(s, base) == Value(prefix, base) * base + (s[|s| - 1] - ZERO);
    if |s| > 1 {
      assert prefix[0] == s[0];
      ValuePositive(prefix, base);
      MulAtLeast(Value(prefix, base), base);
    } else {
      assert prefix == [];
    }
  }

  /** Writing out what was read gives the string again, for every canonical
      digit string: `Render` and `Value` are inverse bijections between the
      naturals and the canonical strings. */
  lemma {:induction false} RenderOfValue(s: seq<byte>, base: nat)
    requires 2 <= base <= 10
    requires Digits(s, base) && Canonical(s)
    ensures Render(Value(s, base), base) == s
    decreases |s|
  {
    if |s| > 1 {
      var prefix := s[..|s| - 1];
      var d := s[|s| - 1] - ZERO;
      var p := Value(prefix, base);
      var v := Value(s, base);
      ValuePositive(prefix, base);
      RenderOfValue(prefix, base);
      assert v == p * base + d;
      DivModUnique(v, base, p, d);
      MulAtLeast(p, base);
      assert Render(v, base) == Render(p, base) + [ZERO + d];
      assert s == prefix + [s[|s| - 1]];
    } else {
      assert Value(s, base) == s[0] - ZERO;
    }
  }

  lemma MulAssoc(a: nat, b: nat, c: nat)
    ensures a * (b * c) == (a * b) * c
  {
  }

  lemma MulAtLeast(a: nat, b: nat)
    requires a >= 1
    ensures a * b >= b
  {
    assert a * b == (a - 1) * b + b;
  }

  lemma DivMod(n: nat, base: nat)
    requires base > 0
    ensures n == (n / base) * base + n % base
  {
  }

  lemma DivShrinks(n: nat, base: nat)
    requires 2 <= base <= n
    ensures 0 < n / base < n
  {
    var q := n / base;
    DivMod(n, base);
    assert q > 0;
    MulAtLeast(base - 1, q);
    assert q * base == q * (base - 1) + q;
  }

  /** Quotient and remainder are the only such pair. */
  lemma DivModUnique(v: nat, base: nat, q: nat, r: nat)
    requires base > 0 && r < base && v == q * base + r
    ensures v / base == q && v % base == r
  {
    var q', r' := v / base, v % base;
    assert v == q' * base + r';
    if q' < q {
      assert q * base == q' * base + (q - q') * base;
      MulAtLeast(q - q', base);
    } else if q' > q {
      assert q' * base == q * base + (q' - q) * base;
      MulAtLeast(q' - q, base);
    }
  }

  /** Value of a concatenation: the left part is shifted by the right part's
      length. */
  lemma {:induction false} ValueAppend(a: seq<byte>, b: seq<byte>, base: nat)
    requires 2 <= base <= 10
    requires Digits(a, base) && Digits(b, base)
    ensures Digits(a + b, base)
    ensures Value(a + b, base) == Value(a, base) * Pow(base, |b|) + Value(b, base)
    decreases |b|
  {
    assert Digits(a + b, base);
    if b == [] {
      assert a + b == a;
    } else {
      var b' := b[..|b| - 1];
      var d := b[|b| - 1] - ZERO;
      assert (a + b)[..|a + b| - 1] == a + b';
      ValueAppend(a, b', base);
      var x, y, p := Value(a, base), Value(b', base), Pow(base, |b'|);
      calc {
        Value(a + b, base);
        Value(a + b', base) * base + d;
        (x * p + y) * base + d;
        { MulDistributes(x, p, y, base); }
        x * (p * base) + (y * base + d);
        { assert Pow(base, |b|) == base * p; }
        x * Pow(base, |b|) + Value(b, base);
      }
    }
  }

  lemma MulDistributes(x: nat, p: nat, y: nat, b: nat)
    ensures (x * p + y) * b == x * (p * b) + y * b
  {
    assert (x * p + y) * b == (x * p) * b + y * b;
    assert (x * p) * b == x * (p * b);
  }

  /** `k` ASCII zeros. */
  function Zeros(k: nat): (s: seq<byte>)
    ensures |s| == k && Digits(s, 2)
  {
    seq(k, _ => ZERO)
  }

  /** Leading zeros do not change a value. */
  lemma {:induction false} ValueZeros(k: nat, s: seq<byte>, base: nat)
    requires 2 <= base <= 10 && Digits(s, base)
    ensures Digits(Zeros(k) + s, base)
    ensures Value(Zeros(k) + s, base) == Value(s, base)
    decreases k
  {
    assert Digits(Zeros(k), base);
    ValueAppend(Zeros(k), s, base);
    if k > 0 {
      assert Zeros(k)[..k - 1] == Zeros(k - 1);
      ValueZeros(k - 1, [], base);
      assert Zeros(k - 1) + [] == Zeros(k - 1);
    }
  }
}
