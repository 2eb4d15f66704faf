/** Integer division as Go computes it, and the facts about Euclidean
    division the ring buffers and the round-robin cursor rely on. */
module GoInts {

  lemma MulNonNegative(a: int, b: int)
    requires a >= 0 && b >= 0
    ensures a * b >= 0
  {
  }

  /** Euclidean division has one quotient and remainder. */
  lemma DivModUnique(a: int, n: int, q: int, r: int)
    requires n > 0 && 0 <= r < n && a == q * n + r
    ensures a % n == r && a / n == q
  {
    var q0 := a / n;
    var r0 := a % n;
    assert q0 * n + r0 == q * n + r;
    if q > q0 {
      var k := q - q0;
      assert q * n == q0 * n + k * n;
      assert k * n == (k - 1) * n + n;
      MulNonNegative(k - 1, n);
    } else if q < q0 {
      var k := q0 - q;
      assert q0 * n == q * n + k * n;
      assert k * n == (k - 1) * n + n;
      MulNonNegative(k - 1, n);
    }
  }

  /** Go's integer division: the quotient truncated toward zero. */
  function GoDiv(a: int, b: nat): (q: int)
    requires b > 0
    ensures a >= 0 ==> q == a / b
    ensures a < 0 ==> q == -((-a) / b)
  {
    if a >= 0 then a / b else -((-a) / b)
  }

  /** Go's `%`: the remainder has the sign of the dividend. */
  function GoRem(a: int, b: nat): (r: int)
    requires b > 0
    ensures a == GoDiv(a, b) * b + r
    ensures a >= 0 ==> 0 <= r < b
    ensures a < 0 ==> -(b as int) < r <= 0
  {
    if a >= 0 then a % b else -((-a) % b)
  }

  /** Adding the divisor adds one to the quotient. */
  lemma DivStep(a: nat, b: nat)
    requires b > 0
    ensures (a + b) / b == a / b + 1
  {
    var q := a / b;
    var r := a % b;
    assert a + b == (q + 1) * b + r;
    DivModUnique(a + b, b, q + 1, r);
  }

  /** The next number's remainder is the next remainder around the ring. */
  lemma ModStep(a: nat, n: nat)
    requires n > 0
    ensures (a + 1) % n == (a % n + 1) % n
  {
    var q := a / n;
    var r := a % n;
    if r + 1 < n {
      DivModUnique(a + 1, n, q, r + 1);
      DivModUnique(r + 1, n, 0, r + 1);
    } else {
      DivModUnique(a + 1, n, q + 1, 0);
      DivModUnique(r + 1, n, 1, 0);
    }
  }

  /** Position j of a sequence of length n rotated left by `a % n`. */
  lemma RotateIndex(a: nat, n: nat, j: nat)
    requires 0 <= j < n
    ensures var s := a % n; (a + j) % n == if j < n - s then s + j else j - (n - s)
  {
    var s := a % n;
    var q := a / n;
    if j < n - s {
      DivModUnique(a + j, n, q, s + j);
    } else {
      DivModUnique(a + j, n, q + 1, j - (n - s));
    }
  }
}
