// Powers of two and the few division facts the address arithmetic needs.  A Go shift
// `x >> n` of an unsigned word is `x / Pow2(n)`, and `x & (1<<n - 1)` is `x % Pow2(n)`.
module Bits {

  function Pow2(n: nat): (r: nat)
    ensures r > 0
  {
    if n == 0 then 1 else 2 * Pow2(n - 1)
  }

  // The Go shift a >> n.
  function Shr(a: nat, n: nat): (r: nat) {
    DivNonNegative(a, Pow2(n));
    a / Pow2(n)
  }

  lemma DivNonNegative(a: nat, m: int)
    requires m > 0
    ensures a / m >= 0
  {
    DivBracket(a, m);
    var q := a / m;
    assert (q + 1) * m == q * m + m;
    if q < 0 {
      MulMono(q + 1, 0, m);
    }
  }

  lemma {:induction false} Pow2Add(m: nat, n: nat)
    ensures Pow2(m + n) == Pow2(m) * Pow2(n)
  {
    if m == 0 {
    } else {
      Pow2Add(m - 1, n);
      assert Pow2(m + n) == 2 * Pow2(m - 1 + n);
      assert 2 * (Pow2(m - 1) * Pow2(n)) == (2 * Pow2(m - 1)) * Pow2(n);
    }
  }

  lemma {:induction false} Pow2Mono(m: nat, n: nat)
    requires m <= n
    ensures Pow2(m) <= Pow2(n)
  {
    if m < n {
      Pow2Mono(m, n - 1);
    }
  }

  lemma MulMono(x: int, y: int, m: int)
    requires x <= y && 0 <= m
    ensures x * m <= y * m
  {
  }

  // The quotient is the only multiple count that brackets the dividend.
  lemma DivUnique(a: int, m: int, q: int)
    requires m > 0 && q * m <= a < q * m + m
    ensures a / m == q
  {
    var d := a / m;
    assert a == d * m + a % m;
    assert (d + 1) * m == d * m + m;
    assert (q + 1) * m == q * m + m;
    if d < q {
      MulMono(d + 1, q, m);
    } else if d > q {
      MulMono(q + 1, d, m);
    }
  }

  lemma DivBracket(a: int, m: int)
    requires m > 0
    ensures (a / m) * m <= a < (a / m) * m + m
  {
  }

  // Shifting right by m and then by n is shifting right once by the product.
  lemma DivDiv(a: nat, m: nat, n: nat)
    requires m > 0 && n > 0
    ensures m * n > 0
    ensures a / (m * n) == (a / m) / n
  {
    var x := a / m;
    var q := x / n;
    DivBracket(a, m);
    DivBracket(x, n);
    assert q * n <= x;
    MulMono(q * n, x, m);
    MulMono(x + 1, q * n + n, m);
    assert (x + 1) * m == x * m + m;
    assert (q * n + n) * m == (q * n) * m + n * m;
    assert (q * n) * m == q * (m * n) by { MulShuffle(q, n, m); }
    assert n * m == m * n;
    assert m * n > 0;
    DivUnique(a, m * n, q);
  }

  lemma MulShuffle(q: int, n: int, m: int)
    ensures (q * n) * m == q * (m * n)
  {
  }

  lemma DivMono(a: int, b: int, m: int)
    requires a <= b && m > 0
    ensures a / m <= b / m
  {
    DivBracket(a, m);
    DivBracket(b, m);
    var x, y := a / m, b / m;
    assert (y + 1) * m == y * m + m;
    if x > y {
      MulMono(y + 1, x, m);
    }
  }

  // Shifting by m + n bits is shifting by m bits and then by n bits.
  lemma ShiftShift(a: nat, m: nat, n: nat)
    ensures Shr(a, m + n) == Shr(Shr(a, m), n)
  {
    Pow2Add(m, n);
    DivDiv(a, Pow2(m), Pow2(n));
  }

  // A multiple below another multiple is at least one step below it.
  lemma MultipleStep(q: int, n: int, m: int)
    requires 0 < m && q * m < n * m
    ensures q + 1 <= n && q * m + m <= n * m
  {
    if q >= n {
      MulMono(n, q, m);
    } else {
      MulMono(q + 1, n, m);
    }
    assert (q + 1) * m == q * m + m;
  }

  lemma Pow2Small()
    ensures Pow2(0) == 1 && Pow2(1) == 2 && Pow2(2) == 4 && Pow2(3) == 8 && Pow2(4) == 16
    ensures Pow2(5) == 32 && Pow2(6) == 64 && Pow2(7) == 128 && Pow2(8) == 256
  {
    assert Pow2(8) == 2 * Pow2(7);
    assert Pow2(6) == 2 * Pow2(5);
    assert Pow2(4) == 2 * Pow2(3);
  }

  lemma Pow2Large()
    ensures Pow2(16) == 0x1_0000 && Pow2(24) == 0x100_0000 && Pow2(32) == 0x1_0000_0000
  {
    Pow2Small();
    Pow2Add(8, 8);
    Pow2Add(16, 8);
    Pow2Add(16, 16);
  }

  lemma AddTimes(a: int, b: int, m: int)
    ensures (a + b) * m == a * m + b * m
  {
  }

  lemma TakeTimes(a: int, b: int, m: int)
    ensures (a - b) * m == a * m - b * m
  {
  }

  // An aligned block that starts inside a space of n blocks ends inside it.
  lemma BlockFits(key: nat, m: nat, n: nat, space: nat)
    requires m > 0 && key % m == 0 && space == n * m && key < space
    ensures key + m <= space
  {
    var q := key / m;
    assert key == q * m;
    MultipleStep(q, n, m);
  }
}
