/** Integer facts shared by the tree layout and the ring-buffer index maps:
    powers, C++ remainder, and the few non-linear steps the solver needs spelled out. */
module Arith {

  /** b raised to the power e, over the naturals. */
  function Pow(b: nat, e: nat): nat
  {
    if e == 0 then 1 else b * Pow(b, e - 1)
  }

  lemma {:induction false} PowPositive(b: nat, e: nat)
    requires b >= 1
    ensures Pow(b, e) >= 1
  {
    if e > 0 {
      PowPositive(b, e - 1);
      MulLe(1, b, Pow(b, e - 1));
    }
  }

  lemma {:induction false} PowAdd(b: nat, e1: nat, e2: nat)
    ensures Pow(b, e1 + e2) == Pow(b, e1) * Pow(b, e2)
  {
    if e2 > 0 {
      PowAdd(b, e1, e2 - 1);
      calc {
        Pow(b, e1 + e2);
        b * Pow(b, e1 + e2 - 1);
        b * (Pow(b, e1) * Pow(b, e2 - 1));
        { MulAssocComm(b, Pow(b, e1), Pow(b, e2 - 1)); }
        Pow(b, e1) * (b * Pow(b, e2 - 1));
      }
    }
  }

  lemma MulAssocComm(x: int, y: int, z: int)
    ensures x * (y * z) == y * (x * z)
  {
  }

  lemma {:induction false} PowMonotone(b: nat, e1: nat, e2: nat)
    requires b >= 1
    requires e1 <= e2
    ensures Pow(b, e1) <= Pow(b, e2)
  {
    if e1 < e2 {
      PowMonotone(b, e1, e2 - 1);
      PowPositive(b, e2 - 1);
      MulLe(1, b, Pow(b, e2 - 1));
    }
  }

  /** Powers of a base of at least two outgrow their exponent (used for termination). */
  lemma {:induction false} PowExceeds(b: nat, e: nat)
    requires b >= 2
    ensures Pow(b, e) > e
  {
    if e > 0 {
      PowExceeds(b, e - 1);
      MulLe(2, b, Pow(b, e - 1));
    }
  }

  lemma MulLe(a: int, b: int, w: int)
    requires a <= b
    requires w >= 0
    ensures a * w <= b * w
  {
    assert b * w - a * w == (b - a) * w;
  }

  /** A natural number lies in exactly one block [a*w, (a+1)*w). */
  lemma BlockUnique(a: int, b: int, w: int, x: int)
    requires w > 0
    requires a * w <= x < (a + 1) * w
    requires b * w <= x < (b + 1) * w
    ensures a == b
  {
    if a < b {
      MulLe(a + 1, b, w);
    } else if b < a {
      MulLe(b + 1, a, w);
    }
  }

  /** Euclidean division is determined by its defining equation. */
  lemma DivModUnique(a: int, m: int, q: int, r: int)
    requires m > 0
    requires 0 <= r < m
    requires a == q * m + r
    ensures a / m == q
    ensures a % m == r
  {
    var q0, r0 := a / m, a % m;
    assert a == q0 * m + r0;
    assert (q - q0) * m == r0 - r;
    if q > q0 {
      MulLe(1, q - q0, m);
    } else if q < q0 {
      MulLe(1, q0 - q, m);
    }
  }

  lemma ModShift(a: int, k: int, m: int)
    requires m > 0
    ensures (a + k * m) % m == a % m
  {
    DivModUnique(a + k * m, m, a / m + k, a % m);
  }

  /** C++ `%` on int: truncates toward zero, so the sign follows the dividend. */
  function CppRem(a: int, m: int): (r: int)
    requires m > 0
    ensures -m < r < m
    ensures a >= 0 ==> r >= 0
    ensures a <= 0 ==> r <= 0
    ensures r % m == a % m
  {
    if a >= 0 then a % m
    else
      var p := (-a) % m;
      var q := (-a) / m;
      assert a == -p + (-q) * m;
      ModShift(-p, -q, m);
      -p
  }

  lemma MulSucc(c: int, w: int)
    ensures (c + 1) * w == c * w + w
  {
  }

  /** On (-m, m) the C++ remainder is the identity. */
  lemma CppRemSmall(a: int, m: int)
    requires -m < a < m
    ensures CppRem(a, m) == a
  {
    if a >= 0 {
      DivModUnique(a, m, 0, a);
    } else {
      DivModUnique(-a, m, 0, -a);
    }
  }

  /** On non-negative numbers the C++ remainder is the Euclidean one. */
  lemma CppRemNonNegative(a: int, m: int)
    requires a >= 0 && m > 0
    ensures CppRem(a, m) == a % m
  {
  }
}
