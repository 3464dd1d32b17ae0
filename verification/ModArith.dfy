/** Residues modulo n, and inverses modulo a prime. */
module ModArith {

  lemma SmallMultiple(n: int, k: int)
    requires n > 0 && -n < n * k < n
    ensures k == 0
  {
  }

  lemma ResidueUnique(x: int, q: int, r: int, n: int)
    requires n > 0 && x == n * q + r && 0 <= r < n
    ensures x % n == r
  {
    var d := q - x / n;
    assert n * d == x % n - r by {
      assert n * d == n * q - n * (x / n);
    }
    SmallMultiple(n, d);
  }

  /** Adding a multiple of n does not change the residue. */
  lemma ModShift(x: int, k: int, n: int)
    requires n > 0
    ensures (x + n * k) % n == x % n
  {
    assert x + n * k == n * (x / n + k) + x % n;
    ResidueUnique(x + n * k, x / n + k, x % n, n);
  }

  lemma ModAdd(a: int, b: int, n: int)
    requires n > 0
    ensures (a % n + b) % n == (a + b) % n
  {
    assert a + b == (a % n + b) + n * (a / n);
    ModShift(a % n + b, a / n, n);
  }

  lemma ModMul(a: int, b: int, n: int)
    requires n > 0
    ensures ((a % n) * b) % n == (a * b) % n
  {
    var q, r := a / n, a % n;
    calc {
      a * b;
      (n * q + r) * b;
      r * b + n * (q * b);
    }
    ModShift(r * b, q * b, n);
  }

  /** Equal residues stay equal when both numbers are moved by the same amount. */
  lemma ModMove(x: int, y: int, d: int, n: int)
    requires n > 0 && x % n == y % n
    ensures (x + d) % n == (y + d) % n
  {
    ModAdd(x, d, n);
    ModAdd(y, d, n);
  }

  lemma ModDifference(a: int, b: int, u: int, v: int, n: int)
    requires n > 0 && (a + u) % n == (b + v) % n
    ensures (a - b) % n == (v - u) % n
  {
    ModMove(a + u, b + v, -b - u, n);
  }

  lemma CancelMod(a: int, b: int, d: int, n: int)
    requires n > 0 && 0 <= a < n && 0 <= b < n && (a + d) % n == (b + d) % n
    ensures a == b
  {
    ModMove(a + d, b + d, -d, n);
    ResidueUnique(a, 0, a, n);
    ResidueUnique(b, 0, b, n);
  }

  ghost predicate Divides(d: int, x: int) { exists k :: x == d * k }

  ghost predicate Prime(n: int) {
    n > 1 && forall d {:trigger Divides(d, n)} :: 1 < d < n ==> !Divides(d, n)
  }

  datatype Bezout = Bezout(gcd: int, u: int, v: int)

  /** Extended Euclid. */
  function Extended(a: int, b: int): (r: Bezout)
    requires a >= 0 && b >= 0
    ensures a * r.u + b * r.v == r.gcd
    decreases b
  {
    if b == 0 then Bezout(a, 1, 0)
    else
      var r := Extended(b, a % b);
      EuclidStep(a, b, r);
      Bezout(r.gcd, r.v, r.u - (a / b) * r.v)
  }

  lemma EuclidStep(a: int, b: int, r: Bezout)
    requires b > 0 && b * r.u + (a % b) * r.v == r.gcd
    ensures a * r.v + b * (r.u - (a / b) * r.v) == r.gcd
  {
    var q := a / b;
    calc {
      a * r.v + b * (r.u - q * r.v);
      (b * q + a % b) * r.v + b * r.u - b * (q * r.v);
      b * r.u + (a % b) * r.v;
    }
  }

  lemma Combination(a: int, b: int, g: int, k: int, m: int, q: int, r: int)
    requires a == b * q + r && b == g * k && r == g * m
    ensures Divides(g, a)
  {
    calc {
      a;
      (g * k) * q + g * m;
      g * (k * q + m);
    }
  }

  lemma DivisorBound(d: int, x: int)
    requires d > 0 && x > 0 && Divides(d, x)
    ensures d <= x
  {
    var k :| x == d * k;
    assert d * k >= d * 1;
  }

  lemma {:induction false} ExtendedDivides(a: int, b: int)
    requires a >= 0 && b >= 0
    ensures Divides(Extended(a, b).gcd, a) && Divides(Extended(a, b).gcd, b)
    ensures a > 0 || b > 0 ==> Extended(a, b).gcd > 0
    decreases b
  {
    var g := Extended(a, b).gcd;
    if b == 0 {
      assert a == g * 1 && b == g * 0;
    } else {
      ExtendedDivides(b, a % b);
      var k :| b == g * k;
      var m :| a % b == g * m;
      Combination(a, b, g, k, m, a / b, a % b);
    }
  }

  /** The inverse of a modulo n. */
  function Inverse(a: int, n: int): int
    requires 0 < n && 0 <= a
  {
    Extended(a, n).u
  }

  lemma InverseCorrect(a: int, n: int)
    requires Prime(n) && 0 < a < n
    ensures (a * Inverse(a, n)) % n == 1
  {
    var r := Extended(a, n);
    ExtendedDivides(a, n);
    DivisorBound(r.gcd, a);
    assert r.gcd == 1;
    assert a * r.u == n * (-r.v) + 1;
    ResidueUnique(a * r.u, -r.v, 1, n);
  }
}
