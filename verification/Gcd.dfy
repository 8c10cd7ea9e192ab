/** Euclid's loop with Go's remainder, and greatest common divisors. */
module Gcd {
  import opened Common

  /** A product by name, so that divisibility has something to match on. */
  function Times(a: int, b: int): (r: int) {
    a * b
  }

  ghost predicate Divides(d: int, n: int) {
    exists k :: n == Times(d, k)
  }

  /** Divides both, and every common divisor divides it. */
  ghost predicate IsGcd(g: int, a: int, b: int) {
    g > 0 && Divides(g, a) && Divides(g, b) && forall d | Divides(d, a) && Divides(d, b) :: Divides(d, g)
  }

  lemma DividesCombination(d: int, a: int, b: int, q: int)
    requires Divides(d, a) && Divides(d, b)
    ensures Divides(d, a + b * q)
  {
    var i :| a == Times(d, i);
    var j :| b == Times(d, j);
    assert a + b * q == Times(d, i + j * q);
  }

  lemma DividesSelf(d: int)
    ensures Divides(d, d) && Divides(d, 0)
  {
    assert d == Times(d, 1) && 0 == Times(d, 0);
  }

  /** One step of Euclid's loop keeps the common divisors. */
  lemma StepKeepsDivisors(a: int, b: int, d: int)
    requires b != 0
    ensures Divides(d, a) && Divides(d, b) <==> Divides(d, b) && Divides(d, TruncMod(a, b))
  {
    var q := TruncDiv(a, b);
    if Divides(d, a) && Divides(d, b) { DividesCombination(d, a, b, -q); }
    if Divides(d, b) && Divides(d, TruncMod(a, b)) { DividesCombination(d, TruncMod(a, b), b, q); }
  }

  /** What the loop computes, as a recursion. */
  function GcdOf(a: int, b: int): (g: int)
    ensures (a != 0 || b != 0) ==> g != 0
    decreases Abs(b)
  {
    if b == 0 then a else GcdOf(b, TruncMod(a, b))
  }

  /** gcd. */
  method GcdLoop(a: int, b: int) returns (g: int)
    ensures g == GcdOf(a, b)
  {
    var x, y := a, b;
    while y != 0
      invariant GcdOf(x, y) == GcdOf(a, b)
      decreases Abs(y)
    {
      x, y := y, TruncMod(x, y);
    }
    g := x;
  }

  /** On natural numbers, not both zero, the loop returns the greatest common divisor. */
  lemma {:induction false} GcdOfIsGcd(a: int, b: int)
    requires a >= 0 && b >= 0 && a + b > 0
    ensures IsGcd(GcdOf(a, b), a, b)
    decreases b
  {
    if b == 0 {
      DividesSelf(a);
    } else {
      var r := TruncMod(a, b);
      GcdOfIsGcd(b, r);
      forall d ensures Divides(d, a) && Divides(d, b) <==> Divides(d, b) && Divides(d, r) {
        StepKeepsDivisors(a, b, d);
      }
    }
  }

  lemma DividesTransitive(d: int, m: int, n: int)
    requires Divides(d, m) && Divides(m, n)
    ensures Divides(d, n)
  {
    var i :| m == Times(d, i);
    var j :| n == Times(m, j);
    assert n == Times(d, i * j);
  }
}
