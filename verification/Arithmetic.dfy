/** Facts about multiplication, division and remainder that the solver does not find by itself. */
module Arithmetic {

  lemma MulMonotone(a: int, b: int, c: nat)
    requires a <= b
    ensures a * c <= b * c
  {
  }

  lemma QuotientBound(n: int, w: int, total: nat)
    requires w > 0 && n * w <= total
    ensures n <= total / w
  {
    assert total < (total / w + 1) * w;
    if n > total / w {
      MulMonotone(total / w + 1, n, w);
    }
  }

  lemma RemainderUnique(a: int, d: int, q: int, r: int)
    requires d > 0 && 0 <= r < d && a == q * d + r
    ensures a / d == q && a % d == r
  {
    var q', r' := a / d, a % d;
    assert a == q' * d + r';
    assert (q - q') * d == r' - r;
    if q > q' {
      MulMonotone(1, q - q', d);
    } else if q < q' {
      MulMonotone(q - q', -1, d);
    }
  }

  lemma ModOnce(b: int, d: int)
    requires d > 0
    ensures (b - d) % d == b % d && (b - d) / d == b / d - 1
  {
    var q := b / d;
    assert b == q * d + b % d;
    assert b - d == (q - 1) * d + b % d;
    RemainderUnique(b - d, d, q - 1, b % d);
  }

  lemma {:induction false} ModShift(a: int, d: int, n: nat)
    requires d > 0
    ensures (a - d * n) % d == a % d
    decreases n
  {
    if n > 0 {
      ModShift(a, d, n - 1);
      var b := a - d * (n - 1);
      assert a - d * n == b - d;
      ModOnce(b, d);
    }
  }

  /** The number of blocks of size d that cover a. */
  function CeilDiv(a: nat, d: nat): nat
    requires d > 0
  {
    (a + d - 1) / d
  }

  lemma CeilDivSmall(a: nat, d: nat)
    requires a <= d && d > 0
    ensures CeilDiv(a, d) == if a == 0 then 0 else 1
  {
    if a == 0 {
      RemainderUnique(d - 1, d, 0, d - 1);
    } else {
      RemainderUnique(a + d - 1, d, 1, a - 1);
    }
  }

  lemma CeilDivStep(a: nat, d: nat)
    requires 0 < d < a
    ensures CeilDiv(a, d) == 1 + CeilDiv(a - d, d) && CeilDiv(a - d, d) >= 1
  {
    ModOnce(a + d - 1, d);
    QuotientBound(1, d, a - d + d - 1);
  }
}
