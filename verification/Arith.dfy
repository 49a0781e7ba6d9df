/** Facts about multiplication and division of naturals. */
module Arith {

  lemma MulMono(x: nat, y: nat, b: nat)
    requires x <= y
    ensures x * b <= y * b
  {
    assert y * b == x * b + (y - x) * b;
  }

  lemma MulMonoInt(x: int, y: int, b: nat)
    requires x <= y
    ensures x * b <= y * b
  {
    MulMono(0, y - x, b);
    assert y * b == x * b + (y - x) * b;
  }

  lemma DivUnique(a: nat, b: nat, q: nat, t: nat)
    requires b >= 1 && a == q * b + t && t < b
    ensures a / b == q
  {
    var q', t' := a / b, a % b;
    assert a == q' * b + t';
    assert (q' + 1) * b == q' * b + b && (q + 1) * b == q * b + b;
    if q' < q {
      MulMono(q' + 1, q, b);
    } else if q < q' {
      MulMono(q + 1, q', b);
    }
  }

  /** Integer division as repeated subtraction. */
  function Quot(a: nat, b: nat): (q: nat)
    requires b > 0
    decreases a
  {
    if a < b then 0 else 1 + Quot(a - b, b)
  }

  lemma {:induction false} QuotMul(a: nat, b: nat)
    requires b > 0
    ensures Quot(a, b) * b <= a < Quot(a, b) * b + b
    decreases a
  {
    if a >= b {
      QuotMul(a - b, b);
      assert Quot(a, b) * b == Quot(a - b, b) * b + b;
    }
  }

  lemma QuotIsDiv(a: nat, b: nat)
    requires b > 0
    ensures Quot(a, b) == a / b
  {
    QuotMul(a, b);
    DivUnique(a, b, Quot(a, b), a - Quot(a, b) * b);
  }

  lemma {:induction false} QuotMono(a: nat, a': nat, b: nat)
    requires b > 0 && a <= a'
    ensures Quot(a, b) <= Quot(a', b)
    decreases a
  {
    if a >= b {
      QuotMono(a - b, a' - b, b);
    }
  }

  lemma QuotBelow(a: nat, b: nat, k: nat)
    requires b > 0 && a < k * b
    ensures Quot(a, b) < k
  {
    QuotMul(a, b);
    if Quot(a, b) >= k {
      MulMono(k, Quot(a, b), b);
    }
  }

  lemma DivStep(a: nat, b: nat)
    requires b > 0
    ensures (a + b) / b == a / b + 1
  {
    var q, t := a / b, a % b;
    assert a == q * b + t && (q + 1) * b == q * b + b;
    DivUnique(a + b, b, q + 1, t);
  }
}
