/** Multiplication and division have names here, so that most proofs can do without their arithmetic. */
module Arith {

  const TWO32 := 0x1_0000_0000

  function Mul(a: int, b: int): int { a * b }

  function Div(a: int, b: int): int
    requires b > 0
  {
    a / b
  }

  lemma {:induction false} MulOrder(k: int, n: int, b: int)
    requires b > 0
    ensures k < n ==> Mul(k, b) + b <= Mul(n, b)
    ensures k <= n ==> Mul(k, b) <= Mul(n, b)
    ensures Mul(k + 1, b) == Mul(k, b) + b && Mul(0, b) == 0 && Mul(1, b) == b
  {
    assert k < n ==> (k + 1) * b <= n * b;
  }

  lemma {:induction false} DivIs(a: int, b: int, q: int, r: int)
    requires b > 0 && a == Mul(q, b) + r && 0 <= r < b
    ensures Div(a, b) == q
  {
    hide Mul, Div;
    DivParts(a, b);
    MulOrder(Div(a, b), q, b);
    MulOrder(q, Div(a, b), b);
  }

  lemma {:induction false} DivParts(a: int, b: int)
    requires b > 0
    ensures Mul(Div(a, b), b) <= a < Mul(Div(a, b), b) + b
    ensures a % b == 0 <==> a == Mul(Div(a, b), b)
    ensures a % b == a - Mul(Div(a, b), b)
    ensures a >= 0 ==> Div(a, b) >= 0
  {
    assert a == a / b * b + a % b;
  }

  lemma {:induction false} ModStep(a: int, b: int)
    requires b > 0
    ensures a % b == 0 ==> (a + b) % b == 0
    ensures b % b == 0
  {
    hide Mul, Div;
    DivParts(a, b);
    DivParts(a + b, b);
    DivParts(b, b);
    MulOrder(Div(a, b), 0, b);
    DivIs(b, b, 1, 0);
    if a % b == 0 {
      DivIs(a + b, b, Div(a, b) + 1, 0);
    }
  }

  lemma {:induction false} ModShift(a: int, k: int, b: int)
    requires b > 0
    ensures (a + Mul(k, b)) % b == a % b
  {
    hide Mul, Div;
    DivParts(a, b);
    DivParts(a + Mul(k, b), b);
    MulSum(Div(a, b), k, b);
    DivIs(a + Mul(k, b), b, Div(a, b) + k, a % b);
  }

  lemma {:induction false} MulSum(a: int, c: int, b: int)
    ensures Mul(a + c, b) == Mul(a, b) + Mul(c, b)
  {
  }

  lemma {:induction false} MulSwap(q: int, l: int, b: int)
    ensures Mul(Mul(q, l), b) == Mul(Mul(q, b), l)
  {
  }

  /** The next digit may be added to the reduced number. */
  lemma {:induction false} ModStepMul(a: int, b: int, d: int, l: int)
    requires l > 0
    ensures (Mul(a, b) + d) % l == (Mul(a % l, b) + d) % l
  {
    hide Mul, Div;
    DivParts(a, l);
    MulSum(Mul(Div(a, l), l), a % l, b);
    MulSwap(Div(a, l), l, b);
    ModShift(Mul(a % l, b) + d, Mul(Div(a, l), b), l);
  }

  /** Sums and differences of multiples are multiples. */
  lemma {:induction false} ModSum(a: int, c: int, b: int)
    requires b > 0 && a % b == 0 && c % b == 0
    ensures (a + c) % b == 0 && (a - c) % b == 0
  {
    hide Mul, Div;
    DivParts(a, b);
    DivParts(c, b);
    MulSum(Div(a, b), Div(c, b), b);
    MulSum(Div(a, b) - Div(c, b), Div(c, b), b);
    DivIs(a + c, b, Div(a, b) + Div(c, b), 0);
    DivIs(a - c, b, Div(a, b) - Div(c, b), 0);
    DivParts(a + c, b);
    DivParts(a - c, b);
  }

  lemma {:induction false} MultipleIs(q: int, b: int)
    requires b > 0
    ensures Mul(q, b) % b == 0
  {
    hide Mul, Div;
    DivIs(Mul(q, b), b, q, 0);
    DivParts(Mul(q, b), b);
  }
}
