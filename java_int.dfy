/** Java's 32-bit `int`, its narrowing cast and its truncating division. */
module JavaInt {

  const MIN_INT: int := -0x8000_0000
  const MAX_INT: int := 0x7FFF_FFFF

  predicate IsInt(x: int) {
    MIN_INT <= x <= MAX_INT
  }

  /** The `(int)` cast of a `long`, and the result of int arithmetic: the low 32 bits, read signed. */
  function ToInt(x: int): (r: int)
    ensures IsInt(r)
    ensures (x - r) % 0x1_0000_0000 == 0
    ensures IsInt(x) ==> r == x
  {
    (x - MIN_INT) % 0x1_0000_0000 + MIN_INT
  }

  function Abs(x: int): nat {
    if x < 0 then -x else x
  }

  /** Java's `/`: the quotient rounded toward zero. */
  function Div(a: int, b: int): int
    requires b != 0
  {
    if (a < 0) == (b < 0) then Abs(a) / Abs(b) else -(Abs(a) / Abs(b))
  }

  /** Java's `%`: the remainder with the sign of the dividend, `(a / b) * b + a % b == a`. */
  function Rem(a: int, b: int): int
    requires b != 0
  {
    a - b * Div(a, b)
  }

  lemma MulDivExact(i: nat, m: int)
    requires m > 0
    ensures (i * m) / m == i
  {
    var q, r := (i * m) / m, (i * m) % m;
    assert i * m == q * m + r && 0 <= r < m;
    assert (i - q) * m == r;
    assert i - q >= 1 ==> (i - q) * m >= m;
    assert i - q <= -1 ==> (i - q) * m <= -m;
  }

  /** A non-negative multiple of `b` divides exactly, in Java's arithmetic as in ours. */
  lemma {:induction false} DivMultiple(i: nat, b: int)
    requires b != 0
    ensures Div(i * b, b) == i && Rem(i * b, b) == 0
  {
    MulDivExact(i, Abs(b));
    assert Abs(i * b) == i * Abs(b);
    if i > 0 {
      assert (i * b < 0) == (b < 0);
    }
  }

  /** When `a` and `b` do not have opposite signs and `b` divides `a`, the quotient is non-negative and exact. */
  lemma DivExact(a: int, b: int)
    requires b != 0 && a * b >= 0 && Rem(a, b) == 0
    ensures Div(a, b) >= 0 && a == Div(a, b) * b
  {
    if a != 0 {
      assert (a < 0) == (b < 0) by {
        assert a < 0 && b > 0 ==> a * b < 0;
        assert a > 0 && b < 0 ==> a * b < 0;
      }
    }
  }
}
