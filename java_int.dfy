/** Java `int` arithmetic: 32-bit two's complement with wrap-around, and
    division that truncates toward zero. */
module JavaInt {

  const MinValue: int := -0x8000_0000   // Integer.MIN_VALUE
  const MaxValue: int := 0x7FFF_FFFF    // Integer.MAX_VALUE
  const Modulus: int := 0x1_0000_0000

  type Int32 = x: int | -0x8000_0000 <= x <= 0x7FFF_FFFF

  /** The int that Java keeps of the mathematical value `x`. */
  function Wrap(x: int): (r: Int32)
    ensures (x - r) % Modulus == 0
    ensures MinValue <= x <= MaxValue ==> r == x
  {
    var m := x % Modulus;
    if m > MaxValue then m - Modulus else m
  }

  /** `a + b` on Java ints. */
  function Add(a: Int32, b: Int32): (r: Int32)
    ensures MinValue <= a + b <= MaxValue ==> r == a + b
    ensures a + b > MaxValue ==> r == a + b - Modulus
    ensures a + b < MinValue ==> r == a + b + Modulus
  {
    Wrap(a + b)
  }

  function Abs(x: int): nat { if x < 0 then -x else x }

  /** Mathematical division truncating toward zero (Java's rule), before wrap-around. */
  function Quot(a: int, b: int): int
    requires b != 0
  {
    if (a < 0) == (b < 0) then Abs(a) / Abs(b) else -(Abs(a) / Abs(b))
  }

  /** Java's `a / b` on ints; `b == 0` raises ArithmeticException, and
      MIN_VALUE / -1 wraps back to MIN_VALUE. */
  function Div(a: Int32, b: Int32): (r: Int32)
    requires b != 0
  {
    Wrap(Quot(a, b))
  }

  /** The quotient truncates toward zero: |q| * |b| <= |a| < (|q| + 1) * |b|. */
  lemma QuotTruncates(a: int, b: int)
    requires b != 0
    ensures Abs(Quot(a, b)) * Abs(b) <= Abs(a) < (Abs(Quot(a, b)) + 1) * Abs(b)
  {
    QuotMagnitude(a, b);
    DivFloor(Abs(a), Abs(b));
  }

  /** The quotient's magnitude is the floor of |a| / |b|, and a non-zero
      quotient is negative exactly when the signs of a and b differ. */
  lemma QuotMagnitude(a: int, b: int)
    requires b != 0
    ensures Abs(Quot(a, b)) == Abs(a) / Abs(b)
    ensures Quot(a, b) != 0 ==> (Quot(a, b) < 0 <==> (a < 0) != (b < 0))
  {
    var q := Abs(a) / Abs(b);
    DivFloor(Abs(a), Abs(b));
    if (a < 0) == (b < 0) {
      assert Quot(a, b) == q;
    } else {
      assert Quot(a, b) == -q;
    }
  }

  lemma DivFloor(x: nat, y: nat)
    requires y > 0
    ensures 0 <= x / y
    ensures (x / y) * y <= x < (x / y + 1) * y
  {
    var q := x / y;
    assert q * y + x % y == x;
    assert (q + 1) * y == q * y + y;
  }

  /** Only MIN_VALUE / -1 leaves the int range. */
  lemma DivExactUnlessOverflow(a: Int32, b: Int32)
    requires b != 0
    requires !(a == MinValue && b == -1)
    ensures Div(a, b) == Quot(a, b)
  {
    var q := Abs(a) / Abs(b);
    assert Quot(a, b) == q || Quot(a, b) == -q;
    if b == 1 || b == -1 {
      assert q == Abs(a);
    } else {
      HalfBound(Abs(a), Abs(b));
      assert q <= 0x4000_0000;
    }
    assert MinValue <= Quot(a, b) <= MaxValue;
  }

  lemma HalfBound(x: nat, y: nat)
    requires y >= 2
    ensures x / y <= x / 2
  {
    var q := x / y;
    assert q * y <= x;
    assert q * 2 <= q * y;
  }
}
