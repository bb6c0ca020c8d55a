/**
 Scaled complex arithmetic (runtime/compiler/dmd/complex.c:16-107) over exact reals.  The library's `sqrt` is a
 parameter, and the results about it hold for an ideal one.
 */
module ComplexNumbers {
  datatype Complex = Complex(re: real, im: real)

  const ZERO := Complex(0.0, 0.0)

  /** What is promised of `sqrt`. */
  ghost predicate Ideal(sqrt: real -> real) {
    forall a: real | a >= 0.0 :: sqrt(a) >= 0.0 && sqrt(a) * sqrt(a) == a
  }

  function Fabs(a: real): real {
    if a < 0.0 then -a else a
  }

  function Norm(z: Complex): real {
    z.re * z.re + z.im * z.im
  }

  function Div(x: Complex, y: Complex): Complex
    requires y != ZERO
  {
    if Fabs(y.re) < Fabs(y.im) then DivByImaginary(x, y) else DivByReal(x, y)
  }

  function DivByImaginary(x: Complex, y: Complex): Complex
    requires y.im != 0.0
  {
    var r := y.re / y.im;
    var den := y.im + r * y.re;
    ScaledDenominator(y.im, y.re);
    Complex((x.re * r + x.im) / den, (x.im * r - x.re) / den)
  }

  function DivByReal(x: Complex, y: Complex): Complex
    requires y.re != 0.0
  {
    var r := y.im / y.re;
    var den := y.re + r * y.im;
    ScaledDenominator(y.re, y.im);
    Complex((x.re + r * x.im) / den, (x.im - r * x.re) / den)
  }

  function Mul(x: Complex, y: Complex): Complex {
    Complex(x.re * y.re - x.im * y.im, x.im * y.re + x.re * y.im)
  }

  /** The length of `(1, t)`, by which the larger part is scaled. */
  function UnitLength(t: real, sqrt: real -> real): real {
    sqrt(1.0 + t * t)
  }

  function Abs(z: Complex, sqrt: real -> real): real {
    Length(Fabs(z.re), Fabs(z.im), sqrt)
  }

  function Length(x: real, y: real, sqrt: real -> real): real {
    if x == 0.0 then y
    else if y == 0.0 then x
    else if x > y then x * UnitLength(y / x, sqrt)
    else y * UnitLength(x / y, sqrt)
  }

  function Sqrt(z: Complex, sqrt: real -> real): Complex
    requires Ideal(sqrt)
  {
    if z == ZERO then ZERO
    else
      LargerPartSquared(Fabs(z.re), Fabs(z.im), sqrt);
      RootWith(z, LargerPart(Fabs(z.re), Fabs(z.im), sqrt))
  }

  /** The `w` of the source: the larger part of the root, in absolute value. */
  function LargerPart(x: real, y: real, sqrt: real -> real): real
    requires x >= 0.0 && y >= 0.0 && (x > 0.0 || y > 0.0)
  {
    if x >= y then sqrt(x) * sqrt(0.5 * (1.0 + UnitLength(y / x, sqrt)))
    else sqrt(y) * sqrt(0.5 * (x / y + UnitLength(x / y, sqrt)))
  }

  /** Puts `w` in its place, by the sign of the real part. */
  function RootWith(z: Complex, w: real): Complex
    requires w > 0.0
  {
    if z.re >= 0.0 then Complex(w, z.im / (w + w))
    else
      var im := if z.im >= 0.0 then w else -w;
      Complex(z.im / (im + im), im)
  }

  // ---------------------------------------------------------------- facts about reals

  lemma Cancel(a: real, b: real, d: real)
    requires d != 0.0 && a * d == b * d
    ensures a == b
  {
  }

  lemma Quotient(a: real, d: real)
    requires d != 0.0
    ensures a / d * d == a
  {
  }

  lemma PositiveQuotient(a: real, d: real)
    requires a >= 0.0 && d > 0.0
    ensures a / d >= 0.0
  {
  }

  lemma PositiveProduct(a: real, b: real) returns (m: real)
    requires a > 0.0 && b > 0.0
    ensures m == a * b && m > 0.0
  {
    m := a * b;
    assert a * b > 0.0;
  }

  lemma Square(a: real) returns (m: real)
    ensures m == a * a && m >= 0.0
    ensures m > 0.0 <==> a != 0.0
  {
    if a > 0.0 {
      m := PositiveProduct(a, a);
    } else if a < 0.0 {
      m := PositiveProduct(-a, -a);
    } else {
      m := 0.0;
    }
  }

  lemma ProductOfSquares(a: real, b: real)
    ensures (a * b) * (a * b) == (a * a) * (b * b)
  {
  }

  lemma DifferenceOfSquares(a: real, b: real)
    ensures (a + b) * (a - b) == a * a - b * b
  {
  }

  lemma SquareOfDouble(y: real, p: real)
    requires y == 2.0 * p
    ensures y * y == 4.0 * (p * p)
  {
  }

  /** Non-negative numbers with equal squares are equal. */
  lemma RootIsUnique(a: real, b: real)
    requires a >= 0.0 && b >= 0.0 && a * a == b * b
    ensures a == b
  {
    DifferenceOfSquares(a, b);
    if a != b {
      Cancel(a + b, 0.0, a - b);
    }
  }

  lemma NormIsPositive(z: Complex)
    ensures Norm(z) >= 0.0 && (Norm(z) == 0.0 <==> z == ZERO)
  {
    var m := Square(z.re);
    var n := Square(z.im);
    assert Norm(z) == m + n;
  }

  lemma NormOfProduct(x: Complex, y: Complex)
    ensures Norm(Mul(x, y)) == Norm(x) * Norm(y)
  {
  }

  // ---------------------------------------------------------------- division

  /** Dividing by the larger part `a`, the second denominator is not zero either. */
  lemma ScaledDenominator(a: real, b: real)
    requires a != 0.0
    ensures a + b / a * b != 0.0
  {
    var m := Square(a);
    var n := Square(b);
    var r := b / a;
    Quotient(b, a);
    assert (a + r * b) * a == a * a + (r * a) * b;
    FactorIsNotZero(a + r * b, a, m + n);
  }

  lemma FactorIsNotZero(p: real, q: real, n: real)
    requires p * q == n && n > 0.0
    ensures p != 0.0
  {
  }

  /** `a` and `b` solve the two linear equations that division by the larger part `c` leaves. */
  lemma Solve(a: real, b: real, u: real, v: real, c: real, d: real, r: real, den: real)
    requires r * c == d && den == c + r * d && den != 0.0
    requires a * den == u + r * v && b * den == v - r * u
    ensures a * c - b * d == u && a * d + b * c == v
  {
  }

  lemma DivByRealThenMul(x: Complex, y: Complex)
    requires y.re != 0.0
    ensures Mul(DivByReal(x, y), y) == x
  {
    var r := y.im / y.re;
    var den := y.re + r * y.im;
    var q := DivByReal(x, y);
    ScaledDenominator(y.re, y.im);
    Quotient(y.im, y.re);
    Quotient(x.re + r * x.im, den);
    Quotient(x.im - r * x.re, den);
    Solve(q.re, q.im, x.re, x.im, y.re, y.im, r, den);
  }

  lemma DivByImaginaryThenMul(x: Complex, y: Complex)
    requires y.im != 0.0
    ensures Mul(DivByImaginary(x, y), y) == x
  {
    var r := y.re / y.im;
    var den := y.im + r * y.re;
    var q := DivByImaginary(x, y);
    ScaledDenominator(y.im, y.re);
    Quotient(y.re, y.im);
    Quotient(x.re * r + x.im, den);
    Quotient(x.im * r - x.re, den);
    Solve(q.re, -q.im, x.im, x.re, y.im, y.re, r, den);
  }

  /** A quotient times its divisor is the dividend, whichever part of the divisor is larger. */
  lemma DivThenMul(x: Complex, y: Complex)
    requires y != ZERO
    ensures Mul(Div(x, y), y) == x
  {
    if Fabs(y.re) < Fabs(y.im) {
      DivByImaginaryThenMul(x, y);
    } else {
      DivByRealThenMul(x, y);
    }
  }

  lemma MulCancels(p: Complex, q: Complex, y: Complex)
    requires y != ZERO && Mul(p, y) == Mul(q, y)
    ensures p == q
  {
    var d := Complex(p.re - q.re, p.im - q.im);
    assert Mul(d, y) == ZERO by {
      assert d.re * y.re == p.re * y.re - q.re * y.re && d.im * y.im == p.im * y.im - q.im * y.im;
      assert d.im * y.re == p.im * y.re - q.im * y.re && d.re * y.im == p.re * y.im - q.re * y.im;
    }
    NormOfProduct(d, y);
    NormIsPositive(y);
    NormIsPositive(d);
    Cancel(Norm(d), 0.0, Norm(y));
  }

  /** Division also undoes a multiplication. */
  lemma MulThenDiv(q: Complex, y: Complex)
    requires y != ZERO
    ensures Div(Mul(q, y), y) == q
  {
    DivThenMul(Mul(q, y), y);
    MulCancels(Div(Mul(q, y), y), q, y);
  }

  // ---------------------------------------------------------------- absolute value

  lemma UnitLengthSquared(t: real, sqrt: real -> real)
    requires Ideal(sqrt)
    ensures var s := UnitLength(t, sqrt); s >= 0.0 && s * s == 1.0 + t * t
  {
  }

  lemma ScaledBack(x: real, y: real, t: real, s: real)
    requires x > 0.0 && s >= 0.0 && t * x == y && s * s == 1.0 + t * t
    ensures x * s >= 0.0 && (x * s) * (x * s) == x * x + y * y
  {
  }

  lemma LengthSquared(x: real, y: real, sqrt: real -> real)
    requires Ideal(sqrt) && x >= 0.0 && y >= 0.0
    ensures var a := Length(x, y, sqrt); a >= 0.0 && a * a == x * x + y * y
  {
  }

  lemma AbsSquared(z: Complex, sqrt: real -> real)
    requires Ideal(sqrt)
    ensures Abs(z, sqrt) >= 0.0 && Abs(z, sqrt) * Abs(z, sqrt) == Norm(z)
  {
    FabsSquared(z.re);
    FabsSquared(z.im);
    LengthSquared(Fabs(z.re), Fabs(z.im), sqrt);
  }

  lemma FabsSquared(a: real)
    ensures Fabs(a) * Fabs(a) == a * a && Fabs(a) >= 0.0
  {
    NegatedSquare(a);
  }

  lemma LengthsMultiply(a: real, b: real, c: real, m: real, n: real)
    requires a >= 0.0 && b >= 0.0 && c >= 0.0
    requires a * a == m && b * b == n && c * c == m * n
    ensures c == a * b
  {
    ProductOfSquares(a, b);
    assert a * b >= 0.0;
    RootIsUnique(c, a * b);
  }

  /** `a` is the length of `z`. */
  predicate IsLength(a: real, z: Complex) {
    a >= 0.0 && a * a == Norm(z)
  }

  lemma LengthsOfProduct(x: Complex, y: Complex, a: real, b: real, c: real)
    requires IsLength(a, x) && IsLength(b, y) && IsLength(c, Mul(x, y))
    ensures c == a * b
  {
    NormOfProduct(x, y);
    LengthsMultiply(a, b, c, Norm(x), Norm(y));
  }

  lemma AbsIsLength(z: Complex, sqrt: real -> real)
    requires Ideal(sqrt)
    ensures IsLength(Abs(z, sqrt), z)
  {
    AbsSquared(z, sqrt);
  }

  lemma AbsIsMultiplicative(x: Complex, y: Complex, sqrt: real -> real)
    requires Ideal(sqrt)
    ensures Abs(Mul(x, y), sqrt) == Abs(x, sqrt) * Abs(y, sqrt)
  {
    AbsIsLength(x, sqrt);
    AbsIsLength(y, sqrt);
    AbsIsLength(Mul(x, y), sqrt);
    LengthsOfProduct(x, y, Abs(x, sqrt), Abs(y, sqrt), Abs(Mul(x, y), sqrt));
  }

  // ---------------------------------------------------------------- square root

  lemma ProductOfRoots(a: real, b: real, sqrt: real -> real)
    requires Ideal(sqrt) && a > 0.0 && b > 0.0
    ensures var w := sqrt(a) * sqrt(b); w > 0.0 && w * w == a * b
  {
  }

  lemma RootIsPositive(a: real, s: real)
    requires a > 0.0 && s >= 0.0 && s * s == a
    ensures s > 0.0
  {
    var m := Square(s);
  }

  lemma HalvedSum(x: real, r: real, s: real, p: real, q: real)
    requires r * x == p && x * s == q
    ensures 2.0 * (x * (0.5 * (r + s))) == p + q
  {
  }

  /** `w` is positive, and twice its square is `x + a`. */
  predicate IsHalfSum(w: real, x: real, a: real) {
    w > 0.0 && 2.0 * (w * w) == x + a
  }

  /** The branch where the real part is the larger; `a` is the length. */
  lemma LargerRealPart(x: real, y: real, a: real, sqrt: real -> real)
    requires Ideal(sqrt) && x > 0.0 && a >= 0.0 && a * a == x * x + y * y
    ensures IsHalfSum(sqrt(x) * sqrt(0.5 * (1.0 + UnitLength(y / x, sqrt))), x, a)
  {
    var s := UnitLength(y / x, sqrt);
    Quotient(y, x);
    UnitLengthSquared(y / x, sqrt);
    ScaledBack(x, y, y / x, s);
    RootIsUnique(x * s, a);
    ProductOfRoots(x, 0.5 * (1.0 + s), sqrt);
    HalvedSum(x, 1.0, s, x, a);
  }

  /** The branch where the imaginary part is the larger. */
  lemma LargerImaginaryPart(x: real, y: real, a: real, sqrt: real -> real)
    requires Ideal(sqrt) && x >= 0.0 && y > 0.0 && a >= 0.0 && a * a == y * y + x * x
    ensures IsHalfSum(sqrt(y) * sqrt(0.5 * (x / y + UnitLength(x / y, sqrt))), x, a)
  {
    var r, s := x / y, UnitLength(x / y, sqrt);
    Quotient(x, y);
    PositiveQuotient(x, y);
    UnitLengthSquared(r, sqrt);
    var m := Square(r);
    RootIsPositive(1.0 + r * r, s);
    ScaledBack(y, x, r, s);
    RootIsUnique(y * s, a);
    ProductOfRoots(y, 0.5 * (r + s), sqrt);
    HalvedSum(y, r, s, x, a);
  }

  /** `w` is positive, and its square is half the sum of the real part and the length. */
  lemma LargerPartSquared(x: real, y: real, sqrt: real -> real)
    requires Ideal(sqrt) && x >= 0.0 && y >= 0.0 && (x > 0.0 || y > 0.0)
    ensures LargerPart(x, y, sqrt) > 0.0
    ensures var w := LargerPart(x, y, sqrt); 2.0 * (w * w) == x + Length(x, y, sqrt)
  {
    LengthSquared(x, y, sqrt);
    LargerPartOfLength(x, y, Length(x, y, sqrt), sqrt);
  }

  lemma LargerPartOfLength(x: real, y: real, a: real, sqrt: real -> real)
    requires Ideal(sqrt) && x >= 0.0 && y >= 0.0 && (x > 0.0 || y > 0.0) && a >= 0.0 && a * a == x * x + y * y
    ensures IsHalfSum(LargerPart(x, y, sqrt), x, a)
  {
    if x >= y {
      LargerRealPart(x, y, a, sqrt);
    } else {
      LargerImaginaryPart(x, y, a, sqrt);
    }
  }

  /** The root with non-negative real part, and the upper one of two on the imaginary axis. */
  predicate Principal(c: Complex) {
    c.re > 0.0 || (c.re == 0.0 && c.im >= 0.0)
  }

  /** From `2 w w = x + a` and `a a = x x + y y`: `w` and `v = y / 2w` are the parts of the root. */
  lemma RootParts(w: real, v: real, x: real, y: real, a: real)
    requires w > 0.0 && 2.0 * (w * w) == x + a && a * a == x * x + y * y
    requires y == 2.0 * (v * w)
    ensures w * w - v * v == x
  {
    SquareOfDouble(y, v * w);
    ProductOfSquares(v, w);
    // 4 ww (ww - x) = (a + x)(a - x) = y y
    DifferenceOfSquares(a, x);
    var p := Square(w);
    CancelQuarter(p, v * v, a, x, y * y);
  }

  lemma CancelQuarter(p: real, q: real, a: real, x: real, n: real)
    requires p > 0.0 && 2.0 * p == a + x && 4.0 * (q * p) == n && (a + x) * (a - x) == n
    ensures p - q == x
  {
  }

  /** `RootWith` for a real part `x >= 0`. */
  lemma RightHalf(w: real, x: real, y: real, a: real)
    requires w > 0.0 && 2.0 * (w * w) == x + a && a * a == x * x + y * y
    ensures var v := y / (w + w); w * w - v * v == x && v * w + w * v == y
  {
    var v := y / (w + w);
    Quotient(y, w + w);
    assert v * (w + w) == 2.0 * (v * w);
    RootParts(w, v, x, y, a);
  }

  /** `RootWith` for a real part `x < 0`. */
  lemma LeftHalf(w: real, x: real, y: real, a: real)
    requires w > 0.0 && 2.0 * (w * w) == -x + a && a * a == x * x + y * y
    ensures var im := if y >= 0.0 then w else -w; var re := y / (im + im);
      re * re - im * im == x && im * re + re * im == y && re >= 0.0 && (re == 0.0 ==> y == 0.0)
  {
    var im := if y >= 0.0 then w else -w;
    var re := y / (im + im);
    Quotient(y, im + im);
    assert re * (im + im) == 2.0 * (re * im);
    NegatedSquare(x);
    NegatedSquare(y);
    if y >= 0.0 {
      PositiveQuotient(y, w + w);
      RootParts(w, re, -x, y, a);
    } else {
      FlippedQuotient(y, w);
      PositiveQuotient(-y, w + w);
      RootParts(w, re, -x, -y, a);
    }
  }

  lemma NegatedSquare(a: real)
    ensures -a * -a == a * a
  {
  }

  lemma FlippedQuotient(y: real, w: real)
    requires w > 0.0
    ensures y / (-w + -w) == -y / (w + w)
  {
  }

  lemma RightRootSquaresBack(z: Complex, w: real, a: real)
    requires z.re >= 0.0 && w > 0.0 && 2.0 * (w * w) == z.re + a && a * a == z.re * z.re + z.im * z.im
    ensures var c := RootWith(z, w); Mul(c, c) == z && Principal(c)
  {
    RightHalf(w, z.re, z.im, a);
  }

  lemma LeftRootSquaresBack(z: Complex, w: real, a: real)
    requires z.re < 0.0 && w > 0.0 && 2.0 * (w * w) == -z.re + a && a * a == z.re * z.re + z.im * z.im
    ensures var c := RootWith(z, w); Mul(c, c) == z && Principal(c)
  {
    LeftHalf(w, z.re, z.im, a);
  }

  /** The computed root squares back to its argument, in every scaling and sign branch, and is the principal one. */
  lemma SqrtSquaresBack(z: Complex, sqrt: real -> real)
    requires Ideal(sqrt)
    ensures var c := Sqrt(z, sqrt); Mul(c, c) == z && Principal(c)
  {
    if z != ZERO {
      LargerPartSquared(Fabs(z.re), Fabs(z.im), sqrt);
      AbsSquared(z, sqrt);
      if z.re >= 0.0 {
        RightRootSquaresBack(z, LargerPart(Fabs(z.re), Fabs(z.im), sqrt), Abs(z, sqrt));
      } else {
        LeftRootSquaresBack(z, LargerPart(Fabs(z.re), Fabs(z.im), sqrt), Abs(z, sqrt));
      }
    }
  }

  /** A number has one principal root. */
  lemma PrincipalIsUnique(c: Complex, d: Complex)
    requires Principal(c) && Principal(d) && Mul(c, c) == Mul(d, d)
    ensures c == d
  {
    NormOfProduct(c, c);
    NormOfProduct(d, d);
    NormIsPositive(c);
    NormIsPositive(d);
    RootIsUnique(Norm(c), Norm(d));
    RootIsUnique(c.re, d.re);
    if c.re == 0.0 {
      RootIsUnique(c.im, d.im);
    } else {
      Cancel(c.im, d.im, c.re);
    }
  }

  /** The root undoes squaring exactly on the principal half plane. */
  lemma SqrtUndoesSquareIffPrincipal(d: Complex, sqrt: real -> real)
    requires Ideal(sqrt)
    ensures Sqrt(Mul(d, d), sqrt) == d <==> Principal(d)
  {
    SqrtSquaresBack(Mul(d, d), sqrt);
    if Principal(d) {
      PrincipalIsUnique(Sqrt(Mul(d, d), sqrt), d);
    }
  }
}
