/** The affine group law on the curves y^2 = x^3 + k over the field of P elements. */
module Curve {
  import opened Fermat
  import opened Modular
  import FieldLimbs

  const P: int := FieldLimbs.P

  /** The prime of the curve is that of the limbs. */
  lemma SameField()
    ensures P == FieldLimbs.P && P > 0
  {
  }

  /** A point, with reduced coordinates. */
  datatype Point = Infinity | Affine(x: int, y: int)

  ghost predicate OnCurve(k: int, q: Point) {
    q.Affine? ==> 0 <= q.x < P && 0 <= q.y < P && Cong(Times(q.y, q.y), Times(Times(q.x, q.x), q.x) + k, P)
  }

  lemma OnCurveDef(k: int, q: Point)
    ensures OnCurve(k, q) <==> (q.Affine? ==> 0 <= q.x < P && 0 <= q.y < P && Cong(q.y * q.y, q.x * q.x * q.x + k, P))
  {
    if q.Affine? {
      hide Cong, Times;
      TimesIs(q.y, q.y);
      TimesIs(q.x, q.x);
      TimesIs(q.x * q.x, q.x);
    }
  }

  ghost predicate HasInverse(a: int) {
    exists i: int :: Cong(Times(a, i), 1, P)
  }

  /** An inverse modulo P, where there is one. */
  ghost function Inverse(a: int): int {
    if HasInverse(a) then var i: int :| Cong(Times(a, i), 1, P); i else 0
  }

  lemma InverseOf(a: int)
    requires Prime(P) && !Cong(a, 0, P)
    ensures Cong(a * Inverse(a), 1, P)
  {
    var i := Pow(a, P - 2);
    LittleTheorem(a, P);
    assert Pow(a, P - 1) == a * i;
    hide Cong, Prime, Pow, Times;
    TimesIs(a, i);
    assert HasInverse(a);
    TimesIs(a, Inverse(a));
  }

  /** The slope of the chord through two points, or of the tangent where they meet. */
  ghost function Slope(p: Point, q: Point): int
    requires p.Affine? && q.Affine?
  {
    if p.x == q.x then Times(3 * Times(p.x, p.x), Inverse(2 * p.y)) else Times(q.y - p.y, Inverse(q.x - p.x))
  }

  lemma SlopeDef(p: Point, q: Point)
    requires p.Affine? && q.Affine?
    ensures Slope(p, q) == if p.x == q.x then (3 * (p.x * p.x)) * Inverse(2 * p.y) else (q.y - p.y) * Inverse(q.x - p.x)
  {
    hide Times, Inverse;
    TimesIs(p.x, p.x);
    TimesIs(3 * (p.x * p.x), Inverse(2 * p.y));
    TimesIs(q.y - p.y, Inverse(q.x - p.x));
  }

  ghost predicate Opposite(p: Point, q: Point)
    requires p.Affine? && q.Affine?
  {
    p.x == q.x && Cong(p.y + q.y, 0, P)
  }

  /** The chord-and-tangent sum. */
  ghost function Add(p: Point, q: Point): Point {
    if p.Infinity? then q else
    if q.Infinity? then p else
    if Opposite(p, q) then Infinity else
    Third(Slope(p, q), p, q)
  }

  /** The third point of the line with slope `m` through p and q, reflected. */
  ghost function Third(m: int, p: Point, q: Point): Point
    requires p.Affine? && q.Affine?
  {
    var x := Times(m, m) - p.x - q.x;
    Affine(Rem(x, P), Rem(Times(m, p.x - x) - p.y, P))
  }

  lemma ThirdDef(m: int, p: Point, q: Point)
    requires p.Affine? && q.Affine?
    ensures var x := m * m - p.x - q.x; Third(m, p, q) == Affine(Rem(x, P), Rem(m * (p.x - x) - p.y, P))
  {
    hide Times, Rem;
    TimesIs(m, m);
    TimesIs(m, p.x - (m * m - p.x - q.x));
  }

  ghost function Neg(q: Point): Point {
    if q.Infinity? then Infinity else Affine(q.x, (P - q.y) % P)
  }

  lemma DivideBack(a: int, b: int)
    requires Prime(P) && !Cong(b, 0, P)
    ensures Cong((a * Inverse(b)) * b, a, P)
  {
    hide Inverse, Cong, Prime;
    InverseOf(b);
    Refl(a, P);
    MulCong(a, a, b * Inverse(b), 1, P);
    assert (a * Inverse(b)) * b == a * (b * Inverse(b));
  }

  lemma SubCongZero(a: int, b: int)
    ensures Cong(a - b, 0, P) <==> Cong(a, b, P)
  {
    hide Cong;
    Refl(b, P);
    if Cong(a - b, 0, P) {
      FromDifference(a, b, P);
    }
    if Cong(a, b, P) {
      AddCong(a, b, b, b, P);
    }
  }

  /** Points of one curve with one x-coordinate are equal or opposite. */
  lemma SameX(k: int, p: Point, q: Point)
    requires Prime(P) && OnCurve(k, p) && OnCurve(k, q) && p.Affine? && q.Affine? && p.x == q.x
    ensures p == q || Opposite(p, q)
  {
    OnCurveDef(k, p);
    OnCurveDef(k, q);
    hide OnCurve;
    hide Prime, Cong;
    var s, c := (p.y - q.y) * (p.y + q.y), p.x * p.x * p.x + k;
    Sym(q.y * q.y, c, P);
    Trans(p.y * p.y, c, q.y * q.y, P);
    SubCongZero(p.y * p.y, q.y * q.y);
    assert s == p.y * p.y - q.y * q.y;
    Euclid(p.y - q.y, p.y + q.y, P);
    if Cong(p.y - q.y, 0, P) {
      SubCongZero(p.y, q.y);
      CongUnique(p.y, q.y, P);
    }
  }

  /** What makes `m` the slope of the line through p and q: both points lie on it, and it is tangent where they meet. */
  ghost predicate IsSlope(m: int, p: Point, q: Point)
    requires p.Affine? && q.Affine?
  {
    && Cong(Times(m, q.x - p.x), q.y - p.y, P)
    && Cong(Times(m, p.y + q.y), Times(p.x, p.x) + Times(p.x, q.x) + Times(q.x, q.x), P)
  }

  lemma IsSlopeDef(m: int, p: Point, q: Point)
    requires p.Affine? && q.Affine?
    ensures IsSlope(m, p, q) <==>
      Cong(m * (q.x - p.x), q.y - p.y, P) && Cong(m * (p.y + q.y), p.x * p.x + p.x * q.x + q.x * q.x, P)
  {
    hide Cong, Times;
    TimesIs(m, q.x - p.x);
    TimesIs(m, p.y + q.y);
    TimesIs(p.x, p.x);
    TimesIs(p.x, q.x);
    TimesIs(q.x, q.x);
  }

  lemma DistinctX(p: Point, q: Point, k: int)
    requires OnCurve(k, p) && OnCurve(k, q) && p.Affine? && q.Affine? && p.x != q.x
    ensures !Cong(q.x - p.x, 0, P)
  {
    if Cong(q.x - p.x, 0, P) {
      hide Cong;
      SubCongZero(q.x, p.x);
      CongUnique(q.x, p.x, P);
    }
  }

  lemma SquaresAndCubes(x1: int, y1: int, x2: int, y2: int)
    ensures (y2 - y1) * (y1 + y2) == y2 * y2 - y1 * y1
    ensures (x2 - x1) * (x1 * x1 + x1 * x2 + x2 * x2) == x2 * x2 * x2 - x1 * x1 * x1
  {
  }

  lemma ChordRelation(k: int, p: Point, q: Point, m: int)
    requires Prime(P) && OnCurve(k, p) && OnCurve(k, q) && p.Affine? && q.Affine? && p.x != q.x
    requires Cong(m * (q.x - p.x), q.y - p.y, P)
    ensures IsSlope(m, p, q)
  {
    IsSlopeDef(m, p, q);
    OnCurveDef(k, p);
    OnCurveDef(k, q);
    hide OnCurve, IsSlope;
    DistinctX(p, q, k);
    hide Prime, Cong;
    SquaresAndCubes(p.x, p.y, q.x, q.y);
    SlopeByCancelling(q.x - p.x, q.y - p.y, p.y + q.y, p.x * p.x + p.x * q.x + q.x * q.x, m,
                  p.y * p.y, q.y * q.y, p.x * p.x * p.x + k, q.x * q.x * q.x + k);
  }

  /** The slope relation, multiplied through by the difference of the x-coordinates. */
  lemma SlopeByCancelling(dx: int, dy: int, sy: int, t: int, m: int, a: int, b: int, c: int, d: int)
    requires Prime(P) && !Cong(dx, 0, P) && Cong(m * dx, dy, P) && Cong(a, c, P) && Cong(b, d, P)
    requires dy * sy == b - a && dx * t == d - c
    ensures Cong(m * sy, t, P)
  {
    hide Prime, Cong;
    Refl(sy, P);
    MulCong(m * dx, dy, sy, sy, P);
    AddCong(b, d, a, c, P);
    Trans((m * dx) * sy, dy * sy, dx * t, P);
    assert (m * dx) * sy == dx * (m * sy);
    Cancel(dx, m * sy, t, P);
  }

  lemma TangentRelation(p: Point, m: int)
    requires p.Affine? && Cong(m * (2 * p.y), 3 * (p.x * p.x), P)
    ensures IsSlope(m, p, p)
  {
    hide IsSlope;
    IsSlopeDef(m, p, p);
    assert m * (p.x - p.x) == 0 && p.y - p.y == 0;
    assert p.y + p.y == 2 * p.y;
    assert p.x * p.x + p.x * p.x + p.x * p.x == 3 * (p.x * p.x);
    hide Cong;
    Refl(0, P);
  }

  lemma TwiceUnit(y: int)
    requires !Cong(y + y, 0, P)
    ensures !Cong(2 * y, 0, P)
  {
    hide Cong;
    assert y + y == 2 * y;
  }

  /** The slope of the group law is one. */
  lemma SlopeIsSlope(k: int, p: Point, q: Point)
    requires Prime(P) && OnCurve(k, p) && OnCurve(k, q) && p.Affine? && q.Affine? && !Opposite(p, q)
    ensures IsSlope(Slope(p, q), p, q)
  {
    SlopeDef(p, q);
    hide Slope;
    hide Prime, Cong, OnCurve, Inverse, IsSlope;
    if p.x == q.x {
      SameX(k, p, q);
      TwiceUnit(p.y);
      hide Opposite;
      DivideBack(3 * (p.x * p.x), 2 * p.y);
      TangentRelation(p, Slope(p, q));
    } else {
      hide Opposite;
      DistinctX(p, q, k);
      DivideBack(q.y - p.y, q.x - p.x);
      ChordRelation(k, p, q, Slope(p, q));
    }
  }

  /** The cubic that a line leaves after its two known intersections, at the third one. */
  lemma LineCubic(x1: int, y1: int, x2: int, m: int, x: int, g: int)
    requires x == m * m - x1 - x2
    requires g == (x1 * x1 + x1 * x2 + x2 * x2) - m * m * (x2 - x1) - 2 * (m * y1)
    ensures (m * (x1 - x) - y1) * (m * (x1 - x) - y1) == y1 * y1 + (x * x * x - x1 * x1 * x1) + (x1 - x) * g
  {
    assert (m * (x1 - x) - y1) * (m * (x1 - x) - y1)
        == y1 * y1 + (x - x1) * (x * x + x * x1 + x1 * x1) +
            (x1 - x) * (x * x + x * x1 + x1 * x1 - m * m * (x - x1) - 2 * (m * y1));
    assert x * x + x * x1 + x1 * x1 - m * m * (x - x1) == x1 * x1 + x1 * x2 + x2 * x2 - m * m * (x2 - x1);
  }

  lemma LineRemainder(x1: int, y1: int, x2: int, y2: int, m: int)
    requires Cong(m * (x2 - x1), y2 - y1, P)
    requires Cong(m * (y1 + y2), x1 * x1 + x1 * x2 + x2 * x2, P)
    ensures Cong((x1 * x1 + x1 * x2 + x2 * x2) - m * m * (x2 - x1) - 2 * (m * y1), 0, P)
  {
    hide Cong;
    var t := x1 * x1 + x1 * x2 + x2 * x2;
    var k := Quotient(m * (x2 - x1), y2 - y1, P);
    var l := Quotient(m * (y1 + y2), t, P);
    assert m * m * (x2 - x1) == m * (m * (x2 - x1));
    assert m * (y2 - y1 + k * P) == m * (y1 + y2) - 2 * (m * y1) + (m * k) * P;
    FromMultiple(t - m * m * (x2 - x1) - 2 * (m * y1), 0, -l - m * k, P);
  }

  /** Reduced representatives of the coordinates make a point of the curve. */
  lemma ReducedOnCurve(k: int, x: int, y: int, a: int, b: int)
    requires Cong(y * y, x * x * x + k, P)
    requires 0 <= a < P && 0 <= b < P && Cong(a, x, P) && Cong(b, y, P)
    ensures OnCurve(k, Affine(a, b))
  {
    OnCurveDef(k, Affine(a, b));
    hide OnCurve;
    hide Cong;
    MulCong(b, y, b, y, P);
    MulCong(a, x, a, x, P);
    MulCong(a * a, x * x, a, x, P);
    Refl(k, P);
    AddCong(a * a * a, x * x * x, k, k, P);
    Sym(a * a * a + k, x * x * x + k, P);
    Trans(b * b, y * y, x * x * x + k, P);
    Trans(b * b, x * x * x + k, a * a * a + k, P);
  }

  lemma ThirdOnCurve(k: int, p: Point, q: Point, m: int)
    requires OnCurve(k, p) && OnCurve(k, q) && p.Affine? && q.Affine? && IsSlope(m, p, q)
    ensures OnCurve(k, Third(m, p, q))
  {
    hide Cong, IsSlope, OnCurve, Third, Rem, Times;
    OnCurveDef(k, p);
    OnCurveDef(k, q);
    IsSlopeDef(m, p, q);
    ThirdDef(m, p, q);
    var x := m * m - p.x - q.x;
    var y := m * (p.x - x) - p.y;
    var g := (p.x * p.x + p.x * q.x + q.x * q.x) - m * m * (q.x - p.x) - 2 * (m * p.y);
    LineRemainder(p.x, p.y, q.x, q.y, m);
    LineCubic(p.x, p.y, q.x, m, x, g);
    var x3, c, d := x * x * x, p.x * p.x * p.x, p.x - x;
    hide Cong;
    Refl(d, P);
    MulCong(d, d, g, 0, P);
    Refl(x3 - c, P);
    AddCong(p.y * p.y, c + k, x3 - c, x3 - c, P);
    AddCong(p.y * p.y + (x3 - c), c + k + (x3 - c), d * g, d * 0, P);
    assert Cong(y * y, x3 + k, P);
    RemCong(x, P);
    RemCong(y, P);
    ReducedOnCurve(k, x, y, Rem(x, P), Rem(y, P));
  }

  lemma AddOnCurve(k: int, p: Point, q: Point)
    requires Prime(P) && OnCurve(k, p) && OnCurve(k, q)
    ensures OnCurve(k, Add(p, q))
  {
    if p.Affine? && q.Affine? && !Opposite(p, q) {
      hide OnCurve, Prime, Slope, IsSlope, Third;
      SlopeIsSlope(k, p, q);
      ThirdOnCurve(k, p, q, Slope(p, q));
    }
  }

  lemma NegOnCurve(k: int, q: Point)
    requires OnCurve(k, q)
    ensures OnCurve(k, Neg(q))
  {
    OnCurveDef(k, q);
    hide OnCurve;
    if q.Affine? {
      hide Cong;
      var y := (P - q.y) % P;
      assert (-q.y) * (-q.y) == q.y * q.y;
      NegResidue(q.y);
      Refl(q.x, P);
      ReducedOnCurve(k, q.x, -q.y, q.x, y);
    }
  }

  lemma NegResidue(y: int)
    ensures Cong((P - y) % P, -y, P) && 0 <= (P - y) % P < P
  {
    hide Cong;
    ModCong(P - y, P);
    FromMultiple(P - y, -y, 1, P);
    Trans((P - y) % P, P - y, -y, P);
  }

  lemma AddNeg(q: Point)
    requires q.Affine? ==> 0 <= q.y < P
    ensures Add(q, Neg(q)) == Infinity
  {
    if q.Affine? {
      NegSum(q.y);
      assert Opposite(q, Neg(q));
      hide Slope, Third, Opposite;
    }
  }

  /** A point with y = 0 is its own negation. */
  lemma OrderTwoDoubles(q: Point)
    requires q.Affine? && q.y == 0
    ensures Add(q, q) == Infinity
  {
    hide Slope, Third, Cong;
    Refl(0, P);
  }

  lemma NegSum(y: int)
    requires 0 <= y < P
    ensures Cong(y + (P - y) % P, 0, P)
  {
    hide Cong;
    CongZero(y + (P - y) % P, P);
  }

  /** Two reduced residues that cancel add up to P, and P is odd. */
  lemma SumIsP(a: int, b: int)
    requires 0 < a < P && 0 < b < P && Cong(a + b, 0, P)
    ensures a + b == P && a % 2 != b % 2
  {
    hide Cong;
    if a + b < P {
      CongUnique(a + b, 0, P);
    } else {
      Refl(P, P);
      FromMultiple(P, 0, 1, P);
      AddCong(a + b, 0, P, 0, P);
      CongUnique(a + b - P, 0, P);
    }
  }

  /** Slopes of one line are congruent. */
  lemma SlopeUnique(k: int, p: Point, q: Point, m: int, n: int)
    requires Prime(P) && OnCurve(k, p) && OnCurve(k, q) && p.Affine? && q.Affine? && !Opposite(p, q)
    requires IsSlope(m, p, q) && IsSlope(n, p, q)
    ensures Cong(m, n, P)
  {
    hide IsSlope;
    IsSlopeDef(m, p, q);
    IsSlopeDef(n, p, q);
    if p.x == q.x {
      SameX(k, p, q);
      TwiceUnit(p.y);
      assert p.y + q.y == 2 * p.y;
      hide Cong, OnCurve;
      CancelRight(m, n, p.y + q.y, p.x * p.x + p.x * q.x + q.x * q.x);
    } else {
      DistinctX(p, q, k);
      hide Cong, OnCurve;
      CancelRight(m, n, q.x - p.x, q.y - p.y);
    }
  }

  lemma CancelRight(m: int, n: int, a: int, b: int)
    requires Prime(P) && !Cong(a, 0, P) && Cong(m * a, b, P) && Cong(n * a, b, P)
    ensures Cong(m, n, P)
  {
    hide Cong, Prime;
    Sym(n * a, b, P);
    Trans(m * a, b, n * a, P);
    assert m * a == a * m && n * a == a * n;
    Cancel(a, m, n, P);
  }

  /** The third point depends on the slope only modulo P. */
  lemma ThirdCong(m: int, n: int, p: Point, q: Point)
    requires p.Affine? && q.Affine? && Cong(m, n, P)
    ensures Third(m, p, q) == Third(n, p, q)
  {
    hide Third, Times;
    ThirdDef(m, p, q);
    ThirdDef(n, p, q);
    hide Cong, Rem;
    var x, x' := m * m - p.x - q.x, n * n - p.x - q.x;
    MulCong(m, n, m, n, P);
    Refl(p.x, P);
    Refl(q.x, P);
    Refl(p.y, P);
    AddCong(m * m, n * n, p.x, p.x, P);
    AddCong(m * m - p.x, n * n - p.x, q.x, q.x, P);
    RemSame(x, x', P);
    AddCong(p.x, p.x, x, x', P);
    MulCong(m, n, p.x - x, p.x - x', P);
    AddCong(m * (p.x - x), n * (p.x - x'), p.y, p.y, P);
    RemSame(m * (p.x - x) - p.y, n * (p.x - x') - p.y, P);
  }

  lemma ThirdSymmetric(m: int, p: Point, q: Point)
    requires p.Affine? && q.Affine? && IsSlope(m, p, q)
    ensures IsSlope(m, q, p) && Third(m, p, q) == Third(m, q, p)
  {
    hide Third, Times, IsSlope, Rem;
    IsSlopeDef(m, p, q);
    IsSlopeDef(m, q, p);
    ThirdDef(m, p, q);
    ThirdDef(m, q, p);
    var dx, dy := q.x - p.x, q.y - p.y;
    var x := m * m - p.x - q.x;
    hide Cong;
    assert m * (p.x - q.x) == -(m * dx);
    var k := Quotient(m * dx, dy, P);
    FromMultiple(m * (p.x - q.x), p.y - q.y, -k, P);
    assert q.x * q.x + q.x * p.x + p.x * p.x == p.x * p.x + p.x * q.x + q.x * q.x;
    assert m * (q.x - x) - m * (p.x - x) == m * dx;
    FromMultiple(m * (q.x - x) - q.y, m * (p.x - x) - p.y, k, P);
    RemSame(m * (q.x - x) - q.y, m * (p.x - x) - p.y, P);
  }

  lemma AddCommutes(k: int, p: Point, q: Point)
    requires Prime(P) && OnCurve(k, p) && OnCurve(k, q)
    ensures Add(p, q) == Add(q, p)
  {
    if p.Affine? && q.Affine? && !Opposite(p, q) {
      hide OnCurve, Prime, Slope, IsSlope, Third;
      assert !Opposite(q, p);
      hide Opposite;
      SlopeIsSlope(k, p, q);
      SlopeIsSlope(k, q, p);
      ThirdSymmetric(Slope(p, q), p, q);
      SlopeUnique(k, q, p, Slope(p, q), Slope(q, p));
      ThirdCong(Slope(p, q), Slope(q, p), q, p);
    }
  }
}
