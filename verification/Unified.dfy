/** The unified addition formula of Brier and Joye: one formula for doubling and for adding distinct points. */
module Unified {
  import opened Curve
  import opened Formulas
  import opened Modular

  /** The unified formula, over the integers: t, q, r and n are the scaled sums and products, v the new scale. */
  lemma UnifiedIdentity(x1: int, y1: int, x2: int, y2: int, w: int, m: int, d: int, e: int, x3: int)
    requires e == d * w && x3 == m * m - x1 - x2
    ensures var v, r, q, n := 2 * e, m * e, (d * d) * ((x1 + x2) * (w * w)), (d * d * d) * ((y1 + y2) * (w * w * w));
      && 4 * (r * r - q) == x3 * (v * v)
      && 4 * (-((2 * (r * r - q) - q) * r + n)) == 4 * ((e * e * e) * (m * (x1 + x2 - 2 * x3) - (y1 + y2)))
  {
    UnifiedProducts(x1 + x2, y1 + y2, w, d, e);
    UnifiedX(m, x1 + x2, x3, e);
    UnifiedY(m, x1 + x2, y1 + y2, x3, e);
  }

  lemma UnifiedX(m: int, sx: int, x3: int, e: int)
    requires x3 == m * m - sx
    ensures (m * e) * (m * e) - sx * (e * e) == x3 * (e * e)
    ensures 4 * ((m * e) * (m * e) - sx * (e * e)) == x3 * ((2 * e) * (2 * e))
  {
    assert (m * e) * (m * e) == (m * m) * (e * e);
  }

  lemma UnifiedY(m: int, sx: int, sy: int, x3: int, e: int)
    ensures -((2 * (x3 * (e * e)) - sx * (e * e)) * (m * e) +
          sy * (e * e * e)) == (e * e * e) * (m * (sx - 2 * x3) - sy)
  {
    var c := sx - 2 * x3;
    assert 2 * (x3 * (e * e)) - sx * (e * e) == -(c * (e * e));
    assert (c * (e * e)) * (m * e) == (e * e * e) * (m * c);
  }

  lemma UnifiedProducts(sx: int, sy: int, w: int, d: int, e: int)
    requires e == d * w
    ensures (d * d) * (sx * (w * w)) == sx * (e * e)
    ensures (d * d * d) * (sy * (w * w * w)) == sy * (e * e * e)
  {
    assert e * e == (d * d) * (w * w);
    assert e * e * e == (d * d * d) * (w * w * w);
  }

  /** Twice the reflected y-coordinate, written symmetrically in the two points. */
  lemma SymmetricY(p: Point, q: Point, m: int, x3: int, e: int)
    requires p.Affine? && q.Affine? && IsSlope(m, p, q)
    ensures var v := 2 * e;
      Cong(4 * ((e * e * e) * (m * (p.x + q.x - 2 * x3) - (p.y + q.y))), (m * (p.x - x3) - p.y) * (v * v * v), P)
  {
    IsSlopeDef(m, p, q);
    hide IsSlope, Times;
    hide Cong;
    var c, y3 := e * e * e, m * (p.x - x3) - p.y;
    var l := Quotient(m * (q.x - p.x), q.y - p.y, P);
    var s := m * (p.x + q.x - 2 * x3) - (p.y + q.y);
    assert s == 2 * y3 + l * P by {
      assert m * (p.x + q.x - 2 * x3) == 2 * (m * (p.x - x3)) + m * (q.x - p.x);
    }
    FromMultiple(s, 2 * y3, l, P);
    Scaled(c, s, 2 * y3);
    Scaled(4, c * s, c * (2 * y3));
    assert (2 * e) * (2 * e) * (2 * e) == 8 * c;
    assert 4 * (c * (2 * y3)) == y3 * (8 * c);
  }

  lemma UnifiedQ(t: int, d: int, dd: int, q: int, tt: int, ds: int)
    requires Cong(t, tt, P) && Cong(d, ds, P) && Cong(dd, d * d, P) && Cong(q, dd * t, P)
    ensures Cong(q, (ds * ds) * tt, P)
  {
    hide Cong;
    MulTo(dd, d, ds, d, ds);
    MulTo(q, dd, ds * ds, t, tt);
  }

  /** What the unified computation represents, in terms of what its inputs do. */
  lemma UnifiedCong(r: int, n: int, q: int, r2: int, pr: int, qs: int, rs: int, ns: int)
    requires Cong(q, qs, P) && Cong(r, rs, P) && Cong(n, ns, P)
    requires Cong(r2, r * r, P) && Cong(pr, (2 * (r2 - q) - q) * r, P)
    ensures Cong(4 * (r2 - q), 4 * (rs * rs - qs), P) &&
          Cong(4 * (-(pr + n)), 4 * (-((2 * (rs * rs - qs) - qs) * rs + ns)), P)
  {
    hide Cong;
    var r2s := rs * rs;
    MulTo(r2, r, rs, r, rs);
    AddCong(r2, r2s, q, qs, P);
    Scaled(4, r2 - q, r2s - qs);
    Scaled(2, r2 - q, r2s - qs);
    AddCong(2 * (r2 - q), 2 * (r2s - qs), q, qs, P);
    MulTo(pr, 2 * (r2 - q) - q, 2 * (r2s - qs) - qs, r, rs);
    AddCong(pr, (2 * (r2s - qs) - qs) * rs, n, ns, P);
    Scaled(-4, pr + n, (2 * (r2s - qs) - qs) * rs + ns);
  }

  /** The slope fraction that the branch-free addition settles on, and the fourth-degree term n that goes with it. */
  ghost predicate SlopeFraction(p: Point, q: Point, w: int, d: int, r: int, n: int, ds: int)
    requires p.Affine? && q.Affine?
  {
    && (Cong(d, 0, P) <==> Opposite(p, q))
    && (!Opposite(p, q) ==>
          && Cong(d, ds, P)
          && Cong(r, Times(Slope(p, q), Times(ds, w)), P)
          && Cong(n, Times(Times(Times(ds, ds), ds), Times(p.y + q.y, Times(Times(w, w), w))), P))
  }

  lemma SlopeFractionDef(p: Point, q: Point, w: int, d: int, r: int, n: int, ds: int)
    requires p.Affine? && q.Affine?
    ensures SlopeFraction(p, q, w, d, r, n, ds) <==>
      && (Cong(d, 0, P) <==> Opposite(p, q))
      && (!Opposite(p, q) ==>
            && Cong(d, ds, P)
            && Cong(r, Slope(p, q) * (ds * w), P)
            && Cong(n, (ds * ds * ds) * ((p.y + q.y) * (w * w * w)), P))
  {
    hide Cong, Times, Opposite, Slope;
    TimesIs(ds, w);
    TimesIs(Slope(p, q), ds * w);
    TimesIs(ds, ds);
    TimesIs(ds * ds, ds);
    TimesIs(w, w);
    TimesIs(w * w, w);
    TimesIs(p.y + q.y, w * w * w);
    TimesIs(ds * ds * ds, (p.y + q.y) * (w * w * w));
  }

  /** The products that the unified formula computes. */
  ghost predicate UnifiedWork(t: int, d: int, r: int, dd: int, qq: int, r2: int, f: int, pr: int) {
    && Cong(dd, Times(d, d), P) && Cong(qq, Times(dd, t), P) && Cong(r2, Times(r, r), P) && Cong(pr, Times(f, r), P)
  }

  lemma UnifiedWorkDef(t: int, d: int, r: int, dd: int, qq: int, r2: int, f: int, pr: int)
    ensures UnifiedWork(t, d, r, dd, qq, r2, f, pr) <==>
      Cong(dd, d * d, P) && Cong(qq, dd * t, P) && Cong(r2, r * r, P) && Cong(pr, f * r, P)
  {
    hide Cong, Times;
    TimesIs(d, d);
    TimesIs(dd, t);
    TimesIs(r, r);
    TimesIs(f, r);
  }

  /** The unified computation, with numerator r and denominator d of the slope, on two points that share the scale w. */
  lemma UnifiedStep(k: int, p: Point, q: Point, w: int, t: int, d: int, r: int, n: int, dd: int, qq: int, r2: int,
        pr: int, ds: int)
    requires Prime(P) && OnCurve(k, p) && OnCurve(k, q) && p.Affine? && q.Affine? && !Opposite(p, q)
    requires !Cong(w, 0, P) && SlopeFraction(p, q, w, d, r, n, ds)
    requires Cong(t, Times(p.x + q.x, Times(w, w)), P)
    requires UnifiedWork(t, d, r, dd, qq, r2, 2 * (r2 - qq) - qq, pr)
    ensures Represents(4 * (r2 - qq), 4 * (-(pr + n)), 2 * (d * w), Add(p, q))
  {
    TimesIs(w, w);
    TimesIs(p.x + q.x, w * w);
    SlopeFractionDef(p, q, w, d, r, n, ds);
    UnifiedWorkDef(t, d, r, dd, qq, r2, 2 * (r2 - qq) - qq, pr);
    hide SlopeFraction, UnifiedWork;
    var m := Slope(p, q);
    SlopeIsSlope(k, p, q);
    assert Add(p, q) == Third(m, p, q);
    hide Cong, Prime, Slope, Add, Third, OnCurve, IsSlope, Opposite, Times;
    UnitBelow(2, P);
    var e := ds * w;
    var x3 := m * m - p.x - q.x;
    var qs := (ds * ds) * ((p.x + q.x) * (w * w));
    UnifiedQ(t, d, dd, qq, (p.x + q.x) * (w * w), ds);
    UnifiedCong(r, n, qq, r2, pr, qs, m * e, (ds * ds * ds) * ((p.y + q.y) * (w * w * w)));
    UnifiedIdentity(p.x, p.y, q.x, q.y, w, m, ds, e, x3);
    SymmetricY(p, q, m, x3, e);
    var v := 2 * e;
    Trans(4 * (-(pr + n)), 4 * ((e * e * e) * (m * (p.x + q.x - 2 * x3) - (p.y + q.y))),
        (m * (p.x - x3) - p.y) * (v * v * v), P);
    Refl(w, P);
    MulCong(d, ds, w, w, P);
    Scaled(2, d * w, e);
    ScaleUnit(d, w);
    ScaleUnit(2, d * w);
    if Cong(v, 0, P) {
      Trans(2 * (d * w), v, 0, P);
    }
    RepresentsThird(4 * (r2 - qq), 4 * (-(pr + n)), 2 * (d * w), v, m, p, q);
  }

  /** A product with a unit is zero only when the other factor is. */
  lemma ZeroWhenScaled(d: int, a: int, s: int)
    requires Prime(P) && !Cong(s, 0, P) && Cong(d, a * s, P)
    ensures Cong(d, 0, P) <==> Cong(a, 0, P)
  {
    hide Cong, Prime;
    if Cong(a, 0, P) {
      Refl(s, P);
      MulCong(a, 0, s, s, P);
      Trans(d, a * s, 0, P);
    }
    if Cong(d, 0, P) {
      Sym(d, a * s, P);
      Trans(a * s, d, 0, P);
      Euclid(a, s, P);
    }
  }

  /** The numerator of the unified slope. */
  ghost function SumOfSquares(p: Point, q: Point): int
    requires p.Affine? && q.Affine?
  {
    Times(p.x, p.x) + Times(p.x, q.x) + Times(q.x, q.x)
  }

  lemma SumOfSquaresDef(p: Point, q: Point)
    requires p.Affine? && q.Affine?
    ensures SumOfSquares(p, q) == p.x * p.x + p.x * q.x + q.x * q.x
  {
    hide Times;
    TimesIs(p.x, p.x);
    TimesIs(p.x, q.x);
    TimesIs(q.x, q.x);
  }

  /** Points with opposite y-coordinates have x-coordinates with equal cubes. */
  lemma OppositeY(k: int, p: Point, q: Point)
    requires Prime(P) && OnCurve(k, p) && OnCurve(k, q) && p.Affine? && q.Affine? && Cong(p.y + q.y, 0, P)
    ensures p.x == q.x || Cong(SumOfSquares(p, q), 0, P)
  {
    OnCurveDef(k, p);
    OnCurveDef(k, q);
    SumOfSquaresDef(p, q);
    hide OnCurve, Times, Cong, Prime, SumOfSquares;
    SquaresAndCubes(p.x, p.y, q.x, q.y);
    CubesAgree(q.x - p.x, q.y - p.y, p.y + q.y, p.x * p.x + p.x * q.x + q.x * q.x,
               p.y * p.y, q.y * q.y, p.x * p.x * p.x + k, q.x * q.x * q.x + k);
    if Cong(q.x - p.x, 0, P) {
      SubCongZero(q.x, p.x);
      CongUnique(q.x, p.x, P);
    }
  }

  lemma CubesAgree(dx: int, dy: int, sy: int, t: int, a: int, b: int, c: int, d: int)
    requires Prime(P) && Cong(sy, 0, P) && Cong(a, c, P) && Cong(b, d, P)
    requires dy * sy == b - a && dx * t == d - c
    ensures Cong(dx, 0, P) || Cong(t, 0, P)
  {
    hide Prime, Cong;
    Scaled(dy, sy, 0);
    AddCong(b, d, a, c, P);
    Sym(b - a, d - c, P);
    Trans(d - c, b - a, 0, P);
    Euclid(dx, t, P);
  }

  /** The numerator of the unified slope, scaled. */
  lemma NumeratorScaled(p: Point, q: Point, w: int, u1: int, u2: int, tt: int, m: int)
    requires p.Affine? && q.Affine?
    requires Cong(u1, p.x * (w * w), P) && Cong(u2, q.x * (w * w), P)
    requires Cong(tt, (u1 + u2) * (u1 + u2), P) && Cong(m, u1 * (-u2), P)
    ensures Cong(tt + m, SumOfSquares(p, q) * ((w * w) * (w * w)), P)
  {
    hide Cong, SumOfSquares, Times;
    SumOfSquaresDef(p, q);
    var ww := w * w;
    NumeratorCong(u1, u2, tt, m, p.x * ww, q.x * ww);
    ThreeProducts(p.x, q.x, ww);
  }

  lemma NumeratorCong(u1: int, u2: int, tt: int, m: int, a: int, b: int)
    requires Cong(u1, a, P) && Cong(u2, b, P)
    requires Cong(tt, (u1 + u2) * (u1 + u2), P) && Cong(m, u1 * (-u2), P)
    ensures Cong(tt + m, a * a + a * b + b * b, P)
  {
    hide Cong;
    AddCong(u1, a, u2, b, P);
    MulTo(tt, u1 + u2, a + b, u1 + u2, a + b);
    Scaled(-1, u2, b);
    MulTo(m, u1, a, -u2, -b);
    AddCong(tt, (a + b) * (a + b), m, a * (-b), P);
    SquareLess(a, b);
  }

  lemma SquareLess(a: int, b: int)
    ensures (a + b) * (a + b) + a * (-b) == a * a + a * b + b * b
  {
  }

  lemma ThreeProducts(x1: int, x2: int, ww: int)
    ensures var a, b := x1 * ww, x2 * ww; a * a + a * b + b * b == (x1 * x1 + x1 * x2 + x2 * x2) * (ww * ww)
  {
    assert (x1 * ww) * (x1 * ww) == (x1 * x1) * (ww * ww);
    assert (x1 * ww) * (x2 * ww) == (x1 * x2) * (ww * ww);
    assert (x2 * ww) * (x2 * ww) == (x2 * x2) * (ww * ww);
  }

  /** Away from 0/0, the sum of the y-coordinates is zero only for opposite points; d and r scale sy and t. */
  lemma OrdinaryZero(sy: int, t: int, sameX: bool, w: int, d: int, r: int)
    requires Prime(P) && !Cong(w, 0, P)
    requires Cong(d, sy * (w * w * w), P) && Cong(r, t * ((w * w) * (w * w)), P)
    requires Cong(sy, 0, P) ==> sameX || Cong(t, 0, P)
    requires !Cong(d, 0, P) || !Cong(r, 0, P)
    ensures Cong(d, 0, P) <==> sameX && Cong(sy, 0, P)
  {
    hide Prime, Cong;
    ScaleUnit(w, w);
    ScaleUnit(w * w, w);
    ScaleUnit(w * w, w * w);
    ZeroWhenScaled(d, sy, w * w * w);
    ZeroWhenScaled(r, t, (w * w) * (w * w));
  }

  /** The ordinary fraction, with the sum of the y-coordinates below. */
  lemma OrdinaryFraction(k: int, p: Point, q: Point, w: int, s1: int, s2: int, r: int, dd: int, n: int)
    requires Prime(P) && OnCurve(k, p) && OnCurve(k, q) && p.Affine? && q.Affine? && !Cong(w, 0, P)
    requires Cong(s1, p.y * (w * w * w), P) && Cong(s2, q.y * (w * w * w), P)
    requires Cong(r, SumOfSquares(p, q) * ((w * w) * (w * w)), P)
    requires !Cong(s1 + s2, 0, P) || !Cong(r, 0, P)
    requires Cong(dd, (s1 + s2) * (s1 + s2), P) && Cong(n, dd * dd, P)
    ensures SlopeFraction(p, q, w, s1 + s2, r, n, (p.y + q.y) * (w * w * w))
  {
    var c := w * w * w;
    SlopeFractionDef(p, q, w, s1 + s2, r, n, (p.y + q.y) * c);
    hide SlopeFraction, Opposite, Prime, OnCurve, Slope, Cong, SumOfSquares, IsSlope, Times;
    AddCong(s1, p.y * c, s2, q.y * c, P);
    assert p.y * c + q.y * c == (p.y + q.y) * c;
    if Cong(p.y + q.y, 0, P) {
      OppositeY(k, p, q);
    }
    OppositeDef(p, q);
    OrdinaryZero(p.y + q.y, SumOfSquares(p, q), p.x == q.x, w, s1 + s2, r);
    FourthPower(n, dd, s1 + s2, (p.y + q.y) * c);
    if !Opposite(p, q) {
      SlopeIsSlope(k, p, q);
      OrdinarySlope(p, q, w, Slope(p, q), r);
    }
  }

  lemma FourthPower(n: int, dd: int, d: int, ds: int)
    requires Cong(d, ds, P) && Cong(dd, d * d, P) && Cong(n, dd * dd, P)
    ensures Cong(n, (ds * ds * ds) * ds, P)
  {
    hide Cong;
    MulTo(dd, d, ds, d, ds);
    MulTo(n, dd, ds * ds, dd, ds * ds);
    assert (ds * ds) * (ds * ds) == (ds * ds * ds) * ds;
  }

  lemma OrdinarySlope(p: Point, q: Point, w: int, m: int, r: int)
    requires p.Affine? && q.Affine? && IsSlope(m, p, q)
    requires Cong(r, SumOfSquares(p, q) * ((w * w) * (w * w)), P)
    ensures Cong(r, m * (((p.y + q.y) * (w * w * w)) * w), P)
  {
    IsSlopeDef(m, p, q);
    SumOfSquaresDef(p, q);
    hide IsSlope, Times, Cong, SumOfSquares;
    var c, sy := (w * w) * (w * w), p.y + q.y;
    Refl(c, P);
    MulCong(m * sy, SumOfSquares(p, q), c, c, P);
    FourthScale(m, sy, w);
    Sym((m * sy) * c, SumOfSquares(p, q) * c, P);
    Trans(r, SumOfSquares(p, q) * c, (m * sy) * c, P);
  }

  lemma FourthScale(m: int, sy: int, w: int)
    ensures m * ((sy * (w * w * w)) * w) == (m * sy) * ((w * w) * (w * w))
  {
    assert (sy * (w * w * w)) * w == sy * ((w * w) * (w * w));
  }

  lemma OppositeDef(p: Point, q: Point)
    requires p.Affine? && q.Affine?
    ensures Opposite(p, q) <==> p.x == q.x && Cong(p.y + q.y, 0, P)
  {
    hide Cong;
  }

  /** The alternate fraction where the ordinary one is 0/0: the difference of the x-coordinates below. */
  lemma DegenerateFraction(k: int, p: Point, q: Point, w: int, u1: int, u2: int, s1: int, s2: int)
    requires Prime(P) && OnCurve(k, p) && OnCurve(k, q) && p.Affine? && q.Affine? && !Cong(w, 0, P)
    requires Cong(u1, p.x * (w * w), P) && Cong(u2, q.x * (w * w), P)
    requires Cong(s1, p.y * (w * w * w), P) && Cong(s2, q.y * (w * w * w), P)
    requires Cong(s1 + s2, 0, P)
    ensures SlopeFraction(p, q, w, -u2 + u1, 2 * s1, s1 + s2, (p.x - q.x) * (w * w))
  {
    var c, sy := w * w * w, p.y + q.y;
    var ds := (p.x - q.x) * (w * w);
    SlopeFractionDef(p, q, w, -u2 + u1, 2 * s1, s1 + s2, ds);
    hide SlopeFraction, Opposite, Prime, Slope, Cong, IsSlope, Times;
    OppositeDef(p, q);
    ScaleUnit(w, w);
    ScaleUnit(w * w, w);
    AddCong(s1, p.y * c, s2, q.y * c, P);
    assert p.y * c + q.y * c == sy * c;
    ZeroWhenScaled(s1 + s2, sy, c);
    ScaledDifference(u2, u1, q.x, p.x, w * w);
    DifferenceZero(-u2 + u1, q.x, p.x, w * w);
    hide OnCurve;
    if !Opposite(p, q) {
      SlopeIsSlope(k, p, q);
      ScaledDifference(s1, s2, p.y, q.y, c);
      DegenerateSlope(p, q, w, Slope(p, q), s1, s2);
      MulTimesZero(s1 + s2, ds * ds * ds, sy, c);
    }
  }

  lemma MulTimesZero(n: int, a: int, sy: int, c: int)
    requires Cong(n, 0, P) && Cong(sy, 0, P)
    ensures Cong(n, a * (sy * c), P)
  {
    hide Cong;
    Refl(c, P);
    MulCong(sy, 0, c, c, P);
    Scaled(a, sy * c, 0);
    Sym(a * (sy * c), 0, P);
    Trans(n, 0, a * (sy * c), P);
  }

  lemma DegenerateSlope(p: Point, q: Point, w: int, m: int, s1: int, s2: int)
    requires p.Affine? && q.Affine? && IsSlope(m, p, q)
    requires Cong(s1 + s2, 0, P) && Cong(s2 - s1, (q.y - p.y) * (w * w * w), P)
    ensures Cong(2 * s1, m * (((p.x - q.x) * (w * w)) * w), P)
  {
    hide IsSlope, Times, Cong;
    IsSlopeDef(m, p, q);
    var c := w * w * w;
    Refl(c, P);
    MulCong(m * (q.x - p.x), q.y - p.y, c, c, P);
    SlopeProduct(m, q.x - p.x, w);
    assert -(q.x - p.x) == p.x - q.x;
    Sym((m * (q.x - p.x)) * c, (q.y - p.y) * c, P);
    Trans(s2 - s1, (q.y - p.y) * c, (m * (q.x - p.x)) * c, P);
    AddCong(s1 + s2, 0, s2 - s1, (m * (q.x - p.x)) * c, P);
  }
}
