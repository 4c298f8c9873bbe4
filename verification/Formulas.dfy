/** The Jacobian doubling and addition formulas, as facts about what their intermediate products represent. */
module Formulas {
  import opened Curve
  import opened Modular

  /** A product of representatives represents the product. */
  lemma MulTo(r: int, a: int, a': int, b: int, b': int)
    requires Cong(r, a * b, P) && Cong(a, a', P) && Cong(b, b', P)
    ensures Cong(r, a' * b', P)
  {
    hide Cong;
    MulCong(a, a', b, b', P);
    Trans(r, a * b, a' * b', P);
  }

  lemma Scaled(k: int, a: int, a': int)
    requires Cong(a, a', P)
    ensures Cong(k * a, k * a', P)
  {
    hide Cong;
    Refl(k, P);
    MulCong(k, k, a, a', P);
  }

  /** `x` and `y` are the coordinates of `q` scaled by the square and the cube of `w`. */
  ghost predicate Represents(x: int, y: int, w: int, q: Point) {
    q.Affine? && !Cong(w, 0, P) && Cong(x, Times(q.x, Times(w, w)), P) && Cong(y, Times(q.y, Times(Times(w, w), w)), P)
  }

  lemma RepresentsDef(x: int, y: int, w: int, q: Point)
    ensures Represents(x, y, w, q) <==>
      q.Affine? && !Cong(w, 0, P) && Cong(x, q.x * (w * w), P) && Cong(y, q.y * (w * w * w), P)
  {
    if q.Affine? {
      hide Cong, Times;
      TimesIs(w, w);
      TimesIs(w * w, w);
      TimesIs(q.x, w * w);
      TimesIs(q.y, w * w * w);
    }
  }

  /** Reduced coordinates and a congruent scale represent the same point. */
  lemma RepresentsThird(x: int, y: int, w: int, v: int, m: int, p: Point, q: Point)
    requires p.Affine? && q.Affine? && !Cong(v, 0, P) && Cong(w, v, P)
    requires var x3 := m * m - p.x - q.x;
      Cong(x, x3 * (v * v), P) && Cong(y, (m * (p.x - x3) - p.y) * (v * v * v), P)
    ensures Represents(x, y, w, Third(m, p, q))
  {
    hide Represents, Third, Times;
    ThirdDef(m, p, q);
    RepresentsDef(x, y, w, Third(m, p, q));
    hide Cong, Rem;
    var x3 := m * m - p.x - q.x;
    var y3 := m * (p.x - x3) - p.y;
    RemCong(x3, P);
    RemCong(y3, P);
    Sym(Rem(x3, P), x3, P);
    Sym(Rem(y3, P), y3, P);
    Sym(w, v, P);
    MulCong(v, w, v, w, P);
    MulCong(v * v, w * w, v, w, P);
    MulCong(x3, Rem(x3, P), v * v, w * w, P);
    MulCong(y3, Rem(y3, P), v * v * v, w * w * w, P);
    Trans(x, x3 * (v * v), Rem(x3, P) * (w * w), P);
    Trans(y, y3 * (v * v * v), Rem(y3, P) * (w * w * w), P);
    if Cong(w, 0, P) {
      Trans(v, w, 0, P);
    }
  }

  /** The products of the tangent formula, over the integers: v is the new scale. */
  lemma TangentProducts(x: int, y: int, w: int, sx: int, sy: int, v: int)
    requires sx == x * (w * w) && sy == y * (w * w * w) && v == 2 * (sy * w)
    ensures 4 * (sx * (sy * sy)) == x * (v * v)
    ensures 8 * ((sy * sy) * (sy * sy)) == y * (v * v * v)
  {
    var s := sy * sy;
    assert v * v == 4 * (s * (w * w));
    assert sx * s == x * (s * (w * w));
    assert v * v * v == (4 * (s * (w * w))) * (2 * (sy * w));
    assert (4 * (s * (w * w))) * (2 * (sy * w)) == 8 * (s * (sy * (w * w * w)));
    assert y * (s * (sy * (w * w * w))) == s * (sy * sy);
  }

  /** The tangent formula, over the integers, where t stands for m * v. */
  lemma TangentIdentity(x: int, y: int, m: int, v: int, t: int, xy2: int, y4: int, x3: int)
    requires t == m * v && 4 * xy2 == x * (v * v) && 8 * y4 == y * (v * v * v) && x3 == m * m - x - x
    ensures t * t - 8 * xy2 == x3 * (v * v)
    ensures t * (12 * xy2 - t * t) - 8 * y4 == (m * (x - x3) - y) * (v * v * v)
  {
    var vv := v * v;
    assert t * t == (m * m) * vv;
    assert 12 * xy2 - t * t == (x - x3) * vv;
    assert t * ((x - x3) * vv) == (m * (x - x3)) * (vv * v);
  }

  lemma ScaleUnit(a: int, b: int)
    requires Prime(P) && !Cong(a, 0, P) && !Cong(b, 0, P)
    ensures !Cong(a * b, 0, P)
  {
    hide Cong, Prime;
    if Cong(a * b, 0, P) {
      Euclid(a, b, P);
    }
  }

  /** A nonzero reduced coordinate, doubled and scaled, stays nonzero. */
  lemma TwiceScaledUnit(y: int, w: int, sy: int)
    requires Prime(P) && 0 < y < P && !Cong(w, 0, P) && Cong(sy, y * (w * w * w), P)
    ensures !Cong(2 * (sy * w), 0, P)
  {
    hide Cong, Prime;
    UnitBelow(y, P);
    UnitBelow(2, P);
    ScaleUnit(w, w);
    ScaleUnit(w * w, w);
    ScaleUnit(y, w * w * w);
    if Cong(sy, 0, P) {
      Sym(sy, y * (w * w * w), P);
      Trans(y * (w * w * w), sy, 0, P);
    }
    ScaleUnit(sy, w);
    ScaleUnit(2, sy * w);
  }

  /** What the doubling computation represents, in terms of what its inputs do. */
  lemma DoubleCong(ax: int, xx: int, yy: int, t2: int, t4: int, t3: int, t: int, tt: int, sx: int, ss: int)
    requires Cong(ax, sx, P) && Cong(3 * xx, tt, P) && Cong(yy, ss, P)
    requires Cong(t2, (3 * xx) * (3 * xx), P) && Cong(t4, (2 * yy) * (2 * yy), P) && Cong(t3, (2 * yy) * ax, P)
    requires Cong(t, (3 * xx) * (6 * t3 - t2), P)
    ensures Cong(t2 - 4 * t3, tt * tt - 8 * (sx * ss), P)
    ensures Cong(t - 2 * t4, tt * (12 * (sx * ss) - tt * tt) - 8 * (ss * ss), P)
  {
    hide Cong;
    MulTo(t2, 3 * xx, tt, 3 * xx, tt);
    Scaled(2, yy, ss);
    MulTo(t4, 2 * yy, 2 * ss, 2 * yy, 2 * ss);
    MulTo(t3, 2 * yy, 2 * ss, ax, sx);
    var s4, xs, sq := ss * ss, sx * ss, tt * tt;
    assert (2 * ss) * (2 * ss) == 4 * s4 && (2 * ss) * sx == 2 * xs;
    Scaled(2, t4, 4 * s4);
    Scaled(4, t3, 2 * xs);
    Scaled(6, t3, 2 * xs);
    AddCong(t2, sq, 4 * t3, 8 * xs, P);
    AddCong(6 * t3, 12 * xs, t2, sq, P);
    MulTo(t, 3 * xx, tt, 6 * t3 - t2, 12 * xs - sq);
    AddCong(t, tt * (12 * xs - sq), 2 * t4, 8 * s4, P);
  }

  /** The products that the doubling computes: m and b are three and two times a square. */
  ghost predicate DoubleWork(ax: int, ay: int, xx: int, yy: int, m: int, b: int, t2: int, t4: int, t3: int, f: int,
      t: int) {
    && Cong(xx, Times(ax, ax), P) && Cong(yy, Times(ay, ay), P) && m == 3 * xx && b == 2 * yy
    && Cong(t2, Times(m, m), P) && Cong(t4, Times(b, b), P) && Cong(t3, Times(b, ax), P) && Cong(t, Times(m, f), P)
  }

  lemma DoubleWorkDef(ax: int, ay: int, xx: int, yy: int, m: int, b: int, t2: int, t4: int, t3: int, f: int, t: int)
    ensures DoubleWork(ax, ay, xx, yy, m, b, t2, t4, t3, f, t) <==>
      && Cong(xx, ax * ax, P) && Cong(yy, ay * ay, P) && m == 3 * xx && b == 2 * yy
      && Cong(t2, m * m, P) && Cong(t4, b * b, P) && Cong(t3, b * ax, P) && Cong(t, m * f, P)
  {
    hide Times, Cong;
    TimesIs(ax, ax);
    TimesIs(ay, ay);
    TimesIs(m, m);
    TimesIs(b, b);
    TimesIs(b, ax);
    TimesIs(m, f);
  }

  /** The doubling computation, from its intermediate products, on a point of scale w. */
  lemma DoubleStep(k: int, p: Point, w: int, ax: int, ay: int, xx: int, yy: int, t2: int, t4: int, t3: int, t: int)
    requires Prime(P) && OnCurve(k, p) && p.Affine? && p.y != 0
    requires Represents(ax, ay, w, p)
    requires DoubleWork(ax, ay, xx, yy, 3 * xx, 2 * yy, t2, t4, t3, 6 * t3 - t2, t)
    ensures Represents(t2 - 4 * t3, t - 2 * t4, 2 * (ay * w), Add(p, p))
  {
    RepresentsDef(ax, ay, w, p);
    DoubleWorkDef(ax, ay, xx, yy, 3 * xx, 2 * yy, t2, t4, t3, 6 * t3 - t2, t);
    hide Represents, IsSlope, Times, DoubleWork;
    var m := Slope(p, p);
    TwiceUnitNotOpposite(p);
    SlopeIsSlope(k, p, p);
    var sx, sy := p.x * (w * w), p.y * (w * w * w);
    var v := 2 * (sy * w);
    TwiceScaledUnit(p.y, w, sy) by { Refl(sy, P); }
    hide Cong, Prime, Slope, Add, Third, OnCurve;
    TangentProducts(p.x, p.y, w, sx, sy, v);
    TangentIdentity(p.x, p.y, m, v, m * v, sx * (sy * sy), (sy * sy) * (sy * sy), m * m - p.x - p.x);
    TangentSlope(p, w, m, v, ax, xx);
    MulTo(yy, ay, sy, ay, sy);
    DoubleCong(ax, xx, yy, t2, t4, t3, t, m * v, sx, sy * sy);
    Refl(w, P);
    MulCong(ay, sy, w, w, P);
    Scaled(2, ay * w, sy * w);
    RepresentsThird(t2 - 4 * t3, t - 2 * t4, 2 * (ay * w), v, m, p, p);
  }

  lemma TwiceUnitNotOpposite(p: Point)
    requires p.Affine? && 0 < p.y < P
    ensures !Opposite(p, p) && Add(p, p) == Third(Slope(p, p), p, p)
  {
    hide Cong, Slope, Third;
    if Cong(p.y + p.y, 0, P) {
      SumIsP(p.y, p.y);
    }
  }

  lemma TangentScale(x: int, y: int, w: int, m: int)
    ensures 3 * ((x * (w * w)) * (x * (w * w))) == (x * x + x * x + x * x) * ((w * w) * (w * w))
    ensures m * (2 * ((y * (w * w * w)) * w)) == (m * (y + y)) * ((w * w) * (w * w))
  {
    assert (x * (w * w)) * (x * (w * w)) == (x * x) * ((w * w) * (w * w));
    assert (y * (w * w * w)) * w == y * ((w * w) * (w * w));
  }

  /** Three times the squared x-coordinate is the slope times the new scale. */
  lemma TangentSlope(p: Point, w: int, m: int, v: int, ax: int, xx: int)
    requires p.Affine? && IsSlope(m, p, p)
    requires v == 2 * ((p.y * (w * w * w)) * w)
    requires Cong(ax, p.x * (w * w), P) && Cong(xx, ax * ax, P)
    ensures Cong(3 * xx, m * v, P)
  {
    hide IsSlope, Times, Cong;
    IsSlopeDef(m, p, p);
    var sx, w4 := p.x * (w * w), (w * w) * (w * w);
    MulTo(xx, ax, sx, ax, sx);
    Scaled(3, xx, sx * sx);
    var s := p.x * p.x + p.x * p.x + p.x * p.x;
    Refl(w4, P);
    MulCong(m * (p.y + p.y), s, w4, w4, P);
    TangentScale(p.x, p.y, w, m);
    Sym(m * v, s * w4, P);
    Trans(3 * xx, s * w4, m * v, P);
  }

  /** The products of the chord formula, over the integers: h and v are the scaled difference and the new scale. */
  lemma ChordProducts(x1: int, y1: int, d: int, w: int, h: int, v: int)
    requires h == d * (w * w) && v == w * h
    ensures (x1 * (w * w)) * (h * h) == x1 * (v * v)
    ensures h * (h * h) == d * (v * v)
    ensures (h * (h * h)) * (y1 * (w * w * w)) == y1 * (v * v * v)
  {
    var ww, hh := w * w, h * h;
    assert v * v == ww * hh;
    assert h * hh == d * (ww * hh);
    assert (h * hh) * (w * w * w) == (v * v) * v;
    assert (h * hh) * (y1 * (w * w * w)) == y1 * ((h * hh) * (w * w * w));
  }

  lemma ChordIdentity(x1: int, y1: int, x2: int, m: int, v: int, a: int, b: int, c: int, x3: int)
    requires a == x1 * (v * v) && b == (x2 - x1) * (v * v) && c == y1 * (v * v * v)
    requires x3 == m * m - x1 - x2
    ensures (m * v) * (m * v) - (2 * a + b) == x3 * (v * v)
    ensures (a - x3 * (v * v)) * (m * v) - c == (m * (x1 - x3) - y1) * (v * v * v)
  {
    var vv := v * v;
    assert (m * v) * (m * v) == (m * m) * vv;
    assert (x1 * vv - x3 * vv) * (m * v) == (m * (x1 - x3)) * (vv * v);
  }

  /** What the common part of the additions represents, in terms of what its inputs do. */
  lemma ChordCong(u1: int, s1: int, h: int, i: int, i2: int, h2: int, h3: int, t: int, y0: int, hs: int,
                  u: int, s: int, hh: int, ii: int)
    requires Cong(u1, u, P) && Cong(s1, s, P) && Cong(h, hh, P) && Cong(i, ii, P)
    requires Cong(i2, i * i, P) && Cong(h2, h * h, P) && Cong(h3, h * h2, P) && Cong(t, u1 * h2, P)
    requires Cong(y0, (t - (i2 - (2 * t + h3))) * i, P) && Cong(hs, h3 * s1, P)
    ensures var x := ii * ii - (2 * (u * (hh * hh)) + hh * (hh * hh));
      Cong(i2 - (2 * t + h3), x, P) && Cong(y0 - hs, (u * (hh * hh) - x) * ii - (hh * (hh * hh)) * s, P)
  {
    hide Cong;
    MulTo(i2, i, ii, i, ii);
    MulTo(h2, h, hh, h, hh);
    var q := hh * hh;
    MulTo(h3, h, hh, h2, q);
    MulTo(t, u1, u, h2, q);
    var a, b, c := u * q, hh * q, ii * ii;
    Scaled(2, t, a);
    AddCong(2 * t, 2 * a, h3, b, P);
    AddCong(i2, c, 2 * t + h3, 2 * a + b, P);
    var x := c - (2 * a + b);
    AddCong(t, a, i2 - (2 * t + h3), x, P);
    MulTo(y0, t - (i2 - (2 * t + h3)), a - x, i, ii);
    MulTo(hs, h3, b, s1, s);
    AddCong(y0, (a - x) * ii, hs, b * s, P);
  }

  lemma ScaledDifference(u1: int, u2: int, a: int, b: int, s: int)
    requires Cong(u1, a * s, P) && Cong(u2, b * s, P)
    ensures Cong(u2 - u1, (b - a) * s, P)
  {
    hide Cong;
    AddCong(u2, b * s, u1, a * s, P);
    assert (b - a) * s == b * s - a * s;
  }

  /** A scaled difference of reduced coordinates is zero exactly when they are equal. */
  lemma DifferenceZero(d: int, a: int, b: int, s: int)
    requires Prime(P) && 0 <= a < P && 0 <= b < P && !Cong(s, 0, P) && Cong(d, (b - a) * s, P)
    ensures Cong(d, 0, P) <==> a == b
  {
    hide Cong, Prime;
    Refl(0, P);
    if a == b {
      assert (b - a) * s == 0;
    } else if Cong(d, 0, P) {
      Sym(d, (b - a) * s, P);
      Trans((b - a) * s, d, 0, P);
      Euclid(b - a, s, P);
      SubCongZero(b, a);
      CongUnique(b, a, P);
    }
  }

  lemma SlopeProduct(m: int, d: int, w: int)
    ensures m * (w * (d * (w * w))) == (m * d) * (w * w * w)
    ensures m * (((-d) * (w * w)) * w) == -((m * d) * (w * w * w))
  {
    assert w * (d * (w * w)) == d * (w * w * w);
    assert ((-d) * (w * w)) * w == -(d * (w * w * w));
  }

  /** The scaled slope: with i the scaled difference of the y-coordinates, i is m times the new scale. */
  lemma ChordSlope(p: Point, q: Point, m: int, w: int, h: int, i: int)
    requires p.Affine? && q.Affine? && IsSlope(m, p, q)
    requires h == (q.x - p.x) * (w * w)
    requires Cong(i, (q.y - p.y) * (w * w * w), P)
    ensures Cong(i, m * (w * h), P)
  {
    hide IsSlope, Times, Cong;
    IsSlopeDef(m, p, q);
    var c := w * w * w;
    Refl(c, P);
    MulCong(m * (q.x - p.x), q.y - p.y, c, c, P);
    SlopeProduct(m, q.x - p.x, w);
    Sym(m * (w * h), (q.y - p.y) * c, P);
    Trans(i, (q.y - p.y) * c, m * (w * h), P);
  }

  /** The products that the additions of points with different x-coordinates compute. */
  ghost predicate ChordWork(u1: int, s1: int, h: int, i: int, i2: int, h2: int, h3: int, t: int, d: int, y0: int,
      hs: int) {
    && Cong(i2, Times(i, i), P) && Cong(h2, Times(h, h), P) && Cong(h3, Times(h, h2), P) && Cong(t, Times(u1, h2), P)
    && Cong(y0, Times(d, i), P) && Cong(hs, Times(h3, s1), P)
  }

  lemma ChordWorkDef(u1: int, s1: int, h: int, i: int, i2: int, h2: int, h3: int, t: int, d: int, y0: int, hs: int)
    ensures ChordWork(u1, s1, h, i, i2, h2, h3, t, d, y0, hs) <==>
      && Cong(i2, i * i, P) && Cong(h2, h * h, P) && Cong(h3, h * h2, P) && Cong(t, u1 * h2, P)
      && Cong(y0, d * i, P) && Cong(hs, h3 * s1, P)
  {
    hide Times, Cong;
    TimesIs(i, i);
    TimesIs(h, h);
    TimesIs(h, h2);
    TimesIs(u1, h2);
    TimesIs(d, i);
    TimesIs(h3, s1);
  }

  /** The common part of the additions, on points with different x-coordinates that share the scale w. */
  lemma ChordStep(k: int, p: Point, q: Point, w: int, u1: int, u2: int, s1: int, s2: int,
                  i2: int, h2: int, h3: int, t: int, y0: int, hs: int)
    requires Prime(P) && OnCurve(k, p) && OnCurve(k, q)
    requires Represents(u1, s1, w, p) && Represents(u2, s2, w, q) && p.x != q.x
    requires ChordWork(u1, s1, u2 - u1, s2 - s1, i2, h2, h3, t, t - (i2 - (2 * t + h3)), y0, hs)
    ensures Represents(i2 - (2 * t + h3), y0 - hs, w * (u2 - u1), Add(p, q))
  {
    RepresentsDef(u1, s1, w, p);
    RepresentsDef(u2, s2, w, q);
    ChordWorkDef(u1, s1, u2 - u1, s2 - s1, i2, h2, h3, t, t - (i2 - (2 * t + h3)), y0, hs);
    hide Represents, Times, ChordWork;
    var m := Slope(p, q);
    SlopeIsSlope(k, p, q);
    assert Add(p, q) == Third(m, p, q);
    DistinctX(p, q, k);
    hide Cong, Prime, Slope, Add, Third, OnCurve, IsSlope;
    var h := (q.x - p.x) * (w * w);
    var v := w * h;
    ScaledDifference(u1, u2, p.x, q.x, w * w);
    ScaledDifference(s1, s2, p.y, q.y, w * w * w);
    ChordSlope(p, q, m, w, h, s2 - s1);
    ChordCong(u1, s1, u2 - u1, s2 - s1, i2, h2, h3, t, y0, hs, p.x * (w * w), p.y * (w * w * w), h, m * v);
    ChordProducts(p.x, p.y, q.x - p.x, w, h, v);
    ChordIdentity(p.x, p.y, q.x, m, v, (p.x * (w * w)) * (h * h), h * (h * h), (h * (h * h)) * (p.y * (w * w * w)),
          m * m - p.x - q.x);
    Refl(w, P);
    MulCong(w, w, u2 - u1, h, P);
    ScaleUnit(w, w);
    ScaleUnit(q.x - p.x, w * w);
    ScaleUnit(w, h);
    RepresentsThird(i2 - (2 * t + h3), y0 - hs, w * (u2 - u1), v, m, p, q);
  }
}
