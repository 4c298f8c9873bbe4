/** What the sum of two points means without division: the line through them, and its third point. */
module ChordLaw {
  import opened Curve
  import opened Modular

  /** The third point of a line with slope m lies on it, and the three x-coordinates add up to m^2. */
  lemma ThirdOnLine(p: Point, q: Point, m: int)
    requires p.Affine? && q.Affine?
    ensures var r := Neg(Third(m, p, q));
      r.Affine? && Cong(r.y - p.y, m * (r.x - p.x), P) && Cong(p.x + q.x + r.x, m * m, P)
  {
    ThirdDef(m, p, q);
    hide Third, Cong, Rem;
    var x := m * m - p.x - q.x;
    var y := m * (p.x - x) - p.y;
    var r := Neg(Third(m, p, q));
    RemCong(x, P);
    RemCong(y, P);
    NegResidue(Rem(y, P));
    Refl(0, P);
    AddCong(0, 0, Rem(y, P), y, P);
    Trans(r.y, -Rem(y, P), -y, P);
    Refl(p.x + q.x, P);
    AddCong(p.x + q.x, p.x + q.x, r.x, x, P);
    OnTheLine(m, p.x, p.y, x, r.x, r.y);
  }

  lemma OnTheLine(m: int, px: int, py: int, x: int, rx: int, ry: int)
    requires Cong(rx, x, P) && Cong(ry, -(m * (px - x) - py), P)
    ensures Cong(ry - py, m * (rx - px), P)
  {
    hide Cong;
    Refl(py, P);
    Refl(px, P);
    Refl(m, P);
    AddCong(ry, -(m * (px - x) - py), py, py, P);
    AddCong(rx, x, px, px, P);
    MulCong(m, m, rx - px, x - px, P);
    assert -(m * (px - x) - py) - py == m * (x - px);
    Sym(m * (rx - px), m * (x - px), P);
    Trans(ry - py, m * (x - px), m * (rx - px), P);
  }

  /** Differences in the ratio m are proportional. */
  lemma Proportional(dx: int, dy: int, ex: int, ey: int, m: int)
    requires Cong(m * dx, dy, P) && Cong(ey, m * ex, P)
    ensures Cong(dy * ex, ey * dx, P)
  {
    hide Cong;
    Refl(ex, P);
    Refl(dx, P);
    MulCong(m * dx, dy, ex, ex, P);
    MulCong(ey, m * ex, dx, dx, P);
    assert (m * dx) * ex == (m * ex) * dx;
    Sym((m * dx) * ex, dy * ex, P);
    Sym(ey * dx, (m * ex) * dx, P);
    Trans(dy * ex, (m * ex) * dx, ey * dx, P);
  }

  lemma SumOfRoots(sum: int, m: int, dx: int, dy: int)
    requires Cong(sum, m * m, P) && Cong(m * dx, dy, P)
    ensures Cong(sum * (dx * dx), dy * dy, P)
  {
    hide Cong;
    Refl(dx * dx, P);
    MulCong(sum, m * m, dx * dx, dx * dx, P);
    MulCong(m * dx, dy, m * dx, dy, P);
    assert (m * m) * (dx * dx) == (m * dx) * (m * dx);
    Trans(sum * (dx * dx), (m * dx) * (m * dx), dy * dy, P);
  }

  /** p, q and the negated sum lie on one line, and are all of its intersections with the curve. */
  lemma ChordThird(k: int, p: Point, q: Point)
    requires Prime(P) && OnCurve(k, p) && OnCurve(k, q) && p.Affine? && q.Affine? && p.x != q.x
    ensures var r := Neg(Add(p, q));
      && r.Affine? && OnCurve(k, r)
      && Cong((q.y - p.y) * (r.x - p.x), (r.y - p.y) * (q.x - p.x), P)
      && Cong((p.x + q.x + r.x) * ((q.x - p.x) * (q.x - p.x)), (q.y - p.y) * (q.y - p.y), P)
  {
    var m, r := Slope(p, q), Neg(Add(p, q));
    assert Add(p, q) == Third(m, p, q);
    AddOnCurve(k, p, q);
    NegOnCurve(k, Add(p, q));
    assert !Opposite(p, q);
    hide *;
    SlopeIsSlope(k, p, q);
    IsSlopeDef(m, p, q);
    ThirdOnLine(p, q, m);
    SameField();
    Proportional(q.x - p.x, q.y - p.y, r.x - p.x, r.y - p.y, m);
    SumOfRoots(p.x + q.x + r.x, m, q.x - p.x, q.y - p.y);
  }

  /** The negated double lies on the tangent, which meets the curve nowhere else. */
  lemma TangentThird(k: int, p: Point)
    requires Prime(P) && OnCurve(k, p) && p.Affine? && p.y != 0
    ensures var r := Neg(Add(p, p));
      && r.Affine? && OnCurve(k, r)
      && Cong((3 * (p.x * p.x)) * (r.x - p.x), (r.y - p.y) * (2 * p.y), P)
      && Cong((p.x + p.x + r.x) * ((2 * p.y) * (2 * p.y)), (3 * (p.x * p.x)) * (3 * (p.x * p.x)), P)
  {
    var m, r := Slope(p, p), Neg(Add(p, p));
    NotOwnOpposite(k, p);
    assert Add(p, p) == Third(m, p, p);
    AddOnCurve(k, p, p);
    NegOnCurve(k, Add(p, p));
    hide *;
    SlopeIsSlope(k, p, p);
    IsSlopeDef(m, p, p);
    assert p.y + p.y == 2 * p.y && p.x * p.x + p.x * p.x + p.x * p.x == 3 * (p.x * p.x);
    ThirdOnLine(p, p, m);
    SameField();
    Proportional(2 * p.y, 3 * (p.x * p.x), r.x - p.x, r.y - p.y, m);
    SumOfRoots(p.x + p.x + r.x, m, 2 * p.y, 3 * (p.x * p.x));
  }

  lemma NotOwnOpposite(k: int, p: Point)
    requires OnCurve(k, p) && p.Affine? && p.y != 0
    ensures !Opposite(p, p)
  {
    if Opposite(p, p) {
      SumIsP(p.y, p.y);
    }
  }

  /** The sum is infinity exactly for a point and its negation. */
  lemma SumInfinite(k: int, p: Point, q: Point)
    requires OnCurve(k, p) && OnCurve(k, q)
    ensures Add(p, q) == Infinity <==> q == Neg(p)
  {
    hide Slope, Times, Rem, Cong;
    if p.Affine? {
      if q == Neg(p) {
        AddNeg(p);
      }
      if q.Affine? && Opposite(p, q) {
        CongZero(p.y + q.y, P);
        assert q.y == (P - p.y) % P;
      }
    }
  }
}
