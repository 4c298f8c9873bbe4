/** Recovering a curve point from its x-coordinate. */
module Lift {
  import opened Curve
  import opened FieldElement
  import opened Formulas
  import opened Group
  import opened Jacobian
  import opened Magnitudes
  import opened Modular
  import PowerChains

  /** The right-hand side of the curve equation. */
  ghost function Cubic(x: int): int {
    x * x * x + 7
  }

  /** `y` squares to the right-hand side at `x`. */
  ghost predicate Root(y: int, x: int) {
    Cong(Times(y, y), Times(Times(x, x), x) + 7, P)
  }

  lemma RootDef(y: int, x: int)
    ensures Root(y, x) <==> Cong(y * y, Cubic(x), P)
  {
    hide Cong, Times;
    TimesIs(y, y);
    TimesIs(x, x);
    TimesIs(x * x, x);
  }

  ghost predicate OnSomePoint(x: int) {
    exists y: int :: Root(y, x)
  }

  /** Sets both coordinates from x, when x is a coordinate of the curve; the y-coordinate is itself a square. */
  method SetXquad(x: Element) returns (r: Ge, ok: bool)
    requires Prime(P)
    ensures r.x == x && !r.infinity && Magnitude(r.y, 1)
    ensures ok <==> OnSomePoint(Val(x))
    ensures ok ==> Root(Val(r.y), Val(x))
    ensures exists t :: Cong(t * t, Val(r.y), P)
  {
    hide Prime, Cong, Cubic, Root, Val, Magnitude;
    var x2 := FeSqr(x);
    var x3 := FeMul(x, x2);
    var c := FeInt(7);
    c := FeAdd(c, x3, 1, 1);
    CubicCong(Val(x), Val(x2), Val(x3));
    var y;
    y, ok := PowerChains.Sqrt(c);
    r := Ge(x, y, false);
    if ok {
      Trans(Val(y) * Val(y), Val(c), Cubic(Val(x)), P);
      RootDef(Val(y), Val(x));
    }
    Sym(Val(c), Cubic(Val(x)), P);
    forall s | Root(s, Val(x))
      ensures ok
    {
      RootDef(s, Val(x));
      Trans(s * s, Cubic(Val(x)), Val(c), P);
    }
  }

  /** The root over x that is a square is the only such root. */
  lemma QuadUnique(x: int, y: int, z: int, t: int, u: int)
    requires Prime(P) && Root(y, x) && Root(z, x) && Cong(t * t, y, P) && Cong(u * u, z, P)
    ensures Cong(y, z, P)
  {
    RootDef(y, x);
    RootDef(z, x);
    hide Prime, Cong, Cubic, Root;
    Sym(z * z, Cubic(x), P);
    Trans(y * y, Cubic(x), z * z, P);
    PowerChains.SquareRootUnique(y, z, t, u);
  }

  lemma CubicCong(x: int, x2: int, x3: int)
    requires Cong(x2, x * x, P) && Cong(x3, x * x2, P)
    ensures Cong(7 + x3, Cubic(x), P)
  {
    hide Cong;
    Refl(x, P);
    Refl(7, P);
    MulTo(x3, x, x, x2, x * x);
    AddCong(7, 7, x3, x * (x * x), P);
    assert 7 + x * (x * x) == Cubic(x);
  }

  /** A root over x gives a point, with reduced coordinates a and b. */
  lemma RootPoint(x: int, y: int, a: int, b: int)
    requires Root(y, x) && 0 <= a < P && 0 <= b < P && Cong(a, x, P) && Cong(b, y, P)
    ensures E(Affine(a, b)) && Represents(x, y, 1, Affine(a, b))
  {
    RootDef(y, x);
    OnCurveDef(7, Affine(a, b));
    RepresentsDef(x, y, 1, Affine(a, b));
    hide Represents, Times;
    hide Cong, OnCurve;
    UnitBelow(1, P);
    ReducedOnCurve(7, x, y, a, b);
    Sym(a, x, P);
    Sym(b, y, P);
    assert a * (1 * 1) == a && b * (1 * 1 * 1) == b;
  }

  ghost predicate Parity(q: Point, odd: bool)
    requires q.Affine?
  {
    q.y == 0 || (q.y % 2 == 1 <==> odd)
  }

  /** Sets the point with the given x-coordinate and the given parity of its y-coordinate, when there is one. */
  method SetXoVar(x: Element, odd: bool) returns (r: Ge, ok: bool, ghost q: Point)
    requires Prime(P)
    ensures ok <==> OnSomePoint(Val(x))
    ensures ok ==> E(q) && q.Affine? && q.x == Val(x) % P && Parity(q, odd) && GeDenotes(r, 1, q) && !r.infinity
  {
    hide Cong, Prime, Rem, Root, OnCurve, OnSomePoint, Represents, Val, Magnitude;
    r, ok := SetXquad(x);
    q := Infinity;
    if !ok {
      return;
    }
    ghost var y0 := Val(r.y);
    var y := FeNormalizeVar(r.y);
    ghost var y1 := Val(y);
    CanonicalMagnitude(y);
    var isOdd := FeIsOdd(y);
    if isOdd != odd {
      y := FeNegate(y, 1);
    }
    r := r.(y := y);
    q := Affine(Rem(Val(x), P), Rem(Val(y), P));
    ModCong(y0, P);
    RemIsMod(Val(x), P);
    SameSquare(y1, y0, Val(x));
    FromMultiple(Val(y), if isOdd == odd then y1 else -y1, if isOdd == odd then 0 else 4, P);
    LiftedPoint(Val(x), y1, Val(y), odd);
  }

  /** The point over x whose y-coordinate is the root y1, or its negation when the parity asks for it. */
  lemma LiftedPoint(x: int, y1: int, y: int, odd: bool)
    requires Prime(P) && Root(y1, x) && 0 <= y1 < P
    requires Cong(y, if (y1 % 2 == 1) == odd then y1 else -y1, P)
    ensures var q := Affine(Rem(x, P), Rem(y, P)); E(q) && Parity(q, odd) && Represents(x, y, 1, q)
  {
    hide Cong, Prime, Rem, Root, OnCurve, Represents;
    var z := if (y1 % 2 == 1) == odd then y1 else -y1;
    RemSame(y, z, P);
    Refl(y1, P);
    SameSquare(y1, y1, x);
    SameSquare(y, z, x);
    FlippedParity(y1);
    RemCong(x, P);
    RemCong(y, P);
    RootPoint(x, y, Rem(x, P), Rem(y, P));
  }

  lemma SameSquare(r: int, y: int, x: int)
    requires Cong(r, y, P) && Root(y, x)
    ensures Root(r, x) && Root(-r, x)
  {
    RootDef(y, x);
    RootDef(r, x);
    RootDef(-r, x);
    hide Cong, Cubic, Root;
    MulCong(r, y, r, y, P);
    Trans(r * r, y * y, Cubic(x), P);
    assert -r * -r == r * r;
  }

  lemma FlippedParity(y: int)
    requires 0 <= y < P
    ensures Rem(y, P) == y
    ensures var f := Rem(-y, P); f == 0 || (f % 2 == 1 <==> y % 2 == 0)
  {
  }

  /** There is one point over each x-coordinate and parity. */
  lemma LiftUnique(p: Point, q: Point, odd: bool)
    requires Prime(P) && E(p) && E(q) && p.Affine? && q.Affine? && p.x == q.x
    requires p.y != 0 && q.y != 0 && Parity(p, odd) && Parity(q, odd)
    ensures p == q
  {
    SameX(7, p, q);
    hide Prime;
    if Opposite(p, q) {
      SumIsP(p.y, q.y);
    }
  }
}
