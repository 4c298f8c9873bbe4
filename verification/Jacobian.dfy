/** Points in Jacobian coordinates: doubling and the additions, updating a point in place. */
module Jacobian {
  import opened Curve
  import opened FieldElement
  import opened Formulas
  import opened Magnitudes
  import opened Modular
  import opened Unified

  /** An affine group element as the code holds it: representatives of the coordinates, and a flag. */
  datatype Ge = Ge(x: Element, y: Element, infinity: bool)

  /** The element denotes `q` once its coordinates are divided by the square and the cube of `w`. */
  ghost predicate GeDenotes(b: Ge, w: int, q: Point) {
    if b.infinity then q == Infinity else Represents(Val(b.x), Val(b.y), w, q)
  }

  /** The contents of a Jacobian group element, as tables hold them. */
  datatype Jac = Jac(x: Element, y: Element, z: Element, infinity: bool)

  /** The doubling formulas divide by twice the y-coordinate. */
  ghost predicate OrderTwo(p: Point) {
    p.Affine? && p.y == 0
  }

  /** A Jacobian group element. Its flag, not its z-coordinate, says whether it is infinity. */
  class Gej {
    var x: Element
    var y: Element
    var z: Element
    var infinity: bool

    constructor ()
      ensures infinity
    {
      x, y, z, infinity := FeInt(0), FeInt(0), FeInt(0), true;
    }

    /** The element denotes `q` once its z-coordinate is multiplied by `w`. */
    ghost predicate Denotes(w: int, q: Point)
      reads this
    {
      if infinity then q == Infinity else Represents(Val(x), Val(y), Val(z) * w, q)
    }

    /** The magnitudes that the formulas leave behind. */
    ghost predicate Computed()
      reads this
    {
      Magnitude(x, 6) && Magnitude(y, 4) && Magnitude(z, 2)
    }

    method Copy() returns (v: Jac)
      ensures v == Jac(x, y, z, infinity)
    {
      v := Jac(x, y, z, infinity);
    }

    method Assign(v: Jac)
      modifies this
      ensures v == Jac(x, y, z, infinity)
    {
      x, y, z, infinity := v.x, v.y, v.z, v.infinity;
    }

    method SetInfinity()
      modifies this
      ensures infinity
    {
      infinity := true;
      x, y, z := FeInt(0), FeInt(0), FeInt(0);
    }

    method SetGe(b: Ge, ghost w: int, ghost q: Point)
      requires GeDenotes(b, w, q)
      modifies this
      ensures Denotes(w, q) && infinity == b.infinity
    {
      infinity := b.infinity;
      x := b.x;
      y := b.y;
      z := FeInt(1);
    }

    /** this := 2 * a, where a may be this; wrong for a point of order two, which only other curves have. */
    method DoubleVar(a: Gej, ghost k: int, ghost w: int, ghost p: Point) returns (rzr: Element)
      requires Prime(P) && OnCurve(k, p) && a.Denotes(w, p)
      modifies this
      ensures Denotes(w, Add(p, p)) <==> !OrderTwo(p)
      ensures infinity == old(a.infinity)
      ensures !infinity ==> Computed() && Cong(Val(z), Val(old(a.z)) * Val(rzr), P)
    {
      hide Cong, Prime, Add, OnCurve, Represents, Val, Magnitude;
      SetGeKeeps(p, p);
      infinity := a.infinity;
      if infinity {
        rzr := FeInt(1);
        return;
      }
      FiniteRange(k, a, w, p);
      ghost var ay, az := Val(a.y), Val(a.z);
      rzr := FeNormalizeWeak(a.y);
      ghost var weak := Val(rzr);
      rzr := FeMulInt(rzr, 2, 1);
      ghost var zy := DoubleFinite(a, k, w, p);
      DoubledRatio(zy, az, ay, weak, Val(z), Val(rzr));
      if p.y == 0 {
        OrderTwoDoubles(p);
        InfinityNotFinite(Val(x), Val(y), Val(z) * w);
      }
    }

    /** The coordinates of the doubled point. */
    method DoubleFinite(a: Gej, ghost k: int, ghost w: int, ghost p: Point) returns (ghost zy: int)
      requires Prime(P) && OnCurve(k, p) && p.Affine? && Represents(Val(a.x), Val(a.y), Val(a.z) * w, p)
      modifies this`x, this`y, this`z
      ensures Computed() && Val(z) == 2 * zy && Cong(zy, old(Val(a.z)) * old(Val(a.y)), P)
      ensures p.y != 0 ==> Represents(Val(x), Val(y), Val(z) * w, Add(p, p))
    {
      hide Cong, Prime, Add, OnCurve, Represents, Val, Magnitude, Times, DoubleWork;
      ghost var ax, ay, az := Val(a.x), Val(a.y), Val(a.z);
      z := FeMul(a.z, a.y);
      zy := Val(z);
      z := FeMulInt(z, 2, 1);
      var t1 := FeSqr(a.x);
      ghost var xx := Val(t1);
      t1 := FeMulInt(t1, 3, 1);
      ghost var m := Val(t1);
      var t2 := FeSqr(t1);
      ghost var s2 := Val(t2);
      var t3 := FeSqr(a.y);
      ghost var yy := Val(t3);
      t3 := FeMulInt(t3, 2, 1);
      ghost var b := Val(t3);
      var t4 := FeSqr(t3);
      ghost var s4 := Val(t4);
      t4 := FeMulInt(t4, 2, 1);
      t3 := FeMul(t3, a.x);
      ghost var s3 := Val(t3);
      x := t3;
      x := FeMulInt(x, 4, 1);
      x := FeNegate(x, 4);
      x := FeAdd(x, t2, 5, 1);
      t2 := FeNegate(t2, 1);
      t3 := FeMulInt(t3, 6, 1);
      t3 := FeAdd(t3, t2, 6, 2);
      y := FeMul(t1, t3);
      ghost var t := Val(y);
      t2 := FeNegate(t4, 2);
      y := FeAdd(y, t2, 1, 3);
      if p.y != 0 {
        TimesIs(az, ay);
        DoubleWorkDef(ax, ay, xx, yy, m, b, s2, s4, s3, Val(t3), t);
        DoubledElement(k, p, w, ax, ay, az, zy, xx, m, yy, b, s2, s4, s3, Val(t3), t, Val(x), Val(y), Val(z));
      }
    }

    /** The tail that the three additions of distinct points share: the new x and y from the scaled coordinates. */
    method ChordTail(u1: Element, s1: Element, h: Element, i: Element, ghost u2: int, ghost s2: int,
        ghost k: int, ghost w: int, ghost p: Point, ghost q: Point)
      requires Prime(P) && OnCurve(k, p) && OnCurve(k, q) && p.Affine? && q.Affine? && p.x != q.x
      requires Magnitude(u1, 1) && Magnitude(s1, 1)
      requires Represents(Val(u1), Val(s1), w, p) && Represents(u2, s2, w, q)
      requires Val(h) == 4 * P - Val(u1) + u2 && Val(i) == 4 * P - Val(s1) + s2
      modifies this`x, this`y
      ensures Represents(Val(x), Val(y), w * Val(h), Add(p, q)) && Magnitude(x, 6) && Magnitude(y, 4)
    {
      hide ChordWork, Cong, Prime, Add, OnCurve, Represents, Val, Magnitude;
      var i2 := FeSqr(i);
      var h2 := FeSqr(h);
      var h3 := FeMul(h, h2);
      var t := FeMul(u1, h2);
      x := t;
      x := FeMulInt(x, 2, 1);
      x := FeAdd(x, h3, 2, 1);
      x := FeNegate(x, 3);
      x := FeAdd(x, i2, 4, 1);
      y := FeNegate(x, 5);
      y := FeAdd(y, t, 6, 1);
      ghost var d := Val(y);
      y := FeMul(y, i);
      ghost var y0, h30 := Val(y), Val(h3);
      h3 := FeMul(h3, s1);
      ghost var hs := Val(h3);
      h3 := FeNegate(h3, 1);
      y := FeAdd(y, h3, 1, 2);
      MagnitudeGrows(x, 5, 6);
      MagnitudeGrows(y, 3, 4);
      ChordWorkDef(Val(u1), Val(s1), Val(h), Val(i), Val(i2), Val(h2), h30, Val(t), d, y0, hs);
      ChordElement(k, p, q, w, Val(u1), u2, Val(s1), s2, Val(h), Val(i), Val(i2), Val(h2), h30, Val(t), d, y0, hs,
        Val(x), Val(y));
    }

    /** What the additions of points with one x-coordinate do. */
    method AddSameX(a: Gej, sameY: bool, ghost k: int, ghost w: int, ghost p: Point, ghost q: Point)
      returns (rzr: Element)
      requires Prime(P) && OnCurve(k, p) && OnCurve(k, q) && a.Denotes(w, p) && !a.infinity
      requires p.Affine? && q.Affine? && p.x == q.x && (sameY <==> p.y == q.y)
      modifies this
      ensures Denotes(w, Add(p, q)) <==> !(p == q && OrderTwo(p))
      ensures !infinity ==> Computed() && Cong(Val(z), Val(old(a.z)) * Val(rzr), P)
    {
      hide Cong, Prime, Add, OnCurve, Represents, Val, Magnitude;
      SameXOutcome(k, p, q);
      if sameY {
        rzr := DoubleVar(a, k, w, p);
      } else {
        rzr := FeInt(0);
        infinity := true;
      }
    }

    /** this := a + b for an affine b, where a may be this. Both may share a hidden denominator w. */
    method AddGeVar(a: Gej, b: Ge, ghost k: int, ghost w: int, ghost p: Point, ghost q: Point) returns (rzr: Element)
      requires Prime(P) && OnCurve(k, p) && OnCurve(k, q)
      requires a.Denotes(w, p) && GeDenotes(b, w, q)
      modifies this
      ensures Denotes(w, Add(p, q)) <==> !(p == q && OrderTwo(p))
      ensures !old(a.infinity) && !infinity ==> Cong(Val(z), Val(old(a.z)) * Val(rzr), P)
      ensures !old(a.infinity) && !b.infinity && !infinity ==> Computed()
    {
      hide Cong, Prime, Add, Represents, OnCurve, Val, Magnitude;
      rzr := FeInt(1);
      SetGeKeeps(p, q);
      if a.infinity {
        SetGe(b, w, q);
        return;
      }
      if b.infinity {
        x, y, z, infinity := a.x, a.y, a.z, a.infinity;
        TimesOne(Val(a.z));
        return;
      }
      FiniteRange(k, a, w, p);
      GeRange(k, b, w, q);
      ghost var az := Val(a.z);
      var z12 := FeSqr(a.z);
      var u1 := FeNormalizeWeak(a.x);
      var u2 := FeMul(b.x, z12);
      var s1 := FeNormalizeWeak(a.y);
      var s2 := FeMul(b.y, z12);
      ghost var s20 := Val(s2);
      s2 := FeMul(s2, a.z);
      CommonScale(Val(b.x), Val(b.y), az, w, q, Val(z12), Val(u2), s20, Val(s2));
      WeakParts(Val(a.x), Val(a.y), az * w, p, Val(u1), Val(s1));
      var h := FeNegate(u1, 1);
      h := FeAdd(h, u2, 2, 1);
      var i := FeNegate(s1, 1);
      i := FeAdd(i, s2, 2, 1);
      SameXOrNot(p, q, az * w, Val(u1), Val(u2), Val(s1), Val(s2), Val(h), Val(i));
      var sameX := FeNormalizesToZeroVar(h);
      if sameX {
        var sameY := FeNormalizesToZeroVar(i);
        rzr := AddSameX(a, sameY, k, w, p, q);
        return;
      }
      infinity := false;
      rzr := h;
      z := FeMul(a.z, h);
      MagnitudeGrows(z, 1, 2);
      ChordTail(u1, s1, h, i, Val(u2), Val(s2), k, az * w, p, q);
      ScaleOfProduct(Val(z), az, Val(h), w);
      RescaleRepresents(Val(x), Val(y), (az * w) * Val(h), Val(z) * w, Add(p, q));
    }

    /** this := a + b, where a and b may be this. */
    method AddVar(a: Gej, b: Gej, ghost k: int, ghost w: int, ghost p: Point, ghost q: Point) returns (rzr: Element)
      requires Prime(P) && OnCurve(k, p) && OnCurve(k, q)
      requires a.Denotes(w, p) && b.Denotes(w, q)
      modifies this
      ensures Denotes(w, Add(p, q)) <==> !(p == q && OrderTwo(p))
      ensures !old(a.infinity) && !infinity ==> Cong(Val(z), Val(old(a.z)) * Val(rzr), P)
      ensures !old(a.infinity) && !old(b.infinity) && !infinity ==> Computed()
    {
      hide Cong, Prime, OnCurve, Represents, Val, Magnitude;
      rzr := FeInt(1);
      if a.infinity {
        x, y, z, infinity := b.x, b.y, b.z, b.infinity;
        return;
      }
      if b.infinity {
        x, y, z, infinity := a.x, a.y, a.z, a.infinity;
        TimesOne(Val(a.z));
        return;
      }
      rzr := AddFinite(a, b, k, w, p, q);
    }

    /** The sum of two finite elements. */
    method AddFinite(a: Gej, b: Gej, ghost k: int, ghost w: int, ghost p: Point, ghost q: Point) returns (rzr: Element)
      requires Prime(P) && OnCurve(k, p) && OnCurve(k, q) && !a.infinity && !b.infinity
      requires a.Denotes(w, p) && b.Denotes(w, q)
      modifies this
      ensures Denotes(w, Add(p, q)) <==> !(p == q && OrderTwo(p))
      ensures !infinity ==> Computed() && Cong(Val(z), Val(old(a.z)) * Val(rzr), P)
    {
      hide Cong, Prime, Add, Represents, OnCurve, Val, Magnitude;
      FiniteRange(k, a, w, p);
      FiniteRange(k, b, w, q);
      ghost var az, bz := Val(a.z), Val(b.z);
      var z22 := FeSqr(b.z);
      var z12 := FeSqr(a.z);
      var u1 := FeMul(a.x, z22);
      var u2 := FeMul(b.x, z12);
      var s1 := FeMul(a.y, z22);
      ghost var s10 := Val(s1);
      s1 := FeMul(s1, b.z);
      var s2 := FeMul(b.y, z12);
      ghost var s20 := Val(s2);
      s2 := FeMul(s2, a.z);
      ghost var v := bz * (az * w);
      CrossScale(Val(a.x), Val(a.y), az, Val(b.x), Val(b.y), bz, w, p, q, Val(z22), Val(z12), Val(u1), Val(u2),
        s10, Val(s1), s20, Val(s2));
      var h := FeNegate(u1, 1);
      h := FeAdd(h, u2, 2, 1);
      var i := FeNegate(s1, 1);
      i := FeAdd(i, s2, 2, 1);
      SameXOrNot(p, q, v, Val(u1), Val(u2), Val(s1), Val(s2), Val(h), Val(i));
      var sameX := FeNormalizesToZeroVar(h);
      if sameX {
        var sameY := FeNormalizesToZeroVar(i);
        rzr := AddSameX(a, sameY, k, w, p, q);
        return;
      }
      infinity := false;
      rzr := FeMul(h, b.z);
      z := FeMul(a.z, rzr);
      MagnitudeGrows(z, 1, 2);
      ChordTail(u1, s1, h, i, Val(u2), Val(s2), k, v, p, q);
      ScaleOfProducts(Val(z), az, Val(rzr), Val(h), bz, w);
      RescaleRepresents(Val(x), Val(y), v * Val(h), Val(z) * w, Add(p, q));
    }

    /** this := a + b, where b is over the hidden denominator v, and bzinv is w / v. a may be this. */
    method AddZinvVar(a: Gej, b: Ge, bzinv: Element, ghost k: int, ghost w: int, ghost v: int, ghost p: Point,
          ghost q: Point)
      requires Prime(P) && OnCurve(k, p) && OnCurve(k, q)
      requires a.Denotes(w, p) && GeDenotes(b, v, q)
      requires !Cong(w, 0, P) && Cong(v * Val(bzinv), w, P)
      modifies this
      ensures Denotes(w, Add(p, q)) <==> !(p == q && OrderTwo(p))
      ensures !old(a.infinity) && !b.infinity && !infinity ==> Computed()
    {
      hide Cong, Prime, Add, Represents, OnCurve, Val, Magnitude;
      SetGeKeeps(p, q);
      if b.infinity {
        x, y, z, infinity := a.x, a.y, a.z, a.infinity;
        return;
      }
      if a.infinity {
        infinity := b.infinity;
        var bzinv2 := FeSqr(bzinv);
        var bzinv3 := FeMul(bzinv2, bzinv);
        x := FeMul(b.x, bzinv2);
        y := FeMul(b.y, bzinv3);
        z := FeInt(1);
        ScaleAffine(Val(b.x), Val(b.y), v, q, Val(bzinv), Val(bzinv2), Val(bzinv3), Val(x), Val(y), w);
        return;
      }
      FiniteRange(k, a, w, p);
      GeRange(k, b, v, q);
      ghost var az0 := Val(a.z);
      var az := FeMul(a.z, bzinv);
      var z12 := FeSqr(az);
      var u1 := FeNormalizeWeak(a.x);
      var u2 := FeMul(b.x, z12);
      var s1 := FeNormalizeWeak(a.y);
      var s2 := FeMul(b.y, z12);
      ghost var s20 := Val(s2);
      s2 := FeMul(s2, az);
      SharedScale(Val(b.x), Val(b.y), az0, Val(bzinv), Val(az), w, v, q, Val(z12), Val(u2), s20, Val(s2));
      WeakParts(Val(a.x), Val(a.y), az0 * w, p, Val(u1), Val(s1));
      var h := FeNegate(u1, 1);
      h := FeAdd(h, u2, 2, 1);
      var i := FeNegate(s1, 1);
      i := FeAdd(i, s2, 2, 1);
      SameXOrNot(p, q, az0 * w, Val(u1), Val(u2), Val(s1), Val(s2), Val(h), Val(i));
      var sameX := FeNormalizesToZeroVar(h);
      if sameX {
        var sameY := FeNormalizesToZeroVar(i);
        var _ := AddSameX(a, sameY, k, w, p, q);
        return;
      }
      infinity := false;
      z := FeMul(a.z, h);
      MagnitudeGrows(z, 1, 2);
      ChordTail(u1, s1, h, i, Val(u2), Val(s2), k, az0 * w, p, q);
      ScaleOfProduct(Val(z), az0, Val(h), w);
      RescaleRepresents(Val(x), Val(y), (az0 * w) * Val(h), Val(z) * w, Add(p, q));
    }

    /** The first half of the branch-free addition: the fraction of the slope, selected without a branch. */
    method SelectFraction(a: Gej, b: Ge, ghost k: int, ghost w: int, ghost p: Point, ghost q: Point)
      returns (t: Element, m: Element, rrAlt: Element, mAlt: Element, degenerate: bool,
               ghost u: Unsettled)
      requires OnCurve(k, p) && OnCurve(k, q)
      requires a.Denotes(w, p) && GeDenotes(b, w, q) && !b.infinity
      ensures Magnitude(t, 2) && Magnitude(m, 2) && Magnitude(mAlt, 3)
      ensures Selects(u, Val(t), Val(m), Val(mAlt), Val(rrAlt), degenerate)
      ensures !a.infinity ==> ScaledTo(u, p, q, Val(a.z) * w)
    {
      hide Cong, Add, Represents, OnCurve, Opposite, Val, Magnitude;
      GeRange(k, b, w, q);
      var zz := FeSqr(a.z);
      var u1 := FeNormalizeWeak(a.x);
      var u2 := FeMul(b.x, zz);
      var s1 := FeNormalizeWeak(a.y);
      var s2 := FeMul(b.y, zz);
      ghost var s20 := Val(s2);
      s2 := FeMul(s2, a.z);
      t := FeAdd(u1, u2, 1, 1);
      m := FeAdd(s1, s2, 1, 1);
      var rr := FeSqr(t);
      ghost var t2 := Val(rr);
      mAlt := FeNegate(u2, 1);
      var tt := FeMul(u1, mAlt);
      rr := FeAdd(rr, tt, 1, 1);
      var zeroM := FeNormalizesToZero(m);
      var zeroR := FeNormalizesToZero(rr);
      degenerate := zeroM && zeroR;
      rrAlt := FeMulInt(s1, 2, 1);
      mAlt := FeAdd(mAlt, u1, 2, 1);
      MagnitudeGrows(m, 2, 3);
      rrAlt := if !degenerate then rr else rrAlt;
      mAlt := if !degenerate then m else mAlt;
      u := Unsettled(Val(u1), Val(u2), Val(s1), Val(s2), t2, Val(tt));
      if !a.infinity {
        FiniteRange(k, a, w, p);
        CommonScale(Val(b.x), Val(b.y), Val(a.z), w, q, Val(zz), Val(u2), s20, Val(s2));
        WeakParts(Val(a.x), Val(a.y), Val(a.z) * w, p, Val(u1), Val(s1));
      }
    }

    /** The second half: the sum from the selected fraction, and whether its z-coordinate vanishes. */
    method UnifiedTail(az: Element, sum: Element, m: Element, rrAlt: Element, mAlt: Element, degenerate: bool,
        ghost u: Unsettled, ghost k: int, ghost w: int, ghost p: Point, ghost q: Point) returns (zeroZ: bool)
      requires Magnitude(sum, 2) && Magnitude(m, 2) && Magnitude(mAlt, 3)
      requires Selects(u, Val(sum), Val(m), Val(mAlt), Val(rrAlt), degenerate)
      modifies this`x, this`y, this`z
      ensures Computed()
      ensures UnifiedReady(u, k, p, q, Val(az) * w) ==> p.Affine? && q.Affine? && (zeroZ <==> Opposite(p, q))
      ensures UnifiedReady(u, k, p, q, Val(az) * w) && !zeroZ ==> Represents(Val(x), Val(y), Val(z) * w, Add(p, q))
    {
      hide Cong, Add, Represents, UnifiedReady, UnifiedWork, Times, Opposite, Val, Magnitude, Selects;
      var n := FeSqr(mAlt);
      ghost var dd := Val(n);
      var q' := FeMul(n, sum);
      ghost var q0 := Val(q');
      n := FeSqr(n);
      MagnitudeGrows(n, 1, 2);
      n := if degenerate then m else n;
      var t := FeSqr(rrAlt);
      ghost var r2 := Val(t);
      z := FeMul(az, mAlt);
      ghost var zm := Val(z);
      zeroZ := FeNormalizesToZero(z);
      z := FeMulInt(z, 2, 1);
      q' := FeNegate(q', 1);
      t := FeAdd(t, q', 1, 2);
      t := FeNormalizeWeak(t);
      x := t;
      ghost var x0 := Val(x);
      t := FeMulInt(t, 2, 1);
      t := FeAdd(t, q', 2, 2);
      ghost var f := Val(t);
      t := FeMul(t, rrAlt);
      ghost var pr := Val(t);
      t := FeAdd(t, n, 1, 2);
      y := FeNegate(t, 3);
      ghost var y0 := Val(y);
      y := FeNormalizeWeak(y);
      ghost var y1 := Val(y);
      x := FeMulInt(x, 4, 1);
      y := FeMulInt(y, 4, 1);
      MagnitudeGrows(x, 4, 6);
      if UnifiedReady(u, k, p, q, Val(az) * w) {
        UnifiedWorkDef(Val(sum), Val(mAlt), Val(rrAlt), dd, q0, r2, f, pr);
        TimesIs(Val(az), Val(mAlt));
        UnifiedElement(k, p, q, Val(az), w, u, Val(sum), Val(m), degenerate, Val(mAlt), Val(rrAlt), Val(n), dd, q0, r2,
          x0, f, pr, y0, y1, zm, Val(x), Val(y), Val(z));
      }
    }

    /** this := a + b without branching, for a finite affine b; complete on every curve y^2 = x^3 + k. a may be this. */
    method AddGe(a: Gej, b: Ge, ghost k: int, ghost w: int, ghost p: Point, ghost q: Point)
      requires Prime(P) && OnCurve(k, p) && OnCurve(k, q)
      requires a.Denotes(w, p) && GeDenotes(b, w, q) && !b.infinity
      modifies this
      ensures Denotes(w, Add(p, q))
      ensures !old(a.infinity) ==> Computed()
    {
      hide Cong, Prime, Add, Represents, OnCurve, Opposite, Val, Magnitude, Selects, ScaledTo;
      SetGeKeeps(p, q);
      GeRange(k, b, w, q);
      var t, m, rrAlt, mAlt, degenerate;
      ghost var u;
      t, m, rrAlt, mAlt, degenerate, u := SelectFraction(a, b, k, w, p, q);
      if !a.infinity {
        FiniteRange(k, a, w, p);
        OppositeSum(p, q);
      }
      var aInfinity := a.infinity;
      var zeroZ := UnifiedTail(a.z, t, m, rrAlt, mAlt, degenerate, u, k, w, p, q);
      x := if aInfinity then b.x else x;
      y := if aInfinity then b.y else y;
      z := if aInfinity then FeInt(1) else z;
      infinity := zeroZ && !aInfinity;
    }

    /** Negation; a may be this. */
    method Neg(a: Gej, ghost w: int, ghost p: Point)
      requires a.Denotes(w, p)
      modifies this
      ensures Denotes(w, Curve.Neg(p))
      ensures infinity == old(a.infinity) && z == old(a.z)
    {
      hide Cong, Represents, Val, Magnitude;
      infinity := a.infinity;
      x := a.x;
      y := a.y;
      z := a.z;
      ghost var y0 := Val(y);
      y := FeNormalizeWeak(y);
      ghost var y1 := Val(y);
      y := FeNegate(y, 1);
      if !infinity {
        NegElement(Val(x), y0, Val(z) * w, p, y1, Val(y));
      }
    }

    /** Multiplies the coordinates by powers of s, which leaves the denoted point alone. */
    method Rescale(s: Element, ghost w: int, ghost p: Point)
      requires Prime(P) && Denotes(w, p) && !Cong(Val(s), 0, P)
      modifies this
      ensures Denotes(w, p) && infinity == old(infinity)
      ensures Cong(Val(z), Val(old(z)) * Val(s), P)
    {
      hide Cong, Prime, Represents, Val, Magnitude;
      ghost var x0, y0, z0, c := Val(x), Val(y), Val(z), Val(s);
      var zz := FeSqr(s);
      x := FeMul(x, zz);
      y := FeMul(y, zz);
      ghost var y1 := Val(y);
      y := FeMul(y, s);
      z := FeMul(z, s);
      if !infinity {
        RepresentsParts(x0, y0, z0 * w, p);
        ScaleUnit(c, z0 * w);
        CommonScale(x0, y0, c, z0 * w, p, Val(zz), Val(x), y1, Val(y));
        ScaleOfProduct(Val(z), z0, c, w);
        assert (z0 * w) * c == c * (z0 * w);
        RescaleRepresents(Val(x), Val(y), c * (z0 * w), Val(z) * w, p);
      }
    }
  }

  /** Congruent coordinates over a congruent scale represent the same point. */
  lemma Recoordinate(x: int, y: int, w: int, x': int, y': int, v: int, q: Point)
    requires Represents(x, y, w, q) && Cong(x', x, P) && Cong(y', y, P) && Cong(v, w, P)
    ensures Represents(x', y', v, q)
  {
    RepresentsDef(x, y, w, q);
    RepresentsDef(x', y', w, q);
    hide Represents, Cong;
    Trans(x', x, q.x * (w * w), P);
    Trans(y', y, q.y * (w * w * w), P);
    RescaleRepresents(x', y', w, v, q);
  }

  lemma InfinityNotFinite(x: int, y: int, w: int)
    ensures !Represents(x, y, w, Infinity)
  {
  }

  lemma TimesOne(z: int)
    ensures Cong(z, z * 1, P)
  {
    assert z * 1 == z;
    Refl(z, P);
  }

  /** The recorded ratio of a doubling. */
  lemma DoubledRatio(zy: int, az: int, ay: int, weak: int, z: int, rzr: int)
    requires Cong(zy, az * ay, P) && Cong(weak, ay, P) && z == 2 * zy && rzr == 2 * weak
    ensures Cong(z, az * rzr, P)
  {
    hide Cong;
    Sym(weak, ay, P);
    Refl(az, P);
    MulTo(zy, az, az, ay, weak);
    Scaled(2, zy, az * weak);
    assert 2 * (az * weak) == az * (2 * weak);
  }

  /** The doubled point, from the limbs of its coordinates. */
  lemma DoubledElement(k: int, p: Point, w: int, ax: int, ay: int, az: int, zy: int, xx: int, m: int, yy: int, b: int,
                       s2: int, s4: int, s3: int, f: int, t: int, x: int, y: int, z: int)
    requires Prime(P) && OnCurve(k, p) && p.Affine? && p.y != 0 && Represents(ax, ay, az * w, p)
    requires Cong(zy, Times(az, ay), P) && DoubleWork(ax, ay, xx, yy, m, b, s2, s4, s3, f, t)
    requires f == 6 * s3 + (4 * P - s2)
    requires x == 10 * P - 4 * s3 + s2 && y == t + (6 * P - 2 * s4) && z == 2 * zy
    ensures Represents(x, y, z * w, Add(p, p))
  {
    hide Cong, Prime, Add, OnCurve, Represents;
    TimesIs(az, ay);
    DoubleWorkDef(ax, ay, xx, yy, m, b, s2, s4, s3, f, t);
    hide DoubleWork, Times;
    FromMultiple(f, 6 * s3 - s2, 4, P);
    Refl(3 * xx, P);
    MulTo(t, 3 * xx, 3 * xx, f, 6 * s3 - s2);
    DoubleWorkDef(ax, ay, xx, yy, 3 * xx, 2 * yy, s2, s4, s3, 6 * s3 - s2, t);
    DoubleStep(k, p, az * w, ax, ay, xx, yy, s2, s4, s3, t);
    FromMultiple(x, s2 - 4 * s3, 10, P);
    FromMultiple(y, t - 2 * s4, 6, P);
    DoubledScale(zy, az, ay, w);
    Recoordinate(s2 - 4 * s3, t - 2 * s4, 2 * (ay * (az * w)), x, y, (2 * zy) * w, Add(p, p));
  }

  /** The sum of points with different x-coordinates, from the limbs of its coordinates. */
  lemma ChordElement(k: int, p: Point, q: Point, w: int, u1: int, u2: int, s1: int, s2: int, h: int, i: int,
                     i2: int, h2: int, h3: int, t: int, d: int, y0: int, hs: int, x: int, y: int)
    requires Prime(P) && OnCurve(k, p) && OnCurve(k, q)
    requires Represents(u1, s1, w, p) && Represents(u2, s2, w, q) && p.x != q.x
    requires h == 4 * P - u1 + u2 && i == 4 * P - s1 + s2
    requires ChordWork(u1, s1, h, i, i2, h2, h3, t, d, y0, hs)
    requires x == 8 * P - (2 * t + h3) + i2 && d == 12 * P - x + t && y == y0 + (4 * P - hs)
    ensures Represents(x, y, w * h, Add(p, q))
  {
    hide Cong, Prime, Add, OnCurve, Represents, ChordWork;
    ChordWorkDef(u1, s1, h, i, i2, h2, h3, t, d, y0, hs);
    var h0, i0 := u2 - u1, s2 - s1;
    FromMultiple(h, h0, 4, P);
    FromMultiple(i, i0, 4, P);
    Refl(h2, P);
    MulTo(i2, i, i0, i, i0);
    MulTo(h2, h, h0, h, h0);
    MulTo(h3, h, h0, h2, h2);
    FromMultiple(d, t - (i2 - (2 * t + h3)), 4, P);
    MulTo(y0, d, t - (i2 - (2 * t + h3)), i, i0);
    ChordWorkDef(u1, s1, h0, i0, i2, h2, h3, t, t - (i2 - (2 * t + h3)), y0, hs);
    ChordStep(k, p, q, w, u1, u2, s1, s2, i2, h2, h3, t, y0, hs);
    FromMultiple(x, i2 - (2 * t + h3), 8, P);
    FromMultiple(y, y0 - hs, 4, P);
    Refl(w, P);
    MulCong(w, w, h, h0, P);
    Recoordinate(i2 - (2 * t + h3), y0 - hs, w * h0, x, y, w * h, Add(p, q));
  }

  /** Weak normalisation does not change what coordinates represent. */
  lemma WeakParts(x: int, y: int, w: int, q: Point, x': int, y': int)
    requires Represents(x, y, w, q) && Cong(x', x, P) && Cong(y', y, P)
    ensures Represents(x', y', w, q)
  {
    hide Cong, Represents;
    Refl(w, P);
    Recoordinate(x, y, w, x', y', w, q);
  }

  /** The numbers that the slope fraction is selected from: both scaled points, and the parts of the numerator. */
  datatype Unsettled = Unsettled(u1: int, u2: int, s1: int, s2: int, t2: int, tt: int)

  /** The sums t and m, and the fraction r / d, are selected from `u`. */
  ghost predicate Selects(u: Unsettled, t: int, m: int, d: int, r: int, degenerate: bool) {
    && t == u.u1 + u.u2 && m == u.s1 + u.s2
    && Cong(u.t2, (u.u1 + u.u2) * (u.u1 + u.u2), P) && Cong(u.tt, u.u1 * (4 * P - u.u2), P)
    && (degenerate <==> Cong(u.s1 + u.s2, 0, P) && Cong(u.t2 + u.tt, 0, P))
    && d == (if degenerate then (4 * P - u.u2) + u.u1 else u.s1 + u.s2)
    && r == (if degenerate then 2 * u.s1 else u.t2 + u.tt)
  }

  /** The scaled points are p and q at the scale w. */
  ghost predicate ScaledTo(u: Unsettled, p: Point, q: Point, w: int) {
    Represents(u.u1, u.s1, w, p) && Represents(u.u2, u.s2, w, q)
  }

  /** Two finite points of one curve, scaled. */
  ghost predicate UnifiedReady(u: Unsettled, k: int, p: Point, q: Point, w: int) {
    Prime(P) && OnCurve(k, p) && OnCurve(k, q) && ScaledTo(u, p, q, w)
  }

  /** The fraction that the conditional moves select, in limbs. */
  lemma SelectedFraction(k: int, p: Point, q: Point, w: int, u: Unsettled, t: int, m: int, degenerate: bool,
                         dd: int, d: int, r: int, n: int) returns (ds: int)
    requires Prime(P) && OnCurve(k, p) && OnCurve(k, q)
    requires ScaledTo(u, p, q, w) && Selects(u, t, m, d, r, degenerate) && Cong(dd, d * d, P)
    requires if degenerate then n == m else Cong(n, dd * dd, P)
    ensures p.Affine? && q.Affine? && SlopeFraction(p, q, w, d, r, n, ds)
  {
    hide Cong, Prime, OnCurve, SlopeFraction, Represents;
    var d0 := if degenerate then -u.u2 + u.u1 else u.s1 + u.s2;
    FromMultiple(4 * P - u.u2, -u.u2, 4, P);
    Refl(u.u1, P);
    MulTo(u.tt, u.u1, u.u1, 4 * P - u.u2, -u.u2);
    FromMultiple(d, d0, if degenerate then 4 else 0, P);
    MulTo(dd, d, d0, d, d0);
    ds := SettledFraction(k, p, q, w, u.u1, u.u2, u.s1, u.s2, u.t2, u.tt, dd, d0, r, n);
    SameFraction(p, q, w, d0, d, r, n, ds);
  }

  lemma SameFraction(p: Point, q: Point, w: int, d: int, d': int, r: int, n: int, ds: int)
    requires p.Affine? && q.Affine? && SlopeFraction(p, q, w, d, r, n, ds) && Cong(d', d, P)
    ensures SlopeFraction(p, q, w, d', r, n, ds)
  {
    hide Cong, Opposite, Slope, Times;
    Sym(d', d, P);
    if Cong(d, 0, P) {
      Trans(d', d, 0, P);
    }
    if Cong(d', 0, P) {
      Trans(d, d', 0, P);
    }
    if Cong(d, ds, P) {
      Trans(d', d, ds, P);
    }
  }

  /** The outcome of the branch-free addition, from the limbs of its coordinates. */
  lemma UnifiedElement(k: int, p: Point, q: Point, az: int, w: int, u: Unsettled, t: int, m: int, degenerate: bool,
                       d: int, r: int, n: int, dd: int, qq: int, r2: int, x0: int, f: int, pr: int, y0: int, y1: int,
                       zm: int, x: int, y: int, z: int)
    requires UnifiedReady(u, k, p, q, az * w) && Selects(u, t, m, d, r, degenerate)
    requires if degenerate then n == m else Cong(n, dd * dd, P)
    requires UnifiedWork(t, d, r, dd, qq, r2, f, pr)
    requires Cong(x0, r2 + (4 * P - qq), P) && f == 2 * x0 + (4 * P - qq)
    requires y0 == 8 * P - (pr + n) && Cong(y1, y0, P) && Cong(zm, Times(az, d), P)
    requires x == 4 * x0 && y == 4 * y1 && z == 2 * zm
    ensures p.Affine? && q.Affine? && (Cong(zm, 0, P) <==> Opposite(p, q))
    ensures !Opposite(p, q) ==> Represents(x, y, z * w, Add(p, q))
  {
    UnifiedWorkDef(t, d, r, dd, qq, r2, f, pr);
    TimesIs(az, d);
    hide Cong, Prime, OnCurve, SlopeFraction, Opposite, Represents, Add, UnifiedWork, Times;
    FromMultiple(r2 + (4 * P - qq), r2 - qq, 4, P);
    Trans(x0, r2 + (4 * P - qq), r2 - qq, P);
    Scaled(2, x0, r2 - qq);
    FromMultiple(4 * P - qq, -qq, 4, P);
    AddCong(2 * x0, 2 * (r2 - qq), 4 * P - qq, -qq, P);
    Refl(r, P);
    MulTo(pr, f, 2 * (r2 - qq) - qq, r, r);
    UnifiedWorkDef(t, d, r, dd, qq, r2, 2 * (r2 - qq) - qq, pr);
    var ds := SelectedFraction(k, p, q, az * w, u, t, m, degenerate, dd, d, r, n);
    UnifiedOutcome(k, p, q, az, w, u, t, d, r, n, dd, qq, r2, pr, ds, zm);
    if !Opposite(p, q) {
      FromMultiple(y0, -(pr + n), 8, P);
      Trans(y1, y0, -(pr + n), P);
      Scaled(4, x0, r2 - qq);
      Scaled(4, y1, -(pr + n));
      Refl((2 * zm) * w, P);
      Recoordinate(4 * (r2 - qq), 4 * (-(pr + n)), (2 * zm) * w, 4 * x0, 4 * y1, (2 * zm) * w, Add(p, q));
    }
  }

  lemma FiniteRange(k: int, a: Gej, w: int, p: Point)
    requires a.Denotes(w, p) && !a.infinity && OnCurve(k, p)
    ensures p.Affine? && 0 <= p.x < P && 0 <= p.y < P && !Cong(Val(a.z) * w, 0, P) &&
      Represents(Val(a.x), Val(a.y), Val(a.z) * w, p)
  {
    hide Cong;
  }

  /** Two points over one x-coordinate: the same, or a sum of infinity. */
  lemma SameXOutcome(k: int, p: Point, q: Point)
    requires Prime(P) && OnCurve(k, p) && OnCurve(k, q) && p.Affine? && q.Affine? && p.x == q.x
    ensures p.y == q.y ==> p == q
    ensures p.y != q.y ==> Add(p, q) == Infinity
  {
    SameX(k, p, q);
    hide Prime, OnCurve, Third, Slope;
  }

  lemma DoubledScale(zy: int, az: int, ay: int, w: int)
    requires Cong(zy, az * ay, P)
    ensures Cong((2 * zy) * w, 2 * (ay * (az * w)), P)
  {
    hide Cong;
    Refl(2 * w, P);
    MulCong(zy, az * ay, 2 * w, 2 * w, P);
    assert (2 * zy) * w == zy * (2 * w);
    assert 2 * (ay * (az * w)) == (az * ay) * (2 * w);
  }

  lemma RescaleRepresents(x: int, y: int, w: int, v: int, q: Point)
    requires Represents(x, y, w, q) && Cong(v, w, P)
    ensures Represents(x, y, v, q)
  {
    RepresentsDef(x, y, w, q);
    RepresentsDef(x, y, v, q);
    hide Represents;
    hide Cong;
    Sym(v, w, P);
    MulCong(w, v, w, v, P);
    MulCong(w * w, v * v, w, v, P);
    Refl(q.x, P);
    Refl(q.y, P);
    MulCong(q.x, q.x, w * w, v * v, P);
    MulCong(q.y, q.y, w * w * w, v * v * v, P);
    Trans(x, q.x * (w * w), q.x * (v * v), P);
    Trans(y, q.y * (w * w * w), q.y * (v * v * v), P);
    if Cong(v, 0, P) {
      Trans(w, v, 0, P);
    }
  }

  lemma SetGeKeeps(p: Point, q: Point)
    ensures p == Infinity ==> Add(p, q) == q
    ensures q == Infinity ==> Add(p, q) == p
  {
  }

  lemma OppositeSum(p: Point, q: Point)
    requires p.Affine? && q.Affine?
    ensures Opposite(p, q) ==> Add(p, q) == Infinity
  {
    hide Opposite, Slope, Third;
  }

  lemma RepresentsParts(x: int, y: int, w: int, q: Point)
    requires Represents(x, y, w, q)
    ensures q.Affine? && !Cong(w, 0, P) && Cong(x, q.x * (w * w), P) && Cong(y, q.y * (w * w * w), P)
  {
    RepresentsDef(x, y, w, q);
    hide Represents;
    hide Cong;
  }

  lemma GeRange(k: int, b: Ge, w: int, q: Point)
    requires GeDenotes(b, w, q) && !b.infinity && OnCurve(k, q)
    ensures q.Affine? && 0 <= q.x < P && 0 <= q.y < P && Represents(Val(b.x), Val(b.y), w, q)
  {
    hide Cong;
  }

  /** Scaling an affine element of denominator w by z gives the coordinates at scale z * w. */
  lemma CommonScale(bx: int, bY: int, z: int, w: int, q: Point, zz: int, u2: int, s20: int, s2: int)
    requires Represents(bx, bY, w, q)
    requires Cong(zz, z * z, P) && Cong(u2, bx * zz, P) && Cong(s20, bY * zz, P) && Cong(s2, s20 * z, P)
    requires !Cong(z * w, 0, P)
    ensures Represents(u2, s2, z * w, q)
  {
    RepresentsDef(bx, bY, w, q);
    RepresentsDef(u2, s2, z * w, q);
    hide Represents;
    hide Cong;
    Refl(z, P);
    MulTo(u2, bx, q.x * (w * w), zz, z * z);
    MulTo(s20, bY, q.y * (w * w * w), zz, z * z);
    MulTo(s2, s20, (q.y * (w * w * w)) * (z * z), z, z);
    ScaledSquare(q.x, z, w);
    ScaledCube(q.y, z, w);
  }

  lemma ScaledSquare(x: int, z: int, w: int)
    ensures (x * (w * w)) * (z * z) == x * ((z * w) * (z * w))
  {
    assert (w * w) * (z * z) == (z * w) * (z * w);
  }

  lemma ScaledCube(y: int, z: int, w: int)
    ensures ((y * (w * w * w)) * (z * z)) * z == y * ((z * w) * (z * w) * (z * w))
  {
    assert (w * w * w) * (z * z * z) == (z * w) * (z * w) * (z * w);
  }

  /** The two zero tests of the additions compare the coordinates. */
  lemma SameXOrNot(p: Point, q: Point, w: int, u1: int, u2: int, s1: int, s2: int, h: int, i: int)
    requires Prime(P) && p.Affine? && q.Affine? && Represents(u1, s1, w, p) && Represents(u2, s2, w, q)
    requires 0 <= p.x < P && 0 <= p.y < P && 0 <= q.x < P && 0 <= q.y < P
    requires h == 4 * P - u1 + u2 && i == 4 * P - s1 + s2
    ensures Cong(h, 0, P) <==> p.x == q.x
    ensures Cong(i, 0, P) <==> p.y == q.y
  {
    hide Cong, Prime, Represents;
    RepresentsParts(u1, s1, w, p);
    RepresentsParts(u2, s2, w, q);
    ScaleUnit(w, w);
    ScaleUnit(w * w, w);
    ScaledDifference(u1, u2, p.x, q.x, w * w);
    ScaledDifference(s1, s2, p.y, q.y, w * w * w);
    FromMultiple(h, u2 - u1, 4, P);
    FromMultiple(i, s2 - s1, 4, P);
    Trans(h, u2 - u1, (q.x - p.x) * (w * w), P);
    Trans(i, s2 - s1, (q.y - p.y) * (w * w * w), P);
    DifferenceZero(h, p.x, q.x, w * w);
    DifferenceZero(i, p.y, q.y, w * w * w);
  }

  lemma ScaleOfProduct(z: int, az: int, h: int, w: int)
    requires Cong(z, az * h, P)
    ensures Cong(z * w, (az * w) * h, P)
  {
    hide Cong;
    Refl(w, P);
    MulCong(z, az * h, w, w, P);
    assert (az * h) * w == (az * w) * h;
  }

  lemma ScaleOfProducts(z: int, az: int, hb: int, h: int, bz: int, w: int)
    requires Cong(hb, h * bz, P) && Cong(z, az * hb, P)
    ensures Cong(z * w, (bz * (az * w)) * h, P)
  {
    hide Cong;
    Refl(az, P);
    Refl(w, P);
    MulTo(z, az, az, hb, h * bz);
    MulCong(z, az * (h * bz), w, w, P);
    assert (az * (h * bz)) * w == (bz * (az * w)) * h;
  }

  /** Each of two elements, scaled by the other's z-coordinate, comes to the common scale. */
  lemma CrossScale(ax: int, ay: int, az: int, bx: int, bY: int, bz: int, w: int, p: Point, q: Point,
                   z22: int, z12: int, u1: int, u2: int, s10: int, s1: int, s20: int, s2: int)
    requires Prime(P) && Represents(ax, ay, az * w, p) && Represents(bx, bY, bz * w, q)
    requires Cong(z22, bz * bz, P) && Cong(z12, az * az, P)
    requires Cong(u1, ax * z22, P) && Cong(u2, bx * z12, P)
    requires Cong(s10, ay * z22, P) && Cong(s1, s10 * bz, P)
    requires Cong(s20, bY * z12, P) && Cong(s2, s20 * az, P)
    ensures var v := bz * (az * w); Represents(u1, s1, v, p) && Represents(u2, s2, v, q)
  {
    hide Represents, Cong, Prime;
    RepresentsParts(ax, ay, az * w, p);
    RepresentsParts(bx, bY, bz * w, q);
    assert az * (bz * w) == bz * (az * w);
    if Cong(bz, 0, P) {
      Refl(w, P);
      MulCong(bz, 0, w, w, P);
    }
    ScaleUnit(bz, az * w);
    CommonScale(ax, ay, bz, az * w, p, z22, u1, s10, s1);
    CommonScale(bx, bY, az, bz * w, q, z12, u2, s20, s2);
  }

  lemma SquareAndCube(a: int, b: int, c: int)
    requires Cong(a, b, P)
    ensures Cong(c * (a * a), c * (b * b), P) && Cong(c * (a * a * a), c * (b * b * b), P)
  {
    hide Cong;
    MulCong(a, b, a, b, P);
    MulCong(a * a, b * b, a, b, P);
    Scaled(c, a * a, b * b);
    Scaled(c, a * a * a, b * b * b);
  }

  /** An affine element over v, scaled by a z-coordinate and by w / v, comes to the scale of the other summand. */
  lemma SharedScale(bx: int, bY: int, az: int, bzinv: int, azv: int, w: int, v: int, q: Point, z12: int, u2: int,
        s20: int, s2: int)
    requires Represents(bx, bY, v, q)
    requires Cong(azv, az * bzinv, P) && Cong(v * bzinv, w, P)
    requires Cong(z12, azv * azv, P) && Cong(u2, bx * z12, P) && Cong(s20, bY * z12, P) && Cong(s2, s20 * azv, P)
    requires !Cong(az * w, 0, P)
    ensures Represents(u2, s2, az * w, q)
  {
    hide Cong, Represents;
    Refl(v, P);
    MulCong(azv, az * bzinv, v, v, P);
    Scaled(az, v * bzinv, w);
    assert (az * bzinv) * v == az * (v * bzinv);
    Trans(azv * v, az * (v * bzinv), az * w, P);
    Sym(azv * v, az * w, P);
    if Cong(azv * v, 0, P) {
      Trans(az * w, azv * v, 0, P);
    }
    CommonScale(bx, bY, azv, v, q, z12, u2, s20, s2);
    RescaleRepresents(u2, s2, azv * v, az * w, q);
  }

  /** Scaling coordinates over v by w / v gives coordinates over w. */
  lemma ScaleAffine(bx: int, bY: int, v: int, q: Point, zi: int, zi2: int, zi3: int, x: int, y: int, w: int)
    requires Represents(bx, bY, v, q) && !Cong(w, 0, P) && Cong(v * zi, w, P)
    requires Cong(zi2, zi * zi, P) && Cong(zi3, zi2 * zi, P) && Cong(x, bx * zi2, P) && Cong(y, bY * zi3, P)
    ensures Represents(x, y, w, q)
  {
    RepresentsDef(bx, bY, v, q);
    RepresentsDef(x, y, w, q);
    hide Represents;
    hide Cong;
    Refl(zi, P);
    MulTo(zi3, zi2, zi * zi, zi, zi);
    MulTo(x, bx, q.x * (v * v), zi2, zi * zi);
    MulTo(y, bY, q.y * (v * v * v), zi3, (zi * zi) * zi);
    var u := v * zi;
    assert (q.x * (v * v)) * (zi * zi) == q.x * (u * u);
    assert (q.y * (v * v * v)) * ((zi * zi) * zi) == q.y * (u * u * u) by {
      assert (v * v * v) * ((zi * zi) * zi) == u * u * u;
    }
    SquareAndCube(u, w, q.x);
    SquareAndCube(u, w, q.y);
    Trans(x, q.x * (u * u), q.x * (w * w), P);
    Trans(y, q.y * (u * u * u), q.y * (w * w * w), P);
  }

  /** The selected fraction is the slope in either case of the selection. */
  lemma SettledFraction(k: int, p: Point, q: Point, w: int, u1: int, u2: int, s1: int, s2: int,
                        t2: int, tt: int, dd: int, d: int, r: int, n: int) returns (ds: int)
    requires Prime(P) && OnCurve(k, p) && OnCurve(k, q)
    requires Represents(u1, s1, w, p) && Represents(u2, s2, w, q)
    requires Cong(t2, (u1 + u2) * (u1 + u2), P) && Cong(tt, u1 * (-u2), P) && Cong(dd, d * d, P)
    requires if Cong(s1 + s2, 0, P) && Cong(t2 + tt, 0, P)
             then d == -u2 + u1 && r == 2 * s1 && n == s1 + s2
             else d == s1 + s2 && r == t2 + tt && Cong(n, dd * dd, P)
    ensures p.Affine? && q.Affine? && SlopeFraction(p, q, w, d, r, n, ds)
  {
    hide Cong, Prime, OnCurve, SlopeFraction, SumOfSquares, Represents;
    RepresentsParts(u1, s1, w, p);
    RepresentsParts(u2, s2, w, q);
    if Cong(s1 + s2, 0, P) && Cong(t2 + tt, 0, P) {
      ds := (p.x - q.x) * (w * w);
      DegenerateFraction(k, p, q, w, u1, u2, s1, s2);
    } else {
      ds := (p.y + q.y) * (w * w * w);
      NumeratorScaled(p, q, w, u1, u2, t2, tt);
      OrdinaryFraction(k, p, q, w, s1, s2, r, dd, n);
    }
  }

  /** The outcome of the branch-free addition for two finite points, computed from the slope fraction r / d. */
  lemma UnifiedOutcome(k: int, p: Point, q: Point, az: int, w: int, u: Unsettled, t: int, d: int, r: int, n: int,
                       dd: int, qq: int, r2: int, pr: int, ds: int, zm: int)
    requires Prime(P) && OnCurve(k, p) && OnCurve(k, q) && p.Affine? && q.Affine?
    requires ScaledTo(u, p, q, az * w) && t == u.u1 + u.u2
    requires SlopeFraction(p, q, az * w, d, r, n, ds)
    requires UnifiedWork(t, d, r, dd, qq, r2, 2 * (r2 - qq) - qq, pr) && Cong(zm, Times(az, d), P)
    ensures Cong(zm, 0, P) <==> Opposite(p, q)
    ensures !Opposite(p, q) ==> Represents(4 * (r2 - qq), 4 * (-(pr + n)), (2 * zm) * w, Add(p, q))
  {
    FractionZero(p, q, az * w, d, r, n, ds);
    TimesIs(az, d);
    hide Cong, Prime, Opposite, OnCurve, Add, Slope, Represents, SlopeFraction, UnifiedWork, Times;
    RepresentsParts(u.u1, u.s1, az * w, p);
    RepresentsParts(u.u2, u.s2, az * w, q);
    if Cong(az, 0, P) {
      Refl(w, P);
      MulCong(az, 0, w, w, P);
    }
    assert az * d == d * az;
    ZeroWhenScaled(zm, d, az);
    if !Opposite(p, q) {
      SumScaled(u.u1, u.u2, p.x, q.x, az * w);
      UnifiedStep(k, p, q, az * w, t, d, r, n, dd, qq, r2, pr, ds);
      DoubledScale(zm, az, d, w);
      RescaleRepresents(4 * (r2 - qq), 4 * (-(pr + n)), 2 * (d * (az * w)), (2 * zm) * w, Add(p, q));
    }
  }

  lemma SumScaled(u1: int, u2: int, a: int, b: int, w: int)
    requires Cong(u1, a * (w * w), P) && Cong(u2, b * (w * w), P)
    ensures Cong(u1 + u2, Times(a + b, Times(w, w)), P)
  {
    hide Cong, Times;
    TimesIs(w, w);
    TimesIs(a + b, w * w);
    AddCong(u1, a * (w * w), u2, b * (w * w), P);
    assert a * (w * w) + b * (w * w) == (a + b) * (w * w);
  }

  lemma FractionZero(p: Point, q: Point, w: int, d: int, r: int, n: int, ds: int)
    requires p.Affine? && q.Affine? && SlopeFraction(p, q, w, d, r, n, ds)
    ensures Cong(d, 0, P) <==> Opposite(p, q)
  {
    hide Cong, Opposite, Slope, Times;
  }

  /** The negated y-coordinate, from its limbs. */
  lemma NegElement(x: int, y: int, w: int, q: Point, y1: int, y2: int)
    requires Represents(x, y, w, q) && Cong(y1, y, P) && y2 == 4 * P - y1
    ensures Represents(x, y2, w, Curve.Neg(q))
  {
    hide Cong, Represents;
    NegRepresents(x, y, w, q);
    Refl(x, P);
    Refl(0, P);
    Refl(w, P);
    AddCong(0, 0, y1, y, P);
    FromMultiple(y2, 0 - y1, 4, P);
    Trans(y2, 0 - y1, 0 - y, P);
    Recoordinate(x, -y, w, x, y2, w, Curve.Neg(q));
  }

  lemma NegRepresents(x: int, y: int, w: int, q: Point)
    requires Represents(x, y, w, q)
    ensures Represents(x, -y, w, Curve.Neg(q))
  {
    RepresentsDef(x, y, w, q);
    RepresentsDef(x, -y, w, Curve.Neg(q));
    hide Represents;
    var c := w * w * w;
    ModCong(P - q.y, P);
    hide Cong;
    FromMultiple(P - q.y, -q.y, 1, P);
    var ny := (P - q.y) % P;
    Trans(ny, P - q.y, -q.y, P);
    Sym(ny, -q.y, P);
    Scaled(-1, y, q.y * c);
    Refl(c, P);
    MulCong(-q.y, ny, c, c, P);
    assert -1 * (q.y * c) == (-q.y) * c;
    Trans(-y, (-q.y) * c, ny * c, P);
  }
}
