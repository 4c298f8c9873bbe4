/** Affine conversions, one at a time and in batches, and the tables of odd multiples. */
module Tables {
  import opened Curve
  import opened FieldElement
  import opened Formulas
  import opened Group
  import opened Inversion
  import opened Jacobian
  import opened Magnitudes
  import opened Modular

  /** The contents denote `q` once the z-coordinate is multiplied by `w`. */
  ghost predicate JacDenotes(a: Jac, w: int, q: Point) {
    if a.infinity then q == Infinity else Represents(Val(a.x), Val(a.y), Val(a.z) * w, q)
  }

  method GeNeg(a: Ge, ghost w: int, ghost q: Point) returns (r: Ge)
    requires GeDenotes(a, w, q)
    ensures GeDenotes(r, w, Neg(q)) && r.infinity == a.infinity
  {
    hide Cong, Represents, Val, Magnitude;
    var y := FeNormalizeWeak(a.y);
    ghost var y1 := Val(y);
    y := FeNegate(y, 1);
    r := Ge(a.x, y, a.infinity);
    if !a.infinity {
      NegElement(Val(a.x), Val(a.y), w, q, y1, Val(y));
    }
  }

  /** Divides by a z-coordinate whose inverse is known: coordinates over v become coordinates over w = v * zi. */
  method SetGejZinv(a: Jac, zi: Element, ghost v: int, ghost w: int, ghost q: Point) returns (r: Ge)
    requires if a.infinity then q == Infinity
             else Represents(Val(a.x), Val(a.y), v, q) && !Cong(w, 0, P) && Cong(v * Val(zi), w, P)
    ensures GeDenotes(r, w, q) && r.infinity == a.infinity
  {
    hide Cong, Represents, Val, Magnitude;
    var zi2 := FeSqr(zi);
    var zi3 := FeMul(zi2, zi);
    var x := FeMul(a.x, zi2);
    var y := FeMul(a.y, zi3);
    r := Ge(x, y, a.infinity);
    if !a.infinity {
      ScaleAffine(Val(a.x), Val(a.y), v, q, Val(zi), Val(zi2), Val(zi3), Val(x), Val(y), w);
    }
  }

  /** Conversion to affine, which leaves the affine form in the Jacobian element as well. */
  method SetGej(a: Gej, ghost w: int, ghost q: Point) returns (r: Ge)
    requires Prime(P) && a.Denotes(w, q)
    modifies a
    ensures GeDenotes(r, w, q) && a.Denotes(w, q)
    ensures r.infinity == a.infinity == old(a.infinity) && Val(a.z) == 1
  {
    hide Cong, Prime, Represents, Val, Magnitude;
    ghost var v := Val(a.z);
    var zi := FeInv(a.z);
    a.z := zi;
    var z2 := FeSqr(a.z);
    var z3 := FeMul(a.z, z2);
    ghost var x, y := Val(a.x), Val(a.y);
    a.x := FeMul(a.x, z2);
    a.y := FeMul(a.y, z3);
    a.z := FeInt(1);
    r := Ge(a.x, a.y, a.infinity);
    if !a.infinity {
      ReducedPoint(x, y, v, w, q, Val(zi), Val(z2), Val(z3), Val(a.x), Val(a.y));
    }
  }

  lemma ReducedPoint(x: int, y: int, v: int, w: int, q: Point, zi: int, z2: int, z3: int, x': int, y': int)
    requires Represents(x, y, v * w, q) && (!Cong(v, 0, P) ==> Cong(v * zi, 1, P))
    requires Cong(z2, zi * zi, P) && Cong(z3, zi * z2, P) && Cong(x', x * z2, P) && Cong(y', y * z3, P)
    ensures Represents(x', y', w, q) && Represents(x', y', 1 * w, q)
  {
    hide Cong, Represents;
    RepresentsParts(x, y, v * w, q);
    InverseScale(v, w, zi);
    assert zi * z2 == z2 * zi;
    ScaleAffine(x, y, v * w, q, zi, z2, z3, x', y', w);
  }

  /** Conversion to affine that leaves infinity alone. */
  method SetGejVar(a: Gej, ghost w: int, ghost q: Point) returns (r: Ge)
    requires Prime(P) && a.Denotes(w, q)
    modifies a
    ensures GeDenotes(r, w, q) && a.Denotes(w, q)
    ensures r.infinity == a.infinity == old(a.infinity)
    ensures if a.infinity then a.x == old(a.x) && a.y == old(a.y) && a.z == old(a.z) else Val(a.z) == 1
  {
    hide Cong, Prime, Represents, Val, Magnitude;
    if a.infinity {
      r := Ge(FeInt(0), FeInt(0), true);
      return;
    }
    r := SetGej(a, w, q);
  }

  lemma InverseScale(v: int, w: int, zi: int)
    requires !Cong(v * w, 0, P)
    requires !Cong(v, 0, P) ==> Cong(v * zi, 1, P)
    ensures !Cong(v, 0, P) && !Cong(w, 0, P) && Cong((v * w) * zi, w, P)
  {
    hide Cong;
    Refl(v, P);
    Refl(w, P);
    if Cong(v, 0, P) {
      MulCong(v, 0, w, w, P);
    }
    if Cong(w, 0, P) {
      MulCong(v, v, w, 0, P);
    }
    MulCong(v * zi, 1, w, w, P);
    assert (v * w) * zi == (v * zi) * w;
  }

  /** The number of finite elements among the first i. */
  ghost function Finite(a: seq<Jac>, i: nat): nat
    requires i <= |a|
  {
    if i == 0 then 0 else Finite(a, i - 1) + if a[i - 1].infinity then 0 else 1
  }

  /** Batch conversion with one inversion; the infinities are passed over. */
  method SetAllGejVar(r: array<Ge>, a: seq<Jac>, ghost q: seq<Point>)
    requires Prime(P) && r.Length == |a| == |q|
    requires forall i :: 0 <= i < |a| ==> JacDenotes(a[i], 1, q[i])
    modifies r
    ensures forall i :: 0 <= i < |a| ==> GeDenotes(r[i], 1, q[i])
  {
    hide Prime, Finite, JacDenotes, GeDenotes, Inverted, Val, Magnitude;
    var az: seq<Element> := [];
    var i := 0;
    FiniteZero(a);
    while i < |a|
      invariant 0 <= i <= |a| && |az| == Finite(a, i)
      invariant forall j :: 0 <= j < i && !a[j].infinity ==> Finite(a, j) < |az| && az[Finite(a, j)] == a[j].z
      invariant Units(Vals(az))
    {
      FiniteNext(a, i);
      if !a[i].infinity {
        FiniteUnit(a[i], q[i]);
        UnitsAppend(Vals(az), Val(a[i].z));
        assert Vals(az + [a[i].z]) == Vals(az) + [Val(a[i].z)];
        az := az + [a[i].z];
      }
      i := i + 1;
    }
    var azi := new Element[|az|];
    InvAllVar(azi, az);
    hide Units;
    ghost var inverses := azi[..];
    var count := 0;
    i := 0;
    while i < |a|
      invariant 0 <= i <= |a| && count == Finite(a, i)
      invariant azi[..] == inverses
      invariant forall j :: 0 <= j < i ==> GeDenotes(r[j], 1, q[j])
    {
      FiniteNext(a, i);
      if !a[i].infinity {
        assert azi[count] == inverses[count];
        ZinvReady(a[i], Val(inverses[count]), q[i], Val(az[count]), Units(Vals(az)));
        r[i] := SetGejZinv(a[i], azi[count], Val(a[i].z) * 1, 1, q[i]);
        count := count + 1;
      } else {
        r[i] := r[i].(infinity := true);
        InfiniteDenotes(a[i], q[i], r[i]);
      }
      i := i + 1;
    }
  }

  lemma FiniteZero(a: seq<Jac>)
    ensures Finite(a, 0) == 0
  {
  }

  lemma FiniteNext(a: seq<Jac>, i: nat)
    requires i < |a|
    ensures Finite(a, i + 1) == Finite(a, i) + if a[i].infinity then 0 else 1
  {
  }

  lemma FiniteUnit(a: Jac, q: Point)
    requires !a.infinity && JacDenotes(a, 1, q)
    ensures !Cong(Val(a.z), 0, P)
  {
    hide Cong;
    RepresentsDef(Val(a.x), Val(a.y), Val(a.z) * 1, q);
    hide Represents;
    assert Val(a.z) * 1 == Val(a.z);
  }

  lemma UnitsAppend(a: seq<int>, x: int)
    requires Units(a) && !Cong(x, 0, P)
    ensures Units(a + [x])
  {
  }

  lemma InfiniteDenotes(a: Jac, q: Point, r: Ge)
    requires a.infinity && JacDenotes(a, 1, q) && r.infinity
    ensures GeDenotes(r, 1, q)
  {
  }

  lemma ZinvReady(a: Jac, zi: int, q: Point, z: int, units: bool)
    requires !a.infinity && JacDenotes(a, 1, q) && Inverted(zi, z, units) && z == Val(a.z) && units
    ensures Represents(Val(a.x), Val(a.y), Val(a.z) * 1, q) && !Cong(1, 0, P) && Cong((Val(a.z) * 1) * zi, 1, P)
  {
    hide Cong;
    UnitBelow(1, P);
    assert (Val(a.z) * 1) * zi == zi * z;
  }

  /** The z-coordinates behind a table and their recorded ratios. */
  ghost predicate Chain(zs: seq<int>, zr: seq<int>) {
    |zs| == |zr| && forall i :: 0 < i < |zs| ==> Cong(zs[i], zs[i - 1] * zr[i], P)
  }

  /** A table of finite elements with the coordinates of `q` over the z-coordinates `zs`. */
  ghost predicate Scales(a: seq<Jac>, zs: seq<int>, q: seq<Point>) {
    && |a| == |zs| == |q|
    && (forall i :: 0 <= i < |a| ==> !a[i].infinity && Represents(Val(a[i].x), Val(a[i].y), zs[i], q[i]))
    && (|a| > 0 ==> Cong(zs[|a| - 1], Val(a[|a| - 1].z), P))
  }

  lemma ScaleAt(a: seq<Jac>, zs: seq<int>, q: seq<Point>, i: nat)
    requires Scales(a, zs, q) && i < |a|
    ensures !a[i].infinity && Represents(Val(a[i].x), Val(a[i].y), zs[i], q[i])
  {
  }

  lemma LastScale(a: seq<Jac>, zs: seq<int>, q: seq<Point>)
    requires Scales(a, zs, q) && |a| > 0
    ensures var n := |a| - 1;
      && Cong(zs[n], Val(a[n].z), P) && !Cong(Val(a[n].z), 0, P)
      && GeDenotes(Ge(a[n].x, a[n].y, false), Val(a[n].z), q[n])
  {
    var n := |a| - 1;
    ScaleAt(a, zs, q, n);
    hide Cong, Represents, Scales, Val;
    RepresentsParts(Val(a[n].x), Val(a[n].y), zs[n], q[n]);
    if Cong(Val(a[n].z), 0, P) {
      Trans(zs[n], Val(a[n].z), 0, P);
    }
    Sym(zs[n], Val(a[n].z), P);
    RescaleRepresents(Val(a[n].x), Val(a[n].y), zs[n], Val(a[n].z), q[n]);
  }

  /** Multiplying by a ratio moves a scale factor one entry back. */
  lemma BackOne(zs: seq<int>, zr: seq<int>, i: nat, f: int, f': int, z: int)
    requires Chain(zs, zr) && 0 < i < |zs| && Cong(zs[i] * f, z, P) && Cong(f', f * zr[i], P)
    ensures Cong(zs[i - 1] * f', z, P)
  {
    hide Cong;
    var a, b := zs[i - 1], zr[i];
    Refl(a, P);
    Refl(f, P);
    MulCong(a, a, f', f * b, P);
    MulCong(zs[i], a * b, f, f, P);
    assert a * (f * b) == (a * b) * f;
    Sym(zs[i] * f, (a * b) * f, P);
    Trans((a * b) * f, zs[i] * f, z, P);
    Trans(a * f', (a * b) * f, z, P);
  }

  lemma LastInverse(z: int, zn: int, zi: int)
    requires Cong(z, zn, P) && Cong(zn * zi, 1, P)
    ensures Cong(z * zi, 1, P)
  {
    hide Cong;
    Refl(zi, P);
    MulCong(z, zn, zi, zi, P);
    Trans(z * zi, zn * zi, 1, P);
  }

  lemma OneIsUnit()
    ensures !Cong(1, 0, P)
  {
    hide Cong;
    UnitBelow(1, P);
  }

  /** Affine conversion of a table from its z-ratios, with one inversion. */
  method SetTableGejVar(r: array<Ge>, a: seq<Jac>, zr: seq<Element>, ghost zs: seq<int>, ghost q: seq<Point>)
    requires Prime(P) && r.Length == |a| == |zr| && Scales(a, zs, q) && Chain(zs, Vals(zr))
    modifies r
    ensures forall i :: 0 <= i < |a| ==> GeDenotes(r[i], 1, q[i]) && !r[i].infinity
  {
    assert |q| == |zs| == |a|;
    hide Prime, GeDenotes, Scales, Chain, Cong, Represents, Val, Magnitude;
    if |a| > 0 {
      var i := |a| - 1;
      OneIsUnit();
      LastScale(a, zs, q);
      var zi := FeInv(a[i].z);
      LastInverse(zs[i], Val(a[i].z), Val(zi));
      ScaleAt(a, zs, q, i);
      r[i] := SetGejZinv(a[i], zi, zs[i], 1, q[i]);
      while i > 0
        invariant 0 <= i < |a|
        invariant Cong(zs[i] * Val(zi), 1, P)
        invariant forall j :: i <= j < |a| ==> GeDenotes(r[j], 1, q[j]) && !r[j].infinity
      {
        ghost var zi0 := Val(zi);
        zi := FeMul(zi, zr[i]);
        BackOne(zs, Vals(zr), i, zi0, Val(zi), 1);
        i := i - 1;
        ScaleAt(a, zs, q, i);
        r[i] := SetGejZinv(a[i], zi, zs[i], 1, q[i]);
      }
    }
  }

  /** Brings a table to the z-coordinate of its last entry, without an inversion. */
  method GlobalzSetTableGej(r: array<Ge>, a: seq<Jac>, zr: seq<Element>, ghost zs: seq<int>, ghost q: seq<Point>)
    returns (globalz: Element)
    requires r.Length == |a| == |zr| && Scales(a, zs, q) && Chain(zs, Vals(zr))
    modifies r
    ensures |a| > 0 ==> globalz == a[|a| - 1].z && !Cong(Val(globalz), 0, P)
    ensures forall i :: 0 <= i < |a| ==> GeDenotes(r[i], Val(globalz), q[i]) && !r[i].infinity
  {
    assert |q| == |zs| == |a|;
    hide Prime, GeDenotes, Scales, Chain, Cong, Represents, Val, Magnitude;
    globalz := FeInt(0);
    if |a| > 0 {
      var i := |a| - 1;
      LastScale(a, zs, q);
      r[i] := Ge(a[i].x, a[i].y, false);
      globalz := a[i].z;
      var f := zr[i];
      while i > 0
        invariant 0 <= i < |a|
        invariant if i == |a| - 1 then f == zr[i] else Cong(zs[i] * Val(f), Val(globalz), P)
        invariant forall j :: i <= j < |a| ==> GeDenotes(r[j], Val(globalz), q[j]) && !r[j].infinity
      {
        ghost var f0 := Val(f);
        if i != |a| - 1 {
          f := FeMul(f, zr[i]);
          BackOne(zs, Vals(zr), i, f0, Val(f), Val(globalz));
        } else {
          FirstBack(zs, Vals(zr), i, Val(globalz));
        }
        i := i - 1;
        ScaleAt(a, zs, q, i);
        r[i] := SetGejZinv(a[i], f, zs[i], Val(globalz), q[i]);
      }
    }
  }

  lemma FirstBack(zs: seq<int>, zr: seq<int>, i: nat, z: int)
    requires Chain(zs, zr) && 0 < i < |zs| && Cong(zs[i], z, P)
    ensures Cong(zs[i - 1] * zr[i], z, P)
  {
    hide Cong;
    Sym(zs[i], zs[i - 1] * zr[i], P);
    Trans(zs[i - 1] * zr[i], zs[i], z, P);
  }

  /** The odd multiples of a point. */
  ghost function OddMultiples(n: nat, p: Point): (q: seq<Point>)
    ensures |q| == n && forall i :: 0 <= i < n ==> q[i] == Mul(2 * i + 1, p)
  {
    seq(n, i => Mul(2 * i + 1, p))
  }

  /** What one step of the table needs to know of the points it adds. */
  lemma OddStep(i: nat, p: Point)
    requires Secp256k1() && E(p) && p.Affine? && 0 < i && 2 * i + 1 < N
    ensures var a, d := Mul(2 * i - 1, p), Mul(2, p);
      && OnCurve(7, a) && OnCurve(7, d) && a.Affine? && d.Affine? && (a == d ==> a.y != 0)
      && Add(a, d) == Mul(2 * i + 1, p) && Mul(2 * i + 1, p).Affine?
  {
    hide Secp256k1, Add, Mul, OnCurve;
    MulClosed(2 * i - 1, p);
    MulClosed(2, p);
    NoSmallOrder(2 * i - 1, p);
    NoSmallOrder(2, p);
    NoSmallOrder(2 * i + 1, p);
    NoTwoTorsion(Mul(2, p));
    MulAdd(2 * i - 1, 2, p);
  }

  lemma DoubleReady(p: Point)
    requires Secp256k1() && E(p) && p.Affine?
    ensures Prime(P) && OnCurve(7, p) && p.y != 0 && Add(p, p) == Mul(2, p) && Mul(1, p) == p
  {
    NoTwoTorsion(p);
    hide Add, Mul, OnCurve;
    MulOne(p);
    MulSucc(1, p);
  }

  /** The first entry: the point itself, on the curve where its double is affine. */
  lemma TableStart(a: Jac, d: Jac, p: Point, q: Point)
    requires Prime(P) && JacDenotes(a, 1, p) && JacDenotes(d, 1, q) && !a.infinity && !d.infinity
    ensures var za, zd := Val(a.z), Val(d.z);
      Represents(Val(a.x), Val(a.y), za * 1, p) && !Cong(za * zd, 0, P) && Cong((za * 1) * zd, za * zd, P)
    ensures GeDenotes(Ge(d.x, d.y, false), Val(d.z), q)
  {
    var za, zd := Val(a.z), Val(d.z);
    assert za * 1 == za && zd * 1 == zd;
    hide Prime, Cong, Val;
    RepresentsParts(Val(a.x), Val(a.y), za * 1, p);
    RepresentsParts(Val(d.x), Val(d.y), zd * 1, q);
    hide Represents;
    ScaleUnit(za, zd);
    Refl(za * zd, P);
  }

  /** The entries so far: entry j holds the (2j+1)-th multiple over the scale zs[j], which the ratios connect. */
  ghost predicate Filled(prej: seq<Jac>, zr: seq<int>, zs: seq<int>, p: Point) {
    && |prej| == |zr| == |zs|
    && (forall j :: 0 <= j < |zs| ==> !prej[j].infinity)
    && (forall j :: 0 <= j < |zs| ==> Represents(Val(prej[j].x), Val(prej[j].y), zs[j], Mul(2 * j + 1, p)))
    && Chain(zs, zr)
  }

  lemma FilledNext(prej: seq<Jac>, zr: seq<int>, zs: seq<int>, p: Point, t: Jac, r: int, z: int)
    requires Filled(prej, zr, zs, p) && !t.infinity
    requires Represents(Val(t.x), Val(t.y), z, Mul(2 * |zs| + 1, p))
    requires |zs| > 0 ==> Cong(z, zs[|zs| - 1] * r, P)
    ensures Filled(prej + [t], zr + [r], zs + [z], p)
  {
    hide Cong, Represents, Mul;
  }

  lemma FilledScales(prej: seq<Jac>, zr: seq<int>, zs: seq<int>, p: Point, z: Element)
    requires Filled(prej, zr, zs, p) && |zs| > 0 && Cong(Val(z), zs[|zs| - 1], P)
    ensures Scales(prej[|zs| - 1 := prej[|zs| - 1].(z := z)], zs, OddMultiples(|zs|, p)) && Chain(zs, zr)
  {
    hide Represents, Mul, Val;
    Sym(Val(z), zs[|zs| - 1], P);
    hide Cong;
  }

  /** The doubled point, affine on the curve where its z-coordinate is one, and the point itself on that curve. */
  method DoubledBase(a: Gej, ghost p: Point) returns (start: Jac, dGe: Ge, dz: Element)
    requires Secp256k1() && E(p) && a.Denotes(1, p) && !a.infinity
    ensures GeDenotes(dGe, Val(dz), Mul(2, p)) && !start.infinity
    ensures Represents(Val(start.x), Val(start.y), Val(start.z) * Val(dz), Mul(1, p))
  {
    ghost var a0 := Jac(a.x, a.y, a.z, a.infinity);
    assert JacDenotes(a0, 1, p);
    FiniteAffine(a, p);
    hide Secp256k1, E, Add, Mul, OnCurve, Represents, Cong, Prime, N, Val, Magnitude;
    DoubleReady(p);
    var d := new Gej();
    var _ := d.DoubleVar(a, 7, 1, p);
    dGe := Ge(d.x, d.y, false);
    dz := d.z;
    TableStart(a0, Jac(d.x, d.y, d.z, false), p, Mul(2, p));
    var aGe := SetGejZinv(Jac(a.x, a.y, a.z, a.infinity), d.z, Val(a.z) * 1, Val(a.z) * Val(d.z), p);
    start := Jac(aGe.x, aGe.y, a.z, false);
  }

  /** The next odd multiple, and the ratio of its z-coordinate to the one before. */
  method NextMultiple(t: Gej, dGe: Ge, ghost dz: int, ghost i: nat, ghost p: Point) returns (rzr: Element, v: Jac)
    requires Secp256k1() && E(p) && p.Affine? && 0 < i && 2 * i + 1 < N
    requires GeDenotes(dGe, dz, Mul(2, p))
    requires !t.infinity && Represents(Val(t.x), Val(t.y), Val(t.z) * dz, Mul(2 * i - 1, p))
    modifies t
    ensures !t.infinity && v == Jac(t.x, t.y, t.z, false)
    ensures Represents(Val(t.x), Val(t.y), Val(t.z) * dz, Mul(2 * i + 1, p))
    ensures Cong(Val(t.z) * dz, (Val(old(t.z)) * dz) * Val(rzr), P)
  {
    Primes();
    hide Secp256k1, E, Add, Mul, OnCurve, Represents, Cong, Prime, N, Val, Magnitude;
    OddStep(i, p);
    ghost var z0 := Val(t.z);
    rzr := t.AddGeVar(t, dGe, 7, dz, Mul(2 * i - 1, p), Mul(2, p));
    v := t.Copy();
    ScaleOfProduct(Val(t.z), z0, Val(rzr), dz);
  }

  /** The table so far, with the element that the next addition starts from. */
  ghost predicate Run(prej: seq<Jac>, zr: seq<int>, zs: seq<int>, t: Jac, dz: int, p: Point) {
    && Filled(prej, zr, zs, p) && |zs| > 0
    && !t.infinity && prej[|zs| - 1] == t && zs[|zs| - 1] == Val(t.z) * dz
  }

  lemma RunStart(a: Jac, r: int, dz: int, p: Point)
    requires !a.infinity && Represents(Val(a.x), Val(a.y), Val(a.z) * dz, Mul(1, p))
    ensures Run([a], [r], [Val(a.z) * dz], a, dz, p)
  {
    FirstFilled(a, r, Val(a.z) * dz, p);
  }

  lemma RunReady(prej: seq<Jac>, zr: seq<int>, zs: seq<int>, t: Jac, dz: int, p: Point)
    requires Run(prej, zr, zs, t, dz, p)
    ensures |zs| == |zr| == |prej| > 0 && !t.infinity
    ensures Represents(Val(t.x), Val(t.y), Val(t.z) * dz, Mul(2 * |zs| - 1, p))
  {
    hide Represents, Mul, Val;
  }

  lemma RunNext(prej: seq<Jac>, zr: seq<int>, zs: seq<int>, t: Jac, dz: int, p: Point, v: Jac, r: int)
    requires Run(prej, zr, zs, t, dz, p) && |zs| == |zr| == |prej|
    requires !v.infinity && Represents(Val(v.x), Val(v.y), Val(v.z) * dz, Mul(2 * |zs| + 1, p))
    requires Cong(Val(v.z) * dz, (Val(t.z) * dz) * r, P)
    ensures Run(prej + [v], zr + [r], zs + [Val(v.z) * dz], v, dz, p)
  {
    hide Represents, Mul, Filled, Cong, Val;
    FilledNext(prej, zr, zs, p, v, r, Val(v.z) * dz);
  }

  /** The loop that adds the doubled point again and again, from the second entry on. */
  method AddRepeatedly(prej: array<Jac>, zr: array<Element>, dGe: Ge, ghost dz: int, ghost p: Point)
    returns (ghost zs: seq<int>)
    requires Secp256k1() && E(p) && p.Affine? && GeDenotes(dGe, dz, Mul(2, p))
    requires prej.Length == zr.Length && 0 < prej.Length && 2 * prej.Length < N
    requires !prej[0].infinity && Represents(Val(prej[0].x), Val(prej[0].y), Val(prej[0].z) * dz, Mul(1, p))
    modifies prej, zr
    ensures |zs| == prej.Length && Run(prej[..], Vals(zr[..]), zs, prej[|zs| - 1], dz, p)
  {
    hide *;
    var t := new Gej();
    t.Assign(prej[0]);
    zs := [Val(t.z) * dz];
    RunStart(prej[0], Val(zr[0]), dz, p);
    ghost var table, ratios := [prej[0]], [zr[0]];
    assert Vals(ratios) == [Val(zr[0])];
    var i := 1;
    while i < prej.Length
      invariant 1 <= i <= prej.Length && |zs| == |table| == |ratios| == i
      invariant forall j :: 0 <= j < i ==> prej[j] == table[j]
      invariant forall j :: 0 <= j < i ==> zr[j] == ratios[j]
      invariant Run(table, Vals(ratios), zs, Jac(t.x, t.y, t.z, t.infinity), dz, p)
    {
      ghost var last := Jac(t.x, t.y, t.z, t.infinity);
      RunReady(table, Vals(ratios), zs, last, dz, p);
      var rzr, v := NextMultiple(t, dGe, dz, i, p);
      zr[i] := rzr;
      prej[i] := v;
      RunNext(table, Vals(ratios), zs, last, dz, p, v, Val(rzr));
      assert Vals(ratios + [rzr]) == Vals(ratios) + [Val(rzr)];
      table, ratios, zs := table + [v], ratios + [rzr], zs + [Val(v.z) * dz];
      i := i + 1;
    }
    assert prej[..] == table;
    assert zr[..] == ratios;
    RunLast(table, Vals(ratios), zs, Jac(t.x, t.y, t.z, t.infinity), dz, p);
  }

  lemma RunLast(prej: seq<Jac>, zr: seq<int>, zs: seq<int>, t: Jac, dz: int, p: Point)
    requires Run(prej, zr, zs, t, dz, p)
    ensures |zs| == |zr| == |prej| > 0 && prej[|zs| - 1] == t
    ensures Filled(prej, zr, zs, p) && zs[|zs| - 1] == Val(t.z) * dz
  {
    hide Represents, Mul, Val;
  }

  /** The table of odd multiples in Jacobian form, with the true z-coordinates `zs` and their recorded ratios. */
  method OddMultiplesTable(n: nat, prej: array<Jac>, zr: array<Element>, a: Gej, ghost p: Point)
    returns (ghost zs: seq<int>)
    requires Secp256k1() && E(p) && a.Denotes(1, p) && !a.infinity
    requires 0 < n && 2 * n < N && prej.Length == zr.Length == n
    modifies prej, zr
    ensures Scales(prej[..], zs, OddMultiples(n, p)) && Chain(zs, Vals(zr[..]))
  {
    FiniteAffine(a, p);
    hide *;
    var start, dGe, dz := DoubledBase(a, p);
    prej[0] := start;
    zr[0] := dz;
    zs := AddRepeatedly(prej, zr, dGe, Val(dz), p);
    UpdateLast(prej, Vals(zr[..]), zs, dz, p);
  }

  /** Completes the z-coordinate of the last entry, the only one that is used later. */
  method UpdateLast(prej: array<Jac>, ghost zr: seq<int>, ghost zs: seq<int>, dz: Element, ghost p: Point)
    requires prej.Length > 0 && |zs| == prej.Length && Run(prej[..], zr, zs, prej[|zs| - 1], Val(dz), p)
    modifies prej
    ensures Scales(prej[..], zs, OddMultiples(prej.Length, p)) && Chain(zs, zr)
  {
    hide *;
    var n := prej.Length;
    ghost var table := prej[..];
    RunLast(table, zr, zs, table[n - 1], Val(dz), p);
    SameField();
    var z := FeMul(prej[n - 1].z, dz);
    FilledScales(table, zr, zs, p, z);
    prej[n - 1] := prej[n - 1].(z := z);
    assert prej[..] == table[n - 1 := table[n - 1].(z := z)];
  }

  lemma FiniteAffine(a: Gej, p: Point)
    requires a.Denotes(1, p) && !a.infinity
    ensures p.Affine?
  {
    hide Val;
  }

  lemma FirstFilled(a: Jac, r: int, z: int, p: Point)
    requires !a.infinity && Represents(Val(a.x), Val(a.y), z, Mul(1, p))
    ensures Filled([a], [r], [z], p)
  {
    hide Represents, Mul, Val;
  }
}
