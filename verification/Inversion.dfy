/** Field inversion, one at a time and in batches. */
module Inversion {
  import opened Curve
  import opened Fermat
  import opened FieldElement
  import opened Formulas
  import opened Magnitudes
  import opened Modular
  import PowerChains

  lemma {:induction false} PowZero(a: int, e: nat)
    requires e > 0 && Cong(a, 0, P)
    ensures Cong(Pow(a, e), 0, P)
  {
    assert Pow(a, e) == a * Pow(a, e - 1);
    hide Cong, Pow;
    Refl(Pow(a, e - 1), P);
    MulCong(a, 0, Pow(a, e - 1), Pow(a, e - 1), P);
  }

  lemma InverseContract(a: int, r: int)
    requires Prime(P) && PowerChains.PowerOf(r, a, P - 2, P)
    ensures !Cong(a, 0, P) ==> Cong(a * r, 1, P)
    ensures Cong(a, 0, P) ==> Cong(r, 0, P)
  {
    hide Prime, Cong, Pow;
    if Cong(a, 0, P) {
      PowZero(a, P - 2);
      Trans(r, Pow(a, P - 2), 0, P);
    } else {
      PowerChains.PowerIsInverse(r, a, P);
    }
  }

  /** The inverse of a unit; zero is sent to zero. */
  method FeInv(a: Element) returns (r: Element)
    requires Prime(P)
    ensures Magnitude(r, 1)
    ensures !Cong(Val(a), 0, P) ==> Cong(Val(a) * Val(r), 1, P)
    ensures Cong(Val(a), 0, P) ==> Cong(Val(r), 0, P)
  {
    hide Prime, Cong, Val, Magnitude, PowerChains.PowerOf;
    r := PowerChains.Inv(a);
    InverseContract(Val(a), Val(r));
  }

  ghost function Product(a: seq<int>): int {
    if a == [] then 1 else Product(a[..|a| - 1]) * a[|a| - 1]
  }

  ghost predicate Units(a: seq<int>) {
    forall i :: 0 <= i < |a| ==> !Cong(a[i], 0, P)
  }

  lemma {:induction false} ProductUnit(a: seq<int>)
    requires Prime(P)
    ensures !Cong(Product(a), 0, P) <==> Units(a)
  {
    if a == [] {
      UnitBelow(1, P);
    } else {
      var b, x := a[..|a| - 1], a[|a| - 1];
      ProductUnit(b);
      assert Units(a) <==> Units(b) && !Cong(x, 0, P) by {
        hide Cong, Prime;
        assert forall i :: 0 <= i < |b| ==> a[i] == b[i];
      }
      hide Cong, Prime, Units;
      ProductZero(Product(b), x);
    }
  }

  lemma ProductZero(a: int, b: int)
    requires Prime(P)
    ensures Cong(a * b, 0, P) <==> Cong(a, 0, P) || Cong(b, 0, P)
  {
    hide Cong, Prime;
    if Cong(a * b, 0, P) {
      Euclid(a, b, P);
    }
    if Cong(a, 0, P) {
      Refl(b, P);
      MulCong(a, 0, b, b, P);
    }
    if Cong(b, 0, P) {
      Refl(a, P);
      MulCong(a, a, b, 0, P);
    }
  }

  /** What the batch promises of one output: its input's inverse, or zero when some input was zero. */
  ghost predicate Inverted(r: int, a: int, units: bool) {
    if units then Cong(r * a, 1, P) else Cong(r, 0, P)
  }

  lemma PrefixStep(r': int, r: int, a: seq<int>, i: nat)
    requires 0 < i < |a| && Cong(r, Product(a[..i]), P) && Cong(r', r * a[i], P)
    ensures Cong(r', Product(a[..i + 1]), P)
  {
    assert a[..i + 1][..i] == a[..i];
    hide Cong;
    Refl(a[i], P);
    MulTo(r', r, Product(a[..i]), a[i], a[i]);
  }

  /** One step back: the output at i, and the inverse of the shorter product. */
  lemma BackStep(u: int, u': int, a: seq<int>, i: nat, r': int, r: int, units: bool)
    requires 0 < i < |a| && Inverted(u, Product(a[..i + 1]), units)
    requires Cong(r, Product(a[..i]), P) && Cong(r', r * u, P) && Cong(u', u * a[i], P)
    ensures Inverted(r', a[i], units) && Inverted(u', Product(a[..i]), units)
  {
    assert a[..i + 1][..i] == a[..i];
    var p, x := Product(a[..i]), a[i];
    assert Product(a[..i + 1]) == p * x;
    hide Product;
    BackProducts(u, u', p, x, r', r, units);
  }

  lemma BackProducts(u: int, u': int, p: int, x: int, r': int, r: int, units: bool)
    requires Inverted(u, p * x, units)
    requires Cong(r, p, P) && Cong(r', r * u, P) && Cong(u', u * x, P)
    ensures Inverted(r', x, units) && Inverted(u', p, units)
  {
    hide Cong;
    Refl(u, P);
    Refl(x, P);
    Refl(p, P);
    MulTo(r', r, p, u, u);
    if units {
      MulCong(r', p * u, x, x, P);
      MulCong(u', u * x, p, p, P);
      assert (p * u) * x == u * (p * x) && (u * x) * p == u * (p * x);
      Trans(r' * x, u * (p * x), 1, P);
      Trans(u' * p, u * (p * x), 1, P);
    } else {
      MulTo(r', p, p, u, 0);
      MulTo(u', u, 0, x, x);
    }
  }

  /** Simultaneous inversion with a single field inversion. */
  method InvAllVar(r: array<Element>, a: seq<Element>)
    requires Prime(P) && r.Length == |a|
    modifies r
    ensures forall i :: 0 <= i < |a| ==> Inverted(Val(r[i]), Val(a[i]), Units(Vals(a)))
  {
    hide Prime, Cong, Product, Units, Inverted, Val, Magnitude;
    if |a| < 1 {
      return;
    }
    ghost var v := Vals(a);
    r[0] := a[0];
    FirstPrefix(v);
    var i := 1;
    while i < |a|
      invariant 1 <= i <= |a|
      invariant forall j :: 0 <= j < i ==> Cong(Val(r[j]), Product(v[..j + 1]), P)
    {
      r[i] := FeMul(r[i - 1], a[i]);
      PrefixStep(Val(r[i]), Val(r[i - 1]), v, i);
      i := i + 1;
    }
    i := i - 1;
    var u := FeInv(r[i]);
    ghost var units := Units(v);
    WholeInverse(Val(u), Val(r[i]), v);
    while i > 0
      invariant 0 <= i < |a|
      invariant Inverted(Val(u), Product(v[..i + 1]), units)
      invariant forall j :: 0 <= j <= i ==> Cong(Val(r[j]), Product(v[..j + 1]), P)
      invariant forall j :: i < j < |a| ==> Inverted(Val(r[j]), Val(a[j]), units)
    {
      var j := i;
      i := i - 1;
      ghost var u0 := Val(u);
      r[j] := FeMul(r[i], u);
      u := FeMul(u, a[j]);
      BackStep(u0, Val(u), v, j, Val(r[j]), Val(r[i]), units);
    }
    r[0] := u;
    OneFactor(v);
  }

  lemma OneFactor(a: seq<int>)
    requires |a| > 0
    ensures Product(a[..1]) == a[0]
  {
    assert a[..1][..0] == [];
    assert Product([]) == 1;
  }

  lemma FirstPrefix(a: seq<int>)
    requires |a| > 0
    ensures Cong(a[0], Product(a[..1]), P)
  {
    OneFactor(a);
    Refl(a[0], P);
  }

  lemma WholeInverse(u: int, r: int, a: seq<int>)
    requires Prime(P) && |a| > 0 && Cong(r, Product(a[..|a|]), P)
    requires !Cong(r, 0, P) ==> Cong(r * u, 1, P)
    requires Cong(r, 0, P) ==> Cong(u, 0, P)
    ensures Inverted(u, Product(a[..|a|]), Units(a))
  {
    assert a[..|a|] == a;
    ProductUnit(a);
    hide Cong, Prime, Product, Units;
    var p := Product(a);
    Sym(r, p, P);
    if Cong(r, 0, P) {
      Trans(p, r, 0, P);
    } else {
      if Cong(p, 0, P) {
        Trans(r, p, 0, P);
      }
      Refl(u, P);
      MulCong(p, r, u, u, P);
      Trans(p * u, r * u, 1, P);
    }
  }
}
