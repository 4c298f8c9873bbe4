/** Constant-time multiplication of a point by a scalar. */
module EcmultConst {
  import opened Curve
  import opened FieldElement
  import opened Ecmult
  import opened Formulas
  import opened Group
  import opened Jacobian
  import opened Magnitudes
  import opened Modular
  import opened Tables
  import opened Wnaf
  import opened WnafConst
  import Bits
  import Scalar
  import Words

  const WINDOW: nat := WINDOW_A - 1

  /** The base of the digits. */
  const BASE: nat := 16

  /** The number of digits below the top one. */
  const SIZE: nat := 64

  lemma Widths()
    ensures WINDOW_A == 5 && WINDOW == 4 && BASE == 16 && SIZE == 64
    ensures Bits.Pow2(WINDOW) == BASE && WnafSize(WINDOW) == SIZE && TableSize(WINDOW_A) == 8
  {
    WindowSizes();
  }

  /** Every y-coordinate of the table has magnitude 1, as the negation in the lookup assumes. */
  ghost predicate WeakTable(pre: seq<Ge>) {
    forall i :: 0 <= i < |pre| ==> Magnitude(pre[i].y, 1)
  }

  lemma WeakAt(pre: seq<Ge>, i: nat)
    requires WeakTable(pre) && i < |pre|
    ensures Magnitude(pre[i].y, 1)
  {
    hide Magnitude;
  }

  /** Table lookup by conditional moves over every entry. */
  method ConstTableGetGe(pre: array<Ge>, n: int, ghost z: int, ghost p: Point) returns (r: Ge)
    requires Secp256k1() && E(p) && pre.Length == TableSize(WINDOW_A) && PointTable(pre[..], z, p)
    requires WeakTable(pre[..]) && OddDigit(n, BASE)
    ensures GeDenotes(r, z, Mul(n, p)) && !r.infinity
  {
    hide *;
    Widths();
    LookupIndex(n);
    var absN := n * ((if n > 0 then 1 else 0) * 2 - 1);
    var idxN := absN / 2;
    var x, y := FeInt(0), FeInt(0);
    var m := 0;
    while m < 8
      invariant 0 <= m <= 8
      invariant m > idxN ==> x == pre[idxN].x && y == pre[idxN].y
    {
      x := if m == idxN then pre[m].x else x;
      y := if m == idxN then pre[m].y else y;
      m := m + 1;
    }
    PointTableAt(pre[..], z, p, idxN, absN);
    WeakAt(pre[..], idxN);
    ghost var found := Ge(x, y, false);
    assert found == pre[idxN];
    var negY := FeNegate(y, 1);
    r := Ge(x, if n != absN then negY else y, false);
    if n != absN {
      MulNeg(absN, p);
      SameField();
      NegatedEntry(found, negY, z, Mul(absN, p));
    }
  }

  lemma NegatedEntry(a: Ge, y: Element, w: int, q: Point)
    requires GeDenotes(a, w, q) && !a.infinity && Val(y) == 4 * P - Val(a.y)
    ensures GeDenotes(Ge(a.x, y, false), w, Neg(q))
  {
    hide Cong, Represents, Val;
    Refl(Val(a.y), P);
    NegElement(Val(a.x), Val(a.y), w, q, Val(a.y), Val(y));
  }

  lemma WeakEntry(a: Ge, y: Element, w: int, q: Point)
    requires GeDenotes(a, w, q) && !a.infinity && Cong(Val(y), Val(a.y), P)
    ensures GeDenotes(a.(y := y), w, q)
  {
    hide Cong, Represents, Val;
    Refl(Val(a.x), P);
    Refl(w, P);
    Recoordinate(Val(a.x), Val(a.y), w, Val(a.x), Val(y), w, q);
  }

  /** Normalizes every y-coordinate weakly, which leaves the denoted points alone. */
  method WeakenTable(pre: array<Ge>, ghost z: int, ghost p: Point)
    requires PointTable(pre[..], z, p)
    modifies pre
    ensures PointTable(pre[..], z, p) && WeakTable(pre[..])
  {
    hide *;
    ghost var before := pre[..];
    var i := 0;
    while i < pre.Length
      invariant 0 <= i <= pre.Length
      invariant forall j :: i <= j < pre.Length ==> pre[j] == before[j]
      invariant forall j :: 0 <= j < i ==> GeDenotes(pre[j], z, Mul(2 * j + 1, p)) && !pre[j].infinity
      invariant forall j :: 0 <= j < i ==> Magnitude(pre[j].y, 1)
    {
      PointTableAt(before, z, p, i, 2 * i + 1);
      var y := FeNormalizeWeak(pre[i].y);
      SameField();
      WeakEntry(pre[i], y, z, Mul(2 * i + 1, p));
      pre[i] := pre[i].(y := y);
      i := i + 1;
    }
    TableIntro(pre[..], z, p);
  }

  lemma TableIntro(pre: seq<Ge>, z: int, p: Point)
    requires forall j :: 0 <= j < |pre| ==> GeDenotes(pre[j], z, Mul(2 * j + 1, p)) && !pre[j].infinity
    requires forall j :: 0 <= j < |pre| ==> Magnitude(pre[j].y, 1)
    ensures PointTable(pre, z, p) && WeakTable(pre)
  {
    hide GeDenotes, Mul, Magnitude;
  }

  lemma LookupIndex(n: int)
    requires OddDigit(n, BASE)
    ensures var a := n * ((if n > 0 then 1 else 0) * 2 - 1);
      a == Abs(n) && 0 <= a / 2 < 8 && a == 2 * (a / 2) + 1 && (n == a || n == -a)
  {
  }

  /** The digits from any position on stand for an odd number no larger than the whole. */
  lemma {:induction false} FromBound(d: seq<int>, i: nat)
    requires i < |d| && OddDigits(d, BASE)
    ensures From(d, i, BASE) % 2 == 1 && Abs(From(d, i, BASE)) <= Abs(From(d, 0, BASE))
    ensures i + 1 < |d| ==> From(d, i + 1, BASE) % 2 == 1
    decreases i
  {
    FromOdd(d, i);
    if i + 1 < |d| {
      FromOdd(d, i + 1);
    }
    if i > 0 {
      FromBound(d, i - 1);
      FromStep(d, i - 1, BASE);
      hide From, OddDigits;
      ShrinkTail(From(d, i - 1, BASE), From(d, i, BASE), d[i - 1]);
    }
  }

  lemma ShrinkTail(a: int, b: int, x: int)
    requires a == 16 * b + x && OddDigit(x, BASE) && b % 2 == 1
    ensures Abs(b) <= Abs(a)
  {
  }

  lemma {:induction false} FromOdd(d: seq<int>, i: nat)
    requires i < |d| && OddDigits(d, BASE)
    ensures From(d, i, BASE) % 2 == 1
    decreases |d| - i
  {
    FromStep(d, i, BASE);
    assert OddDigit(d[i], BASE);
    hide From, OddDigits;
  }

  /** The multiple that the loop holds is never infinity. */
  lemma NeverInfinity(d: seq<int>, i: nat, j: nat, p: Point)
    requires Secp256k1() && E(p) && p.Affine? && i < |d| && OddDigits(d, BASE)
    requires Abs(From(d, 0, BASE)) < N
    ensures Mul(Bits.Pow2(j) * From(d, i, BASE), p) != Infinity
  {
    FromBound(d, i);
    hide From, OddDigits, Secp256k1, E, Mul;
    NotInfinity(From(d, i, BASE), j, p);
  }

  lemma NotInfinity(n: int, j: nat, p: Point)
    requires Secp256k1() && E(p) && p.Affine? && n % 2 == 1 && Abs(n) < N
    ensures Mul(Bits.Pow2(j) * n, p) != Infinity
  {
    hide Secp256k1, E, Mul, Bits.Pow2;
    if Mul(Bits.Pow2(j) * n, p) == Infinity {
      MulZero(Bits.Pow2(j) * n, p);
      Primes();
      hide Prime;
      DoublesAreUnits(j, n);
      SmallUnit(n);
    }
  }

  lemma SmallUnit(n: int)
    requires n % 2 == 1 && Abs(n) < N
    ensures !Cong(n, 0, N)
  {
    hide Cong;
    CongZero(n, N);
  }

  lemma {:induction false} DoublesAreUnits(j: nat, n: int)
    requires Prime(N) && Cong(Bits.Pow2(j) * n, 0, N)
    ensures Cong(n, 0, N)
  {
    if j > 0 {
      assert Bits.Pow2(j) * n == 2 * (Bits.Pow2(j - 1) * n);
      hide Bits.Pow2, Prime;
      hide Cong;
      UnitBelow(2, N);
      Euclid(2, Bits.Pow2(j - 1) * n, N);
      DoublesAreUnits(j - 1, n);
    }
  }

  lemma FiniteElement(r: Gej, z: int, q: Point)
    requires r.Denotes(z, q) && q != Infinity
    ensures !r.infinity
  {
  }

  /** Doubling where the element is known not to be infinity. */
  method DoubleNonzero(r: Gej, ghost z: int, ghost n: int, ghost p: Point)
    requires Secp256k1() && E(p) && r.Denotes(z, Mul(n, p)) && Mul(n, p) != Infinity
    modifies r
    ensures r.Denotes(z, Mul(2 * n, p))
  {
    hide *;
    FiniteElement(r, z, Mul(n, p));
    MulClosed(n, p);
    SafeToAdd(Mul(n, p), Mul(n, p));
    MulAdd(n, n, p);
    var _ := r.DoubleVar(r, 7, z, Mul(n, p));
  }

  /** r := r + m * p by the complete addition. */
  method AddDigit(r: Gej, b: Ge, ghost z: int, ghost n: int, ghost m: int, ghost p: Point)
    requires Secp256k1() && E(p) && r.Denotes(z, Mul(n, p)) && GeDenotes(b, z, Mul(m, p)) && !b.infinity
    modifies r
    ensures r.Denotes(z, Mul(n + m, p))
  {
    hide *;
    MulClosed(n, p);
    MulClosed(m, p);
    SafeToAdd(Mul(n, p), Mul(m, p));
    MulAdd(n, m, p);
    r.AddGe(r, b, 7, z, Mul(n, p), Mul(m, p));
  }

  lemma PowerStart(n: int)
    ensures Bits.Pow2(0) * n == n && Bits.Pow2(4) == 16
  {
  }

  lemma PowerNext(j: nat, n: int)
    ensures 2 * (Bits.Pow2(j) * n) == Bits.Pow2(j + 1) * n
  {
  }

  /** Doublings for one window, none of them of infinity. */
  method DoubleWindow(r: Gej, ghost z: int, ghost d: seq<int>, ghost i: nat, ghost p: Point)
    requires Secp256k1() && E(p) && p.Affine? && i < |d| && OddDigits(d, BASE) && Abs(From(d, 0, BASE)) < N
    requires r.Denotes(z, Mul(From(d, i, BASE), p))
    modifies r
    ensures r.Denotes(z, Mul(BASE * From(d, i, BASE), p))
  {
    hide *;
    Widths();
    ghost var n := From(d, i, BASE);
    PowerStart(n);
    var j := 0;
    while j < WINDOW_A - 1
      invariant 0 <= j <= 4
      invariant r.Denotes(z, Mul(Bits.Pow2(j) * n, p))
    {
      NeverInfinity(d, i, j, p);
      DoubleNonzero(r, z, Bits.Pow2(j) * n, p);
      PowerNext(j, n);
      j := j + 1;
    }
  }

  /** One digit of the windowed loop. */
  method WindowStep(r: Gej, preA: array<Ge>, n: int, ghost z: int, ghost d: seq<int>, ghost i: nat, ghost p: Point)
    requires Secp256k1() && E(p) && p.Affine? && preA.Length == TableSize(WINDOW_A) && PointTable(preA[..], z, p)
    requires WeakTable(preA[..])
    requires i + 1 < |d| && OddDigits(d, BASE) && Abs(From(d, 0, BASE)) < N && n == d[i]
    requires r.Denotes(z, Mul(From(d, i + 1, BASE), p))
    modifies r
    ensures r.Denotes(z, Mul(From(d, i, BASE), p))
  {
    hide *;
    FromStep(d, i, BASE);
    DigitAt(d, i);
    DoubleWindow(r, z, d, i + 1, p);
    var tmpa := ConstTableGetGe(preA, n, z, p);
    AddDigit(r, tmpa, z, BASE * From(d, i + 1, BASE), n, p);
  }

  /** The windowed loop, over the common z-coordinate `z` of the table. */
  method WindowLoop(r: Gej, preA: array<Ge>, wnaf: array<int>, ghost z: int, ghost p: Point)
    requires Secp256k1() && E(p) && p.Affine? && preA.Length == TableSize(WINDOW_A) && PointTable(preA[..], z, p)
    requires WeakTable(preA[..])
    requires wnaf.Length == SIZE + 1 && OddDigits(wnaf[..], BASE) && Abs(From(wnaf[..], 0, BASE)) < N
    modifies r
    ensures r.Denotes(z, Mul(From(wnaf[..], 0, BASE), p))
  {
    ghost var d := wnaf[..];
    hide *;
    Widths();
    TopDigit(d);
    DigitAt(d, SIZE);
    var tmpa := ConstTableGetGe(preA, wnaf[SIZE], z, p);
    r.SetGe(tmpa, z, Mul(wnaf[SIZE], p));
    var i := SIZE - 1;
    while i >= 0
      invariant -1 <= i < SIZE
      invariant r.Denotes(z, Mul(From(d, i + 1, BASE), p))
    {
      WindowStep(r, preA, wnaf[i], z, d, i, p);
      i := i - 1;
    }
  }

  lemma DigitAt(d: seq<int>, i: nat)
    requires OddDigits(d, BASE) && i < |d|
    ensures OddDigit(d[i], BASE)
  {
  }

  lemma TopDigit(d: seq<int>)
    requires |d| > 0
    ensures From(d, |d| - 1, BASE) == d[|d| - 1]
  {
    FromStep(d, |d| - 1, BASE);
    FromZeros(d, |d|, BASE);
  }

  /** The correction for the skew: minus one or two times the point, selected without branching. */
  method Correction(a: Ge, skew: int, ghost p: Point) returns (r: Ge)
    requires Secp256k1() && E(p) && GeDenotes(a, 1, p) && !a.infinity && (skew == 1 || skew == 2)
    ensures GeDenotes(r, 1, Neg(Mul(skew, p))) && !r.infinity
  {
    CorrectionFacts(a, p);
    hide *;
    var tmpj := new Gej();
    tmpj.SetGe(a, 1, p);
    MulOne(p);
    DoubleNonzero(tmpj, 1, 1, p);
    r := SetGej(tmpj, 1, Mul(2, p));
    MulClosed(2, p);
    FiniteDouble(r, p);
    var correction := ToStorage(a, p);
    var a2 := ToStorage(r, Mul(2, p));
    correction := if skew == 2 then a2 else correction;
    MulClosed(skew, p);
    r := FromStorage(correction);
    r := GeNeg(r, 1, Mul(skew, p));
  }

  /** Subtracts the skew. */
  method Unskew(r: Gej, a: Ge, skew: int, ghost n: int, ghost p: Point)
    requires Secp256k1() && E(p) && GeDenotes(a, 1, p) && !a.infinity && (skew == 1 || skew == 2)
    requires r.Denotes(1, Mul(n, p))
    modifies r
    ensures r.Denotes(1, Mul(n - skew, p))
  {
    hide *;
    var correction := Correction(a, skew, p);
    MulNeg(skew, p);
    AddDigit(r, correction, 1, n, -skew, p);
  }

  lemma CorrectionFacts(a: Ge, p: Point)
    requires Secp256k1() && GeDenotes(a, 1, p) && !a.infinity
    ensures p.Affine? && Mul(1, p) == p && p != Infinity && Prime(P)
  {
    hide Mul;
    MulOne(p);
  }

  lemma FiniteDouble(c: Ge, p: Point)
    requires Secp256k1() && E(p) && p.Affine? && GeDenotes(c, 1, Mul(2, p))
    ensures !c.infinity
  {
    hide Secp256k1, E, Mul;
    NoSmallOrder(2, p);
  }

  /** r := scalar * a, for every finite affine point a and every scalar. */
  method EcmultConst(r: Gej, a: Ge, scalar: seq<Words.Word>, ghost p: Point)
    requires Secp256k1() && E(p) && GeDenotes(a, 1, p) && !a.infinity
    requires |scalar| == 8 && Scalar.Value(scalar) < Scalar.N
    modifies r
    ensures r.Denotes(1, Mul(Scalar.Value(scalar), p))
  {
    hide *;
    CorrectionFacts(a, p);
    Scalar.ValueRange(scalar);
    ghost var s := Scalar.Value(scalar);
    SameOrder();
    var wnaf, skew := SkewedDigits(scalar);
    ghost var n := From(wnaf[..], 0, BASE);
    SkewedResidue(s, skew, n, p);
    r.SetGe(a, 1, p);
    var preA, z := ConstTable(r, p);
    WindowLoop(r, preA, wnaf, Val(z), p);
    Unscale(r, z, Mul(n, p));
    Unskew(r, a, skew, n, p);
  }

  /** The digits of the scalar with its skew. */
  method SkewedDigits(scalar: seq<Words.Word>) returns (wnaf: array<int>, skew: int)
    requires |scalar| == 8 && Scalar.Value(scalar) < Scalar.N
    ensures fresh(wnaf) && wnaf.Length == SIZE + 1 && OddDigits(wnaf[..], BASE) && (skew == 1 || skew == 2)
    ensures From(wnaf[..], 0, BASE) == SkewedValue(Scalar.Value(scalar), skew)
  {
    Widths();
    hide Bits.Pow2, Scalar.Value, OddDigits, Horner, From, WnafSize;
    wnaf := new int[SIZE + 1];
    skew := RecodeConst(wnaf, scalar, WINDOW);
    FromStart(wnaf[..], BASE);
  }

  /** The table of odd multiples over a common z-coordinate, ready for the lookup. */
  method ConstTable(r: Gej, ghost p: Point) returns (preA: array<Ge>, z: Element)
    requires Secp256k1() && E(p) && r.Denotes(1, p) && !r.infinity
    ensures fresh(preA) && preA.Length == TableSize(WINDOW_A) && !Cong(Val(z), 0, P)
    ensures PointTable(preA[..], Val(z), p) && WeakTable(preA[..])
  {
    hide *;
    Widths();
    preA := new Ge[8];
    z := OddMultiplesGlobalz(preA, r, p);
    WeakenTable(preA, Val(z), p);
  }

  lemma SkewedResidue(s: int, skew: nat, n: int, p: Point)
    requires Secp256k1() && E(p) && 0 <= s < N && (skew == 1 || skew == 2) && n == SkewedValue(s, skew)
    ensures Abs(n) < N && Mul(n - skew, p) == Mul(s, p)
  {
    SkewCong(s, skew, n);
    hide Secp256k1, E, Mul, Cong, SkewedValue, N;
    MulMod(n - skew, s, p);
  }

  lemma SkewCong(s: int, skew: nat, n: int)
    requires 0 <= s < N && (skew == 1 || skew == 2) && n == SkewedValue(s, skew)
    ensures Abs(n) < N && Cong(n - skew, s, N)
  {
    if s > N / 2 {
      FromMultiple(n - skew, s, -1, N);
    } else {
      Refl(s, N);
    }
  }
}
