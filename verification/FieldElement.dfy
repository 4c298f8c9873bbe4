/** Field elements passed by value: their limbs, the magnitudes they may have, and the residues they stand for. */
module FieldElement {
  import opened FieldLimbs
  import opened FieldNormalize
  import opened Magnitudes
  import opened Memory
  import opened Modular
  import opened Scalars
  import opened Words
  import BigEndian
  import FieldMul
  import FieldOctets
  import Scalar

  /** The limbs of an element as the point formulas keep it, of magnitude up to 8. */
  type Element = n: seq<Word> | Magnitude(n, 8) witness [0, 0, 0, 0, 0, 0, 0, 0, 0, 0]

  /** The number that the limbs from the i-th on denote. */
  ghost function High(n: seq<Word>, i: nat): int
    requires i <= |n|
    decreases |n| - i
  {
    if i == |n| then 0 else n[i] + 0x400_0000 * High(n, i + 1)
  }

  /** The number that an element stands for, up to multiples of P. */
  ghost function Val(n: Element): int {
    High(n, 0)
  }

  lemma ValIs(n: Element)
    ensures Val(n) == Fe(n)
  {
    assert High(n, 10) == 0;
    assert High(n, 9) == n[9];
    assert High(n, 8) == n[8] + 0x400_0000 * High(n, 9);
    assert High(n, 7) == n[7] + 0x400_0000 * High(n, 8);
    assert High(n, 6) == n[6] + 0x400_0000 * High(n, 7);
    assert High(n, 5) == n[5] + 0x400_0000 * High(n, 6);
    assert High(n, 4) == n[4] + 0x400_0000 * High(n, 5);
    assert High(n, 3) == n[3] + 0x400_0000 * High(n, 4);
    assert High(n, 2) == n[2] + 0x400_0000 * High(n, 3);
    assert High(n, 1) == n[1] + 0x400_0000 * High(n, 2);
  }

  ghost function Vals(a: seq<Element>): (v: seq<int>)
    ensures |v| == |a| && forall i :: 0 <= i < |a| ==> v[i] == Val(a[i])
  {
    seq(|a|, i requires 0 <= i < |a| => Val(a[i]))
  }

  method Load(a: seq<Word>) returns (r: array<Word>)
    requires |a| == 10
    ensures fresh(r) && r.Length == 10 && r[..] == a
  {
    r := new Word[10];
    Store(r, a);
  }

  lemma MagnitudeGrows(n: seq<Word>, m: nat, k: nat)
    requires Magnitude(n, m) && m <= k
    ensures Magnitude(n, k)
  {
  }

  lemma LimbCount(n: Element)
    ensures |n| == 10
  {
  }

  lemma CanonicalMagnitude(n: seq<Word>)
    requires Canonical(n)
    ensures Magnitude(n, 1) && Magnitude(n, 8)
  {
  }

  lemma OperandMagnitude(n: Element)
    ensures FieldMul.Operand(n)
  {
  }

  lemma ReducedMagnitude(n: seq<Word>)
    requires FieldMul.Reduced(n)
    ensures Magnitude(n, 1) && Magnitude(n, 8)
  {
  }

  method FeMul(a: Element, b: Element) returns (r: Element)
    ensures Magnitude(r, 1) && Cong(Val(r), Val(a) * Val(b), P)
  {
    hide Fe, Cong, Magnitude, FieldMul.Operand, FieldMul.Reduced;
    OperandMagnitude(a);
    OperandMagnitude(b);
    var x := Load(a);
    var y := Load(b);
    FieldMul.MulInner(x, x, y);
    ReducedMagnitude(x[..]);
    r := x[..];
    ValIs(a);
    ValIs(b);
    ValIs(r);
    CongIffMod(Val(r), Val(a) * Val(b), P);
  }

  method FeSqr(a: Element) returns (r: Element)
    ensures Magnitude(r, 1) && Cong(Val(r), Val(a) * Val(a), P)
  {
    hide Fe, Cong, Magnitude, FieldMul.Operand, FieldMul.Reduced;
    OperandMagnitude(a);
    var x := Load(a);
    FieldMul.SqrInner(x, x);
    ReducedMagnitude(x[..]);
    r := x[..];
    ValIs(a);
    ValIs(r);
    CongIffMod(Val(r), Val(a) * Val(a), P);
  }

  /** The limb by limb sum, whose magnitude is the sum of the magnitudes. */
  method AddLimbs(a: seq<Word>, b: seq<Word>, ghost m: nat, ghost k: nat) returns (r: seq<Word>)
    requires Magnitude(a, m) && Magnitude(b, k) && m + k <= 32
    ensures Magnitude(r, m + k) && Fe(r) == Fe(a) + Fe(b)
  {
    r := [a[0] + b[0], a[1] + b[1], a[2] + b[2], a[3] + b[3], a[4] + b[4],
      a[5] + b[5], a[6] + b[6], a[7] + b[7], a[8] + b[8], a[9] + b[9]];
  }

  method FeAdd(a: Element, b: Element, ghost m: nat, ghost k: nat) returns (r: Element)
    requires Magnitude(a, m) && Magnitude(b, k) && m + k <= 8
    ensures Magnitude(r, m + k) && Val(r) == Val(a) + Val(b)
  {
    hide Fe, Magnitude;
    var s := AddLimbs(a, b, m, k);
    MagnitudeGrows(s, m + k, 8);
    r := s;
    ValIs(a);
    ValIs(b);
    ValIs(r);
  }

  /** A multiple by a small factor, without a carry. */
  method FeMulInt(a: Element, c: nat, ghost m: nat) returns (r: Element)
    requires Magnitude(a, m) && c * m <= 8
    ensures Magnitude(r, c * m) && Val(r) == c * Val(a)
  {
    FactorFits(a, c, m);
    var s: seq<Word> := [c * a[0], c * a[1], c * a[2], c * a[3], c * a[4], c * a[5], c * a[6], c * a[7], c * a[8],
      c * a[9]];
    MultipleLimbs(a, s, c, m);
    r := s;
    ValIs(a);
    ValIs(r);
  }

  lemma FactorFits(a: Element, c: nat, m: nat)
    requires Magnitude(a, m) && c * m <= 8
    ensures c * a[9] <= 2 * (c * m) * 0x3F_FFFF && forall i :: 0 <= i < 9 ==> c * a[i] <= 2 * (c * m) * 0x3FF_FFFF
    ensures forall i :: 0 <= i < 10 ==> 0 <= c * a[i] <= 0x3FFF_FFF0
  {
    forall i | 0 <= i < 9
      ensures 0 <= c * a[i] <= 2 * (c * m) * 0x3FF_FFFF <= 0x3FFF_FFF0
    {
      FactorBound(c, a[i], m, 0x3FF_FFFF);
    }
    FactorBound(c, a[9], m, 0x3F_FFFF);
  }

  lemma FactorBound(c: nat, x: nat, m: nat, k: nat)
    requires x <= 2 * m * k && c * m <= 8
    ensures 0 <= c * x <= 2 * (c * m) * k <= 16 * k
  {
    MulMono(x, 2 * m * k, c);
    assert c * (2 * m * k) == 2 * (c * m) * k;
    MulMono(2 * (c * m), 16, k);
  }

  lemma MultipleLimbs(a: Element, s: seq<Word>, c: nat, m: nat)
    requires Magnitude(a, m) && c * m <= 8 && |s| == 10 && forall i :: 0 <= i < 10 ==> s[i] == c * a[i]
    ensures Magnitude(s, c * m) && Magnitude(s, 8) && Fe(s) == c * Fe(a)
  {
    FactorFits(a, c, m);
    MultipleValue(a, s, c);
  }

  lemma MultipleValue(a: seq<int>, s: seq<int>, c: int)
    requires |a| == |s| == 10 && forall i :: 0 <= i < 10 ==> s[i] == c * a[i]
    ensures Fe(s) == c * Fe(a)
  {
    FieldMul.Distribute(c, a);
    assert Fe(s) == Limbs10(c * a[0], c * a[1], c * a[2], c * a[3], c * a[4], c * a[5], c * a[6], c * a[7], c * a[8],
        c * a[9]) by {
      hide Limbs10;
    }
    hide Fe, Limbs10;
  }

  /** Subtracts from a multiple of P; the magnitude grows by one. */
  method FeNegate(a: Element, m: nat) returns (r: Element)
    requires Magnitude(a, m) && m <= 7
    ensures Magnitude(r, m + 1) && Val(r) == 2 * (m + 1) * P - Val(a)
  {
    hide Fe, Magnitude;
    LimbCount(a);
    var x := Load(a);
    NegateElement(x, x, m);
    MagnitudeGrows(x[..], m + 1, 8);
    r := x[..];
    ValIs(a);
    ValIs(r);
  }

  method FeNormalizeWeak(a: Element) returns (r: Element)
    ensures Magnitude(r, 1) && Cong(Val(r), Val(a), P)
  {
    hide Fe, Cong, Magnitude, Wraps, Weak;
    NoWrapBelow32(a, 8);
    var x := Load(a);
    NormalizeWeak(x);
    MagnitudeGrows(x[..], 1, 8);
    r := x[..];
    ValIs(a);
    ValIs(r);
    CongIffMod(Val(r), Val(a), P);
  }

  method FeNormalize(a: Element) returns (r: Element)
    ensures Canonical(r) && Val(r) == Val(a) % P
  {
    hide Fe, Magnitude, Wraps, Canonical, Lost;
    NoWrapBelow32(a, 8);
    var x := Load(a);
    Normalize(x);
    CanonicalMagnitude(x[..]);
    r := x[..];
    ValIs(a);
    ValIs(r);
  }

  method FeNormalizeVar(a: Element) returns (r: Element)
    ensures Canonical(r) && Val(r) == Val(a) % P
  {
    hide Fe, Magnitude, Wraps, Canonical, Lost;
    NoWrapBelow32(a, 8);
    var x := Load(a);
    NormalizeVar(x);
    CanonicalMagnitude(x[..]);
    r := x[..];
    ValIs(a);
    ValIs(r);
  }

  method FeNormalizesToZero(a: Element) returns (zero: bool)
    ensures zero <==> Cong(Val(a), 0, P)
  {
    hide Fe, Cong, Magnitude, Wraps, Lost;
    NoWrapBelow32(a, 8);
    ValIs(a);
    zero := NormalizesToZero(a);
    CongZero(Val(a), P);
  }

  method FeNormalizesToZeroVar(a: Element) returns (zero: bool)
    ensures zero <==> Cong(Val(a), 0, P)
  {
    hide Fe, Cong, Magnitude, Wraps, Lost;
    NoWrapBelow32(a, 8);
    ValIs(a);
    zero := NormalizesToZeroVar(a);
    CongZero(Val(a), P);
  }

  /** Equality of residues, for a first operand of magnitude 1. */
  method FeEqual(a: Element, b: Element) returns (same: bool)
    requires Magnitude(a, 1)
    ensures same <==> Cong(Val(a), Val(b), P)
  {
    hide Fe, Cong, Magnitude, Wraps, Lost;
    var na := FeNegate(a, 1);
    var d := AddLimbs(na, b, 2, 8);
    NoWrapBelow32(d, 10);
    same := NormalizesToZero(d);
    ValIs(na);
    ValIs(b);
    CongZero(Fe(d), P);
    EqualWhenZero(Val(a), Val(b), Fe(d));
  }

  method FeEqualVar(a: Element, b: Element) returns (same: bool)
    requires Magnitude(a, 1)
    ensures same <==> Cong(Val(a), Val(b), P)
  {
    hide Fe, Cong, Magnitude, Wraps, Lost;
    var na := FeNegate(a, 1);
    var d := AddLimbs(na, b, 2, 8);
    NoWrapBelow32(d, 10);
    same := NormalizesToZeroVar(d);
    ValIs(na);
    ValIs(b);
    CongZero(Fe(d), P);
    EqualWhenZero(Val(a), Val(b), Fe(d));
  }

  lemma EqualWhenZero(a: int, b: int, d: int)
    requires d == 4 * P - a + b
    ensures Cong(d, 0, P) <==> Cong(a, b, P)
  {
    hide Cong;
    if Cong(d, 0, P) {
      var k := Quotient(d, 0, P);
      FromMultiple(a, b, 4 - k, P);
    }
    if Cong(a, b, P) {
      var k := Quotient(a, b, P);
      FromMultiple(d, 0, 4 - k, P);
    }
  }

  /** Limbs that agree above limb i compare as that limb does. */
  lemma {:induction false} CompareAt(a: Element, b: Element, i: nat, k: nat)
    requires Canonical(a) && Canonical(b) && k <= i < 10 && a[i] < b[i] && forall j :: i < j < 10 ==> a[j] == b[j]
    ensures High(a, k) < High(b, k)
    decreases i - k
  {
    if k == i {
      SameHigh(a, b, i + 1);
    } else {
      CompareAt(a, b, i, k + 1);
    }
  }

  lemma {:induction false} SameHigh(a: Element, b: Element, i: nat)
    requires i <= 10 && forall j :: i <= j < 10 ==> a[j] == b[j]
    ensures High(a, i) == High(b, i)
    decreases 10 - i
  {
    if i < 10 {
      SameHigh(a, b, i + 1);
    }
  }

  /** Compares normalized elements as numbers, from the top limb down. */
  method FeCmpVar(a: Element, b: Element) returns (c: int)
    requires Canonical(a) && Canonical(b)
    ensures c == if Val(a) > Val(b) then 1 else if Val(a) < Val(b) then -1 else 0
  {
    hide High, Canonical;
    LimbCount(a);
    LimbCount(b);
    var i := 9;
    while i >= 0
      invariant -1 <= i <= 9 && |a| == |b| == 10
      invariant forall j :: i < j < 10 ==> a[j] == b[j]
    {
      if a[i] > b[i] {
        CompareAt(b, a, i, 0);
        return 1;
      }
      if a[i] < b[i] {
        CompareAt(a, b, i, 0);
        return -1;
      }
      i := i - 1;
    }
    assert a == b;
    c := 0;
  }

  /** A small number as an element. */
  function FeInt(v: Word): (r: Element)
    requires v < 0x400_0000
    ensures Canonical(r) && Magnitude(r, 1) && Val(r) == v
  {
    var n: Element := [v, 0, 0, 0, 0, 0, 0, 0, 0, 0];
    ValIs(n);
    n
  }

  /** Whether a normalized element is zero. */
  function FeIsZero(a: Element): (zero: bool)
    requires Canonical(a)
    ensures zero <==> Val(a) == 0
  {
    ValIs(a);
    a[0] == 0 && a[1] == 0 && a[2] == 0 && a[3] == 0 && a[4] == 0 && a[5] == 0 && a[6] == 0 && a[7] == 0 && a[8] == 0 &&
    a[9] == 0
  }

  /** The parity of a normalized element. */
  function FeIsOdd(a: Element): (odd: bool)
    requires Canonical(a)
    ensures odd <==> Val(a) % 2 == 1
  {
    ValIs(a);
    a[0] % 2 == 1
  }

  /** The storage form of a normalized element. */
  function FeToStorage(a: Element): (d: Limbs)
    requires Canonical(a)
    ensures Scalar.Value(d) == Val(a)
  {
    hide Canonical, Fe, Scalar.Value;
    ValIs(a);
    FieldOctets.ToStorage(a)
  }

  /** The element that a storage form stands for. */
  function FeFromStorage(d: Limbs): (r: Element)
    ensures Canonical(r) && Val(r) == Scalar.Value(d)
  {
    hide Canonical, Fe, Scalar.Value;
    var n := FieldOctets.FromStorage(d);
    CanonicalMagnitude(n);
    ValIs(n);
    n
  }

  /** The element that 32 octets stand for, and whether they lie below P. */
  method FeSetB32(b: seq<Byte>) returns (r: Element, ok: bool)
    requires |b| == 32
    ensures Canonical(r) && Val(r) == BigEndian.Nat(b) && (ok <==> BigEndian.Nat(b) < P)
  {
    hide Canonical, Fe, BigEndian.Nat;
    var x := new Word[10];
    ok := FieldOctets.SetB32(x, b);
    CanonicalMagnitude(x[..]);
    r := x[..];
    ValIs(r);
  }

  /** The 32 octets of a normalized element. */
  method FeGetB32(a: Element) returns (b: seq<Byte>)
    requires Canonical(a)
    ensures |b| == 32 && BigEndian.Nat(b) == Val(a)
  {
    hide Canonical, Fe, BigEndian.Nat;
    var x := new Byte[32];
    FieldOctets.GetB32(x, a);
    ValIs(a);
    b := x[..];
  }
}
