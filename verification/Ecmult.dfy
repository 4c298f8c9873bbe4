/** Double multiplication by Strauss' method: one chain of doublings for a point and the generator. */
module Ecmult {
  import opened Curve
  import opened FieldElement
  import opened Formulas
  import opened Group
  import opened Jacobian
  import opened Magnitudes
  import opened Modular
  import opened Scalars
  import opened Tables
  import opened Wnaf
  import Bits
  import Scalar
  import Words

  const WINDOW_A: nat := 5
  const WINDOW_G: nat := 16

  function TableSize(w: nat): nat
    requires w >= 2
  {
    Bits.Pow2(w - 2)
  }

  /** The odd multiples of `p`, over the common z-coordinate `z`. */
  ghost predicate PointTable(pre: seq<Ge>, z: int, p: Point) {
    forall i :: 0 <= i < |pre| ==> GeDenotes(pre[i], z, Mul(2 * i + 1, p)) && !pre[i].infinity
  }

  lemma PointTableAt(pre: seq<Ge>, z: int, p: Point, i: nat, m: int)
    requires PointTable(pre, z, p) && i < |pre| && m == 2 * i + 1
    ensures GeDenotes(pre[i], z, Mul(m, p)) && !pre[i].infinity
  {
    hide GeDenotes, Mul;
  }

  /** The odd multiples of `p`, in storage form. */
  ghost predicate StorageTable(pre: seq<Storage>, p: Point) {
    forall i :: 0 <= i < |pre| ==> Mul(2 * i + 1, p) == Stored(pre[i])
  }

  lemma StorageTableAt(pre: seq<Storage>, p: Point, i: nat, m: int)
    requires StorageTable(pre, p) && i < |pre| && m == 2 * i + 1
    ensures Mul(m, p) == Stored(pre[i])
  {
    hide Mul, Stored;
  }

  /** An affine element in storage form: normalized coordinates. */
  datatype Storage = Storage(x: Limbs, y: Limbs)

  /** The point with the stored coordinates. */
  ghost function Stored(a: Storage): Point {
    Affine(Scalar.Value(a.x), Scalar.Value(a.y))
  }

  method ToStorage(a: Ge, ghost q: Point) returns (r: Storage)
    requires !a.infinity && GeDenotes(a, 1, q) && E(q)
    ensures q == Stored(r)
  {
    hide Represents, E, Scalar.Value, Val;
    NormalizedPoint(a, q);
    var x := FeNormalize(a.x);
    var y := FeNormalize(a.y);
    r := Storage(FeToStorage(x), FeToStorage(y));
  }

  lemma NormalizedPoint(a: Ge, q: Point)
    requires !a.infinity && GeDenotes(a, 1, q) && E(q)
    ensures q == Affine(Val(a.x) % P, Val(a.y) % P)
  {
    hide Val;
    RepresentsDef(Val(a.x), Val(a.y), 1, q);
    hide Represents;
    StoredCoordinate(Val(a.x), q.x, 1 * 1);
    StoredCoordinate(Val(a.y), q.y, 1 * 1 * 1);
  }

  lemma StoredCoordinate(x: int, x': int, s: int)
    requires s == 1 && Cong(x, x' * s, P) && 0 <= x' < P
    ensures x % P == x'
  {
    assert x' * s == x';
    hide Cong;
    CongIffMod(x, x', P);
  }

  function FromStorage(a: Storage): (r: Ge)
    ensures !r.infinity && (E(Stored(a)) ==> GeDenotes(r, 1, Stored(a)))
  {
    hide E, Scalar.Value, Val, Represents;
    StorageDenotes(a);
    Ge(FeFromStorage(a.x), FeFromStorage(a.y), false)
  }

  lemma StorageDenotes(a: Storage)
    ensures E(Stored(a)) ==> Represents(Scalar.Value(a.x), Scalar.Value(a.y), 1, Stored(a))
  {
    var x, y := Scalar.Value(a.x), Scalar.Value(a.y);
    RepresentsDef(x, y, 1, Stored(a));
    hide Represents, Times;
    OneIsUnit();
    assert x * (1 * 1) == x && y * (1 * 1 * 1) == y;
    Refl(x, P);
    Refl(y, P);
    hide Cong;
  }

  /** The table that the double multiplication builds for its point, over one common z-coordinate. */
  method OddMultiplesGlobalz(pre: array<Ge>, a: Gej, ghost p: Point) returns (globalz: Element)
    requires Secp256k1() && E(p) && a.Denotes(1, p) && !a.infinity
    requires pre.Length == TableSize(WINDOW_A)
    modifies pre
    ensures !Cong(Val(globalz), 0, P)
    ensures PointTable(pre[..], Val(globalz), p)
  {
    WindowSizes();
    hide *;
    var n := pre.Length;
    var prej := new Jac[n];
    var zr := new Element[n];
    ghost var zs := OddMultiplesTable(n, prej, zr, a, p);
    globalz := GlobalzSetTableGej(pre, prej[..], zr[..], zs, OddMultiples(n, p));
    IntroPointTable(pre[..], Val(globalz), p);
  }

  lemma IntroPointTable(pre: seq<Ge>, z: int, p: Point)
    requires var q := OddMultiples(|pre|, p);
      forall i :: 0 <= i < |pre| ==> GeDenotes(pre[i], z, q[i]) && !pre[i].infinity
    ensures PointTable(pre, z, p)
  {
    hide GeDenotes, Mul;
  }

  lemma WindowSizes()
    ensures TableSize(WINDOW_A) == 8 && TableSize(WINDOW_G) == 0x4000
    ensures Bits.Pow2(WINDOW_A - 1) == 16 && Bits.Pow2(WINDOW_G - 1) == 0x8000
    ensures 2 * 0x4000 < N && WINDOW_A == 5 && WINDOW_G == 16
  {
    assert Bits.Pow2(1) == 2 && Bits.Pow2(3) == 8 && Bits.Pow2(4) == 16 && Bits.Pow2(14) == 0x4000 &&
        Bits.Pow2(15) == 0x8000;
  }

  /** The table of affine odd multiples, in storage form. */
  method OddMultiplesStorage(n: nat, pre: array<Storage>, a: Gej, ghost p: Point)
    requires Secp256k1() && E(p) && a.Denotes(1, p) && !a.infinity
    requires 0 < n && 2 * n < N && pre.Length == n
    modifies pre
    ensures StorageTable(pre[..], p)
  {
    Primes();
    hide *;
    var prej := new Jac[n];
    var prea := new Ge[n];
    var zr := new Element[n];
    ghost var zs := OddMultiplesTable(n, prej, zr, a, p);
    SetTableGejVar(prea, prej[..], zr[..], zs, OddMultiples(n, p));
    StoreTable(pre, prea, p);
  }

  method StoreTable(pre: array<Storage>, prea: array<Ge>, ghost p: Point)
    requires Secp256k1() && E(p) && pre.Length == prea.Length
    requires forall i :: 0 <= i < prea.Length ==> GeDenotes(prea[i], 1, Mul(2 * i + 1, p)) && !prea[i].infinity
    modifies pre
    ensures StorageTable(pre[..], p)
  {
    hide Secp256k1, E, Mul, GeDenotes, Stored;
    var i := 0;
    while i < pre.Length
      invariant 0 <= i <= pre.Length
      invariant forall j :: 0 <= j < i ==> Mul(2 * j + 1, p) == Stored(pre[j])
    {
      MulClosed(2 * i + 1, p);
      pre[i] := ToStorage(prea[i], Mul(2 * i + 1, p));
      i := i + 1;
    }
  }

  /** The precomputed odd multiples of the generator. */
  class EcmultContext {
    var preG: array?<Storage>

    constructor ()
      ensures preG == null
    {
      preG := null;
    }

    /** A built context holds the odd multiples of the generator. */
    ghost predicate Valid()
      reads this, preG
    {
      preG != null ==> preG.Length == 0x4000 && StorageTable(preG[..], G)
    }

    method Build()
      requires Secp256k1() && Valid()
      modifies this
      ensures Valid() && preG != null
      ensures old(preG) != null ==> preG == old(preG)
    {
      if preG != null {
        return;
      }
      preG := GeneratorTable();
      BuiltContext(this);
    }
  }

  /** A new table of the odd multiples of the generator. */
  method GeneratorTable() returns (pre: array<Storage>)
    requires Secp256k1()
    ensures fresh(pre) && pre.Length == 0x4000 && StorageTable(pre[..], G)
  {
    hide *;
    GeneratorOnCurve();
    var gj := new Gej();
    gj.SetGe(GeneratorElement(), 1, G);
    WindowSizes();
    pre := new Storage[TableSize(WINDOW_G)];
    OddMultiplesStorage(TableSize(WINDOW_G), pre, gj, G);
  }

  /** The coordinates of the generator as the program writes them. */
  const GENERATOR: Storage := Storage(
    [0x16F81798, 0x59F2815B, 0x2DCE28D9, 0x029BFCDB, 0xCE870B07, 0x55A06295, 0xF9DCBBAC, 0x79BE667E],
    [0xFB10D4B8, 0x9C47D08F, 0xA6855419, 0xFD17B448, 0x0E1108A8, 0x5DA4FBFC, 0x26A3C465, 0x483ADA77])

  lemma GeneratorStored()
    ensures Stored(GENERATOR) == G
  {
  }

  /** The generator, as an affine element. */
  function GeneratorElement(): (r: Ge)
    ensures !r.infinity && GeDenotes(r, 1, G)
  {
    hide *;
    GeneratorStored();
    GeneratorOnCurve();
    FromStorage(GENERATOR)
  }

  /** The multiple c * p + d * G. */
  ghost function Comb(c: int, p: Point, d: int): Point {
    Add(Mul(c, p), Mul(d, G))
  }

  lemma CombClosed(c: int, p: Point, d: int)
    requires Secp256k1() && E(p)
    ensures E(Comb(c, p, d)) && E(Mul(c, p)) && E(Mul(d, G)) && E(G)
  {
    hide Secp256k1, E, Mul, Add;
    GeneratorOnCurve();
    MulClosed(c, p);
    MulClosed(d, G);
    Closed(Mul(c, p), Mul(d, G));
  }

  lemma CombDouble(c: int, p: Point, d: int)
    requires Secp256k1() && E(p)
    ensures Add(Comb(c, p, d), Comb(c, p, d)) == Comb(2 * c, p, 2 * d)
  {
    hide Secp256k1, E, Mul, Add;
    CombClosed(c, p, d);
    Interchange(Mul(c, p), Mul(d, G), Mul(c, p), Mul(d, G));
    MulAdd(c, c, p);
    MulAdd(d, d, G);
  }

  lemma CombLeft(c: int, p: Point, d: int, n: int)
    requires Secp256k1() && E(p)
    ensures Add(Comb(c, p, d), Mul(n, p)) == Comb(c + n, p, d)
  {
    hide Secp256k1, E, Mul, Add;
    CombClosed(c, p, d);
    CombClosed(n, p, d);
    Assoc(Mul(c, p), Mul(d, G), Mul(n, p));
    Closed(Mul(d, G), Mul(n, p));
    Assoc(Mul(c, p), Mul(n, p), Mul(d, G));
    MulAdd(c, n, p);
  }

  lemma CombRight(c: int, p: Point, d: int, n: int)
    requires Secp256k1() && E(p)
    ensures Add(Comb(c, p, d), Mul(n, G)) == Comb(c, p, d + n)
  {
    hide Secp256k1, E, Mul, Add;
    CombClosed(c, p, d);
    CombClosed(c, p, n);
    Assoc(Mul(c, p), Mul(d, G), Mul(n, G));
    MulAdd(d, n, G);
  }

  /** The addition laws apply to every pair of curve points: doubling never meets a zero y-coordinate. */
  lemma SafeToAdd(x: Point, y: Point)
    requires Secp256k1() && E(x) && E(y)
    ensures Prime(P) && OnCurve(7, x) && OnCurve(7, y) && !OrderTwo(x)
  {
    hide OnCurve, Add, Mul;
    Primes();
    if x.Affine? {
      NoTwoTorsion(x);
    }
  }

  /** The table index of an odd digit. */
  lemma TableIndex(n: int, w: nat)
    requires w >= 2 && n % 2 == 1 && Abs(n) < Bits.Pow2(w - 1)
    ensures n != 0
    ensures var m := if n > 0 then n else -n; 0 <= (m - 1) / 2 < TableSize(w) && m == 2 * ((m - 1) / 2) + 1
  {
    assert Bits.Pow2(w - 1) == 2 * Bits.Pow2(w - 2);
  }

  /** The looked-up odd multiple, over the common z-coordinate. */
  method TableGetGe(pre: array<Ge>, n: int, w: nat, ghost z: int, ghost p: Point) returns (r: Ge)
    requires Secp256k1() && E(p)
    requires w >= 2 && pre.Length == TableSize(w) && n % 2 == 1 && Abs(n) < Bits.Pow2(w - 1)
    requires PointTable(pre[..], z, p)
    ensures GeDenotes(r, z, Mul(n, p)) && !r.infinity
  {
    hide *;
    TableIndex(n, w);
    ghost var m := if n > 0 then n else -n;
    PointTableAt(pre[..], z, p, (m - 1) / 2, m);
    if n > 0 {
      r := pre[(n - 1) / 2];
    } else {
      r := GeNeg(pre[(-n - 1) / 2], z, Mul(-n, p));
      MulNeg(-n, p);
    }
  }

  method TableGetGeStorage(pre: array<Storage>, n: int, w: nat, ghost p: Point) returns (r: Ge)
    requires Secp256k1() && E(p)
    requires w >= 2 && pre.Length == TableSize(w) && n % 2 == 1 && Abs(n) < Bits.Pow2(w - 1)
    requires StorageTable(pre[..], p)
    ensures GeDenotes(r, 1, Mul(n, p)) && !r.infinity
  {
    hide *;
    TableIndex(n, w);
    ghost var m := if n > 0 then n else -n;
    StorageTableAt(pre[..], p, (m - 1) / 2, m);
    MulClosed(m, p);
    if n > 0 {
      r := FromStorage(pre[(n - 1) / 2]);
    } else {
      r := FromStorage(pre[(-n - 1) / 2]);
      r := GeNeg(r, 1, Mul(-n, p));
      MulNeg(-n, p);
    }
  }

  /** r := r + n * p for a digit n of the point's recoding. */
  method AddPointDigit(r: Gej, preA: array<Ge>, n: int, ghost z: int, ghost c: int, ghost p: Point, ghost d: int)
    requires Secp256k1() && E(p) && r.Denotes(z, Comb(c, p, d))
    requires Digit(n, WINDOW_A) && n != 0 && preA.Length == TableSize(WINDOW_A)
    requires PointTable(preA[..], z, p)
    modifies r
    ensures r.Denotes(z, Comb(c + n, p, d))
  {
    hide Secp256k1, E, Mul, GeDenotes, TableSize, Bits.Pow2, OnCurve, Add, Comb, PointTable, StorageTable;
    var tmpa := TableGetGe(preA, n, WINDOW_A, z, p);
    CombClosed(c, p, d);
    MulClosed(n, p);
    SafeToAdd(Comb(c, p, d), Mul(n, p));
    CombLeft(c, p, d, n);
    var _ := r.AddGeVar(r, tmpa, 7, z, Comb(c, p, d), Mul(n, p));
  }

  /** r := r + n * G for a digit n of the generator's recoding, whose table is affine: its z-ratio to r is 1 / z. */
  method AddGeneratorDigit(r: Gej, preG: array<Storage>, n: int, z: Element, ghost c: int, ghost p: Point,
      ghost d: int)
    requires Secp256k1() && E(p) && r.Denotes(Val(z), Comb(c, p, d)) && !Cong(Val(z), 0, P)
    requires Digit(n, WINDOW_G) && n != 0 && preG.Length == TableSize(WINDOW_G)
    requires StorageTable(preG[..], G)
    modifies r
    ensures r.Denotes(Val(z), Comb(c, p, d + n))
  {
    Refl(Val(z), P);
    hide Val, Secp256k1, E, Mul, GeDenotes, TableSize, Bits.Pow2, OnCurve, Add, Comb, PointTable, StorageTable, Cong;
    CombClosed(c, p, n);
    var tmpa := TableGetGeStorage(preG, n, WINDOW_G, G);
    CombClosed(c, p, d);
    SafeToAdd(Comb(c, p, d), Mul(n, G));
    CombRight(c, p, d, n);
    assert 1 * Val(z) == Val(z);
    r.AddZinvVar(r, tmpa, z, 7, Val(z), 1, Comb(c, p, d), Mul(n, G));
  }

  method DoubleComb(r: Gej, ghost z: int, ghost c: int, ghost p: Point, ghost d: int)
    requires Secp256k1() && E(p) && r.Denotes(z, Comb(c, p, d))
    modifies r
    ensures r.Denotes(z, Comb(2 * c, p, 2 * d))
  {
    hide Secp256k1, E, Mul, OnCurve, Add, Comb;
    CombClosed(c, p, d);
    SafeToAdd(Comb(c, p, d), Comb(c, p, d));
    CombDouble(c, p, d);
    var _ := r.DoubleVar(r, 7, z, Comb(c, p, d));
  }

  /** A recoding that is all zeros from `bits` on. */
  ghost predicate Recoding(d: seq<int>, bits: nat, w: nat) {
    w > 0 && bits <= |d| && Digits(d, w) && forall i :: bits <= i < |d| ==> d[i] == 0
  }

  lemma RecodingStep(d: seq<int>, bits: nat, w: nat, i: nat)
    requires Recoding(d, bits, w) && i < |d|
    ensures From(d, i, 2) == 2 * From(d, i + 1, 2) + d[i]
    ensures w > 0 && Digit(d[i], w) && (i >= bits ==> d[i] == 0)
  {
    FromStep(d, i, 2);
    hide From, Digit;
  }

  lemma StraussStart(r: Gej, z: int, da: seq<int>, bitsA: nat, dg: seq<int>, bitsG: nat, p: Point)
    requires Recoding(da, bitsA, WINDOW_A) && Recoding(dg, bitsG, WINDOW_G) && |da| == |dg| && r.infinity
    ensures bitsA <= |da| && bitsG <= |dg|
    ensures var bits := if bitsG > bitsA then bitsG else bitsA;
      r.Denotes(z, Comb(From(da, bits, 2), p, From(dg, bits, 2)))
  {
    CombZero(p);
    hide Comb, Digits, From;
    var bits := if bitsG > bitsA then bitsG else bitsA;
    FromZeros(da, bits, 2);
    FromZeros(dg, bits, 2);
  }

  lemma CombZero(p: Point)
    ensures Comb(0, p, 0) == Infinity
  {
  }

  /** The shared chain of doublings, over the common z-coordinate `z` of the point's table. */
  method StraussLoop(r: Gej, preA: array<Ge>, preG: array<Storage>, z: Element, wnafNa: array<int>, bitsNa: nat,
      wnafNg: array<int>, bitsNg: nat, ghost p: Point)
    requires Secp256k1() && E(p) && !Cong(Val(z), 0, P)
    requires preA.Length == TableSize(WINDOW_A) && preG.Length == TableSize(WINDOW_G)
    requires PointTable(preA[..], Val(z), p)
    requires StorageTable(preG[..], G)
    requires wnafNa.Length == wnafNg.Length == 256
    requires Recoding(wnafNa[..], bitsNa, WINDOW_A) && Recoding(wnafNg[..], bitsNg, WINDOW_G)
    modifies r
    ensures r.Denotes(Val(z), Comb(Horner(wnafNa[..], 2), p, Horner(wnafNg[..], 2)))
  {
    hide *;
    ghost var da, dg := wnafNa[..], wnafNg[..];
    var bits := if bitsNg > bitsNa then bitsNg else bitsNa;
    r.SetInfinity();
    StraussStart(r, Val(z), da, bitsNa, dg, bitsNg, p);
    var i := bits - 1;
    while i >= 0
      invariant -1 <= i < bits
      invariant r.Denotes(Val(z), Comb(From(da, i + 1, 2), p, From(dg, i + 1, 2)))
    {
      RecodingStep(da, bitsNa, WINDOW_A, i);
      RecodingStep(dg, bitsNg, WINDOW_G, i);
      DoubleComb(r, Val(z), From(da, i + 1, 2), p, From(dg, i + 1, 2));
      if i < bitsNa && wnafNa[i] != 0 {
        AddPointDigit(r, preA, wnafNa[i], Val(z), 2 * From(da, i + 1, 2), p, 2 * From(dg, i + 1, 2));
      }
      if i < bitsNg && wnafNg[i] != 0 {
        AddGeneratorDigit(r, preG, wnafNg[i], z, From(da, i, 2), p, 2 * From(dg, i + 1, 2));
      }
      i := i - 1;
    }
    FromStart(da, 2);
    FromStart(dg, 2);
  }

  lemma Unscaled(x: int, y: int, z0: int, z: int, z': int, q: Point)
    requires Represents(x, y, z0 * z, q) && Cong(z', z0 * z, P)
    ensures Represents(x, y, z' * 1, q)
  {
    assert z' * 1 == z';
    hide Cong;
    RescaleRepresents(x, y, z0 * z, z' * 1, q);
  }

  /** The multiplication by the common z-coordinate that takes the result off the shared curve. */
  method Unscale(r: Gej, z: Element, ghost q: Point)
    requires r.Denotes(Val(z), q)
    modifies r
    ensures r.Denotes(1, q)
  {
    hide Val, Represents, Cong, Magnitude;
    ghost var z0 := Val(r.z);
    r.z := FeMul(r.z, z);
    if !r.infinity {
      Unscaled(Val(r.x), Val(r.y), z0, Val(z), Val(r.z), q);
    }
  }

  /** r := na * a + ng * G, for every finite point a and all scalars. r may be a. */
  method Ecmult(ctx: EcmultContext, r: Gej, a: Gej, na: seq<Words.Word>, ng: seq<Words.Word>, ghost p: Point)
    requires Secp256k1() && E(p) && a.Denotes(1, p) && !a.infinity
    requires ctx.Valid() && ctx.preG != null
    requires |na| == |ng| == 8 && Scalar.Value(na) < Scalar.N && Scalar.Value(ng) < Scalar.N
    modifies r
    ensures r.Denotes(1, Add(Mul(Scalar.Value(na), p), Mul(Scalar.Value(ng), G)))
  {
    hide *;
    WindowSizes();
    SignedResidues(Scalar.Value(na), Scalar.Value(ng), p);
    BuiltTable(ctx);
    var wnafNa, bitsNa := Recode(na, WINDOW_A);
    var preA := new Ge[8];
    var z := OddMultiplesGlobalz(preA, a, p);
    var wnafNg, bitsNg := Recode(ng, WINDOW_G);
    StraussLoop(r, preA, ctx.preG, z, wnafNa, bitsNa, wnafNg, bitsNg, p);
    ghost var q := Comb(Signed(Scalar.Value(na)), p, Signed(Scalar.Value(ng)));
    if !r.infinity {
      Unscale(r, z, q);
    } else {
      InfiniteAnywhere(r, Val(z), q);
    }
  }

  lemma InfiniteAnywhere(r: Gej, z: int, q: Point)
    requires r.infinity && r.Denotes(z, q)
    ensures r.Denotes(1, q)
  {
  }

  lemma BuiltContext(ctx: EcmultContext)
    requires ctx.preG != null && ctx.preG.Length == 0x4000 && StorageTable(ctx.preG[..], G)
    ensures ctx.Valid()
  {
    hide StorageTable;
  }

  lemma BuiltTable(ctx: EcmultContext)
    requires ctx.Valid() && ctx.preG != null
    ensures ctx.preG.Length == 0x4000 && StorageTable(ctx.preG[..], G)
  {
    hide StorageTable;
  }

  /** The recoding of a scalar at full length. */
  method Recode(a: seq<Words.Word>, w: nat) returns (wnaf: array<int>, bits: nat)
    requires |a| == 8 && Scalar.Value(a) < Scalar.N && 2 <= w <= 31
    ensures fresh(wnaf) && wnaf.Length == 256
    ensures Recoding(wnaf[..], bits, w) && Horner(wnaf[..], 2) == Signed(Scalar.Value(a))
  {
    hide Digits, Spaced, Horner, Signed, Abs, Bits.Pow2, Scalar.Value, Scalar.N;
    wnaf := new int[256];
    bits := EcmultWnaf(wnaf, a, w);
  }

  lemma SignedResidues(a: int, b: int, p: Point)
    requires Secp256k1() && E(p)
    ensures Comb(Signed(a), p, Signed(b)) == Add(Mul(a, p), Mul(b, G))
  {
    hide Secp256k1, E, Mul;
    GeneratorOnCurve();
    SignedCong(a);
    SignedCong(b);
    MulMod(Signed(a), a, p);
    MulMod(Signed(b), b, G);
  }

  lemma SignedCong(a: int)
    ensures Cong(Signed(a), a, N)
  {
    FromMultiple(Signed(a), a, if a >= Scalar.R256 / 2 then -1 else 0, N);
  }
}
