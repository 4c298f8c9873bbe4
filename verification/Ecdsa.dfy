/** Signing, verification and public key recovery. */
module Ecdsa {
  import opened Curve
  import opened Ecmult
  import opened EcmultGen
  import opened Fermat
  import opened FieldElement
  import opened Formulas
  import opened Group
  import opened Jacobian
  import opened Lift
  import opened Magnitudes
  import opened Modular
  import opened Tables
  import opened Unified
  import opened Scalars
  import PowerChains
  import Scalar
  import ScalarOctets

  /** Scalar inversion; only its value at zero is not an inverse. */
  ghost function Inv(a: int): int {
    Pow(a, N - 2)
  }

  lemma InvIsInverse(a: int)
    requires Prime(N) && !Cong(a, 0, N)
    ensures Cong(a * Inv(a), 1, N)
  {
    assert PowerChains.PowerOf(Inv(a), a, N - 2, N) by {
      Refl(Inv(a), N);
    }
    hide Cong, Prime, Pow;
    PowerChains.PowerIsInverse(Inv(a), a, N);
  }

  lemma ScalarUnit(a: int)
    requires 0 < a < N
    ensures !Cong(a, 0, N)
  {
    hide Cong;
    UnitBelow(a, N);
  }

  method ScalarInverse(a: Limbs) returns (r: Limbs)
    ensures 0 <= Scalar.Value(r) < N && Cong(Scalar.Value(r), Inv(Scalar.Value(a)), N)
  {
    hide Cong, Pow, Scalar.Value;
    r := PowerChains.ScalarInverse(a);
    Scalar.ValueRange(r);
  }

  method ScalarMul(a: Limbs, b: Limbs) returns (r: Limbs)
    ensures 0 <= Scalar.Value(r) < N && Cong(Scalar.Value(r), Scalar.Value(a) * Scalar.Value(b), N)
  {
    hide Cong, Scalar.Value;
    r := Product(a, b);
    ModCong(Scalar.Value(a) * Scalar.Value(b), N);
  }

  /** The point that verification recomputes. */
  ghost function Recomputed(r: int, s: int, m: int, q: Point): Point {
    Add(Mul(Inv(s) * r, q), Mul(Inv(s) * m, G))
  }

  /** The verification equation. */
  ghost predicate Accepts(r: int, s: int, m: int, q: Point) {
    r != 0 && s != 0 && Recomputed(r, s, m, q).Affine? && Recomputed(r, s, m, q).x % N == r
  }

  /** Scaling by s undoes the inverse. */
  lemma TimesInverse(s: int, k: int, q: Point)
    requires Secp256k1() && E(q) && 0 < s < N
    ensures Mul(s, Mul(Inv(s) * k, q)) == Mul(k, q)
  {
    hide *;
    SameOrder();
    Primes();
    ScalarUnit(s);
    InvIsInverse(s);
    MulMul(s, Inv(s) * k, q);
    ScaledResidue(s * Inv(s), 1, k);
    assert (s * Inv(s)) * k == s * (Inv(s) * k);
    MulMod(s * (Inv(s) * k), k, q);
  }

  /** The recomputed point, without a division: s times it is r * q + m * G. */
  lemma RecomputedTimes(r: int, s: int, m: int, q: Point)
    requires Secp256k1() && E(q) && 0 < s < N
    ensures Mul(s, Recomputed(r, s, m, q)) == Add(Mul(r, q), Mul(m, G)) && E(Recomputed(r, s, m, q))
  {
    hide *;
    SameOrder();
    GeneratorOnCurve();
    RecomputedDef(r, s, m, q);
    RecomputedClosed(r, s, m, q);
    MulClosed(Inv(s) * r, q);
    MulClosed(Inv(s) * m, G);
    MulPlus(s, Mul(Inv(s) * r, q), Mul(Inv(s) * m, G));
    TimesInverse(s, r, q);
    TimesInverse(s, m, G);
  }

  /** Multiplication by a unit is injective. */
  lemma SameMultiple(s: int, x: Point, y: Point)
    requires Secp256k1() && E(x) && E(y) && 0 < s < N && Mul(s, x) == Mul(s, y)
    ensures x == y
  {
    hide *;
    SameOrder();
    Primes();
    ScalarUnit(s);
    InvIsInverse(s);
    assert Inv(s) * s == s * Inv(s);
    MulMul(Inv(s), s, x);
    MulMul(Inv(s), s, y);
    MulMod(Inv(s) * s, 1, x);
    MulMod(Inv(s) * s, 1, y);
    MulOne(x);
    MulOne(y);
  }

  /** `x` is a point R with s * R = r * q + m * G whose x-coordinate reduces to r. */
  ghost predicate Witness(r: int, s: int, m: int, q: Point, x: Point) {
    E(x) && x.Affine? && x.x % N == r && Mul(s, x) == Add(Mul(r, q), Mul(m, G))
  }

  /** The verification equation, without a division. */
  lemma AcceptsIff(r: int, s: int, m: int, q: Point)
    requires Secp256k1() && E(q) && 0 <= r < N && 0 <= s < N
    ensures Accepts(r, s, m, q) <==> r != 0 && s != 0 && exists x :: Witness(r, s, m, q, x)
  {
    if r != 0 && s != 0 {
      RecomputedTimes(r, s, m, q);
      hide Secp256k1, E, Mul, Add, Recomputed;
      if Accepts(r, s, m, q) {
        assert Witness(r, s, m, q, Recomputed(r, s, m, q));
      }
      forall x | Witness(r, s, m, q, x)
        ensures x == Recomputed(r, s, m, q)
      {
        SameMultiple(s, x, Recomputed(r, s, m, q));
      }
    }
  }

  /** The equation does not depend on how the inverse is computed. */
  lemma AnyInverse(r: int, s: int, m: int, q: Point, w: int)
    requires Secp256k1() && E(q) && 0 < s < N && Cong(w * s, 1, N)
    ensures Recomputed(r, s, m, q) == Add(Mul(w * r, q), Mul(w * m, G))
  {
    hide Secp256k1, E, Add, Mul, Cong, Inv;
    Primes();
    hide Prime;
    ScalarUnit(s);
    InvIsInverse(s);
    SameInverse(w, Inv(s), s);
    GeneratorOnCurve();
    ScaledResidue(Inv(s), w, r);
    ScaledResidue(Inv(s), w, m);
    MulMod(Inv(s) * r, w * r, q);
    MulMod(Inv(s) * m, w * m, G);
  }

  lemma SameInverse(w: int, v: int, s: int)
    requires Cong(w * s, 1, N) && Cong(s * v, 1, N)
    ensures Cong(v, w, N)
  {
    hide Cong;
    Refl(v, N);
    Refl(w, N);
    MulCong(w * s, 1, v, v, N);
    MulCong(s * v, 1, w, w, N);
    assert (w * s) * v == (s * v) * w;
    Sym((w * s) * v, 1 * v, N);
    Trans(v, (w * s) * v, w, N);
  }

  lemma ScaledResidue(a: int, b: int, k: int)
    requires Cong(a, b, N)
    ensures Cong(a * k, b * k, N)
  {
    hide Cong;
    Refl(k, N);
    MulCong(a, b, k, k, N);
  }

  /** Compares an x-coordinate with a Jacobian element, without a division. */
  method GejEqXVar(x: Element, a: Gej, ghost q: Point) returns (eq: bool)
    requires Prime(P) && E(q) && a.Denotes(1, q) && !a.infinity
    ensures eq <==> Cong(Val(x), q.x, P)
  {
    hide Represents, Prime, Cong, E, Val, Magnitude;
    RepresentsParts(Val(a.x), Val(a.y), Val(a.z) * 1, q);
    var r := FeSqr(a.z);
    ghost var zz := Val(r);
    r := FeMul(r, x);
    var r2 := FeNormalizeWeak(a.x);
    eq := FeEqualVar(r, r2);
    EqualX(Val(x), Val(a.x), Val(a.z), zz, Val(r), Val(r2), q.x);
  }

  lemma Factored(a: int, b: int, c: int)
    ensures a * c - c * b == (a - b) * c
  {
  }

  lemma EqualX(x: int, ax: int, z: int, zz: int, r: int, r2: int, qx: int)
    requires Prime(P) && !Cong(z * 1, 0, P) && Cong(ax, qx * ((z * 1) * (z * 1)), P)
    requires Cong(zz, z * z, P) && Cong(r, zz * x, P) && Cong(r2, ax, P)
    ensures Cong(r, r2, P) <==> Cong(x, qx, P)
  {
    hide Prime, Cong;
    assert z * 1 == z;
    SubCongZero(qx, x);
    ScaleUnit(z, z);
    Refl(x, P);
    MulTo(r, zz, z * z, x, x);
    Trans(r2, ax, qx * (z * z), P);
    AddCong(r2, qx * (z * z), r, (z * z) * x, P);
    Factored(qx, x, z * z);
    ZeroWhenScaled(r2 - r, qx - x, z * z);
    SubCongZero(r2, r);
    if Cong(x, qx, P) {
      Sym(x, qx, P);
      Sym(r2, r, P);
    }
    if Cong(r, r2, P) {
      Sym(r, r2, P);
      Sym(qx, x, P);
    }
  }

  /** The order is below the field size by less than itself, so a residue has at most two x-coordinates. */
  lemma TwoCandidates(r: int, x: int)
    requires 0 <= r < N && 0 <= x < P
    ensures x % N == r <==> Cong(r, x, P) || (r < P - N && Cong(r + N, x, P))
  {
    hide Cong;
    Refl(x, P);
    assert x % N == if x < N then x else x - N;
    if Cong(r, x, P) {
      CongUnique(r, x, P);
    }
    if r < P - N && Cong(r + N, x, P) {
      CongUnique(r + N, x, P);
    }
  }

  /** Verification, which decides the verification equation. */
  method Verify(ctx: EcmultContext, sigr: Limbs, sigs: Limbs, pubkey: Ge, message: Limbs, ghost q: Point)
    returns (ok: bool)
    requires Secp256k1() && ctx.Valid() && ctx.preG != null
    requires Scalar.Value(sigr) < Scalar.N && Scalar.Value(sigs) < Scalar.N && Scalar.Value(message) < Scalar.N
    requires E(q) && GeDenotes(pubkey, 1, q) && !pubkey.infinity
    ensures ok <==> Accepts(Scalar.Value(sigr), Scalar.Value(sigs), Scalar.Value(message), q)
  {
    hide *;
    ghost var r, s, m := Scalar.Value(sigr), Scalar.Value(sigs), Scalar.Value(message);
    if Scalar.IsZero(sigr) || Scalar.IsZero(sigs) {
      ZeroRejected(r, s, m, q);
      return false;
    }
    Scalar.ValueRange(sigr);
    Scalar.ValueRange(sigs);
    var pr := new Gej();
    RecomputePoint(ctx, pr, sigr, sigs, pubkey, message, q);
    ghost var v := Recomputed(r, s, m, q);
    RecomputedClosed(r, s, m, q);
    if pr.infinity {
      InfinityRejected(pr, r, s, m, q);
      return false;
    }
    FiniteDenotes(pr, v);
    Primes();
    AcceptsCandidates(r, s, m, q);
    var xr := ScalarAsField(sigr);
    var eq := GejEqXVar(xr, pr, v);
    if eq {
      return true;
    }
    FieldConstants();
    var c := FeCmpVar(xr, FeFromStorage(P_MINUS_ORDER));
    if c >= 0 {
      return false;
    }
    xr := AddOrder(xr);
    ok := GejEqXVar(xr, pr, v);
  }

  /** The order as a field element, and what it lacks to P, as the program writes them. */
  const ORDER_AS_FE: Limbs :=
    [0xD0364141, 0xBFD25E8C, 0xAF48A03B, 0xBAAEDCE6, 0xFFFFFFFE, 0xFFFFFFFF, 0xFFFFFFFF, 0xFFFFFFFF]
  const P_MINUS_ORDER: Limbs := [0x2FC9BAEE, 0x402DA172, 0x50B75FC4, 0x45512319, 1, 0, 0, 0]

  lemma FieldConstants()
    ensures Scalar.Value(ORDER_AS_FE) == Scalar.N && Scalar.Value(P_MINUS_ORDER) == P - Scalar.N
  {
  }

  /** A scalar as a field element, by way of its octets. */
  method ScalarAsField(d: Limbs) returns (x: Element)
    requires Scalar.Value(d) < Scalar.N
    ensures Canonical(x) && Val(x) == Scalar.Value(d)
  {
    hide *;
    var ok;
    x, ok := FeSetB32(ScalarOctets.ToOctets(d));
  }

  /** Adds the order to a field element below P - N. */
  method AddOrder(x: Element) returns (r: Element)
    requires Canonical(x)
    ensures Val(r) == Val(x) + Scalar.N
  {
    hide *;
    FieldConstants();
    CanonicalMagnitude(x);
    var n := FeFromStorage(ORDER_AS_FE);
    CanonicalMagnitude(n);
    r := FeAdd(x, n, 1, 1);
  }

  /** The double multiplication of verification. */
  method RecomputePoint(ctx: EcmultContext, pr: Gej, sigr: Limbs, sigs: Limbs, pubkey: Ge, message: Limbs,
      ghost q: Point)
    requires Secp256k1() && ctx.Valid() && ctx.preG != null
    requires E(q) && GeDenotes(pubkey, 1, q) && !pubkey.infinity
    modifies pr
    ensures pr.Denotes(1, Recomputed(Scalar.Value(sigr), Scalar.Value(sigs), Scalar.Value(message), q))
  {
    hide *;
    var sn := ScalarInverse(sigs);
    var u1 := ScalarMul(sn, message);
    var u2 := ScalarMul(sn, sigr);
    var pubkeyj := new Gej();
    pubkeyj.SetGe(pubkey, 1, q);
    SameOrder();
    Ecmult.Ecmult(ctx, pr, pubkeyj, u2, u1, q);
    MultipliersReduced(Scalar.Value(sn), Scalar.Value(u1), Scalar.Value(u2),
      Scalar.Value(sigr), Scalar.Value(sigs), Scalar.Value(message), q);
  }

  lemma MultipliersReduced(sn: int, u1: int, u2: int, r: int, s: int, m: int, q: Point)
    requires Secp256k1() && E(q) && Cong(sn, Inv(s), N) && Cong(u1, sn * m, N) && Cong(u2, sn * r, N)
    ensures Add(Mul(u2, q), Mul(u1, G)) == Recomputed(r, s, m, q)
  {
    hide Secp256k1, E, Add, Mul, Cong, Inv;
    GeneratorOnCurve();
    ScaledResidue(sn, Inv(s), m);
    ScaledResidue(sn, Inv(s), r);
    Trans(u1, sn * m, Inv(s) * m, N);
    Trans(u2, sn * r, Inv(s) * r, N);
    MulMod(u1, Inv(s) * m, G);
    MulMod(u2, Inv(s) * r, q);
  }

  lemma ZeroRejected(r: int, s: int, m: int, q: Point)
    requires r == 0 || s == 0
    ensures !Accepts(r, s, m, q)
  {
  }

  lemma InfinityRejected(pr: Gej, r: int, s: int, m: int, q: Point)
    requires pr.Denotes(1, Recomputed(r, s, m, q)) && pr.infinity
    ensures !Accepts(r, s, m, q)
  {
    hide Recomputed;
  }

  lemma FiniteDenotes(pr: Gej, q: Point)
    requires pr.Denotes(1, q) && !pr.infinity
    ensures q.Affine?
  {
  }

  lemma RecomputedClosed(r: int, s: int, m: int, q: Point)
    requires Secp256k1() && E(q)
    ensures E(Recomputed(r, s, m, q))
  {
    hide Secp256k1, E, Add, Mul, Inv;
    GeneratorOnCurve();
    MulClosed(Inv(s) * r, q);
    MulClosed(Inv(s) * m, G);
    Closed(Mul(Inv(s) * r, q), Mul(Inv(s) * m, G));
  }

  lemma AcceptsCandidates(r: int, s: int, m: int, q: Point)
    requires 0 < r < Scalar.N && s != 0 && E(Recomputed(r, s, m, q)) && Recomputed(r, s, m, q).Affine?
    ensures var x := Recomputed(r, s, m, q).x;
      Accepts(r, s, m, q) <==> Cong(r, x, P) || (r < P - Scalar.N && Cong(r + Scalar.N, x, P))
  {
    hide Recomputed, Cong;
    TwoCandidates(r, Recomputed(r, s, m, q).x);
  }

  /** The point or its negation. */
  ghost function Twin(e: int, q: Point): Point {
    if e == 1 then q else Neg(q)
  }

  /** What signing returns: the reduced x-coordinate of the nonce point, a low s, and how to find the point again. */
  ghost predicate Signed(r: int, s: int, recid: int, e: int, d: int, m: int, k: int) {
    var p := Mul(k, G);
    && p.Affine? && r == p.x % N && 0 < s <= N / 2
    && (e == 1 || e == -1) && Cong(s * k, e * (r * d + m), N)
    && Twin(e, p).Affine? && recid == (if p.x >= N then 2 else 0) + Twin(e, p).y % 2
  }

  /** The recovery id that signing returns, read off the multiple e * k of the generator. */
  lemma SignedRecid(r: int, s: int, recid: int, e: int, d: int, m: int, k: int)
    requires Secp256k1() && Signed(r, s, recid, e, d, m, k)
    ensures var p := Mul(e * k, G);
      && p.Affine? && p.x == Mul(k, G).x && 0 <= recid < 4 && p.y % 2 == recid % 2
      && p.x == (if recid >= 2 then r + N else r)
  {
    SignedFacts(r, s, recid, e, d, m, k);
    TwinMultiple(e, k);
    TwinFacts(e, Mul(k, G));
    hide *;
    GeneratorOnCurve();
    MulClosed(k, G);
    PointRange(Mul(k, G));
    OrderSize(Mul(k, G).x);
    SameOrder();
    SameField();
  }

  /** Signing fails only when s would be zero, as it is for the nonce zero. */
  method Sign(ctx: EcmultGenContext, seckey: Limbs, message: Limbs, nonce: Limbs)
    returns (ok: bool, sigr: Limbs, sigs: Limbs, recid: int, ghost e: int)
    requires Secp256k1() && ctx.Valid() && ctx.prec != null
    requires Scalar.Value(seckey) < Scalar.N && Scalar.Value(message) < Scalar.N && Scalar.Value(nonce) < Scalar.N
    ensures ok ==> Signed(Scalar.Value(sigr), Scalar.Value(sigs), recid, e, Scalar.Value(seckey),
                     Scalar.Value(message), Scalar.Value(nonce))
    ensures var k := Scalar.Value(nonce);
      k != 0 ==> Mul(k, G).Affine? && Scalar.Value(sigr) == Mul(k, G).x % N
    ensures ok <==> Scalar.Value(nonce) != 0 &&
                    !Cong(Scalar.Value(sigr) * Scalar.Value(seckey) + Scalar.Value(message), 0, N)
    ensures !ok ==> Scalar.Value(sigs) == 0
  {
    hide *;
    ghost var d, m, k := Scalar.Value(seckey), Scalar.Value(message), Scalar.Value(nonce);
    Scalar.ValueRange(nonce);
    var x, y := NoncePoint(ctx, nonce);
    SameOrder();
    OrderSize(Val(x));
    var overflow;
    var b := FeGetB32(x);
    sigr, overflow := FromOctets(b);
    ghost var r := Scalar.Value(sigr);
    recid := (if overflow then 2 else 0) + (if FeIsOdd(y) then 1 else 0);
    var n := ScalarMul(sigr, seckey);
    ghost var rd := Scalar.Value(n);
    n := Scalars.Sum(n, message);
    sigs := ScalarInverse(nonce);
    ghost var ki := Scalar.Value(sigs);
    sigs := ScalarMul(sigs, n);
    e := 1;
    ghost var s0 := Scalar.Value(sigs);
    if k != 0 {
      SignEquation(k, ki, Scalar.Value(n), rd, r, d, m, s0);
    } else {
      NoInverse(ki, Scalar.Value(n), s0);
    }
    ok := !Scalar.IsZero(sigs);
    if !ok {
      return;
    }
    Scalar.ValueRange(sigs);
    var high := Scalar.IsHigh(sigs);
    if high {
      sigs := Negated(sigs);
      recid := if recid % 2 == 0 then recid + 1 else recid - 1;
      e := -1;
    }
    SignedIntro(Val(x), Val(y), s0, Scalar.Value(sigs), recid, e, r, d, m, k);
  }

  /** For the nonce zero, inversion gives zero, and so does the product. */
  lemma NoInverse(ki: int, n: int, s: int)
    requires Cong(ki, Inv(0), N) && Cong(s, ki * n, N) && 0 <= s < N
    ensures s == 0
  {
    assert Pow(0, N - 2) == 0 * Pow(0, N - 3);
    hide Cong, Pow;
    Refl(n, N);
    MulCong(ki, 0, n, n, N);
    Trans(s, ki * n, 0, N);
    CongUnique(s, 0, N);
  }

  lemma NonceFinite(k: int)
    requires Secp256k1() && 0 < k < Scalar.N
    ensures E(Mul(k, G)) && Mul(k, G).Affine? && Mul(k, G).y != 0
  {
    hide Secp256k1, E, Mul;
    GeneratorOnCurve();
    MulClosed(k, G);
    NoSmallOrder(k, G);
    NoTwoTorsion(Mul(k, G));
  }

  lemma OrderSize(x: int)
    requires 0 <= x < P
    ensures 0 <= x % N == (if x >= Scalar.N then x - Scalar.N else x) < Scalar.N
  {
  }

  /** The normalized coordinates of the nonce point; for the nonce zero, whatever the coordinates of infinity hold. */
  method NoncePoint(ctx: EcmultGenContext, nonce: Limbs) returns (x: Element, y: Element)
    requires Secp256k1() && ctx.Valid() && ctx.prec != null && Scalar.Value(nonce) < Scalar.N
    ensures Canonical(x) && Canonical(y) && 0 <= Val(x) < P && 0 <= Val(y) < P
    ensures Scalar.Value(nonce) != 0 ==> Mul(Scalar.Value(nonce), G) == Affine(Val(x), Val(y)) && 0 < Val(y)
  {
    hide *;
    SameField();
    ghost var k := Scalar.Value(nonce);
    Scalar.ValueRange(nonce);
    var rp := new Gej();
    ctx.EcmultGen(rp, nonce);
    Primes();
    var ge := SetGej(rp, 1, Mul(k, G));
    x := FeNormalize(ge.x);
    y := FeNormalize(ge.y);
    if k != 0 {
      NonceFinite(k);
      FiniteGe(ge, Mul(k, G));
      NormalizedPoint(ge, Mul(k, G));
    }
  }

  lemma FiniteGe(a: Ge, q: Point)
    requires GeDenotes(a, 1, q) && q.Affine?
    ensures !a.infinity
  {
  }

  /** Before the choice of sign: s times the nonce is the signed sum. */
  lemma SignEquation(k: int, ki: int, n: int, rd: int, r: int, d: int, m: int, s: int)
    requires Secp256k1() && 0 < k < Scalar.N && Cong(ki, Inv(k), N) && 0 <= s < N
    requires Cong(rd, r * d, N) && n == (rd + m) % Scalar.N
    requires Cong(s, ki * n, N)
    ensures Cong(s * k, r * d + m, N)
    ensures s == 0 <==> Cong(r * d + m, 0, N)
  {
    hide Secp256k1, Cong, Inv, Prime;
    Primes();
    var t := r * d + m;
    Refl(m, N);
    AddCong(rd, r * d, m, m, N);
    ModCong(rd + m, N);
    Trans(n, rd + m, t, N);
    NonceTimes(k, ki, n, s, t);
    if s == 0 {
      Sym(s * k, t, N);
    }
    if Cong(t, 0, N) {
      ZeroSum(k, s, t);
    }
  }

  lemma NonceTimes(k: int, ki: int, n: int, s: int, t: int)
    requires Prime(N) && 0 < k < N && Cong(ki, Inv(k), N) && Cong(s, ki * n, N) && Cong(n, t, N)
    ensures Cong(s * k, t, N)
  {
    ScalarUnit(k);
    hide Cong, Prime, Inv;
    InvIsInverse(k);
    Refl(k, N);
    Refl(n, N);
    MulCong(k, k, ki, Inv(k), N);
    Trans(k * ki, k * Inv(k), 1, N);
    MulCong(k * ki, 1, n, n, N);
    MulCong(s, ki * n, k, k, N);
    assert (ki * n) * k == (k * ki) * n;
    Trans(s * k, (k * ki) * n, n, N);
    Trans(s * k, n, t, N);
  }

  lemma ZeroSum(k: int, s: int, t: int)
    requires Prime(N) && 0 < k < N && 0 <= s < N && Cong(s * k, t, N) && Cong(t, 0, N)
    ensures s == 0
  {
    ScalarUnit(k);
    hide Cong, Prime;
    Trans(s * k, t, 0, N);
    Euclid(s, k, N);
    CongUnique(s, 0, N);
  }

  lemma NegatedTimes(s: int, k: int, t: int)
    requires Cong(s * k, t, N)
    ensures Cong((N - s) * k, -1 * t, N)
  {
    hide Cong;
    var l := Quotient(s * k, t, N);
    assert (N - s) * k == N * k - s * k;
    FromMultiple((N - s) * k, -1 * t, k - l, N);
  }

  lemma TwinParity(x: int, y: int)
    requires 0 < y < P
    ensures Twin(1, Affine(x, y)) == Affine(x, y)
    ensures Twin(-1, Affine(x, y)) == Affine(x, P - y) && (P - y) % 2 == 1 - y % 2
  {
  }

  /** Flipping the low bit of the recovery id. */
  lemma FlipBit(over: int, bit: int, id: int)
    requires (over == 0 || over == 2) && (bit == 0 || bit == 1) && id == over + bit
    ensures (if id % 2 == 0 then id + 1 else id - 1) == over + (1 - bit)
  {
  }

  lemma OddBit(y: int)
    ensures (if y % 2 == 1 then 1 else 0) == y % 2 && (y % 2 == 0 || y % 2 == 1)
  {
  }

  lemma SignedDef(r: int, s: int, recid: int, e: int, d: int, m: int, k: int, x: int, y: int, t: Point)
    requires Mul(k, G) == Affine(x, y) && r == x % N && 0 < s <= N / 2 && (e == 1 || e == -1) &&
          Cong(s * k, e * (r * d + m), N)
    requires t == Twin(e, Mul(k, G)) && t.Affine? && recid == (if x >= N then 2 else 0) + t.y % 2
    ensures Signed(r, s, recid, e, d, m, k)
  {
    hide Mul, Twin, Cong;
  }

  /** The low s and the flipped parity go together. */
  lemma SignedIntro(x: int, y: int, s0: int, s: int, recid: int, e: int, r: int, d: int, m: int, k: int)
    requires Mul(k, G) == Affine(x, y) && 0 <= x < P && 0 < y < P
    requires r == x % N && 0 < s0 < Scalar.N && Cong(s0 * k, r * d + m, N)
    requires var id := (if x >= Scalar.N then 2 else 0) + (if y % 2 == 1 then 1 else 0);
      if s0 > Scalar.N / 2
        then e == -1 && s == (Scalar.N - s0) % Scalar.N && recid == if id % 2 == 0 then id + 1 else id - 1
        else e == 1 && s == s0 && recid == id
    ensures Signed(r, s, recid, e, d, m, k)
  {
    hide *;
    SameOrder();
    TwinParity(x, y);
    LowHalf(s0, s);
    OddBit(y);
    FlipBit(if x >= Scalar.N then 2 else 0, y % 2, (if x >= Scalar.N then 2 else 0) + y % 2);
    var t := Twin(e, Affine(x, y));
    if e == -1 {
      NegatedTimes(s0, k, r * d + m);
    }
    SignedDef(r, s, recid, e, d, m, k, x, y, t);
  }

  lemma LowHalf(s0: int, s: int)
    requires 0 < s0 < N && s == if s0 > N / 2 then (N - s0) % N else s0
    ensures 0 < s <= N / 2 && (s0 > N / 2 ==> s == N - s0)
  {
  }

  lemma TwinMultiple(e: int, k: int)
    requires Secp256k1() && (e == 1 || e == -1)
    ensures Mul(e * k, G) == Twin(e, Mul(k, G))
  {
    GeneratorOnCurve();
    hide Secp256k1, E, Mul;
    MulNeg(k, G);
  }

  /** A residue times the inverse of s, for a signature that satisfies the signing equation. */
  lemma SolveForNonce(w: int, s: int, k: int, e: int, t: int)
    requires Cong(w * s, 1, N) && Cong(s * k, e * t, N) && (e == 1 || e == -1)
    ensures Cong(w * t, e * k, N)
  {
    hide Cong;
    Refl(e * w, N);
    Refl(e * k, N);
    MulCong(e * w, e * w, s * k, e * t, N);
    MulCong(w * s, 1, e * k, e * k, N);
    assert (e * w) * (s * k) == (w * s) * (e * k);
    assert (e * w) * (e * t) == w * t;
    Sym((e * w) * (s * k), (e * w) * (e * t), N);
    Trans(w * t, (w * s) * (e * k), e * k, N);
  }

  /** Every signature that signing returns is accepted for the public key of the signer. */
  lemma SignedVerifies(r: int, s: int, recid: int, e: int, d: int, m: int, k: int)
    requires Secp256k1() && Signed(r, s, recid, e, d, m, k) && r != 0
    ensures Accepts(r, s, m, Mul(d, G)) && s <= N / 2
  {
    SignedFacts(r, s, recid, e, d, m, k);
    hide *;
    var w := Inv(s);
    RecomputedNonce(r, s, m, d, k, e);
    TwinFacts(e, Mul(k, G));
    AcceptsIntro(r, s, m, Mul(d, G));
  }

  lemma SignedFacts(r: int, s: int, recid: int, e: int, d: int, m: int, k: int)
    requires Signed(r, s, recid, e, d, m, k)
    ensures var p := Mul(k, G); p.Affine? && r == p.x % N && recid == (if p.x >= N then 2 else 0) + Twin(e, p).y % 2
    ensures 0 < s <= N / 2 && s < N && (e == 1 || e == -1) && Cong(s * k, e * (r * d + m), N)
  {
    hide Mul, Twin, Cong;
  }

  lemma TwinFacts(e: int, q: Point)
    ensures q.Affine? ==> Twin(e, q).Affine? && Twin(e, q).x == q.x
  {
  }

  lemma AcceptsIntro(r: int, s: int, m: int, q: Point)
    requires r != 0 && s != 0 && Recomputed(r, s, m, q).Affine? && r == Recomputed(r, s, m, q).x % N
    ensures Accepts(r, s, m, q)
  {
  }

  /** Verification recomputes the nonce point, up to its sign. */
  lemma RecomputedNonce(r: int, s: int, m: int, d: int, k: int, e: int)
    requires Secp256k1() && 0 < s < N && Cong(s * k, e * (r * d + m), N) && (e == 1 || e == -1)
    ensures Recomputed(r, s, m, Mul(d, G)) == Twin(e, Mul(k, G))
  {
    hide *;
    SameOrder();
    Primes();
    ScalarUnit(s);
    RecomputedDef(r, s, m, Mul(d, G));
    var w, t := Inv(s), r * d + m;
    InvIsInverse(s);
    assert w * s == s * w;
    SolveForNonce(w, s, k, e, t);
    GeneratorOnCurve();
    MulMul(w * r, d, G);
    MulAdd((w * r) * d, w * m, G);
    Distribute(w, r, d, m);
    MulMod(w * t, e * k, G);
    TwinMultiple(e, k);
  }

  lemma Distribute(w: int, r: int, d: int, m: int)
    ensures (w * r) * d + w * m == w * (r * d + m)
  {
  }

  lemma RecomputedDef(r: int, s: int, m: int, q: Point)
    ensures Recomputed(r, s, m, q) == Add(Mul(Inv(s) * r, q), Mul(Inv(s) * m, G))
  {
    hide Add, Mul, Inv;
  }

  /** The key that recovery computes from a candidate nonce point. */
  ghost function RecoveredKey(r: int, s: int, m: int, x: Point): Point {
    Add(Mul(Inv(r) * s, x), Mul(-(Inv(r) * m), G))
  }

  /** The recovered key, without a division: r times it is s * x - m * G. */
  lemma RecoveredTimes(r: int, s: int, m: int, x: Point)
    requires Secp256k1() && E(x) && 0 < r < N
    ensures Mul(r, RecoveredKey(r, s, m, x)) == Add(Mul(s, x), Neg(Mul(m, G))) && E(RecoveredKey(r, s, m, x))
  {
    hide *;
    SameOrder();
    GeneratorOnCurve();
    RecoveredDef(r, s, m, x);
    MulClosed(Inv(r) * s, x);
    MulClosed(-(Inv(r) * m), G);
    Closed(Mul(Inv(r) * s, x), Mul(-(Inv(r) * m), G));
    MulPlus(r, Mul(Inv(r) * s, x), Mul(-(Inv(r) * m), G));
    TimesInverse(r, s, x);
    assert Inv(r) * -m == -(Inv(r) * m);
    TimesInverse(r, -m, G);
    MulNeg(m, G);
  }

  /** The x-coordinate that the recovery id selects. */
  ghost function NonceX(r: int, recid: int): int {
    if recid / 2 % 2 == 1 then r + N else r
  }

  /** `x` has the coordinates that the recovery id asks for. */
  ghost predicate Matches(r: int, recid: int, x: Point) {
    && x.Affine? && x.x == NonceX(r, recid) && Parity(x, recid % 2 == 1)
    && (recid / 2 % 2 == 1 ==> r < P - N)
  }

  /** `x` is the nonce point that the recovery id selects. */
  ghost predicate Selected(r: int, recid: int, x: Point) {
    E(x) && Matches(r, recid, x)
  }

  /** The recovery id: bit 1 says whether the order was subtracted from the x-coordinate, bit 0 is the parity of y. */
  lemma SelectedIff(r: int, recid: int, x: Point)
    requires Secp256k1() && 0 <= r < N && 0 <= recid < 4
    ensures Selected(r, recid, x) <==>
      E(x) && x.Affine? && x.x == (if recid >= 2 then r + N else r) && x.y % 2 == recid % 2
  {
    hide Secp256k1;
    if E(x) && x.Affine? {
      PointRange(x);
      hide E;
      NoTwoTorsion(x);
    }
  }

  /** Recovery: the key for the selected nonce point, or failure when there is no such point or no key. */
  method Recover(ctx: EcmultContext, sigr: Limbs, sigs: Limbs, message: Limbs, recid: int)
    returns (ok: bool, pubkey: Ge, ghost x: Point)
    requires Secp256k1() && ctx.Valid() && ctx.preG != null
    requires Scalar.Value(sigr) < Scalar.N && Scalar.Value(sigs) < Scalar.N && 0 <= recid < 4
    ensures var r, s, m := Scalar.Value(sigr), Scalar.Value(sigs), Scalar.Value(message);
      ok ==> r != 0 && s != 0 && Selected(r, recid, x) && RecoveredKey(r, s, m, x) != Infinity
    ensures var r, s, m := Scalar.Value(sigr), Scalar.Value(sigs), Scalar.Value(message);
      ok ==> GeDenotes(pubkey, 1, RecoveredKey(r, s, m, x)) && !pubkey.infinity
    ensures var r, s, m := Scalar.Value(sigr), Scalar.Value(sigs), Scalar.Value(message);
      !ok ==> r == 0 || s == 0 || (forall y :: Selected(r, recid, y) ==> RecoveredKey(r, s, m, y) == Infinity)
  {
    hide *;
    ghost var r, s, m := Scalar.Value(sigr), Scalar.Value(sigs), Scalar.Value(message);
    Scalar.ValueRange(sigr);
    ok, pubkey, x := false, Ge(FeInt(0), FeInt(0), true), Infinity;
    if Scalar.IsZero(sigr) || Scalar.IsZero(sigs) {
      return;
    }
    SameOrder();
    var fx := ScalarAsField(sigr);
    if recid / 2 % 2 == 1 {
      FieldConstants();
      var c := FeCmpVar(fx, FeFromStorage(P_MINUS_ORDER));
      if c >= 0 {
        NoneSelected(r, recid);
        return;
      }
      fx := AddOrder(fx);
    }
    Primes();
    NonceXRange(r, recid, Val(fx));
    var ge, found;
    ghost var q;
    ge, found, q := SetXoVar(fx, recid % 2 == 1);
    if !found {
      NoneOnCurve(r, recid);
      return;
    }
    x := q;
    SelectedUnique(r, recid, Val(fx), q);
    var qj := new Gej();
    RecoverPoint(ctx, qj, sigr, sigs, ge, message, q);
    pubkey := SetGejVar(qj, 1, RecoveredKey(r, s, m, q));
    ok := !qj.infinity;
    RecoveredInfinity(qj, RecoveredKey(r, s, m, q));
  }

  lemma NoneSelected(r: int, recid: int)
    requires recid / 2 % 2 == 1 && r >= P - Scalar.N
    ensures forall y :: !Selected(r, recid, y)
  {
    hide Parity, E;
  }

  lemma NonceXRange(r: int, recid: int, fx: int)
    requires 0 <= r < Scalar.N && fx == (if recid / 2 % 2 == 1 then r + Scalar.N else r)
    requires recid / 2 % 2 == 1 ==> r < P - Scalar.N
    ensures 0 <= fx < P && fx % P == fx && fx == NonceX(r, recid)
  {
  }

  lemma NoneOnCurve(r: int, recid: int)
    ensures (exists y :: Selected(r, recid, y)) ==> OnSomePoint(NonceX(r, recid))
  {
    hide Selected, OnSomePoint, NonceX;
    if y: Point :| Selected(r, recid, y) {
      SelectedOnCurve(r, recid, y);
    }
  }

  lemma SelectedOnCurve(r: int, recid: int, y: Point)
    requires Selected(r, recid, y)
    ensures OnSomePoint(NonceX(r, recid))
  {
    OnCurveDef(7, y);
    hide OnCurve;
    RootDef(y.y, y.x);
    assert Root(y.y, y.x);
  }

  lemma SelectedUnique(r: int, recid: int, fx: int, q: Point)
    requires Secp256k1() && E(q) && q.Affine? && q.x == fx && Parity(q, recid % 2 == 1)
    requires fx == NonceX(r, recid) && (recid / 2 % 2 == 1 ==> r < P - Scalar.N)
    ensures Selected(r, recid, q) && forall y :: Selected(r, recid, y) ==> y == q
  {
    hide Secp256k1, E, Parity, NonceX;
    Primes();
    hide Prime;
    NoTwoTorsion(q);
    forall y | Selected(r, recid, y)
      ensures y == q
    {
      NoTwoTorsion(y);
      LiftUnique(y, q, recid % 2 == 1);
    }
  }

  lemma RecoveredInfinity(qj: Gej, v: Point)
    requires qj.Denotes(1, v)
    ensures qj.infinity <==> v == Infinity
  {
  }

  /** The double multiplication of recovery. */
  method RecoverPoint(ctx: EcmultContext, qj: Gej, sigr: Limbs, sigs: Limbs, x: Ge, message: Limbs, ghost q: Point)
    requires Secp256k1() && ctx.Valid() && ctx.preG != null
    requires E(q) && GeDenotes(x, 1, q) && !x.infinity
    modifies qj
    ensures qj.Denotes(1, RecoveredKey(Scalar.Value(sigr), Scalar.Value(sigs), Scalar.Value(message), q))
  {
    hide *;
    SameOrder();
    var xj := new Gej();
    xj.SetGe(x, 1, q);
    var rn := ScalarInverse(sigr);
    var u1 := ScalarMul(rn, message);
    ghost var u := Scalar.Value(u1);
    u1 := Negated(u1);
    Scalar.ValueRange(u1);
    var u2 := ScalarMul(rn, sigs);
    NegatedRange(u, Scalar.Value(u1));
    Ecmult.Ecmult(ctx, qj, xj, u2, u1, q);
    RecoverMultipliers(Scalar.Value(rn), u, Scalar.Value(u1), Scalar.Value(u2),
      Scalar.Value(sigr), Scalar.Value(sigs), Scalar.Value(message), q);
  }

  lemma NegatedRange(u: int, v: int)
    requires v == (Scalar.N - u) % Scalar.N
    ensures 0 <= v < Scalar.N
  {
  }

  lemma RecoverMultipliers(rn: int, u: int, u1: int, u2: int, r: int, s: int, m: int, q: Point)
    requires Secp256k1() && E(q) && Cong(rn, Inv(r), N) && Cong(u, rn * m, N) && Cong(u2, rn * s, N)
    requires u1 == (Scalar.N - u) % Scalar.N
    ensures Add(Mul(u2, q), Mul(u1, G)) == RecoveredKey(r, s, m, q)
  {
    hide *;
    SameOrder();
    NegatedResidue(u, u1);
    RecoveredDef(r, s, m, q);
    GeneratorOnCurve();
    ScaledResidue(rn, Inv(r), m);
    ScaledResidue(rn, Inv(r), s);
    Trans(u, rn * m, Inv(r) * m, N);
    Trans(u2, rn * s, Inv(r) * s, N);
    Refl(0, N);
    AddCong(0, 0, u, Inv(r) * m, N);
    Trans(u1, 0 - u, 0 - Inv(r) * m, N);
    MulMod(u1, -(Inv(r) * m), G);
    MulMod(u2, Inv(r) * s, q);
  }

  lemma RecoveredDef(r: int, s: int, m: int, x: Point)
    ensures RecoveredKey(r, s, m, x) == Add(Mul(Inv(r) * s, x), Mul(-(Inv(r) * m), G))
  {
    hide Add, Mul, Inv;
  }

  lemma NegatedResidue(u: int, u1: int)
    requires u1 == (N - u) % N
    ensures Cong(u1, 0 - u, N)
  {
    hide Cong;
    ModCong(N - u, N);
    FromMultiple(N - u, 0 - u, 1, N);
    Trans(u1, N - u, 0 - u, N);
  }

  /** The nonce point of a signature is the one its recovery id selects, negated when s was. */
  lemma SignedSelects(r: int, s: int, recid: int, e: int, d: int, m: int, k: int)
    requires Secp256k1() && Signed(r, s, recid, e, d, m, k) && 0 < k < Scalar.N
    ensures Selected(r, recid, Twin(e, Mul(k, G)))
  {
    SignedFacts(r, s, recid, e, d, m, k);
    NonceFinite(k);
    PointRange(Mul(k, G));
    hide Secp256k1, Mul, E, Matches;
    NegClosed(Mul(k, G));
    SelectedTwin(r, recid, e, Mul(k, G));
  }

  lemma PointRange(p: Point)
    requires E(p) && p.Affine?
    ensures 0 <= p.x < P && 0 <= p.y < P
  {
  }

  lemma SelectedTwin(r: int, recid: int, e: int, p: Point)
    requires p.Affine? && 0 <= p.x < P && r == p.x % N && Twin(e, p).Affine?
    requires recid == (if p.x >= N then 2 else 0) + Twin(e, p).y % 2
    ensures Matches(r, recid, Twin(e, p))
  {
    TwinFacts(e, p);
    OrderSize(p.x);
  }

  /** A residue times the inverse of r, for a signature that satisfies the signing equation. */
  lemma SolveForKey(v: int, r: int, s: int, m: int, d: int, e: int, k: int)
    requires Cong(v * r, 1, N) && Cong(s * k, e * (r * d + m), N) && (e == 1 || e == -1)
    ensures Cong((v * s) * (e * k) - v * m, d, N)
  {
    hide Cong;
    var t := r * d + m;
    Refl(v * e, N);
    Refl(d, N);
    Refl(v * m, N);
    MulCong(v * e, v * e, s * k, e * t, N);
    assert (v * e) * (s * k) == (v * s) * (e * k);
    assert (v * e) * (e * t) == v * t;
    AddCong((v * s) * (e * k), v * t, v * m, v * m, N);
    MulCong(v * r, 1, d, d, N);
    assert v * t - v * m == (v * r) * d;
    Trans((v * s) * (e * k) - v * m, (v * r) * d, d, N);
  }

  lemma {:induction false} KeyFromNonce(r: int, s: int, m: int, d: int, k: int, e: int)
    requires Secp256k1() && 0 < r < N && Cong(s * k, e * (r * d + m), N) && (e == 1 || e == -1)
    ensures RecoveredKey(r, s, m, Twin(e, Mul(k, G))) == Mul(d, G)
  {
    hide *;
    SameOrder();
    Primes();
    ScalarUnit(r);
    InvIsInverse(r);
    var v := Inv(r);
    assert v * r == r * v;
    SolveForKey(v, r, s, m, d, e, k);
    GeneratorOnCurve();
    TwinMultiple(e, k);
    RecoveredDef(r, s, m, Mul(e * k, G));
    MulMul(v * s, e * k, G);
    MulAdd((v * s) * (e * k), -(v * m), G);
    MulMod((v * s) * (e * k) - v * m, d, G);
  }

  /** Recovery from any signature that signing returns yields the public key of the signer, and does not fail. */
  lemma SignedRecovers(r: int, s: int, recid: int, e: int, d: int, m: int, k: int, x: Point)
    requires Secp256k1() && Signed(r, s, recid, e, d, m, k) && 0 < k < Scalar.N && 0 < d < Scalar.N && r != 0
    requires Selected(r, recid, x)
    ensures RecoveredKey(r, s, m, x) == Mul(d, G) && Mul(d, G) != Infinity && s != 0
  {
    hide *;
    SameOrder();
    SignedFacts(r, s, recid, e, d, m, k);
    SignedSelects(r, s, recid, e, d, m, k);
    NonceFinite(d);
    ResidueRange(r, Mul(k, G));
    SelectedSame(r, recid, x, Twin(e, Mul(k, G)));
    KeyFromNonce(r, s, m, d, k, e);
  }

  lemma ResidueRange(r: int, p: Point)
    requires p.Affine? && r == p.x % N
    ensures 0 <= r < N
  {
  }

  lemma SelectedSame(r: int, recid: int, x: Point, y: Point)
    requires Secp256k1() && Selected(r, recid, x) && Selected(r, recid, y)
    ensures x == y
  {
    hide Secp256k1, E, Parity, NonceX;
    Primes();
    hide Prime;
    NoTwoTorsion(x);
    NoTwoTorsion(y);
    LiftUnique(x, y, recid % 2 == 1);
  }

  /** Any key that recovery returns, from any signature at all, accepts that signature. */
  lemma RecoveredVerifies(r: int, s: int, m: int, recid: int, x: Point)
    requires Secp256k1() && 0 < r < N && 0 < s < N && Selected(r, recid, x)
    ensures Accepts(r, s, m, RecoveredKey(r, s, m, x))
  {
    SelectedX(r, recid, x);
    hide *;
    SameOrder();
    RecomputedFromKey(r, s, m, x);
    AcceptsIntro(r, s, m, RecoveredKey(r, s, m, x));
  }

  lemma SelectedX(r: int, recid: int, x: Point)
    requires 0 < r < N && Selected(r, recid, x)
    ensures E(x) && x.Affine? && r == x.x % N
  {
    hide E, Parity;
  }

  lemma RecomputedFromKey(r: int, s: int, m: int, x: Point)
    requires Secp256k1() && E(x) && 0 < r < N && 0 < s < N
    ensures Recomputed(r, s, m, RecoveredKey(r, s, m, x)) == x
  {
    hide *;
    SameOrder();
    Primes();
    ScalarUnit(r);
    ScalarUnit(s);
    InvIsInverse(r);
    InvIsInverse(s);
    var w, v := Inv(s), Inv(r);
    var q := RecoveredKey(r, s, m, x);
    GeneratorOnCurve();
    RecomputedDef(r, s, m, q);
    RecoveredDef(r, s, m, x);
    MulClosed(v * s, x);
    MulClosed(-(v * m), G);
    MulPlus(w * r, Mul(v * s, x), Mul(-(v * m), G));
    MulMul(w * r, v * s, x);
    MulMul(w * r, -(v * m), G);
    CancelInverses(w, v, r, s, m);
    MulMod((w * r) * (v * s), 1, x);
    MulMod((w * r) * (-(v * m)), -(w * m), G);
    MulOne(x);
    MulClosed(w * m, G);
    MulNeg(w * m, G);
    AddBack(x, Mul(w * m, G));
  }

  lemma CancelInverses(w: int, v: int, r: int, s: int, m: int)
    requires Cong(r * v, 1, N) && Cong(s * w, 1, N)
    ensures Cong((w * r) * (v * s), 1, N) && Cong((w * r) * (-(v * m)), -(w * m), N)
  {
    hide Cong;
    MulCong(r * v, 1, s * w, 1, N);
    assert (w * r) * (v * s) == (r * v) * (s * w);
    Refl(-(w * m), N);
    MulCong(r * v, 1, -(w * m), -(w * m), N);
    assert (w * r) * (-(v * m)) == (r * v) * (-(w * m));
  }
}
