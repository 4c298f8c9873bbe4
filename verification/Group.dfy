/** The group of the curve y^2 = x^3 + 7: multiples of points, as a group of prime order. */
module Group {
  import opened Curve
  import opened Modular
  import Scalar

  const N: int := Scalar.N

  /** The order of the group is that of the scalars. */
  lemma SameOrder()
    ensures N == Scalar.N && N > 0
  {
  }

  ghost predicate E(q: Point) {
    OnCurve(7, q)
  }

  ghost predicate Associates(p: Point, q: Point, r: Point) {
    E(p) && E(q) && E(r) ==> Add(Add(p, q), r) == Add(p, Add(q, r))
  }

  ghost predicate Associative() {
    forall p: Point, q: Point, r: Point :: Associates(p, q, r)
  }

  ghost predicate HasOrderN(q: Point) {
    E(q) ==> Mul(N, q) == Infinity
  }

  ghost predicate OrderN() {
    forall q: Point :: HasOrderN(q)
  }

  /** What is taken from number theory about the constants of the curve. */
  ghost predicate Secp256k1() {
    Prime(P) && Prime(N) && Associative() && OrderN()
  }

  /** The n-th multiple of q, for any integer n. */
  ghost function Mul(n: int, q: Point): Point
    decreases if n < 0 then -n else n
  {
    if n == 0 then Infinity else if n > 0 then Add(Mul(n - 1, q), q) else Add(Mul(n + 1, q), Neg(q))
  }

  /** The generator. */
  const GX: int := 0x79BE667E_F9DCBBAC_55A06295_CE870B07_029BFCDB_2DCE28D9_59F2815B_16F81798
  const GY: int := 0x483ADA77_26A3C465_5DA4FBFC_0E1108A8_FD17B448_A6855419_9C47D08F_FB10D4B8
  const G: Point := Affine(GX, GY)

  lemma GeneratorOnCurve()
    ensures E(G)
  {
    OnCurveDef(7, G);
    CongIffMod(GY * GY, GX * GX * GX + 7, P);
  }

  lemma Primes()
    requires Secp256k1()
    ensures Prime(P) && Prime(N)
  {
  }

  lemma Assoc(p: Point, q: Point, r: Point)
    requires Secp256k1() && E(p) && E(q) && E(r)
    ensures Add(Add(p, q), r) == Add(p, Add(q, r))
  {
    hide OrderN, E, Add, Prime;
    assert Associates(p, q, r);
  }

  lemma Order(q: Point)
    requires Secp256k1() && E(q)
    ensures Mul(N, q) == Infinity
  {
    hide Associative, E, Add, Prime, Mul;
    assert HasOrderN(q);
  }

  lemma Closed(p: Point, q: Point)
    requires Secp256k1() && E(p) && E(q)
    ensures E(Add(p, q)) && Add(p, q) == Add(q, p)
  {
    hide Add, OnCurve, Prime;
    Primes();
    AddOnCurve(7, p, q);
    AddCommutes(7, p, q);
  }

  lemma NegClosed(q: Point)
    requires E(q)
    ensures E(Neg(q)) && Add(q, Neg(q)) == Infinity && Neg(Neg(q)) == q
  {
    NegOnCurve(7, q);
    AddNeg(q);
    NegNeg(q);
  }

  lemma NegNeg(q: Point)
    requires q.Affine? ==> 0 <= q.y < P
    ensures Neg(Neg(q)) == q
  {
  }

  lemma Unit(q: Point)
    ensures Add(Infinity, q) == q && Add(q, Infinity) == q
  {
  }

  /** What is added and then subtracted goes away. */
  lemma AddBack(p: Point, q: Point)
    requires Secp256k1() && E(p) && E(q)
    ensures Add(Add(p, q), Neg(q)) == p && Add(Add(p, Neg(q)), q) == p
  {
    hide *;
    NegClosed(q);
    Assoc(p, q, Neg(q));
    Assoc(p, Neg(q), q);
    Closed(Neg(q), q);
    Unit(p);
  }

  lemma {:induction false} MulClosed(n: int, q: Point)
    requires Secp256k1() && E(q)
    ensures E(Mul(n, q))
    decreases if n < 0 then -n else n
  {
    hide Secp256k1, E, Add, Neg;
    if n > 0 {
      MulClosed(n - 1, q);
      Closed(Mul(n - 1, q), q);
    } else if n < 0 {
      MulClosed(n + 1, q);
      NegClosed(q);
      Closed(Mul(n + 1, q), Neg(q));
    } else {
      InfinityOnCurve();
    }
  }

  lemma InfinityOnCurve()
    ensures E(Infinity)
  {
  }

  lemma MulSucc(n: int, q: Point)
    requires Secp256k1() && E(q)
    ensures Mul(n + 1, q) == Add(Mul(n, q), q)
  {
    hide Secp256k1, E, Add, Neg;
    if n < 0 {
      MulClosed(n + 1, q);
      AddBack(Mul(n + 1, q), q);
    }
  }

  lemma MulPred(n: int, q: Point)
    requires Secp256k1() && E(q)
    ensures Mul(n - 1, q) == Add(Mul(n, q), Neg(q))
  {
    MulSucc(n - 1, q);
    hide *;
    MulClosed(n - 1, q);
    AddBack(Mul(n - 1, q), q);
  }

  lemma MulOne(q: Point)
    ensures Mul(0, q) == Infinity && Mul(1, q) == q && Mul(-1, q) == Neg(q)
  {
    assert Mul(1, q) == Add(Mul(0, q), q);
    assert Mul(-1, q) == Add(Mul(0, q), Neg(q));
  }

  lemma {:induction false} MulAdd(m: int, n: int, q: Point)
    requires Secp256k1() && E(q)
    ensures Mul(m + n, q) == Add(Mul(m, q), Mul(n, q))
    decreases if n < 0 then -n else n
  {
    hide *;
    MulOne(q);
    MulClosed(m, q);
    if n > 0 {
      MulAdd(m, n - 1, q);
      MulSucc(m + (n - 1), q);
      MulSucc(n - 1, q);
      MulClosed(n - 1, q);
      Assoc(Mul(m, q), Mul(n - 1, q), q);
    } else if n < 0 {
      MulAdd(m, n + 1, q);
      MulPred(m + (n + 1), q);
      MulPred(n + 1, q);
      MulClosed(n + 1, q);
      NegClosed(q);
      Assoc(Mul(m, q), Mul(n + 1, q), Neg(q));
    } else {
      Unit(Mul(m, q));
    }
  }

  lemma NegUnique(p: Point, q: Point)
    requires Secp256k1() && E(p) && E(q) && Add(p, q) == Infinity
    ensures q == Neg(p)
  {
    hide *;
    NegClosed(p);
    Closed(p, q);
    AddBack(q, p);
    Unit(Neg(p));
  }

  lemma MulNeg(n: int, q: Point)
    requires Secp256k1() && E(q)
    ensures Mul(-n, q) == Neg(Mul(n, q))
  {
    hide *;
    MulAdd(n, -n, q);
    MulOne(q);
    MulClosed(n, q);
    MulClosed(-n, q);
    NegUnique(Mul(n, q), Mul(-n, q));
  }

  /** (a + b) + (c + d) = (a + c) + (b + d). */
  lemma Interchange(a: Point, b: Point, c: Point, d: Point)
    requires Secp256k1() && E(a) && E(b) && E(c) && E(d)
    ensures Add(Add(a, b), Add(c, d)) == Add(Add(a, c), Add(b, d))
  {
    hide *;
    Closed(c, d);
    Closed(b, d);
    Closed(b, c);
    Assoc(a, b, Add(c, d));
    Assoc(b, c, d);
    Assoc(c, b, d);
    Assoc(a, c, Add(b, d));
  }

  lemma {:induction false} MulPlus(n: int, p: Point, q: Point)
    requires Secp256k1() && E(p) && E(q)
    ensures Mul(n, Add(p, q)) == Add(Mul(n, p), Mul(n, q))
    decreases n < 0, if n < 0 then -n else n
  {
    hide *;
    Closed(p, q);
    MulOne(p);
    MulOne(q);
    MulOne(Add(p, q));
    if n > 0 {
      MulPlus(n - 1, p, q);
      MulSucc(n - 1, p);
      MulSucc(n - 1, q);
      MulSucc(n - 1, Add(p, q));
      MulClosed(n - 1, p);
      MulClosed(n - 1, q);
      Interchange(Mul(n - 1, p), Mul(n - 1, q), p, q);
    } else if n < 0 {
      MulPlus(-n, p, q);
      MulNeg(-n, p);
      MulNeg(-n, q);
      MulNeg(-n, Add(p, q));
      MulClosed(-n, p);
      MulClosed(-n, q);
      NegPlus(Mul(-n, p), Mul(-n, q));
    } else {
      Unit(Infinity);
    }
  }

  lemma NegPlus(p: Point, q: Point)
    requires Secp256k1() && E(p) && E(q)
    ensures Neg(Add(p, q)) == Add(Neg(p), Neg(q))
  {
    hide *;
    NegClosed(p);
    NegClosed(q);
    Closed(p, q);
    Closed(Neg(p), Neg(q));
    Interchange(p, q, Neg(p), Neg(q));
    Unit(Infinity);
    NegUnique(Add(p, q), Add(Neg(p), Neg(q)));
  }

  lemma {:induction false} MulMul(m: int, n: int, q: Point)
    requires Secp256k1() && E(q)
    ensures Mul(m, Mul(n, q)) == Mul(m * n, q)
    decreases m < 0, if m < 0 then -m else m
  {
    hide *;
    MulClosed(n, q);
    MulOne(Mul(n, q));
    MulOne(q);
    if m > 0 {
      MulMul(m - 1, n, q);
      MulSucc(m - 1, Mul(n, q));
      MulAdd((m - 1) * n, n, q);
      assert (m - 1) * n + n == m * n;
    } else if m < 0 {
      MulMul(-m, n, q);
      MulNeg(-m, Mul(n, q));
      MulNeg((-m) * n, q);
      assert -((-m) * n) == m * n;
    }
  }

  lemma MulPeriod(n: int, k: int, q: Point)
    requires Secp256k1() && E(q)
    ensures Mul(n + k * N, q) == Mul(n, q)
  {
    hide *;
    MulAdd(n, k * N, q);
    MulMul(k, N, q);
    Order(q);
    MulInfinity(k);
    Unit(Mul(n, q));
  }

  /** Only the residue of the multiplier counts. */
  lemma MulMod(m: int, n: int, q: Point)
    requires Secp256k1() && E(q) && Cong(m, n, N)
    ensures Mul(m, q) == Mul(n, q)
  {
    hide Secp256k1, E, Mul, Cong;
    var k := Quotient(m, n, N);
    MulPeriod(n, k, q);
  }

  lemma {:induction false} MulInfinity(n: int)
    ensures Mul(n, Infinity) == Infinity
    decreases if n < 0 then -n else n
  {
    if n > 0 {
      MulInfinity(n - 1);
    } else if n < 0 {
      MulInfinity(n + 1);
    }
  }

  /** Multiples of a finite point are as distinct as residues modulo N, by descent on the multiplier. */
  lemma {:induction false} NoSmallOrder(n: int, q: Point)
    requires Secp256k1() && E(q) && q.Affine? && 0 < n < N
    ensures Mul(n, q) != Infinity
    decreases n
  {
    if Mul(n, q) == Infinity {
      if n == 1 {
        MulOne(q);
      } else {
        PrimeRemainder(n);
        hide *;
        var d, r := N / n, N % n;
        DivFacts(N, n);
        MulAdd(d * n, r, q);
        MulMul(d, n, q);
        MulInfinity(d);
        Order(q);
        Unit(Mul(r, q));
        assert d * n == n * d;
        NoSmallOrder(r, q);
      }
    }
  }

  lemma PrimeRemainder(n: int)
    requires Secp256k1() && 2 <= n < N
    ensures 0 < N % n < n
  {
    hide Associative, OrderN;
    assert !Divides(n, N);
  }

  lemma MulZero(n: int, q: Point)
    requires Secp256k1() && E(q) && q.Affine? && Mul(n, q) == Infinity
    ensures Cong(n, 0, N)
  {
    ModCong(n, N);
    Sym(n % N, n, N);
    hide Secp256k1, E, Mul;
    MulMod(n % N, n, q);
    if n % N != 0 {
      NoSmallOrder(n % N, q);
    }
  }

  lemma MulInjective(m: int, n: int, q: Point)
    requires Secp256k1() && E(q) && q.Affine? && Mul(m, q) == Mul(n, q)
    ensures Cong(m, n, N)
  {
    hide *;
    MulDifference(m, n, q);
    MulZero(m - n, q);
    SubCongN(m, n);
  }

  lemma SubCongN(m: int, n: int)
    requires Cong(m - n, 0, N)
    ensures Cong(m, n, N)
  {
    hide Cong;
    FromDifference(m, n, N);
  }

  lemma MulDifference(m: int, n: int, q: Point)
    requires Secp256k1() && E(q) && Mul(m, q) == Mul(n, q)
    ensures Mul(m - n, q) == Infinity
  {
    hide *;
    MulAdd(m, -n, q);
    MulNeg(n, q);
    MulClosed(n, q);
    NegClosed(Mul(n, q));
  }

  /** No point has order two, since N is odd. */
  lemma NoTwoTorsion(q: Point)
    requires Secp256k1() && E(q) && q.Affine?
    ensures q.y != 0
  {
    if q.y == 0 {
      OrderTwoDoubles(q);
      hide *;
      MulOne(q);
      MulSucc(1, q);
      NoSmallOrder(2, q);
    }
  }
}
