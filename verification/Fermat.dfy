/** Fermat's little theorem, by the binomial theorem modulo a prime. */
module Fermat {
  import opened Modular

  ghost function Pow(b: int, e: nat): int
    decreases e, b
  {
    if e == 0 then 1 else b * Pow(b, e - 1)
  }

  ghost function Choose(n: nat, k: nat): nat
    decreases n, k
  {
    if k == 0 then 1 else if n == 0 then 0 else Choose(n - 1, k - 1) + Choose(n - 1, k)
  }

  /** The first terms of the expansion of (x + 1)^n, up to x^m. */
  ghost function Expansion(x: int, n: nat, m: nat): int
    decreases m, n
  {
    if m == 0 then 1 else Expansion(x, n, m - 1) + Choose(n, m) * Pow(x, m)
  }

  lemma {:induction false} PowAdd(b: int, d: nat, e: nat)
    ensures Pow(b, d + e) == Pow(b, d) * Pow(b, e)
    decreases d
  {
    if d > 0 {
      PowAdd(b, d - 1, e);
      assert Pow(b, d + e) == b * Pow(b, d - 1 + e);
    }
  }

  lemma {:induction false} PowMul(b: int, d: nat, e: nat)
    ensures d * e >= 0 && Pow(Pow(b, d), e) == Pow(b, d * e)
    decreases e
  {
    if e > 0 {
      PowMul(b, d, e - 1);
      assert d * e == d + d * (e - 1);
      PowAdd(b, d, d * (e - 1));
    }
  }

  lemma {:induction false} PowCong(a: int, b: int, e: nat, m: int)
    requires m > 0 && Cong(a, b, m)
    ensures Cong(Pow(a, e), Pow(b, e), m)
    decreases e
  {
    hide Cong;
    Refl(1, m);
    if e > 0 {
      PowCong(a, b, e - 1, m);
      MulCong(a, b, Pow(a, e - 1), Pow(b, e - 1), m);
    }
  }

  lemma {:induction false} ChooseAboveRow(n: nat, k: nat)
    requires k > n
    ensures Choose(n, k) == 0
    decreases n
  {
    if n > 0 {
      ChooseAboveRow(n - 1, k - 1);
      ChooseAboveRow(n - 1, k);
    }
  }

  lemma {:induction false} ChooseDiagonal(n: nat)
    ensures Choose(n, n) == 1
    decreases n
  {
    if n > 0 {
      ChooseDiagonal(n - 1);
      ChooseAboveRow(n - 1, n);
    }
  }

  lemma AbsorptionStep(n: int, k: int, a: int, b: int, c: int, d: int)
    requires (k - 1) * a == (n - 1) * c && k * b == (n - 1) * d && a == c + d
    ensures k * (a + b) == n * a
  {
  }

  lemma {:induction false} Absorption(n: nat, k: nat)
    requires n > 0 && k > 0
    ensures k * Choose(n, k) == n * Choose(n - 1, k - 1)
    decreases n
  {
    if n > 1 {
      Absorption(n - 1, k);
      if k > 1 {
        Absorption(n - 1, k - 1);
        AbsorptionStep(n, k, Choose(n - 1, k - 1), Choose(n - 1, k), Choose(n - 2, k - 2), Choose(n - 2, k - 1));
      }
    }
  }

  /** One more term on each side of Pascal's rule. */
  lemma PascalTerm(e: int, f: int, g: int, c: int, d: int, x: int, p: int)
    requires e == f + x * g
    ensures e + (c + d) * (x * p) == (f + d * (x * p)) + x * (g + c * p)
  {
    assert (c + d) * (x * p) == d * (x * p) + x * (c * p);
  }

  lemma ExpansionTerm(x: int, n: nat, m: nat)
    requires m > 0
    ensures Expansion(x, n, m) == Expansion(x, n, m - 1) + Choose(n, m) * Pow(x, m)
  {
    hide Choose, Pow;
  }

  lemma FirstTerms(x: int, n: nat)
    ensures Expansion(x, n, 0) == 1 && Pow(x, 0) == 1 && Choose(n, 0) == 1
  {
  }

  lemma PascalAndPower(x: int, n: nat, m: nat)
    requires n > 0 && m > 0
    ensures Choose(n, m) == Choose(n - 1, m - 1) + Choose(n - 1, m) && Pow(x, m) == x * Pow(x, m - 1)
  {
  }

  /** Pascal's rule, summed. */
  lemma {:induction false} ExpansionStep(x: int, n: nat, m: nat)
    requires n > 0 && m > 0
    ensures Expansion(x, n, m) == Expansion(x, n - 1, m) + x * Expansion(x, n - 1, m - 1)
    decreases m
  {
    hide *;
    var c, d, p := Choose(n - 1, m - 1), Choose(n - 1, m), Pow(x, m - 1);
    PascalAndPower(x, n, m);
    ExpansionTerm(x, n, m);
    ExpansionTerm(x, n - 1, m);
    FirstTerms(x, n);
    FirstTerms(x, n - 1);
    if m == 1 {
      PascalTerm(1, 1, 0, c, d, x, p);
    } else {
      ExpansionStep(x, n, m - 1);
      ExpansionTerm(x, n - 1, m - 1);
      PascalTerm(Expansion(x, n, m - 1), Expansion(x, n - 1, m - 1), Expansion(x, n - 1, m - 2), c, d, x, p);
    }
  }

  lemma {:induction false} Binomial(x: int, n: nat)
    ensures Pow(x + 1, n) == Expansion(x, n, n)
    decreases n
  {
    if n > 0 {
      Binomial(x, n - 1);
      ExpansionStep(x, n, n);
      ChooseAboveRow(n - 1, n);
    }
  }

  lemma ChoosePrime(p: int, k: nat)
    requires Prime(p) && 0 < k < p
    ensures Cong(Choose(p, k), 0, p)
  {
    Absorption(p, k);
    hide Cong, Choose;
    FromMultiple(k * Choose(p, k), 0, Choose(p - 1, k - 1), p);
    EuclidReduced(k, Choose(p, k), p);
  }

  lemma {:induction false} ExpansionPrime(x: int, p: int, m: nat)
    requires Prime(p) && m < p
    ensures Cong(Expansion(x, p, m), 1, p)
    decreases m
  {
    hide Cong, Choose, Pow, Prime;
    PrimePositive(p);
    if m == 0 {
      Refl(1, p);
    } else {
      ExpansionPrime(x, p, m - 1);
      ChoosePrime(p, m);
      Refl(Pow(x, m), p);
      MulCong(Choose(p, m), 0, Pow(x, m), Pow(x, m), p);
      AddCong(Expansion(x, p, m - 1), 1, Choose(p, m) * Pow(x, m), 0, p);
    }
  }

  /** (x + 1)^p is x^p + 1 modulo p. */
  lemma FreshmansDream(x: int, p: int)
    requires Prime(p)
    ensures Cong(Pow(x + 1, p), Pow(x, p) + 1, p)
  {
    PrimePositive(p);
    ChooseDiagonal(p);
    Binomial(x, p);
    assert Expansion(x, p, p) == Expansion(x, p, p - 1) + Pow(x, p);
    hide Cong, Expansion, Pow, Prime;
    ExpansionPrime(x, p, p - 1);
    Refl(Pow(x, p), p);
    AddCong(Expansion(x, p, p - 1), 1, Pow(x, p), Pow(x, p), p);
  }

  lemma {:induction false} FermatNat(x: nat, p: int)
    requires Prime(p)
    ensures Cong(Pow(x, p), x, p)
    decreases x
  {
    PrimePositive(p);
    hide Cong, Prime;
    Refl(0, p);
    if x > 0 {
      hide Pow;
      FermatNat(x - 1, p);
      FreshmansDream(x - 1, p);
      Refl(1, p);
      AddCong(Pow(x - 1, p), x - 1, 1, 1, p);
      Trans(Pow(x, p), Pow(x - 1, p) + 1, x, p);
    }
  }

  /** Fermat's little theorem: every unit modulo a prime has order dividing p - 1. */
  lemma LittleTheorem(a: int, p: int)
    requires Prime(p) && !Cong(a, 0, p)
    ensures p >= 2 && Cong(Pow(a, p - 1), 1, p)
  {
    PrimePositive(p);
    assert Pow(a, p) == a * Pow(a, p - 1);
    hide Cong, Prime, Pow;
    var r := a % p;
    DivFacts(a, p);
    ModCong(a, p);
    FermatNat(r, p);
    PowCong(r, a, p, p);
    Sym(Pow(r, p), Pow(a, p), p);
    Trans(Pow(a, p), Pow(r, p), r, p);
    Trans(Pow(a, p), r, a, p);
    Cancel(a, Pow(a, p - 1), 1, p);
  }
}
