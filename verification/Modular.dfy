/** Congruence modulo m, primes, and Fermat's little theorem. */
module Modular {
  import opened Words

  /** Some n steps of `m`, each up or down, lead from `x` to zero. */
  ghost predicate Reaches(x: int, m: int, n: nat)
    decreases n
  {
    if n == 0 then x == 0 else Reaches(x - m, m, n - 1) || Reaches(x + m, m, n - 1)
  }

  ghost predicate Multiple(x: int, m: int) {
    exists n: nat :: Reaches(x, m, n)
  }

  /** The difference is a multiple of `m`. */
  ghost predicate Cong(a: int, b: int, m: int)
    requires m > 0
  {
    Multiple(a - b, m)
  }

  lemma {:induction false} MultipleReaches(k: int, m: int)
    ensures Reaches(k * m, m, if k < 0 then -k else k)
    decreases if k < 0 then -k else k
  {
    if k > 0 {
      MultipleReaches(k - 1, m);
      assert (k - 1) * m == k * m - m;
    } else if k < 0 {
      MultipleReaches(k + 1, m);
      assert (k + 1) * m == k * m + m;
    }
  }

  lemma {:induction false} ReachedMultiple(x: int, m: int, n: nat) returns (k: int)
    requires Reaches(x, m, n)
    ensures x == k * m
    decreases n
  {
    if n == 0 {
      k := 0;
    } else if Reaches(x - m, m, n - 1) {
      k := ReachedMultiple(x - m, m, n - 1);
      assert (k + 1) * m == k * m + m;
      k := k + 1;
    } else {
      k := ReachedMultiple(x + m, m, n - 1);
      assert (k - 1) * m == k * m - m;
      k := k - 1;
    }
  }

  /** Multiplication by repeated addition: a statement that says it with this function exposes no product. */
  ghost function Times(x: int, y: int): int
    decreases if x < 0 then -x else x
  {
    if x == 0 then 0 else if x > 0 then Times(x - 1, y) + y else Times(x + 1, y) - y
  }

  lemma {:induction false} TimesIs(x: int, y: int)
    ensures Times(x, y) == x * y
    decreases if x < 0 then -x else x
  {
    if x > 0 {
      TimesIs(x - 1, y);
      assert (x - 1) * y == x * y - y;
    } else if x < 0 {
      TimesIs(x + 1, y);
      assert (x + 1) * y == x * y + y;
    }
  }

  lemma DivFacts(x: int, m: int)
    requires m > 0
    ensures x == m * (x / m) + x % m && 0 <= x % m < m
  {
  }

  lemma SmallMultiple(k: int, m: int)
    requires -m < k * m < m
    ensures k == 0
  {
    if k >= 1 {
      MulMono(1, k, m);
    } else if k <= -1 {
      MulMono(k, -1, m);
    }
  }

  /** A congruence with its quotient. */
  lemma FromMultiple(a: int, b: int, k: int, m: int)
    requires m > 0 && a - b == k * m
    ensures Cong(a, b, m)
  {
    MultipleReaches(k, m);
  }

  lemma Quotient(a: int, b: int, m: int) returns (k: int)
    requires m > 0 && Cong(a, b, m)
    ensures a - b == k * m
  {
    var n: nat :| Reaches(a - b, m, n);
    k := ReachedMultiple(a - b, m, n);
  }

  lemma Refl(a: int, m: int)
    requires m > 0
    ensures Cong(a, a, m)
  {
    FromMultiple(a, a, 0, m);
  }

  lemma Sym(a: int, b: int, m: int)
    requires m > 0 && Cong(a, b, m)
    ensures Cong(b, a, m)
  {
    hide Cong;
    var k := Quotient(a, b, m);
    FromMultiple(b, a, -k, m);
  }

  lemma Trans(a: int, b: int, c: int, m: int)
    requires m > 0 && Cong(a, b, m) && Cong(b, c, m)
    ensures Cong(a, c, m)
  {
    hide Cong;
    var k := Quotient(a, b, m);
    var l := Quotient(b, c, m);
    FromMultiple(a, c, k + l, m);
  }

  lemma FromDifference(a: int, b: int, m: int)
    requires m > 0 && Cong(a - b, 0, m)
    ensures Cong(a, b, m)
  {
    hide Cong;
    var k := Quotient(a - b, 0, m);
    FromMultiple(a, b, k, m);
  }

  lemma AddCong(a: int, a': int, b: int, b': int, m: int)
    requires m > 0 && Cong(a, a', m) && Cong(b, b', m)
    ensures Cong(a + b, a' + b', m) && Cong(a - b, a' - b', m)
  {
    hide Cong;
    var k := Quotient(a, a', m);
    var l := Quotient(b, b', m);
    FromMultiple(a + b, a' + b', k + l, m);
    FromMultiple(a - b, a' - b', k - l, m);
  }

  lemma MulCong(a: int, a': int, b: int, b': int, m: int)
    requires m > 0 && Cong(a, a', m) && Cong(b, b', m)
    ensures Cong(a * b, a' * b', m)
  {
    hide Cong;
    var k := Quotient(a, a', m);
    var l := Quotient(b, b', m);
    assert a * b - a' * b' == (k * b + a' * l) * m;
    FromMultiple(a * b, a' * b', k * b + a' * l, m);
  }

  lemma ModCong(a: int, m: int)
    requires m > 0
    ensures Cong(a % m, a, m)
  {
    hide Cong;
    DivFacts(a, m);
    FromMultiple(a % m, a, -(a / m), m);
  }

  /** Congruent residues in range are equal. */
  lemma CongUnique(a: int, b: int, m: int)
    requires m > 0 && Cong(a, b, m) && 0 <= a < m && 0 <= b < m
    ensures a == b
  {
    hide Cong;
    var k := Quotient(a, b, m);
    SmallMultiple(k, m);
  }

  lemma CongIffMod(a: int, b: int, m: int)
    requires m > 0
    ensures Cong(a, b, m) <==> a % m == b % m
  {
    hide Cong;
    ModCong(a, m);
    ModCong(b, m);
    DivFacts(a, m);
    DivFacts(b, m);
    if Cong(a, b, m) {
      Trans(a % m, a, b, m);
      Sym(b % m, b, m);
      Trans(a % m, b, b % m, m);
      CongUnique(a % m, b % m, m);
    }
    if a % m == b % m {
      Sym(a % m, a, m);
      Trans(a, a % m, b, m);
    }
  }

  /** The remainder, by counting down (or up) into range. */
  ghost function Rem(x: int, m: int): (r: int)
    requires m > 0
    ensures 0 <= r < m
    decreases if x < 0 then m - x else x
  {
    if x >= m then Rem(x - m, m) else if x < 0 then Rem(x + m, m) else x
  }

  lemma {:induction false} RemCong(x: int, m: int)
    requires m > 0
    ensures Cong(Rem(x, m), x, m)
    decreases if x < 0 then m - x else x
  {
    hide Cong;
    if x >= m {
      RemCong(x - m, m);
      var k := Quotient(Rem(x - m, m), x - m, m);
      FromMultiple(Rem(x, m), x, k - 1, m);
    } else if x < 0 {
      RemCong(x + m, m);
      var k := Quotient(Rem(x + m, m), x + m, m);
      FromMultiple(Rem(x, m), x, k + 1, m);
    } else {
      Refl(x, m);
    }
  }

  lemma RemIsMod(x: int, m: int)
    requires m > 0
    ensures Rem(x, m) == x % m
  {
    hide Cong, Rem;
    RemCong(x, m);
    CongIffMod(Rem(x, m), x, m);
    RemSmall(Rem(x, m), m);
  }

  lemma RemSmall(r: int, m: int)
    requires 0 <= r < m
    ensures r % m == r
  {
  }

  lemma RemSame(a: int, b: int, m: int)
    requires m > 0 && Cong(a, b, m)
    ensures Rem(a, m) == Rem(b, m)
  {
    hide Cong, Rem;
    RemCong(a, m);
    RemCong(b, m);
    Sym(Rem(b, m), b, m);
    Trans(Rem(a, m), a, b, m);
    Trans(Rem(a, m), b, Rem(b, m), m);
    CongUnique(Rem(a, m), Rem(b, m), m);
  }

  lemma CongZero(a: int, m: int)
    requires m > 0
    ensures Cong(a, 0, m) <==> a % m == 0
  {
    hide Cong;
    CongIffMod(a, 0, m);
  }

  lemma UnitBelow(a: int, m: int)
    requires 0 < a < m
    ensures !Cong(a, 0, m)
  {
    hide Cong;
    if Cong(a, 0, m) {
      CongUnique(a, 0, m);
    }
  }

  ghost predicate Divides(d: int, p: int)
    requires d > 0
  {
    p % d == 0
  }

  ghost predicate Prime(p: int) {
    2 <= p && forall d :: 2 <= d < p ==> !Divides(d, p)
  }

  /** Euclid's lemma, by descent on the first factor. */
  lemma {:induction false} EuclidReduced(a: int, b: int, p: int)
    requires Prime(p) && 0 < a < p && Cong(a * b, 0, p)
    ensures Cong(b, 0, p)
    decreases a
  {
    if a > 1 {
      var q, r := p / a, p % a;
      DivFacts(p, a);
      hide Cong;
      assert !Divides(a, p);
      var k := Quotient(a * b, 0, p);
      assert r * b == (b - q * k) * p by {
        assert r * b == p * b - q * (a * b);
      }
      FromMultiple(r * b, 0, b - q * k, p);
      EuclidReduced(r, b, p);
    }
  }

  lemma Euclid(a: int, b: int, p: int)
    requires Prime(p) && Cong(a * b, 0, p)
    ensures Cong(a, 0, p) || Cong(b, 0, p)
  {
    hide Cong, Prime;
    PrimePositive(p);
    ModCong(a, p);
    DivFacts(a, p);
    if a % p != 0 {
      Refl(b, p);
      MulCong(a % p, a, b, b, p);
      Trans((a % p) * b, a * b, 0, p);
      EuclidReduced(a % p, b, p);
    } else {
      Sym(0, a, p);
    }
  }

  lemma PrimePositive(p: int)
    requires Prime(p)
    ensures p >= 2
  {
  }

  lemma Cancel(a: int, b: int, c: int, p: int)
    requires Prime(p) && !Cong(a, 0, p) && Cong(a * b, a * c, p)
    ensures Cong(b, c, p)
  {
    hide Cong, Prime;
    PrimePositive(p);
    var k := Quotient(a * b, a * c, p);
    assert a * (b - c) == a * b - a * c;
    FromMultiple(a * (b - c), 0, k, p);
    Euclid(a, b - c, p);
    k := Quotient(b - c, 0, p);
    FromMultiple(b, c, k, p);
  }
}
