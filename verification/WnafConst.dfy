/** Constant-time recoding of a scalar into odd signed digits of fixed width. */
module WnafConst {
  import opened Bits
  import opened Fermat
  import opened Scalar
  import opened ScalarBits
  import opened Words
  import opened Wnaf

  /** The number of w-bit digits in 256 bits. */
  function WnafSize(w: nat): nat
    requires w > 0
  {
    (255 + w) / w
  }

  lemma SizeBound(word: nat, w: nat)
    requires w > 0
    ensures word * w >= 0
    ensures word * w < 256 <==> word < WnafSize(w)
  {
    var n, r := (255 + w) / w, (255 + w) % w;
    assert n * w + r == 255 + w;
    if word < n {
      MulMonotone(word + 1, n, w);
    } else {
      MulMonotone(n, word, w);
    }
  }

  lemma MulMonotone(a: int, b: int, c: nat)
    requires a <= b
    ensures a * c <= b * c
  {
    assert (b - a) * c >= 0;
  }

  /** A digit that the fixed-width recoding may use: odd, and below the base in absolute value. */
  ghost predicate OddDigit(x: int, b: int) {
    x % 2 == 1 && Abs(x) < b
  }

  ghost predicate OddDigits(d: seq<int>, b: int) {
    forall i :: 0 <= i < |d| ==> OddDigit(d[i], b)
  }

  /** The last digit read, before it is settled: odd and in range, or the borrow -1. */
  ghost predicate Pending(u: int, b: int) {
    u % 2 == 1 && -1 <= u < b
  }

  /** An even digit takes one from or gives one to the digit below it, which makes both odd. */
  lemma Settle(u: int, t: int, b: int)
    requires Pending(u, b) && 0 <= t < b && b % 2 == 0
    ensures var even, sign := if t % 2 == 0 then 1 else 0, 2 * (if u > 0 then 1 else 0) - 1;
      var d, u' := u - sign * even * b, t + sign * even;
      OddDigit(d, b) && Pending(u', b) && d + u' * b == u + t * b
  {
    if t % 2 == 0 {
      assert (u - b) % 2 == 1 && (u + b) % 2 == 1;
    }
  }

  /** The digits written, the pending digit and the bits left to read together denote sign * v. */
  ghost predicate Balance(h: int, p: int, sign: int, u: int, rest: int, b: int, v: int) {
    h + (sign * (u + rest * b)) * p == sign * v && 0 <= rest
  }

  lemma BalanceStep(h: int, p: int, sign: int, u: int, rest: int, b: int, v: int, d: int, u': int, rest': int, t: int)
    requires Balance(h, p, sign, u, rest, b, v) && rest == rest' * b + t && d + u' * b == u + t * b && 0 <= rest'
    ensures Balance(h + (d * sign) * p, b * p, sign, u', rest', b, v)
  {
    var x := u' + rest' * b;
    assert u + rest * b == d + x * b by {
      assert (rest' * b + t) * b == (rest' * b) * b + t * b;
    }
    assert (sign * (d + x * b)) * p == (d * sign) * p + (sign * x) * (b * p);
  }

  lemma RestStep(rest: int, rest': int, b: int, p: int, t: int, v: int)
    requires rest == rest' * b + t && 0 <= t && 0 < b && 0 < p && 0 <= rest' && rest * (b * p) <= v
    ensures rest' * (b * (b * p)) <= v
  {
    assert rest' * (b * (b * p)) == (rest' * b) * (b * p);
    MulMonotone(rest' * b, rest, b * p);
  }

  lemma RestZero(rest: int, b: int, p: int, v: int)
    requires 0 < b && 0 < p && 0 <= rest && rest * (b * p) <= v && v < p
    ensures rest == 0
  {
    if rest >= 1 {
      assert b * p >= p by {
        MulMonotone(1, b, p);
      }
      MulMonotone(1, rest, b * p);
    }
  }

  lemma {:induction false} PowerOfPositive(b: nat, n: nat)
    requires b > 0
    ensures Pow(b, n) > 0
  {
    if n > 0 {
      PowerOfPositive(b, n - 1);
    }
  }

  lemma {:induction false} PowerOfPow2(w: nat, n: nat)
    ensures w * n >= 0 && Pow(Pow2(w), n) == Pow2(w * n)
  {
    if n > 0 {
      PowerOfPow2(w, n - 1);
      Pow2Add(w, w * (n - 1));
      assert w * n == w + w * (n - 1);
    }
  }

  /** The recoding state after `word` digits: what is written, the pending digit u and the bits left. */
  ghost predicate Progress(d: seq<int>, word: nat, sign: int, u: int, rest: int, b: nat, v: int) {
    && word <= |d| && b > 0
    && OddDigits(d[..word], b) && Pending(u, b)
    && Balance(Horner(d[..word], b), Pow(b, word), sign, u, rest, b, v)
    && rest * (b * Pow(b, word)) <= v
  }

  lemma ProgressStart(d: seq<int>, sign: int, u: nat, rest: int, b: nat, v: int)
    requires v == rest * b + u && v % 2 == 1 && b % 2 == 0 && u < b && rest >= 0
    ensures Progress(d, 0, sign, u, rest, b, v)
  {
    assert d[..0] == [];
    assert rest * (b * 1) == rest * b;
    EvenMultiple(rest, b);
    assert Balance(0, 1, sign, u, rest, b, v);
  }

  lemma EvenMultiple(x: int, b: int)
    requires b % 2 == 0
    ensures (x * b) % 2 == 0
  {
    var h := b / 2;
    assert x * b == (x * h) * 2;
  }

  lemma ProgressStep(d: seq<int>, d': seq<int>, word: nat, sign: int, u: int, rest: int, b: nat, v: int,
                     x: int, u': int, rest': int, t: int)
    requires word < |d| == |d'| && Progress(d, word, sign, u, rest, b, v) && (sign == 1 || sign == -1)
    requires rest == rest' * b + t && 0 <= t && x + u' * b == u + t * b && 0 <= rest'
    requires OddDigit(x, b) && Pending(u', b) && d' == d[word := x * sign]
    ensures Progress(d', word + 1, sign, u', rest', b, v)
  {
    assert d'[..word + 1] == d[..word] + [x * sign];
    PowerOfPositive(b, word);
    assert Pow(b, word + 1) == b * Pow(b, word);
    SignedOdd(x, sign, b);
    hide Horner, Pow, Pending, OddDigit, Balance;
    HornerAppend(d[..word], x * sign, b);
    BalanceStep(Horner(d[..word], b), Pow(b, word), sign, u, rest, b, v, x, u', rest', t);
    RestStep(rest, rest', b, Pow(b, word), t, v);
  }

  lemma SignedOdd(x: int, sign: int, b: int)
    requires OddDigit(x, b) && (sign == 1 || sign == -1)
    ensures OddDigit(x * sign, b)
  {
  }

  lemma ProgressEnd(d: seq<int>, d': seq<int>, word: nat, sign: int, u: int, rest: int, b: nat, v: int)
    requires word + 1 == |d| == |d'| && Progress(d, word, sign, u, rest, b, v) && (sign == 1 || sign == -1)
    requires 0 <= v < Pow(b, word) && d' == d[word := u * sign] && b > 1
    ensures OddDigits(d', b) && rest == 0 && Horner(d', b) == sign * v
  {
    assert d' == d[..word] + [u * sign];
    SignedOdd(u, sign, b);
    PowerOfPositive(b, word);
    hide Horner, Pow, OddDigit;
    HornerAppend(d[..word], u * sign, b);
    RestZero(rest, b, Pow(b, word), v);
    assert u * sign == sign * (u + 0 * b);
  }

  predicate IsEven(d: seq<Word>)
    requires |d| == 8
  {
    d[0] % 2 == 0
  }

  lemma ValueParity(d: seq<Word>)
    requires |d| == 8
    ensures IsEven(d) <==> Value(d) % 2 == 0
  {
  }

  /** The residue that a skewed recoding stands for. */
  ghost function SkewedValue(a: int, skew: int): int {
    a + skew - if a > N / 2 then N else 0
  }

  /** What the skew and the two sign flips make of the scalar, the residue -1 included. */
  lemma Prepared(a: int, flip: bool, bit: nat, notNegOne: bool, v: int, sign: int)
    requires 0 <= a < N && (flip <==> a > N / 2) && (notNegOne <==> (N - a) % N != 1)
    requires bit == if flip != (a % 2 == 1) then 1 else 0
    requires v == Skewed(a, flip, bit, notNegOne)
    requires sign == (if flip then -1 else 1) * (if notNegOne then 1 else -1)
    ensures 0 < v < N && v % 2 == 1 && sign * v == SkewedValue(a, bit + 1)
    ensures sign == 1 || sign == -1
  {
    if !notNegOne {
      assert a == N - 1;
    }
  }

  /** The working scalar: the skew is added, except to -1, and high scalars are negated. */
  ghost function Skewed(a: int, flip: bool, bit: nat, notNegOne: bool): int {
    var s := a + if notNegOne then bit + 1 else 0;
    if flip then (N - s) % N else s
  }

  lemma SkewFits(a: int, flip: bool, bit: nat, notNegOne: bool)
    requires 0 <= a < N && (flip <==> a > N / 2) && (notNegOne <==> (N - a) % N != 1)
    requires bit == if flip != (a % 2 == 1) then 1 else 0
    ensures notNegOne ==> a + bit + 1 < N
    ensures Pow2(bit) == bit + 1 && N < R256
  {
    if a == N - 1 {
      assert (N - a) % N == 1;
    }
  }

  lemma OrderFits(w: nat)
    requires w > 0
    ensures N < Pow(Pow2(w), WnafSize(w)) && Pow2(w) > 1 && Pow2(w) % 2 == 0
  {
    Pow2Even(w);
    hide Pow2, Pow, WnafSize;
    var n := WnafSize(w);
    SizeBound(n, w);
    PowerOfPow2(w, n);
    assert w * n == n * w;
    Pow2Mono(256, w * n);
    Pow2Wide();
  }

  /** The sign and skew that precede the recoding loop, on the working copy s. */
  method Prepare(s: array<Word>) returns (globalSign: int, skew: nat)
    requires s.Length == 8 && Value(s[..]) < N
    modifies s
    ensures skew == 1 || skew == 2
    ensures globalSign == 1 || globalSign == -1
    ensures 0 < Value(s[..]) < N && Value(s[..]) % 2 == 1
    ensures globalSign * Value(s[..]) == SkewedValue(old(Value(s[..])), skew)
  {
    ghost var a := Value(s[..]);
    ValueRange(s[..]);
    ValueParity(s[..]);
    hide Value, N, SkewedValue, Skewed, R256, Pow2;
    var flip := IsHigh(s[..]);
    var bit: nat := if flip != !IsEven(s[..]) then 1 else 0;
    var negS := new Word[8];
    Scalar.Negate(negS, s);
    var notNegOne := !IsOne(negS[..]);
    SkewFits(a, flip, bit, notNegOne);
    CaddBit(s, bit, notNegOne);
    globalSign := CondNegate(s, flip);
    globalSign := globalSign * (if notNegOne then 1 else -1);
    skew := Pow2(bit);
    Prepared(a, flip, bit, notNegOne, Value(s[..]), globalSign);
  }

  /** The recoding: its digits denote the scalar plus the skew, less the order for a high scalar. */
  method RecodeConst(wnaf: array<int>, a: seq<Word>, w: nat) returns (skew: nat)
    requires |a| == 8 && Value(a) < N && 0 < w < 16 && wnaf.Length == WnafSize(w) + 1
    modifies wnaf
    ensures skew == 1 || skew == 2
    ensures OddDigits(wnaf[..], Pow2(w))
    ensures Horner(wnaf[..], Pow2(w)) == SkewedValue(Value(a), skew)
  {
    hide *;
    var s := new Word[8];
    Store(s, a);
    assert s[..] == a;
    var globalSign;
    globalSign, skew := Prepare(s);
    ghost var v, b := Value(s[..]), Pow2(w);
    OrderFits(w);
    ValueRange(s[..]);
    var word := 0;
    var uLast := ShrInt(s, w);
    ValueRange(s[..]);
    ProgressStart(wnaf[..], globalSign, uLast, Value(s[..]), b, v);
    var u := uLast;
    SizeBound(word, w);
    while word * w < 256
      invariant 0 <= word <= WnafSize(w) && (word * w < 256 <==> word < WnafSize(w))
      invariant Progress(wnaf[..], word, globalSign, uLast, Value(s[..]), b, v)
      invariant u == uLast
      decreases WnafSize(w) - word
    {
      ghost var d, u0, rest := wnaf[..], uLast, Value(s[..]);
      u := ShrInt(s, w);
      ghost var t := u;
      ValueRange(s[..]);
      ProgressPending(d, word, globalSign, u0, rest, b, v);
      Settle(u0, t, b);
      var even := if u % 2 == 0 then 1 else 0;
      var sign := 2 * (if uLast > 0 then 1 else 0) - 1;
      u := u + sign * even;
      uLast := uLast - sign * even * Pow2(w);
      wnaf[word] := uLast * globalSign;
      ProgressStep(d, wnaf[..], word, globalSign, u0, rest, b, v, uLast, u, Value(s[..]), t);
      word := word + 1;
      uLast := u;
      SizeBound(word, w);
    }
    ghost var d := wnaf[..];
    wnaf[word] := u * globalSign;
    ProgressEnd(d, wnaf[..], word, globalSign, u, Value(s[..]), b, v);
    assert IsZero(s[..]);
  }

  lemma ProgressPending(d: seq<int>, word: nat, sign: int, u: int, rest: int, b: nat, v: int)
    requires Progress(d, word, sign, u, rest, b, v)
    ensures Pending(u, b)
  {
  }
}
