/** The unrolled SHA-256 transformation. */
module Hash {
  import opened Bits
  import opened Fips180
  import opened Memory
  import opened Words

  function ChMacro(x: Word, y: Word, z: Word): nat {
    Xor(z, And(x, Xor(y, z)))
  }

  function MajMacro(x: Word, y: Word, z: Word): nat {
    Or(And(x, y), And(z, Or(x, y)))
  }

  type Bit = x: int | 0 <= x < 2

  lemma AndBits(x: nat, y: nat, x': nat, y': nat, i: Bit, j: Bit)
    requires x == 2 * x' + i && y == 2 * y' + j
    ensures And(x, y) == 2 * And(x', y') + if i == 1 && j == 1 then 1 else 0
  {
    assert x / 2 == x' && y / 2 == y' && x % 2 == i && y % 2 == j;
  }

  lemma OrBits(x: nat, y: nat, x': nat, y': nat, i: Bit, j: Bit)
    requires x == 2 * x' + i && y == 2 * y' + j
    ensures Or(x, y) == 2 * Or(x', y') + if i == 1 || j == 1 then 1 else 0
  {
    assert x / 2 == x' && y / 2 == y' && x % 2 == i && y % 2 == j;
  }

  lemma XorBits(x: nat, y: nat, x': nat, y': nat, i: Bit, j: Bit)
    requires x == 2 * x' + i && y == 2 * y' + j
    ensures Xor(x, y) == 2 * Xor(x', y') + if i == j then 0 else 1
  {
    assert x / 2 == x' && y / 2 == y' && x % 2 == i && y % 2 == j;
    assert (x + y) % 2 == if i == j then 0 else 1;
  }

  lemma NotBits(x: nat, x': nat, i: Bit, n: nat)
    requires n > 0 && x == 2 * x' + i && x < Pow2(n)
    ensures x' < Pow2(n - 1) && Not(x, n) == 2 * Not(x', n - 1) + (1 - i)
  {
  }

  lemma ChTable(i: Bit, j: Bit, k: Bit, l: Bit, p: Bit, q: Bit, r: Bit, s: Bit)
    requires i != l && p == (if j == k then 0 else 1) && q == (if i == 1 && p == 1 then 1 else 0)
    requires r == (if i == 1 && j == 1 then 1 else 0) && s == (if l == 1 && k == 1 then 1 else 0)
    ensures k == q <==> r == s
  {
  }

  lemma ChStep(x: nat, y: nat, z: nat, nx: nat, x': nat, y': nat, z': nat, nx': nat,
               i: Bit, j: Bit, k: Bit, l: Bit)
    requires x == 2 * x' + i && y == 2 * y' + j && z == 2 * z' + k && nx == 2 * nx' + l && i != l
    requires Xor(z', And(x', Xor(y', z'))) == Xor(And(x', y'), And(nx', z'))
    ensures Xor(z, And(x, Xor(y, z))) == Xor(And(x, y), And(nx, z))
  {
    hide *;
    var p: Bit := if j == k then 0 else 1;
    var q: Bit := if i == 1 && p == 1 then 1 else 0;
    var r: Bit := if i == 1 && j == 1 then 1 else 0;
    var s: Bit := if l == 1 && k == 1 then 1 else 0;
    ChTable(i, j, k, l, p, q, r, s);
    ChoiceBits(x, y, z, x', y', z', i, j, k, p, q);
    SelectBits(x, y, z, nx, x', y', z', nx', i, j, k, l, r, s);
  }

  lemma SelectBits(x: nat, y: nat, z: nat, nx: nat, x': nat, y': nat, z': nat, nx': nat,
                   i: Bit, j: Bit, k: Bit, l: Bit, r: Bit, s: Bit)
    requires x == 2 * x' + i && y == 2 * y' + j && z == 2 * z' + k && nx == 2 * nx' + l
    requires r == (if i == 1 && j == 1 then 1 else 0) && s == if l == 1 && k == 1 then 1 else 0
    ensures Xor(And(x, y), And(nx, z)) == 2 * Xor(And(x', y'), And(nx', z')) + if r == s then 0 else 1
  {
    hide *;
    AndBits(x, y, x', y', i, j);
    AndBits(nx, z, nx', z', l, k);
    XorBits(And(x, y), And(nx, z), And(x', y'), And(nx', z'), r, s);
  }

  lemma ChoiceBits(x: nat, y: nat, z: nat, x': nat, y': nat, z': nat, i: Bit, j: Bit, k: Bit, p: Bit, q: Bit)
    requires x == 2 * x' + i && y == 2 * y' + j && z == 2 * z' + k
    requires p == (if j == k then 0 else 1) && q == if i == 1 && p == 1 then 1 else 0
    ensures Xor(z, And(x, Xor(y, z))) == 2 * Xor(z', And(x', Xor(y', z'))) + if k == q then 0 else 1
  {
    hide *;
    XorBits(y, z, y', z', j, k);
    AndBits(x, Xor(y, z), x', Xor(y', z'), i, p);
    XorBits(z, And(x, Xor(y, z)), z', And(x', Xor(y', z')), k, q);
  }

  /** The choice without a negation. */
  lemma {:induction false} ChAgrees(x: nat, y: nat, z: nat, n: nat)
    requires x < Pow2(n) && y < Pow2(n) && z < Pow2(n)
    ensures Xor(z, And(x, Xor(y, z))) == Xor(And(x, y), And(Not(x, n), z))
  {
    if n > 0 {
      NotBits(x, x / 2, x % 2, n);
      NotBits(y, y / 2, y % 2, n);
      NotBits(z, z / 2, z % 2, n);
      hide *;
      ChAgrees(x / 2, y / 2, z / 2, n - 1);
      ChStep(x, y, z, Not(x, n), x / 2, y / 2, z / 2, Not(x / 2, n - 1), x % 2, y % 2, z % 2, 1 - x % 2);
    }
  }

  lemma MajStep(x: nat, y: nat, z: nat, x': nat, y': nat, z': nat, i: Bit, j: Bit, k: Bit)
    requires x == 2 * x' + i && y == 2 * y' + j && z == 2 * z' + k
    requires Or(And(x', y'), And(z', Or(x', y'))) == Xor(Xor(And(x', y'), And(x', z')), And(y', z'))
    ensures Or(And(x, y), And(z, Or(x, y))) == Xor(Xor(And(x, y), And(x, z)), And(y, z))
  {
    hide *;
    var o: Bit := if i == 1 || j == 1 then 1 else 0;
    var p: Bit := if i == 1 && j == 1 then 1 else 0;
    var q: Bit := if i == 1 && k == 1 then 1 else 0;
    var r: Bit := if j == 1 && k == 1 then 1 else 0;
    var s: Bit := if k == 1 && o == 1 then 1 else 0;
    var t: Bit := if p == q then 0 else 1;
    OrBits(x, y, x', y', i, j);
    AndBits(x, y, x', y', i, j);
    AndBits(x, z, x', z', i, k);
    AndBits(y, z, y', z', j, k);
    AndBits(z, Or(x, y), z', Or(x', y'), k, o);
    OrBits(And(x, y), And(z, Or(x, y)), And(x', y'), And(z', Or(x', y')), p, s);
    XorBits(And(x, y), And(x, z), And(x', y'), And(x', z'), p, q);
    XorBits(Xor(And(x, y), And(x, z)), And(y, z), Xor(And(x', y'), And(x', z')), And(y', z'), t, r);
  }

  /** The majority from one conjunction and two disjunctions. */
  lemma {:induction false} MajAgrees(x: nat, y: nat, z: nat)
    ensures Or(And(x, y), And(z, Or(x, y))) == Xor(Xor(And(x, y), And(x, z)), And(y, z))
    decreases x + y + z
  {
    if x + y + z > 0 {
      hide *;
      MajAgrees(x / 2, y / 2, z / 2);
      MajStep(x, y, z, x / 2, y / 2, z / 2, x % 2, y % 2, z % 2);
    }
  }

  lemma MacrosAgree(x: Word, y: Word, z: Word)
    ensures ChMacro(x, y, z) == Ch(x, y, z) && MajMacro(x, y, z) == Maj(x, y, z)
  {
    Pow2Values();
    hide Pow2, And, Or, Xor, Not;
    ChAgrees(x, y, z, 32);
    MajAgrees(x, y, z);
  }

  /** One round, on variables whose roles rotate from call to call: only the fourth and the last change. */
  method Round(a: Word, b: Word, c: Word, d: Word, e: Word, f: Word, g: Word, h: Word, k: Word, w: Word,
               ghost s: State, ghost m: seq<Word>, ghost t: nat)
    returns (d': Word, h': Word)
    requires |m| == 16 && t < 64 && State(a, b, c, d, e, f, g, h) == Rounds(s, m, t) && k == K(t) && w == W(m, t)
    ensures State(h', a, b, c, d', e, f, g) == Rounds(s, m, t + 1)
  {
    hide BigSigma0, BigSigma1, ChMacro, MajMacro, Ch, Maj, W;
    MacrosAgree(e, f, g);
    MacrosAgree(a, b, c);
    var t1 := Low32(h + BigSigma1(e) + ChMacro(e, f, g) + k + w);
    var t2 := Low32(BigSigma0(a) + MajMacro(a, b, c));
    d' := Low32((d as int) + t1);
    h' := Low32((t1 as int) + t2);
    assert State(h', a, b, c, d', e, f, g) == Step(State(a, b, c, d, e, f, g, h), k, w);
  }

  /** The words of a full turn of eight rounds, and their constants, are those of rounds t to t + 7. */
  ghost predicate Turn(m: seq<Word>, t: nat, k: seq<Word>, w: seq<Word>)
    requires |m| == 16
  {
    t + 8 <= 64 && |k| == |w| == 8 && forall i :: 0 <= i < 8 ==> k[i] == K(t + i) && w[i] == W(m, t + i)
  }

  lemma TurnAt(m: seq<Word>, t: nat, k: seq<Word>, w: seq<Word>)
    requires |m| == 16 && Turn(m, t, k, w)
    ensures t + 8 <= 64 && |k| == |w| == 8
    ensures k[0] == K(t) && k[1] == K(t + 1) && k[2] == K(t + 2) && k[3] == K(t + 3)
    ensures k[4] == K(t + 4) && k[5] == K(t + 5) && k[6] == K(t + 6) && k[7] == K(t + 7)
    ensures w[0] == W(m, t) && w[1] == W(m, t + 1) && w[2] == W(m, t + 2) && w[3] == W(m, t + 3)
    ensures w[4] == W(m, t + 4) && w[5] == W(m, t + 5) && w[6] == W(m, t + 6) && w[7] == W(m, t + 7)
  {
    hide W;
  }

  /** Eight rounds, after which every variable is back in its role. */
  method EightRounds(s: State, k: seq<Word>, w: seq<Word>, ghost s0: State, ghost m: seq<Word>,
      ghost t: nat)
    returns (r: State)
    requires |m| == 16 && Turn(m, t, k, w) && s == Rounds(s0, m, t)
    ensures r == Rounds(s0, m, t + 8)
  {
    hide *;
    TurnAt(m, t, k, w);
    var a, b, c, d := s.a, s.b, s.c, s.d;
    var e, f, g, h := s.e, s.f, s.g, s.h;
    d, h := Round(a, b, c, d, e, f, g, h, k[0], w[0], s0, m, t);
    c, g := Round(h, a, b, c, d, e, f, g, k[1], w[1], s0, m, t + 1);
    b, f := Round(g, h, a, b, c, d, e, f, k[2], w[2], s0, m, t + 2);
    a, e := Round(f, g, h, a, b, c, d, e, k[3], w[3], s0, m, t + 3);
    h, d := Round(e, f, g, h, a, b, c, d, k[4], w[4], s0, m, t + 4);
    g, c := Round(d, e, f, g, h, a, b, c, k[5], w[5], s0, m, t + 5);
    f, b := Round(c, d, e, f, g, h, a, b, k[6], w[6], s0, m, t + 6);
    e, a := Round(b, c, d, e, f, g, h, a, k[7], w[7], s0, m, t + 7);
    r := State(a, b, c, d, e, f, g, h);
  }

  /** Consecutive words of the schedule from the t-th on. */
  ghost predicate Window(m: seq<Word>, t: nat, w: seq<Word>)
    requires |m| == 16
  {
    forall i :: 0 <= i < |w| ==> w[i] == W(m, t + i)
  }

  lemma WindowAt(m: seq<Word>, t: nat, w: seq<Word>)
    requires |m| == 16 && |w| == 8 && Window(m, t, w)
    ensures w[0] == W(m, t) && w[1] == W(m, t + 1) && w[2] == W(m, t + 2) && w[3] == W(m, t + 3)
    ensures w[4] == W(m, t + 4) && w[5] == W(m, t + 5) && w[6] == W(m, t + 6) && w[7] == W(m, t + 7)
  {
    hide W;
  }

  lemma IntroWindow(m: seq<Word>, t: nat, w: seq<Word>)
    requires |m| == 16 && |w| == 8
    requires w[0] == W(m, t) && w[1] == W(m, t + 1) && w[2] == W(m, t + 2) && w[3] == W(m, t + 3)
    requires w[4] == W(m, t + 4) && w[5] == W(m, t + 5) && w[6] == W(m, t + 6) && w[7] == W(m, t + 7)
    ensures Window(m, t, w)
  {
    hide W;
  }

  lemma LowSum(a: nat, b: nat)
    ensures Low32(a + Low32(b)) == Low32(a + b)
  {
  }

  lemma Recurrence(m: seq<Word>, t: nat)
    requires |m| == 16
    ensures W(m, t + 16) == Low32(SmallSigma1(W(m, t + 14)) + W(m, t + 9) + SmallSigma0(W(m, t + 1)) + W(m, t))
  {
    hide SmallSigma0, SmallSigma1;
  }

  /** The in-place update of one word makes it the word sixteen places on. */
  lemma Scheduled(m: seq<Word>, t: nat, w0: Word, w1: Word, w9: Word, w14: Word)
    requires |m| == 16 && w0 == W(m, t) && w1 == W(m, t + 1) && w9 == W(m, t + 9) && w14 == W(m, t + 14)
    ensures Low32(w0 + Low32(SmallSigma1(w14) + w9 + SmallSigma0(w1))) == W(m, t + 16)
  {
    hide *;
    Recurrence(m, t);
    LowSum(w0, SmallSigma1(w14) + w9 + SmallSigma0(w1));
  }

  /** The lower half of the rotating window moves on by sixteen words. */
  method ScheduleLow(low: seq<Word>, high: seq<Word>, ghost m: seq<Word>, ghost t: nat) returns (next: seq<Word>)
    requires |m| == 16 && |low| == |high| == 8 && Window(m, t, low) && Window(m, t + 8, high)
    ensures |next| == 8 && Window(m, t + 16, next)
  {
    hide *;
    WindowAt(m, t, low);
    WindowAt(m, t + 8, high);
    var w0, w1, w2, w3, w4, w5, w6, w7 := low[0], low[1], low[2], low[3], low[4], low[5], low[6], low[7];
    var w8, w9, w10, w11, w12, w13, w14, w15 := high[0], high[1], high[2], high[3], high[4], high[5], high[6], high[7];
    Scheduled(m, t + 0, w0, w1, w9, w14);
    w0 := Low32(w0 + Low32(SmallSigma1(w14) + w9 + SmallSigma0(w1)));
    Scheduled(m, t + 1, w1, w2, w10, w15);
    w1 := Low32(w1 + Low32(SmallSigma1(w15) + w10 + SmallSigma0(w2)));
    Scheduled(m, t + 2, w2, w3, w11, w0);
    w2 := Low32(w2 + Low32(SmallSigma1(w0) + w11 + SmallSigma0(w3)));
    Scheduled(m, t + 3, w3, w4, w12, w1);
    w3 := Low32(w3 + Low32(SmallSigma1(w1) + w12 + SmallSigma0(w4)));
    Scheduled(m, t + 4, w4, w5, w13, w2);
    w4 := Low32(w4 + Low32(SmallSigma1(w2) + w13 + SmallSigma0(w5)));
    Scheduled(m, t + 5, w5, w6, w14, w3);
    w5 := Low32(w5 + Low32(SmallSigma1(w3) + w14 + SmallSigma0(w6)));
    Scheduled(m, t + 6, w6, w7, w15, w4);
    w6 := Low32(w6 + Low32(SmallSigma1(w4) + w15 + SmallSigma0(w7)));
    Scheduled(m, t + 7, w7, w8, w0, w5);
    w7 := Low32(w7 + Low32(SmallSigma1(w5) + w0 + SmallSigma0(w8)));
    next := [w0, w1, w2, w3, w4, w5, w6, w7];
    IntroWindow(m, t + 16, next);
  }

  /** The upper half of the rotating window moves on by sixteen words, after the lower half has. */
  method ScheduleHigh(low: seq<Word>, high: seq<Word>, ghost m: seq<Word>, ghost t: nat) returns (next: seq<Word>)
    requires |m| == 16 && |low| == |high| == 8 && Window(m, t + 16, low) && Window(m, t + 8, high)
    ensures |next| == 8 && Window(m, t + 24, next)
  {
    hide *;
    WindowAt(m, t + 16, low);
    WindowAt(m, t + 8, high);
    var w0, w1, w2, w3, w4, w5, w6, w7 := low[0], low[1], low[2], low[3], low[4], low[5], low[6], low[7];
    var w8, w9, w10, w11, w12, w13, w14, w15 := high[0], high[1], high[2], high[3], high[4], high[5], high[6], high[7];
    Scheduled(m, t + 8, w8, w9, w1, w6);
    w8 := Low32(w8 + Low32(SmallSigma1(w6) + w1 + SmallSigma0(w9)));
    Scheduled(m, t + 9, w9, w10, w2, w7);
    w9 := Low32(w9 + Low32(SmallSigma1(w7) + w2 + SmallSigma0(w10)));
    Scheduled(m, t + 10, w10, w11, w3, w8);
    w10 := Low32(w10 + Low32(SmallSigma1(w8) + w3 + SmallSigma0(w11)));
    Scheduled(m, t + 11, w11, w12, w4, w9);
    w11 := Low32(w11 + Low32(SmallSigma1(w9) + w4 + SmallSigma0(w12)));
    Scheduled(m, t + 12, w12, w13, w5, w10);
    w12 := Low32(w12 + Low32(SmallSigma1(w10) + w5 + SmallSigma0(w13)));
    Scheduled(m, t + 13, w13, w14, w6, w11);
    w13 := Low32(w13 + Low32(SmallSigma1(w11) + w6 + SmallSigma0(w14)));
    Scheduled(m, t + 14, w14, w15, w7, w12);
    w14 := Low32(w14 + Low32(SmallSigma1(w12) + w7 + SmallSigma0(w15)));
    Scheduled(m, t + 15, w15, w0, w8, w13);
    w15 := Low32(w15 + Low32(SmallSigma1(w13) + w8 + SmallSigma0(w0)));
    next := [w8, w9, w10, w11, w12, w13, w14, w15];
    IntroWindow(m, t + 24, next);
  }

  /** The constants of eight rounds, against the table of the standard. */
  lemma TurnOf(m: seq<Word>, i: nat, t: nat, k: seq<Word>, w: seq<Word>)
    requires |m| == 16 && i < 8 && t == 8 * i && |w| == 8 && k == Row(i) && Window(m, t, w)
    ensures Turn(m, t, k, w)
  {
    hide W, Row;
  }

  lemma FirstWindows(m: seq<Word>)
    requires |m| == 16
    ensures Window(m, 0, m[..8]) && Window(m, 8, m[8..])
  {
  }

  lemma Constants()
    ensures Row(0) == [0x428a2f98, 0x71374491, 0xb5c0fbcf, 0xe9b5dba5, 0x3956c25b, 0x59f111f1, 0x923f82a4, 0xab1c5ed5]
    ensures Row(1) == [0xd807aa98, 0x12835b01, 0x243185be, 0x550c7dc3, 0x72be5d74, 0x80deb1fe, 0x9bdc06a7, 0xc19bf174]
    ensures Row(2) == [0xe49b69c1, 0xefbe4786, 0x0fc19dc6, 0x240ca1cc, 0x2de92c6f, 0x4a7484aa, 0x5cb0a9dc, 0x76f988da]
    ensures Row(3) == [0x983e5152, 0xa831c66d, 0xb00327c8, 0xbf597fc7, 0xc6e00bf3, 0xd5a79147, 0x06ca6351, 0x14292967]
    ensures Row(4) == [0x27b70a85, 0x2e1b2138, 0x4d2c6dfc, 0x53380d13, 0x650a7354, 0x766a0abb, 0x81c2c92e, 0x92722c85]
    ensures Row(5) == [0xa2bfe8a1, 0xa81a664b, 0xc24b8b70, 0xc76c51a3, 0xd192e819, 0xd6990624, 0xf40e3585, 0x106aa070]
    ensures Row(6) == [0x19a4c116, 0x1e376c08, 0x2748774c, 0x34b0bcb5, 0x391c0cb3, 0x4ed8aa4a, 0x5b9cca4f, 0x682e6ff3]
    ensures Row(7) == [0x748f82ee, 0x78a5636f, 0x84c87814, 0x8cc70208, 0x90befffa, 0xa4506ceb, 0xbef9a3f7, 0xc67178f2]
  {
  }

  /** The unrolled compression of a block: the words are read once and then overwritten in place. */
  method SixtyFourRounds(s: State, m: seq<Word>) returns (r: State)
    requires |m| == 16
    ensures r == Rounds(s, m, 64)
  {
    hide *;
    Constants();
    FirstRound(s, m);
    FirstWindows(m);
    var low, high := m[..8], m[8..];
    r := s;
    var k0 := [0x428a2f98, 0x71374491, 0xb5c0fbcf, 0xe9b5dba5, 0x3956c25b, 0x59f111f1, 0x923f82a4, 0xab1c5ed5];
    TurnOf(m, 0, 0, k0, low);
    r := EightRounds(r, k0, low, s, m, 0);
    var k1 := [0xd807aa98, 0x12835b01, 0x243185be, 0x550c7dc3, 0x72be5d74, 0x80deb1fe, 0x9bdc06a7, 0xc19bf174];
    TurnOf(m, 1, 8, k1, high);
    r := EightRounds(r, k1, high, s, m, 8);
    low := ScheduleLow(low, high, m, 0);
    var k2 := [0xe49b69c1, 0xefbe4786, 0x0fc19dc6, 0x240ca1cc, 0x2de92c6f, 0x4a7484aa, 0x5cb0a9dc, 0x76f988da];
    TurnOf(m, 2, 16, k2, low);
    r := EightRounds(r, k2, low, s, m, 16);
    high := ScheduleHigh(low, high, m, 0);
    var k3 := [0x983e5152, 0xa831c66d, 0xb00327c8, 0xbf597fc7, 0xc6e00bf3, 0xd5a79147, 0x06ca6351, 0x14292967];
    TurnOf(m, 3, 24, k3, high);
    r := EightRounds(r, k3, high, s, m, 24);
    low := ScheduleLow(low, high, m, 16);
    var k4 := [0x27b70a85, 0x2e1b2138, 0x4d2c6dfc, 0x53380d13, 0x650a7354, 0x766a0abb, 0x81c2c92e, 0x92722c85];
    TurnOf(m, 4, 32, k4, low);
    r := EightRounds(r, k4, low, s, m, 32);
    high := ScheduleHigh(low, high, m, 16);
    var k5 := [0xa2bfe8a1, 0xa81a664b, 0xc24b8b70, 0xc76c51a3, 0xd192e819, 0xd6990624, 0xf40e3585, 0x106aa070];
    TurnOf(m, 5, 40, k5, high);
    r := EightRounds(r, k5, high, s, m, 40);
    low := ScheduleLow(low, high, m, 32);
    var k6 := [0x19a4c116, 0x1e376c08, 0x2748774c, 0x34b0bcb5, 0x391c0cb3, 0x4ed8aa4a, 0x5b9cca4f, 0x682e6ff3];
    TurnOf(m, 6, 48, k6, low);
    r := EightRounds(r, k6, low, s, m, 48);
    high := ScheduleHigh(low, high, m, 32);
    var k7 := [0x748f82ee, 0x78a5636f, 0x84c87814, 0x8cc70208, 0x90befffa, 0xa4506ceb, 0xbef9a3f7, 0xc67178f2];
    TurnOf(m, 7, 56, k7, high);
    r := EightRounds(r, k7, high, s, m, 56);
  }

  lemma FirstRound(s: State, m: seq<Word>)
    requires |m| == 16
    ensures Rounds(s, m, 0) == s
  {
  }
}
