/** Numbers as octets, the most significant first. */
module BigEndian {
  import opened Bits
  import opened Memory

  /** The number that octets denote. */
  function Nat(c: seq<Byte>): (v: nat) {
    if c == [] then 0 else 256 * Nat(c[..|c| - 1]) + c[|c| - 1]
  }

  function Bytes(v: nat, n: nat): (b: seq<Byte>)
    ensures |b| == n
  {
    if n == 0 then [] else Bytes(v / 256, n - 1) + [v % 256]
  }

  lemma {:induction false} NatBytes(v: nat, n: nat)
    requires v < Pow2(8 * n)
    ensures Nat(Bytes(v, n)) == v
    decreases n
  {
    if n > 0 {
      EightMore(n - 1);
      NatBytes(v / 256, n - 1);
      assert Bytes(v, n)[..n - 1] == Bytes(v / 256, n - 1);
    } else {
      assert Pow2(0) == 1;
    }
  }

  lemma EightMore(k: nat)
    ensures Pow2(8 * (k + 1)) == 256 * Pow2(8 * k)
  {
    Pow2Add(8, 8 * k);
    assert Pow2(8) == 256;
  }

  lemma {:induction false} NatPrefix(c: seq<Byte>, k: nat)
    requires k <= |c|
    ensures Nat(c[..k]) <= Nat(c)
    decreases |c|
  {
    if k < |c| {
      NatPrefix(c[..|c| - 1], k);
      assert c[..|c| - 1][..k] == c[..k];
    } else {
      assert c[..k] == c;
    }
  }

  lemma NatNext(c: seq<Byte>, x: Byte)
    ensures Nat(c + [x]) == 256 * Nat(c) + x && Or(x, Nat(c) * 256) == Nat(c + [x])
  {
    assert (c + [x])[..|c|] == c;
    assert Pow2(8) == 256;
    hide Or, Pow2;
    OrDisjoint(x, Nat(c), 8);
  }

  lemma {:induction false} NatSkipZero(c: seq<Byte>)
    requires |c| > 0 && c[0] == 0
    ensures Nat(c) == Nat(c[1..])
  {
    if |c| > 1 {
      NatSkipZero(c[..|c| - 1]);
      assert c[..|c| - 1][1..] == c[1..][..|c| - 2];
    } else {
      assert c[..0] == [] && c[1..] == [];
    }
  }

  lemma {:induction false} NatPad(z: nat, c: seq<Byte>)
    ensures Nat(seq(z, _ => 0) + c) == Nat(c)
    decreases z
  {
    var s := seq(z, _ => 0) + c;
    if z > 0 {
      NatSkipZero(s);
      assert s[1..] == seq(z - 1, _ => 0) + c;
      NatPad(z - 1, c);
    } else {
      assert s == c;
    }
  }

  lemma {:induction false} NatLower(c: seq<Byte>)
    requires |c| > 0 && c[0] != 0
    ensures Nat(c) >= Pow2(8 * (|c| - 1))
  {
    if |c| > 1 {
      NatLower(c[..|c| - 1]);
      EightMore(|c| - 2);
    } else {
      assert Pow2(0) == 1;
    }
  }

  lemma {:induction false} NatUpper(c: seq<Byte>)
    ensures Nat(c) < Pow2(8 * |c|)
  {
    if |c| > 0 {
      NatUpper(c[..|c| - 1]);
      EightMore(|c| - 1);
    } else {
      assert Pow2(0) == 1;
    }
  }

  lemma {:induction false} NatAppend(c: seq<Byte>, d: seq<Byte>)
    ensures Nat(c + d) == Nat(c) * Pow2(8 * |d|) + Nat(d)
  {
    if |d| > 0 {
      var e, x := d[..|d| - 1], d[|d| - 1];
      NatAppend(c, e);
      EightMore(|e|);
      hide Pow2;
      assert c + d == (c + e) + [x] && d == e + [x];
      hide Nat;
      NatNext(c + e, x);
      NatNext(e, x);
      Carried(Nat(c), Pow2(8 * |e|));
    } else {
      assert c + d == c && Pow2(0) == 1;
    }
  }

  lemma Carried(c: int, p: int)
    ensures c * (256 * p) == 256 * (c * p)
  {
  }

  /** As many octets denote a number in one way only. */
  lemma {:induction false} NatUnique(c: seq<Byte>, d: seq<Byte>)
    requires |c| == |d| && Nat(c) == Nat(d)
    ensures c == d
  {
    if |c| > 0 {
      var n := |c| - 1;
      NatUnique(c[..n], d[..n]);
      assert c == c[..n] + [c[n]] && d == d[..n] + [d[n]];
    }
  }

  lemma NatStep(c: seq<Byte>, k: nat)
    requires k < |c|
    ensures Nat(c[..k + 1]) == Next(Nat(c[..k]), c[k])
  {
    assert c[..k + 1][..k] == c[..k];
  }

  ghost function Next(v: int, x: int): int {
    0x100 * v + x
  }

  /** Four octets. */
  lemma Nat4(c: seq<Byte>)
    requires |c| == 4
    ensures Nat(c) == Next(Next(Next(c[0], c[1]), c[2]), c[3])
  {
    assert c[..4] == c && c[..0] == [];
    hide Nat;
    EmptyNat(c[..0]);
    NatStep(c, 0);
    NatStep(c, 1);
    NatStep(c, 2);
    NatStep(c, 3);
  }

  /** Six octets. */
  lemma Nat6(c: seq<Byte>)
    requires |c| == 6
    ensures Nat(c) == Next(Next(Next(Next(Next(c[0], c[1]), c[2]), c[3]), c[4]), c[5])
  {
    assert c[..6] == c && c[..0] == [];
    hide Nat;
    EmptyNat(c[..0]);
    NatStep(c, 0);
    NatStep(c, 1);
    NatStep(c, 2);
    NatStep(c, 3);
    NatStep(c, 4);
    NatStep(c, 5);
  }

  /** Thirteen octets. */
  lemma Nat13(c: seq<Byte>)
    requires |c| == 13
    ensures Nat(c) == Next(Next(Next(Next(Next(Next(Next(Next(Next(Next(Next(Next(c[0], c[1]), c[2]), c[3]), c[4]),
          c[5]), c[6]), c[7]), c[8]), c[9]), c[10]), c[11]), c[12])
  {
    assert c[..13] == c && c[..0] == [];
    hide Nat;
    EmptyNat(c[..0]);
    NatStep(c, 0);
    NatStep(c, 1);
    NatStep(c, 2);
    NatStep(c, 3);
    NatStep(c, 4);
    NatStep(c, 5);
    NatStep(c, 6);
    NatStep(c, 7);
    NatStep(c, 8);
    NatStep(c, 9);
    NatStep(c, 10);
    NatStep(c, 11);
    NatStep(c, 12);
  }

  lemma EmptyNat(c: seq<Byte>)
    requires c == []
    ensures Nat(c) == 0
  {
  }
}
