/** Blinded multiplication of the generator, and the context whose blinding can be renewed at any time. */
module EcmultGen {
  import opened Bits
  import opened Curve
  import opened Ecmult
  import opened FieldElement
  import opened Formulas
  import opened GenTable
  import opened Group
  import opened Jacobian
  import opened Magnitudes
  import opened Memory
  import opened Modular
  import opened ScalarBits
  import opened Scalars
  import opened Tables
  import BigEndian
  import Words
  import Scalar
  import Wnaf

  /** The blinding state: a scalar and the point that the sums start from. */
  datatype Blinding = Blinding(blind: int, initial: Point)

  /** What a renewal does: it may first start from scratch, and then draws a new scalar. */
  datatype Renewal = Cleared | Redrawn(b: int)

  ghost function Reset(): Blinding {
    Blinding(1, Neg(G))
  }

  /** What the table-driven sum yields for the scalar n. */
  ghost function Blinded(s: Blinding, n: int): Point {
    Add(s.initial, Mul((n + s.blind) % N, G))
  }

  /** The state after a sequence of renewals. */
  ghost function After(run: seq<Renewal>): Blinding {
    if run == [] then Reset() else
    match run[|run| - 1]
    case Cleared => Reset()
    case Redrawn(b) => Blinding((N - b) % N, Blinded(After(run[..|run| - 1]), b))
  }

  ghost predicate Drawn(run: seq<Renewal>) {
    forall i :: 0 <= i < |run| && run[i].Redrawn? ==> 0 < run[i].b < N
  }

  lemma UnblindAt(blind: int, n: int, m: int)
    requires Secp256k1() && Cong(m, n + blind, N)
    ensures Add(Mul(-blind, G), Mul(m, G)) == Mul(n, G)
  {
    hide *;
    GeneratorOnCurve();
    MulMod(m, n + blind, G);
    MulAdd(-blind, n + blind, G);
  }

  lemma SumResidue(n: int, blind: int)
    ensures Cong((n + blind) % N, n + blind, N)
  {
    hide Cong;
    ModCong(n + blind, N);
  }

  lemma Unblind(s: Blinding, n: int)
    requires Secp256k1() && s.initial == Mul(-s.blind, G)
    ensures Blinded(s, n) == Mul(n, G)
  {
    hide Secp256k1, Mul, Add, Cong;
    SumResidue(n, s.blind);
    UnblindAt(s.blind, n, (n + s.blind) % N);
  }

  lemma NegatedDraw(b: int)
    requires 0 < b < N
    ensures Cong(b, -((N - b) % N), N)
  {
    FromMultiple(b, -(N - b), 1, N);
  }

  lemma AfterRedraw(run: seq<Renewal>, b: int)
    ensures N > 0 && After(run + [Redrawn(b)]) == Blinding((N - b) % N, Blinded(After(run), b))
    ensures After(run + [Cleared]) == Reset()
    ensures Drawn(run + [Redrawn(b)]) <==> Drawn(run) && 0 < b < N
    ensures Drawn(run + [Cleared]) <==> Drawn(run)
  {
    assert (run + [Redrawn(b)])[..|run|] == run;
    hide Blinded, Reset, After;
    var r, s := run + [Redrawn(b)], run + [Cleared];
    assert r[|run|] == Redrawn(b) && forall i :: 0 <= i < |run| ==> r[i] == run[i] && s[i] == run[i];
  }

  lemma ResetState()
    ensures Reset().initial == Mul(-Reset().blind, G) && After([]) == Reset()
  {
    MulOne(G);
  }

  /** In every reachable state, the starting point undoes the blinding scalar. */
  lemma {:induction false} BlindingInvariant(run: seq<Renewal>)
    requires Secp256k1() && Drawn(run)
    ensures After(run).initial == Mul(-After(run).blind, G)
    decreases |run|
  {
    hide *;
    ResetState();
    if run != [] {
      var before, last := run[..|run| - 1], run[|run| - 1];
      assert run == before + [last];
      AfterRedraw(before, if last.Redrawn? then last.b else 0);
      BlindingInvariant(before);
      if last.Redrawn? {
        Unblind(After(before), last.b);
        NegatedDraw(last.b);
        GeneratorOnCurve();
        MulMod(last.b, -((N - last.b) % N), G);
      }
    }
  }

  /** Whatever the sequence of renewals, the blinded sum is the multiple of the generator. */
  lemma BlindedRun(run: seq<Renewal>, n: int)
    requires Secp256k1() && Drawn(run)
    ensures Blinded(After(run), n) == Mul(n, G)
  {
    hide *;
    BlindingInvariant(run);
    Unblind(After(run), n);
  }

  /** A point plus multiples of the generator and of the shifting point. */
  ghost function Sum(initial: Point, a: int, b: int): Point {
    Add(initial, Add(Mul(a, G), Mul(b, Shift())))
  }

  lemma SumStart(initial: Point)
    requires E(initial)
    ensures Sum(initial, 0, 0) == initial
  {
  }

  lemma SumEnd(initial: Point, a: int)
    ensures Sum(initial, a, 0) == Add(initial, Mul(a, G))
  {
    assert Mul(0, Shift()) == Infinity;
    hide Mul;
    Unit(Mul(a, G));
  }

  lemma SumClosed(initial: Point, a: int, b: int)
    requires Secp256k1() && E(initial)
    ensures E(Sum(initial, a, b)) && E(Mul(a, G)) && E(Mul(b, Shift())) && E(Add(Mul(a, G), Mul(b, Shift())))
  {
    hide Secp256k1, E, Mul, Add, Shift;
    ShiftOnCurve();
    MulClosed(a, G);
    MulClosed(b, Shift());
    Closed(Mul(a, G), Mul(b, Shift()));
    Closed(initial, Add(Mul(a, G), Mul(b, Shift())));
  }

  lemma SumStep(initial: Point, a: int, b: int, c: int, d: int)
    requires Secp256k1() && E(initial)
    ensures Add(Sum(initial, a, b), Add(Mul(c, G), Mul(d, Shift()))) == Sum(initial, a + c, b + d)
  {
    hide Secp256k1, E, Mul, Add, Shift;
    SumClosed(initial, a, b);
    SumClosed(initial, c, d);
    ShiftOnCurve();
    Assoc(initial, Add(Mul(a, G), Mul(b, Shift())), Add(Mul(c, G), Mul(d, Shift())));
    Interchange(Mul(a, G), Mul(b, Shift()), Mul(c, G), Mul(d, Shift()));
    MulAdd(a, c, G);
    MulAdd(b, d, Shift());
  }

  /** Row lookup by conditional moves over every entry. */
  method Lookup(prec: array2<Storage>, j: nat, bits: nat) returns (adds: Storage)
    requires prec.Length0 == 64 && prec.Length1 == 16 && j < 64 && bits < 16
    ensures adds == prec[j, bits]
  {
    adds := Storage(Scalars.Zero(), Scalars.Zero());
    var i := 0;
    while i < 16
      invariant 0 <= i <= 16
      invariant i > bits ==> adds == prec[j, bits]
    {
      adds := if i == bits then prec[j, i] else adds;
      i := i + 1;
    }
  }

  lemma TableEntry(prec: array2<Storage>, j: nat, bits: nat, adds: Storage)
    requires CombTable(prec) && j < 64 && bits < 16 && adds == prec[j, bits]
    ensures Entry(j, bits) == Stored(adds)
  {
    hide Entry, Stored;
  }

  lemma TableShape(prec: array2<Storage>)
    requires CombTable(prec)
    ensures prec.Length0 == 64 && prec.Length1 == 16
  {
    hide Entry;
  }

  lemma LowDigits(v: nat, j: nat)
    ensures v % Pow2(4 * j) + Field(v, 4 * j, 4) * Pow2(4 * j) == v % Pow2(4 * (j + 1))
    ensures Field(v, 4 * j, 4) < 16
  {
    assert Pow2(4) == 16;
    hide Pow2;
    Wnaf.ModSplit(v, 4 * j, 4);
    Wnaf.FieldBound(v, 4 * j, 4);
  }

  lemma AllDigits(v: nat)
    requires v < Scalar.N
    ensures v % Pow2(0) == 0 && v % Pow2(4 * 64) == v
  {
    Wnaf.PowOne();
    Pow2Wide();
    hide Pow2;
  }

  lemma OffsetSumStep(j: nat)
    ensures OffsetSum(j + 1) == OffsetSum(j) + Offset(j)
  {
  }

  lemma EntrySum(initial: Point, a: int, j: nat, i: nat)
    requires Secp256k1() && E(initial)
    ensures Add(Sum(initial, a, OffsetSum(j)), Entry(j, i)) == Sum(initial, a + i * Pow2(4 * j), OffsetSum(j + 1))
    ensures E(Sum(initial, a, OffsetSum(j))) && E(Entry(j, i))
  {
    hide *;
    OffsetSumStep(j);
    EntryDef(j, i);
    EntryClosed(j, i);
    SumClosed(initial, a, OffsetSum(j));
    SumStep(initial, a, OffsetSum(j), i * Pow2(4 * j), Offset(j));
  }

  /** r := r + entry, for a stored table entry. */
  method AddEntry(r: Gej, adds: Storage, ghost q: Point, ghost e: Point)
    requires Secp256k1() && E(q) && E(e) && e == Stored(adds) && r.Denotes(1, q)
    modifies r
    ensures r.Denotes(1, Add(q, e))
  {
    hide *;
    var add := FromStorage(adds);
    SafeToAdd(q, e);
    r.AddGe(r, add, 7, 1, q, e);
  }

  /** The digit loop: adds to r the multiple of the generator, the row offsets cancelling. */
  method AddRows(r: Gej, prec: array2<Storage>, gnb: seq<Words.Word>, ghost initial: Point)
    requires Secp256k1() && E(initial) && CombTable(prec) && |gnb| == 8 && 0 <= Scalar.Value(gnb) < Scalar.N
    requires r.Denotes(1, initial)
    modifies r
    ensures r.Denotes(1, Add(initial, Mul(Scalar.Value(gnb), G)))
  {
    hide *;
    ghost var v := Scalar.Value(gnb);
    TableShape(prec);
    AllDigits(v);
    SumStart(initial);
    OffsetStart();
    var j := 0;
    while j < 64
      invariant 0 <= j <= 64
      invariant r.Denotes(1, Sum(initial, v % Pow2(4 * j), OffsetSum(j)))
    {
      LowDigits(v, j);
      var bits := GetBits(gnb, j * 4, 4);
      var adds := Lookup(prec, j, bits);
      TableEntry(prec, j, bits, adds);
      EntrySum(initial, v % Pow2(4 * j), j, bits);
      AddEntry(r, adds, Sum(initial, v % Pow2(4 * j), OffsetSum(j)), Entry(j, bits));
      j := j + 1;
    }
    OffsetsCancel();
    SumEnd(initial, v);
  }

  lemma OffsetStart()
    ensures OffsetSum(0) == 0
  {
  }

  /** Some draw denotes a nonzero number below `m`. */
  ghost predicate Acceptable(draws: seq<seq<Byte>>, i: nat, m: int) {
    && (forall k :: 0 <= k < |draws| ==> |draws[k]| == 32)
    && exists k :: i <= k < |draws| && 0 < BigEndian.Nat(draws[k]) < m
  }

  /** `v` is the number of the first draw that denotes a nonzero number below `m`. */
  ghost predicate FirstBelow(draws: seq<seq<Byte>>, m: int, v: int) {
    exists k :: && 0 <= k < |draws| && v == BigEndian.Nat(draws[k]) && 0 < v < m
                && forall j :: 0 <= j < k ==> !(0 < BigEndian.Nat(draws[j]) < m)
  }

  /** The draws before `i` were all refused. */
  ghost predicate Refused(draws: seq<seq<Byte>>, i: nat, m: int) {
    i <= |draws| && forall j :: 0 <= j < i ==> !(0 < BigEndian.Nat(draws[j]) < m)
  }

  lemma RefusedNext(draws: seq<seq<Byte>>, i: nat, m: int)
    requires Refused(draws, i, m) && i < |draws|
    ensures !(0 < BigEndian.Nat(draws[i]) < m) ==> Refused(draws, i + 1, m)
    ensures 0 < BigEndian.Nat(draws[i]) < m ==> FirstBelow(draws, m, BigEndian.Nat(draws[i]))
  {
    hide BigEndian.Nat;
  }

  lemma RefusedNone(draws: seq<seq<Byte>>, m: int)
    ensures Refused(draws, 0, m)
  {
  }

  lemma FirstBelowRange(draws: seq<seq<Byte>>, m: int, v: int)
    requires FirstBelow(draws, m, v)
    ensures 0 < v < m
  {
  }

  lemma NextDraw(draws: seq<seq<Byte>>, i: nat, m: int)
    requires Acceptable(draws, i, m)
    ensures i < |draws| && |draws[i]| == 32
    ensures !(0 < BigEndian.Nat(draws[i]) < m) ==> Acceptable(draws, i + 1, m)
  {
    hide BigEndian.Nat;
  }

  /** The first draw that is a nonzero field element. */
  method FirstField(draws: seq<seq<Byte>>) returns (s: Element)
    requires Acceptable(draws, 0, P)
    ensures 0 < Val(s) < P && FirstBelow(draws, P, Val(s))
  {
    hide *;
    SameField();
    var i := 0;
    NextDraw(draws, 0, P);
    RefusedNone(draws, P);
    var below;
    s, below := FeSetB32(draws[0]);
    while !below || FeIsZero(s)
      invariant i < |draws| && |draws[i]| == 32 && Acceptable(draws, i, P)
      invariant Canonical(s) && Val(s) == BigEndian.Nat(draws[i]) && (below <==> BigEndian.Nat(draws[i]) < P)
      invariant Refused(draws, i, P)
      decreases |draws| - i
    {
      NextDraw(draws, i, P);
      RefusedNext(draws, i, P);
      i := i + 1;
      NextDraw(draws, i, P);
      s, below := FeSetB32(draws[i]);
    }
    RefusedNext(draws, i, P);
  }

  /** The first draw that is a nonzero scalar. */
  method FirstScalar(draws: seq<seq<Byte>>) returns (b: Limbs)
    requires Acceptable(draws, 0, Scalar.N)
    ensures 0 < Scalar.Value(b) < Scalar.N && FirstBelow(draws, Scalar.N, Scalar.Value(b))
  {
    hide *;
    var i := 0;
    NextDraw(draws, 0, Scalar.N);
    RefusedNone(draws, Scalar.N);
    var overflow;
    b, overflow := FromOctets(draws[0]);
    Reduced(BigEndian.Nat(draws[0]));
    while overflow || Scalar.IsZero(b)
      invariant i < |draws| && |draws[i]| == 32 && Acceptable(draws, i, Scalar.N)
      invariant !overflow <==> BigEndian.Nat(draws[i]) < Scalar.N
      invariant !overflow ==> Scalar.Value(b) == BigEndian.Nat(draws[i])
      invariant Refused(draws, i, Scalar.N)
      decreases |draws| - i
    {
      NextDraw(draws, i, Scalar.N);
      RefusedNext(draws, i, Scalar.N);
      i := i + 1;
      NextDraw(draws, i, Scalar.N);
      b, overflow := FromOctets(draws[i]);
      Reduced(BigEndian.Nat(draws[i]));
    }
    Scalar.ValueRange(b);
    RefusedNext(draws, i, Scalar.N);
  }

  lemma Reduced(v: nat)
    ensures Scalar.N > 0 && (v < Scalar.N ==> v % Scalar.N == v)
  {
  }

  /** The limbs and the Jacobian element that hold a blinding state. */
  ghost predicate Holds(blind: seq<Words.Word>, initial: Jac, s: Blinding) {
    && |blind| == 8 && Scalar.Value(blind) == s.blind && 0 <= s.blind < Scalar.N
    && JacDenotes(initial, 1, s.initial) && E(s.initial)
  }

  /** The context: the table, the blinding scalar and the starting point, with the renewals it has been through. */
  class EcmultGenContext {
    var prec: array2?<Storage>
    var blind: seq<Words.Word>
    var initial: Jac
    ghost var run: seq<Renewal>

    constructor ()
      ensures prec == null && run == [] && Valid()
    {
      prec := null;
      blind := [0, 0, 0, 0, 0, 0, 0, 0];
      initial := Jac(FeInt(0), FeInt(0), FeInt(0), true);
      run := [];
    }

    /** The blinding state is what the renewals make it. */
    ghost predicate Blinds()
      reads this
    {
      Drawn(run) && Holds(blind, initial, After(run))
    }

    ghost predicate Valid()
      reads this, prec
    {
      prec != null ==> CombTable(prec) && Blinds()
    }

    /** r := gn * G, in every state of the context. */
    method EcmultGen(r: Gej, gn: seq<Words.Word>)
      requires Secp256k1() && Valid() && prec != null
      requires |gn| == 8 && Scalar.Value(gn) < Scalar.N
      modifies r
      ensures r.Denotes(1, Mul(Scalar.Value(gn), G))
    {
      hide *;
      ghost var q := After(run).initial;
      Scalar.ValueRange(gn);
      ValidFacts(this);
      BlindsFacts(this);
      r.Assign(initial);
      AssignedDenotes(r, initial, q);
      var gnb := AddBlind(gn, blind);
      AddRows(r, prec, gnb, q);
      BlindedSum(run, Scalar.Value(gn), Scalar.Value(gnb));
    }

    /** Forgets the blinding: the scalar one and the negated generator. */
    method Clear()
      requires Secp256k1() && prec != null
      requires CombTable(prec) && Drawn(run)
      modifies this
      ensures Valid() && prec == old(prec) && run == old(run) + [Cleared]
      ensures |blind| == 8 && Scalar.Value(blind) == 1 && JacDenotes(initial, 1, Neg(G))
    {
      hide *;
      var t := new Gej();
      t.SetGe(GeneratorElement(), 1, G);
      t.Neg(t, 1, G);
      initial := t.Copy();
      SnapshotDenotes(t, initial, Neg(G));
      blind := [1, 0, 0, 0, 0, 0, 0, 0];
      BlindOne(blind);
      ClearedHolds(run, blind, initial);
      run := run + [Cleared];
      BlindsIntro(this, After(run));
    }

    /** Renews the blinding, from scratch without a seed. The draws stand for what the seeded generator yields. */
    method Blind(seeded: bool, fieldDraws: seq<seq<Byte>>, scalarDraws: seq<seq<Byte>>) returns (ghost b: int)
      requires Secp256k1() && prec != null && CombTable(prec) && Drawn(run) && (seeded ==> Valid())
      requires Acceptable(fieldDraws, 0, P) && Acceptable(scalarDraws, 0, Scalar.N)
      modifies this
      ensures Valid() && prec == old(prec)
      ensures run == old(run) + (if seeded then [Redrawn(b)] else [Cleared, Redrawn(b)])
      ensures FirstBelow(scalarDraws, Scalar.N, b)
      ensures |blind| == 8 && Scalar.Value(blind) == Scalar.N - b && JacDenotes(initial, 1, Mul(b, G))
    {
      hide *;
      if !seeded {
        Clear();
      }
      var s := FirstField(fieldDraws);
      Randomize(s);
      var drawn := FirstScalar(scalarDraws);
      Renew(drawn);
      b := Scalar.Value(drawn);
      assert [Cleared] + [Redrawn(b)] == [Cleared, Redrawn(b)];
    }

    /** Randomizes the projection of the starting point. */
    method Randomize(s: Element)
      requires Secp256k1() && Valid() && prec != null && 0 < Val(s) < P
      modifies this`initial
      ensures Valid() && initial.infinity == old(initial.infinity)
      ensures Cong(Val(initial.z), Val(old(initial.z)) * Val(s), P)
    {
      UnitInRange(Val(s));
      hide *;
      ValidFacts(this);
      BlindsFacts(this);
      Primes();
      ghost var q := After(run).initial;
      var t := new Gej();
      t.Assign(initial);
      AssignedDenotes(t, initial, q);
      t.Rescale(s, 1, q);
      initial := t.Copy();
      SnapshotDenotes(t, initial, q);
      IntroHolds(blind, initial, After(run));
      BlindsIntro(this, After(run));
    }

    /** Takes a new blinding scalar: the negated draw, and the multiple of the generator by the draw. */
    method Renew(drawn: seq<Words.Word>)
      requires Secp256k1() && Valid() && prec != null && |drawn| == 8 && 0 < Scalar.Value(drawn) < Scalar.N
      modifies this`initial, this`blind, this`run
      ensures Valid() && run == old(run) + [Redrawn(Scalar.Value(drawn))]
      ensures |blind| == 8 && Scalar.Value(blind) == Scalar.N - Scalar.Value(drawn)
      ensures JacDenotes(initial, 1, Mul(Scalar.Value(drawn), G))
    {
      hide *;
      ValidFacts(this);
      BlindsFacts(this);
      ghost var b := Scalar.Value(drawn);
      var gb := new Gej();
      EcmultGen(gb, drawn);
      blind := Scalars.Negated(drawn);
      NegatedRange(b);
      initial := gb.Copy();
      SnapshotDenotes(gb, initial, Mul(b, G));
      RenewedHolds(run, b, blind, initial);
      run := run + [Redrawn(b)];
      BlindsIntro(this, After(run));
    }

    /** Builds the table, once, and sets up the blinding. */
    method Build(fieldDraws: seq<seq<Byte>>, scalarDraws: seq<seq<Byte>>) returns (ghost b: int)
      requires Secp256k1() && NoInfinityInTable() && Valid() && Drawn(run)
      requires Acceptable(fieldDraws, 0, P) && Acceptable(scalarDraws, 0, Scalar.N)
      modifies this
      ensures Valid() && prec != null
      ensures old(prec) != null ==>
        prec == old(prec) && run == old(run) && blind == old(blind) && initial == old(initial)
      ensures old(prec) == null ==>
        && run == old(run) + [Cleared, Redrawn(b)] && FirstBelow(scalarDraws, Scalar.N, b)
        && |blind| == 8 && Scalar.Value(blind) == Scalar.N - b && JacDenotes(initial, 1, Mul(b, G))
    {
      b := 0;
      if prec != null {
        return;
      }
      hide *;
      prec := BuildTable();
      b := Blind(false, fieldDraws, scalarDraws);
    }
  }

  lemma ValidFacts(c: EcmultGenContext)
    requires c.Valid() && c.prec != null
    ensures CombTable(c.prec) && c.Blinds()
  {
    hide CombTable;
  }

  lemma BlindsFacts(c: EcmultGenContext)
    requires c.Blinds()
    ensures |c.blind| == 8 && Scalar.Value(c.blind) == After(c.run).blind && 0 <= Scalar.Value(c.blind) < Scalar.N
    ensures Drawn(c.run) && JacDenotes(c.initial, 1, After(c.run).initial) && E(After(c.run).initial)
  {
    hide After, Drawn, JacDenotes, E, Scalar.Value;
  }

  method AddBlind(gn: seq<Words.Word>, blind: seq<Words.Word>) returns (gnb: seq<Words.Word>)
    requires |gn| == |blind| == 8 && Scalar.Value(gn) < Scalar.N && Scalar.Value(blind) < Scalar.N
    ensures |gnb| == 8 && 0 <= Scalar.Value(gnb) < Scalar.N
    ensures Scalar.Value(gnb) == (Scalar.Value(gn) + Scalar.Value(blind)) % Scalar.N
  {
    hide Scalar.Value;
    gnb := Scalars.Sum(gn, blind);
    Scalar.ValueRange(gnb);
  }

  lemma BlindedSum(run: seq<Renewal>, n: int, v: int)
    requires Secp256k1() && Drawn(run) && v == (n + After(run).blind) % Scalar.N
    ensures Add(After(run).initial, Mul(v, G)) == Mul(n, G)
  {
    BlindedDef(After(run), n);
    hide Secp256k1, Mul, Add, Drawn, After;
    BlindedRun(run, n);
  }

  lemma BlindedDef(s: Blinding, n: int)
    ensures N > 0 && Blinded(s, n) == Add(s.initial, Mul((n + s.blind) % N, G))
  {
  }

  lemma IntroHolds(blind: seq<Words.Word>, initial: Jac, s: Blinding)
    requires |blind| == 8 && Scalar.Value(blind) == s.blind && 0 <= s.blind < Scalar.N
    requires JacDenotes(initial, 1, s.initial) && E(s.initial)
    ensures Holds(blind, initial, s)
  {
    hide JacDenotes, E, Scalar.Value;
  }

  lemma BlindsIntro(c: EcmultGenContext, s: Blinding)
    requires c.prec != null && CombTable(c.prec)
    requires Drawn(c.run) && s == After(c.run) && Holds(c.blind, c.initial, s)
    ensures c.Valid() && c.Blinds()
  {
    hide After, Drawn, Holds, CombTable;
  }

  lemma NegatedRange(b: int)
    requires 0 < b < Scalar.N
    ensures (Scalar.N - b) % Scalar.N == Scalar.N - b
  {
  }

  lemma BlindOne(blind: seq<Words.Word>)
    requires blind == [1, 0, 0, 0, 0, 0, 0, 0]
    ensures Scalar.Value(blind) == 1
  {
  }

  lemma UnitInRange(s: int)
    requires 0 < s < P
    ensures !Cong(s, 0, P)
  {
    hide Cong;
    UnitBelow(s, P);
  }

  lemma ClearedHolds(run: seq<Renewal>, blind: seq<Words.Word>, initial: Jac)
    requires Drawn(run) && blind == [1, 0, 0, 0, 0, 0, 0, 0] && JacDenotes(initial, 1, Neg(G))
    ensures var r := run + [Cleared]; Drawn(r) && Holds(blind, initial, After(r))
  {
    AfterRedraw(run, 1);
    GeneratorOnCurve();
    NegClosed(G);
    assert Scalar.Value(blind) == 1;
    hide Drawn, After, E, JacDenotes;
  }

  lemma RenewedHolds(run: seq<Renewal>, b: int, blind: seq<Words.Word>, initial: Jac)
    requires Secp256k1() && Drawn(run) && 0 < b < Scalar.N
    requires |blind| == 8 && Scalar.Value(blind) == (Scalar.N - b) % Scalar.N && JacDenotes(initial, 1, Mul(b, G))
    ensures var r := run + [Redrawn(b)]; Drawn(r) && Holds(blind, initial, After(r))
  {
    AfterRedraw(run, b);
    hide Secp256k1, Drawn, After, E, Mul, JacDenotes, Scalar.Value, Blinded;
    GeneratorOnCurve();
    MulClosed(b, G);
    BlindedRun(run, b);
  }
}
