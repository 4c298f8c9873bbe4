/** The table behind generator multiplication: sixteen multiples of each power of sixteen,
      each row shifted by its own offset. */
module GenTable {
  import opened Bits
  import opened Curve
  import opened Ecmult
  import opened FieldElement
  import opened Formulas
  import opened Group
  import opened Inversion
  import opened Jacobian
  import opened Lift
  import opened Memory
  import opened Modular
  import opened Tables
  import BigEndian
  import Wnaf

  /** The x-coordinate that has no known scalar, and the even y-coordinate over it. */
  const NUMS: Point := Affine(
    0x54686520_7363616C_61722066_6F722074_68697320_78206973_20756E6B_6E6F776E,
    0x28EBB7E4_E1F6A12E_1C0FAAF4_7E09C333_05D50890_856930E6_7E529934_8FF7F20E)

  lemma NumsOnCurve()
    ensures E(NUMS) && NUMS.y % 2 == 0 && NUMS.y != 0 && NUMS.x % P == NUMS.x && OnSomePoint(NUMS.x)
  {
    OnCurveDef(7, NUMS);
    CongIffMod(NUMS.y * NUMS.y, Cubic(NUMS.x), P);
    RootDef(NUMS.y, NUMS.x);
    assert Root(NUMS.y, NUMS.x) by {
      hide Root;
    }
  }

  /** The point that the rows are shifted by multiples of. */
  ghost function Shift(): Point {
    Add(NUMS, G)
  }

  lemma ShiftOnCurve()
    requires Secp256k1()
    ensures E(Shift()) && E(G)
  {
    hide Secp256k1, E, Add;
    NumsOnCurve();
    GeneratorOnCurve();
    Closed(NUMS, G);
  }

  /** How often row j is shifted. */
  ghost function Offset(j: nat): int {
    if j < 63 then Pow2(j) else 1 - Pow2(63)
  }

  ghost function OffsetSum(n: nat): int {
    if n == 0 then 0 else OffsetSum(n - 1) + Offset(n - 1)
  }

  lemma {:induction false} OffsetSumPartial(n: nat)
    requires n <= 63
    ensures OffsetSum(n) == Pow2(n) - 1
  {
    if n > 0 {
      OffsetSumPartial(n - 1);
    }
  }

  /** The offsets cancel over the whole table. */
  lemma OffsetsCancel()
    ensures OffsetSum(64) == 0
  {
    OffsetSumPartial(63);
    hide Pow2;
  }

  /** The table entry for digit i at position j. */
  ghost function Entry(j: nat, i: nat): Point {
    Add(Mul(Times(i, Pow2(4 * j)), G), Mul(Offset(j), Shift()))
  }

  lemma EntryClosed(j: nat, i: nat)
    requires Secp256k1()
    ensures E(Entry(j, i)) && E(Mul(i * Pow2(4 * j), G)) && E(Mul(Offset(j), Shift()))
  {
    hide *;
    ShiftOnCurve();
    MulClosed(i * Pow2(4 * j), G);
    MulClosed(Offset(j), Shift());
    Closed(Mul(i * Pow2(4 * j), G), Mul(Offset(j), Shift()));
    EntryDef(j, i);
  }

  lemma EntryDef(j: nat, i: nat)
    ensures Entry(j, i) == Add(Mul(i * Pow2(4 * j), G), Mul(Offset(j), Shift()))
  {
    hide Mul, Add, Pow2, Offset, Shift, Times;
    TimesIs(i, Pow2(4 * j));
  }

  lemma EntryFirst(j: nat)
    requires Secp256k1()
    ensures Entry(j, 0) == Mul(Offset(j), Shift())
  {
    hide *;
    EntryDef(j, 0);
    MulOne(G);
    assert 0 * Pow2(4 * j) == 0;
    Unit(Mul(Offset(j), Shift()));
  }

  lemma EntryNext(j: nat, i: nat)
    requires Secp256k1()
    ensures Add(Entry(j, i), Mul(Pow2(4 * j), G)) == Entry(j, i + 1)
  {
    hide *;
    EntryDef(j, i);
    EntryDef(j, i + 1);
    EntryClosed(j, i);
    EntryClosed(j, i + 1);
    ShiftOnCurve();
    var b := Pow2(4 * j);
    var a, c, u := Mul(i * b, G), Mul(b, G), Mul(Offset(j), Shift());
    MulClosed(b, G);
    Assoc(a, u, c);
    Closed(u, c);
    Assoc(a, c, u);
    MulAdd(i * b, b, G);
    assert i * b + b == (i + 1) * b;
  }

  /** The y-coordinate of a point of the curve is never zero, so every addition is safe. */
  method AddPoints(r: Gej, a: Gej, b: Gej, ghost p: Point, ghost q: Point)
    requires Secp256k1() && E(p) && E(q) && a.Denotes(1, p) && b.Denotes(1, q)
    modifies r
    ensures r.Denotes(1, Add(p, q))
  {
    hide *;
    SafeToAdd(p, q);
    var _ := r.AddVar(a, b, 7, 1, p, q);
  }

  method DoublePoint(r: Gej, ghost n: int, ghost p: Point)
    requires Secp256k1() && E(p) && r.Denotes(1, Mul(n, p))
    modifies r
    ensures r.Denotes(1, Mul(2 * n, p))
  {
    hide *;
    MulClosed(n, p);
    SafeToAdd(Mul(n, p), Mul(n, p));
    MulAdd(n, n, p);
    var _ := r.DoubleVar(r, 7, 1, Mul(n, p));
  }

  /** The first elements denote the points of `q`. */
  ghost predicate Rows(precj: seq<Jac>, q: seq<Point>, count: nat) {
    count <= |precj| && count <= |q| && forall k :: 0 <= k < count ==> JacDenotes(precj[k], 1, q[k])
  }

  lemma RowsNext(precj: seq<Jac>, precj': seq<Jac>, q: seq<Point>, n: nat, v: Jac)
    requires n < |precj| == |precj'| && n < |q| && Rows(precj, q, n)
    requires precj' == precj[n := v] && JacDenotes(v, 1, q[n])
    ensures Rows(precj', q, n + 1)
  {
    hide JacDenotes;
  }

  /** All entries, row by row. */
  ghost function Entries(): seq<Point> {
    seq(1024, k requires 0 <= k < 1024 => Entry(k / 16, k % 16))
  }

  lemma EntryAt(j: nat, i: nat)
    requires j < 64 && i < 16
    ensures |Entries()| == 1024 && Entries()[16 * j + i] == Entry(j, i)
  {
    RowIndex(j, i);
    hide Entry;
  }

  lemma RowIndex(j: nat, i: nat)
    requires i < 16
    ensures (16 * j + i) / 16 == j && (16 * j + i) % 16 == i
  {
  }

  /** One row: the shifted multiples of one power of sixteen. */
  method FillRow(precj: array<Jac>, j: nat, numsbase: Gej, gbase: Gej)
    requires Secp256k1() && precj.Length == 1024 && j < 64 && Rows(precj[..], Entries(), 16 * j)
    requires numsbase.Denotes(1, Mul(Offset(j), Shift())) && gbase.Denotes(1, Mul(Pow2(4 * j), G))
    modifies precj
    ensures Rows(precj[..], Entries(), 16 * j + 16)
  {
    hide *;
    ShiftOnCurve();
    EntryFirst(j);
    var t := new Gej();
    var v := numsbase.Copy();
    t.Assign(v);
    ghost var before := precj[..];
    SnapshotDenotes(numsbase, v, Entry(j, 0));
    AssignedDenotes(t, v, Entry(j, 0));
    precj[16 * j] := v;
    EntryAt(j, 0);
    RowsNext(before, precj[..], Entries(), 16 * j, v);
    var i := 1;
    while i < 16
      invariant 1 <= i <= 16
      invariant Rows(precj[..], Entries(), 16 * j + i)
      invariant t.Denotes(1, Entry(j, i - 1))
    {
      EntryClosed(j, i - 1);
      MulClosed(Pow2(4 * j), G);
      EntryNext(j, i - 1);
      AddPoints(t, t, gbase, Entry(j, i - 1), Mul(Pow2(4 * j), G));
      v := t.Copy();
      SnapshotDenotes(t, v, Entry(j, i));
      before := precj[..];
      precj[16 * j + i] := v;
      EntryAt(j, i);
      RowsNext(before, precj[..], Entries(), 16 * j + i, v);
      i := i + 1;
    }
  }

  lemma SnapshotDenotes(t: Gej, v: Jac, q: Point)
    requires v == Jac(t.x, t.y, t.z, t.infinity) && t.Denotes(1, q)
    ensures JacDenotes(v, 1, q)
  {
  }

  lemma AssignedDenotes(t: Gej, v: Jac, q: Point)
    requires v == Jac(t.x, t.y, t.z, t.infinity) && JacDenotes(v, 1, q)
    ensures t.Denotes(1, q)
  {
  }

  /** Moves both bases on to the next row; the last offset makes the sum of all offsets vanish. */
  method NextRow(j: nat, numsbase: Gej, numsGej: Gej, gbase: Gej)
    requires Secp256k1() && j < 64 && numsbase != gbase && numsGej != gbase && numsGej != numsbase
    requires numsbase.Denotes(1, Mul(Offset(j), Shift())) && gbase.Denotes(1, Mul(Pow2(4 * j), G))
    requires numsGej.Denotes(1, Shift())
    modifies numsbase, gbase
    ensures j < 63 ==> numsbase.Denotes(1, Mul(Offset(j + 1), Shift()))
    ensures gbase.Denotes(1, Mul(Pow2(4 * (j + 1)), G))
  {
    OffsetNext(j);
    hide *;
    ShiftOnCurve();
    ghost var n := Pow2(4 * j);
    DoublePoint(gbase, n, G);
    DoublePoint(gbase, 2 * n, G);
    DoublePoint(gbase, 4 * n, G);
    DoublePoint(gbase, 8 * n, G);
    DoublePoint(numsbase, Offset(j), Shift());
    if j == 62 {
      NegateBase(numsbase, numsGej, 2 * Offset(j));
    }
  }

  lemma OffsetNext(j: nat)
    ensures 2 * (8 * Pow2(4 * j)) == Pow2(4 * (j + 1))
    ensures j < 62 ==> 2 * Offset(j) == Offset(j + 1)
    ensures j == 62 ==> 1 - 2 * Offset(j) == Offset(63)
  {
    var p := Pow2(4 * j);
    assert Pow2(4 * j + 1) == 2 * p;
    assert Pow2(4 * j + 2) == 4 * p;
    assert Pow2(4 * j + 3) == 8 * p;
    assert Pow2(4 * j + 4) == 16 * p;
  }

  method NegateBase(numsbase: Gej, numsGej: Gej, ghost n: int)
    requires Secp256k1() && numsGej != numsbase
    requires numsbase.Denotes(1, Mul(n, Shift())) && numsGej.Denotes(1, Shift())
    modifies numsbase
    ensures numsbase.Denotes(1, Mul(1 - n, Shift()))
  {
    hide *;
    ShiftOnCurve();
    MulClosed(n, Shift());
    MulNeg(n, Shift());
    MulClosed(-n, Shift());
    MulSucc(-n, Shift());
    numsbase.Neg(numsbase, 1, Mul(n, Shift()));
    AddPoints(numsbase, numsbase, numsGej, Mul(-n, Shift()), Shift());
  }

  /** No entry of the table is infinity: the scalar of `NUMS`, which nobody knows, avoids 1024 values. */
  ghost predicate NoInfinityInTable() {
    forall j, i :: 0 <= j < 64 && 0 <= i < 16 ==> Entry(j, i) != Infinity
  }

  /** The stored table. */
  ghost predicate CombTable(prec: array2<Storage>)
    reads prec
  {
    && prec.Length0 == 64 && prec.Length1 == 16
    && forall j, i :: 0 <= j < 64 && 0 <= i < 16 ==> Entry(j, i) == Stored(prec[j, i])
  }

  /** The shifting point, from its x-coordinate. */
  method NumsElement() returns (r: Gej)
    requires Secp256k1()
    ensures fresh(r) && r.Denotes(1, Shift())
  {
    hide *;
    NumsOnCurve();
    Primes();
    var x := NumsCoordinate();
    var ge, ok;
    ghost var q;
    ge, ok, q := SetXoVar(x, false);
    NumsFound(Val(x), q);
    r := new Gej();
    r.SetGe(ge, 1, q);
    GeneratorOnCurve();
    SafeToAdd(q, G);
    var _ := r.AddGeVar(r, GeneratorElement(), 7, 1, q, G);
    ShiftDef();
  }

  /** The fixed x-coordinate, from its octets. */
  method NumsCoordinate() returns (x: Element)
    ensures Val(x) == NUMS.x
  {
    hide *;
    NumsText();
    var octets := TextOctets(NUMS_TEXT);
    NumsLength();
    var ok;
    x, ok := FeSetB32(octets);
  }

  lemma NumsLength()
    ensures |NUMS_TEXT| == 32
  {
  }

  /** The text that the x-coordinate is read from. */
  const NUMS_TEXT := "The scalar for this x is unknown"

  /** The octets of a text of ASCII characters. */
  function TextOctets(t: string): (b: seq<Byte>)
    ensures |b| == |t|
  {
    seq(|t|, i requires 0 <= i < |t| => (t[i] as int) % 0x100)
  }

  lemma TextAppend(x: string, y: string)
    ensures TextOctets(x + y) == TextOctets(x) + TextOctets(y)
  {
    assert forall i :: 0 <= i < |x| + |y| ==> TextOctets(x + y)[i] == (TextOctets(x) + TextOctets(y))[i];
  }

  lemma TextJoin(x: string, y: string, a: nat, b: nat)
    requires BigEndian.Nat(TextOctets(x)) == a && BigEndian.Nat(TextOctets(y)) == b
    ensures BigEndian.Nat(TextOctets(x + y)) == a * Pow2(8 * |y|) + b
  {
    hide *;
    TextAppend(x, y);
    BigEndian.NatAppend(TextOctets(x), TextOctets(y));
  }

  lemma FourLetters(t: string)
    requires |t| == 4 && forall i :: 0 <= i < 4 ==> t[i] < 128 as char
    ensures BigEndian.Nat(TextOctets(t)) ==
      0x100_0000 * (t[0] as int) + 0x1_0000 * (t[1] as int) + 0x100 * (t[2] as int) + (t[3] as int)
  {
    BigEndian.Nat4(TextOctets(t));
  }

  lemma FirstHalf()
    ensures BigEndian.Nat(TextOctets("The scalar for t")) == 0x54686520_7363616C_61722066_6F722074
  {
    Pow2Values();
    hide BigEndian.Nat, Pow2;
    FourLetters("The ");
    FourLetters("scal");
    FourLetters("ar f");
    FourLetters("or t");
    hide TextOctets;
    TextJoin("The ", "scal", 0x54686520, 0x7363616C);
    TextJoin("ar f", "or t", 0x61722066, 0x6F722074);
    TextJoin("The " + "scal", "ar f" + "or t", 0x54686520_7363616C, 0x61722066_6F722074);
    assert ("The " + "scal") + ("ar f" + "or t") == "The scalar for t";
  }

  lemma SecondHalf()
    ensures BigEndian.Nat(TextOctets("his x is unknown")) == 0x68697320_78206973_20756E6B_6E6F776E
  {
    Pow2Values();
    hide BigEndian.Nat, Pow2;
    FourLetters("his ");
    FourLetters("x is");
    FourLetters(" unk");
    FourLetters("nown");
    hide TextOctets;
    TextJoin("his ", "x is", 0x68697320, 0x78206973);
    TextJoin(" unk", "nown", 0x20756E6B, 0x6E6F776E);
    TextJoin("his " + "x is", " unk" + "nown", 0x68697320_78206973, 0x20756E6B_6E6F776E);
    assert ("his " + "x is") + (" unk" + "nown") == "his x is unknown";
  }

  /** The x-coordinate is the number of the octets of the text. */
  lemma NumsText()
    ensures BigEndian.Nat(TextOctets(NUMS_TEXT)) == NUMS.x
  {
    FirstHalf();
    SecondHalf();
    Pow2Values();
    Pow2Add(64, 64);
    hide BigEndian.Nat, Pow2, TextOctets;
    TextJoin("The scalar for t", "his x is unknown",
             0x54686520_7363616C_61722066_6F722074, 0x68697320_78206973_20756E6B_6E6F776E);
    NumsHalves();
  }

  lemma NumsHalves()
    ensures "The scalar for t" + "his x is unknown" == NUMS_TEXT
  {
  }

  lemma ShiftDef()
    ensures Shift() == Add(NUMS, G)
  {
    hide Add;
  }

  lemma NumsFound(x: int, q: Point)
    requires Secp256k1() && E(q) && q.Affine? && x == NUMS.x && q.x == x % P && Parity(q, false)
    ensures q == NUMS
  {
    NumsOnCurve();
    assert NUMS.Affine? && Parity(NUMS, false);
    hide Secp256k1, E;
    Primes();
    NoTwoTorsion(q);
    LiftUnique(q, NUMS, false);
  }

  /** The table loop: every row in turn, on Jacobian coordinates. */
  method FillTable(precj: array<Jac>)
    requires Secp256k1() && precj.Length == 1024
    modifies precj
    ensures Rows(precj[..], Entries(), 1024)
  {
    hide *;
    var gj := new Gej();
    gj.SetGe(GeneratorElement(), 1, G);
    var numsGej := NumsElement();
    var gbase := new Gej();
    var v := gj.Copy();
    gbase.Assign(v);
    SnapshotDenotes(gj, v, G);
    AssignedDenotes(gbase, v, G);
    var numsbase := new Gej();
    v := numsGej.Copy();
    numsbase.Assign(v);
    SnapshotDenotes(numsGej, v, Shift());
    AssignedDenotes(numsbase, v, Shift());
    FirstBases();
    FillRows(precj, numsbase, numsGej, gbase);
  }

  lemma FirstBases()
    ensures Mul(Offset(0), Shift()) == Shift() && Mul(Pow2(4 * 0), G) == G
  {
    MulOne(Shift());
    MulOne(G);
  }

  method FillRows(precj: array<Jac>, numsbase: Gej, numsGej: Gej, gbase: Gej)
    requires Secp256k1() && precj.Length == 1024 && numsbase != gbase && numsGej != gbase && numsGej != numsbase
    requires numsbase.Denotes(1, Mul(Offset(0), Shift())) && gbase.Denotes(1, Mul(Pow2(4 * 0), G))
    requires numsGej.Denotes(1, Shift())
    modifies precj, numsbase, gbase
    ensures Rows(precj[..], Entries(), 1024)
  {
    hide *;
    NoRows(precj[..], Entries());
    var j := 0;
    while j < 64
      invariant 0 <= j <= 64
      invariant Rows(precj[..], Entries(), 16 * j)
      invariant j < 64 ==> numsbase.Denotes(1, Mul(Offset(j), Shift()))
      invariant gbase.Denotes(1, Mul(Pow2(4 * j), G))
      invariant numsGej.Denotes(1, Shift())
    {
      FillRow(precj, j, numsbase, gbase);
      NextRow(j, numsbase, numsGej, gbase);
      j := j + 1;
    }
  }

  lemma NoRows(precj: seq<Jac>, q: seq<Point>)
    ensures Rows(precj, q, 0)
  {
  }

  lemma FiniteEntry(a: Ge, q: Point)
    requires GeDenotes(a, 1, q) && q != Infinity
    ensures !a.infinity
  {
  }

  lemma FiniteAt(j: nat, i: nat)
    requires NoInfinityInTable() && j < 64 && i < 16
    ensures Entry(j, i) != Infinity
  {
    hide Entry;
  }

  lemma RowsAll(precj: seq<Jac>, q: seq<Point>)
    requires Rows(precj, q, 1024)
    ensures forall k :: 0 <= k < 1024 ==> JacDenotes(precj[k], 1, q[k])
  {
    hide JacDenotes;
  }

  /** A converted table: affine elements that denote the points of `q`. */
  ghost predicate Converted(prec: seq<Ge>, q: seq<Point>) {
    |prec| == |q| && forall k :: 0 <= k < |q| ==> GeDenotes(prec[k], 1, q[k])
  }

  lemma IntroConverted(prec: seq<Ge>, q: seq<Point>)
    requires |prec| == |q| && forall k :: 0 <= k < |q| ==> GeDenotes(prec[k], 1, q[k])
    ensures Converted(prec, q)
  {
    hide GeDenotes;
  }

  lemma ConvertedAt(prec: seq<Ge>, q: seq<Point>, k: nat)
    requires Converted(prec, q) && k < |q|
    ensures k < |prec| && GeDenotes(prec[k], 1, q[k])
  {
    hide GeDenotes;
  }

  /** Stores one row of the converted table. */
  method StoreRow(table: array2<Storage>, prec: array<Ge>, j: nat)
    requires Secp256k1() && NoInfinityInTable() && j < 64 && prec.Length == 1024
    requires table.Length0 == 64 && table.Length1 == 16
    requires Converted(prec[..], Entries())
    modifies table
    ensures forall i :: 0 <= i < 16 ==> Entry(j, i) == Stored(table[j, i])
    ensures forall l, i :: 0 <= l < 64 && 0 <= i < 16 && l != j ==> table[l, i] == old(table[l, i])
  {
    hide *;
    var i := 0;
    while i < 16
      invariant 0 <= i <= 16
      invariant forall l :: 0 <= l < i ==> Entry(j, l) == Stored(table[j, l])
      invariant forall l, m :: 0 <= l < 64 && 0 <= m < 16 && l != j ==> table[l, m] == old(table[l, m])
    {
      EntryAt(j, i);
      ConvertedAt(prec[..], Entries(), 16 * j + i);
      FiniteAt(j, i);
      FiniteEntry(prec[j * 16 + i], Entry(j, i));
      EntryClosed(j, i);
      table[j, i] := ToStorage(prec[j * 16 + i], Entry(j, i));
      i := i + 1;
    }
  }

  /** The affine conversion of the whole table. */
  method Convert(precj: array<Jac>, ghost q: seq<Point>) returns (prec: array<Ge>)
    requires Secp256k1() && precj.Length == 1024 && |q| == 1024 && Rows(precj[..], q, 1024)
    ensures fresh(prec) && prec.Length == 1024 && Converted(prec[..], q)
  {
    hide *;
    Primes();
    RowsAll(precj[..], q);
    prec := new Ge[1024];
    SetAllGejVar(prec, precj[..], q);
    IntroConverted(prec[..], q);
  }

  /** The whole table: built on Jacobian coordinates, converted with one inversion, and stored. */
  method BuildTable() returns (table: array2<Storage>)
    requires Secp256k1() && NoInfinityInTable()
    ensures fresh(table) && CombTable(table)
  {
    Primes();
    hide *;
    var precj := new Jac[1024];
    FillTable(precj);
    EntryAt(0, 0);
    var prec := Convert(precj, Entries());
    table := new Storage[64, 16];
    StoreRows(table, prec);
  }

  method StoreRows(table: array2<Storage>, prec: array<Ge>)
    requires Secp256k1() && NoInfinityInTable() && prec.Length == 1024
    requires table.Length0 == 64 && table.Length1 == 16
    requires Converted(prec[..], Entries())
    modifies table
    ensures CombTable(table)
  {
    hide Secp256k1, NoInfinityInTable, GeDenotes, Entries, Entry, Converted;
    var j := 0;
    while j < 64
      invariant 0 <= j <= 64
      invariant forall l, i :: 0 <= l < j && 0 <= i < 16 ==> Entry(l, i) == Stored(table[l, i])
    {
      StoreRow(table, prec, j);
      j := j + 1;
    }
  }
}
