/** Multiplication of scalars: the 96-bit column accumulator, the 512-bit product and its reduction modulo the order. */
module ScalarMul {
  import opened Scalar
  import opened Words
  import Bits

  /** The number in the accumulator (c0, c1, c2). */
  ghost function Acc(c0: int, c1: int, c2: int): int {
    c0 + 0x1_0000_0000 * (c1 + 0x1_0000_0000 * c2)
  }

  /** The largest product of two words. */
  const MAX_PRODUCT: int := 0xFFFFFFFE_00000001

  method AddProduct(c0: Word, c1: Word, c2: Word, t: Wide) returns (r0: Word, r1: Word, r2: Word)
    requires t <= MAX_PRODUCT
    requires Acc(c0, c1, c2) + t < 0x1_00000000_00000000_00000000
    ensures Acc(r0, r1, r2) == Acc(c0, c1, c2) + t
  {
    var tl, th := Split(t);
    var carry;
    r0, carry := AddCarry(c0, tl);
    th := th + carry;
    r1, carry := AddCarry(c1, th);
    r2 := c2 + carry;
  }

  method AddTwiceProduct(c0: Word, c1: Word, c2: Word, t: Wide) returns (r0: Word, r1: Word, r2: Word)
    requires t <= MAX_PRODUCT
    requires Acc(c0, c1, c2) + 2 * t < 0x1_00000000_00000000_00000000
    ensures Acc(r0, r1, r2) == Acc(c0, c1, c2) + 2 * t
  {
    var tl, th := Split(t);
    var th2, tl2, carry, wrapped;
    th2, carry := AddCarry(th, th);
    r2 := c2 + carry;
    tl2, carry := AddCarry(tl, tl);
    th2 := th2 + carry;
    r0, carry := AddCarry(c0, tl2);
    th2, wrapped := AddCarry(th2, carry);
    r2 := r2 + (if carry == 1 && th2 == 0 then 1 else 0);
    r1, carry := AddCarry(c1, th2);
    r2 := r2 + carry;
  }

  /** Adds a * b. The bound on the accumulator leaves room for the top limb not to wrap. */
  method MulAdd(c0: Word, c1: Word, c2: Word, a: Word, b: Word) returns (r0: Word, r1: Word, r2: Word)
    requires Acc(c0, c1, c2) < 0xFFFFFFFF_00000000_00000000
    ensures Acc(r0, r1, r2) == Acc(c0, c1, c2) + Mul(a, b)
    ensures 0 <= Mul(a, b) <= MAX_PRODUCT
  {
    ProductBound(a, b);
    r0, r1, r2 := AddProduct(c0, c1, c2, a * b);
  }

  /** Adds 2 * a * b. */
  method MulAdd2(c0: Word, c1: Word, c2: Word, a: Word, b: Word) returns (r0: Word, r1: Word, r2: Word)
    requires Acc(c0, c1, c2) < 0xFFFFFFFE_00000000_00000000
    ensures Acc(r0, r1, r2) == Acc(c0, c1, c2) + 2 * Mul(a, b)
    ensures 0 <= Mul(a, b) <= MAX_PRODUCT
  {
    ProductBound(a, b);
    r0, r1, r2 := AddTwiceProduct(c0, c1, c2, a * b);
  }

  /** Adds a * b to an accumulator whose top limb stays zero. */
  method MulAddFast(c0: Word, c1: Word, a: Word, b: Word) returns (r0: Word, r1: Word)
    requires Acc(c0, c1, 0) + Mul(a, b) < 0x1_00000000_00000000
    ensures Acc(r0, r1, 0) == Acc(c0, c1, 0) + Mul(a, b)
  {
    ProductBound(a, b);
    var tl, th := Split(a * b);
    var carry;
    r0, carry := AddCarry(c0, tl);
    th := th + carry;
    r1 := c1 + th;
  }

  method SumAdd(c0: Word, c1: Word, c2: Word, a: Word) returns (r0: Word, r1: Word, r2: Word)
    requires Acc(c0, c1, c2) < 0xFFFFFFFF_00000000_00000000
    ensures Acc(r0, r1, r2) == Acc(c0, c1, c2) + a
  {
    var over, carry;
    r0, over := AddCarry(c0, a);
    r1, carry := AddCarry(c1, over);
    r2 := c2 + carry;
  }

  method SumAddFast(c0: Word, c1: Word, a: Word) returns (r0: Word, r1: Word)
    requires Acc(c0, c1, 0) + a < 0x1_00000000_00000000
    ensures Acc(r0, r1, 0) == Acc(c0, c1, 0) + a
  {
    var over;
    r0, over := AddCarry(c0, a);
    r1 := c1 + over;
  }

  /** What may be carried from one column into the next. */
  const CARRY: int := 0x10_00000000_00000000

  method Column2(c0: Word, c1: Word, c2: Word, x0: Word, y0: Word, x1: Word, y1: Word)
    returns (l: Word, r0: Word, r1: Word, r2: Word)
    requires Acc(c0, c1, c2) < CARRY
    ensures l + 0x1_0000_0000 * Acc(r0, r1, r2) == Acc(c0, c1, c2) + Mul(x0, y0) + Mul(x1, y1)
    ensures Acc(r0, r1, r2) < CARRY
  {
    hide Mul;
    r0, r1, r2 := MulAdd(c0, c1, c2, x0, y0);
    r0, r1, r2 := MulAdd(r0, r1, r2, x1, y1);
    l, r0, r1, r2 := r0, r1, r2, 0;
  }

  method Column3(c0: Word, c1: Word, c2: Word, x0: Word, y0: Word, x1: Word, y1: Word, x2: Word, y2: Word)
    returns (l: Word, r0: Word, r1: Word, r2: Word)
    requires Acc(c0, c1, c2) < CARRY
    ensures l + 0x1_0000_0000 * Acc(r0, r1, r2) == Acc(c0, c1, c2) + Mul(x0, y0) + Mul(x1, y1) + Mul(x2, y2)
    ensures Acc(r0, r1, r2) < CARRY
  {
    hide Mul;
    r0, r1, r2 := MulAdd(c0, c1, c2, x0, y0);
    r0, r1, r2 := MulAdd(r0, r1, r2, x1, y1);
    r0, r1, r2 := MulAdd(r0, r1, r2, x2, y2);
    l, r0, r1, r2 := r0, r1, r2, 0;
  }

  method Column4(c0: Word, c1: Word, c2: Word, x0: Word, y0: Word, x1: Word, y1: Word, x2: Word, y2: Word, x3: Word,
        y3: Word)
    returns (l: Word, r0: Word, r1: Word, r2: Word)
    requires Acc(c0, c1, c2) < CARRY
    ensures l + 0x1_0000_0000 * Acc(r0, r1, r2) == Acc(c0, c1, c2) + Mul(x0, y0) + Mul(x1, y1) + Mul(x2, y2) +
          Mul(x3, y3)
    ensures Acc(r0, r1, r2) < CARRY
  {
    hide Mul;
    r0, r1, r2 := MulAdd(c0, c1, c2, x0, y0);
    r0, r1, r2 := MulAdd(r0, r1, r2, x1, y1);
    r0, r1, r2 := MulAdd(r0, r1, r2, x2, y2);
    r0, r1, r2 := MulAdd(r0, r1, r2, x3, y3);
    l, r0, r1, r2 := r0, r1, r2, 0;
  }

  method Column5(c0: Word, c1: Word, c2: Word, x0: Word, y0: Word, x1: Word, y1: Word, x2: Word, y2: Word, x3: Word,
        y3: Word, x4: Word, y4: Word)
    returns (l: Word, r0: Word, r1: Word, r2: Word)
    requires Acc(c0, c1, c2) < CARRY
    ensures l + 0x1_0000_0000 * Acc(r0, r1, r2) == Acc(c0, c1, c2) + Mul(x0, y0) + Mul(x1, y1) + Mul(x2, y2) +
          Mul(x3, y3) + Mul(x4, y4)
    ensures Acc(r0, r1, r2) < CARRY
  {
    hide Mul;
    r0, r1, r2 := MulAdd(c0, c1, c2, x0, y0);
    r0, r1, r2 := MulAdd(r0, r1, r2, x1, y1);
    r0, r1, r2 := MulAdd(r0, r1, r2, x2, y2);
    r0, r1, r2 := MulAdd(r0, r1, r2, x3, y3);
    r0, r1, r2 := MulAdd(r0, r1, r2, x4, y4);
    l, r0, r1, r2 := r0, r1, r2, 0;
  }

  method Column6(c0: Word, c1: Word, c2: Word, x0: Word, y0: Word, x1: Word, y1: Word, x2: Word, y2: Word, x3: Word,
        y3: Word, x4: Word, y4: Word, x5: Word, y5: Word)
    returns (l: Word, r0: Word, r1: Word, r2: Word)
    requires Acc(c0, c1, c2) < CARRY
    ensures l + 0x1_0000_0000 * Acc(r0, r1, r2) == Acc(c0, c1, c2) + Mul(x0, y0) + Mul(x1, y1) + Mul(x2, y2) +
          Mul(x3, y3) + Mul(x4, y4) + Mul(x5, y5)
    ensures Acc(r0, r1, r2) < CARRY
  {
    hide Mul;
    r0, r1, r2 := MulAdd(c0, c1, c2, x0, y0);
    r0, r1, r2 := MulAdd(r0, r1, r2, x1, y1);
    r0, r1, r2 := MulAdd(r0, r1, r2, x2, y2);
    r0, r1, r2 := MulAdd(r0, r1, r2, x3, y3);
    r0, r1, r2 := MulAdd(r0, r1, r2, x4, y4);
    r0, r1, r2 := MulAdd(r0, r1, r2, x5, y5);
    l, r0, r1, r2 := r0, r1, r2, 0;
  }

  method Column7(c0: Word, c1: Word, c2: Word, x0: Word, y0: Word, x1: Word, y1: Word, x2: Word, y2: Word, x3: Word,
        y3: Word, x4: Word, y4: Word, x5: Word, y5: Word, x6: Word, y6: Word)
    returns (l: Word, r0: Word, r1: Word, r2: Word)
    requires Acc(c0, c1, c2) < CARRY
    ensures l + 0x1_0000_0000 * Acc(r0, r1, r2) == Acc(c0, c1, c2) + Mul(x0, y0) + Mul(x1, y1) + Mul(x2, y2) +
          Mul(x3, y3) + Mul(x4, y4) + Mul(x5, y5) + Mul(x6, y6)
    ensures Acc(r0, r1, r2) < CARRY
  {
    hide Mul;
    r0, r1, r2 := MulAdd(c0, c1, c2, x0, y0);
    r0, r1, r2 := MulAdd(r0, r1, r2, x1, y1);
    r0, r1, r2 := MulAdd(r0, r1, r2, x2, y2);
    r0, r1, r2 := MulAdd(r0, r1, r2, x3, y3);
    r0, r1, r2 := MulAdd(r0, r1, r2, x4, y4);
    r0, r1, r2 := MulAdd(r0, r1, r2, x5, y5);
    r0, r1, r2 := MulAdd(r0, r1, r2, x6, y6);
    l, r0, r1, r2 := r0, r1, r2, 0;
  }

  method Column8(c0: Word, c1: Word, c2: Word, x0: Word, y0: Word, x1: Word, y1: Word, x2: Word, y2: Word, x3: Word,
        y3: Word, x4: Word, y4: Word, x5: Word, y5: Word, x6: Word, y6: Word, x7: Word, y7: Word)
    returns (l: Word, r0: Word, r1: Word, r2: Word)
    requires Acc(c0, c1, c2) < CARRY
    ensures l + 0x1_0000_0000 * Acc(r0, r1, r2) == Acc(c0, c1, c2) + Mul(x0, y0) + Mul(x1, y1) + Mul(x2, y2) +
          Mul(x3, y3) + Mul(x4, y4) + Mul(x5, y5) + Mul(x6, y6) + Mul(x7, y7)
    ensures Acc(r0, r1, r2) < CARRY
  {
    hide Mul;
    r0, r1, r2 := MulAdd(c0, c1, c2, x0, y0);
    r0, r1, r2 := MulAdd(r0, r1, r2, x1, y1);
    r0, r1, r2 := MulAdd(r0, r1, r2, x2, y2);
    r0, r1, r2 := MulAdd(r0, r1, r2, x3, y3);
    r0, r1, r2 := MulAdd(r0, r1, r2, x4, y4);
    r0, r1, r2 := MulAdd(r0, r1, r2, x5, y5);
    r0, r1, r2 := MulAdd(r0, r1, r2, x6, y6);
    r0, r1, r2 := MulAdd(r0, r1, r2, x7, y7);
    l, r0, r1, r2 := r0, r1, r2, 0;
  }

  /** The products a[i] * b[j] with i + j == k. */
  ghost function Column(a: seq<int>, b: seq<int>, k: nat): int
    requires |a| == |b| == 8
  {
    if k == 0 then Mul(a[0], b[0]) else
    if k == 1 then Mul(a[0], b[1]) + Mul(a[1], b[0]) else
    if k == 2 then Mul(a[0], b[2]) + Mul(a[1], b[1]) + Mul(a[2], b[0]) else
    if k == 3 then Mul(a[0], b[3]) + Mul(a[1], b[2]) + Mul(a[2], b[1]) + Mul(a[3], b[0]) else
    if k == 4 then Mul(a[0], b[4]) + Mul(a[1], b[3]) + Mul(a[2], b[2]) + Mul(a[3], b[1]) + Mul(a[4], b[0]) else
    if k == 5 then Mul(a[0], b[5]) + Mul(a[1], b[4]) + Mul(a[2], b[3]) + Mul(a[3], b[2]) + Mul(a[4], b[1]) +
        Mul(a[5], b[0]) else
    if k == 6 then Mul(a[0], b[6]) + Mul(a[1], b[5]) + Mul(a[2], b[4]) + Mul(a[3], b[3]) + Mul(a[4], b[2]) +
        Mul(a[5], b[1]) + Mul(a[6], b[0]) else
    if k == 7 then Mul(a[0], b[7]) + Mul(a[1], b[6]) + Mul(a[2], b[5]) + Mul(a[3], b[4]) + Mul(a[4], b[3]) +
        Mul(a[5], b[2]) + Mul(a[6], b[1]) + Mul(a[7], b[0]) else
    if k == 8 then Mul(a[1], b[7]) + Mul(a[2], b[6]) + Mul(a[3], b[5]) + Mul(a[4], b[4]) + Mul(a[5], b[3]) +
        Mul(a[6], b[2]) + Mul(a[7], b[1]) else
    if k == 9 then Mul(a[2], b[7]) + Mul(a[3], b[6]) + Mul(a[4], b[5]) + Mul(a[5], b[4]) + Mul(a[6], b[3]) +
        Mul(a[7], b[2]) else
    if k == 10 then Mul(a[3], b[7]) + Mul(a[4], b[6]) + Mul(a[5], b[5]) + Mul(a[6], b[4]) + Mul(a[7], b[3]) else
    if k == 11 then Mul(a[4], b[7]) + Mul(a[5], b[6]) + Mul(a[6], b[5]) + Mul(a[7], b[4]) else
    if k == 12 then Mul(a[5], b[7]) + Mul(a[6], b[6]) + Mul(a[7], b[5]) else
    if k == 13 then Mul(a[6], b[7]) + Mul(a[7], b[6]) else
    if k == 14 then Mul(a[7], b[7]) else
    0
  }

  ghost function LowColumns(a: seq<int>, b: seq<int>): int
    requires |a| == |b| == 8
  {
    Horner(Column(a, b, 0), Column(a, b, 1), Column(a, b, 2), Column(a, b, 3), Column(a, b, 4), Column(a, b, 5),
        Column(a, b, 6), Column(a, b, 7))
  }

  ghost function HighColumns(a: seq<int>, b: seq<int>): int
    requires |a| == |b| == 8
  {
    Horner(Column(a, b, 8), Column(a, b, 9), Column(a, b, 10), Column(a, b, 11), Column(a, b, 12), Column(a, b, 13),
        Column(a, b, 14), 0)
  }

  ghost function Horner(x0: int, x1: int, x2: int, x3: int, x4: int, x5: int, x6: int, x7: int): int {
    x0 + 0x1_0000_0000 * (x1 + 0x1_0000_0000 * (x2 + 0x1_0000_0000 * (x3 + 0x1_0000_0000 *
    (x4 + 0x1_0000_0000 * (x5 + 0x1_0000_0000 * (x6 + 0x1_0000_0000 * x7))))))
  }

  /** One row of the schoolbook product. */
  ghost function Row(x: int, b: seq<int>): (r: int)
    requires |b| == 8
  {
    Horner(Mul(x, b[0]), Mul(x, b[1]), Mul(x, b[2]), Mul(x, b[3]), Mul(x, b[4]), Mul(x, b[5]), Mul(x, b[6]),
        Mul(x, b[7]))
  }

  lemma RowProduct(x: int, b: seq<int>)
    requires |b| == 8
    ensures Value(b) * x == Row(x, b)
  {
  }

  /** Adding up by rows is adding up by columns. */
  lemma Transpose(a0: int, a1: int, a2: int, a3: int, a4: int, a5: int, a6: int, a7: int,
                  b0: int, b1: int, b2: int, b3: int, b4: int, b5: int, b6: int, b7: int)
    ensures Horner(Horner(Mul(a0, b0), Mul(a0, b1), Mul(a0, b2), Mul(a0, b3),
                          Mul(a0, b4), Mul(a0, b5), Mul(a0, b6), Mul(a0, b7)),
                   Horner(Mul(a1, b0), Mul(a1, b1), Mul(a1, b2), Mul(a1, b3),
                          Mul(a1, b4), Mul(a1, b5), Mul(a1, b6), Mul(a1, b7)),
                   Horner(Mul(a2, b0), Mul(a2, b1), Mul(a2, b2), Mul(a2, b3),
                          Mul(a2, b4), Mul(a2, b5), Mul(a2, b6), Mul(a2, b7)),
                   Horner(Mul(a3, b0), Mul(a3, b1), Mul(a3, b2), Mul(a3, b3),
                          Mul(a3, b4), Mul(a3, b5), Mul(a3, b6), Mul(a3, b7)),
                   Horner(Mul(a4, b0), Mul(a4, b1), Mul(a4, b2), Mul(a4, b3),
                          Mul(a4, b4), Mul(a4, b5), Mul(a4, b6), Mul(a4, b7)),
                   Horner(Mul(a5, b0), Mul(a5, b1), Mul(a5, b2), Mul(a5, b3),
                          Mul(a5, b4), Mul(a5, b5), Mul(a5, b6), Mul(a5, b7)),
                   Horner(Mul(a6, b0), Mul(a6, b1), Mul(a6, b2), Mul(a6, b3),
                          Mul(a6, b4), Mul(a6, b5), Mul(a6, b6), Mul(a6, b7)),
                   Horner(Mul(a7, b0), Mul(a7, b1), Mul(a7, b2), Mul(a7, b3),
                          Mul(a7, b4), Mul(a7, b5), Mul(a7, b6), Mul(a7, b7)))
         == Horner(Mul(a0, b0),
                   Mul(a0, b1) + Mul(a1, b0),
                   Mul(a0, b2) + Mul(a1, b1) + Mul(a2, b0),
                   Mul(a0, b3) + Mul(a1, b2) + Mul(a2, b1) + Mul(a3, b0),
                   Mul(a0, b4) + Mul(a1, b3) + Mul(a2, b2) + Mul(a3, b1) + Mul(a4, b0),
                   Mul(a0, b5) + Mul(a1, b4) + Mul(a2, b3) + Mul(a3, b2) + Mul(a4, b1) + Mul(a5, b0),
                   Mul(a0, b6) + Mul(a1, b5) + Mul(a2, b4) + Mul(a3, b3) + Mul(a4, b2) + Mul(a5, b1) + Mul(a6, b0),
                   Mul(a0, b7) + Mul(a1, b6) + Mul(a2, b5) + Mul(a3, b4) + Mul(a4, b3) + Mul(a5, b2) + Mul(a6, b1) +
                     Mul(a7, b0))
          + R256 * Horner(Mul(a1, b7) + Mul(a2, b6) + Mul(a3, b5) + Mul(a4, b4) + Mul(a5, b3) + Mul(a6, b2) +
                            Mul(a7, b1),
                          Mul(a2, b7) + Mul(a3, b6) + Mul(a4, b5) + Mul(a5, b4) + Mul(a6, b3) + Mul(a7, b2),
                          Mul(a3, b7) + Mul(a4, b6) + Mul(a5, b5) + Mul(a6, b4) + Mul(a7, b3),
                          Mul(a4, b7) + Mul(a5, b6) + Mul(a6, b5) + Mul(a7, b4),
                          Mul(a5, b7) + Mul(a6, b6) + Mul(a7, b5),
                          Mul(a6, b7) + Mul(a7, b6),
                          Mul(a7, b7),
                          0)
  {
    hide Mul;
  }

  lemma RowsAreColumns(a: seq<int>, b: seq<int>)
    requires |a| == |b| == 8
    ensures Horner(Row(a[0], b), Row(a[1], b), Row(a[2], b), Row(a[3], b), Row(a[4], b), Row(a[5], b), Row(a[6], b),
          Row(a[7], b))
         == LowColumns(a, b) + R256 * HighColumns(a, b)
  {
    hide Mul, Horner;
    Transpose(a[0], a[1], a[2], a[3], a[4], a[5], a[6], a[7], b[0], b[1], b[2], b[3], b[4], b[5], b[6], b[7]);
  }

  lemma Distribute(v: int, a: seq<int>)
    requires |a| == 8
    ensures Value(a) * v == Horner(v * a[0], v * a[1], v * a[2], v * a[3], v * a[4], v * a[5], v * a[6], v * a[7])
  {
  }

  /** Summing the columns is multiplying the values. */
  lemma ColumnsMultiply(a: seq<int>, b: seq<int>)
    requires |a| == |b| == 8
    ensures LowColumns(a, b) + R256 * HighColumns(a, b) == Value(a) * Value(b)
  {
    hide Value, LowColumns, HighColumns, Horner, Row;
    Distribute(Value(b), a);
    RowProduct(a[0], b);
    RowProduct(a[1], b);
    RowProduct(a[2], b);
    RowProduct(a[3], b);
    RowProduct(a[4], b);
    RowProduct(a[5], b);
    RowProduct(a[6], b);
    RowProduct(a[7], b);
    RowsAreColumns(a, b);
  }

  lemma ProductRange(a: seq<Word>, b: seq<Word>)
    requires |a| == |b| == 8
    ensures 0 <= Value(a) * Value(b) < R256 * R256
  {
    hide Value;
    ValueRange(a);
    ValueRange(b);
    MulBound(Value(a), R256 - 1, Value(b), R256 - 1);
  }

  method ProductLow(a: seq<Word>, b: seq<Word>) returns (l: seq<Word>, c0: Word, c1: Word, c2: Word)
    requires |a| == |b| == 8
    ensures |l| == 8 && Acc(c0, c1, c2) < CARRY
    ensures Value(l) + R256 * Acc(c0, c1, c2) == LowColumns(a, b)
  {
    hide Mul;
    var l0, l1, l2, l3, l4, l5, l6, l7;
    ProductBound(a[0], b[0]);
    c0, c1 := MulAddFast(0, 0, a[0], b[0]);
    l0, c0, c1, c2 := c0, c1, 0, 0;
    l1, c0, c1, c2 := Column2(c0, c1, c2, a[0], b[1], a[1], b[0]);
    l2, c0, c1, c2 := Column3(c0, c1, c2, a[0], b[2], a[1], b[1], a[2], b[0]);
    l3, c0, c1, c2 := Column4(c0, c1, c2, a[0], b[3], a[1], b[2], a[2], b[1], a[3], b[0]);
    l4, c0, c1, c2 := Column5(c0, c1, c2, a[0], b[4], a[1], b[3], a[2], b[2], a[3], b[1], a[4], b[0]);
    l5, c0, c1, c2 := Column6(c0, c1, c2, a[0], b[5], a[1], b[4], a[2], b[3], a[3], b[2], a[4], b[1], a[5], b[0]);
    l6, c0, c1, c2 := Column7(c0, c1, c2, a[0], b[6], a[1], b[5], a[2], b[4], a[3], b[3], a[4], b[2], a[5], b[1], a[6],
        b[0]);
    l7, c0, c1, c2 := Column8(c0, c1, c2, a[0], b[7], a[1], b[6], a[2], b[5], a[3], b[4], a[4], b[3], a[5], b[2], a[6],
        b[1], a[7], b[0]);
    l := [l0, l1, l2, l3, l4, l5, l6, l7];
  }

  method ProductHigh(a: seq<Word>, b: seq<Word>, k0: Word, k1: Word, k2: Word) returns (l: seq<Word>)
    requires |a| == |b| == 8
    requires Acc(k0, k1, k2) < CARRY
    requires Acc(k0, k1, k2) + HighColumns(a, b) < R256
    ensures |l| == 8 && Value(l) == Acc(k0, k1, k2) + HighColumns(a, b)
  {
    var c0, c1, c2, l0, l1, l2, l3, l4, l5, l6, l7;
    hide Mul;
    l0, c0, c1, c2 := Column7(k0, k1, k2, a[1], b[7], a[2], b[6], a[3], b[5], a[4], b[4], a[5], b[3], a[6], b[2], a[7],
        b[1]);
    l1, c0, c1, c2 := Column6(c0, c1, c2, a[2], b[7], a[3], b[6], a[4], b[5], a[5], b[4], a[6], b[3], a[7], b[2]);
    l2, c0, c1, c2 := Column5(c0, c1, c2, a[3], b[7], a[4], b[6], a[5], b[5], a[6], b[4], a[7], b[3]);
    l3, c0, c1, c2 := Column4(c0, c1, c2, a[4], b[7], a[5], b[6], a[6], b[5], a[7], b[4]);
    l4, c0, c1, c2 := Column3(c0, c1, c2, a[5], b[7], a[6], b[6], a[7], b[5]);
    l5, c0, c1, c2 := Column2(c0, c1, c2, a[6], b[7], a[7], b[6]);
    ProductBound(a[7], b[7]);
    c0, c1 := MulAddFast(c0, c1, a[7], b[7]);
    l6, c0, c1 := c0, c1, 0;
    l7 := c0;
    l := [l0, l1, l2, l3, l4, l5, l6, l7];
  }

  /** The number that sixteen limbs denote. */
  ghost function Value16(l: seq<int>): int
    requires |l| == 16
  {
    Value(l[..8]) + R256 * Value(l[8..])
  }

  /** The exact 512-bit product. */
  method Mul512(a: seq<Word>, b: seq<Word>) returns (l: seq<Word>)
    requires |a| == |b| == 8
    ensures |l| == 16 && Value16(l) == Value(a) * Value(b)
  {
    hide Value, LowColumns, HighColumns, Acc;
    ColumnsMultiply(a, b);
    ProductRange(a, b);
    var low, c0, c1, c2 := ProductLow(a, b);
    ValueRange(low);
    var high := ProductHigh(a, b, c0, c1, c2);
    l := low + high;
    assert l[..8] == low && l[8..] == high;
  }

  lemma Symmetric(a: seq<int>)
    requires |a| == 8
    ensures forall i, j :: 0 <= i < j < 8 ==> Mul(a[j], a[i]) == Mul(a[i], a[j])
  {
  }

  method SquareLow(a: seq<Word>) returns (l: seq<Word>, c0: Word, c1: Word, c2: Word)
    requires |a| == 8
    ensures |l| == 8 && Acc(c0, c1, c2) < CARRY
    ensures Value(l) + R256 * Acc(c0, c1, c2) == LowColumns(a, a)
  {
    hide Mul;
    Symmetric(a);
    var l0, l1, l2, l3, l4, l5, l6, l7;
    ProductBound(a[0], a[0]);
    c0, c1 := MulAddFast(0, 0, a[0], a[0]);
    l0, c0, c1, c2 := c0, c1, 0, 0;
    c0, c1, c2 := MulAdd2(c0, c1, c2, a[0], a[1]);
    l1, c0, c1, c2 := c0, c1, c2, 0;
    c0, c1, c2 := MulAdd2(c0, c1, c2, a[0], a[2]);
    c0, c1, c2 := MulAdd(c0, c1, c2, a[1], a[1]);
    l2, c0, c1, c2 := c0, c1, c2, 0;
    c0, c1, c2 := MulAdd2(c0, c1, c2, a[0], a[3]);
    c0, c1, c2 := MulAdd2(c0, c1, c2, a[1], a[2]);
    l3, c0, c1, c2 := c0, c1, c2, 0;
    c0, c1, c2 := MulAdd2(c0, c1, c2, a[0], a[4]);
    c0, c1, c2 := MulAdd2(c0, c1, c2, a[1], a[3]);
    c0, c1, c2 := MulAdd(c0, c1, c2, a[2], a[2]);
    l4, c0, c1, c2 := c0, c1, c2, 0;
    c0, c1, c2 := MulAdd2(c0, c1, c2, a[0], a[5]);
    c0, c1, c2 := MulAdd2(c0, c1, c2, a[1], a[4]);
    c0, c1, c2 := MulAdd2(c0, c1, c2, a[2], a[3]);
    l5, c0, c1, c2 := c0, c1, c2, 0;
    c0, c1, c2 := MulAdd2(c0, c1, c2, a[0], a[6]);
    c0, c1, c2 := MulAdd2(c0, c1, c2, a[1], a[5]);
    c0, c1, c2 := MulAdd2(c0, c1, c2, a[2], a[4]);
    c0, c1, c2 := MulAdd(c0, c1, c2, a[3], a[3]);
    l6, c0, c1, c2 := c0, c1, c2, 0;
    c0, c1, c2 := MulAdd2(c0, c1, c2, a[0], a[7]);
    c0, c1, c2 := MulAdd2(c0, c1, c2, a[1], a[6]);
    c0, c1, c2 := MulAdd2(c0, c1, c2, a[2], a[5]);
    c0, c1, c2 := MulAdd2(c0, c1, c2, a[3], a[4]);
    l7, c0, c1, c2 := c0, c1, c2, 0;
    l := [l0, l1, l2, l3, l4, l5, l6, l7];
  }

  method SquareMiddle(a: seq<Word>, k0: Word, k1: Word, k2: Word)
    returns (l0: Word, l1: Word, l2: Word, l3: Word, c0: Word, c1: Word, c2: Word)
    requires |a| == 8 && Acc(k0, k1, k2) < CARRY
    ensures Acc(c0, c1, c2) < CARRY
    ensures Horner(l0, l1, l2, l3, Acc(c0, c1, c2), 0, 0, 0) ==
            Acc(k0, k1, k2) + Horner(Column(a, a, 8), Column(a, a, 9), Column(a, a, 10), Column(a, a, 11), 0, 0, 0, 0)
  {
    hide Mul;
    Symmetric(a);
    c0, c1, c2 := MulAdd2(k0, k1, k2, a[1], a[7]);
    c0, c1, c2 := MulAdd2(c0, c1, c2, a[2], a[6]);
    c0, c1, c2 := MulAdd2(c0, c1, c2, a[3], a[5]);
    c0, c1, c2 := MulAdd(c0, c1, c2, a[4], a[4]);
    l0, c0, c1, c2 := c0, c1, c2, 0;
    c0, c1, c2 := MulAdd2(c0, c1, c2, a[2], a[7]);
    c0, c1, c2 := MulAdd2(c0, c1, c2, a[3], a[6]);
    c0, c1, c2 := MulAdd2(c0, c1, c2, a[4], a[5]);
    l1, c0, c1, c2 := c0, c1, c2, 0;
    c0, c1, c2 := MulAdd2(c0, c1, c2, a[3], a[7]);
    c0, c1, c2 := MulAdd2(c0, c1, c2, a[4], a[6]);
    c0, c1, c2 := MulAdd(c0, c1, c2, a[5], a[5]);
    l2, c0, c1, c2 := c0, c1, c2, 0;
    c0, c1, c2 := MulAdd2(c0, c1, c2, a[4], a[7]);
    c0, c1, c2 := MulAdd2(c0, c1, c2, a[5], a[6]);
    l3, c0, c1, c2 := c0, c1, c2, 0;
  }

  method SquareHigh(a: seq<Word>, k0: Word, k1: Word, k2: Word) returns (l: seq<Word>)
    requires |a| == 8
    requires Acc(k0, k1, k2) < CARRY
    requires Acc(k0, k1, k2) + HighColumns(a, a) < R256
    ensures |l| == 8 && Value(l) == Acc(k0, k1, k2) + HighColumns(a, a)
  {
    var c0, c1, c2, l0, l1, l2, l3, l4, l5, l6, l7;
    hide Mul;
    Symmetric(a);
    l0, l1, l2, l3, c0, c1, c2 := SquareMiddle(a, k0, k1, k2);
    c0, c1, c2 := MulAdd2(c0, c1, c2, a[5], a[7]);
    c0, c1, c2 := MulAdd(c0, c1, c2, a[6], a[6]);
    l4, c0, c1, c2 := c0, c1, c2, 0;
    c0, c1, c2 := MulAdd2(c0, c1, c2, a[6], a[7]);
    l5, c0, c1, c2 := c0, c1, c2, 0;
    ProductBound(a[7], a[7]);
    c0, c1 := MulAddFast(c0, c1, a[7], a[7]);
    l6, c0, c1 := c0, c1, 0;
    l7 := c0;
    l := [l0, l1, l2, l3, l4, l5, l6, l7];
  }

  method Sqr512(a: seq<Word>) returns (l: seq<Word>)
    requires |a| == 8
    ensures |l| == 16 && Value16(l) == Value(a) * Value(a)
  {
    hide Value, LowColumns, HighColumns, Acc;
    ColumnsMultiply(a, a);
    ProductRange(a, a);
    var low, c0, c1, c2 := SquareLow(a);
    ValueRange(low);
    var high := SquareHigh(a, c0, c1, c2);
    l := low + high;
    assert l[..8] == low && l[8..] == high;
  }

  /** 2^256 - N. */
  const NC: int := 0x1_45512319_50B75FC4_402DA173_2FC9BEBF

  /** One full column of `l + n * NC`. */
  method FoldColumn(c0: Word, c1: Word, c2: Word, l: Word, x0: Word, x1: Word, x2: Word, x3: Word, x4: Word)
    returns (m: Word, r0: Word, r1: Word, r2: Word)
    requires Acc(c0, c1, c2) < CARRY
    ensures m + 0x1_0000_0000 * Acc(r0, r1, r2)
         == Acc(c0, c1, c2) + l + 0x2FC9BEBF * x0 + 0x402DA173 * x1 + 0x50B75FC4 * x2 + 0x45512319 * x3 + x4
    ensures Acc(r0, r1, r2) < CARRY
  {
    r0, r1, r2 := SumAdd(c0, c1, c2, l);
    r0, r1, r2 := MulAdd(r0, r1, r2, x0, 0x2FC9BEBF);
    r0, r1, r2 := MulAdd(r0, r1, r2, x1, 0x402DA173);
    r0, r1, r2 := MulAdd(r0, r1, r2, x2, 0x50B75FC4);
    r0, r1, r2 := MulAdd(r0, r1, r2, x3, 0x45512319);
    r0, r1, r2 := SumAdd(r0, r1, r2, x4);
    m, r0, r1, r2 := r0, r1, r2, 0;
  }

  /** What the columns of `n * NC` from the eighth up add. */
  ghost function HighFold(n: seq<int>): int
    requires |n| == 8
  {
    0x402DA173 * n[7] + 0x50B75FC4 * n[6] + 0x45512319 * n[5] + n[4] + 0x1_0000_0000 *
    (0x50B75FC4 * n[7] + 0x45512319 * n[6] + n[5] + 0x1_0000_0000 *
    (0x45512319 * n[7] + n[6] + 0x1_0000_0000 * n[7]))
  }

  ghost function LowFold(l: seq<int>, n: seq<int>): int
    requires |l| == |n| == 8
  {
    l[0] + 0x2FC9BEBF * n[0] + 0x1_0000_0000 *
    (l[1] + 0x2FC9BEBF * n[1] + 0x402DA173 * n[0] + 0x1_0000_0000 *
    (l[2] + 0x2FC9BEBF * n[2] + 0x402DA173 * n[1] + 0x50B75FC4 * n[0] + 0x1_0000_0000 *
    (l[3] + 0x2FC9BEBF * n[3] + 0x402DA173 * n[2] + 0x50B75FC4 * n[1] + 0x45512319 * n[0])))
  }

  /** The columns of `l + n * NC` that need fewer than four products. */
  method FoldStart(l: seq<Word>, n: seq<Word>)
    returns (m0: Word, m1: Word, m2: Word, m3: Word, c0: Word, c1: Word, c2: Word)
    requires |l| == |n| == 8
    ensures Acc(c0, c1, c2) < CARRY
    ensures m0 + 0x1_0000_0000 * (m1 + 0x1_0000_0000 * (m2 + 0x1_0000_0000 * (m3 + 0x1_0000_0000 * Acc(c0, c1, c2))))
         == LowFold(l, n)
  {
    c0, c1, c2 := l[0], 0, 0;
    c0, c1 := MulAddFast(c0, c1, n[0], 0x2FC9BEBF);
    m0, c0, c1 := c0, c1, 0;
    c0, c1 := SumAddFast(c0, c1, l[1]);
    c0, c1, c2 := MulAdd(c0, c1, c2, n[1], 0x2FC9BEBF);
    c0, c1, c2 := MulAdd(c0, c1, c2, n[0], 0x402DA173);
    m1, c0, c1, c2 := c0, c1, c2, 0;
    c0, c1, c2 := SumAdd(c0, c1, c2, l[2]);
    c0, c1, c2 := MulAdd(c0, c1, c2, n[2], 0x2FC9BEBF);
    c0, c1, c2 := MulAdd(c0, c1, c2, n[1], 0x402DA173);
    c0, c1, c2 := MulAdd(c0, c1, c2, n[0], 0x50B75FC4);
    m2, c0, c1, c2 := c0, c1, c2, 0;
    c0, c1, c2 := SumAdd(c0, c1, c2, l[3]);
    c0, c1, c2 := MulAdd(c0, c1, c2, n[3], 0x2FC9BEBF);
    c0, c1, c2 := MulAdd(c0, c1, c2, n[2], 0x402DA173);
    c0, c1, c2 := MulAdd(c0, c1, c2, n[1], 0x50B75FC4);
    c0, c1, c2 := MulAdd(c0, c1, c2, n[0], 0x45512319);
    m3, c0, c1, c2 := c0, c1, c2, 0;
  }

  method FoldLow(l: seq<Word>, n: seq<Word>) returns (m: seq<Word>, c0: Word, c1: Word, c2: Word)
    requires |l| == |n| == 8
    ensures |m| == 8 && Acc(c0, c1, c2) < CARRY
    ensures Value(m) + R256 * (Acc(c0, c1, c2) + HighFold(n)) == Value(l) + NC * Value(n)
  {
    var m0, m1, m2, m3, m4, m5, m6, m7;
    m0, m1, m2, m3, c0, c1, c2 := FoldStart(l, n);
    m4, c0, c1, c2 := FoldColumn(c0, c1, c2, l[4], n[4], n[3], n[2], n[1], n[0]);
    m5, c0, c1, c2 := FoldColumn(c0, c1, c2, l[5], n[5], n[4], n[3], n[2], n[1]);
    m6, c0, c1, c2 := FoldColumn(c0, c1, c2, l[6], n[6], n[5], n[4], n[3], n[2]);
    m7, c0, c1, c2 := FoldColumn(c0, c1, c2, l[7], n[7], n[6], n[5], n[4], n[3]);
    m := [m0, m1, m2, m3, m4, m5, m6, m7];
  }

  /** The number in the five limbs above the first eight. */
  ghost function Value5(h: seq<int>): int
    requires |h| == 5
  {
    h[0] + 0x1_0000_0000 * (h[1] + 0x1_0000_0000 * (h[2] + 0x1_0000_0000 * (h[3] + 0x1_0000_0000 * h[4])))
  }

  /** The two lower columns of the first fold's upper half. */
  ghost function MiddleFold(n: seq<int>): int
    requires |n| == 8
  {
    0x402DA173 * n[7] + 0x50B75FC4 * n[6] + 0x45512319 * n[5] + n[4] +
    0x1_0000_0000 * (0x50B75FC4 * n[7] + 0x45512319 * n[6] + n[5])
  }

  method FoldMiddle(n: seq<Word>, k0: Word, k1: Word, k2: Word)
    returns (m8: Word, m9: Word, c0: Word, c1: Word, c2: Word)
    requires |n| == 8 && Acc(k0, k1, k2) < CARRY
    ensures Acc(c0, c1, c2) < CARRY
    ensures m8 + 0x1_0000_0000 * (m9 + 0x1_0000_0000 * Acc(c0, c1, c2)) == Acc(k0, k1, k2) + MiddleFold(n)
  {
    c0, c1, c2 := MulAdd(k0, k1, k2, n[7], 0x402DA173);
    c0, c1, c2 := MulAdd(c0, c1, c2, n[6], 0x50B75FC4);
    c0, c1, c2 := MulAdd(c0, c1, c2, n[5], 0x45512319);
    c0, c1, c2 := SumAdd(c0, c1, c2, n[4]);
    m8, c0, c1, c2 := c0, c1, c2, 0;
    c0, c1, c2 := MulAdd(c0, c1, c2, n[7], 0x50B75FC4);
    c0, c1, c2 := MulAdd(c0, c1, c2, n[6], 0x45512319);
    c0, c1, c2 := SumAdd(c0, c1, c2, n[5]);
    m9, c0, c1, c2 := c0, c1, c2, 0;
  }

  method FoldHigh(n: seq<Word>, k0: Word, k1: Word, k2: Word) returns (h: seq<Word>)
    requires |n| == 8
    requires Acc(k0, k1, k2) < CARRY
    requires Acc(k0, k1, k2) + HighFold(n) <= NC
    ensures |h| == 5 && Value5(h) == Acc(k0, k1, k2) + HighFold(n)
    ensures h[4] <= 1
  {
    var m8, m9, c0, c1, c2 := FoldMiddle(n, k0, k1, k2);
    var m10, m11;
    c0, c1, c2 := MulAdd(c0, c1, c2, n[7], 0x45512319);
    c0, c1, c2 := SumAdd(c0, c1, c2, n[6]);
    m10, c0, c1, c2 := c0, c1, c2, 0;
    c0, c1 := SumAddFast(c0, c1, n[7]);
    m11, c0, c1 := c0, c1, 0;
    h := [m8, m9, m10, m11, c0];
  }

  /** The top columns of the second fold. */
  method FoldTop(k0: Word, k1: Word, k2: Word, l5: Word, l6: Word, l7: Word, h: seq<Word>)
    returns (p5: Word, p6: Word, p7: Word, p8: Word)
    requires |h| == 5 && h[4] <= 1
    requires Acc(k0, k1, k2) < CARRY
    ensures p5 + 0x1_0000_0000 * (p6 + 0x1_0000_0000 * (p7 + 0x1_0000_0000 * p8))
         == Acc(k0, k1, k2) + TopFold(l5, l6, l7, h)
  {
    var c0, c1, c2 := SumAdd(k0, k1, k2, l5);
    c0, c1, c2 := MulAdd(c0, c1, c2, h[4], 0x402DA173);
    c0, c1, c2 := MulAdd(c0, c1, c2, h[3], 0x50B75FC4);
    c0, c1, c2 := MulAdd(c0, c1, c2, h[2], 0x45512319);
    c0, c1, c2 := SumAdd(c0, c1, c2, h[1]);
    p5, c0, c1, c2 := c0, c1, c2, 0;
    c0, c1, c2 := SumAdd(c0, c1, c2, l6);
    c0, c1, c2 := MulAdd(c0, c1, c2, h[4], 0x50B75FC4);
    c0, c1, c2 := MulAdd(c0, c1, c2, h[3], 0x45512319);
    c0, c1, c2 := SumAdd(c0, c1, c2, h[2]);
    p6, c0, c1, c2 := c0, c1, c2, 0;
    c0, c1 := SumAddFast(c0, c1, l7);
    c0, c1 := MulAddFast(c0, c1, h[4], 0x45512319);
    c0, c1 := SumAddFast(c0, c1, h[3]);
    p7, c0, c1 := c0, c1, 0;
    p8 := c0 + h[4];
  }

  ghost function TopFold(l5: int, l6: int, l7: int, h: seq<int>): int
    requires |h| == 5
  {
    l5 + 0x402DA173 * h[4] + 0x50B75FC4 * h[3] + 0x45512319 * h[2] + h[1] + 0x1_0000_0000 *
    (l6 + 0x50B75FC4 * h[4] + 0x45512319 * h[3] + h[2] + 0x1_0000_0000 *
    (l7 + 0x45512319 * h[4] + h[3] + 0x1_0000_0000 * h[4]))
  }

  /** The second fold: 385 bits into 258. */
  method FoldAgain(l: seq<Word>, h: seq<Word>) returns (p: seq<Word>, p8: Word)
    requires |l| == 8 && |h| == 5 && h[4] <= 1 && Value5(h) <= NC
    ensures |p| == 8 && p8 <= 2
    ensures Value(p) + R256 * p8 == Value(l) + NC * Value5(h)
  {
    var p0, p1, p2, p3, p4, p5, p6, p7, c0, c1, c2;
    p0, p1, p2, p3, c0, c1, c2 := FoldStart(l, h + [0, 0, 0]);
    p4, c0, c1, c2 := FoldColumn(c0, c1, c2, l[4], h[4], h[3], h[2], h[1], h[0]);
    p5, p6, p7, p8 := FoldTop(c0, c1, c2, l[5], l[6], l[7], h);
    p := [p0, p1, p2, p3, p4, p5, p6, p7];
    ValueRange(l);
    ValueRange(p);
  }

  /** The third fold: 258 bits into 256 and a carry. */
  method FoldLast(p: seq<Word>, p8: Word) returns (r: seq<Word>, c: Wide)
    requires |p| == 8 && p8 <= 2
    ensures |r| == 8 && c <= 1
    ensures Value(r) + R256 * c == Value(p) + NC * p8
  {
    var r0, r1, r2, r3, r4, r5, r6, r7;
    c := p[0] + 0x2FC9BEBF * (p8 as int);
    r0, c := Split(c);
    c := c + p[1] + 0x402DA173 * p8;
    r1, c := Split(c);
    c := c + p[2] + 0x50B75FC4 * p8;
    r2, c := Split(c);
    c := c + p[3] + 0x45512319 * p8;
    r3, c := Split(c);
    c := c + p[4] + p8;
    r4, c := Split(c);
    c := c + p[5];
    r5, c := Split(c);
    c := c + p[6];
    r6, c := Split(c);
    c := c + p[7];
    r7, c := Split(c);
    r := [r0, r1, r2, r3, r4, r5, r6, r7];
  }

  /** Three folds and one conditional subtraction leave the remainder modulo the order. */
  method Reduce512(r: array<Word>, l: seq<Word>)
    requires r.Length == 8 && |l| == 16
    modifies r
    ensures Value(r[..]) == Value16(l) % N
  {
    hide Value, Value5, Acc, HighFold;
    ValueRange(l[..8]);
    ValueRange(l[8..]);
    var m, c0, c1, c2 := FoldLow(l[..8], l[8..]);
    ValueRange(m);
    var h := FoldHigh(l[8..], c0, c1, c2);
    var p, p8 := FoldAgain(m, h);
    ValueRange(p);
    FinishReduction(r, p, p8, Value16(l), Value(l[8..]) + Value5(h));
  }

  /** The last fold and the final subtraction, for a number `k * N` below `x`. */
  method FinishReduction(r: array<Word>, p: seq<Word>, p8: Word, ghost x: int, ghost k: int)
    requires r.Length == 8 && |p| == 8 && p8 <= 2
    requires Value(p) + R256 * p8 == x - k * N
    modifies r
    ensures Value(r[..]) == x % N
  {
    hide Value;
    ValueRange(p);
    var z, c := FoldLast(p, p8);
    ValueRange(z);
    Store(r, z);
    var yes := CheckOverflow(r[..]);
    var over, carry := Reduce(r, c + (if yes then 1 else 0));
    ValueRange(r[..]);
    Bits.DivModUnique(x, N, k + p8 + over, Value(r[..]));
  }

  method ScalarMul(r: array<Word>, a: array<Word>, b: array<Word>)
    requires r.Length == a.Length == b.Length == 8
    modifies r
    ensures Value(r[..]) == (old(Value(a[..])) * old(Value(b[..]))) % N
  {
    var l := Mul512(a[..], b[..]);
    Reduce512(r, l);
  }

  method ScalarSqr(r: array<Word>, a: array<Word>)
    requires r.Length == a.Length == 8
    modifies r
    ensures Value(r[..]) == (old(Value(a[..])) * old(Value(a[..]))) % N
  {
    var l := Sqr512(a[..]);
    Reduce512(r, l);
  }
}
