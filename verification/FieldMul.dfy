/** Multiplication and squaring of field elements held as ten 26-bit limbs with lazy carries. */
module FieldMul {
  import opened FieldLimbs
  import opened Words

  /** Every limb of an operand fits 30 bits, and the top one 26 bits. */
  predicate Operand(a: seq<Word>) {
    |a| == 10 && a[9] <= 0x3FF_FFFF && forall i :: 0 <= i < 9 ==> a[i] <= 0x3FFF_FFFF
  }

  /** Bound on a column: ten products of 30-bit limbs. */
  const COLUMN: int := 10 * 0xFFF_FFFF_8000_0001

  function Product(x: Word, y: Word): (p: Wide)
    requires x <= 0x3FFF_FFFF && y <= 0x3FFF_FFFF
    ensures p == Mul(x, y) <= 0xFFF_FFFF_8000_0001
  {
    MulBound(x, 0x3FFF_FFFF, y, 0x3FFF_FFFF);
    x * y
  }

  /** The products a[i] * b[j] with i + j == k. */
  ghost function Column(a: seq<int>, b: seq<int>, k: nat): int
    requires |a| == |b| == 10
  {
    if k == 0 then Mul(a[0], b[0]) else
    if k == 1 then Mul(a[0], b[1]) + Mul(a[1], b[0]) else
    if k == 2 then Mul(a[0], b[2]) + Mul(a[1], b[1]) + Mul(a[2], b[0]) else
    if k == 3 then Mul(a[0], b[3]) + Mul(a[1], b[2]) + Mul(a[2], b[1]) + Mul(a[3], b[0]) else
    if k == 4 then Mul(a[0], b[4]) + Mul(a[1], b[3]) + Mul(a[2], b[2]) + Mul(a[3], b[1]) + Mul(a[4], b[0]) else
    if k == 5 then Mul(a[0], b[5]) + Mul(a[1], b[4]) + Mul(a[2], b[3]) + Mul(a[3], b[2]) + Mul(a[4], b[1]) +
      Mul(a[5], b[0]) else
    if k == 6 then Mul(a[0], b[6]) + Mul(a[1], b[5]) + Mul(a[2], b[4]) + Mul(a[3], b[3]) + Mul(a[4], b[2]) +
      Mul(a[5], b[1]) + Mul(a[6], b[0]) else
    if k == 7 then Mul(a[0], b[7]) + Mul(a[1], b[6]) + Mul(a[2], b[5]) + Mul(a[3], b[4]) + Mul(a[4], b[3]) +
      Mul(a[5], b[2]) + Mul(a[6], b[1]) + Mul(a[7], b[0]) else
    if k == 8 then Mul(a[0], b[8]) + Mul(a[1], b[7]) + Mul(a[2], b[6]) + Mul(a[3], b[5]) + Mul(a[4], b[4]) +
      Mul(a[5], b[3]) + Mul(a[6], b[2]) + Mul(a[7], b[1]) + Mul(a[8], b[0]) else
    if k == 9 then Mul(a[0], b[9]) + Mul(a[1], b[8]) + Mul(a[2], b[7]) + Mul(a[3], b[6]) + Mul(a[4], b[5]) +
      Mul(a[5], b[4]) + Mul(a[6], b[3]) + Mul(a[7], b[2]) + Mul(a[8], b[1]) + Mul(a[9], b[0]) else
    if k == 10 then Mul(a[1], b[9]) + Mul(a[2], b[8]) + Mul(a[3], b[7]) + Mul(a[4], b[6]) + Mul(a[5], b[5]) +
      Mul(a[6], b[4]) + Mul(a[7], b[3]) + Mul(a[8], b[2]) + Mul(a[9], b[1]) else
    if k == 11 then Mul(a[2], b[9]) + Mul(a[3], b[8]) + Mul(a[4], b[7]) + Mul(a[5], b[6]) + Mul(a[6], b[5]) +
      Mul(a[7], b[4]) + Mul(a[8], b[3]) + Mul(a[9], b[2]) else
    if k == 12 then Mul(a[3], b[9]) + Mul(a[4], b[8]) + Mul(a[5], b[7]) + Mul(a[6], b[6]) + Mul(a[7], b[5]) +
      Mul(a[8], b[4]) + Mul(a[9], b[3]) else
    if k == 13 then Mul(a[4], b[9]) + Mul(a[5], b[8]) + Mul(a[6], b[7]) + Mul(a[7], b[6]) + Mul(a[8], b[5]) +
      Mul(a[9], b[4]) else
    if k == 14 then Mul(a[5], b[9]) + Mul(a[6], b[8]) + Mul(a[7], b[7]) + Mul(a[8], b[6]) + Mul(a[9], b[5]) else
    if k == 15 then Mul(a[6], b[9]) + Mul(a[7], b[8]) + Mul(a[8], b[7]) + Mul(a[9], b[6]) else
    if k == 16 then Mul(a[7], b[9]) + Mul(a[8], b[8]) + Mul(a[9], b[7]) else
    if k == 17 then Mul(a[8], b[9]) + Mul(a[9], b[8]) else
    if k == 18 then Mul(a[9], b[9]) else
    0
  }

  ghost function LowColumns(a: seq<int>, b: seq<int>): int
    requires |a| == |b| == 10
  {
    Limbs10(Column(a, b, 0), Column(a, b, 1), Column(a, b, 2), Column(a, b, 3), Column(a, b, 4),
            Column(a, b, 5), Column(a, b, 6), Column(a, b, 7), Column(a, b, 8), Column(a, b, 9))
  }

  ghost function HighColumns(a: seq<int>, b: seq<int>): int
    requires |a| == |b| == 10
  {
    Limbs10(Column(a, b, 10), Column(a, b, 11), Column(a, b, 12), Column(a, b, 13), Column(a, b, 14),
            Column(a, b, 15), Column(a, b, 16), Column(a, b, 17), Column(a, b, 18), 0)
  }

  ghost function Row(x: int, b: seq<int>): int
    requires |b| == 10
  {
    Limbs10(Mul(x, b[0]), Mul(x, b[1]), Mul(x, b[2]), Mul(x, b[3]), Mul(x, b[4]),
            Mul(x, b[5]), Mul(x, b[6]), Mul(x, b[7]), Mul(x, b[8]), Mul(x, b[9]))
  }

  lemma RowProduct(x: int, b: seq<int>)
    requires |b| == 10
    ensures Fe(b) * x == Row(x, b)
  {
  }

  lemma Distribute(v: int, a: seq<int>)
    requires |a| == 10
    ensures Fe(a) * v == Limbs10(v * a[0], v * a[1], v * a[2], v * a[3], v * a[4], v * a[5], v * a[6], v * a[7],
          v * a[8], v * a[9])
  {
  }

  /** 2^260, the weight of the tenth limb. */
  const R260: int := 0x10_00000000_00000000_00000000_00000000_00000000_00000000_00000000_00000000

  const R130: int := 0x4_00000000_00000000_00000000_00000000

  /** Five rows of products, added up by columns. */
  lemma FiveRows(a0: int, a1: int, a2: int, a3: int, a4: int,
                 b0: int, b1: int, b2: int, b3: int, b4: int, b5: int, b6: int, b7: int, b8: int, b9: int)
    ensures Limbs10(Limbs10(Mul(a0, b0), Mul(a0, b1), Mul(a0, b2), Mul(a0, b3), Mul(a0, b4),
                            Mul(a0, b5), Mul(a0, b6), Mul(a0, b7), Mul(a0, b8), Mul(a0, b9)),
                    Limbs10(Mul(a1, b0), Mul(a1, b1), Mul(a1, b2), Mul(a1, b3), Mul(a1, b4),
                            Mul(a1, b5), Mul(a1, b6), Mul(a1, b7), Mul(a1, b8), Mul(a1, b9)),
                    Limbs10(Mul(a2, b0), Mul(a2, b1), Mul(a2, b2), Mul(a2, b3), Mul(a2, b4),
                            Mul(a2, b5), Mul(a2, b6), Mul(a2, b7), Mul(a2, b8), Mul(a2, b9)),
                    Limbs10(Mul(a3, b0), Mul(a3, b1), Mul(a3, b2), Mul(a3, b3), Mul(a3, b4),
                            Mul(a3, b5), Mul(a3, b6), Mul(a3, b7), Mul(a3, b8), Mul(a3, b9)),
                    Limbs10(Mul(a4, b0), Mul(a4, b1), Mul(a4, b2), Mul(a4, b3), Mul(a4, b4),
                            Mul(a4, b5), Mul(a4, b6), Mul(a4, b7), Mul(a4, b8), Mul(a4, b9)),
                    0, 0, 0, 0, 0)
         == Limbs10(Mul(a0, b0), Mul(a0, b1) + Mul(a1, b0), Mul(a0, b2) + Mul(a1, b1) + Mul(a2, b0),
                    Mul(a0, b3) + Mul(a1, b2) + Mul(a2, b1) + Mul(a3, b0),
                    Mul(a0, b4) + Mul(a1, b3) + Mul(a2, b2) + Mul(a3, b1) + Mul(a4, b0),
                    Mul(a0, b5) + Mul(a1, b4) + Mul(a2, b3) + Mul(a3, b2) + Mul(a4, b1),
                    Mul(a0, b6) + Mul(a1, b5) + Mul(a2, b4) + Mul(a3, b3) + Mul(a4, b2),
                    Mul(a0, b7) + Mul(a1, b6) + Mul(a2, b5) + Mul(a3, b4) + Mul(a4, b3),
                    Mul(a0, b8) + Mul(a1, b7) + Mul(a2, b6) + Mul(a3, b5) + Mul(a4, b4),
                    Mul(a0, b9) + Mul(a1, b8) + Mul(a2, b7) + Mul(a3, b6) + Mul(a4, b5))
          + R260 * Limbs10(Mul(a1, b9) + Mul(a2, b8) + Mul(a3, b7) + Mul(a4, b6),
                    Mul(a2, b9) + Mul(a3, b8) + Mul(a4, b7), Mul(a3, b9) + Mul(a4, b8), Mul(a4, b9), 0, 0, 0, 0, 0, 0)
  {
    hide Mul;
  }

  /** Ten limbs and four more, moved up by five. */
  lemma ShiftFive(d0: int, d1: int, d2: int, d3: int, d4: int, d5: int, d6: int, d7: int, d8: int, d9: int,
                  d10: int, d11: int, d12: int, d13: int)
    ensures R130 * (Limbs10(d0, d1, d2, d3, d4, d5, d6, d7, d8, d9) +
                    R260 * Limbs10(d10, d11, d12, d13, 0, 0, 0, 0, 0, 0))
         == Limbs10(0, 0, 0, 0, 0, d0, d1, d2, d3, d4) + R260 * Limbs10(d5, d6, d7, d8, d9, d10, d11, d12, d13, 0)
  {
  }

  lemma SplitLimbs(n0: int, n1: int, n2: int, n3: int, n4: int, n5: int, n6: int, n7: int, n8: int, n9: int)
    ensures Limbs10(n0, n1, n2, n3, n4, n5, n6, n7, n8, n9)
         == Limbs10(n0, n1, n2, n3, n4, 0, 0, 0, 0, 0) + R130 * Limbs10(n5, n6, n7, n8, n9, 0, 0, 0, 0, 0)
  {
  }

  /** The sum of limbs, the lower five of the second number being zero. */
  lemma AddUpper(n0: int, n1: int, n2: int, n3: int, n4: int, n5: int, n6: int, n7: int, n8: int, n9: int,
                 d0: int, d1: int, d2: int, d3: int, d4: int)
    ensures Limbs10(n0, n1, n2, n3, n4, n5, n6, n7, n8, n9) + Limbs10(0, 0, 0, 0, 0, d0, d1, d2, d3, d4)
         == Limbs10(n0, n1, n2, n3, n4, n5 + d0, n6 + d1, n7 + d2, n8 + d3, n9 + d4)
  {
  }

  /** The sum of limbs, only the lower four of the first number being there. */
  lemma AddLower(n0: int, n1: int, n2: int, n3: int, d0: int, d1: int, d2: int, d3: int, d4: int, d5: int, d6: int,
                 d7: int, d8: int)
    ensures Limbs10(n0, n1, n2, n3, 0, 0, 0, 0, 0, 0) + Limbs10(d0, d1, d2, d3, d4, d5, d6, d7, d8, 0)
         == Limbs10(n0 + d0, n1 + d1, n2 + d2, n3 + d3, d4, d5, d6, d7, d8, 0)
  {
  }

  /** Adding up by rows is adding up by columns. */
  lemma Transpose(a0: int, a1: int, a2: int, a3: int, a4: int, a5: int, a6: int, a7: int, a8: int, a9: int,
                  b0: int, b1: int, b2: int, b3: int, b4: int, b5: int, b6: int, b7: int, b8: int, b9: int)
    ensures Limbs10(Limbs10(Mul(a0, b0), Mul(a0, b1), Mul(a0, b2), Mul(a0, b3), Mul(a0, b4),
                            Mul(a0, b5), Mul(a0, b6), Mul(a0, b7), Mul(a0, b8), Mul(a0, b9)),
                    Limbs10(Mul(a1, b0), Mul(a1, b1), Mul(a1, b2), Mul(a1, b3), Mul(a1, b4),
                            Mul(a1, b5), Mul(a1, b6), Mul(a1, b7), Mul(a1, b8), Mul(a1, b9)),
                    Limbs10(Mul(a2, b0), Mul(a2, b1), Mul(a2, b2), Mul(a2, b3), Mul(a2, b4),
                            Mul(a2, b5), Mul(a2, b6), Mul(a2, b7), Mul(a2, b8), Mul(a2, b9)),
                    Limbs10(Mul(a3, b0), Mul(a3, b1), Mul(a3, b2), Mul(a3, b3), Mul(a3, b4),
                            Mul(a3, b5), Mul(a3, b6), Mul(a3, b7), Mul(a3, b8), Mul(a3, b9)),
                    Limbs10(Mul(a4, b0), Mul(a4, b1), Mul(a4, b2), Mul(a4, b3), Mul(a4, b4),
                            Mul(a4, b5), Mul(a4, b6), Mul(a4, b7), Mul(a4, b8), Mul(a4, b9)),
                    Limbs10(Mul(a5, b0), Mul(a5, b1), Mul(a5, b2), Mul(a5, b3), Mul(a5, b4),
                            Mul(a5, b5), Mul(a5, b6), Mul(a5, b7), Mul(a5, b8), Mul(a5, b9)),
                    Limbs10(Mul(a6, b0), Mul(a6, b1), Mul(a6, b2), Mul(a6, b3), Mul(a6, b4),
                            Mul(a6, b5), Mul(a6, b6), Mul(a6, b7), Mul(a6, b8), Mul(a6, b9)),
                    Limbs10(Mul(a7, b0), Mul(a7, b1), Mul(a7, b2), Mul(a7, b3), Mul(a7, b4),
                            Mul(a7, b5), Mul(a7, b6), Mul(a7, b7), Mul(a7, b8), Mul(a7, b9)),
                    Limbs10(Mul(a8, b0), Mul(a8, b1), Mul(a8, b2), Mul(a8, b3), Mul(a8, b4),
                            Mul(a8, b5), Mul(a8, b6), Mul(a8, b7), Mul(a8, b8), Mul(a8, b9)),
                    Limbs10(Mul(a9, b0), Mul(a9, b1), Mul(a9, b2), Mul(a9, b3), Mul(a9, b4),
                            Mul(a9, b5), Mul(a9, b6), Mul(a9, b7), Mul(a9, b8), Mul(a9, b9)))
         == Limbs10(Mul(a0, b0),
                    Mul(a0, b1) + Mul(a1, b0),
                    Mul(a0, b2) + Mul(a1, b1) + Mul(a2, b0),
                    Mul(a0, b3) + Mul(a1, b2) + Mul(a2, b1) + Mul(a3, b0),
                    Mul(a0, b4) + Mul(a1, b3) + Mul(a2, b2) + Mul(a3, b1) + Mul(a4, b0),
                    Mul(a0, b5) + Mul(a1, b4) + Mul(a2, b3) + Mul(a3, b2) + Mul(a4, b1) + Mul(a5, b0),
                    Mul(a0, b6) + Mul(a1, b5) + Mul(a2, b4) + Mul(a3, b3) + Mul(a4, b2) + Mul(a5, b1) + Mul(a6, b0),
                    Mul(a0, b7) + Mul(a1, b6) + Mul(a2, b5) + Mul(a3, b4) + Mul(a4, b3) + Mul(a5, b2) + Mul(a6, b1) +
                      Mul(a7, b0),
                    Mul(a0, b8) + Mul(a1, b7) + Mul(a2, b6) + Mul(a3, b5) + Mul(a4, b4) + Mul(a5, b3) + Mul(a6, b2) +
                      Mul(a7, b1) + Mul(a8, b0),
                    Mul(a0, b9) + Mul(a1, b8) + Mul(a2, b7) + Mul(a3, b6) + Mul(a4, b5) + Mul(a5, b4) + Mul(a6, b3) +
                      Mul(a7, b2) + Mul(a8, b1) + Mul(a9, b0))
          + R260 * Limbs10(Mul(a1, b9) + Mul(a2, b8) + Mul(a3, b7) + Mul(a4, b6) + Mul(a5, b5) + Mul(a6, b4) +
                             Mul(a7, b3) + Mul(a8, b2) + Mul(a9, b1),
                           Mul(a2, b9) + Mul(a3, b8) + Mul(a4, b7) + Mul(a5, b6) + Mul(a6, b5) + Mul(a7, b4) +
                             Mul(a8, b3) + Mul(a9, b2),
                           Mul(a3, b9) + Mul(a4, b8) + Mul(a5, b7) + Mul(a6, b6) + Mul(a7, b5) + Mul(a8, b4) +
                             Mul(a9, b3),
                           Mul(a4, b9) + Mul(a5, b8) + Mul(a6, b7) + Mul(a7, b6) + Mul(a8, b5) + Mul(a9, b4),
                           Mul(a5, b9) + Mul(a6, b8) + Mul(a7, b7) + Mul(a8, b6) + Mul(a9, b5),
                           Mul(a6, b9) + Mul(a7, b8) + Mul(a8, b7) + Mul(a9, b6),
                           Mul(a7, b9) + Mul(a8, b8) + Mul(a9, b7),
                           Mul(a8, b9) + Mul(a9, b8),
                           Mul(a9, b9),
                           0)
  {
    hide *;
    FiveRows(a0, a1, a2, a3, a4, b0, b1, b2, b3, b4, b5, b6, b7, b8, b9);
    FiveRows(a5, a6, a7, a8, a9, b0, b1, b2, b3, b4, b5, b6, b7, b8, b9);
    SplitLimbs(
      Limbs10(Mul(a0, b0), Mul(a0, b1), Mul(a0, b2), Mul(a0, b3), Mul(a0, b4),
              Mul(a0, b5), Mul(a0, b6), Mul(a0, b7), Mul(a0, b8), Mul(a0, b9)),
      Limbs10(Mul(a1, b0), Mul(a1, b1), Mul(a1, b2), Mul(a1, b3), Mul(a1, b4),
              Mul(a1, b5), Mul(a1, b6), Mul(a1, b7), Mul(a1, b8), Mul(a1, b9)),
      Limbs10(Mul(a2, b0), Mul(a2, b1), Mul(a2, b2), Mul(a2, b3), Mul(a2, b4),
              Mul(a2, b5), Mul(a2, b6), Mul(a2, b7), Mul(a2, b8), Mul(a2, b9)),
      Limbs10(Mul(a3, b0), Mul(a3, b1), Mul(a3, b2), Mul(a3, b3), Mul(a3, b4),
              Mul(a3, b5), Mul(a3, b6), Mul(a3, b7), Mul(a3, b8), Mul(a3, b9)),
      Limbs10(Mul(a4, b0), Mul(a4, b1), Mul(a4, b2), Mul(a4, b3), Mul(a4, b4),
              Mul(a4, b5), Mul(a4, b6), Mul(a4, b7), Mul(a4, b8), Mul(a4, b9)),
      Limbs10(Mul(a5, b0), Mul(a5, b1), Mul(a5, b2), Mul(a5, b3), Mul(a5, b4),
              Mul(a5, b5), Mul(a5, b6), Mul(a5, b7), Mul(a5, b8), Mul(a5, b9)),
      Limbs10(Mul(a6, b0), Mul(a6, b1), Mul(a6, b2), Mul(a6, b3), Mul(a6, b4),
              Mul(a6, b5), Mul(a6, b6), Mul(a6, b7), Mul(a6, b8), Mul(a6, b9)),
      Limbs10(Mul(a7, b0), Mul(a7, b1), Mul(a7, b2), Mul(a7, b3), Mul(a7, b4),
              Mul(a7, b5), Mul(a7, b6), Mul(a7, b7), Mul(a7, b8), Mul(a7, b9)),
      Limbs10(Mul(a8, b0), Mul(a8, b1), Mul(a8, b2), Mul(a8, b3), Mul(a8, b4),
              Mul(a8, b5), Mul(a8, b6), Mul(a8, b7), Mul(a8, b8), Mul(a8, b9)),
      Limbs10(Mul(a9, b0), Mul(a9, b1), Mul(a9, b2), Mul(a9, b3), Mul(a9, b4),
              Mul(a9, b5), Mul(a9, b6), Mul(a9, b7), Mul(a9, b8), Mul(a9, b9)));
    ShiftFive(
      Mul(a5, b0), Mul(a5, b1) + Mul(a6, b0), Mul(a5, b2) + Mul(a6, b1) + Mul(a7, b0),
      Mul(a5, b3) + Mul(a6, b2) + Mul(a7, b1) + Mul(a8, b0),
      Mul(a5, b4) + Mul(a6, b3) + Mul(a7, b2) + Mul(a8, b1) + Mul(a9, b0),
      Mul(a5, b5) + Mul(a6, b4) + Mul(a7, b3) + Mul(a8, b2) + Mul(a9, b1),
      Mul(a5, b6) + Mul(a6, b5) + Mul(a7, b4) + Mul(a8, b3) + Mul(a9, b2),
      Mul(a5, b7) + Mul(a6, b6) + Mul(a7, b5) + Mul(a8, b4) + Mul(a9, b3),
      Mul(a5, b8) + Mul(a6, b7) + Mul(a7, b6) + Mul(a8, b5) + Mul(a9, b4),
      Mul(a5, b9) + Mul(a6, b8) + Mul(a7, b7) + Mul(a8, b6) + Mul(a9, b5),
      Mul(a6, b9) + Mul(a7, b8) + Mul(a8, b7) + Mul(a9, b6), Mul(a7, b9) + Mul(a8, b8) + Mul(a9, b7),
      Mul(a8, b9) + Mul(a9, b8), Mul(a9, b9));
    AddUpper(
      Mul(a0, b0), Mul(a0, b1) + Mul(a1, b0), Mul(a0, b2) + Mul(a1, b1) + Mul(a2, b0),
      Mul(a0, b3) + Mul(a1, b2) + Mul(a2, b1) + Mul(a3, b0),
      Mul(a0, b4) + Mul(a1, b3) + Mul(a2, b2) + Mul(a3, b1) + Mul(a4, b0),
      Mul(a0, b5) + Mul(a1, b4) + Mul(a2, b3) + Mul(a3, b2) + Mul(a4, b1),
      Mul(a0, b6) + Mul(a1, b5) + Mul(a2, b4) + Mul(a3, b3) + Mul(a4, b2),
      Mul(a0, b7) + Mul(a1, b6) + Mul(a2, b5) + Mul(a3, b4) + Mul(a4, b3),
      Mul(a0, b8) + Mul(a1, b7) + Mul(a2, b6) + Mul(a3, b5) + Mul(a4, b4),
      Mul(a0, b9) + Mul(a1, b8) + Mul(a2, b7) + Mul(a3, b6) + Mul(a4, b5), Mul(a5, b0), Mul(a5, b1) + Mul(a6, b0),
      Mul(a5, b2) + Mul(a6, b1) + Mul(a7, b0), Mul(a5, b3) + Mul(a6, b2) + Mul(a7, b1) + Mul(a8, b0),
      Mul(a5, b4) + Mul(a6, b3) + Mul(a7, b2) + Mul(a8, b1) + Mul(a9, b0));
    AddLower(
      Mul(a1, b9) + Mul(a2, b8) + Mul(a3, b7) + Mul(a4, b6), Mul(a2, b9) + Mul(a3, b8) + Mul(a4, b7),
      Mul(a3, b9) + Mul(a4, b8), Mul(a4, b9), Mul(a5, b5) + Mul(a6, b4) + Mul(a7, b3) + Mul(a8, b2) + Mul(a9, b1),
      Mul(a5, b6) + Mul(a6, b5) + Mul(a7, b4) + Mul(a8, b3) + Mul(a9, b2),
      Mul(a5, b7) + Mul(a6, b6) + Mul(a7, b5) + Mul(a8, b4) + Mul(a9, b3),
      Mul(a5, b8) + Mul(a6, b7) + Mul(a7, b6) + Mul(a8, b5) + Mul(a9, b4),
      Mul(a5, b9) + Mul(a6, b8) + Mul(a7, b7) + Mul(a8, b6) + Mul(a9, b5),
      Mul(a6, b9) + Mul(a7, b8) + Mul(a8, b7) + Mul(a9, b6), Mul(a7, b9) + Mul(a8, b8) + Mul(a9, b7),
      Mul(a8, b9) + Mul(a9, b8), Mul(a9, b9));
  }

  lemma RowsAreColumns(a: seq<int>, b: seq<int>)
    requires |a| == |b| == 10
    ensures Limbs10(Row(a[0], b), Row(a[1], b), Row(a[2], b), Row(a[3], b), Row(a[4], b),
                    Row(a[5], b), Row(a[6], b), Row(a[7], b), Row(a[8], b), Row(a[9], b))
         == LowColumns(a, b) + R260 * HighColumns(a, b)
  {
    hide Mul, Limbs10;
    Transpose(a[0], a[1], a[2], a[3], a[4], a[5], a[6], a[7], a[8], a[9],
              b[0], b[1], b[2], b[3], b[4], b[5], b[6], b[7], b[8], b[9]);
  }

  /** Summing the columns is multiplying the values. */
  lemma ColumnsMultiply(a: seq<int>, b: seq<int>)
    requires |a| == |b| == 10
    ensures LowColumns(a, b) + R260 * HighColumns(a, b) == Fe(a) * Fe(b)
  {
    hide Fe, LowColumns, HighColumns, Limbs10, Row;
    Distribute(Fe(b), a);
    RowProduct(a[0], b);
    RowProduct(a[1], b);
    RowProduct(a[2], b);
    RowProduct(a[3], b);
    RowProduct(a[4], b);
    RowProduct(a[5], b);
    RowProduct(a[6], b);
    RowProduct(a[7], b);
    RowProduct(a[8], b);
    RowProduct(a[9], b);
    RowsAreColumns(a, b);
  }

  /** The nineteen column sums, none of which wraps. */
  method Columns(a: seq<Word>, b: seq<Word>) returns (p: seq<Wide>)
    requires Operand(a) && Operand(b)
    ensures |p| == 19 && forall k :: 0 <= k < 19 ==> p[k] == Column(a, b, k) <= COLUMN
    ensures p[18] <= 0xF_FFFF_F800_0001
  {
    hide Mul, Product;
    MulBound(a[9], 0x3FF_FFFF, b[9], 0x3FF_FFFF);
    var p0: Wide := Product(a[0], b[0]);
    var p1: Wide := Product(a[0], b[1]) + Product(a[1], b[0]);
    var p2: Wide := Product(a[0], b[2]) + Product(a[1], b[1]) + Product(a[2], b[0]);
    var p3: Wide := Product(a[0], b[3]) + Product(a[1], b[2]) + Product(a[2], b[1]) + Product(a[3], b[0]);
    var p4: Wide := Product(a[0], b[4]) + Product(a[1], b[3]) + Product(a[2], b[2]) + Product(a[3], b[1]) +
        Product(a[4], b[0]);
    var p5: Wide := Product(a[0], b[5]) + Product(a[1], b[4]) + Product(a[2], b[3]) + Product(a[3], b[2]) +
        Product(a[4], b[1]) + Product(a[5], b[0]);
    var p6: Wide := Product(a[0], b[6]) + Product(a[1], b[5]) + Product(a[2], b[4]) + Product(a[3], b[3]) +
        Product(a[4], b[2]) + Product(a[5], b[1]) + Product(a[6], b[0]);
    var p7: Wide := Product(a[0], b[7]) + Product(a[1], b[6]) + Product(a[2], b[5]) + Product(a[3], b[4]) +
        Product(a[4], b[3]) + Product(a[5], b[2]) + Product(a[6], b[1]) + Product(a[7], b[0]);
    var p8: Wide := Product(a[0], b[8]) + Product(a[1], b[7]) + Product(a[2], b[6]) + Product(a[3], b[5]) +
        Product(a[4], b[4]) + Product(a[5], b[3]) + Product(a[6], b[2]) + Product(a[7], b[1]) + Product(a[8], b[0]);
    var p9: Wide := Product(a[0], b[9]) + Product(a[1], b[8]) + Product(a[2], b[7]) + Product(a[3], b[6]) +
        Product(a[4], b[5]) + Product(a[5], b[4]) + Product(a[6], b[3]) + Product(a[7], b[2]) + Product(a[8], b[1]) +
        Product(a[9], b[0]);
    var p10: Wide := Product(a[1], b[9]) + Product(a[2], b[8]) + Product(a[3], b[7]) + Product(a[4], b[6]) +
        Product(a[5], b[5]) + Product(a[6], b[4]) + Product(a[7], b[3]) + Product(a[8], b[2]) + Product(a[9], b[1]);
    var p11: Wide := Product(a[2], b[9]) + Product(a[3], b[8]) + Product(a[4], b[7]) + Product(a[5], b[6]) +
        Product(a[6], b[5]) + Product(a[7], b[4]) + Product(a[8], b[3]) + Product(a[9], b[2]);
    var p12: Wide := Product(a[3], b[9]) + Product(a[4], b[8]) + Product(a[5], b[7]) + Product(a[6], b[6]) +
        Product(a[7], b[5]) + Product(a[8], b[4]) + Product(a[9], b[3]);
    var p13: Wide := Product(a[4], b[9]) + Product(a[5], b[8]) + Product(a[6], b[7]) + Product(a[7], b[6]) +
        Product(a[8], b[5]) + Product(a[9], b[4]);
    var p14: Wide := Product(a[5], b[9]) + Product(a[6], b[8]) + Product(a[7], b[7]) + Product(a[8], b[6]) +
        Product(a[9], b[5]);
    var p15: Wide := Product(a[6], b[9]) + Product(a[7], b[8]) + Product(a[8], b[7]) + Product(a[9], b[6]);
    var p16: Wide := Product(a[7], b[9]) + Product(a[8], b[8]) + Product(a[9], b[7]);
    var p17: Wide := Product(a[8], b[9]) + Product(a[9], b[8]);
    var p18: Wide := Product(a[9], b[9]);
    p := [p0, p1, p2, p3, p4, p5, p6, p7, p8, p9, p10, p11, p12, p13, p14, p15, p16, p17, p18];
  }

  /** The column sums of a square: every mixed product once, with its left factor doubled. */
  method SquareColumns(a: seq<Word>) returns (p: seq<Wide>)
    requires Operand(a)
    ensures |p| == 19 && forall k :: 0 <= k < 19 ==> p[k] == Column(a, a, k) <= COLUMN
    ensures p[18] <= 0xF_FFFF_F800_0001
  {
    Symmetric(a);
    hide Mul, Product;
    MulBound(a[9], 0x3FF_FFFF, a[9], 0x3FF_FFFF);
    var p0: Wide := Product(a[0], a[0]);
    var p1: Wide := DoubledProduct(a[0], a[1]);
    var p2: Wide := DoubledProduct(a[0], a[2]) + Product(a[1], a[1]);
    var p3: Wide := DoubledProduct(a[0], a[3]) + DoubledProduct(a[1], a[2]);
    var p4: Wide := DoubledProduct(a[0], a[4]) + DoubledProduct(a[1], a[3]) + Product(a[2], a[2]);
    var p5: Wide := DoubledProduct(a[0], a[5]) + DoubledProduct(a[1], a[4]) + DoubledProduct(a[2], a[3]);
    var p6: Wide := DoubledProduct(a[0], a[6]) + DoubledProduct(a[1], a[5]) + DoubledProduct(a[2], a[4]) +
        Product(a[3], a[3]);
    var p7: Wide := DoubledProduct(a[0], a[7]) + DoubledProduct(a[1], a[6]) + DoubledProduct(a[2], a[5]) +
        DoubledProduct(a[3], a[4]);
    var p8: Wide := DoubledProduct(a[0], a[8]) + DoubledProduct(a[1], a[7]) + DoubledProduct(a[2], a[6]) +
        DoubledProduct(a[3], a[5]) + Product(a[4], a[4]);
    var p9: Wide := DoubledProduct(a[0], a[9]) + DoubledProduct(a[1], a[8]) + DoubledProduct(a[2], a[7]) +
        DoubledProduct(a[3], a[6]) + DoubledProduct(a[4], a[5]);
    var p10: Wide := DoubledProduct(a[1], a[9]) + DoubledProduct(a[2], a[8]) + DoubledProduct(a[3], a[7]) +
        DoubledProduct(a[4], a[6]) + Product(a[5], a[5]);
    var p11: Wide := DoubledProduct(a[2], a[9]) + DoubledProduct(a[3], a[8]) + DoubledProduct(a[4], a[7]) +
        DoubledProduct(a[5], a[6]);
    var p12: Wide := DoubledProduct(a[3], a[9]) + DoubledProduct(a[4], a[8]) + DoubledProduct(a[5], a[7]) +
        Product(a[6], a[6]);
    var p13: Wide := DoubledProduct(a[4], a[9]) + DoubledProduct(a[5], a[8]) + DoubledProduct(a[6], a[7]);
    var p14: Wide := DoubledProduct(a[5], a[9]) + DoubledProduct(a[6], a[8]) + Product(a[7], a[7]);
    var p15: Wide := DoubledProduct(a[6], a[9]) + DoubledProduct(a[7], a[8]);
    var p16: Wide := DoubledProduct(a[7], a[9]) + Product(a[8], a[8]);
    var p17: Wide := DoubledProduct(a[8], a[9]);
    var p18: Wide := Product(a[9], a[9]);
    p := [p0, p1, p2, p3, p4, p5, p6, p7, p8, p9, p10, p11, p12, p13, p14, p15, p16, p17, p18];
  }

  function DoubledProduct(x: Word, y: Word): (p: Wide)
    requires x <= 0x3FFF_FFFF && y <= 0x3FFF_FFFF
    ensures p == 2 * Mul(x, y) && Mul(x, y) <= 0xFFF_FFFF_8000_0001
  {
    MulBound(x, 0x3FFF_FFFF, y, 0x3FFF_FFFF);
    var twice: Word := x * 2;
    twice * y
  }

  lemma Symmetric(a: seq<int>)
    requires |a| == 10
    ensures forall i, j :: 0 <= i < j < 10 ==> Mul(a[j], a[i]) == Mul(a[i], a[j])
  {
  }

  /** One column pair: the low 26 bits of `d`, times 2^260 modulo P, join `c`, whose low 26 bits become a limb. */
  method Step(c0: Wide, d0: Wide, pc: Wide, pd: Wide) returns (t: Word, c: Wide, d: Wide, ghost u: Wide)
    requires c0 < 0x100_0000_0000 && d0 < 0x100_0000_0000
    requires pc <= COLUMN && pd <= COLUMN
    ensures t < 0x400_0000 && c < 0x100_0000_0000 && d < 0x100_0000_0000
    ensures u + 0x400_0000 * d == d0 + pd
    ensures t + 0x400_0000 * c == c0 + pc + u * 0x10_0000_3D10
  {
    c := c0 + pc;
    d := d0 + pd;
    var low: Wide := d % 0x400_0000;
    d := d / 0x400_0000;
    c := c + low * 0x3D10;
    t := c % 0x400_0000;
    c := c / 0x400_0000;
    c := c + low * 0x400;
    u := low;
  }

  /** The last folds: of `d` into the tenth limb, and of everything from bit 256 up into the lowest limbs. */
  method Finish(c0: Wide, d0: Wide, t0: Word, t1: Word, t2: Word, t9: Word)
    returns (r0: Word, r1: Word, r2: Word, r9: Word, ghost k: Wide)
    requires c0 < 0x100_0000_0000 && d0 < 0x1000_0000
    requires t0 < 0x400_0000 && t1 < 0x400_0000 && t2 < 0x400_0000 && t9 < 0x400_0000
    ensures r0 < 0x400_0000 && r1 < 0x400_0000 && r2 <= 0x7FF_FFFE && r9 < 0x40_0000
    ensures Limbs10(r0, r1, r2, 0, 0, 0, 0, 0, 0, r9) + k * P
         == Limbs10(t0, t1, t2, 0, 0, 0, 0, 0, 0, c0 + t9 + d0 * 0x10_0000_3D10)
  {
    var c: Wide := c0 + (d0 * 0x3D10 + t9);
    r9 := c % 0x40_0000;
    c := c / 0x40_0000;
    c := c + d0 * 0x4000;
    var d: Wide := c * 0x3D1 + t0;
    r0 := d % 0x400_0000;
    d := d / 0x400_0000;
    d := d + (c * 0x40 + t1);
    r1 := d % 0x400_0000;
    d := d / 0x400_0000;
    d := d + t2;
    r2 := d;
    k := c;
  }

  /** A product with the limb bounds the next multiplication relies on. */
  predicate Reduced(r: seq<Word>) {
    && |r| == 10 && r[2] <= 0x7FF_FFFE && r[9] < 0x40_0000
    && r[0] < 0x400_0000 && r[1] < 0x400_0000 && r[3] < 0x400_0000 && r[4] < 0x400_0000
    && r[5] < 0x400_0000 && r[6] < 0x400_0000 && r[7] < 0x400_0000 && r[8] < 0x400_0000
  }

  ghost function ColumnSum(p: seq<int>): int
    requires |p| == 19
  {
    Limbs10(p[0], p[1], p[2], p[3], p[4], p[5], p[6], p[7], p[8], p[9])
    + R260 * Limbs10(p[10], p[11], p[12], p[13], p[14], p[15], p[16], p[17], p[18], 0)
  }

  method ReduceColumns(p: seq<Wide>) returns (r: seq<Word>, ghost k: int)
    requires |p| == 19 && forall k :: 0 <= k < 19 ==> p[k] <= COLUMN
    requires p[18] <= 0xF_FFFF_F800_0001
    ensures Reduced(r)
    ensures Fe(r) + k * P == ColumnSum(p)
  {
    var c: Wide, d: Wide := 0, p[9];
    var t9: Word := d % 0x400_0000;
    d := d / 0x400_0000;
    var t0, t1, t2, t3, t4, t5, t6, t7, t8;
    ghost var u0, u1, u2, u3, u4, u5, u6, u7, u8;
    t0, c, d, u0 := Step(c, d, p[0], p[10]);
    t1, c, d, u1 := Step(c, d, p[1], p[11]);
    t2, c, d, u2 := Step(c, d, p[2], p[12]);
    t3, c, d, u3 := Step(c, d, p[3], p[13]);
    t4, c, d, u4 := Step(c, d, p[4], p[14]);
    t5, c, d, u5 := Step(c, d, p[5], p[15]);
    t6, c, d, u6 := Step(c, d, p[6], p[16]);
    t7, c, d, u7 := Step(c, d, p[7], p[17]);
    t8, c, d, u8 := Step(c, d, p[8], p[18]);
    var r0, r1, r2, r9;
    ghost var k0;
    r0, r1, r2, r9, k0 := Finish(c, d, t0, t1, t2, t9);
    r := [r0, r1, r2, t3, t4, t5, t6, t7, t8, r9];
    k := k0 + 16 * Limbs10(u0, u1, u2, u3, u4, u5, u6, u7, u8, d);
  }

  lemma IsCongruent(x: int, k: int, v: int)
    requires v + k * P == x
    ensures v % P == x % P
  {
  }

  /** The product modulo P; `r` may be the operand `a`. */
  method MulInner(r: array<Word>, a: array<Word>, b: array<Word>)
    requires r.Length == 10 && Operand(a[..]) && Operand(b[..])
    modifies r
    ensures Reduced(r[..])
    ensures Fe(r[..]) % P == (old(Fe(a[..])) * old(Fe(b[..]))) % P
  {
    hide Fe, Column, Reduced;
    ColumnsMultiply(a[..], b[..]);
    var p := Columns(a[..], b[..]);
    ghost var product := Fe(a[..]) * Fe(b[..]);
    var z, k := ReduceColumns(p);
    IsCongruent(product, k, Fe(z));
    Store(r, z);
  }

  method SqrInner(r: array<Word>, a: array<Word>)
    requires r.Length == 10 && Operand(a[..])
    modifies r
    ensures Reduced(r[..])
    ensures Fe(r[..]) % P == (old(Fe(a[..])) * old(Fe(a[..]))) % P
  {
    hide Fe, Column, Reduced;
    ColumnsMultiply(a[..], a[..]);
    var p := SquareColumns(a[..]);
    ghost var product := Fe(a[..]) * Fe(a[..]);
    var z, k := ReduceColumns(p);
    IsCongruent(product, k, Fe(z));
    Store(r, z);
  }
}
