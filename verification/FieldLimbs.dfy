/** Field elements modulo P as ten limbs of weight 2^26. */
module FieldLimbs {
  import opened Words

  const P: int := 0xFFFFFFFF_FFFFFFFF_FFFFFFFF_FFFFFFFF_FFFFFFFF_FFFFFFFF_FFFFFFFE_FFFFFC2F

  /** The number that ten limbs denote, whatever their size. */
  ghost function Fe(n: seq<int>): int
    requires |n| == 10
  {
    Limbs10(n[0], n[1], n[2], n[3], n[4], n[5], n[6], n[7], n[8], n[9])
  }

  ghost function Limbs10(n0: int, n1: int, n2: int, n3: int, n4: int, n5: int, n6: int, n7: int, n8: int,
        n9: int): int {
    n0 + 0x400_0000 * (n1 + 0x400_0000 * (n2 + 0x400_0000 * (n3 + 0x400_0000 * (n4 + 0x400_0000 *
    (n5 + 0x400_0000 * (n6 + 0x400_0000 * (n7 + 0x400_0000 * (n8 + 0x400_0000 * n9))))))))
  }

  /** Overwrites the ten limbs of `r`. */
  method Store(r: array<Word>, z: seq<Word>)
    requires r.Length == |z| == 10
    modifies r
    ensures r[..] == z
  {
    r[0], r[1], r[2], r[3], r[4] := z[0], z[1], z[2], z[3], z[4];
    r[5], r[6], r[7], r[8], r[9] := z[5], z[6], z[7], z[8], z[9];
  }
}
