/** Octets, and copying them into place. */
module Memory {

  type Byte = x: int | 0 <= x < 256

  /** `t` is `s` with `src` written at `at`. */
  ghost predicate Written(t: seq<Byte>, s: seq<Byte>, at: nat, src: seq<Byte>) {
    at + |src| <= |s| && t == s[..at] + src + s[at + |src|..]
  }

  method Copy(dst: array<Byte>, at: nat, src: seq<Byte>)
    requires at + |src| <= dst.Length
    modifies dst
    ensures Written(dst[..], old(dst[..]), at, src)
  {
    forall i | 0 <= i < |src| {
      dst[at + i] := src[i];
    }
  }
}
