/** 32-bit words and the four bytes that hold one in memory, least significant first. */
module Bytes {
  import opened Machine

  type Byte = x: int | 0 <= x < 256
  type Word = w: nat | w < BASE witness 0

  function ByteOf(w: Word, k: nat): (b: Byte)
  {
    if k == 0 then w % 0x100
    else if k == 1 then w / 0x100 % 0x100
    else if k == 2 then w / 0x1_0000 % 0x100
    else w / 0x100_0000
  }

  function WordOf(b0: Byte, b1: Byte, b2: Byte, b3: Byte): (w: Word)
  {
    b0 as int + 0x100 * (b1 as int) + 0x1_0000 * (b2 as int) + 0x100_0000 * (b3 as int)
  }

  lemma WordOfItsBytes(w: Word)
    ensures WordOf(ByteOf(w, 0), ByteOf(w, 1), ByteOf(w, 2), ByteOf(w, 3)) == w
    ensures w == ByteOf(w, 0) + 0x100 * ByteOf(w, 1) + 0x1_0000 * ByteOf(w, 2) + 0x100_0000 * ByteOf(w, 3)
  {
    var h := w / 0x1_0000;
    assert w == 0x1_0000 * h + w % 0x1_0000 && w / 0x100_0000 == h / 0x100;
    assert w / 0x100 % 0x100 == w % 0x1_0000 / 0x100;
  }

  // ---------------------------------------------------------------- C strings

  predicate NoNull(s: seq<Byte>) { forall i :: 0 <= i < |s| ==> s[i] != 0 }

  /** The string that starts here: what comes before the first null byte. */
  function UpToNull(s: seq<Byte>): (r: seq<Byte>) { if s == [] || s[0] == 0 then [] else [s[0]] + UpToNull(s[1..]) }

  lemma {:induction false} StringReadsBack(x: seq<Byte>, t: seq<Byte>)
    requires NoNull(x)
    ensures UpToNull(x + [0] + t) == x
    decreases |x|
  {
    if x != [] {
      StringReadsBack(x[1..], t);
      assert (x + [0] + t)[1..] == x[1..] + [0] + t;
    }
  }

  // ---------------------------------------------------------------- copying

  /** f with the elements from a on replaced by d. */
  function Patch<T>(f: seq<T>, a: nat, d: seq<T>): (g: seq<T>)
    requires d == [] || a + |d| <= |f|
    ensures |g| == |f|
  {
    if d == [] then f else f[..a] + d + f[a + |d|..]
  }

  method Memcpy(dst: array<Byte>, at: nat, src: array<Byte>, from: nat, n: nat)
    requires at + n <= dst.Length && from + n <= src.Length
    modifies dst
    ensures dst[..] == Patch(old(dst[..]), at, old(src[from..from + n]))
  {
    forall k | 0 <= k < n {
      dst[at + k] := src[from + k];
    }
  }
}
