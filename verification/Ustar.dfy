/** lib/ustar.c, with the octal conversion of lib/stdio.c: making and reading the header of a file in a tar archive
    (SUSv3, pax utility, "ustar Interchange Format").  Characters are bytes; a string is written without its
    terminating null. */
module Ustar {
  import opened Bytes
  import opened Options

  const HEADER_SIZE := 512
  const ULONG_MAX: nat := 0xffff_ffff
  const INT_MAX: nat := 0x7fff_ffff

  type Name = seq<Byte>

  const SLASH: Byte := 47
  const DOT: Byte := 46
  const ZERO: Byte := 48
  const SPACE: Byte := 32

  // ---------------------------------------------------------------- names

  predicate Antisocial(s: Name): (r: bool)
    ensures r ==> SLASH in s
  {
    || (|s| >= 1 && s[0] == SLASH)
    || (|s| >= 2 && s[0] == DOT && s[1] == SLASH)
    || (|s| >= 3 && s[0] == DOT && s[1] == DOT && s[2] == SLASH)
  }

  /** What follows the first slash: strchr (s, '/') + 1. */
  function AfterSlash(s: Name): (r: Name)
    requires SLASH in s
    ensures |r| < |s|
  {
    if s[0] == SLASH then s[1..] else AfterSlash(s[1..])
  }

  function Stripped(s: Name): (r: Name)
    decreases |s|
  {
    if Antisocial(s) then Stripped(AfterSlash(s))
    else if s == [] || s == [DOT, DOT] then [DOT] else s
  }

  method StripAntisocialPrefixes(name: Name) returns (r: Name)
    ensures r == Stripped(name)
  {
    r := name;
    while Antisocial(r)
      invariant Stripped(r) == Stripped(name)
      decreases |r|
    {
      r := AfterSlash(r);
    }
    if r == [] || r == [DOT, DOT] { r := [DOT]; }
  }

  /** The name starts with "/", "./" or "../". */
  predicate Dangerous(s: Name) { [SLASH] <= s || [DOT, SLASH] <= s || [DOT, DOT, SLASH] <= s }

  lemma DangerousIsAntisocial(s: Name)
    ensures Dangerous(s) <==> Antisocial(s)
  {
  }

  /** A stripped name leads nowhere above the directory it is unpacked in at its start, and is the name's own tail. */
  lemma StrippedIsSafe(s: Name)
    ensures !Dangerous(Stripped(s)) && Stripped(s) != [] && Stripped(s) != [DOT, DOT]
    ensures Stripped(s) == [DOT] || exists k :: 0 <= k <= |s| && Stripped(s) == s[k..]
    ensures NoNull(s) ==> NoNull(Stripped(s))
  {
    StrippedIsSocial(s);
    DangerousIsAntisocial(Stripped(s));
    var k := StrippedIsTail(s);
    hide Stripped;
    assert Stripped(s) != [DOT] ==> Stripped(s) == s[k..];
  }

  /** Nothing more is taken off than has to be: what is left, unless it is nothing or "..", is the longest tail of the
      name that is not dangerous. */
  lemma {:induction false} StrippedIsLongest(s: Name) returns (k: nat)
    ensures k <= |s| && !Dangerous(s[k..]) && forall j :: 0 <= j < k ==> Dangerous(s[j..])
    ensures Stripped(s) == if s[k..] == [] || s[k..] == [DOT, DOT] then [DOT] else s[k..]
    decreases |s|
  {
    DangerousIsAntisocial(s);
    assert s[0..] == s;
    if Antisocial(s) {
      var n, t := DropsOnePrefix(s);
      var m := StrippedIsLongest(t);
      k := n + m;
      assert t[m..] == s[k..];
      forall j | 0 <= j < k ensures Dangerous(s[j..]) {
        if j >= n { assert t[j - n..] == s[j..]; }
      }
    } else {
      k := 0;
    }
  }

  lemma DropsOnePrefix(s: Name) returns (n: nat, t: Name)
    requires Antisocial(s)
    ensures 0 < n <= |s| && t == AfterSlash(s) == s[n..] && forall j :: 0 <= j < n ==> Dangerous(s[j..])
  {
    t := AfterSlash(s);
    n := if s[0] == SLASH then 1 else if s[1] == SLASH then 2 else 3;
    assert s[0..] == s;
    if n > 1 {
      assert s[1..][0] == s[1] && s[1..][1..] == s[2..];
      assert AfterSlash(s) == AfterSlash(s[1..]);
    }
    if n > 2 {
      assert s[2..][0] == SLASH && s[2..][1..] == s[3..];
      assert AfterSlash(s[1..]) == AfterSlash(s[2..]);
    }
    DangerousIsAntisocial(s);
  }

  lemma {:induction false} StrippedIsSocial(s: Name)
    ensures !Antisocial(Stripped(s)) && Stripped(s) != [] && Stripped(s) != [DOT, DOT]
    decreases |s|
  {
    hide AfterSlash;
    if Antisocial(s) { StrippedIsSocial(AfterSlash(s)); }
  }

  lemma {:induction false} StrippedIsTail(s: Name) returns (k: nat)
    ensures k <= |s| && (Stripped(s) == [DOT] || Stripped(s) == s[k..])
    decreases |s|
  {
    if Antisocial(s) {
      var t := AfterSlash(s);
      assert Stripped(s) == Stripped(t);
      AfterSlashIsTail(s);
      hide Stripped, Antisocial, AfterSlash;
      k := StrippedIsTail(t);
      TailOfTail(s, t, k);
      k := |s| - |t| + k;
    } else {
      k := 0;
      assert s[0..] == s;
    }
  }

  lemma TailOfTail(s: Name, t: Name, k: nat)
    requires |t| <= |s| && t == s[|s| - |t|..] && k <= |t|
    ensures t[k..] == s[|s| - |t| + k..]
  {
  }

  lemma {:induction false} AfterSlashIsTail(s: Name)
    requires SLASH in s
    ensures AfterSlash(s) == s[|s| - |AfterSlash(s)|..]
    decreases |s|
  {
    if s[0] != SLASH { AfterSlashIsTail(s[1..]); }
  }

  lemma StrippedTwice(s: Name)
    ensures Stripped(Stripped(s)) == Stripped(s)
  {
    StrippedIsSafe(s);
    DangerousIsAntisocial(Stripped(s));
  }

  // ---------------------------------------------------------------- octal fields

  predicate Digit(c: Byte) { ZERO <= c <= ZERO + 7 }

  function DigitValue(c: Byte): (v: nat) requires Digit(c) { c - ZERO }

  function Pow8(n: nat): (p: nat)
    ensures p >= 1
  {
    if n == 0 then 1 else 8 * Pow8(n - 1)
  }

  /** v in n octal digits, most significant first. */
  function Octal(v: nat, n: nat): (s: Name)
    ensures |s| == n && forall i :: 0 <= i < n ==> Digit(s[i])
  {
    if n == 0 then [] else Octal(v / 8, n - 1) + [ZERO + v % 8]
  }

  function Value(s: Name): (v: nat)
    requires forall i :: 0 <= i < |s| ==> Digit(s[i])
  {
    if s == [] then 0 else 8 * Value(s[..|s| - 1]) + DigitValue(s[|s| - 1])
  }

  lemma {:induction false} OctalValue(v: nat, n: nat)
    requires v < Pow8(n)
    ensures Value(Octal(v, n)) == v
    decreases n
  {
    if n > 0 {
      OctalValue(v / 8, n - 1);
      assert Octal(v, n)[..n - 1] == Octal(v / 8, n - 1);
    }
  }

  function ParseFrom(s: Name, ofs: nat, value: nat): (r: Option<nat>)
    requires ofs <= |s|
    decreases |s| - ofs
  {
    if ofs == |s| then None
    else if Digit(s[ofs]) then
      if value > ULONG_MAX / 8 then None else ParseFrom(s, ofs + 1, DigitValue(s[ofs]) + value * 8)
    else if s[ofs] == SPACE || s[ofs] == 0 then if ofs > 0 then Some(value) else None
    else None
  }

  /** The field starts with k octal digits and then a space or null, and they stand for v. */
  predicate FieldOf(s: Name, k: nat, v: nat)
  {
    && 0 < k < |s| && (forall i :: 0 <= i < k ==> Digit(s[i])) && (s[k] == SPACE || s[k] == 0)
    && v == Value(s[..k]) <= ULONG_MAX
  }

  /** Exactly such fields are accepted, with that value. */
  lemma ParsedExactly(s: Name, v: nat)
    ensures ParseFrom(s, 0, 0) == Some(v) <==> exists k :: FieldOf(s, k, v)
  {
    ParsedFrom(s, 0, v);
  }

  lemma {:induction false} ParsedFrom(s: Name, ofs: nat, v: nat)
    requires ofs <= |s| && (forall i :: 0 <= i < ofs ==> Digit(s[i])) && Value(s[..ofs]) <= ULONG_MAX
    ensures ParseFrom(s, ofs, Value(s[..ofs])) == Some(v) <==> exists k :: ofs <= k && FieldOf(s, k, v)
    decreases |s| - ofs
  {
    if ofs < |s| && Digit(s[ofs]) {
      assert s[..ofs + 1][..ofs] == s[..ofs];
      if Value(s[..ofs + 1]) <= ULONG_MAX {
        ParsedFrom(s, ofs + 1, v);
      } else {
        forall k | ofs <= k ensures !FieldOf(s, k, v) { LongerIsMore(s, ofs + 1, k); }
      }
    } else if ofs < |s| && ofs > 0 && (s[ofs] == SPACE || s[ofs] == 0) {
      assert Value(s[..ofs]) == v ==> FieldOf(s, ofs, v);
    }
  }

  lemma LongerIsMore(s: Name, n: nat, k: nat)
    requires n <= |s| && (forall i :: 0 <= i < n ==> Digit(s[i]))
    ensures n <= k < |s| && (forall i :: 0 <= i < k ==> Digit(s[i])) ==> Value(s[..n]) <= Value(s[..k])
  {
    if n <= k < |s| && (forall i :: 0 <= i < k ==> Digit(s[i])) {
      PrefixIsLess(s[..k], n);
      assert s[..k][..n] == s[..n];
    }
  }

  method ParseOctalField(s: Name) returns (r: Option<nat>)
    ensures r == ParseFrom(s, 0, 0)
    ensures forall v: nat :: r == Some(v) <==> exists k :: FieldOf(s, k, v)
  {
    forall v: nat ensures ParseFrom(s, 0, 0) == Some(v) <==> exists k :: FieldOf(s, k, v) { ParsedExactly(s, v); }
    hide FieldOf;
    var value: nat := 0;
    var ofs := 0;
    while ofs < |s|
      invariant ofs <= |s| && ParseFrom(s, 0, 0) == ParseFrom(s, ofs, value)
    {
      var c := s[ofs];
      if ZERO <= c <= ZERO + 7 {
        if value > ULONG_MAX / 8 { return None; }
        value := c - ZERO + value * 8;
      } else if c == SPACE || c == 0 {
        return if ofs > 0 then Some(value) else None;
      } else {
        return None;
      }
      ofs := ofs + 1;
    }
    return None;
  }

  /** What is printed in a field reads back as the same number. */
  lemma OctalReadsBack(v: nat, n: nat)
    requires 0 < n && v < Pow8(n) && v <= ULONG_MAX
    ensures ParseFrom(Octal(v, n) + [0], 0, 0) == Some(v)
  {
    OctalValue(v, n);
    ReadsFrom(Octal(v, n), 0);
  }

  lemma {:induction false} ReadsFrom(d: Name, k: nat)
    requires 0 < |d| && k <= |d| && (forall i :: 0 <= i < |d| ==> Digit(d[i])) && Value(d) <= ULONG_MAX
    ensures ParseFrom(d + [0], k, Value(d[..k])) == Some(Value(d))
    decreases |d| - k
  {
    if k < |d| {
      ReadsFrom(d, k + 1);
      assert d[..k + 1][..k] == d[..k];
      PrefixIsLess(d, k + 1);
    } else {
      assert d[..k] == d;
    }
  }

  lemma {:induction false} PrefixIsLess(d: Name, k: nat)
    requires k <= |d| && forall i :: 0 <= i < |d| ==> Digit(d[i])
    ensures Value(d[..k]) <= Value(d)
    decreases |d|
  {
    if k < |d| {
      var e := d[..|d| - 1];
      PrefixIsLess(e, k);
      assert e[..k] == d[..k];
    } else {
      assert d[..k] == d;
    }
  }

  // ---------------------------------------------------------------- printing octal numbers

  /** v without its last k octal digits. */
  function Shifted(v: nat, k: nat): (r: nat) { if k == 0 then v else Shifted(v / 8, k - 1) }

  lemma {:induction false} ShiftedOnce(v: nat, k: nat)
    ensures Shifted(v, k + 1) == Shifted(v, k) / 8
    decreases k
  {
    if k > 0 { ShiftedOnce(v / 8, k - 1); }
  }

  lemma {:induction false} LeadingDigit(v: nat, k: nat)
    ensures Octal(v, k + 1) == [ZERO + Shifted(v, k) % 8] + Octal(v, k)
    decreases k
  {
    if k > 0 {
      LeadingDigit(v / 8, k - 1);
      assert Octal(v, k + 1) == Octal(v / 8, k) + [ZERO + v % 8];
    }
  }

  lemma {:induction false} LeadingZeros(v: nat, k: nat, n: nat)
    requires Shifted(v, k) == 0 && k <= n
    ensures Octal(v, n) == seq(n - k, _ => ZERO) + Octal(v, k) && Shifted(v, n) == 0
    decreases n
  {
    if k < n {
      LeadingZeros(v, k, n - 1);
      ShiftedOnce(v, n - 1);
      LeadingDigit(v, n - 1);
      assert seq(n - k, _ => ZERO) == [ZERO] + seq(n - 1 - k, _ => ZERO);
    } else {
      assert seq(0, _ => ZERO) == [];
    }
  }

  function Reverse(s: Name): (r: Name)
    ensures |r| == |s|
  {
    if s == [] then [] else [s[|s| - 1]] + Reverse(s[..|s| - 1])
  }

  lemma ReverseGrows(s: Name, c: Byte)
    ensures Reverse(s + [c]) == [c] + Reverse(s)
  {
    assert (s + [c])[..|s|] == s;
  }

  lemma EnoughRoom()
    ensures Pow8(22) > 0xffff_ffff_ffff_ffff
  {
    assert Pow8(4) == 4096 && Pow8(8) == 0x100_0000 && Pow8(12) == 0x10_0000_0000 && Pow8(16) == 0x1_0000_0000_0000;
    assert Pow8(20) == 0x1000_0000_0000_0000;
    assert Pow8(22) == 64 * Pow8(20);
  }

  /** The digits of v, last one first, in the buffer: at least one of them and no leading zero besides. */
  method Digits(buf: array<Byte>, v: nat) returns (cp: nat)
    requires buf.Length == 64 && v < 0x1_0000_0000_0000_0000
    modifies buf
    ensures 0 < cp <= 22 && Reverse(buf[..cp]) == Octal(v, cp)
    ensures Shifted(v, cp) == 0 && (cp > 1 ==> Shifted(v, cp - 1) != 0)
  {
    hide Octal, Reverse, Shifted, Pow8;
    cp := 0;
    var value := v;
    EnoughRoom();
    Start(v);
    assert buf[..0] == [];
    while value > 0
      invariant 0 <= cp <= 22 && value == Shifted(v, cp) && value < Pow8(22 - cp)
      invariant Reverse(buf[..cp]) == Octal(v, cp)
      invariant cp > 0 ==> Shifted(v, cp - 1) != 0
      decreases value
    {
      LeadingDigit(v, cp);
      ShiftedOnce(v, cp);
      Fewer(22 - cp);
      ReverseGrows(buf[..cp], ZERO + value % 8);
      buf[cp] := ZERO + value % 8;
      assert buf[..cp + 1] == buf[..cp] + [ZERO + value % 8];
      value := value / 8;
      cp := cp + 1;
    }
    if cp < 1 {
      LeadingDigit(v, cp);
      ShiftedOnce(v, cp);
      ReverseGrows(buf[..cp], ZERO);
      buf[cp] := ZERO;
      assert buf[..cp + 1] == buf[..cp] + [ZERO];
      cp := cp + 1;
    }
  }

  lemma Start(v: nat)
    ensures Shifted(v, 0) == v && Octal(v, 0) == [] && Reverse([]) == []
  {
  }

  lemma Fewer(n: nat)
    ensures Pow8(0) == 1 && (n > 0 ==> Pow8(n) == 8 * Pow8(n - 1))
  {
  }

  /** format_integer for an unsigned octal conversion with the 0 flag: no fewer digits than width, and no more
      than width unless the number needs them. */
  method FormatOctal(v: nat, width: nat) returns (s: Name)
    requires v < 0x1_0000_0000_0000_0000
    ensures s == Octal(v, |s|) && |s| >= width && |s| > 0 && Shifted(v, |s|) == 0
    ensures |s| > width && |s| > 1 ==> Shifted(v, |s| - 1) != 0
  {
    hide Octal, Reverse, Shifted, Pow8;
    var buf := new Byte[64];
    var cp := Digits(buf, v);
    var padCnt := width - cp;
    if padCnt < 0 { padCnt := 0; }
    s := seq(padCnt, _ => ZERO);
    ghost var pad, digits := s, cp;
    while cp > 0
      invariant 0 <= cp <= digits <= 22 && s + Reverse(buf[..cp]) == pad + Octal(v, digits)
    {
      cp := cp - 1;
      ReverseGrows(buf[..cp], buf[cp]);
      assert buf[..cp + 1] == buf[..cp] + [buf[cp]];
      assert s + ([buf[cp]] + Reverse(buf[..cp])) == s + [buf[cp]] + Reverse(buf[..cp]);
      s := s + [buf[cp]];
    }
    Start(v);
    assert buf[..0] == [] && s + [] == s;
    LeadingZeros(v, digits, digits + padCnt);
  }

  lemma {:induction false} ShiftedToZero(v: nat, n: nat)
    ensures v < Pow8(n) <==> Shifted(v, n) == 0
    decreases n
  {
    if n > 0 { ShiftedToZero(v / 8, n - 1); }
  }

  /** snprintf of a number that fits the field. */
  method OctalField(v: nat, n: nat) returns (s: Name)
    requires 0 < n && v < Pow8(n) && v <= ULONG_MAX
    ensures s == Octal(v, n)
  {
    ShiftedToZero(v, n);
    s := FormatOctal(v, n);
    if |s| > n { LeadingZeros(v, n, |s| - 1); }
  }

  // ---------------------------------------------------------------- the header's fields

  /** name, mode, uid, gid, size, mtime, chksum, typeflag, linkname, magic, version, uname, gname, devmajor, devminor,
      prefix and padding. */
  const SIZES: seq<nat> := [100, 8, 8, 8, 12, 12, 8, 1, 100, 6, 2, 32, 32, 8, 8, 155, 12]
  const OFFSETS: seq<nat> := [0, 100, 108, 116, 124, 136, 148, 156, 157, 257, 263, 265, 297, 329, 337, 345, 500, 512]

  predicate Laid(fs: seq<Name>) { |fs| == 17 && forall i :: 0 <= i < 17 ==> |fs[i]| == SIZES[i] }

  function Concat(fs: seq<Name>): (s: Name) { if fs == [] then [] else fs[0] + Concat(fs[1..]) }

  lemma {:induction false} ConcatSplit(fs: seq<Name>, i: nat)
    requires i <= |fs|
    ensures Concat(fs) == Concat(fs[..i]) + Concat(fs[i..])
  {
    if i > 0 {
      ConcatSplit(fs[1..], i - 1);
      assert fs[..i][1..] == fs[1..][..i - 1] && fs[1..][i - 1..] == fs[i..];
    } else {
      assert fs[0..] == fs && fs[..0] == [];
    }
  }

  lemma {:induction false} PrefixLength(fs: seq<Name>, i: nat)
    requires Laid(fs) && i <= 17
    ensures |Concat(fs[..i])| == OFFSETS[i]
  {
    if i > 0 {
      PrefixLength(fs, i - 1);
      OneMore(fs, i);
    }
  }

  lemma OneMore(fs: seq<Name>, i: nat)
    requires 0 < i <= |fs|
    ensures Concat(fs[..i]) == Concat(fs[..i - 1]) + fs[i - 1]
  {
    ConcatSplit(fs[..i], i - 1);
    assert fs[..i][..i - 1] == fs[..i - 1] && fs[..i][i - 1..] == [fs[i - 1]];
    assert Concat([fs[i - 1]]) == fs[i - 1] + Concat([]);
  }

  lemma Around(fs: seq<Name>, i: nat)
    requires Laid(fs) && i < 17
    ensures |Concat(fs)| == HEADER_SIZE && |Concat(fs[..i])| == OFFSETS[i]
    ensures Concat(fs) == Concat(fs[..i]) + fs[i] + Concat(fs[i + 1..])
  {
    PrefixLength(fs, 17);
    assert fs[..17] == fs;
    PrefixLength(fs, i);
    ConcatSplit(fs, i);
    assert fs[i..][0] == fs[i] && fs[i..][1..] == fs[i + 1..];
  }

  lemma FieldAt(fs: seq<Name>, i: nat)
    requires Laid(fs) && i < 17
    ensures |Concat(fs)| == HEADER_SIZE && Concat(fs)[OFFSETS[i]..OFFSETS[i + 1]] == fs[i]
  {
    hide Concat;
    Around(fs, i);
  }

  lemma FieldSet(fs: seq<Name>, i: nat, x: Name)
    requires Laid(fs) && i < 17 && |x| == SIZES[i]
    ensures |Concat(fs)| == HEADER_SIZE && Concat(fs[i := x]) == Concat(fs)[..OFFSETS[i]] + x + Concat(fs)[OFFSETS[i + 1]..]
  {
    hide Concat;
    Around(fs, i);
    Around(fs[i := x], i);
    assert fs[i := x][..i] == fs[..i] && fs[i := x][i + 1..] == fs[i + 1..];
  }

  // ---------------------------------------------------------------- making a header

  function Zeros(n: nat): (s: Name)
    ensures |s| == n && forall i :: 0 <= i < n ==> s[i] == 0
  {
    seq(n, _ => 0)
  }

  /** A string in a field of n bytes. */
  function Padded(x: Name, n: nat): (r: Name)
    requires |x| <= n
    ensures |r| == n
  {
    x + Zeros(n - |x|)
  }

  const REGULAR: Byte := 48
  const DIRECTORY: Byte := 53
  const MAGIC: Name := [117, 115, 116, 97, 114]
  const ROOT: Name := [114, 111, 111, 116]
  const MTIME: nat := 1136102400

  function U32(x: int): (v: nat)
    requires -0x8000_0000 <= x <= INT_MAX
    ensures v <= ULONG_MAX
  {
    if x < 0 then x + 0x1_0000_0000 else x
  }

  function Blank(): (fs: seq<Name>)
    ensures Laid(fs) && forall i :: 0 <= i < 17 ==> fs[i] == Zeros(SIZES[i])
  {
    seq(17, i requires 0 <= i < 17 => Zeros(SIZES[i]))
  }

  /** The name, mode and owner fields of the header for a stripped name. */
  function Owner(name: Name, typeflag: Byte): (fs: seq<Name>)
    requires |name| <= 99
    ensures Laid(fs) && forall i :: 4 <= i < 17 ==> fs[i] == Zeros(SIZES[i])
  {
    Blank()[0 := Padded(name, 100)]
           [1 := Padded(Octal(if typeflag == REGULAR then 420 else 493, 7), 8)]
           [2 := Padded(Octal(0, 7), 8)]
           [3 := Padded(Octal(0, 7), 8)]
  }

  /** Those and the size and time. */
  function Numbers(name: Name, typeflag: Byte, size: int): (fs: seq<Name>)
    requires |name| <= 99 && -0x8000_0000 <= size <= INT_MAX
    ensures Laid(fs) && forall i :: 6 <= i < 17 ==> fs[i] == Zeros(SIZES[i])
  {
    Owner(name, typeflag)[4 := Padded(Octal(U32(size), 11), 12)][5 := Padded(Octal(MTIME, 11), 12)]
  }

  /** All its fields, the checksum still blank. */
  function Fields(name: Name, typeflag: Byte, size: int): (fs: seq<Name>)
    requires |name| <= 99 && -0x8000_0000 <= size <= INT_MAX
    ensures Laid(fs) && fs[6] == Zeros(8)
  {
    Numbers(name, typeflag, size)
           [7 := [typeflag]]
           [9 := Padded(MAGIC, 6)]
           [10 := [ZERO, ZERO]]
           [11 := Padded(ROOT, 32)]
           [12 := Padded(ROOT, 32)]
  }

  /** The sum of the first n bytes, those of the checksum field counted as spaces. */
  function Sum(h: Name, n: nat): (v: nat)
    requires n <= |h|
  {
    if n == 0 then 0 else Sum(h, n - 1) + if 148 <= n - 1 < 156 then SPACE else h[n - 1]
  }

  lemma {:induction false} SumBounded(h: Name, n: nat)
    requires n <= |h|
    ensures Sum(h, n) <= 255 * n
  {
    if n > 0 { SumBounded(h, n - 1); }
  }

  /** The checksum does not depend on the checksum field. */
  lemma {:induction false} SumIgnoresChksum(h: Name, g: Name, n: nat)
    requires |h| == |g| && n <= |h| && forall i :: 0 <= i < |h| && !(148 <= i < 156) ==> h[i] == g[i]
    ensures Sum(h, n) == Sum(g, n)
  {
    if n > 0 { SumIgnoresChksum(h, g, n - 1); }
  }

  function Total(s: Name): (v: nat) { if s == [] then 0 else s[0] + Total(s[1..]) }

  lemma {:induction false} TotalGrows(s: Name, c: Byte)
    ensures Total(s + [c]) == Total(s) + c
  {
    if s != [] {
      TotalGrows(s[1..], c);
      assert (s + [c])[1..] == s[1..] + [c];
    } else {
      assert s + [c] == [c] && [c][1..] == [];
    }
  }

  /** The header as it is summed: with eight spaces for the checksum. */
  function Spaced(h: Name): (g: Name)
    requires |h| == HEADER_SIZE
    ensures |g| == HEADER_SIZE
  {
    h[..148] + [32, 32, 32, 32, 32, 32, 32, 32] + h[156..]
  }

  /** The checksum is the sum of all bytes of the header with its checksum field blanked out. */
  lemma ChksumIsTheByteSum(h: Name)
    requires |h| == HEADER_SIZE
    ensures Sum(h, HEADER_SIZE) == Total(Spaced(h))
  {
    SumIsTotal(h, HEADER_SIZE);
    assert Spaced(h)[..HEADER_SIZE] == Spaced(h);
  }

  lemma {:induction false} SumIsTotal(h: Name, n: nat)
    requires |h| == HEADER_SIZE && n <= HEADER_SIZE
    ensures Sum(h, n) == Total(Spaced(h)[..n])
  {
    if n > 0 {
      SumIsTotal(h, n - 1);
      SpacedAt(h, n - 1);
      hide Spaced;
      var g := Spaced(h);
      assert g[..n] == g[..n - 1] + [g[n - 1]];
      TotalGrows(g[..n - 1], g[n - 1]);
    }
  }

  lemma SpacedAt(h: Name, i: nat)
    requires |h| == HEADER_SIZE && i < HEADER_SIZE
    ensures Spaced(h)[i] == if 148 <= i < 156 then SPACE else h[i]
  {
  }

  method CalculateChksum(h: Name) returns (chksum: nat)
    requires |h| == HEADER_SIZE
    ensures chksum == Sum(h, HEADER_SIZE) == Total(Spaced(h))
  {
    ChksumIsTheByteSum(h);
    hide Total, Spaced;
    chksum := 0;
    var i := 0;
    while i < HEADER_SIZE
      invariant i <= HEADER_SIZE && chksum == Sum(h, i)
    {
      var inChksumField := i >= 148 && i < 156;
      chksum := chksum + if inChksumField then SPACE else h[i];
      i := i + 1;
    }
  }

  function HeaderFor(name: Name, typeflag: Byte, size: int): (h: Name)
    requires |name| <= 99 && -0x8000_0000 <= size <= INT_MAX
    ensures |h| == HEADER_SIZE
  {
    var fs := Fields(name, typeflag, size);
    FieldAt(fs, 6);
    var chk := Padded(Octal(Sum(Concat(fs), HEADER_SIZE), 7), 8);
    FieldAt(fs[6 := chk], 6);
    Concat(fs[6 := chk])
  }

  /** Writing a string and its null over a blank field. */
  method PutField(header: array<Byte>, ghost fs: seq<Name>, i: nat, x: Name) returns (ghost gs: seq<Name>)
    requires header.Length == HEADER_SIZE && Laid(fs) && i < 17 && header[..] == Concat(fs) && fs[i] == Zeros(SIZES[i])
    requires |x| <= SIZES[i]
    modifies header
    ensures Laid(gs) && |gs| == 17 && gs == fs[i := Padded(x, SIZES[i])] && header[..] == Concat(gs)
  {
    hide Concat;
    FieldAt(fs, i);
    FieldSet(fs, i, Padded(x, SIZES[i]));
    ghost var was := header[..];
    assert header[OFFSETS[i]..OFFSETS[i + 1]] == was[OFFSETS[i]..OFFSETS[i + 1]];
    assert header[..OFFSETS[i]] == was[..OFFSETS[i]] && header[OFFSETS[i + 1]..] == was[OFFSETS[i + 1]..];
    CopyIn(header, OFFSETS[i], SIZES[i], x);
    gs := fs[i := Padded(x, SIZES[i])];
  }

  /** A string copied over n blank bytes. */
  method CopyIn(header: array<Byte>, o: nat, n: nat, x: Name)
    requires o + n <= header.Length && |x| <= n && header[o..o + n] == Zeros(n)
    modifies header
    ensures header[..] == old(header[..o]) + Padded(x, n) + old(header[o + n..])
  {
    ghost var was := header[..];
    assert was[o..o + n] == header[o..o + n];
    forall k | 0 <= k < |x| {
      header[o + k] := x[k];
    }
    OverBlank(was, header[..], o, n, x);
    assert was[..o] == old(header[..o]) && was[o + n..] == old(header[o + n..]);
  }

  lemma OverBlank(was: Name, now: Name, o: nat, n: nat, x: Name)
    requires |was| == |now| && o + n <= |was| && |x| <= n && was[o..o + n] == Zeros(n)
    requires forall k :: 0 <= k < |was| ==> now[k] == if o <= k < o + |x| then x[k - o] else was[k]
    ensures now == was[..o] + Padded(x, n) + was[o + n..]
  {
    var r := was[..o] + Padded(x, n) + was[o + n..];
    forall k | 0 <= k < |was|
      ensures now[k] == r[k]
    {
      if o <= k < o + n { assert was[k] == was[o..o + n][k - o]; }
    }
  }

  lemma {:induction false} AllBlank(fs: seq<Name>)
    requires forall i :: 0 <= i < |fs| ==> forall k :: 0 <= k < |fs[i]| ==> fs[i][k] == 0
    ensures forall k :: 0 <= k < |Concat(fs)| ==> Concat(fs)[k] == 0
  {
    if fs != [] { AllBlank(fs[1..]); }
  }

  method PutOwner(header: array<Byte>, n: Name, typeflag: Byte)
    requires header.Length == HEADER_SIZE && |n| <= 99 && header[..] == Concat(Blank())
    modifies header
    ensures header[..] == Concat(Owner(n, typeflag))
  {
    hide Concat, Octal, Pow8, Blank, Padded, Zeros;
    FitsOctal();
    ghost var fs := PutField(header, Blank(), 0, n);
    var mode := OctalField(if typeflag == REGULAR then 420 else 493, 7);
    fs := PutField(header, fs, 1, mode);
    var none := OctalField(0, 7);
    fs := PutField(header, fs, 2, none);
    fs := PutField(header, fs, 3, none);
  }

  method PutNumbers(header: array<Byte>, n: Name, typeflag: Byte, size: int)
    requires header.Length == HEADER_SIZE && |n| <= 99 && -0x8000_0000 <= size <= INT_MAX && header[..] == Concat(Blank())
    modifies header
    ensures header[..] == Concat(Numbers(n, typeflag, size))
  {
    hide Concat, Octal, Pow8, Blank, Owner, Padded, Zeros, U32;
    PutOwner(header, n, typeflag);
    FitsOctal();
    var sz := OctalField(U32(size), 11);
    ghost var fs := PutField(header, Owner(n, typeflag), 4, sz);
    var mtime := OctalField(MTIME, 11);
    fs := PutField(header, fs, 5, mtime);
  }

  method PutRest(header: array<Byte>, ghost n: Name, typeflag: Byte, ghost size: int)
    requires header.Length == HEADER_SIZE && |n| <= 99 && -0x8000_0000 <= size <= INT_MAX
    requires header[..] == Concat(Numbers(n, typeflag, size))
    modifies header
    ensures header[..] == Concat(Fields(n, typeflag, size))
  {
    hide Concat, Numbers, Padded, Zeros;
    ghost var fs := Numbers(n, typeflag, size);
    Whole([typeflag]);
    fs := PutField(header, fs, 7, [typeflag]);
    fs := PutField(header, fs, 9, MAGIC);
    Whole([ZERO, ZERO]);
    fs := PutField(header, fs, 10, [ZERO, ZERO]);
    ghost var gs := PutField(header, fs, 12, ROOT);
    gs := PutField(header, gs, 11, ROOT);
    assert gs == fs[11 := Padded(ROOT, 32)][12 := Padded(ROOT, 32)];
  }

  lemma Whole(x: Name)
    ensures Padded(x, |x|) == x
  {
  }

  /** ustar_make_header.  The type is one of the two the archive knows. */
  method MakeHeader(name: Name, typeflag: Byte, size: int, header: array<Byte>) returns (ok: bool)
    requires header.Length == HEADER_SIZE && -0x8000_0000 <= size <= INT_MAX
    requires typeflag == REGULAR || typeflag == DIRECTORY
    modifies header
    ensures ok <==> |Stripped(name)| <= 99
    ensures ok ==> header[..] == HeaderFor(Stripped(name), typeflag, size)
    ensures !ok ==> header[..] == old(header[..])
  {
    hide Concat, Stripped, Octal, Sum, Pow8, Fields, Numbers;
    var n := StripAntisocialPrefixes(name);
    if |n| > 99 { return false; }
    forall k | 0 <= k < HEADER_SIZE {
      header[k] := 0;
    }
    BlankHeader(header[..]);
    PutNumbers(header, n, typeflag, size);
    PutRest(header, n, typeflag, size);
    var sum := CalculateChksum(header[..]);
    SumBounded(header[..], HEADER_SIZE);
    FitsOctal();
    var chk := OctalField(sum, 7);
    ghost var fs := PutField(header, Fields(n, typeflag, size), 6, chk);
    return true;
  }

  lemma FitsOctal()
    ensures Pow8(7) == 0x20_0000 && Pow8(11) == 0x2_0000_0000
  {
    assert Pow8(4) == 4096 && Pow8(7) == 512 * Pow8(4) && Pow8(11) == 4096 * Pow8(7);
  }

  lemma BlankHeader(h: Name)
    requires |h| == HEADER_SIZE && forall k :: 0 <= k < HEADER_SIZE ==> h[k] == 0
    ensures h == Concat(Blank())
  {
    FieldAt(Blank(), 0);
    AllBlank(Blank());
  }

  // ---------------------------------------------------------------- reading a header

  datatype Parsed =
    | Eof
    | Entry(name: Name, typeflag: Byte, size: nat)
    | NotUstar
    | BadVersion
    | BadChksumField
    | ChksumMismatch
    | NameTooLong
    | BadType
    | BadSizeField
    | TooLarge

  predicate AllZeros(s: Name) { forall i :: 0 <= i < |s| ==> s[i] == 0 }

  function Parse(h: Name): (r: Parsed)
    requires |h| == HEADER_SIZE
  {
    if AllZeros(h) then Eof
    else if h[257..263] != MAGIC + [0] then NotUstar
    else if h[263] != ZERO || h[264] != ZERO then BadVersion
    else if ParseFrom(h[148..156], 0, 0) == None then BadChksumField
    else if ParseFrom(h[148..156], 0, 0) != Some(Sum(h, HEADER_SIZE)) then ChksumMismatch
    else if h[99] != 0 || h[345] != 0 then NameTooLong
    else if h[156] != REGULAR && h[156] != DIRECTORY then BadType
    else if h[156] == REGULAR then
      match ParseFrom(h[124..136], 0, 0)
      case None => BadSizeField
      case Some(n) => if n > INT_MAX then TooLarge else Entry(Stripped(UpToNull(h[0..100])), h[156], n)
    else Entry(Stripped(UpToNull(h[0..100])), h[156], 0)
  }

  method IsAllZeros(s: Name) returns (r: bool)
    ensures r == AllZeros(s)
  {
    var i := 0;
    while i < |s|
      invariant i <= |s| && forall k :: 0 <= k < i ==> s[k] == 0
    {
      if s[i] != 0 { return false; }
      i := i + 1;
    }
    return true;
  }

  method ReadString(s: Name) returns (r: Name)
    ensures r == UpToNull(s)
  {
    r := [];
    var i := 0;
    assert s[0..] == s;
    while i < |s| && s[i] != 0
      invariant i <= |s| && r + UpToNull(s[i..]) == UpToNull(s)
    {
      NextOfString(s, i);
      assert r + ([s[i]] + UpToNull(s[i + 1..])) == r + [s[i]] + UpToNull(s[i + 1..]);
      r := r + [s[i]];
      i := i + 1;
    }
  }

  lemma NextOfString(s: Name, i: nat)
    requires i < |s| && s[i] != 0
    ensures UpToNull(s[i..]) == [s[i]] + UpToNull(s[i + 1..])
  {
    assert s[i..][1..] == s[i + 1..];
  }

  method ParseHeader(header: array<Byte>) returns (r: Parsed)
    requires header.Length == HEADER_SIZE
    ensures r == Parse(header[..])
  {
    hide ParseFrom, Sum, Stripped, UpToNull, AllZeros;
    var h := header[..];
    var eof := IsAllZeros(h);
    if eof { return Eof; }
    if h[257..263] != MAGIC + [0] { return NotUstar; }
    if h[263] != ZERO || h[264] != ZERO { return BadVersion; }
    var chksum := ParseOctalField(h[148..156]);
    if chksum.None? { return BadChksumField; }
    var sum := CalculateChksum(h);
    if chksum.value != sum { return ChksumMismatch; }
    if h[99] != 0 || h[345] != 0 { return NameTooLong; }
    if h[156] != REGULAR && h[156] != DIRECTORY { return BadType; }
    var size := Some(0);
    if h[156] == REGULAR {
      size := ParseOctalField(h[124..136]);
      if size.None? { return BadSizeField; }
      if size.value > INT_MAX { return TooLarge; }
    }
    var name := ReadString(h[0..100]);
    name := StripAntisocialPrefixes(name);
    return Entry(name, h[156], size.value);
  }

  /** The field starts with octal digits and a space or null, and they stand for v. */
  ghost predicate Reads(s: Name, v: nat) { exists k :: FieldOf(s, k, v) }

  predicate IsUstar(fs: seq<Name>) requires Laid(fs) { fs[9] == [117, 115, 116, 97, 114, 0] }
  predicate IsVersion(fs: seq<Name>) requires Laid(fs) { fs[10] == [48, 48] }
  predicate IsNamed(fs: seq<Name>) requires Laid(fs) { fs[0][99] == 0 && fs[15][0] == 0 }

  /** The checksum field holds the sum of the header's bytes, its own counted as spaces. */
  ghost predicate IsSummed(fs: seq<Name>)
    requires Laid(fs)
  {
    Reads(fs[6], Total(Concat(fs[6 := [32, 32, 32, 32, 32, 32, 32, 32]])))
  }

  /** What ustar_parse_header says of a header, field by field: an entry's name, type and size come from an archive of the
      right format and version, with a right checksum, and each error has its own reason and no earlier one. */
  lemma ParsedByFields(fs: seq<Name>)
    requires Laid(fs)
    ensures |Concat(fs)| == HEADER_SIZE
    ensures match Parse(Concat(fs))
      case Eof => forall i :: 0 <= i < HEADER_SIZE ==> Concat(fs)[i] == 0
      case NotUstar => !IsUstar(fs) && exists i :: 0 <= i < HEADER_SIZE && Concat(fs)[i] != 0
      case BadVersion => IsUstar(fs) && !IsVersion(fs)
      case BadChksumField => IsUstar(fs) && IsVersion(fs) && forall v :: !Reads(fs[6], v)
      case ChksumMismatch => IsUstar(fs) && IsVersion(fs) && !IsSummed(fs) && exists v :: Reads(fs[6], v)
      case NameTooLong => IsUstar(fs) && IsVersion(fs) && IsSummed(fs) && !IsNamed(fs)
      case BadType => IsUstar(fs) && IsVersion(fs) && IsSummed(fs) && IsNamed(fs) && fs[7] != [48] && fs[7] != [53]
      case BadSizeField => IsUstar(fs) && IsVersion(fs) && IsSummed(fs) && IsNamed(fs) && fs[7] == [48] && forall v :: !Reads(fs[4], v)
      case TooLarge => IsUstar(fs) && IsVersion(fs) && IsSummed(fs) && IsNamed(fs) && fs[7] == [48] && exists v :: v >= 0x8000_0000 && Reads(fs[4], v)
      case Entry(name, typeflag, size) =>
        && IsUstar(fs) && IsVersion(fs) && IsSummed(fs) && IsNamed(fs) && fs[7] == [typeflag] && name == Stripped(UpToNull(fs[0]))
        && ((typeflag == 48 && size < 0x8000_0000 && Reads(fs[4], size)) || (typeflag == 53 && size == 0))
  {
    FieldsFound(fs);
    SummedField(fs);
    var h := Concat(fs);
    ChksumIsTheByteSum(h);
    forall v: nat ensures (ParseFrom(fs[6], 0, 0) == Some(v) <==> Reads(fs[6], v)) && (ParseFrom(fs[4], 0, 0) == Some(v) <==> Reads(fs[4], v)) {
      ParsedExactly(fs[6], v);
      ParsedExactly(fs[4], v);
    }
    hide Concat, Reads, ParseFrom, Sum, Total, Spaced, Stripped, UpToNull;
    assert AllZeros(h) <==> forall i :: 0 <= i < HEADER_SIZE ==> h[i] == 0;
    hide AllZeros;
  }

  lemma FieldsFound(fs: seq<Name>)
    requires Laid(fs)
    ensures var h := Concat(fs);
      && |h| == HEADER_SIZE && h[0..100] == fs[0] && h[99] == fs[0][99] && h[124..136] == fs[4] && h[148..156] == fs[6]
      && [h[156]] == fs[7] && h[257..263] == fs[9] && [h[263], h[264]] == fs[10] && h[345] == fs[15][0]
  {
    hide Concat;
    var h := Concat(fs);
    FieldAt(fs, 0);
    assert h[99] == h[0..100][99];
    FieldAt(fs, 4);
    FieldAt(fs, 6);
    FieldAt(fs, 7);
    assert h[156..157] == [h[156]];
    FieldAt(fs, 9);
    FieldAt(fs, 10);
    assert h[263..265] == [h[263], h[264]];
    FieldAt(fs, 15);
    assert h[345] == h[345..500][0];
  }

  lemma SummedField(fs: seq<Name>)
    requires Laid(fs)
    ensures |Concat(fs)| == HEADER_SIZE && Spaced(Concat(fs)) == Concat(fs[6 := [32, 32, 32, 32, 32, 32, 32, 32]])
  {
    hide Concat;
    FieldSet(fs, 6, [32, 32, 32, 32, 32, 32, 32, 32]);
  }

  /** Each field of a header made by MakeHeader, found where ParseHeader looks for it. */
  lemma MadeFields(name: Name, typeflag: Byte, size: int)
    requires |name| <= 99 && -0x8000_0000 <= size <= INT_MAX
    ensures var h := HeaderFor(name, typeflag, size);
      && h[0..100] == Padded(name, 100) && h[99] == 0 && h[124..136] == Octal(U32(size), 11) + [0]
      && h[156] == typeflag && h[257..263] == MAGIC + [0] && h[263] == ZERO && h[264] == ZERO && h[345] == 0
  {
    hide Concat, Octal, Sum;
    var fs := Fields(name, typeflag, size);
    var h := HeaderFor(name, typeflag, size);
    FieldAt(fs, 6);
    var gs := fs[6 := Padded(Octal(Sum(Concat(fs), HEADER_SIZE), 7), 8)];
    assert h == Concat(gs) && Laid(gs);
    FieldAt(gs, 0);
    assert h[99] == h[0..100][99];
    FieldAt(gs, 4);
    FieldAt(gs, 7);
    assert h[156] == h[156..157][0];
    FieldAt(gs, 9);
    FieldAt(gs, 10);
    assert h[263] == h[263..265][0] && h[264] == h[263..265][1];
    FieldAt(gs, 15);
    assert h[345] == h[345..500][0];
  }

  /** The seventeen fields of a header in the format's own terms: null-terminated octal digits, "ustar", "00", "root". */
  function Table(name: Name, typeflag: Byte, size: int, chksum: Name): (fs: seq<Name>)
    requires |name| <= 99 && -0x8000_0000 <= size <= INT_MAX
  {
    [Padded(name, 100), if typeflag == REGULAR then [48, 48, 48, 48, 54, 52, 52, 0] else [48, 48, 48, 48, 55, 53, 53, 0],
     [48, 48, 48, 48, 48, 48, 48, 0], [48, 48, 48, 48, 48, 48, 48, 0], Octal(U32(size), 11) + [0],
     [49, 48, 51, 53, 53, 55, 48, 54, 48, 48, 48, 0], chksum, [typeflag], Zeros(100), [117, 115, 116, 97, 114, 0], [48, 48],
     [114, 111, 111, 116] + Zeros(28), [114, 111, 111, 116] + Zeros(28), Zeros(8), Zeros(8), Zeros(155), Zeros(12)]
  }

  /** The header made is those fields laid out one after the other, its checksum the sum of its own bytes in octal. */
  lemma MadeHeader(name: Name, typeflag: Byte, size: int)
    requires |name| <= 99 && -0x8000_0000 <= size <= INT_MAX
    ensures var h := HeaderFor(name, typeflag, size); h == Concat(Table(name, typeflag, size, Octal(Total(Spaced(h)), 7) + [0]))
  {
    hide Concat, Sum, Octal, Total, Spaced;
    var h, fs := HeaderFor(name, typeflag, size), Fields(name, typeflag, size);
    FieldAt(fs, 6);
    var chk := Padded(Octal(Sum(Concat(fs), HEADER_SIZE), 7), 8);
    SameSum(name, typeflag, size);
    ChksumIsTheByteSum(h);
    Ended(Octal(Sum(Concat(fs), HEADER_SIZE), 7));
    TableIsFields(name, typeflag, size, chk);
  }

  lemma Ended(x: Name)
    ensures Padded(x, |x| + 1) == x + [0]
  {
    assert Zeros(1) == [0];
  }

  lemma TableIsFields(name: Name, typeflag: Byte, size: int, chk: Name)
    requires |name| <= 99 && -0x8000_0000 <= size <= INT_MAX
    ensures Fields(name, typeflag, size)[6 := chk] == Table(name, typeflag, size, chk)
  {
    hide Octal, Zeros, U32, Padded, Fields;
    FrontFields(name, typeflag, size);
    BackFields(name, typeflag, size);
    NumbersAsDigits(size);
    TextsAsBytes();
  }

  lemma FrontFields(name: Name, typeflag: Byte, size: int)
    requires |name| <= 99 && -0x8000_0000 <= size <= INT_MAX
    ensures Fields(name, typeflag, size)[..6] ==
      [Padded(name, 100), Padded(Octal(if typeflag == REGULAR then 420 else 493, 7), 8), Padded(Octal(0, 7), 8),
       Padded(Octal(0, 7), 8), Padded(Octal(U32(size), 11), 12), Padded(Octal(MTIME, 11), 12)]
  {
    hide Octal, Zeros, U32, Padded;
  }

  lemma BackFields(name: Name, typeflag: Byte, size: int)
    requires |name| <= 99 && -0x8000_0000 <= size <= INT_MAX
    ensures Fields(name, typeflag, size)[7..] ==
      [[typeflag], Zeros(100), Padded(MAGIC, 6), [48, 48], Padded(ROOT, 32), Padded(ROOT, 32), Zeros(8), Zeros(8), Zeros(155), Zeros(12)]
  {
    hide Zeros, Padded, Numbers;
  }

  lemma NumbersAsDigits(size: int)
    requires -0x8000_0000 <= size <= INT_MAX
    ensures Padded(Octal(420, 7), 8) == [48, 48, 48, 48, 54, 52, 52, 0] && Padded(Octal(493, 7), 8) == [48, 48, 48, 48, 55, 53, 53, 0]
    ensures Padded(Octal(0, 7), 8) == [48, 48, 48, 48, 48, 48, 48, 0] && Padded(Octal(U32(size), 11), 12) == Octal(U32(size), 11) + [0]
    ensures Padded(Octal(MTIME, 11), 12) == [49, 48, 51, 53, 53, 55, 48, 54, 48, 48, 48, 0]
  {
    FixedNumbers();
    Ended(Octal(420, 7));
    Ended(Octal(493, 7));
    Ended(Octal(0, 7));
    Ended(Octal(MTIME, 11));
    Ended(Octal(U32(size), 11));
    hide Octal, Padded, U32;
  }

  lemma TextsAsBytes()
    ensures Padded(MAGIC, 6) == [117, 115, 116, 97, 114, 0] && Padded(ROOT, 32) == [114, 111, 111, 116] + Zeros(28)
  {
    Ended(MAGIC);
  }

  lemma FixedNumbers()
    ensures Octal(420, 7) == [48, 48, 48, 48, 54, 52, 52] && Octal(493, 7) == [48, 48, 48, 48, 55, 53, 53]
    ensures Octal(0, 7) == [48, 48, 48, 48, 48, 48, 48] && Octal(MTIME, 11) == [49, 48, 51, 53, 53, 55, 48, 54, 48, 48, 48]
  {
    assert Octal(0, 1) == [48] && Octal(0, 2) == [48, 48] && Octal(0, 3) == [48, 48, 48] && Octal(0, 4) == [48, 48, 48, 48];
    assert Octal(6, 5) == [48, 48, 48, 48, 54] && Octal(52, 6) == [48, 48, 48, 48, 54, 52];
    assert Octal(7, 5) == [48, 48, 48, 48, 55] && Octal(61, 6) == [48, 48, 48, 48, 55, 53];
    assert Octal(0, 5) == [48, 48, 48, 48, 48] && Octal(0, 6) == [48, 48, 48, 48, 48, 48];
    TimeStamp();
  }

  lemma TimeStamp()
    ensures Octal(MTIME, 11) == [49, 48, 51, 53, 53, 55, 48, 54, 48, 48, 48]
  {
    assert Octal(1, 1) == [49];
    assert Octal(8, 2) == [49, 48];
    assert Octal(67, 3) == [49, 48, 51];
    assert Octal(541, 4) == [49, 48, 51, 53];
    assert Octal(4333, 5) == [49, 48, 51, 53, 53];
    assert Octal(34671, 6) == [49, 48, 51, 53, 53, 55];
    assert Octal(277368, 7) == [49, 48, 51, 53, 53, 55, 48];
    assert Octal(2218950, 8) == [49, 48, 51, 53, 53, 55, 48, 54];
    assert Octal(17751600, 9) == [49, 48, 51, 53, 53, 55, 48, 54, 48];
    assert Octal(142012800, 10) == [49, 48, 51, 53, 53, 55, 48, 54, 48, 48];
    assert Octal(1136102400, 11) == [49, 48, 51, 53, 53, 55, 48, 54, 48, 48, 48];
  }

  lemma SameSum(name: Name, typeflag: Byte, size: int)
    requires |name| <= 99 && -0x8000_0000 <= size <= INT_MAX
    ensures var fs := Fields(name, typeflag, size);
      && |Concat(fs)| == HEADER_SIZE
      && Sum(HeaderFor(name, typeflag, size), HEADER_SIZE) == Sum(Concat(fs), HEADER_SIZE)
  {
    hide Concat, Octal, Sum, Fields;
    var fs := Fields(name, typeflag, size);
    var g := Concat(fs);
    FieldAt(fs, 6);
    var chk := Padded(Octal(Sum(g, HEADER_SIZE), 7), 8);
    var h := HeaderFor(name, typeflag, size);
    FieldAt(fs[6 := chk], 6);
    FieldSet(fs, 6, chk);
    assert h == g[..148] + chk + g[156..];
    SumIgnoresChksum(h, g, HEADER_SIZE);
  }

  /** The checksum field holds the checksum of the finished header. */
  lemma MadeChksum(name: Name, typeflag: Byte, size: int)
    requires |name| <= 99 && -0x8000_0000 <= size <= INT_MAX
    ensures var h := HeaderFor(name, typeflag, size); ParseFrom(h[148..156], 0, 0) == Some(Sum(h, HEADER_SIZE))
  {
    hide Concat, Octal, Sum, Fields, ParseFrom, Pow8;
    var fs := Fields(name, typeflag, size);
    var g := Concat(fs);
    FieldAt(fs, 6);
    var v := Sum(g, HEADER_SIZE);
    var chk := Padded(Octal(v, 7), 8);
    var h := HeaderFor(name, typeflag, size);
    FieldAt(fs[6 := chk], 6);
    SameSum(name, typeflag, size);
    SumBounded(g, HEADER_SIZE);
    FitsOctal();
    OctalReadsBack(v, 7);
    assert chk == Octal(v, 7) + [0];
  }

  /** Reading the header made for a file gives back its stripped name, its type and its size: a regular file's size
      when it is not negative, which a directory's is read as. */
  lemma RoundTrip(name: Name, typeflag: Byte, size: int)
    requires NoNull(name) && |Stripped(name)| <= 99 && -0x8000_0000 <= size <= INT_MAX
    requires typeflag == REGULAR || typeflag == DIRECTORY
    ensures Parse(HeaderFor(Stripped(name), typeflag, size)) ==
      if typeflag == DIRECTORY then Entry(Stripped(name), typeflag, 0)
      else if size < 0 then TooLarge else Entry(Stripped(name), typeflag, size)
  {
    hide HeaderFor, Octal, Sum, ParseFrom, Stripped, UpToNull, Pow8;
    var n := Stripped(name);
    var h := HeaderFor(n, typeflag, size);
    StrippedIsSafe(name);
    StrippedTwice(name);
    MadeFields(n, typeflag, size);
    MadeChksum(n, typeflag, size);
    StringReadsBack(n, Zeros(99 - |n|));
    assert Padded(n, 100) == n + [0] + Zeros(99 - |n|);
    FitsOctal();
    OctalReadsBack(U32(size), 11);
    assert h[263] != 0;
  }
}
