/** lib/kernel/bitmap.c: an array of bits kept in 32-bit words. */
module Bitmaps {
  import opened Bytes
  import opened Machine
  import opened Options
  import opened Powers

  const ELEM_BITS := 32

  // ---------------------------------------------------------------- bits of a word

  predicate Bit(w: nat, k: nat) { if k == 0 then w % 2 == 1 else Bit(w / 2, k - 1) }

  function Or(x: nat, y: nat): (z: nat)
  {
    if x == 0 && y == 0 then 0 else 2 * Or(x / 2, y / 2) + if x % 2 == 1 || y % 2 == 1 then 1 else 0
  }

  function And(x: nat, y: nat): (z: nat)
  {
    if x == 0 || y == 0 then 0 else 2 * And(x / 2, y / 2) + if x % 2 == 1 && y % 2 == 1 then 1 else 0
  }

  function Not(x: Word): (z: Word) { BASE - 1 - x }

  lemma OrBit(x: nat, y: nat, k: nat)
    ensures Bit(Or(x, y), k) == (Bit(x, k) || Bit(y, k))
    decreases k
  {
    if k == 0 {
    } else if x == 0 && y == 0 {
    } else {
      OrBit(x / 2, y / 2, k - 1);
      assert Or(x, y) / 2 == Or(x / 2, y / 2);
    }
  }

  lemma AndBit(x: nat, y: nat, k: nat)
    ensures Bit(And(x, y), k) == (Bit(x, k) && Bit(y, k))
    decreases k
  {
    if x == 0 || y == 0 {
      ZeroBit(k);
    } else if k > 0 {
      AndBit(x / 2, y / 2, k - 1);
      assert And(x, y) / 2 == And(x / 2, y / 2);
    }
  }

  lemma ZeroBit(k: nat)
    ensures !Bit(0, k)
  {
  }

  lemma MaskBit(j: nat, k: nat)
    ensures Bit(Pow2(j), k) == (j == k)
    decreases j
  {
    if j == 0 {
      if k > 0 { ZeroBit(k - 1); }
    } else if k > 0 {
      MaskBit(j - 1, k - 1);
    }
  }

  /** All ones minus x, on n bits, is x with every bit turned over. */
  lemma NotBits(x: nat, n: nat, k: nat)
    requires x < Pow2(n) && k < n
    ensures Bit(Pow2(n) - 1 - x, k) == !Bit(x, k)
    decreases n
  {
    assert Pow2(n) == 2 * Pow2(n - 1);
    if k > 0 {
      NotBits(x / 2, n - 1, k - 1);
      assert (Pow2(n) - 1 - x) / 2 == Pow2(n - 1) - 1 - x / 2;
    }
  }

  lemma OrBelow(x: nat, y: nat, n: nat)
    requires x < Pow2(n) && y < Pow2(n)
    ensures Or(x, y) < Pow2(n)
    decreases n
  {
    if n > 0 { OrBelow(x / 2, y / 2, n - 1); }
  }

  lemma AndBelow(x: nat, y: nat, n: nat)
    requires x < Pow2(n)
    ensures And(x, y) < Pow2(n)
    decreases n
  {
    if n > 0 { AndBelow(x / 2, y / 2, n - 1); }
  }

  lemma MaskFits(k: nat)
    requires k < ELEM_BITS
    ensures Pow2(k) < BASE && Pow2(ELEM_BITS) == BASE
  {
    Pow2Values();
    Pow2Mono(k, 31);
  }

  function BitMask(bitIdx: nat): (m: Word)
  {
    MaskFits(bitIdx % ELEM_BITS);
    Pow2(bitIdx % ELEM_BITS)
  }

  function Marked(w: Word, bitIdx: nat): (v: Word)
  {
    MaskFits(bitIdx % ELEM_BITS);
    OrBelow(w, BitMask(bitIdx), ELEM_BITS);
    Or(w, BitMask(bitIdx))
  }

  function Cleared(w: Word, bitIdx: nat): (v: Word)
  {
    MaskFits(bitIdx % ELEM_BITS);
    AndBelow(w, Not(BitMask(bitIdx)), ELEM_BITS);
    And(w, Not(BitMask(bitIdx)))
  }

  lemma MarkedBits(w: Word, i: nat, k: nat)
    requires k < ELEM_BITS
    ensures Bit(Marked(w, i), k) == (k == i % ELEM_BITS || Bit(w, k))
  {
    OrBit(w, BitMask(i), k);
    MaskBit(i % ELEM_BITS, k);
  }

  lemma ClearedBits(w: Word, i: nat, k: nat)
    requires k < ELEM_BITS
    ensures Bit(Cleared(w, i), k) == (k != i % ELEM_BITS && Bit(w, k))
  {
    MaskFits(i % ELEM_BITS);
    AndBit(w, Not(BitMask(i)), k);
    NotBits(BitMask(i), ELEM_BITS, k);
    MaskBit(i % ELEM_BITS, k);
  }

  lemma TestBit(w: Word, i: nat)
    ensures And(w, BitMask(i)) != 0 <==> Bit(w, i % ELEM_BITS)
  {
    var k := i % ELEM_BITS;
    AndBit(w, BitMask(i), k);
    MaskBit(k, k);
    if And(w, BitMask(i)) != 0 {
      OnlyBit(w, k);
    } else {
      ZeroBit(k);
    }
  }

  lemma OnlyBit(w: nat, k: nat)
    ensures And(w, Pow2(k)) == if Bit(w, k) then Pow2(k) else 0
    decreases k
  {
    if k > 0 && w != 0 { OnlyBit(w / 2, k - 1); }
    if w == 0 { ZeroBit(k); }
  }

  // ---------------------------------------------------------------- what the words stand for

  function ElemCnt(bitCnt: nat): (n: nat) { (bitCnt + ELEM_BITS - 1) / ELEM_BITS }

  function BitsOf(words: seq<Word>, bitCnt: nat): (b: seq<bool>)
    requires |words| == ElemCnt(bitCnt)
    ensures |b| == bitCnt
  {
    seq(bitCnt, i requires 0 <= i < bitCnt => Bit(words[i / ELEM_BITS], i % ELEM_BITS))
  }

  predicate AllAre(b: seq<bool>, start: nat, cnt: nat, value: bool)
    requires start + cnt <= |b|
  {
    forall k :: start <= k < start + cnt ==> b[k] == value
  }

  function SetRange(b: seq<bool>, start: nat, cnt: nat, value: bool): (c: seq<bool>)
    requires start + cnt <= |b|
    ensures |c| == |b|
    ensures forall k :: 0 <= k < |b| ==> c[k] == if start <= k < start + cnt then value else b[k]
  {
    b[..start] + seq(cnt, _ => value) + b[start + cnt..]
  }

  predicate Fits(b: seq<bool>, i: nat, cnt: nat, value: bool) { i + cnt <= |b| && AllAre(b, i, cnt, value) }

  function FirstFit(b: seq<bool>, start: nat, cnt: nat, value: bool): (r: Option<nat>)
    decreases |b| - start
  {
    if start + cnt > |b| then None
    else if AllAre(b, start, cnt, value) then Some(start)
    else FirstFit(b, start + 1, cnt, value)
  }

  /** The group found is the lowest one at or after start, and none is found only when there is none. */
  lemma FirstFitIsLowest(b: seq<bool>, start: nat, cnt: nat, value: bool)
    ensures match FirstFit(b, start, cnt, value)
      case None => forall i :: start <= i ==> !Fits(b, i, cnt, value)
      case Some(r) => start <= r && Fits(b, r, cnt, value) && forall i :: start <= i < r ==> !Fits(b, i, cnt, value)
    decreases |b| - start
  {
    if start + cnt <= |b| && !AllAre(b, start, cnt, value) {
      FirstFitIsLowest(b, start + 1, cnt, value);
      assert !Fits(b, start, cnt, value);
    }
  }

  /** Asked for no bits at all, the scan answers start, whatever the bits are. */
  lemma EmptyGroup(b: seq<bool>, start: nat, value: bool)
    requires start <= |b|
    ensures FirstFit(b, start, 0, value) == Some(start)
  {
    assert AllAre(b, start, 0, value);
  }

  // ---------------------------------------------------------------- the bitmap

  class Bitmap {
    const bitCnt: nat
    const bits: array<Word>

    ghost predicate Valid() { bits.Length == ElemCnt(bitCnt) }

    ghost function Bits(): (b: seq<bool>)
      requires Valid()
      reads bits
      ensures |b| == bitCnt
    {
      BitsOf(bits[..], bitCnt)
    }

    constructor (bitCnt: nat)
      ensures Valid() && fresh(bits) && this.bitCnt == bitCnt
      ensures AllAre(Bits(), 0, bitCnt, false)
    {
      this.bitCnt := bitCnt;
      bits := new Word[ElemCnt(bitCnt)];
      new;
      SetMultiple(0, bitCnt, false);
    }

    method Mark(bitIdx: nat)
      requires Valid() && bitIdx < bitCnt
      modifies bits
      ensures Bits() == old(Bits())[bitIdx := true]
    {
      var idx := bitIdx / ELEM_BITS;
      ghost var was := bits[..];
      bits[idx] := Marked(bits[idx], bitIdx);
      MarkedOne(was, bitCnt, bitIdx);
      assert bits[..] == was[idx := Marked(was[idx], bitIdx)];
    }

    method Reset(bitIdx: nat)
      requires Valid() && bitIdx < bitCnt
      modifies bits
      ensures Bits() == old(Bits())[bitIdx := false]
    {
      var idx := bitIdx / ELEM_BITS;
      ghost var was := bits[..];
      bits[idx] := Cleared(bits[idx], bitIdx);
      ClearedOne(was, bitCnt, bitIdx);
      assert bits[..] == was[idx := Cleared(was[idx], bitIdx)];
    }

    /** bitmap_read, of the bytes of a file of the right size: the bits past the end of the bitmap are dropped. */
    method Read(image: seq<Byte>)
      requires Valid() && |image| == 4 * bits.Length
      modifies bits
      ensures Bits() == Decoded(image, bitCnt)
    {
      hide BitsOf, Masked, Restored, And, LastMask;
      if bitCnt == 0 {
        NoBits(bits[..], Restored(image));
        return;
      }
      ghost var words := Restored(image);
      var i := 0;
      while i < bits.Length
        invariant i <= bits.Length && bits[..i] == words[..i]
      {
        RestoredAt(image, i);
        bits[i] := WordOf(image[4 * i], image[4 * i + 1], image[4 * i + 2], image[4 * i + 3]);
        i := i + 1;
      }
      assert bits[..] == words;
      MaskedLast(words, bitCnt);
      bits[bits.Length - 1] := And(bits[bits.Length - 1], LastMask(bitCnt));
      assert bits[..] == Masked(words, bitCnt);
      MaskedBits(words, bitCnt);
    }

    method Test(idx: nat) returns (r: bool)
      requires Valid() && idx < bitCnt
      ensures r == Bits()[idx]
    {
      TestBit(bits[idx / ELEM_BITS], idx);
      r := And(bits[idx / ELEM_BITS], BitMask(idx)) != 0;
    }

    method SetMultiple(start: nat, cnt: nat, value: bool)
      requires Valid() && start + cnt <= bitCnt
      modifies bits
      ensures Bits() == SetRange(old(Bits()), start, cnt, value)
    {
      hide BitsOf, ElemCnt, Bits;
      var i := 0;
      while i < cnt
        invariant i <= cnt
        invariant forall k :: 0 <= k < bitCnt ==> Bits()[k] == if start <= k < start + i then value else old(Bits())[k]
      {
        if value { Mark(start + i); } else { Reset(start + i); }
        i := i + 1;
      }
    }

    method Contains(start: nat, cnt: nat, value: bool) returns (r: bool)
      requires Valid() && start + cnt <= bitCnt
      ensures r <==> !AllAre(Bits(), start, cnt, !value)
    {
      var i := 0;
      while i < cnt
        invariant i <= cnt
        invariant AllAre(Bits(), start, i, !value)
      {
        var bit := Test(start + i);
        if bit == value {
          assert Bits()[start + i] == value;
          return true;
        }
        i := i + 1;
      }
      return false;
    }

    method Scan(start: nat, cnt: nat, value: bool) returns (r: Option<nat>)
      requires Valid() && start <= bitCnt
      ensures r == FirstFit(Bits(), start, cnt, value)
    {
      if cnt <= bitCnt {
        var last := bitCnt - cnt;
        var i := start;
        while i <= last
          invariant start <= i
          invariant FirstFit(Bits(), start, cnt, value) == FirstFit(Bits(), i, cnt, value)
        {
          var other := Contains(i, cnt, !value);
          if !other { return Some(i); }
          i := i + 1;
        }
      }
      return None;
    }

    method ScanAndFlip(start: nat, cnt: nat, value: bool) returns (r: Option<nat>)
      requires Valid() && start <= bitCnt
      modifies bits
      ensures r == FirstFit(old(Bits()), start, cnt, value)
      ensures r.Some? ==> r.value + cnt <= bitCnt
      ensures Bits() == if r.None? then old(Bits()) else SetRange(old(Bits()), r.value, cnt, !value)
      ensures r.None? ==> bits[..] == old(bits[..])
    {
      r := Scan(start, cnt, value);
      FirstFitIsLowest(Bits(), start, cnt, value);
      if r.Some? { SetMultiple(r.value, cnt, !value); }
    }
  }

  lemma MarkedOne(words: seq<Word>, n: nat, i: nat)
    requires |words| == ElemCnt(n) && i < n
    ensures BitsOf(words[i / ELEM_BITS := Marked(words[i / ELEM_BITS], i)], n) == BitsOf(words, n)[i := true]
  {
    var now, b := BitsOf(words[i / ELEM_BITS := Marked(words[i / ELEM_BITS], i)], n), BitsOf(words, n)[i := true];
    forall k | 0 <= k < n
      ensures now[k] == b[k]
    {
      hide Marked, Bit;
      MarkedBits(words[i / ELEM_BITS], i, k % ELEM_BITS);
    }
  }

  lemma ClearedOne(words: seq<Word>, n: nat, i: nat)
    requires |words| == ElemCnt(n) && i < n
    ensures BitsOf(words[i / ELEM_BITS := Cleared(words[i / ELEM_BITS], i)], n) == BitsOf(words, n)[i := false]
  {
    var now, b := BitsOf(words[i / ELEM_BITS := Cleared(words[i / ELEM_BITS], i)], n), BitsOf(words, n)[i := false];
    forall k | 0 <= k < n
      ensures now[k] == b[k]
    {
      hide Cleared, Bit;
      ClearedBits(words[i / ELEM_BITS], i, k % ELEM_BITS);
    }
  }

  // ---------------------------------------------------------------- the bitmap in a file

  function FileImage(words: seq<Word>): (image: seq<Byte>)
    ensures |image| == 4 * |words|
  {
    seq(4 * |words|, p requires 0 <= p < 4 * |words| => ByteOf(words[p / 4], p % 4))
  }

  function Restored(image: seq<Byte>): (words: seq<Word>)
    ensures |words| == |image| / 4
  {
    seq(|image| / 4, i requires 0 <= i < |image| / 4 =>
      WordOf(image[4 * i], image[4 * i + 1], image[4 * i + 2], image[4 * i + 3]))
  }

  /** The bits of the last word that the bitmap uses. */
  function LastMask(bitCnt: nat): (m: Word)
  {
    MaskFits(bitCnt % ELEM_BITS);
    if bitCnt % ELEM_BITS != 0 then Pow2(bitCnt % ELEM_BITS) - 1 else BASE - 1
  }

  function Masked(words: seq<Word>, bitCnt: nat): (r: seq<Word>)
    requires |words| == ElemCnt(bitCnt)
    ensures |r| == |words|
  {
    if bitCnt == 0 then words else
      MaskFits(0);
      AndBelow(words[|words| - 1], LastMask(bitCnt), ELEM_BITS);
      words[|words| - 1 := And(words[|words| - 1], LastMask(bitCnt))]
  }

  lemma MaskedLast(words: seq<Word>, bitCnt: nat)
    requires |words| == ElemCnt(bitCnt) && bitCnt > 0
    ensures |words| > 0 && And(words[|words| - 1], LastMask(bitCnt)) < BASE
    ensures Masked(words, bitCnt) == words[|words| - 1 := And(words[|words| - 1], LastMask(bitCnt))]
  {
    MaskFits(0);
    AndBelow(words[|words| - 1], LastMask(bitCnt), ELEM_BITS);
  }

  lemma NoBits(x: seq<Word>, y: seq<Word>)
    requires |x| == ElemCnt(0) && |y| == ElemCnt(0)
    ensures BitsOf(x, 0) == BitsOf(y, 0)
  {
  }

  lemma RestoredImage(words: seq<Word>)
    ensures Restored(FileImage(words)) == words
  {
    var image := FileImage(words);
    forall i | 0 <= i < |words|
      ensures Restored(image)[i] == words[i]
    {
      hide ByteOf, WordOf, FileImage, Restored;
      RestoredAt(image, i);
      WordOfItsBytes(words[i]);
      ImageAt(words, i, 0);
      ImageAt(words, i, 1);
      ImageAt(words, i, 2);
      ImageAt(words, i, 3);
    }
  }

  lemma RestoredAt(image: seq<Byte>, i: nat)
    requires i < |image| / 4
    ensures Restored(image)[i] == WordOf(image[4 * i], image[4 * i + 1], image[4 * i + 2], image[4 * i + 3])
  {
  }

  lemma ImageAt(words: seq<Word>, i: nat, k: nat)
    requires i < |words| && k < 4
    ensures FileImage(words)[4 * i + k] == ByteOf(words[i], k)
  {
    assert (4 * i + k) / 4 == i && (4 * i + k) % 4 == k;
  }

  /** Masking the last word loses no bit of the bitmap. */
  lemma MaskedBits(words: seq<Word>, bitCnt: nat)
    requires |words| == ElemCnt(bitCnt)
    ensures BitsOf(Masked(words, bitCnt), bitCnt) == BitsOf(words, bitCnt)
  {
    var b, c := BitsOf(Masked(words, bitCnt), bitCnt), BitsOf(words, bitCnt);
    forall k | 0 <= k < bitCnt
      ensures b[k] == c[k]
    {
      if k / ELEM_BITS == |words| - 1 {
        var used := if bitCnt % ELEM_BITS != 0 then bitCnt % ELEM_BITS else ELEM_BITS;
        MaskFits(0);
        NotBits(0, used, k % ELEM_BITS);
        ZeroBit(k % ELEM_BITS);
        AndBit(words[|words| - 1], LastMask(bitCnt), k % ELEM_BITS);
      }
    }
  }

  /** What the bytes of a file say about bitCnt bits. */
  function Decoded(image: seq<Byte>, bitCnt: nat): (b: seq<bool>)
    requires |image| == 4 * ElemCnt(bitCnt)
    ensures |b| == bitCnt
  {
    BitsOf(Restored(image), bitCnt)
  }

  /** A bitmap written to its file can be read back. */
  lemma DecodedImage(words: seq<Word>, bitCnt: nat)
    requires |words| == ElemCnt(bitCnt)
    ensures Decoded(FileImage(words), bitCnt) == BitsOf(words, bitCnt)
  {
    RestoredImage(words);
  }
}
