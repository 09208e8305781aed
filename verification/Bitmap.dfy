/** Allocation bitmaps as the source keeps them: bit i of a bitmap is bit i % 8 of byte i / 8. */
module Bitmap {
  import opened Arith

  function Mask(k: nat): (m: bv8)
    requires k < 8
    ensures m != 0
  {
    if k == 0 then 1 else if k == 1 then 2 else if k == 2 then 4 else if k == 3 then 8
    else if k == 4 then 16 else if k == 5 then 32 else if k == 6 then 64 else 128
  }

  predicate BitAt(b: bv8, k: nat)
    requires k < 8
  {
    b & Mask(k) != 0
  }

  predicate Bit(s: seq<bv8>, i: nat)
    requires i < 8 * |s|
  {
    BitAt(s[i / 8], i % 8)
  }

  // ----- bits as digits

  /** Two to the power of k. */
  function Pow2(k: nat): (p: nat)
    ensures p > 0
  {
    if k == 0 then 1 else 2 * Pow2(k - 1)
  }

  /** Digit k of a number in base two. */
  predicate Digit(x: nat, k: nat) { x / Pow2(k) % 2 == 1 }

  /** The number with these digits, the lowest first. */
  function Value(bits: seq<bool>): nat {
    if bits == [] then 0 else (if bits[0] then 1 else 0) + 2 * Value(bits[1..])
  }

  lemma {:induction false} ValueDigit(bits: seq<bool>, k: nat)
    requires k < |bits|
    ensures Digit(Value(bits), k) <==> bits[k]
  {
    var x, rest := Value(bits), Value(bits[1..]);
    if k > 0 {
      ValueDigit(bits[1..], k - 1);
      assert x / 2 == rest;
      DivTwice(x, Pow2(k - 1));
    }
  }

  lemma {:induction false} DivTwice(x: nat, p: nat)
    requires p > 0
    ensures x / (2 * p) == x / 2 / p
  {
    var q, r := x / 2 / p, x / 2 % p;
    assert x / 2 == q * p + r;
    assert x == q * (2 * p) + (2 * r + x % 2);
    DivMod(q, 2 * p, 2 * r + x % 2);
  }

  lemma {:induction false} ValueChange(bits: seq<bool>, k: nat, v: bool)
    requires k < |bits|
    ensures var x, y := Value(bits), Value(bits[k := v]);
            y == if bits[k] == v then x else if v then x + Pow2(k) else x - Pow2(k)
  {
    if k > 0 {
      ValueChange(bits[1..], k - 1, v);
      assert bits[k := v][1..] == bits[1..][k - 1 := v];
    } else {
      assert bits[k := v][1..] == bits[1..];
    }
  }

  function Bits(b: bv8): (s: seq<bool>)
    ensures |s| == 8 && forall k :: 0 <= k < 8 ==> s[k] == BitAt(b, k)
  {
    seq(8, k requires 0 <= k < 8 => BitAt(b, k))
  }

  function One(v: bool): nat { if v then 1 else 0 }

  lemma {:induction false} EightDigits(s: seq<bool>)
    requires |s| == 8
    ensures Value(s) == One(s[0]) + 2 * One(s[1]) + 4 * One(s[2]) + 8 * One(s[3])
                      + 16 * One(s[4]) + 32 * One(s[5]) + 64 * One(s[6]) + 128 * One(s[7])
  {
    hide One;
    assert Value(s[4..]) == One(s[4]) + 2 * One(s[5]) + 4 * One(s[6]) + 8 * One(s[7]) by { FourDigits(s[4..]); }
    assert Value(s) == One(s[0]) + 2 * One(s[1]) + 4 * One(s[2]) + 8 * One(s[3]) + 16 * Value(s[4..]) by { FourDigits(s); }
  }

  lemma {:induction false} FourDigits(s: seq<bool>)
    requires |s| >= 4
    ensures Value(s) == One(s[0]) + 2 * One(s[1]) + 4 * One(s[2]) + 8 * One(s[3]) + 16 * Value(s[4..])
  {
    var a, b, c := s[1..], s[2..], s[3..];
    assert a[1..] == b && b[1..] == c && c[1..] == s[4..];
    assert Value(a) == One(s[1]) + 2 * Value(b) && Value(b) == One(s[2]) + 2 * Value(c) && Value(c) == One(s[3]) + 2 * Value(s[4..]);
  }

  /** A byte is the number that has its bits as digits. */
  lemma {:induction false} ByteValue(b: bv8)
    ensures b as nat == Value(Bits(b))
  {
    hide Value, Bits, BitAt, One;
    ByteSum(b);
    EightDigits(Bits(b));
  }

  lemma {:induction false} ByteSum(b: bv8)
    ensures var s := Bits(b);
            b as nat == One(s[0]) + 2 * One(s[1]) + 4 * One(s[2]) + 8 * One(s[3]) + 16 * One(s[4]) + 32 * One(s[5]) + 64 * One(s[6]) + 128 * One(s[7])
  {}

  lemma {:induction false} BitIsDigit(b: bv8, k: nat)
    requires k < 8
    ensures BitAt(b, k) <==> Digit(b as nat, k)
  {
    hide BitAt, Digit, Value;
    ByteValue(b);
    ValueDigit(Bits(b), k);
  }

  /** Changing bit k changes the byte's value by two to the power of k, or not at all. */
  lemma {:induction false} WriteValue(b: bv8, k: nat, v: bool)
    requires k < 8
    ensures var x, y := b as nat, Write(b, k, v) as nat;
            y == if Digit(x, k) == v then x else if v then x + Pow2(k) else x - Pow2(k)
  {
    hide BitAt, Write, Digit, Value, Pow2;
    BitIsDigit(b, k);
    ByteValue(b);
    ByteValue(Write(b, k, v));
    forall j | 0 <= j < 8 ensures Bits(Write(b, k, v))[j] == Bits(b)[k := v][j] { WriteBit(b, j, k, v); }
    assert Bits(Write(b, k, v)) == Bits(b)[k := v];
    ValueChange(Bits(b), k, v);
  }

  /** Bit i of a bitmap is digit i % 8 of byte i / 8. */
  lemma {:induction false} BitmapDigit(s: seq<bv8>, i: nat)
    requires i < 8 * |s|
    ensures Bit(s, i) <==> Digit(s[i / 8] as nat, i % 8)
    ensures Digit(s[i / 8] as nat, i % 8) <==> s[i / 8] as nat / Pow2(i % 8) % 2 == 1
  {
    hide BitAt;
    BitIsDigit(s[i / 8], i % 8);
  }

  lemma {:induction false} MasksApart(j: nat, k: nat)
    requires j < 8 && k < 8 && j != k
    ensures Mask(j) & Mask(k) == 0
  {}

  lemma {:induction false} SameMask(b: bv8, m: bv8)
    requires m != 0
    ensures (b | m) & m != 0 && (b & !m) & m == 0
  {
    assert (b | m) & m == m;
  }

  lemma {:induction false} OtherMask(b: bv8, m: bv8, n: bv8)
    requires m & n == 0
    ensures (b | m) & n == b & n && (b & !m) & n == b & n
  {}

  lemma {:induction false} OneBit(b: bv8, j: nat, k: nat)
    requires j < 8 && k < 8
    ensures (b | Mask(k)) & Mask(j) != 0 <==> j == k || b & Mask(j) != 0
    ensures (b & !Mask(k)) & Mask(j) != 0 <==> j != k && b & Mask(j) != 0
  {
    hide Mask;
    var m, n := Mask(k), Mask(j);
    if j == k {
      SameMask(b, m);
    } else {
      MasksApart(k, j);
      OtherMask(b, m, n);
    }
  }

  /** t is s but for bit i, which has value v. */
  ghost predicate BitChanged(s: seq<bv8>, t: seq<bv8>, i: nat, v: bool) {
    |t| == |s| && i < 8 * |s| && Bit(t, i) == v &&
    forall j: nat :: j < 8 * |s| && j != i ==> Bit(t, j) == Bit(s, j)
  }

  function Write(b: bv8, k: nat, v: bool): bv8
    requires k < 8
  {
    if v then b | Mask(k) else b & !Mask(k)
  }

  lemma {:induction false} WriteBit(b: bv8, j: nat, k: nat, v: bool)
    requires j < 8 && k < 8
    ensures BitAt(Write(b, k, v), j) == if j == k then v else BitAt(b, j)
  {
    hide Mask;
    OneBit(b, j, k);
  }

  lemma {:induction false} SameByte(i: nat, j: nat)
    requires i / 8 == j / 8 && i % 8 == j % 8
    ensures i == j
  {}

  lemma {:induction false} BitAfter(s: seq<bv8>, t: seq<bv8>, i: nat, j: nat, v: bool)
    requires i < 8 * |s| && j < 8 * |s| && t == s[i / 8 := Write(s[i / 8], i % 8, v)]
    ensures Bit(t, j) == if j == i then v else Bit(s, j)
  {
    hide Mask, Write, BitAt;
    if j / 8 == i / 8 {
      WriteBit(s[i / 8], j % 8, i % 8, v);
      if j % 8 == i % 8 { SameByte(i, j); }
    }
  }

  lemma {:induction false} ByteChanged(s: seq<bv8>, t: seq<bv8>, i: nat, v: bool)
    requires i < 8 * |s| && t == s[i / 8 := Write(s[i / 8], i % 8, v)]
    ensures BitChanged(s, t, i, v)
  {
    hide Bit, Write;
    BitAfter(s, t, i, i, v);
    forall j: nat | j < 8 * |s| && j != i ensures Bit(t, j) == Bit(s, j) {
      BitAfter(s, t, i, j, v);
    }
  }

  method BitSet(bmap: array<bv8>, bit: nat)
    requires bit < 8 * bmap.Length
    modifies bmap
    ensures BitChanged(old(bmap[..]), bmap[..], bit, true)
    ensures var x := old(bmap[bit / 8]) as nat;
            bmap[bit / 8] as nat == (if Digit(x, bit % 8) then x else x + Pow2(bit % 8)) && bmap[..] == old(bmap[..])[bit / 8 := bmap[bit / 8]]
  {
    hide BitChanged, Write, Digit, Pow2;
    ghost var s := bmap[..];
    WriteValue(bmap[bit / 8], bit % 8, true);
    bmap[bit / 8] := Write(bmap[bit / 8], bit % 8, true);
    ByteChanged(s, bmap[..], bit, true);
  }

  method BitClr(bmap: array<bv8>, bit: nat)
    requires bit < 8 * bmap.Length
    modifies bmap
    ensures BitChanged(old(bmap[..]), bmap[..], bit, false)
    ensures var x := old(bmap[bit / 8]) as nat;
            bmap[bit / 8] as nat == (if Digit(x, bit % 8) then x - Pow2(bit % 8) else x) && bmap[..] == old(bmap[..])[bit / 8 := bmap[bit / 8]]
  {
    hide BitChanged, Write, Digit, Pow2;
    ghost var s := bmap[..];
    WriteValue(bmap[bit / 8], bit % 8, false);
    bmap[bit / 8] := Write(bmap[bit / 8], bit % 8, false);
    ByteChanged(s, bmap[..], bit, false);
  }

  method IsBitClr(bmap: array<bv8>, bit: nat) returns (clear: bool)
    requires bit < 8 * bmap.Length
    ensures clear <==> !Bit(bmap[..], bit)
    ensures clear <==> !Digit(bmap[bit / 8] as nat, bit % 8)
  {
    BitIsDigit(bmap[bit / 8], bit % 8);
    clear := !BitAt(bmap[bit / 8], bit % 8);
  }

  // ----- freeing a range

  /** t is s with the bits [lo, hi) cleared. */
  ghost predicate Freed(s: seq<bv8>, t: seq<bv8>, lo: nat, hi: nat) {
    |t| == |s| && forall j: nat :: j < 8 * |s| ==> (Bit(t, j) <==> Bit(s, j) && !(lo <= j < hi))
  }

  lemma {:induction false} ZeroBits(k: nat)
    requires k < 8
    ensures !BitAt(0, k) && BitAt(0xFF, k)
  {}

  lemma {:induction false} FreeByte(s: seq<bv8>, t: seq<bv8>, p: nat)
    requires p < |s| && t == s[p := 0]
    ensures Freed(s, t, 8 * p, 8 * p + 8)
  {
    hide BitAt;
    forall j: nat | j < 8 * |s| ensures Bit(t, j) <==> Bit(s, j) && !(8 * p <= j < 8 * p + 8) {
      ZeroBits(j % 8);
    }
  }

  lemma {:induction false} FreeBit(s: seq<bv8>, t: seq<bv8>, u: seq<bv8>, lo: nat, i: nat)
    requires Freed(s, t, lo, i) && BitChanged(t, u, i, false) && lo <= i
    ensures Freed(s, u, lo, i + 1)
  {
    hide Bit;
  }

  lemma {:induction false} FreeMore(s: seq<bv8>, t: seq<bv8>, u: seq<bv8>, lo: nat, mid: nat, hi: nat)
    requires Freed(s, t, lo, mid) && Freed(t, u, mid, hi) && lo <= mid <= hi
    ensures Freed(s, u, lo, hi)
  {
    hide Bit;
  }

  /** ext4_bmap_bits_free: exactly the bits [sbit, sbit + bcnt) are cleared. */
  method BitsFree(bmap: array<bv8>, sbit: nat, bcnt: nat)
    requires sbit + bcnt <= 8 * bmap.Length
    modifies bmap
    ensures Freed(old(bmap[..]), bmap[..], sbit, sbit + bcnt)
  {
    hide Bit, BitChanged, Freed;
    ghost var s := bmap[..];
    FreedNone(s, sbit);
    var i: nat, left: nat := sbit, bcnt;
    while i % 8 != 0
      invariant i + left == sbit + bcnt && sbit <= i <= 8 * bmap.Length
      invariant Freed(s, bmap[..], sbit, i)
      decreases left
    {
      if left == 0 {
        return;
      }
      ghost var t := bmap[..];
      BitClr(bmap, i);
      FreeBit(s, t, bmap[..], sbit, i);
      left := left - 1;
      i := i + 1;
    }
    var p := i / 8;
    while left >= 8
      invariant 8 * p + left == sbit + bcnt && sbit <= 8 * p
      invariant Freed(s, bmap[..], sbit, 8 * p)
      decreases left
    {
      ghost var t := bmap[..];
      bmap[p] := 0;
      FreeByte(t, bmap[..], p);
      FreeMore(s, t, bmap[..], sbit, 8 * p, 8 * p + 8);
      p := p + 1;
      left := left - 8;
    }
    var k := 0;
    while k < left
      invariant k <= left && Freed(s, bmap[..], sbit, 8 * p + k)
    {
      ghost var t := bmap[..];
      BitClr(bmap, 8 * p + k);
      FreeBit(s, t, bmap[..], sbit, 8 * p + k);
      k := k + 1;
    }
  }

  lemma {:induction false} FreedNone(s: seq<bv8>, i: nat)
    ensures Freed(s, s, i, i)
  {}

  // ----- searching for a clear bit

  ghost predicate AllSet(s: seq<bv8>, lo: nat, hi: nat) {
    hi <= 8 * |s| && forall j: nat :: lo <= j < hi ==> Bit(s, j)
  }

  /** f is the first clear bit in [lo, hi). */
  ghost predicate FirstClear(s: seq<bv8>, lo: nat, hi: nat, f: nat) {
    lo <= f < hi <= 8 * |s| && !Bit(s, f) && AllSet(s, lo, f)
  }

  /** The next multiple of 8. */
  function Up8(i: nat): nat { (i + 7) / 8 * 8 }

  lemma {:induction false} MoreSet(s: seq<bv8>, lo: nat, i: nat)
    requires AllSet(s, lo, i) && i < 8 * |s| && Bit(s, i)
    ensures AllSet(s, lo, i + 1)
  {
    hide Bit;
  }

  lemma {:induction false} FullByte(s: seq<bv8>, lo: nat, p: nat)
    requires AllSet(s, lo, 8 * p) && p < |s| && s[p] == 0xFF
    ensures AllSet(s, lo, 8 * p + 8)
  {
    hide BitAt;
    forall j: nat | lo <= j < 8 * p + 8 ensures Bit(s, j) {
      ZeroBits(j % 8);
    }
  }

  /** ext4_bmap_bit_find_clr: it fails exactly when no bit of [sbit, ebit) is clear; otherwise it
      meets the first clear bit f, and answers with f unless f lies before the first multiple of
      8, when it answers with sbit. */
  method BitFindClr(bmap: array<bv8>, sbit: nat, ebit: nat) returns (found: bool, bitId: nat, ghost f: nat)
    requires sbit <= ebit <= 8 * bmap.Length
    ensures !found ==> AllSet(bmap[..], sbit, ebit)
    ensures found ==> FirstClear(bmap[..], sbit, ebit, f) && bitId == Answer(sbit, f)
  {
    hide Bit, AllSet, Digit;
    SetNone(bmap[..], sbit);
    var i: nat, left: nat := sbit, ebit - sbit;
    while i % 8 != 0
      invariant i + left == ebit && sbit <= i <= Up8(sbit)
      invariant AllSet(bmap[..], sbit, i)
      decreases left
    {
      if left == 0 {
        return false, 0, 0;
      }
      var clear := IsBitClr(bmap, i);
      if clear {
        return true, sbit, i;
      }
      MoreSet(bmap[..], sbit, i);
      i := i + 1;
      left := left - 1;
    }
    var p := i / 8;
    while left >= 8
      invariant 8 * p + left == ebit && Up8(sbit) <= 8 * p
      invariant AllSet(bmap[..], sbit, 8 * p)
      decreases left
    {
      if bmap[p] != 0xFF {
        var k := 0;
        while k < 8
          invariant k <= 8 && AllSet(bmap[..], sbit, 8 * p + k)
        {
          var clear := IsBitClr(bmap, 8 * p + k);
          if clear {
            return true, 8 * p + k, 8 * p + k;
          }
          MoreSet(bmap[..], sbit, 8 * p + k);
          k := k + 1;
        }
      } else {
        FullByte(bmap[..], sbit, p);
      }
      p := p + 1;
      left := left - 8;
    }
    var k := 0;
    while k < left
      invariant k <= left && AllSet(bmap[..], sbit, 8 * p + k)
    {
      var clear := IsBitClr(bmap, 8 * p + k);
      if clear {
        return true, 8 * p + k, 8 * p + k;
      }
      MoreSet(bmap[..], sbit, 8 * p + k);
      k := k + 1;
    }
    return false, 0, 0;
  }

  lemma {:induction false} SetNone(s: seq<bv8>, i: nat)
    requires i <= 8 * |s|
    ensures AllSet(s, i, i)
  {}

  /** What the search answers when f is the first clear bit from sbit on. */
  function Answer(sbit: nat, f: nat): nat { if f < Up8(sbit) then sbit else f }

  /** The answer is a clear bit exactly when the start is clear itself or every bit before the
      next multiple of 8 is set. */
  lemma {:induction false} AnswerIsClear(s: seq<bv8>, sbit: nat, ebit: nat, f: nat)
    requires FirstClear(s, sbit, ebit, f)
    ensures !Bit(s, Answer(sbit, f))
       <==> (!Bit(s, sbit) || forall j: nat :: sbit <= j < Up8(sbit) && j < ebit ==> Bit(s, j))
  {
    hide BitAt;
  }

  /** Bits 0 and 1 are taken and bit 2 is free: a search from bit 1 answers 1. */
  lemma {:induction false} AnswerCanBeTaken()
    ensures var s: seq<bv8> := [3]; FirstClear(s, 1, 8, 2) && Answer(1, 2) == 1 && Bit(s, 1)
  {
    var s: seq<bv8> := [3];
    assert BitAt(3, 1) && !BitAt(3, 2);
    assert Bit(s, 1) && !Bit(s, 2);
  }
}
