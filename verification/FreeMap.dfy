/** The free blocks of a file system, read off its group bitmaps. */
module FreeMap {
  import opened Arith
  import opened Bitmap
  import opened BlockGroups

  ghost predicate MapsOk(g: Geo, maps: seq<seq<bv8>>) {
    g.Ok() && g.Covers(|maps|) && forall bg :: 0 <= bg < |maps| ==> |maps[bg]| == g.bs
  }

  /** Bits that stand for no block are set. */
  ghost predicate Padded(g: Geo, maps: seq<seq<bv8>>) {
    forall bg: nat, i: nat :: bg < |maps| && i < 8 * |maps[bg]| && !Bit(maps[bg], i) ==> g.Real(bg, i)
  }

  ghost predicate IsFree(g: Geo, maps: seq<seq<bv8>>, a: nat) {
    g.bpg > 0 && g.BgOf(a) < |maps| && g.IdxOf(a) < 8 * |maps[g.BgOf(a)]| && !Bit(maps[g.BgOf(a)], g.IdxOf(a))
  }

  ghost function FreeSet(g: Geo, maps: seq<seq<bv8>>): set<nat> {
    set a: nat | g.first <= a < g.total && IsFree(g, maps, a)
  }

  /** The free blocks of one group. */
  ghost function FreeIn(g: Geo, maps: seq<seq<bv8>>, bg: nat): set<nat>
    requires g.bpg > 0
  {
    set a | a in FreeSet(g, maps) && g.BgOf(a) == bg
  }

  /** A clear bit is a free block. */
  lemma {:induction false} ClearIsFree(g: Geo, maps: seq<seq<bv8>>, bg: nat, i: nat)
    requires MapsOk(g, maps) && Padded(g, maps) && bg < |maps| && i < 8 * g.bs && !Bit(maps[bg], i)
    ensures g.Real(bg, i)
    ensures g.AddrOf(i, bg) in FreeSet(g, maps) && g.AddrOf(i, bg) in FreeIn(g, maps, bg)
  {
    hide Geo.AddrOf, Geo.BgOf, Geo.IdxOf, Bit;
    AddrAt(g, bg, i);
  }

  /** A free block is a clear bit. */
  lemma {:induction false} FreeIsClear(g: Geo, maps: seq<seq<bv8>>, a: nat)
    requires MapsOk(g, maps) && g.first <= a < g.total
    ensures var bg, i := g.BgOf(a), g.IdxOf(a);
            bg < |maps| && i < 8 * g.bs && g.Real(bg, i) && g.AddrOf(i, bg) == a
            && (a in FreeSet(g, maps) <==> !Bit(maps[bg], i))
  {
    hide Geo.AddrOf, Geo.BgOf, Geo.IdxOf, Bit;
    PlaceOf(g, a);
    RealCovered(g, g.BgOf(a), g.IdxOf(a), |maps|);
    AddrAt(g, g.BgOf(a), g.IdxOf(a));
  }

  /** The bit of block a, counted from the first block, is 1. */
  predicate InUse(g: Geo, maps: seq<seq<bv8>>, a: nat)
    requires g.bpg > 0 && g.first <= a
  {
    var bg, i := (a - g.first) / g.bpg, (a - g.first) % g.bpg;
    bg < |maps| && i / 8 < |maps[bg]| && Digit(maps[bg][i / 8] as nat, i % 8)
  }

  /** The free blocks are those whose bits are 0. */
  lemma {:induction false} FreeIsZero(g: Geo, maps: seq<seq<bv8>>, a: nat)
    requires MapsOk(g, maps) && g.first <= a < g.total
    ensures a in FreeSet(g, maps) <==> !InUse(g, maps, a)
  {
    hide Geo.AddrOf, Geo.BgOf, Geo.IdxOf, Bit, IsFree, Digit;
    FreeIsClear(g, maps, a);
    PlaceOf(g, a);
    IdxSmall(g, a);
    var bg, i := g.BgOf(a), g.IdxOf(a);
    DivMod(bg, g.bpg, i);
    BitmapDigit(maps[bg], i);
  }

  /** A block that was taken: its bit was 0 and is 1. */
  lemma {:induction false} WasFree(g: Geo, m: seq<seq<bv8>>, m': seq<seq<bv8>>, a: nat)
    requires MapsOk(g, m) && MapsOk(g, m') && a in FreeSet(g, m) && a !in FreeSet(g, m')
    ensures g.first <= a < g.total && g.bpg > 0 && !InUse(g, m, a) && InUse(g, m', a)
  {
    hide IsFree, InUse;
    FreeIsZero(g, m, a);
    FreeIsZero(g, m', a);
  }

  /** One group's bitmap changed in one bit that stands for a block. */
  ghost predicate BlockChanged(g: Geo, maps: seq<seq<bv8>>, maps': seq<seq<bv8>>, bg: nat, i: nat, v: bool) {
    MapsOk(g, maps) && bg < |maps| && g.Real(bg, i) && i < 8 * g.bs && |maps'| == |maps| &&
    maps' == maps[bg := maps'[bg]] && BitChanged(maps[bg], maps'[bg], i, v)
  }

  lemma {:induction false} OthersSame(g: Geo, maps: seq<seq<bv8>>, maps': seq<seq<bv8>>, bg: nat, i: nat, v: bool, a: nat)
    requires BlockChanged(g, maps, maps', bg, i, v) && g.first <= a < g.total
    ensures IsFree(g, maps', a) == if a == g.AddrOf(i, bg) then !v else IsFree(g, maps, a)
  {
    hide Geo.AddrOf, Geo.BgOf, Geo.IdxOf, Bit;
    AddrAt(g, bg, i);
    PlaceOf(g, a);
    RealCovered(g, g.BgOf(a), g.IdxOf(a), |maps|);
  }

  /** Setting or clearing a block's bit takes that block out of the free set or puts it in. */
  lemma {:induction false} FreeSetAfter(g: Geo, maps: seq<seq<bv8>>, maps': seq<seq<bv8>>, bg: nat, i: nat, v: bool)
    requires BlockChanged(g, maps, maps', bg, i, v) && Padded(g, maps)
    ensures MapsOk(g, maps') && Padded(g, maps')
    ensures var a := g.AddrOf(i, bg);
            g.first <= a < g.total && g.BgOf(a) == bg
            && (a in FreeSet(g, maps) <==> !Bit(maps[bg], i))
            && FreeSet(g, maps') == (if v then FreeSet(g, maps) - {a} else FreeSet(g, maps) + {a})
            && forall k :: FreeIn(g, maps', k) == if k != bg then FreeIn(g, maps, k)
                                                 else if v then FreeIn(g, maps, k) - {a} else FreeIn(g, maps, k) + {a}
  {
    hide Geo.AddrOf, Geo.BgOf, Geo.IdxOf, Bit, IsFree;
    var a := g.AddrOf(i, bg);
    AddrAt(g, bg, i);
    FreeIsClear(g, maps, a);
    forall b: nat | g.first <= b < g.total ensures IsFree(g, maps', b) == if b == a then !v else IsFree(g, maps, b) {
      OthersSame(g, maps, maps', bg, i, v, b);
    }
  }

  /** A bitmap with every bit set. */
  predicate AllUsed(s: seq<bv8>) { forall i :: 0 <= i < |s| ==> s[i] == 0xFF }

  lemma {:induction false} UsedBits(s: seq<bv8>, i: nat)
    requires AllUsed(s) && i < 8 * |s|
    ensures Bit(s, i)
  {
    hide BitAt;
    ZeroBits(i % 8);
  }

  /** A file system in full use has no free block and no clear padding. */
  lemma {:induction false} FullDisk(g: Geo, maps: seq<seq<bv8>>)
    requires g.Ok() && g.Covers(|maps|) && forall bg :: 0 <= bg < |maps| ==> |maps[bg]| == g.bs && AllUsed(maps[bg])
    ensures MapsOk(g, maps) && Padded(g, maps) && FreeSet(g, maps) == {} && forall bg :: FreeIn(g, maps, bg) == {}
  {
    hide Geo.BgOf, Geo.IdxOf, Bit, AllUsed;
    forall bg: nat, i: nat | bg < |maps| && i < 8 * |maps[bg]| ensures Bit(maps[bg], i) {
      UsedBits(maps[bg], i);
    }
  }

  /** The bitmaps are different buffers. */
  ghost predicate Apart(maps: seq<array<bv8>>) {
    forall i, j :: 0 <= i < j < |maps| ==> maps[i] != maps[j]
  }

  method UsedMaps(bs: nat, n: nat) returns (bitmaps: seq<array<bv8>>)
    ensures |bitmaps| == n && fresh(bitmaps) && Apart(bitmaps)
    ensures forall i :: 0 <= i < n ==> bitmaps[i].Length == bs && AllUsed(bitmaps[i][..])
  {
    bitmaps := [];
    while |bitmaps| < n
      invariant |bitmaps| <= n && fresh(bitmaps) && Apart(bitmaps)
      invariant forall i :: 0 <= i < |bitmaps| ==> bitmaps[i].Length == bs && AllUsed(bitmaps[i][..])
    {
      var a := new bv8[bs](_ => 0xFF);
      bitmaps := bitmaps + [a];
    }
  }

  // ----- a run of blocks

  predicate InRun(b: nat, a: nat, n: nat) { a <= b < a + n }

  ghost function Blocks(a: nat, n: nat): set<nat> { set b: nat | a <= b < a + n && InRun(b, a, n) }

  /** Bits lo .. lo + n of one group's bitmap were cleared; all of them stand for blocks. */
  ghost predicate RunFreed(g: Geo, maps: seq<seq<bv8>>, maps': seq<seq<bv8>>, bg: nat, lo: nat, n: nat) {
    MapsOk(g, maps) && bg < |maps| && (n > 0 ==> g.Real(bg, lo + n - 1)) && |maps'| == |maps| &&
    maps' == maps[bg := maps'[bg]] && Freed(maps[bg], maps'[bg], lo, lo + n)
  }

  lemma {:induction false} RunMember(g: Geo, maps: seq<seq<bv8>>, maps': seq<seq<bv8>>, bg: nat, lo: nat, n: nat, a: nat)
    requires RunFreed(g, maps, maps', bg, lo, n) && g.first <= a < g.total
    ensures IsFree(g, maps', a) <==> IsFree(g, maps, a) || g.first + bg * g.bpg + lo <= a < g.first + bg * g.bpg + lo + n
    ensures g.first + bg * g.bpg + lo <= a < g.first + bg * g.bpg + lo + n ==> g.BgOf(a) == bg
  {
    hide Geo.BgOf, Geo.IdxOf, Bit;
    PlaceOf(g, a);
    RealCovered(g, g.BgOf(a), g.IdxOf(a), |maps|);
    var x := g.first + bg * g.bpg;
    if x + lo <= a < x + lo + n {
      PlaceIs(g, a, bg, a - x);
    }
  }

  lemma {:induction false} RunPadded(g: Geo, maps: seq<seq<bv8>>, maps': seq<seq<bv8>>, bg: nat, lo: nat, n: nat)
    requires RunFreed(g, maps, maps', bg, lo, n) && Padded(g, maps)
    ensures MapsOk(g, maps') && Padded(g, maps')
  {
    hide Bit;
  }

  /** Clearing the bits of a run of blocks adds exactly these blocks to the free set. */
  lemma {:induction false} RunAfter(g: Geo, maps: seq<seq<bv8>>, maps': seq<seq<bv8>>, bg: nat, lo: nat, n: nat)
    requires RunFreed(g, maps, maps', bg, lo, n) && Padded(g, maps)
    ensures MapsOk(g, maps') && Padded(g, maps')
    ensures var run := Blocks(g.first + bg * g.bpg + lo, n);
            FreeSet(g, maps') == FreeSet(g, maps) + run
            && forall k :: FreeIn(g, maps', k) == if k == bg then FreeIn(g, maps, k) + run else FreeIn(g, maps, k)
  {
    hide Geo.BgOf, Geo.IdxOf, Bit, IsFree, Padded, MapsOk;
    RunPadded(g, maps, maps', bg, lo, n);
    forall a: nat | g.first <= a < g.total
      ensures IsFree(g, maps', a) <==> IsFree(g, maps, a) || a in Blocks(g.first + bg * g.bpg + lo, n)
      ensures a in Blocks(g.first + bg * g.bpg + lo, n) ==> g.BgOf(a) == bg
    {
      RunMember(g, maps, maps', bg, lo, n, a);
    }
    var run := Blocks(g.first + bg * g.bpg + lo, n);
    assert forall a :: a in run ==> g.first <= a < g.total;
  }

  lemma {:induction false} BlocksCount(a: nat, n: nat)
    ensures |Blocks(a, n)| == n
  {
    if n > 0 {
      BlocksCount(a, n - 1);
      assert Blocks(a, n) == Blocks(a, n - 1) + {a + n - 1};
    }
  }

  lemma {:induction false} BlocksJoin(a: nat, m: nat, n: nat)
    ensures Blocks(a, m) + Blocks(a + m, n) == Blocks(a, m + n)
  {}

  // ----- counting

  ghost function Sum(s: seq<nat>): nat {
    if s == [] then 0 else Sum(s[..|s| - 1]) + s[|s| - 1]
  }

  /** The free blocks of the groups below n. */
  ghost function FreeBelow(g: Geo, maps: seq<seq<bv8>>, n: nat): set<nat>
    requires g.bpg > 0
  {
    set a | a in FreeSet(g, maps) && g.BgOf(a) < n
  }

  lemma {:induction false} SumIsFreeBelow(g: Geo, maps: seq<seq<bv8>>, counts: seq<nat>)
    requires MapsOk(g, maps) && forall bg :: 0 <= bg < |counts| ==> counts[bg] == |FreeIn(g, maps, bg)|
    ensures Sum(counts) == |FreeBelow(g, maps, |counts|)|
  {
    hide FreeSet;
    if counts == [] {
      assert FreeBelow(g, maps, 0) == {};
    } else {
      var n := |counts| - 1;
      SumIsFreeBelow(g, maps, counts[..n]);
      assert FreeBelow(g, maps, n + 1) == FreeBelow(g, maps, n) + FreeIn(g, maps, n);
    }
  }

  /** The group counters add up to the number of free blocks. */
  lemma {:induction false} GroupsAddUp(g: Geo, maps: seq<seq<bv8>>, counts: seq<nat>)
    requires MapsOk(g, maps) && |counts| == |maps|
    requires forall bg :: 0 <= bg < |counts| ==> counts[bg] == |FreeIn(g, maps, bg)|
    ensures Sum(counts) == |FreeSet(g, maps)|
  {
    hide IsFree, Geo.BgOf;
    SumIsFreeBelow(g, maps, counts);
    forall a | a in FreeSet(g, maps) ensures g.BgOf(a) < |maps| {
      FreeIsClear(g, maps, a);
    }
    assert FreeBelow(g, maps, |counts|) == FreeSet(g, maps);
  }
}
