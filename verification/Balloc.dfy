/** The block allocator: group bitmaps with free counters in the group descriptors, the
    superblock and the owning inode. */
module Balloc {
  import opened Bitmap
  import opened Arith
  import opened BlockGroups
  import opened FreeMap
  import InodeBlocks

  /** The inode whose blocks are allocated. */
  class InodeRef {
    var fields: InodeBlocks.Fields
    var dirty: bool
  }

  /** One bitmap for every group that the superblock counts. */
  ghost predicate BlockMaps(g: Geo, maps: seq<seq<bv8>>) {
    MapsOk(g, maps) && |maps| == g.GroupCnt()
  }

  /** The counters of groups and superblock equal the number of free blocks. */
  ghost predicate Counted(g: Geo, maps: seq<seq<bv8>>, freeCnt: seq<nat>, sbFree: nat) {
    BlockMaps(g, maps) && Padded(g, maps) && |freeCnt| == |maps| && sbFree == |FreeSet(g, maps)| &&
    forall bg :: 0 <= bg < |maps| ==> freeCnt[bg] == |FreeIn(g, maps, bg)|
  }

  ghost predicate LeastFrom(s: set<nat>, lo: nat, a: nat) {
    a in s && lo <= a && forall b :: b in s && lo <= b ==> a <= b
  }

  /** The block the allocator picks: the next free one of the goal's group, or else the first one
      of the next group, in cyclic order, that has any. */
  ghost predicate Chosen(g: Geo, maps: seq<seq<bv8>>, goal: nat, a: nat)
    requires g.bpg > 0 && g.GroupCnt() > 0
  {
    var bg := g.BgOf(goal);
    if exists b :: b in FreeIn(g, maps, bg) && goal <= b then LeastFrom(FreeIn(g, maps, bg), goal, a)
    else exists k: nat :: 1 <= k <= g.GroupCnt() && FirstWithFree(g, maps, bg, k)
                          && LeastFrom(FreeIn(g, maps, GroupAfter(g, bg, k)), 0, a)
  }

  /** The k-th group after bg, wrapping around. */
  function GroupAfter(g: Geo, bg: nat, k: nat): nat
    requires g.bpg > 0 && g.GroupCnt() > 0
  {
    (bg + k) % g.GroupCnt()
  }

  /** The groups after bg, up to but not including the k-th, have no free block. */
  ghost predicate FirstWithFree(g: Geo, maps: seq<seq<bv8>>, bg: nat, k: nat)
    requires g.bpg > 0 && g.GroupCnt() > 0
  {
    forall j: nat :: 1 <= j < k ==> FreeIn(g, maps, GroupAfter(g, bg, j)) == {}
  }

  lemma {:induction false} NoneFrom(g: Geo, maps: seq<seq<bv8>>, bg: nat, i: nat, goal: nat)
    requires BlockMaps(g, maps) && bg < |maps| && g.BlocksIn(bg) >= 0 && AllSet(maps[bg], i, g.BlocksIn(bg))
    requires g.BgOf(goal) == bg && g.IdxOf(goal) == i && goal < g.total
    ensures forall b :: b in FreeIn(g, maps, bg) ==> b < goal
  {
    hide Geo.AddrOf, Geo.BgOf, Geo.IdxOf, Geo.BlocksIn, Geo.GroupCnt, Bit, IsFree;
    BlocksInGroup(g, bg);
    forall b | b in FreeIn(g, maps, bg) ensures b < goal {
      FreeIsClear(g, maps, b);
      IdxOrder(g, b, goal);
    }
  }

  lemma {:induction false} IdxOrder(g: Geo, a: nat, b: nat)
    requires g.Ok() && g.BgOf(a) == g.BgOf(b) && g.first <= a < U32 && b < U32
    ensures b <= a ==> g.IdxOf(b) <= g.IdxOf(a)
    ensures g.IdxOf(b) < g.IdxOf(a) ==> b <= a
  {
    hide Geo.BgOf, Geo.IdxOf;
    PlaceValue(g, a);
    PlaceValue(g, b);
  }

  /** The search of another group from its first index. */
  lemma {:induction false} FirstOther(g: Geo, maps: seq<seq<bv8>>, bg: nat, f: nat)
    requires BlockMaps(g, maps) && Padded(g, maps) && bg < |maps| && g.BlocksIn(bg) >= 0
    requires FirstClear(maps[bg], 0, g.BlocksIn(bg), f)
    ensures LeastFrom(FreeIn(g, maps, bg), 0, g.AddrOf(f, bg)) && f < 8 * g.bs && !Bit(maps[bg], f)
  {
    hide Geo.AddrOf, Geo.BgOf, Geo.IdxOf, Geo.BlocksIn, Geo.GroupCnt, Bit, IsFree;
    ClearIsFree(g, maps, bg, f);
    var a := g.AddrOf(f, bg);
    AddrAt(g, bg, f);
    forall b | b in FreeIn(g, maps, bg) ensures a <= b {
      FreeIsClear(g, maps, b);
      PlaceOf(g, b);
      assert f <= g.IdxOf(b);
    }
  }

  lemma {:induction false} NoneOther(g: Geo, maps: seq<seq<bv8>>, bg: nat)
    requires BlockMaps(g, maps) && bg < |maps| && g.BlocksIn(bg) >= 0 && AllSet(maps[bg], 0, g.BlocksIn(bg))
    ensures FreeIn(g, maps, bg) == {}
  {
    hide Geo.AddrOf, Geo.BgOf, Geo.IdxOf, Geo.BlocksIn, Geo.GroupCnt, Bit, IsFree;
    BlocksInGroup(g, bg);
    if b :| b in FreeIn(g, maps, bg) {
      FreeIsClear(g, maps, b);
      assert false;
    }
  }

  lemma {:induction false} NoMembers(s: set<nat>)
    requires |s| == 0
    ensures s == {}
  {}

  lemma {:induction false} NoneFree(g: Geo, maps: seq<seq<bv8>>, freeCnt: seq<nat>, sbFree: nat, bg: nat)
    requires Counted(g, maps, freeCnt, sbFree) && bg < |maps| && freeCnt[bg] == 0
    ensures FreeIn(g, maps, bg) == {}
  {
    NoMembers(FreeIn(g, maps, bg));
  }

  lemma {:induction false} ClearAt(s: seq<bv8>, lo: nat, hi: nat, f: nat)
    requires FirstClear(s, lo, hi, f)
    ensures f < 8 * |s| && !Bit(s, f)
  {}

  lemma {:induction false} ChosenNear(g: Geo, maps: seq<seq<bv8>>, goal: nat, a: nat)
    requires g.Ok() && g.GroupCnt() > 0 && LeastFrom(FreeIn(g, maps, g.BgOf(goal)), goal, a)
    ensures Chosen(g, maps, goal, a)
  {
    hide FreeIn, Geo.BgOf, Geo.GroupCnt;
  }

  lemma {:induction false} ChosenFar(g: Geo, maps: seq<seq<bv8>>, goal: nat, k: nat, a: nat)
    requires g.Ok() && g.GroupCnt() > 0 && forall b :: b in FreeIn(g, maps, g.BgOf(goal)) ==> b < goal
    requires 1 <= k <= g.GroupCnt() && FirstWithFree(g, maps, g.BgOf(goal), k)
    requires LeastFrom(FreeIn(g, maps, GroupAfter(g, g.BgOf(goal), k)), 0, a)
    ensures Chosen(g, maps, goal, a)
  {
    hide FreeIn, Geo.BgOf, Geo.GroupCnt;
  }

  /** The first clear bit from the goal's index on is the next free block of the group. */
  lemma {:induction false} FirstIsLeast(g: Geo, maps: seq<seq<bv8>>, bg: nat, i: nat, goal: nat, f: nat)
    requires BlockMaps(g, maps) && Padded(g, maps) && bg < |maps| && g.BlocksIn(bg) >= 0
    requires FirstClear(maps[bg], i, g.BlocksIn(bg), f)
    requires g.BgOf(goal) == bg && g.IdxOf(goal) == i && goal < g.total
    ensures LeastFrom(FreeIn(g, maps, bg), goal, g.AddrOf(f, bg))
  {
    hide Geo.AddrOf, Geo.BgOf, Geo.IdxOf, Geo.BlocksIn, Geo.GroupCnt, Bit, IsFree;
    ClearIsFree(g, maps, bg, f);
    var a := g.AddrOf(f, bg);
    AddrAt(g, bg, f);
    PlaceValue(g, goal);
    assert goal <= a;
    forall b | b in FreeIn(g, maps, bg) && goal <= b ensures a <= b {
      FreeIsClear(g, maps, b);
      IdxOrder(g, b, goal);
      PlaceOf(g, b);
      assert f <= g.IdxOf(b);
    }
  }

  // ----- freeing a run

  /** A run of blocks that free_blocks handles: inside one group, or bitmaps without padding. */
  predicate FitsGroups(g: Geo, start: nat, count: nat)
    requires g.bpg > 0
  {
    g.IdxOf(start) + count <= g.bpg || g.bpg == 8 * g.bs
  }

  /** The first `done` blocks of the run are free, nothing else changed. */
  ghost predicate RunDone(g: Geo, m0: seq<seq<bv8>>, m: seq<seq<bv8>>, start: nat, done: nat) {
    BlockMaps(g, m) && Padded(g, m) && FreeSet(g, m) == FreeSet(g, m0) + Blocks(start, done)
  }

  /** A run that leaves its group but not the group's bitmap block. */
  predicate LeavesGroup(g: Geo, start: nat, count: nat)
    requires g.bpg > 0
  {
    g.bpg < g.IdxOf(start) + count <= 8 * g.bs
  }

  /** Of such a run only the blocks of its first group were freed. */
  ghost predicate RestForgotten(g: Geo, m0: seq<seq<bv8>>, m: seq<seq<bv8>>, start: nat)
    requires g.bpg > 0
  {
    g.IdxOf(start) < g.bpg && FreeSet(g, m) == FreeSet(g, m0) + Blocks(start, g.bpg - g.IdxOf(start))
  }

  lemma {:induction false} ForgetsRest(g: Geo, m0: seq<seq<bv8>>, m: seq<seq<bv8>>, start: nat, count: nat)
    requires BlockMaps(g, m0) && g.first <= start && start + count <= g.total && count > 0
    requires LeavesGroup(g, start, count) && g.BgOf(start) < |m0| == |m| && m == m0[g.BgOf(start) := m[g.BgOf(start)]]
    requires Freed(m0[g.BgOf(start)], m[g.BgOf(start)], g.IdxOf(start), g.IdxOf(start) + count)
    ensures RestForgotten(g, m0, m, start)
  {
    hide Geo.BgOf, Geo.IdxOf, Geo.GroupCnt, Bit, IsFree;
    PlaceOf(g, start);
    var n := g.bpg - g.IdxOf(start);
    forall a: nat | g.first <= a < g.total
      ensures IsFree(g, m, a) <==> IsFree(g, m0, a) || a in Blocks(start, n)
    {
      FreedOrNot(g, m0, m, start, count, a);
    }
    assert forall a :: a in Blocks(start, n) ==> g.first <= a < g.total;
  }

  lemma {:induction false} FreedOrNot(g: Geo, m0: seq<seq<bv8>>, m: seq<seq<bv8>>, start: nat, count: nat, a: nat)
    requires BlockMaps(g, m0) && g.first <= start && start + count <= g.total && count > 0 && g.first <= a < g.total
    requires LeavesGroup(g, start, count) && g.BgOf(start) < |m0| == |m| && m == m0[g.BgOf(start) := m[g.BgOf(start)]]
    requires Freed(m0[g.BgOf(start)], m[g.BgOf(start)], g.IdxOf(start), g.IdxOf(start) + count)
    ensures IsFree(g, m, a) <==> IsFree(g, m0, a) || start <= a < start + (g.bpg - g.IdxOf(start))
  {
    hide Geo.BgOf, Geo.IdxOf, Geo.GroupCnt, Bit;
    PlaceOf(g, start);
    PlaceOf(g, a);
    RealCovered(g, g.BgOf(a), g.IdxOf(a), |m0|);
    if g.BgOf(a) < g.BgOf(start) { MulMore(g.BgOf(a), g.BgOf(start), g.bpg); }
    if g.BgOf(start) < g.BgOf(a) { MulMore(g.BgOf(start), g.BgOf(a), g.bpg); }
  }

  lemma {:induction false} FreedNothing(g: Geo, m: seq<seq<bv8>>, m': seq<seq<bv8>>, bg: nat, lo: nat)
    requires bg < |m| == |m'| && m' == m[bg := m'[bg]] && Freed(m[bg], m'[bg], lo, lo)
    ensures FreeSet(g, m') == FreeSet(g, m)
  {
    hide Geo.BgOf, Geo.IdxOf, Geo.GroupCnt, Bit, IsFree;
    forall a: nat ensures IsFree(g, m', a) <==> IsFree(g, m, a) {
      SameFree(g, m, m', bg, lo, a);
    }
  }

  lemma {:induction false} SameFree(g: Geo, m: seq<seq<bv8>>, m': seq<seq<bv8>>, bg: nat, lo: nat, a: nat)
    requires bg < |m| == |m'| && m' == m[bg := m'[bg]] && Freed(m[bg], m'[bg], lo, lo)
    ensures IsFree(g, m', a) <==> IsFree(g, m, a)
  {
    hide Geo.BgOf, Geo.IdxOf, Bit;
  }

  /** The blocks of group bg at the places lo .. lo + n. */
  ghost function BitBlocks(g: Geo, bg: nat, lo: nat, n: nat): set<nat>
    requires g.bpg > 0
  {
    set a: nat | g.first <= a < g.total && g.BgOf(a) == bg && lo <= g.IdxOf(a) < lo + n
  }

  /** The bits that one round of free_blocks takes. */
  function RoundSize(g: Geo, first: nat, left: nat): nat
    requires g.bpg > 0 && g.IdxOf(first) <= g.bs * 8
  {
    if left > g.bs * 8 - g.IdxOf(first) then g.bs * 8 - g.IdxOf(first) else left
  }

  /** What the rounds from group bg to group last free: each takes its bits from the bitmap of its own group,
      at the place that the next block of the run has in the group the block lies in. */
  ghost function RunFrees(g: Geo, first: nat, left: nat, bg: nat, last: nat): set<nat>
    requires g.bpg > 0
    decreases last + 1 - bg
  {
    if bg > last || g.IdxOf(first) > g.bs * 8 then {}
    else
      var n := RoundSize(g, first, left);
      BitBlocks(g, bg, g.IdxOf(first), n) + RunFrees(g, first + n, left - n, bg + 1, last)
  }

  lemma {:induction false} RunFreesIs(g: Geo, first: nat, left: nat, bg: nat, last: nat)
    requires g.bpg > 0
    ensures bg > last ==> RunFrees(g, first, left, bg, last) == {}
    ensures bg <= last && g.IdxOf(first) <= g.bs * 8 ==>
              var n := RoundSize(g, first, left);
              RunFrees(g, first, left, bg, last) == BitBlocks(g, bg, g.IdxOf(first), n) + RunFrees(g, first + n, left - n, bg + 1, last)
  {
    hide Geo.IdxOf, BitBlocks;
  }

  /** Clearing bits of one bitmap frees the blocks of that group at these places, whatever else the bits
      stand for. */
  lemma {:induction false} BitsFreed(g: Geo, m: seq<seq<bv8>>, m': seq<seq<bv8>>, bg: nat, lo: nat, n: nat)
    requires BlockMaps(g, m) && bg < |m| == |m'| && m' == m[bg := m'[bg]] && Freed(m[bg], m'[bg], lo, lo + n) && lo + n <= 8 * g.bs
    ensures FreeSet(g, m') == FreeSet(g, m) + BitBlocks(g, bg, lo, n)
  {
    hide Geo.BgOf, Geo.IdxOf, Geo.GroupCnt, Bit, IsFree;
    forall a: nat | g.first <= a < g.total
      ensures IsFree(g, m', a) <==> IsFree(g, m, a) || (g.BgOf(a) == bg && lo <= g.IdxOf(a) < lo + n)
    {
      BitFreed(g, m, m', bg, lo, n, a);
    }
  }

  lemma {:induction false} BitFreed(g: Geo, m: seq<seq<bv8>>, m': seq<seq<bv8>>, bg: nat, lo: nat, n: nat, a: nat)
    requires BlockMaps(g, m) && bg < |m| == |m'| && m' == m[bg := m'[bg]] && Freed(m[bg], m'[bg], lo, lo + n) && lo + n <= 8 * g.bs
    requires g.first <= a < g.total
    ensures IsFree(g, m', a) <==> IsFree(g, m, a) || (g.BgOf(a) == bg && lo <= g.IdxOf(a) < lo + n)
  {
    hide Geo.BgOf, Geo.IdxOf, Geo.GroupCnt, Bit;
    PlaceOf(g, a);
    RealCovered(g, g.BgOf(a), g.IdxOf(a), |m|);
  }

  /** The first padding bit of group b is clear. */
  ghost predicate Damaged(g: Geo, m: seq<seq<bv8>>, b: nat) {
    b < |m| && g.bpg < 8 * |m[b]| && !Bit(m[b], g.bpg)
  }

  lemma {:induction false} DamagedNotPadded(g: Geo, m: seq<seq<bv8>>, b: nat)
    requires Damaged(g, m, b)
    ensures !Padded(g, m)
  {
    hide Bit;
    assert !g.Real(b, g.bpg);
  }

  lemma {:induction false} DamageStays(g: Geo, m: seq<seq<bv8>>, m': seq<seq<bv8>>, b: nat, bg: nat, lo: nat, hi: nat)
    requires bg < |m| == |m'| && m' == m[bg := m'[bg]] && Freed(m[bg], m'[bg], lo, hi)
    ensures Damaged(g, m, b) ==> Damaged(g, m', b)
    ensures bg == b && g.bpg < 8 * |m[b]| && lo <= g.bpg < hi ==> Damaged(g, m', b)
  {
    hide Bit;
  }

  lemma {:induction false} NextPlace(g: Geo, a: nat, n: nat)
    requires g.Ok() && a < g.total && a + n < U32 && n >= g.bpg - g.IdxOf(a) && (a >= g.first || n == 0)
    ensures g.BgOf(a + n) > g.BgOf(a)
    ensures n == g.bpg - g.IdxOf(a) ==> g.BgOf(a + n) == g.BgOf(a) + 1 && g.IdxOf(a + n) == 0
  {
    hide Geo.BgOf, Geo.IdxOf;
    PlaceValue(g, a);
    PlaceValue(g, a + n);
    assert (g.BgOf(a) + 1) * g.bpg == g.BgOf(a) * g.bpg + g.bpg;
    assert g.Shifted(a + n) == g.Shifted(a) + n;
    if g.BgOf(a + n) <= g.BgOf(a) { MulMore(g.BgOf(a + n), g.BgOf(a) + 1, g.bpg); }
    if n == g.bpg - g.IdxOf(a) { PlaceIs(g, a + n, g.BgOf(a) + 1, 0); }
  }

  lemma {:induction false} SameOrLater(g: Geo, a: nat, b: nat)
    requires g.Ok() && a <= b < U32
    ensures g.BgOf(a) <= g.BgOf(b)
  {
    hide Geo.BgOf, Geo.IdxOf;
    PlaceValue(g, a);
    PlaceValue(g, b);
    if g.BgOf(b) < g.BgOf(a) { MulMore(g.BgOf(b), g.BgOf(a), g.bpg); }
  }

  lemma {:induction false} RunStep(g: Geo, m0: seq<seq<bv8>>, m: seq<seq<bv8>>, m': seq<seq<bv8>>, start: nat, done: nat, n: nat,
                                   bg: nat, idx: nat)
    requires RunDone(g, m0, m, start, done) && g.first <= start && start + done + n <= g.total
    requires n > 0 ==> g.BgOf(start + done) == bg && g.IdxOf(start + done) == idx
    requires idx + n <= g.bpg && bg < |m| == |m'| && m' == m[bg := m'[bg]] && Freed(m[bg], m'[bg], idx, idx + n)
    ensures RunDone(g, m0, m', start, done + n)
    ensures forall k :: FreeIn(g, m', k) == if k == bg then FreeIn(g, m, k) + Blocks(start + done, n) else FreeIn(g, m, k)
  {
    hide Geo.BgOf, Geo.IdxOf, Geo.GroupCnt, Bit, IsFree, Padded, FreeIn, FreeSet, Blocks, Freed;
    if n > 0 {
      PlaceOf(g, start + done);
    } else {
      NoBlocks(g.first + bg * g.bpg + idx, start + done);
    }
    RunAfter(g, m, m', bg, idx, n);
    BlocksJoin(start, done, n);
  }

  lemma {:induction false} NoBlocks(a: nat, b: nat)
    ensures Blocks(a, 0) == Blocks(b, 0) == {}
  {}

  /** The counters stay right when the blocks of the step were in use. */
  lemma {:induction false} CountStep(g: Geo, m: seq<seq<bv8>>, m': seq<seq<bv8>>, cnt: seq<nat>, sb: nat, a: nat, n: nat, bg: nat)
    requires Counted(g, m, cnt, sb) && BlockMaps(g, m') && Padded(g, m') && bg < |m|
    requires FreeSet(g, m') == FreeSet(g, m) + Blocks(a, n) && Blocks(a, n) !! FreeSet(g, m)
    requires forall k :: FreeIn(g, m', k) == if k == bg then FreeIn(g, m, k) + Blocks(a, n) else FreeIn(g, m, k)
    ensures Counted(g, m', cnt[bg := cnt[bg] + n], sb + n)
  {
    hide Geo.BgOf, Geo.GroupCnt, IsFree, Padded, FreeSet, Blocks;
    BlocksCount(a, n);
    assert FreeIn(g, m, bg) !! Blocks(a, n);
    assert |FreeIn(g, m, bg) + Blocks(a, n)| == |FreeIn(g, m, bg)| + n;
  }

  /** What the rounds of free_blocks keep: from state m0 with superblock count sb0, `left` blocks
      from `first` on remain and bgFirst is the next group. */
  ghost predicate RoundInv(g: Geo, m0: seq<seq<bv8>>, sb0: nat, start: nat, count: nat,
                           m: seq<seq<bv8>>, cnt: seq<nat>, sb: nat, first: nat, left: nat, bgFirst: nat)
  {
    && BlockMaps(g, m0) && BlockMaps(g, m) && sb0 == |FreeSet(g, m0)|
    && g.first <= start && 0 < start + count <= g.total
    && first + left == start + count && left <= count && sb == sb0 + (count - left)
    && (left > 0 ==> bgFirst <= g.BgOf(first))
    && (FitsGroups(g, start, count) ==>
          && RunDone(g, m0, m, start, count - left)
          && (left > 0 ==> g.BgOf(first) == bgFirst && (left == count || g.bpg == 8 * g.bs))
          && (Blocks(start, count) !! FreeSet(g, m0) ==> Counted(g, m, cnt, sb)))
    && (!FitsGroups(g, start, count) ==>
          || (left == count && bgFirst == g.BgOf(start))
          || Damaged(g, m, g.BgOf(start)))
    && (LeavesGroup(g, start, count) ==>
          if left == count then m == m0 && bgFirst == g.BgOf(start) else left == 0 && RestForgotten(g, m0, m, start))
  }

  lemma {:induction false} RoundStart(g: Geo, m0: seq<seq<bv8>>, cnt: seq<nat>, sb0: nat, start: nat, count: nat)
    requires Counted(g, m0, cnt, sb0) && g.first <= start && 0 < start + count <= g.total
    ensures RoundInv(g, m0, sb0, start, count, m0, cnt, sb0, start, count, g.BgOf(start))
  {
    hide Geo.BgOf, Geo.IdxOf, Geo.GroupCnt, IsFree, Padded, FreeSet, Blocks;
    NoBlocks(start, start);
  }

  lemma {:induction false} RoundBounds(g: Geo, m0: seq<seq<bv8>>, sb0: nat, start: nat, count: nat,
                                       m: seq<seq<bv8>>, cnt: seq<nat>, sb: nat, first: nat, left: nat, bgFirst: nat)
    requires RoundInv(g, m0, sb0, start, count, m, cnt, sb, first, left, bgFirst) && bgFirst <= g.BgOf(start + count - 1)
    ensures bgFirst < |m| && g.IdxOf(first) < g.bpg
  {
    hide Geo.BgOf, Geo.IdxOf, Geo.GroupCnt, IsFree, Padded, FreeSet, Blocks, FitsGroups, RunDone, Damaged;
    GoalPlace(g, start + count - 1);
    IdxSmall(g, first);
  }

  lemma {:induction false} RoundStep(g: Geo, m0: seq<seq<bv8>>, sb0: nat, start: nat, count: nat,
                                     m: seq<seq<bv8>>, cnt: seq<nat>, sb: nat, first: nat, left: nat, bgFirst: nat,
                                     m': seq<seq<bv8>>, n: nat)
    requires RoundInv(g, m0, sb0, start, count, m, cnt, sb, first, left, bgFirst) && bgFirst < |m| == |cnt| && g.IdxOf(first) < g.bpg
    requires n == (if left > g.bs * 8 - g.IdxOf(first) then g.bs * 8 - g.IdxOf(first) else left)
    requires BlockMaps(g, m') && m' == m[bgFirst := m'[bgFirst]] && Freed(m[bgFirst], m'[bgFirst], g.IdxOf(first), g.IdxOf(first) + n)
    ensures RoundInv(g, m0, sb0, start, count, m', cnt[bgFirst := cnt[bgFirst] + n], sb + n, first + n, left - n, bgFirst + 1)
  {
    hide Geo.BgOf, Geo.IdxOf, Geo.GroupCnt, IsFree, Padded, FreeSet, FreeIn, Blocks, Freed, Damaged, Counted, RunDone, RestForgotten;
    if n < left { NextPlace(g, first, n); }
    if LeavesGroup(g, start, count) {
      if left == count {
        ForgetsRest(g, m0, m', start, count);
      } else {
        FreedNothing(g, m, m', bgFirst, g.IdxOf(first));
        StillForgotten(g, m0, m, m', start);
      }
    }
    DamageStays(g, m, m', g.BgOf(start), bgFirst, g.IdxOf(first), g.IdxOf(first) + n);
    if FitsGroups(g, start, count) {
      RunStep(g, m0, m, m', start, count - left, n, bgFirst, g.IdxOf(first));
      if Blocks(start, count) !! FreeSet(g, m0) {
        StillUnused(g, m0, m, start, count - left, n, count);
        RunMaps(g, m0, m', start, count - left + n);
        RunFree(g, m0, m, m', start, count - left, n);
        CountStep(g, m, m', cnt, sb, first, n, bgFirst);
      }
    }
  }

  lemma {:induction false} StillForgotten(g: Geo, m0: seq<seq<bv8>>, m: seq<seq<bv8>>, m': seq<seq<bv8>>, start: nat)
    requires g.bpg > 0 && RestForgotten(g, m0, m, start) && FreeSet(g, m') == FreeSet(g, m)
    ensures RestForgotten(g, m0, m', start)
  {}

  lemma {:induction false} StillUnused(g: Geo, m0: seq<seq<bv8>>, m: seq<seq<bv8>>, start: nat, done: nat, n: nat, count: nat)
    requires RunDone(g, m0, m, start, done) && done + n <= count && Blocks(start, count) !! FreeSet(g, m0)
    ensures Blocks(start + done, n) !! FreeSet(g, m)
  {
    hide FreeSet, Geo.GroupCnt;
  }

  lemma {:induction false} RunMaps(g: Geo, m0: seq<seq<bv8>>, m: seq<seq<bv8>>, start: nat, done: nat)
    requires RunDone(g, m0, m, start, done)
    ensures BlockMaps(g, m) && Padded(g, m)
  {}

  lemma {:induction false} RunFree(g: Geo, m0: seq<seq<bv8>>, m: seq<seq<bv8>>, m': seq<seq<bv8>>, start: nat, done: nat, n: nat)
    requires RunDone(g, m0, m, start, done) && RunDone(g, m0, m', start, done + n)
    ensures FreeSet(g, m') == FreeSet(g, m) + Blocks(start + done, n)
  {
    hide FreeSet, Blocks, Geo.GroupCnt;
    BlocksJoin(start, done, n);
  }

  /** After the last group nothing is left. */
  lemma {:induction false} RoundEnd(g: Geo, m0: seq<seq<bv8>>, sb0: nat, start: nat, count: nat,
                                    m: seq<seq<bv8>>, cnt: seq<nat>, sb: nat, first: nat, left: nat, bgFirst: nat)
    requires RoundInv(g, m0, sb0, start, count, m, cnt, sb, first, left, bgFirst) && g.BgOf(start + count - 1) < bgFirst
    ensures left == 0 && sb == sb0 + count
    ensures Padded(g, m) <==> FitsGroups(g, start, count)
    ensures FitsGroups(g, start, count) ==>
              FreeSet(g, m) == FreeSet(g, m0) + Blocks(start, count)
              && (Counted(g, m, cnt, sb) <==> Blocks(start, count) !! FreeSet(g, m0))
    ensures LeavesGroup(g, start, count) ==> RestForgotten(g, m0, m, start)
  {
    hide Geo.BgOf, Geo.IdxOf, Geo.GroupCnt, IsFree, Padded, FreeSet, FreeIn, Blocks, Freed, Damaged, RestForgotten;
    if left > 0 { SameOrLater(g, first, start + count - 1); }
    if FitsGroups(g, start, count) {
      BlocksCount(start, count);
      CardDisjoint(FreeSet(g, m0), Blocks(start, count));
    } else {
      IdxSmall(g, start);
      assert count > 0;
      DamagedNotPadded(g, m, g.BgOf(start));
    }
  }

  lemma {:induction false} CardDisjoint(a: set<nat>, b: set<nat>)
    ensures |a + b| == |a| + |b| <==> b !! a
  {
    assert a + b == a + (b - a);
    assert |a + (b - a)| == |a| + |b - a|;
    assert b == (b - a) + (b * a);
    assert |b| == |b - a| + |b * a|;
    assert b * a == {} <==> b !! a;
  }

  /** Setting the bit of a free block, the counters following. */
  lemma {:induction false} BlockTaken(g: Geo, m: seq<seq<bv8>>, m': seq<seq<bv8>>, cnt: seq<nat>, sb: nat, bg: nat, i: nat)
    requires Counted(g, m, cnt, sb) && bg < |m| && i < 8 * g.bs && !Bit(m[bg], i)
    requires |m'| == |m| && m' == m[bg := m'[bg]] && BitChanged(m[bg], m'[bg], i, true)
    ensures BlockMaps(g, m') && Padded(g, m') && sb > 0 && bg < |cnt| && cnt[bg] > 0
    ensures Counted(g, m', cnt[bg := cnt[bg] - 1], sb - 1)
    ensures g.bpg > 0 && g.AddrOf(i, bg) in FreeSet(g, m) && FreeSet(g, m') == FreeSet(g, m) - {g.AddrOf(i, bg)}
  {
    hide Geo.AddrOf, Geo.GroupCnt, Geo.BgOf, Geo.IdxOf, Geo.Real, Bit, Padded, IsFree, BitChanged, FreeSet, FreeIn;
    ClearIsFree(g, m, bg, i);
    FreeSetAfter(g, m, m', bg, i, true);
    var a := g.AddrOf(i, bg);
    InGroupToo(g, m, a);
    SizeLess(FreeSet(g, m), a);
    SizeLess(FreeIn(g, m, bg), a);
  }

  /** Clearing a block's bit: the counters, one more each, are right exactly when the block was in use. */
  lemma {:induction false} BlockGiven(g: Geo, m: seq<seq<bv8>>, m': seq<seq<bv8>>, cnt: seq<nat>, sb: nat, a: nat)
    requires Counted(g, m, cnt, sb) && g.first <= a < g.total && g.bpg > 0 && g.BgOf(a) < |m|
    requires |m'| == |m| && m' == m[g.BgOf(a) := m'[g.BgOf(a)]] && BitChanged(m[g.BgOf(a)], m'[g.BgOf(a)], g.IdxOf(a), false)
    ensures BlockMaps(g, m') && Padded(g, m') && FreeSet(g, m') == FreeSet(g, m) + {a} && g.BgOf(a) < |cnt|
    ensures Counted(g, m', cnt[g.BgOf(a) := cnt[g.BgOf(a)] + 1], sb + 1) <==> a !in FreeSet(g, m)
  {
    hide Geo.AddrOf, Geo.GroupCnt, Geo.BgOf, Geo.IdxOf, Geo.Real, Bit, Padded, IsFree, BitChanged, FreeSet, FreeIn;
    var bg := g.BgOf(a);
    FreeIsClear(g, m, a);
    PlaceOf(g, a);
    FreeSetAfter(g, m, m', bg, g.IdxOf(a), false);
    InGroupToo(g, m, a);
    SizeMore(FreeSet(g, m), a);
    SizeMore(FreeIn(g, m, bg), a);
  }

  lemma {:induction false} SizeLess(s: set<nat>, a: nat)
    requires a in s
    ensures |s - {a}| == |s| - 1
  {}

  lemma {:induction false} SizeMore(s: set<nat>, a: nat)
    ensures |s + {a}| == if a in s then |s| else |s| + 1
  {
    if a in s { assert s + {a} == s; }
  }

  class Balloc {
    const geo: Geo
    const params: InodeBlocks.Params
    /** The groups' block bitmaps. */
    const maps: seq<array<bv8>>
    /** Free blocks by group descriptor, and in the superblock. */
    var freeCnt: seq<nat>
    var sbFree: nat

    ghost function Maps(): (m: seq<seq<bv8>>)
      reads maps
      ensures |m| == |maps| && forall i :: 0 <= i < |m| ==> m[i] == maps[i][..]
    {
      seq(|maps|, i requires 0 <= i < |maps| reads maps => maps[i][..])
    }

    /** The free blocks. */
    ghost function Free(): set<nat>
      reads maps
    {
      FreeSet(geo, Maps())
    }

    ghost predicate Sized()
      reads this, maps
    {
      && BlockMaps(geo, Maps()) && |freeCnt| == |maps| && 0 < params.unit <= 128
      && Apart(maps)
    }

    ghost predicate Valid()
      reads this, maps
    {
      Sized() && Padded(geo, Maps())
    }

    ghost predicate Conserved()
      reads this, maps
    {
      Counted(geo, Maps(), freeCnt, sbFree)
    }

    lemma {:induction false} OneMap(m: seq<seq<bv8>>, bg: nat)
      requires bg < |maps| == |m| && Apart(maps)
      requires forall i :: 0 <= i < |maps| && maps[i] != maps[bg] ==> maps[i][..] == m[i]
      ensures Maps() == m[bg := maps[bg][..]]
    {}

    /** A file system in full use: a state from which the operations can start. */
    constructor (g: Geo, p: InodeBlocks.Params)
      requires g.Ok() && 0 < p.unit <= 128
      ensures Valid() && Conserved() && geo == g && params == p && fresh(maps) && Free() == {}
    {
      hide Geo.GroupCnt, Geo.BgOf, Geo.IdxOf, FreeSet, FreeIn, AllUsed, Padded, Apart, Maps;
      var n := g.GroupCnt();
      Groups(g);
      var bitmaps := UsedMaps(g.bs, n);
      geo, params, maps := g, p, bitmaps;
      freeCnt, sbFree := seq(n, i => 0), 0;
      new;
      FullDisk(g, Maps());
    }

    /** One bit of a group's bitmap is set or cleared; the other bitmaps stay. */
    method Mark(bg: nat, i: nat, v: bool)
      requires bg < |maps| && i < 8 * maps[bg].Length && Apart(maps)
      modifies maps[bg]
      ensures Maps() == old(Maps())[bg := Maps()[bg]] && BitChanged(old(Maps())[bg], Maps()[bg], i, v)
    {
      hide BitChanged, Apart;
      ghost var m := Maps();
      if v {
        BitSet(maps[bg], i);
      } else {
        BitClr(maps[bg], i);
      }
      OneMap(m, bg);
    }

    // ----- searching a group

    /** The search in the goal's group from index idx on: the index itself, the indices up to the
        next multiple of 64, then the rest of the group. */
    method SearchGoal(bg: nat, idx: nat) returns (found: bool, i: nat)
      requires Valid() && bg < |maps| && idx < geo.BlocksIn(bg) <= 8 * geo.bs
      ensures found ==> FirstClear(maps[bg][..], idx, geo.BlocksIn(bg), i)
      ensures !found ==> AllSet(maps[bg][..], idx, geo.BlocksIn(bg))
    {
      hide Geo.BlocksIn, Geo.GroupCnt, Bit, AllSet, Padded, BitAt;
      var bitmap := maps[bg];
      assert bitmap.Length == geo.bs;
      SetNone(bitmap[..], idx);
      var clear := IsBitClr(bitmap, idx);
      if clear {
        return true, idx;
      }
      MoreSet(bitmap[..], idx, idx);
      var blkInBg := geo.BlocksIn(bg);
      var endIdx := (idx + 63) / 64 * 64;
      if endIdx > blkInBg {
        endIdx := blkInBg;
      }
      var tmp := idx + 1;
      while tmp < endIdx
        invariant idx < tmp && (tmp <= endIdx || tmp == idx + 1)
        invariant AllSet(bitmap[..], idx, tmp)
      {
        clear := IsBitClr(bitmap, tmp);
        if clear {
          return true, tmp;
        }
        MoreSet(bitmap[..], idx, tmp);
        tmp := tmp + 1;
      }
      ghost var f;
      found, i, f := BitFindClr(bitmap, idx, blkInBg);
      if found {
        NotBefore(bitmap[..], idx, blkInBg, f, tmp);
      }
    }

    /** The search in another group: from its first block. */
    method SearchOther(bg: nat) returns (found: bool, i: nat)
      requires Valid() && bg < |maps| && 0 <= geo.BlocksIn(bg) <= 8 * geo.bs
      ensures found ==> FirstClear(maps[bg][..], 0, geo.BlocksIn(bg), i)
      ensures !found ==> AllSet(maps[bg][..], 0, geo.BlocksIn(bg))
    {
      hide Geo.BlocksIn, Geo.GroupCnt, Geo.IdxOf, Geo.BlockOfBg, Bit, AllSet, Padded, BitAt;
      FirstIndex(geo, bg);
      var idx := geo.IdxOf(geo.BlockOfBg(bg));
      ghost var f;
      found, i, f := BitFindClr(maps[bg], idx, geo.BlocksIn(bg));
    }

    // ----- taking and giving a block

    /** A block's bit is set and the counters follow. */
    method Take(ino: InodeRef, bg: nat, i: nat) returns (addr: nat)
      requires Valid() && Conserved() && bg < |maps| && i < 8 * geo.bs && !Bit(maps[bg][..], i)
      modifies this, maps[bg], ino
      ensures Valid() && Conserved()
      ensures addr == geo.AddrOf(i, bg) && addr in old(Free()) && Free() == old(Free()) - {addr}
      ensures sbFree == old(sbFree) - 1
      ensures Charged(old(ino.fields), ino.fields) && ino.dirty
    {
      hide Geo.AddrOf, Geo.GroupCnt, Geo.BgOf, Geo.IdxOf, Geo.Real, Bit, Padded, IsFree, BitChanged, FreeSet, FreeIn, Counted, Charged, Apart, Maps;
      ghost var m := Maps();
      Mark(bg, i, true);
      BlockTaken(geo, m, Maps(), freeCnt, sbFree, bg, i);
      addr := geo.AddrOf(i, bg);
      sbFree := sbFree - 1;
      Charge(ino);
      freeCnt := freeCnt[bg := freeCnt[bg] - 1];
    }

    /** One more block counted in the inode, in 64 bits; the fields stay when they cannot hold it. */
    ghost predicate Charged(f: InodeBlocks.Fields, f': InodeBlocks.Fields)
      requires params.unit > 0
    {
      var c := InodeBlocks.GetCount(params, f) + params.unit;
      && f' == InodeBlocks.SetCount(params, f, c % InodeBlocks.U64).1
      && (c < InodeBlocks.U64 && InodeBlocks.Holds(params, c) ==> InodeBlocks.GetCount(params, f') == c)
    }

    method Charge(ino: InodeRef)
      requires params.unit > 0
      modifies ino
      ensures Charged(old(ino.fields), ino.fields) && ino.dirty
    {
      hide InodeBlocks.Holds, InodeBlocks.GetCount, InodeBlocks.SetCount;
      var c := InodeBlocks.GetCount(params, ino.fields) + params.unit;
      SetCount(ino, c % InodeBlocks.U64);
      assert c < InodeBlocks.U64 ==> c % InodeBlocks.U64 == c;
    }

    /** n blocks less counted in the inode, when it had them. */
    ghost predicate Refunded(f: InodeBlocks.Fields, f': InodeBlocks.Fields, n: nat) {
      var c := InodeBlocks.GetCount(params, f);
      n * params.unit <= c ==> InodeBlocks.GetCount(params, f') == c - n * params.unit
    }

    /** n blocks are taken off the inode's count, in 64 bits. */
    method Refund(ino: InodeRef, n: nat)
      requires 0 < params.unit <= 128
      modifies ino
      ensures Refunded(old(ino.fields), ino.fields, n) && ino.dirty
    {
      hide InodeBlocks.Holds, InodeBlocks.GetCount, InodeBlocks.SetCount;
      var c := InodeBlocks.GetCount(params, ino.fields);
      if n * params.unit <= c {
        InodeBlocks.LessHolds(params, ino.fields, n);
      }
      SetCount(ino, (c - n * params.unit) % InodeBlocks.U64);
    }

    /** A group other than the goal's: skipped when its counter is zero. */
    method TryGroup(bgid: nat) returns (found: bool, i: nat)
      requires Valid() && Conserved() && bgid < |maps|
      ensures found ==> i < 8 * geo.bs && !Bit(maps[bgid][..], i)
      ensures found ==> LeastFrom(FreeIn(geo, Maps(), bgid), 0, geo.AddrOf(i, bgid))
      ensures !found ==> FreeIn(geo, Maps(), bgid) == {}
    {
      hide Geo.AddrOf, Geo.GroupCnt, Geo.BgOf, Geo.IdxOf, Geo.Real, Bit, Padded, FreeSet, FreeIn, Geo.BlocksIn, AllSet, LeastFrom, Counted;
      if freeCnt[bgid] == 0 {
        NoneFree(geo, Maps(), freeCnt, sbFree, bgid);
        return false, 0;
      }
      BlocksInGroup(geo, bgid);
      found, i := SearchOther(bgid);
      if found {
        FirstOther(geo, Maps(), bgid, i);
      } else {
        NoneOther(geo, Maps(), bgid);
      }
    }

    /** The next group, in cyclic order, that has a free block, or none. */
    method TryOthers(bg: nat) returns (found: bool, bgid: nat, i: nat, ghost k: nat)
      requires Valid() && Conserved() && bg < |maps|
      ensures found ==> bgid < |maps| && i < 8 * geo.bs && !Bit(maps[bgid][..], i)
      ensures found ==> 1 <= k <= |maps| && bgid == GroupAfter(geo, bg, k) && FirstWithFree(geo, Maps(), bg, k)
                        && LeastFrom(FreeIn(geo, Maps(), bgid), 0, geo.AddrOf(i, bgid))
      ensures !found ==> Free() == {}
    {
      hide Geo.AddrOf, Geo.GroupCnt, Geo.BgOf, Geo.IdxOf, Geo.Real, Bit, Padded, FreeSet, FreeIn, Geo.BlocksIn, AllSet, LeastFrom, Counted;
      ghost var m := Maps();
      var n := geo.GroupCnt();
      i, k := 0, 0;
      bgid := (bg + 1) % n;
      var count: nat := n;
      while count > 0
        invariant count <= n && bgid == GroupAfter(geo, bg, n - count + 1)
        invariant FirstWithFree(geo, m, bg, n - count + 1)
      {
        k := n - count + 1;
        found, i := TryGroup(bgid);
        if found {
          return;
        }
        NextGroup(n, bg, k);
        bgid := (bgid + 1) % n;
        count := count - 1;
      }
      NoFreeGroup(geo, m, bg);
      found := false;
    }

    /** ext4_balloc_alloc_block, without device errors: it fails (ENOSPC) exactly when no block
        is free, and never hands out a block that is in use. */
    method AllocBlock(ino: InodeRef, goal: nat) returns (ok: bool, addr: nat)
      requires Valid() && Conserved() && goal < geo.total
      modifies this, maps, ino
      ensures Valid() && Conserved()
      ensures ok <==> old(Free()) != {}
      ensures ok ==> addr in old(Free()) && Free() == old(Free()) - {addr}
      ensures ok ==> geo.first <= addr < geo.total && geo.bpg > 0 && !InUse(geo, old(Maps()), addr) && InUse(geo, Maps(), addr)
      ensures ok ==> geo.GroupCnt() > 0 && Chosen(geo, old(Maps()), goal, addr)
      ensures ok ==> sbFree == old(sbFree) - 1 && Charged(old(ino.fields), ino.fields) && ino.dirty
      ensures !ok ==> Maps() == old(Maps()) && sbFree == old(sbFree) && freeCnt == old(freeCnt)
      ensures !ok ==> ino.fields == old(ino.fields) && ino.dirty == old(ino.dirty)
    {
      hide Geo.AddrOf, Geo.GroupCnt, Geo.BgOf, Geo.IdxOf, Geo.Real, Bit, Padded, FreeSet, FreeIn, Geo.BlocksIn, FirstClear, AllSet, LeastFrom, FirstWithFree, Counted;
      ghost var m := Maps();
      var bgId := geo.BgOf(goal);
      var idxInBg := geo.IdxOf(goal);
      GoalPlace(geo, goal);
      var found, i;
      if freeCnt[bgId] != 0 {
        found, i := SearchGoal(bgId, idxInBg);
        if found {
          FirstIsLeast(geo, m, bgId, idxInBg, goal, i);
          ClearAt(m[bgId], idxInBg, geo.BlocksIn(bgId), i);
          ChosenNear(geo, m, goal, geo.AddrOf(i, bgId));
          addr := Take(ino, bgId, i);
          WasFree(geo, m, Maps(), addr);
          return true, addr;
        }
        NoneFrom(geo, m, bgId, idxInBg, goal);
      } else {
        NoneFree(geo, m, freeCnt, sbFree, bgId);
      }
      ghost var k;
      var bgid;
      found, bgid, i, k := TryOthers(bgId);
      if found {
        ChosenFar(geo, m, goal, k, geo.AddrOf(i, bgid));
        addr := Take(ino, bgid, i);
        WasFree(geo, m, Maps(), addr);
        return true, addr;
      }
      return false, 0;
    }

    /** ext4_balloc_try_alloc_block: this block or none. */
    method TryAllocBlock(ino: InodeRef, baddr: nat) returns (free: bool)
      requires Valid() && Conserved() && geo.first <= baddr < geo.total
      modifies this, maps, ino
      ensures Valid() && Conserved()
      ensures free <==> baddr in old(Free())
      ensures geo.bpg > 0 && (free <==> !InUse(geo, old(Maps()), baddr)) && InUse(geo, Maps(), baddr)
      ensures Free() == old(Free()) - {baddr}
      ensures free ==> sbFree == old(sbFree) - 1 && Charged(old(ino.fields), ino.fields) && ino.dirty
      ensures !free ==> Maps() == old(Maps()) && sbFree == old(sbFree) && freeCnt == old(freeCnt) && ino.fields == old(ino.fields)
    {
      hide Geo.AddrOf, Geo.GroupCnt, Geo.BgOf, Geo.IdxOf, Geo.Real, Bit, Padded, FreeSet, FreeIn, Geo.BlocksIn, Counted;
      ghost var m := Maps();
      FreeIsClear(geo, m, baddr);
      var bg := geo.BgOf(baddr);
      var idx := geo.IdxOf(baddr);
      free := IsBitClr(maps[bg], idx);
      if free {
        var addr := Take(ino, bg, idx);
      }
      FreeIsZero(geo, m, baddr);
      FreeIsZero(geo, Maps(), baddr);
    }

    /** ext4_balloc_free_block: the block is free afterwards. The counters then still agree with
        the bitmaps exactly when it was in use. */
    method FreeBlock(ino: InodeRef, baddr: nat)
      requires Valid() && Conserved() && geo.first <= baddr < geo.total
      modifies this, maps, ino
      ensures Valid() && Free() == old(Free()) + {baddr} && geo.bpg > 0 && !InUse(geo, Maps(), baddr)
      ensures sbFree == old(sbFree) + 1 && Refunded(old(ino.fields), ino.fields, 1) && ino.dirty
      ensures Conserved() <==> baddr !in old(Free())
    {
      hide Geo.AddrOf, Geo.GroupCnt, Geo.BgOf, Geo.IdxOf, Geo.Real, Bit, Padded, IsFree, BitChanged, FreeSet, FreeIn, Counted, Refunded, Apart, Maps;
      ghost var m := Maps();
      FreeIsClear(geo, m, baddr);
      PlaceOf(geo, baddr);
      var bg := geo.BgOf(baddr);
      var idx := geo.IdxOf(baddr);
      Mark(bg, idx, false);
      BlockGiven(geo, m, Maps(), freeCnt, sbFree, baddr);
      sbFree := sbFree + 1;
      Refund(ino, 1);
      freeCnt := freeCnt[bg := freeCnt[bg] + 1];
      FreeIsZero(geo, Maps(), baddr);
    }

    /** One round of ext4_balloc_free_blocks: n bits from idx on in group bg. */
    method FreeRound(ino: InodeRef, bg: nat, idx: nat, n: nat)
      requires Sized() && bg < |maps| && idx + n <= 8 * geo.bs
      modifies this, maps[bg], ino
      ensures Sized() && sbFree == old(sbFree) + n
      ensures freeCnt == old(freeCnt)[bg := old(freeCnt)[bg] + n]
      ensures Maps() == old(Maps())[bg := maps[bg][..]] && Freed(old(maps[bg][..]), maps[bg][..], idx, idx + n)
      ensures Refunded(old(ino.fields), ino.fields, n) && ino.dirty
    {
      hide Geo.GroupCnt, Freed, Refunded;
      ghost var m := Maps();
      BitsFree(maps[bg], idx, n);
      OneMap(m, bg);
      FreedSize(m[bg], maps[bg][..], idx, idx + n);
      sbFree := sbFree + n;
      Refund(ino, n);
      freeCnt := freeCnt[bg := freeCnt[bg] + n];
    }

    /** One pass of the loop of ext4_balloc_free_blocks: the bits up to the end of the bitmap block. */
    method FreeNext(ino: InodeRef, ghost m0: seq<seq<bv8>>, ghost sb0: nat, ghost start: nat, ghost count: nat,
                    first: nat, left: nat, bgFirst: nat, ghost f0: InodeBlocks.Fields) returns (n: nat)
      requires Sized() && left <= count && start + count > 0 && bgFirst <= geo.BgOf(start + count - 1)
      requires RoundInv(geo, m0, sb0, start, count, Maps(), freeCnt, sbFree, first, left, bgFirst)
      requires Refunded(f0, ino.fields, count - left)
      modifies this, maps, ino
      ensures Sized() && n <= left
      ensures RoundInv(geo, m0, sb0, start, count, Maps(), freeCnt, sbFree, first + n, left - n, bgFirst + 1)
      ensures Refunded(f0, ino.fields, count - left + n) && ino.dirty
      ensures geo.IdxOf(first) <= geo.bs * 8 && n == RoundSize(geo, first, left)
      ensures Free() == old(Free()) + BitBlocks(geo, bgFirst, geo.IdxOf(first), n)
    {
      hide Geo.BgOf, Geo.IdxOf, Geo.GroupCnt, FitsGroups, FreeSet, Padded, Counted, Freed, RoundInv, Refunded, Blocks, RestForgotten, LeavesGroup,
           BitBlocks;
      ghost var m, cnt, sb, f := Maps(), freeCnt, sbFree, ino.fields;
      RoundBounds(geo, m0, sb0, start, count, m, cnt, sb, first, left, bgFirst);
      var idx := geo.IdxOf(first);
      n := geo.bs * 8 - idx;
      n := if left > n then n else left;
      FreeRound(ino, bgFirst, idx, n);
      BitsFreed(geo, m, Maps(), bgFirst, idx, n);
      RoundStep(geo, m0, sb0, start, count, m, cnt, sb, first, left, bgFirst, Maps(), n);
      RefundMore(f0, f, ino.fields, count - left, n);
    }

    /** ext4_balloc_free_blocks: every round takes bits up to the end of the bitmap block, so a
        run that leaves its group is freed correctly only when groups fill their bitmaps;
        otherwise a padding bit is cleared, and when the bitmap block holds the whole run the
        blocks behind the group stay in use. In all cases exactly the blocks become free whose bits the
        rounds take (RunFrees). The final assertion on the count holds always. */
    method FreeBlocks(ino: InodeRef, start: nat, count: nat)
      requires Valid() && Conserved() && geo.first <= start && 0 < start + count <= geo.total
      modifies this, maps, ino
      ensures Sized() && sbFree == old(sbFree) + count && Refunded(old(ino.fields), ino.fields, count)
      ensures count > 0 ==> ino.dirty
      ensures Padded(geo, Maps()) <==> FitsGroups(geo, start, count)
      ensures FitsGroups(geo, start, count) ==>
                Free() == old(Free()) + Blocks(start, count)
                && (Conserved() <==> Blocks(start, count) !! old(Free()))
      ensures LeavesGroup(geo, start, count) ==> RestForgotten(geo, old(Maps()), Maps(), start)
      ensures Free() == old(Free()) + RunFrees(geo, start, count, geo.BgOf(start), geo.BgOf(start + count - 1))
    {
      hide Geo.BgOf, Geo.IdxOf, Geo.GroupCnt, FitsGroups, FreeSet, Padded, Counted, Freed, RoundInv, Refunded, Blocks, RestForgotten, LeavesGroup,
           BitBlocks, RunFrees;
      ghost var m0, sb0 := Maps(), sbFree;
      var first: nat, left: nat := start, count;
      var bgFirst: nat := geo.BgOf(start);
      var bgLast: nat := geo.BgOf(start + count - 1);
      RoundStart(geo, m0, freeCnt, sb0, start, count);
      NoRefund(ino.fields);
      while bgFirst <= bgLast
        invariant Sized() && left <= count && Refunded(old(ino.fields), ino.fields, count - left)
        invariant ino.dirty || (bgFirst == geo.BgOf(start) && left == count)
        invariant RoundInv(geo, m0, sb0, start, count, Maps(), freeCnt, sbFree, first, left, bgFirst)
        invariant Free() + RunFrees(geo, first, left, bgFirst, bgLast) == old(Free()) + RunFrees(geo, start, count, geo.BgOf(start), bgLast)
        decreases bgLast - bgFirst
      {
        RunFreesIs(geo, first, left, bgFirst, bgLast);
        ghost var free := Free();
        var n := FreeNext(ino, m0, sb0, start, count, first, left, bgFirst, old(ino.fields));
        assert Free() + RunFrees(geo, first + n, left - n, bgFirst + 1, bgLast) == free + RunFrees(geo, first, left, bgFirst, bgLast);
        left := left - n;
        first := first + n;
        bgFirst := bgFirst + 1;
      }
      RunFreesIs(geo, first, left, bgFirst, bgLast);
      RoundEnd(geo, m0, sb0, start, count, Maps(), freeCnt, sbFree, first, left, bgFirst);
      assert left == 0;
    }

    lemma {:induction false} NoRefund(f: InodeBlocks.Fields)
      ensures Refunded(f, f, 0)
    {}

    lemma {:induction false} RefundMore(f: InodeBlocks.Fields, f1: InodeBlocks.Fields, f2: InodeBlocks.Fields, m: nat, n: nat)
      requires Refunded(f, f1, m) && Refunded(f1, f2, n)
      ensures Refunded(f, f2, m + n)
    {
      hide InodeBlocks.GetCount;
      assert (m + n) * params.unit == m * params.unit + n * params.unit;
      assert n * params.unit >= 0;
    }

    method SetCount(ino: InodeRef, count: nat)
      requires params.unit > 0 && count < InodeBlocks.U64
      modifies ino
      ensures ino.fields == InodeBlocks.SetCount(params, old(ino.fields), count).1
      ensures InodeBlocks.Holds(params, count) ==> InodeBlocks.GetCount(params, ino.fields) == count
      ensures ino.dirty
    {
      InodeBlocks.CountRoundTrip(params, ino.fields, count);
      ino.fields := InodeBlocks.SetCount(params, ino.fields, count).1;
      ino.dirty := true;
    }
  }

  lemma {:induction false} GoalPlace(g: Geo, goal: nat)
    requires g.Ok() && goal < g.total
    ensures g.BgOf(goal) < g.GroupCnt() && g.IdxOf(goal) < g.BlocksIn(g.BgOf(goal)) <= 8 * g.bs
  {
    hide Geo.IdxOf, Geo.GroupCnt, Geo.BgOf, Geo.BlocksIn;
    Groups(g);
    if g.first <= goal {
      PlaceOf(g, goal);
    } else {
      PlaceIs(g, goal, 0, 0);
      AddrAt(g, 0, 0);
    }
    RealCovered(g, g.BgOf(goal), g.IdxOf(goal), g.GroupCnt());
    BlocksInGroup(g, g.BgOf(goal));
  }

  lemma {:induction false} NextGroup(n: nat, bg: nat, k: nat)
    requires n > 0
    ensures ((bg + k) % n + 1) % n == (bg + (k + 1)) % n
  {
    var q, r := (bg + k) / n, (bg + k) % n;
    assert bg + k == q * n + r;
    if r + 1 < n {
      ModIs(bg + k + 1, n, q, r + 1);
    } else {
      assert (q + 1) * n == q * n + n;
      ModIs(bg + k + 1, n, q + 1, 0);
      ModIs(r + 1, n, 1, 0);
    }
  }

  lemma {:induction false} ModIs(x: nat, n: nat, q: nat, r: nat)
    requires r < n && x == q * n + r
    ensures x % n == r
  {
    DivMod(q, n, r);
  }

  /** Every group is met within one round. */
  lemma {:induction false} AllGroups(g: Geo, bg: nat, h: nat) returns (k: nat)
    requires g.Ok() && bg < g.GroupCnt() && h < g.GroupCnt()
    ensures 1 <= k <= g.GroupCnt() && GroupAfter(g, bg, k) == h
  {
    hide Geo.GroupCnt;
    var n := g.GroupCnt();
    k := if h > bg then h - bg else h + n - bg;
    if h > bg { ModIs(bg + k, n, 0, h); } else { ModIs(bg + k, n, 1, h); }
  }

  lemma {:induction false} FreedSize(s: seq<bv8>, t: seq<bv8>, lo: nat, hi: nat)
    requires Freed(s, t, lo, hi)
    ensures |s| == |t|
  {}

  lemma {:induction false} InGroupToo(g: Geo, maps: seq<seq<bv8>>, a: nat)
    requires g.bpg > 0
    ensures a in FreeIn(g, maps, g.BgOf(a)) <==> a in FreeSet(g, maps)
  {}

  lemma {:induction false} InItsGroup(g: Geo, maps: seq<seq<bv8>>, a: nat)
    requires g.bpg > 0 && a in FreeSet(g, maps)
    ensures FreeIn(g, maps, g.BgOf(a)) != {}
  {
    assert a in FreeIn(g, maps, g.BgOf(a));
  }

  lemma {:induction false} FreeGroup(g: Geo, maps: seq<seq<bv8>>, a: nat)
    requires BlockMaps(g, maps) && a in FreeSet(g, maps)
    ensures g.Ok() && g.BgOf(a) < g.GroupCnt()
  {
    hide Geo.GroupCnt, Geo.BgOf;
  }

  /** After a full round without a free block there is none. */
  lemma {:induction false} NoFreeGroup(g: Geo, maps: seq<seq<bv8>>, bg: nat)
    requires BlockMaps(g, maps) && bg < g.GroupCnt() && FirstWithFree(g, maps, bg, g.GroupCnt() + 1)
    ensures FreeSet(g, maps) == {}
  {
    hide Geo.GroupCnt, Geo.BgOf, IsFree, GroupAfter, Geo.IdxOf, FreeSet, FreeIn, MapsOk;
    if a: nat :| a in FreeSet(g, maps) {
      FreeGroup(g, maps, a);
      InItsGroup(g, maps, a);
      var k := AllGroups(g, bg, g.BgOf(a));
      assert false;
    }
  }

  /** The scan up to a multiple of 64 has passed the search's unaligned start. */
  lemma {:induction false} NotBefore(s: seq<bv8>, idx: nat, hi: nat, f: nat, tmp: nat)
    requires FirstClear(s, idx, hi, f) && AllSet(s, idx, tmp)
    requires tmp >= (idx + 63) / 64 * 64 || tmp >= hi
    ensures Answer(idx, f) == f
  {
    hide Bit, Up8;
    assert f >= tmp;
    Up8First(idx);
  }

  lemma {:induction false} Up8First(i: nat)
    ensures Up8(i) <= (i + 63) / 64 * 64
  {
    var q, r := i / 64, i % 64;
    if r > 0 {
      assert (i + 63) / 64 == q + 1;
      assert (i + 7) / 8 == 8 * q + (r + 7) / 8;
    }
  }

  lemma {:induction false} FirstIndex(g: Geo, bg: nat)
    requires g.Ok() && bg < g.GroupCnt()
    ensures g.IdxOf(g.BlockOfBg(bg)) == 0
  {
    hide Geo.IdxOf, Geo.GroupCnt, Geo.BgOf, ToU32;
    Groups(g);
    if bg < g.GroupCnt() - 1 { MulMore(bg, g.GroupCnt() - 1, g.bpg); }
    Narrow(bg * g.bpg);
    PlaceIs(g, g.BlockOfBg(bg), bg, 0);
  }
}
