/** The inode allocator: inode bitmaps with counters in the group descriptors and superblock. */
module Ialloc {
  import opened Arith
  import opened Bitmap
  import opened BlockGroups
  import opened FreeMap

  /** Inode numbers count from 1, so they are addresses whose first one is 1: group and index
      conversions are those of blocks. */
  ghost predicate InodeGeo(g: Geo, groups: nat) {
    g.Ok() && g.first == 1 && g.Covers(groups) && groups > 0 && (groups - 1) * g.bpg < g.total - 1
  }

  /** ext4_inodes_in_group_cnt for `groups` groups; g.total - 1 inodes in all. */
  function InodesIn(g: Geo, groups: nat, bg: nat): int {
    if bg < groups - 1 then g.bpg else g.total - 1 - (groups - 1) * g.bpg
  }

  /** h comes before bg in the cyclic order of groups that starts at `last`. */
  predicate Before(last: nat, h: nat, bg: nat) {
    if last <= bg then last <= h < bg else last <= h || h < bg
  }

  /** From `last` on, h is met in fewer steps. */
  lemma {:induction false} BeforeIs(last: nat, h: nat, bg: nat, groups: nat)
    requires last < groups && h < groups && bg < groups
    ensures Before(last, h, bg) <==> (h + groups - last) % groups < (bg + groups - last) % groups
  {
    Around(last, h, groups);
    Around(last, bg, groups);
  }

  lemma {:induction false} Around(last: nat, h: nat, groups: nat)
    requires last < groups && h < groups
    ensures (h + groups - last) % groups == if last <= h then h - last else h + groups - last
  {
    if last <= h { assert h + groups - last == groups + (h - last); }
  }

  /** The lowest free inode of the first group, from `last` on, that has one. */
  ghost predicate Picked(g: Geo, maps: seq<seq<bv8>>, last: nat, ino: nat)
    requires g.bpg > 0
  {
    var bg := g.BgOf(ino);
    && ino in FreeIn(g, maps, bg) && (forall b :: b in FreeIn(g, maps, bg) ==> ino <= b)
    && forall h: nat :: h < |maps| && Before(last, h, bg) ==> FreeIn(g, maps, h) == {}
  }

  /** The inodes of a group past its inode count minus `unused` have never been used. */
  ghost predicate TableUsed(s: seq<bv8>, inodes: int, unused: nat) {
    unused <= inodes <= 8 * |s| && forall i: nat :: i < inodes && Bit(s, i) ==> i < inodes - unused
  }

  lemma {:induction false} InodesInGroup(g: Geo, groups: nat, bg: nat)
    requires InodeGeo(g, groups) && bg < groups
    ensures 0 < InodesIn(g, groups, bg) <= g.bpg
    ensures var before, all := bg * g.bpg, g.total - 1;
            InodesIn(g, groups, bg) == if before + g.bpg <= all then g.bpg else all - before
    ensures forall i: nat :: i < g.bpg ==> (g.Real(bg, i) <==> i < InodesIn(g, groups, bg))
  {
    var last := groups - 1;
    assert (last + 1) * g.bpg == last * g.bpg + g.bpg;
    if bg < last { MulMore(bg, last, g.bpg); }
  }

  /** The search from bit 0 finds the lowest free inode of the group. */
  lemma {:induction false} LowestFree(g: Geo, maps: seq<seq<bv8>>, bg: nat, f: nat)
    requires MapsOk(g, maps) && Padded(g, maps) && InodeGeo(g, |maps|) && bg < |maps|
    requires InodesIn(g, |maps|, bg) >= 0 && FirstClear(maps[bg], 0, InodesIn(g, |maps|, bg), f)
    ensures var a := g.AddrOf(f, bg);
            g.BgOf(a) == bg && a in FreeIn(g, maps, bg) && forall b :: b in FreeIn(g, maps, bg) ==> a <= b
  {
    hide Geo.AddrOf, Geo.BgOf, Geo.IdxOf, Bit, IsFree;
    ClearIsFree(g, maps, bg, f);
    AddrAt(g, bg, f);
    InodesInGroup(g, |maps|, bg);
    forall b | b in FreeIn(g, maps, bg) ensures g.AddrOf(f, bg) <= b {
      FreeIsClear(g, maps, b);
      PlaceOf(g, b);
      assert f <= g.IdxOf(b);
    }
  }

  lemma {:induction false} NoneInGroup(g: Geo, maps: seq<seq<bv8>>, bg: nat)
    requires MapsOk(g, maps) && InodeGeo(g, |maps|) && bg < |maps|
    requires InodesIn(g, |maps|, bg) >= 0 && AllSet(maps[bg], 0, InodesIn(g, |maps|, bg))
    ensures FreeIn(g, maps, bg) == {}
  {
    hide Geo.AddrOf, Geo.BgOf, Geo.IdxOf, Bit, IsFree;
    InodesInGroup(g, |maps|, bg);
    if b :| b in FreeIn(g, maps, bg) {
      FreeIsClear(g, maps, b);
      assert false;
    }
  }

  lemma {:induction false} TableAfterSet(s: seq<bv8>, t: seq<bv8>, inodes: int, unused: nat, i: nat, unused': nat)
    requires TableUsed(s, inodes, unused) && BitChanged(s, t, i, true) && i < inodes
    requires unused' == if i >= inodes - unused then inodes - (i + 1) else unused
    ensures TableUsed(t, inodes, unused')
  {
    hide Bit;
  }

  lemma {:induction false} TableAfterClr(s: seq<bv8>, t: seq<bv8>, inodes: int, unused: nat, i: nat)
    requires TableUsed(s, inodes, unused) && BitChanged(s, t, i, false)
    ensures TableUsed(t, inodes, unused)
  {
    hide Bit;
  }

  /** The counters of groups and superblock equal the number of free inodes. */
  ghost predicate Counted(g: Geo, maps: seq<seq<bv8>>, freeCnt: seq<nat>, sbFree: nat) {
    |freeCnt| == |maps| && g.bpg > 0 && sbFree == |FreeSet(g, maps)| &&
    forall bg :: 0 <= bg < |maps| ==> freeCnt[bg] == |FreeIn(g, maps, bg)|
  }

  lemma {:induction false} CountsAfter(g: Geo, m: seq<seq<bv8>>, m': seq<seq<bv8>>, cnt: seq<nat>, sb: nat, bg: nat, a: nat, v: bool, cnt': seq<nat>, sb': nat)
    requires Counted(g, m, cnt, sb) && |m'| == |m| && bg < |m| && g.BgOf(a) == bg
    requires FreeSet(g, m') == (if v then FreeSet(g, m) - {a} else FreeSet(g, m) + {a})
    requires forall k :: FreeIn(g, m', k) == if k != bg then FreeIn(g, m, k)
                                            else if v then FreeIn(g, m, k) - {a} else FreeIn(g, m, k) + {a}
    requires v ==> a in FreeSet(g, m) && cnt[bg] > 0 && sb > 0
    requires cnt' == cnt[bg := cnt[bg] + if v then -1 else 1] && sb' == sb + if v then -1 else 1
    ensures Counted(g, m', cnt', sb') <==> v || a !in FreeSet(g, m)
  {
    hide Geo.BgOf, IsFree, FreeIn, FreeSet;
    InOwnGroup(g, m, a);
  }

  /** Every group's table is as its counter of unused entries says. */
  ghost predicate TablesOk(g: Geo, maps: seq<seq<bv8>>, unused: seq<nat>) {
    |unused| == |maps| && forall bg :: 0 <= bg < |maps| ==> TableUsed(maps[bg], InodesIn(g, |maps|, bg), unused[bg])
  }

  /** Setting the bit of a free inode, the counters following. */
  lemma {:induction false} InodeTaken(g: Geo, m: seq<seq<bv8>>, m': seq<seq<bv8>>, cnt: seq<nat>, sb: nat, bg: nat, i: nat)
    requires MapsOk(g, m) && Padded(g, m) && Counted(g, m, cnt, sb) && bg < |m| && i < 8 * g.bs && !Bit(m[bg], i)
    requires |m'| == |m| && m' == m[bg := m'[bg]] && BitChanged(m[bg], m'[bg], i, true)
    ensures MapsOk(g, m') && Padded(g, m') && sb > 0 && bg < |cnt| && cnt[bg] > 0
    ensures Counted(g, m', cnt[bg := cnt[bg] - 1], sb - 1)
    ensures g.AddrOf(i, bg) in FreeSet(g, m) && FreeSet(g, m') == FreeSet(g, m) - {g.AddrOf(i, bg)}
  {
    hide Geo.AddrOf, Geo.BgOf, Geo.IdxOf, Geo.Real, Bit, Padded, IsFree, BitChanged, FreeSet, FreeIn;
    SomeFree(g, m, cnt, sb, bg, i);
    ClearIsFree(g, m, bg, i);
    FreeSetAfter(g, m, m', bg, i, true);
    CountsAfter(g, m, m', cnt, sb, bg, g.AddrOf(i, bg), true, cnt[bg := cnt[bg] - 1], sb - 1);
  }

  /** Clearing an inode's bit. */
  lemma {:induction false} InodeGiven(g: Geo, m: seq<seq<bv8>>, m': seq<seq<bv8>>, cnt: seq<nat>, sb: nat, a: nat)
    requires MapsOk(g, m) && Padded(g, m) && Counted(g, m, cnt, sb) && g.first <= a < g.total && g.BgOf(a) < |m|
    requires |m'| == |m| && m' == m[g.BgOf(a) := m'[g.BgOf(a)]] && BitChanged(m[g.BgOf(a)], m'[g.BgOf(a)], g.IdxOf(a), false)
    ensures MapsOk(g, m') && Padded(g, m') && FreeSet(g, m') == FreeSet(g, m) + {a} && g.BgOf(a) < |cnt|
    ensures Counted(g, m', cnt[g.BgOf(a) := cnt[g.BgOf(a)] + 1], sb + 1) <==> a !in FreeSet(g, m)
  {
    hide Geo.AddrOf, Geo.BgOf, Geo.IdxOf, Geo.Real, Bit, Padded, IsFree, BitChanged, FreeSet, FreeIn;
    var bg := g.BgOf(a);
    FreeIsClear(g, m, a);
    FreeSetAfter(g, m, m', bg, g.IdxOf(a), false);
    InOwnGroup(g, m, a);
    CountsAfter(g, m, m', cnt, sb, bg, a, false, cnt[bg := cnt[bg] + 1], sb + 1);
  }

  /** Taking an inode moves its table's mark, giving one back does not. */
  lemma {:induction false} TablesTaken(g: Geo, m: seq<seq<bv8>>, m': seq<seq<bv8>>, unused: seq<nat>, bg: nat, i: nat, u: nat)
    requires TablesOk(g, m, unused) && bg < |m| == |m'| && m' == m[bg := m'[bg]] && BitChanged(m[bg], m'[bg], i, true)
    requires i < InodesIn(g, |m|, bg)
    requires u == if i >= InodesIn(g, |m|, bg) - unused[bg] then InodesIn(g, |m|, bg) - (i + 1) else unused[bg]
    ensures TablesOk(g, m', unused[bg := u])
  {
    hide InodesIn, BitChanged, TableUsed;
    TableAfterSet(m[bg], m'[bg], InodesIn(g, |m|, bg), unused[bg], i, u);
  }

  lemma {:induction false} TablesGiven(g: Geo, m: seq<seq<bv8>>, m': seq<seq<bv8>>, unused: seq<nat>, bg: nat, i: nat)
    requires TablesOk(g, m, unused) && bg < |m| == |m'| && m' == m[bg := m'[bg]] && BitChanged(m[bg], m'[bg], i, false)
    ensures TablesOk(g, m', unused)
  {
    hide InodesIn, BitChanged, TableUsed;
    TableAfterClr(m[bg], m'[bg], InodesIn(g, |m|, bg), unused[bg], i);
  }

  lemma {:induction false} NoneUnused(g: Geo, groups: nat, bg: nat, s: seq<bv8>)
    requires InodeGeo(g, groups) && bg < groups && |s| == g.bs
    ensures TableUsed(s, InodesIn(g, groups, bg), 0)
  {
    hide InodesIn, Bit;
    InodesInGroup(g, groups, bg);
  }

  class Ialloc {
    /** Inodes per group as blocks per group, and one more than the inode count as total. */
    const geo: Geo
    const maps: seq<array<bv8>>
    var freeInodes: seq<nat>
    var usedDirs: seq<nat>
    var itableUnused: seq<nat>
    var sbFreeInodes: nat
    /** fs->last_inode_bg_id. */
    var lastBgId: nat

    ghost function Maps(): (m: seq<seq<bv8>>)
      reads maps
      ensures |m| == |maps| && forall i :: 0 <= i < |m| ==> m[i] == maps[i][..]
    {
      seq(|maps|, i requires 0 <= i < |maps| reads maps => maps[i][..])
    }

    /** The free inode numbers. */
    ghost function Free(): set<nat>
      reads maps
    {
      FreeSet(geo, Maps())
    }

    ghost predicate Tables()
      reads this, maps
    {
      TablesOk(geo, Maps(), itableUnused)
    }

    ghost predicate Valid()
      reads this, maps
    {
      && MapsOk(geo, Maps()) && Padded(geo, Maps()) && InodeGeo(geo, |maps|)
      && |freeInodes| == |usedDirs| == |maps| && lastBgId < |maps| && Tables()
      && Apart(maps)
    }

    ghost predicate Conserved()
      reads this, maps
    {
      Counted(geo, Maps(), freeInodes, sbFreeInodes)
    }

    lemma {:induction false} OneMap(m: seq<seq<bv8>>, bg: nat)
      requires bg < |maps| == |m| && Apart(maps)
      requires forall i :: 0 <= i < |maps| && maps[i] != maps[bg] ==> maps[i][..] == m[i]
      ensures Maps() == m[bg := maps[bg][..]]
    {}

    /** All inodes in use: a state from which the operations can start. */
    constructor (g: Geo, groups: nat)
      requires InodeGeo(g, groups)
      ensures Valid() && Conserved() && geo == g && |maps| == groups && fresh(maps) && Free() == {}
    {
      hide Geo.BgOf, Geo.IdxOf, FreeSet, FreeIn, AllUsed, Padded, Apart, Maps, InodesIn, TableUsed;
      var bitmaps := UsedMaps(g.bs, groups);
      geo, maps := g, bitmaps;
      freeInodes, usedDirs, itableUnused := seq(groups, i => 0), seq(groups, i => 0), seq(groups, i => 0);
      sbFreeInodes, lastBgId := 0, 0;
      new;
      FullDisk(g, Maps());
      forall bg | 0 <= bg < groups ensures TableUsed(Maps()[bg], InodesIn(g, groups, bg), 0) {
        NoneUnused(g, groups, bg, Maps()[bg]);
      }
    }

    /** One bit of a group's bitmap is set or cleared; the other bitmaps stay. */
    method Mark(bg: nat, i: nat, v: bool)
      requires bg < |maps| && i < 8 * maps[bg].Length && Apart(maps)
      modifies maps[bg]
      ensures Maps() == old(Maps())[bg := Maps()[bg]] && BitChanged(old(Maps())[bg], Maps()[bg], i, v)
    {
      hide BitChanged, Apart;
      ghost var m := Maps();
      if v {
        BitSet(maps[bg], i);
      } else {
        BitClr(maps[bg], i);
      }
      OneMap(m, bg);
    }

    /** One group of ext4_ialloc_alloc_inode: a group whose counter is not zero has a clear bit. */
    method TryGroup(bgid: nat) returns (found: bool, i: nat)
      requires Valid() && Conserved() && bgid < |maps|
      ensures found <==> freeInodes[bgid] > 0
      ensures !found ==> FreeIn(geo, Maps(), bgid) == {}
      ensures found ==> 0 <= InodesIn(geo, |maps|, bgid) && FirstClear(maps[bgid][..], 0, InodesIn(geo, |maps|, bgid), i)
    {
      hide Geo.BgOf, Bit, Padded, FreeSet, FreeIn, FirstClear, AllSet, Tables;
      InodesInGroup(geo, |maps|, bgid);
      if freeInodes[bgid] == 0 {
        NoMembers(FreeIn(geo, Maps(), bgid));
        return false, 0;
      }
      ghost var f;
      found, i, f := BitFindClr(maps[bgid], 0, InodesIn(geo, |maps|, bgid));
      if !found {
        NoneInGroup(geo, Maps(), bgid);
        assert false;
      }
      Aligned(f);
    }

    /** The bit is set and all counters follow. */
    method Take(bgid: nat, i: nat, isDir: bool) returns (ino: nat)
      requires Valid() && Conserved() && bgid < |maps| && i < InodesIn(geo, |maps|, bgid) && i < 8 * geo.bs
      requires !Bit(maps[bgid][..], i)
      modifies this, maps[bgid]
      ensures Valid() && Conserved()
      ensures ino == geo.AddrOf(i, bgid) && ino in old(Free()) && Free() == old(Free()) - {ino}
      ensures sbFreeInodes == old(sbFreeInodes) - 1 && lastBgId == bgid
      ensures usedDirs == if isDir then old(usedDirs)[bgid := old(usedDirs)[bgid] + 1] else old(usedDirs)
      ensures Maps() == old(Maps())[bgid := Maps()[bgid]]
      ensures |itableUnused| == |maps| && i < InodesIn(geo, |maps|, bgid) - itableUnused[bgid]
      ensures |old(itableUnused)| == |maps| && itableUnused == Unused(old(itableUnused), bgid, InodesIn(geo, |maps|, bgid), i)
    {
      hide Geo.AddrOf, Geo.BgOf, Geo.IdxOf, Geo.Real, Bit, Padded, IsFree, BitChanged, FreeSet, FreeIn, TablesOk, InodesIn, InodeGeo, Counted, Apart, Maps;
      ghost var m := Maps();
      TablesSized(geo, m, itableUnused);
      Mark(bgid, i, true);
      InodeTaken(geo, m, Maps(), freeInodes, sbFreeInodes, bgid, i);
      freeInodes := freeInodes[bgid := freeInodes[bgid] - 1];
      if isDir {
        usedDirs := usedDirs[bgid := usedDirs[bgid] + 1];
      }
      var inodes := InodesIn(geo, |maps|, bgid);
      var unused := itableUnused[bgid];
      var free := inodes - unused;
      if i >= free {
        unused := inodes - (i + 1);
      }
      TablesTaken(geo, m, Maps(), itableUnused, bgid, i, unused);
      itableUnused := itableUnused[bgid := unused];
      sbFreeInodes := sbFreeInodes - 1;
      ino := geo.AddrOf(i, bgid);
      lastBgId := bgid;
    }

    /** The walk over the groups: up to the last one, then from the first up to the start. */
    method FindInode() returns (found: bool, bgid: nat, i: nat)
      requires Valid() && Conserved()
      ensures found ==> bgid < |maps| && 0 <= InodesIn(geo, |maps|, bgid)
                        && FirstClear(maps[bgid][..], 0, InodesIn(geo, |maps|, bgid), i)
      ensures found ==> forall h: nat :: h < |maps| && Before(lastBgId, h, bgid) ==> FreeIn(geo, Maps(), h) == {}
      ensures !found ==> Free() == {}
    {
      hide Geo.AddrOf, Geo.BgOf, Geo.IdxOf, Geo.Real, Bit, Padded, FreeSet, FreeIn, InodesIn, Tables, Counted, FirstClear, InodeGeo;
      ghost var m := Maps();
      found, i := false, 0;
      bgid := lastBgId;
      var bgCount: nat := |maps|;
      var rewind := false;
      while bgid <= bgCount
        invariant !rewind ==> bgCount == |maps| && lastBgId <= bgid
        invariant rewind ==> bgCount == lastBgId
        invariant bgid <= bgCount
        invariant forall h: nat :: h < |maps| && Visited(lastBgId, h, bgid, rewind) ==> FreeIn(geo, m, h) == {}
        decreases !rewind, bgCount - bgid
      {
        if bgid == bgCount {
          if rewind {
            break;
          }
          bgCount := lastBgId;
          bgid := 0;
          rewind := true;
          continue;
        }
        found, i := TryGroup(bgid);
        if found {
          return;
        }
        bgid := bgid + 1;
      }
      NoFreeInode(geo, m);
    }

    /** ext4_ialloc_alloc_inode, without device errors: each group is looked at once, starting at
        the group of the last allocation; it fails (ENOSPC) exactly when no inode is free. */
    method AllocInode(isDir: bool) returns (ok: bool, ino: nat)
      requires Valid() && Conserved()
      modifies this, maps
      ensures Valid() && Conserved()
      ensures ok <==> old(Free()) != {}
      ensures ok ==> ino in old(Free()) && Free() == old(Free()) - {ino} && geo.bpg > 0
                     && Picked(geo, old(Maps()), old(lastBgId), ino)
      ensures ok ==> sbFreeInodes == old(sbFreeInodes) - 1 && lastBgId == geo.BgOf(ino) < |itableUnused| == |maps|
                     && geo.IdxOf(ino) < InodesIn(geo, |maps|, lastBgId) - itableUnused[lastBgId]
      ensures ok ==> lastBgId < |old(itableUnused)| &&
                     itableUnused == Unused(old(itableUnused), lastBgId, InodesIn(geo, |maps|, lastBgId), geo.IdxOf(ino))
      ensures ok ==> geo.first <= ino < geo.total && !InUse(geo, old(Maps()), ino) && InUse(geo, Maps(), ino)
      ensures ok ==> lastBgId < |old(usedDirs)| &&
                     usedDirs == if isDir then old(usedDirs)[lastBgId := old(usedDirs)[lastBgId] + 1] else old(usedDirs)
      ensures !ok ==> Maps() == old(Maps()) && freeInodes == old(freeInodes) && sbFreeInodes == old(sbFreeInodes)
                      && usedDirs == old(usedDirs) && lastBgId == old(lastBgId)
    {
      hide Geo.AddrOf, Geo.BgOf, Geo.IdxOf, Geo.Real, Bit, Padded, FreeSet, FreeIn, InodesIn, Tables, Counted, FirstClear, InodeGeo;
      var found, bgid, i := FindInode();
      if !found {
        return false, 0;
      }
      LowestFree(geo, Maps(), bgid, i);
      AddrPlace(geo, Maps(), bgid, i);
      ghost var m := Maps();
      ino := Take(bgid, i, isDir);
      WasFree(geo, m, Maps(), ino);
      return true, ino;
    }

    /** ext4_ialloc_free_inode: the counters still agree with the bitmaps exactly when the inode
        was in use. The directory counter is a 32-bit one. */
    method FreeInode(index: nat, isDir: bool)
      requires Valid() && Conserved() && 1 <= index < geo.total
      modifies this, maps
      ensures Valid() && Free() == old(Free()) + {index} && sbFreeInodes == old(sbFreeInodes) + 1
      ensures geo.bpg > 0 && geo.first <= index && !InUse(geo, Maps(), index)
      ensures Conserved() <==> index !in old(Free())
      ensures lastBgId == old(lastBgId) && geo.bpg > 0 && geo.BgOf(index) < |usedDirs|
      ensures usedDirs == if isDir then old(usedDirs)[geo.BgOf(index) := (old(usedDirs)[geo.BgOf(index)] - 1) % U32] else old(usedDirs)
    {
      hide Geo.AddrOf, Geo.BgOf, Geo.IdxOf, Geo.Real, Bit, Padded, IsFree, BitChanged, FreeSet, FreeIn, TablesOk, InodesIn, InodeGeo, Counted, Apart, Maps;
      ghost var m := Maps();
      FirstIsOne(geo, |maps|);
      FreeIsClear(geo, m, index);
      var bg := geo.BgOf(index);
      var i := geo.IdxOf(index);
      Mark(bg, i, false);
      InodeGiven(geo, m, Maps(), freeInodes, sbFreeInodes, index);
      TablesGiven(geo, m, Maps(), itableUnused, bg, i);
      if isDir {
        usedDirs := usedDirs[bg := (usedDirs[bg] - 1) % U32];
      }
      freeInodes := freeInodes[bg := freeInodes[bg] + 1];
      sbFreeInodes := sbFreeInodes + 1;
      FreeIsZero(geo, Maps(), index);
    }
  }

  lemma {:induction false} TablesSized(g: Geo, maps: seq<seq<bv8>>, unused: seq<nat>)
    requires TablesOk(g, maps, unused)
    ensures |unused| == |maps|
    ensures forall bg :: 0 <= bg < |maps| ==> unused[bg] <= InodesIn(g, |maps|, bg)
  {}

  lemma {:induction false} SomeFree(g: Geo, m: seq<seq<bv8>>, cnt: seq<nat>, sb: nat, bg: nat, i: nat)
    requires MapsOk(g, m) && Padded(g, m) && Counted(g, m, cnt, sb) && bg < |m| && i < 8 * g.bs && !Bit(m[bg], i)
    ensures sb > 0 && bg < |cnt| && cnt[bg] > 0
  {
    hide Geo.BgOf, IsFree, Geo.AddrOf, Bit;
    ClearIsFree(g, m, bg, i);
  }

  /** The counts of never used inodes, kept at the end of each group: inode i of a group of `inodes` is used,
      and so are all before it. */
  function Unused(counts: seq<nat>, bg: nat, inodes: nat, i: nat): seq<nat>
    requires bg < |counts| && i < inodes
  {
    counts[bg := if i + counts[bg] < inodes then counts[bg] else inodes - i - 1]
  }

  /** The groups looked at before bgid. */
  predicate Visited(last: nat, h: nat, bgid: nat, rewind: bool) {
    if rewind then last <= h || h < bgid else last <= h < bgid
  }

  lemma {:induction false} NoMembers(s: set<nat>)
    requires |s| == 0
    ensures s == {}
  {}

  lemma {:induction false} Aligned(f: nat)
    ensures Answer(0, f) == f
  {}

  lemma {:induction false} FirstIsOne(g: Geo, n: nat)
    requires InodeGeo(g, n)
    ensures g.first == 1
  {}

  lemma {:induction false} InOwnGroup(g: Geo, maps: seq<seq<bv8>>, a: nat)
    requires g.bpg > 0
    ensures a in FreeIn(g, maps, g.BgOf(a)) <==> a in FreeSet(g, maps)
  {}

  lemma {:induction false} AddrPlace(g: Geo, maps: seq<seq<bv8>>, bg: nat, f: nat)
    requires MapsOk(g, maps) && Padded(g, maps) && InodeGeo(g, |maps|) && bg < |maps|
    requires InodesIn(g, |maps|, bg) >= 0 && FirstClear(maps[bg], 0, InodesIn(g, |maps|, bg), f)
    ensures f < 8 * g.bs && f < InodesIn(g, |maps|, bg) && !Bit(maps[bg], f)
    ensures g.BgOf(g.AddrOf(f, bg)) == bg && g.IdxOf(g.AddrOf(f, bg)) == f
  {
    hide Geo.AddrOf, Geo.BgOf, Geo.IdxOf, Bit, IsFree;
    ClearIsFree(g, maps, bg, f);
    AddrAt(g, bg, f);
  }

  lemma {:induction false} NoFreeInode(g: Geo, maps: seq<seq<bv8>>)
    requires MapsOk(g, maps) && forall h: nat :: h < |maps| ==> FreeIn(g, maps, h) == {}
    ensures FreeSet(g, maps) == {}
  {
    hide Geo.BgOf, IsFree, Geo.IdxOf, FreeIn;
    if a :| a in FreeSet(g, maps) {
      FreeIsClear(g, maps, a);
      InOwnGroup(g, maps, a);
      assert false;
    }
  }

  /** Numbers and places of inodes: the conversions are inverse on the valid numbers. */
  lemma {:induction false} InodeRoundTrip(g: Geo, groups: nat, ino: nat)
    requires InodeGeo(g, groups) && 1 <= ino < g.total
    ensures g.AddrOf(g.IdxOf(ino), g.BgOf(ino)) == ino && g.BgOf(ino) < groups
    ensures g.IdxOf(ino) < InodesIn(g, groups, g.BgOf(ino))
  {
    hide Geo.AddrOf, Geo.BgOf, Geo.IdxOf;
    AddressRoundTrip(g, ino);
    PlaceOf(g, ino);
    RealCovered(g, g.BgOf(ino), g.IdxOf(ino), groups);
    InodesInGroup(g, groups, g.BgOf(ino));
  }
}
