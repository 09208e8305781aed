/** The block cache as the source keeps it: buffers shared by pointer between the address tree,
    the LRU tree, the dirty list and the clients that hold references. */
module Bcache {
  import opened BcacheSpec

  /** struct ext4_buf. */
  class Buf {
    const lba: nat
    var data: Data
    var uptodate: bool
    var dirty: bool
    var flush: bool
    var tmp: bool
    var lruId: nat
    var refctr: nat
    var onDirtyList: bool

    ghost function Val(): BufV
      reads this
    {
      BufV(data, uptodate, dirty, flush, tmp, lruId, refctr, onDirtyList)
    }

    constructor (lba: nat, junk: Data)
      ensures this.lba == lba && Val() == BufV(junk, false, false, false, false, 0, 0, false)
    {
      this.lba, data := lba, junk;
      uptodate, dirty, flush, tmp := false, false, false, false;
      lruId, refctr, onDirtyList := 0, 0, false;
    }
  }

  function Lbas(s: seq<Buf>): seq<nat> {
    seq(|s|, i requires 0 <= i < |s| => s[i].lba)
  }

  lemma {:induction false} LbasWithout(s: seq<Buf>, b: Buf)
    requires forall x :: x in s && x.lba == b.lba ==> x == b
    ensures Lbas(Without(s, b)) == Without(Lbas(s), b.lba)
    ensures forall x :: x in Without(s, b) ==> x in s
  {
    if s != [] {
      LbasWithout(s[1..], b);
      assert Lbas(s) == [s[0].lba] + Lbas(s[1..]);
      if s[0] != b {
        assert Lbas([s[0]] + Without(s[1..], b)) == [s[0].lba] + Lbas(Without(s[1..], b));
      }
    }
  }

  function LruLbas(m: map<nat, Buf>): map<nat, nat> {
    map id | id in m :: m[id].lba
  }

  lemma {:induction false} LruMinus(m: map<nat, Buf>, id: nat)
    ensures LruLbas(m - {id}) == LruLbas(m) - {id}
  {}

  lemma {:induction false} LruPlus(m: map<nat, Buf>, id: nat, b: Buf)
    ensures LruLbas(m[id := b]) == LruLbas(m)[id := b.lba]
  {}

  lemma {:induction false} InLbas(s: seq<Buf>, b: Buf)
    requires b in s
    ensures b.lba in Lbas(s)
  {
    var i :| 0 <= i < |s| && s[i] == b;
    assert Lbas(s)[i] == b.lba;
  }

  // ----- pointers

  predicate InTree(t: map<nat, Buf>, b: Buf) {
    b.lba in t && t[b.lba] == b
  }

  /** All pointers lead to buffers of the address tree. */
  ghost predicate TiedTo(t: map<nat, Buf>, lru: map<nat, Buf>, dirty: seq<Buf>) {
    && (forall l :: l in t ==> t[l].lba == l)
    && (forall id :: id in lru ==> InTree(t, lru[id]))
    && (forall b :: b in dirty ==> InTree(t, b))
  }

  /** Taking b off the dirty list. */
  lemma {:induction false} TiedWithout(t: map<nat, Buf>, lru: map<nat, Buf>, dirty: seq<Buf>, b: Buf)
    requires TiedTo(t, lru, dirty) && InTree(t, b)
    ensures TiedTo(t, lru, Without(dirty, b)) && Lbas(Without(dirty, b)) == Without(Lbas(dirty), b.lba)
  {
    LbasWithout(dirty, b);
  }

  /** Taking b out of the tree once no list leads to it. */
  lemma {:induction false} TiedDrop(t: map<nat, Buf>, lru: map<nat, Buf>, dirty: seq<Buf>, b: Buf)
    requires TiedTo(t, lru, dirty) && InTree(t, b)
    requires b.lba !in Lbas(dirty) && forall id :: id in lru ==> lru[id] != b
    ensures TiedTo(t - {b.lba}, lru, dirty)
  {
    forall x | x in dirty ensures InTree(t - {b.lba}, x) {
      if x == b { InLbas(dirty, b); }
    }
  }

  /** struct ext4_bcache together with the device it is bound to. */
  class Cache {
    const cnt: nat
    var lruCtr: nat
    var refBlocks: nat
    var dontShake: bool
    /** lba_root: all buffers by block address. */
    var lbaTree: map<nat, Buf>
    /** lru_root: the unreferenced buffers by LRU id. */
    var lruTree: map<nat, Buf>
    /** dirty_list, head first. */
    var dirtyList: seq<Buf>
    /** The device's logical blocks and its write-back counter. */
    var disk: seq<Data>
    var writeBack: nat

    predicate Cached(b: Buf)
      reads this`lbaTree
    {
      InTree(lbaTree, b)
    }

    ghost predicate Tied()
      reads this`lbaTree, this`lruTree, this`dirtyList
    {
      TiedTo(lbaTree, lruTree, dirtyList)
    }

    ghost function Vals(): map<nat, BufV>
      reads this`lbaTree, lbaTree.Values
    {
      map l | l in lbaTree :: lbaTree[l].Val()
    }

    /** The abstract state. */
    ghost function Abs(): State
      reads this, lbaTree.Values
    {
      State(lruCtr, refBlocks, Vals(), LruLbas(lruTree), Lbas(dirtyList), disk, writeBack)
    }

    ghost predicate Valid()
      reads this, lbaTree.Values
    {
      Tied() && Settled(Abs()) && !dontShake && 0 < cnt
    }

    constructor Init(cnt: nat, disk: seq<Data>)
      requires cnt > 0
      ensures Valid() && this.cnt == cnt && lbaTree == map[] && View(Abs()) == disk && writeBack == 0 && lruCtr == 0
    {
      this.cnt := cnt;
      lruCtr, refBlocks, dontShake := 0, 0, false;
      lbaTree, lruTree, dirtyList := map[], map[], [];
      this.disk := disk;
      writeBack := 0;
      new;
      assert Abs() == State(0, 0, map[], map[], [], disk, 0);
    }

    // ----- the buffers' abstract values after a change

    lemma {:induction false} AllVals()
      ensures Vals().Keys == lbaTree.Keys && forall l :: l in lbaTree ==> Vals()[l] == lbaTree[l].Val()
    {}

    lemma {:induction false} ValOf(b: Buf)
      requires Cached(b)
      ensures b.lba in Vals() && Vals()[b.lba] == b.Val()
    {}

    /** Only buffer b differs from the values m. */
    lemma {:induction false} OneChanged(m: map<nat, BufV>, b: Buf)
      requires Tied() && Cached(b) && lbaTree.Keys == m.Keys
      requires forall l :: l in lbaTree && lbaTree[l] != b ==> lbaTree[l].Val() == m[l]
      ensures Vals() == m[b.lba := b.Val()]
    {}

    /** Buffer b left the address tree. */
    lemma {:induction false} OneGone(m: map<nat, BufV>, l: nat)
      requires l in m && lbaTree.Keys == m.Keys - {l}
      requires forall k :: k in lbaTree ==> lbaTree[k].Val() == m[k]
      ensures Vals() == m - {l}
    {}

    /** Only fields of buffer b changed since state s. */
    lemma {:induction false} Changed(s: State, b: Buf)
      requires Tied() && Cached(b) && lbaTree.Keys == s.bufs.Keys
      requires forall l :: l in lbaTree && lbaTree[l] != b ==> lbaTree[l].Val() == s.bufs[l]
      requires SameLists(s)
      ensures Abs() == Put(s, b.lba, b.Val())
    {
      hide LruLbas, Lbas, Vals;
      OneChanged(s.bufs, b);
    }

    ghost predicate SameLists(s: State)
      reads this
    {
      s.lruCtr == lruCtr && s.refBlocks == refBlocks && s.lru == LruLbas(lruTree) && s.dirty == Lbas(dirtyList)
      && s.disk == disk && s.writeBack == writeBack
    }

    lemma {:induction false} HasVal(b: Buf)
      requires Cached(b)
      ensures b.lba in Abs().bufs && Abs().bufs[b.lba] == b.Val() && Abs().writeBack == writeBack && Abs().disk == disk
    {}

    lemma {:induction false} HasAll()
      ensures Abs().bufs.Keys == lbaTree.Keys && forall l :: l in lbaTree ==> Abs().bufs[l] == lbaTree[l].Val()
      ensures SameLists(Abs())
    {}

    method SetRefctr(b: Buf, n: nat)
      requires Tied() && Cached(b)
      modifies b`refctr
      ensures b.refctr == n && Abs() == Put(old(Abs()), b.lba, old(b.Val()).(refctr := n))
    {
      hide TiedTo, Abs, LruLbas, Lbas, SameLists;
      HasVal(b);
      HasAll();
      ghost var s := Abs();
      b.refctr := n;
      Changed(s, b);
    }

    method SetFlush(b: Buf, v: bool)
      requires Tied() && Cached(b)
      modifies b`flush
      ensures Abs() == Put(old(Abs()), b.lba, old(b.Val()).(flush := v))
    {
      hide TiedTo, Abs, LruLbas, Lbas, SameLists;
      HasVal(b);
      HasAll();
      ghost var s := Abs();
      b.flush := v;
      Changed(s, b);
    }

    method SetState(b: Buf, uptodate: bool, dirty: bool)
      requires Tied() && Cached(b)
      modifies b`uptodate, b`dirty
      ensures b.uptodate == uptodate && Abs() == Put(old(Abs()), b.lba, old(b.Val()).(uptodate := uptodate, dirty := dirty))
    {
      hide TiedTo, Abs, LruLbas, Lbas, SameLists;
      HasVal(b);
      HasAll();
      ghost var s := Abs();
      b.uptodate, b.dirty := uptodate, dirty;
      Changed(s, b);
    }

    // ----- the dirty list

    method InsertDirtyNode(b: Buf)
      requires Tied() && Cached(b)
      modifies this`dirtyList, b`onDirtyList
      ensures Tied() && Abs() == Queued(old(Abs()), b.lba)
    {
      hide TiedTo, LruLbas;
      ghost var m := Vals();
      if !b.onDirtyList {
        TiedCons(lbaTree, lruTree, dirtyList, b);
        dirtyList := [b] + dirtyList;
        b.onDirtyList := true;
      }
      OneChanged(m, b);
    }

    method RemoveDirtyNode(b: Buf)
      requires Tied() && Cached(b)
      modifies this`dirtyList, b`onDirtyList
      ensures Tied() && !b.onDirtyList
      ensures Lbas(dirtyList) == if old(b.onDirtyList) then Without(Lbas(old(dirtyList)), b.lba) else Lbas(old(dirtyList))
      ensures Abs() == Unqueued(old(Abs()), b.lba)
    {
      hide TiedTo, LruLbas, Without, Lbas, Vals;
      AllVals();
      ValOf(b);
      ghost var m := Vals();
      TiedWithout(lbaTree, lruTree, dirtyList, b);
      if b.onDirtyList {
        dirtyList := Without(dirtyList, b);
        b.onDirtyList := false;
      }
      OneChanged(m, b);
    }

    method WriteDisk(b: Buf)
      requires Tied() && Cached(b) && b.lba < |disk|
      modifies this`disk
      ensures Abs() == Written(old(Abs()), b.lba)
    {
      hide TiedTo, LruLbas, Lbas, Vals;
      ValOf(b);
      disk := disk[b.lba := b.data];
    }

    /** ext4_block_flush_buf, without write errors and end-of-write callbacks. */
    method FlushBuf(b: Buf)
      requires Tied() && Cached(b) && b.lba < |disk|
      modifies this`dirtyList, this`disk, b`onDirtyList, b`uptodate, b`dirty
      ensures Tied() && Abs() == FlushOf(old(Abs()), b.lba) && b.uptodate == old(b.uptodate)
    {
      hide TiedTo, Abs, Unqueued, Put, LruLbas, Lbas;
      HasVal(b);
      if b.dirty && b.uptodate {
        FlushIs(Abs(), b.lba);
        WriteDisk(b);
        RemoveDirtyNode(b);
        HasVal(b);
        SetState(b, true, false);
      }
    }

    method LeaveLru(b: Buf)
      requires Tied() && Cached(b)
      modifies this`lruTree
      ensures Tied() && Abs() == OutOfLru(old(Abs()), b.lba)
    {
      hide TiedTo, LruLbas, Lbas, Vals;
      ValOf(b);
      if b.refctr == 0 {
        LruMinus(lruTree, b.lruId);
        TiedLruMinus(lbaTree, lruTree, dirtyList, b.lruId);
        lruTree := lruTree - {b.lruId};
      }
    }

    /** A buffer that nothing else leads to leaves the address tree. */
    method Unlink(b: Buf)
      requires Tied() && Cached(b) && Loose(Abs(), b.lba) && refBlocks > 0
      modifies this`lbaTree, this`refBlocks
      ensures Tied() && lbaTree == old(lbaTree) - {b.lba} && refBlocks == old(refBlocks) - 1
      ensures var s := old(Abs()); Abs() == s.(bufs := s.bufs - {b.lba}, refBlocks := refBlocks)
    {
      hide TiedTo, Lbas, Vals;
      AllVals();
      ghost var m := Vals();
      NotInLru(b);
      TiedDrop(lbaTree, lruTree, dirtyList, b);
      lbaTree := lbaTree - {b.lba};
      refBlocks := refBlocks - 1;
      OneGone(m, b.lba);
    }

    lemma {:induction false} NotInLru(b: Buf)
      requires Loose(Abs(), b.lba)
      ensures b.lba !in Lbas(dirtyList) && forall id :: id in lruTree ==> lruTree[id] != b
    {
      forall id | id in lruTree ensures lruTree[id] != b {
        assert Abs().lru[id] == lruTree[id].lba;
      }
    }

    /** ext4_bcache_drop_buf. */
    method DropBuf(b: Buf)
      requires Tied() && Cached(b) && Ok(Abs())
      modifies this`lruTree, this`lbaTree, this`dirtyList, this`refBlocks, b`onDirtyList
      ensures refBlocks == old(refBlocks) - 1 && Abs().refBlocks == refBlocks && old(Abs()).refBlocks > 0
      ensures Tied() && Abs() == DropOf(old(Abs()), b.lba)
      ensures lbaTree == old(lbaTree) - {b.lba}
    {
      hide TiedTo, Abs, LruLbas, Lbas, Ok, OutOfLru, Unqueued, Loose, DropOf;
      HasVal(b);
      HasCount();
      DropIs(Abs(), b.lba);
      LeaveLru(b);
      if b.dirty {
        RemoveDirtyNode(b);
      }
      Unlink(b);
      HasCount();
    }

    lemma {:induction false} HasCount()
      ensures Abs().refBlocks == refBlocks
    {}

    // ----- references

    /** A new LRU id, outside the LRU tree. */
    method Renew(b: Buf)
      requires Tied() && Cached(b)
      modifies this`lruCtr, this`lruTree, b`lruId
      ensures Tied() && Abs() == Renewed(old(Abs()), b.lba)
    {
      hide TiedTo, LruLbas, Lbas, Vals, NextId;
      AllVals();
      ValOf(b);
      NextIs(Abs());
      ghost var m := Vals();
      lruCtr := (lruCtr + 1) % U32;
      LruMinus(lruTree, b.lruId);
      TiedLruMinus(lbaTree, lruTree, dirtyList, b.lruId);
      lruTree := lruTree - {b.lruId};
      b.lruId := lruCtr;
      OneChanged(m, b);
    }

    /** The first reference takes the buffer out of the LRU tree and off the dirty list. */
    method FirstReference(b: Buf)
      requires Tied() && Cached(b) && b.refctr == 0
      modifies this`lruCtr, this`lruTree, this`dirtyList, b`lruId, b`onDirtyList, b`refctr
      ensures Tied() && Abs() == FindGetOf(old(Abs()), b.lba)
    {
      hide TiedTo, Renewed, Unqueued, Put, FindGetOf, Abs, LruLbas, Lbas;
      HasVal(b);
      ghost var s := Abs();
      Renew(b);
      ghost var t := Abs();
      if b.dirty {
        RemoveDirtyNode(b);
      }
      HasVal(b);
      ghost var u := Abs();
      SetRefctr(b, b.refctr + 1);
      assert Abs() == Held(u, b.lba);
      FirstReferenceIs(s, b.lba);
    }

    /** The body of ext4_bcache_find_get once the buffer is looked up. */
    method Reference(b: Buf)
      requires Tied() && Cached(b)
      modifies this`lruCtr, this`lruTree, this`dirtyList, b`lruId, b`onDirtyList, b`refctr
      ensures Tied() && Abs() == FindGetOf(old(Abs()), b.lba)
    {
      hide TiedTo, Abs, LruLbas, Lbas;
      HasVal(b);
      if b.refctr == 0 {
        FirstReference(b);
      } else {
        SetRefctr(b, b.refctr + 1);
      }
    }

    /** ext4_bcache_find_get: null when the block is not cached. */
    method FindGet(lba: nat) returns (b: Buf?)
      requires Tied()
      modifies this`lruCtr, this`lruTree, this`dirtyList, lbaTree.Values
      ensures Tied()
      ensures b == null <==> lba !in lbaTree
      ensures b == null ==> Abs() == old(Abs())
      ensures b != null ==> Cached(b) && b.lba == lba && Abs() == FindGetOf(old(Abs()), lba)
    {
      hide TiedTo, LruLbas, Lbas, Abs;
      if lba !in lbaTree {
        return null;
      }
      b := lbaTree[lba];
      TreeLba(lbaTree, lruTree, dirtyList, lba);
      Reference(b);
    }

    /** buf_alloc, referenced once under a new LRU id. */
    method NewBuf(lba: nat, junk: Data) returns (b: Buf)
      modifies this`lruCtr
      ensures fresh(b) && lruCtr == NextId(old(Abs())) && b.lba == lba
      ensures b.Val() == BufV(junk, false, false, false, false, lruCtr, 1, false)
    {
      hide Vals, LruLbas, Lbas;
      b := new Buf(lba, junk);
      b.refctr := b.refctr + 1;
      lruCtr := (lruCtr + 1) % U32;
      b.lruId := lruCtr;
    }

    /** The new buffer of ext4_bcache_alloc. */
    method AddBuf(lba: nat, junk: Data) returns (b: Buf)
      requires Tied() && lba !in lbaTree
      modifies this`lruCtr, this`lbaTree, this`refBlocks
      ensures Tied() && Cached(b) && b.lba == lba && fresh(b) && lbaTree == old(lbaTree)[lba := b]
      ensures Abs() == AllocOf(old(Abs()), lba, junk)
    {
      hide TiedTo, LruLbas, Lbas, Vals, NextId;
      AllVals();
      ghost var m := Vals();
      b := NewBuf(lba, junk);
      TiedNew(lbaTree, lruTree, dirtyList, b);
      lbaTree := lbaTree[lba := b];
      refBlocks := refBlocks + 1;
      OneNew(m, b);
    }

    /** ext4_bcache_alloc: the cached buffer, or a new one over memory that holds `junk`. */
    method Alloc(lba: nat, junk: Data) returns (b: Buf)
      requires Tied()
      modifies this`lruCtr, this`lruTree, this`dirtyList, this`lbaTree, this`refBlocks, lbaTree.Values
      ensures Tied() && Cached(b) && b.lba == lba && fresh(lbaTree.Values - old(lbaTree.Values))
      ensures Abs() == if lba in old(lbaTree) then FindGetOf(old(Abs()), lba) else AllocOf(old(Abs()), lba, junk)
      ensures forall l :: l in old(lbaTree) ==> l in lbaTree && lbaTree[l] == old(lbaTree)[l]
    {
      hide TiedTo, LruLbas, Without, Lbas, Abs;
      var found := FindGet(lba);
      if found != null {
        return found;
      }
      b := AddBuf(lba, junk);
    }

    // ----- releasing

    /** A released dirty buffer waits on the dirty list or is written at once. */
    method QueueOrWrite(b: Buf)
      requires Tied() && Cached(b) && b.lba < |disk|
      modifies this`dirtyList, this`disk, b`onDirtyList, b`uptodate, b`dirty, b`flush
      ensures Tied() && b.uptodate == old(b.uptodate)
      ensures Abs() == if writeBack > 0 && !old(b.flush) && !b.tmp then Queued(old(Abs()), b.lba)
                       else Unflag(FlushOf(old(Abs()), b.lba), b.lba)
    {
      hide TiedTo, Abs, LruLbas, Lbas, FlushOf, Queued;
      HasVal(b);
      if writeBack > 0 && !b.flush && !b.tmp {
        InsertDirtyNode(b);
      } else {
        FlushBuf(b);
        HasVal(b);
        SetFlush(b, false);
      }
    }

    /** The reference goes; the last one enters the buffer into the LRU tree and queues or
        writes it. */
    method Release(b: Buf)
      requires Tied() && Cached(b) && b.refctr > 0 && b.lba < |disk|
      modifies this`lruTree, this`dirtyList, this`disk, b`refctr, b`onDirtyList, b`uptodate, b`dirty, b`flush
      ensures Tied() && Abs() == ReleaseOf(old(Abs()), b.lba) && b.uptodate == old(b.uptodate)
    {
      hide TiedTo, Abs, LruLbas, Lbas, FlushOf, Queued, Unflag, Put, ReleaseOf;
      HasVal(b);
      ghost var s := Abs();
      SetRefctr(b, b.refctr - 1);
      ghost var t := Abs();
      ReleaseIs(s, t, b.lba);
      HasVal(b);
      if b.refctr == 0 {
        InsertLru(b);
        HasVal(b);
        if b.dirty && b.uptodate {
          QueueOrWrite(b);
        }
      }
    }

    /** RB_INSERT: an equal key keeps the node that is there. */
    method InsertLru(b: Buf)
      requires Tied() && Cached(b)
      modifies this`lruTree
      ensures Tied()
      ensures Abs() == var s := old(Abs()); s.(lru := if b.lruId in s.lru then s.lru else s.lru[b.lruId := b.lba])
    {
      hide TiedTo, Lbas, Vals;
      LruPlus(lruTree, b.lruId, b);
      TiedLruPlus(lbaTree, lruTree, dirtyList, b.lruId, b);
      if b.lruId !in lruTree {
        lruTree := lruTree[b.lruId := b];
      }
    }

    /** ext4_bcache_free: block 0 is refused by an assertion. */
    method Free(b: Buf)
      requires Tied() && Ok(Abs()) && Cached(b) && b.refctr > 0 && b.lba != 0
      modifies this, b
      ensures Tied() && b.lba < |old(disk)| && Abs() == FreeOf(old(Abs()), b.lba)
      ensures dontShake == old(dontShake) && writeBack == old(writeBack)
      ensures lbaTree == old(lbaTree) || lbaTree == old(lbaTree) - {b.lba}
    {
      hide TiedTo, Abs, LruLbas, Lbas, ReleaseOf, Ok, DropOf;
      HasVal(b);
      ghost var s := Abs();
      BufFacts(b);
      var last := b.refctr == 1;
      if last { LastRelease(s, b.lba); }
      Release(b);
      if last && (!b.uptodate || b.tmp) {
        DropBuf(b);
      }
    }

    lemma {:induction false} BufFacts(b: Buf)
      requires Tied() && Cached(b) && Ok(Abs())
      ensures Abs().bufs[b.lba] == b.Val() && b.lba < |disk| && (b.dirty ==> b.uptodate)
    {
      assert Abs().bufs[b.lba] == b.Val();
      assert Coherent(Abs().bufs[b.lba], b.lba, disk);
    }

    /** ext4_bcache_invalidate_buf. */
    method InvalidateBuf(b: Buf)
      requires Tied() && Cached(b)
      modifies this`dirtyList, b`onDirtyList, b`uptodate, b`dirty
      ensures Tied() && Abs() == InvalidateOf(old(Abs()), b.lba)
    {
      hide TiedTo, Abs, LruLbas, Lbas, InvalidateOf, Unqueued, Put;
      HasVal(b);
      InvalidateIs(Abs(), b.lba);
      if b.dirty {
        RemoveDirtyNode(b);
      }
      HasVal(b);
      SetState(b, false, false);
    }

    // ----- eviction

    /** One round of the shake: the buffer with the least LRU id is written and dropped. */
    method EvictOne() returns (ghost id: nat)
      requires Tied() && Ok(Abs()) && lruTree != map[]
      modifies this`lruTree, this`lbaTree, this`dirtyList, this`refBlocks, this`disk, lbaTree.Values
      ensures Tied() && IsLeast(old(Abs()).lru.Keys, id)
      ensures old(Abs()).lru[id] in old(Abs()).bufs && old(Abs()).lru[id] < |old(Abs()).disk| && old(Abs()).refBlocks > 0
      ensures Abs() == EvictOf(old(Abs()), id)
      ensures lbaTree == old(lbaTree) - {old(Abs()).lru[id]}
    {
      hide TiedTo, Ok, FlushOf, DropOf;
      ghost var s := Abs();
      LeastExists(lruTree.Keys);
      var least :| least in lruTree && IsLeast(lruTree.Keys, least);
      id := least;
      assert LruLbas(lruTree).Keys == lruTree.Keys;
      EvictOk(s, id);
      var b := lruTree[least];
      LruCached(lbaTree, lruTree, dirtyList, least);
      ValOf(b);
      FlushOk(s, b.lba);
      if b.dirty {
        FlushBuf(b);
      }
      DropBuf(b);
    }

    /** Buffer b joined the address tree. */
    lemma {:induction false} OneNew(m: map<nat, BufV>, b: Buf)
      requires Cached(b) && lbaTree.Keys == m.Keys + {b.lba} && b.lba !in m
      requires forall l :: l in m ==> lbaTree[l].Val() == m[l]
      ensures Vals() == m[b.lba := b.Val()]
    {}
  }

  lemma {:induction false} NextIs(s: State)
    ensures NextId(s) == (s.lruCtr + 1) % U32
  {}

  lemma {:induction false} TiedCons(t: map<nat, Buf>, lru: map<nat, Buf>, dirty: seq<Buf>, b: Buf)
    requires TiedTo(t, lru, dirty) && InTree(t, b)
    ensures TiedTo(t, lru, [b] + dirty) && Lbas([b] + dirty) == [b.lba] + Lbas(dirty)
  {}

  lemma {:induction false} TiedLruMinus(t: map<nat, Buf>, lru: map<nat, Buf>, dirty: seq<Buf>, id: nat)
    requires TiedTo(t, lru, dirty)
    ensures TiedTo(t, lru - {id}, dirty)
  {}

  lemma {:induction false} TreeLba(t: map<nat, Buf>, lru: map<nat, Buf>, dirty: seq<Buf>, l: nat)
    requires TiedTo(t, lru, dirty) && l in t
    ensures t[l].lba == l
  {}

  lemma {:induction false} TiedNew(t: map<nat, Buf>, lru: map<nat, Buf>, dirty: seq<Buf>, b: Buf)
    requires TiedTo(t, lru, dirty) && b.lba !in t
    ensures TiedTo(t[b.lba := b], lru, dirty)
  {}

  lemma {:induction false} TiedLruPlus(t: map<nat, Buf>, lru: map<nat, Buf>, dirty: seq<Buf>, id: nat, b: Buf)
    requires TiedTo(t, lru, dirty) && InTree(t, b)
    ensures TiedTo(t, lru[id := b], dirty)
  {}

  lemma {:induction false} LruCached(t: map<nat, Buf>, lru: map<nat, Buf>, dirty: seq<Buf>, id: nat)
    requires TiedTo(t, lru, dirty) && id in lru
    ensures InTree(t, lru[id])
  {}
}
