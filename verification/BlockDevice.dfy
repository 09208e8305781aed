/** The cached block interface of a device: what clients of the cache rely on. */
module BlockDevice {
  import opened BcacheSpec
  import opened Bcache

  /** A client's pointer to a buffer stays good while the block is referenced. */
  ghost predicate PointersStay(tree: map<nat, Buf>, s: State, tree': map<nat, Buf>, t: State) {
    forall l: nat :: l in tree && RefOf(s, l) > 0 && RefOf(t, l) > 0 ==> l in tree' && tree'[l] == tree[l]
  }

  /** What the device got anew is what a reader had to get before. */
  ghost predicate DiskFrom(s: State, t: State) {
    |t.disk| == |s.disk| && forall l: nat :: l < |s.disk| ==> t.disk[l] == s.disk[l] || t.disk[l] == View(s)[l]
  }

  /** Nothing a client can see changed: same logical disk, references, pointers and contents. */
  ghost predicate Unseen(tree: map<nat, Buf>, s: State, tree': map<nat, Buf>, t: State) {
    View(t) == View(s) && SameRefs(s, t) && StaysValid(s, t) && PointersStay(tree, s, tree', t) && DiskFrom(s, t)
  }

  /** The same but for the number of references to block l. */
  ghost predicate UnseenBut(tree: map<nat, Buf>, s: State, tree': map<nat, Buf>, t: State, l: nat, refs: int) {
    View(t) == View(s) && RefChanged(s, t, l, refs) && StaysValid(s, t) && PointersStay(tree, s, tree', t) && DiskFrom(s, t)
  }

  lemma {:induction false} UnseenThen(a: map<nat, Buf>, s: State, b: map<nat, Buf>, t: State, c: map<nat, Buf>, u: State)
    requires Unseen(a, s, b, t) && Unseen(b, t, c, u)
    ensures Unseen(a, s, c, u)
  {
    hide View;
  }

  lemma {:induction false} UnseenThenBut(a: map<nat, Buf>, s: State, b: map<nat, Buf>, t: State, c: map<nat, Buf>, u: State, l: nat, n: int)
    requires Unseen(a, s, b, t) && UnseenBut(b, t, c, u, l, n)
    ensures UnseenBut(a, s, c, u, l, n)
  {
    hide View;
  }

  /** One round of ext4_block_cache_shake. */
  method ShakeOne(c: Cache)
    requires c.Tied() && Settled(c.Abs()) && c.lruTree != map[]
    modifies c`lruTree, c`lbaTree, c`dirtyList, c`refBlocks, c`disk, c.lbaTree.Values
    ensures c.Tied() && Settled(c.Abs()) && |c.disk| == |old(c.disk)| && c.refBlocks < old(c.refBlocks)
    ensures Unseen(old(c.lbaTree), old(c.Abs()), c.lbaTree, c.Abs())
    ensures c.lbaTree.Values <= old(c.lbaTree.Values)
    ensures OldestGone(old(c.Abs()), c.Abs()) && c.refBlocks == old(c.refBlocks) - 1
  {
    hide TiedTo, Ok, EvictOf, View, SameRefs, StaysValid, RefOf, Cache.Abs, OldestGone;
    ghost var s := c.Abs();
    AbsParts(c);
    ghost var id := c.EvictOne();
    EvictOk(s, id);
    OldestGoneOne(s, id);
    EvictRefs(s, id);
    EvictParts(s, id);
    AbsParts(c);
    PointersKept(old(c.lbaTree), s, c.lbaTree, c.Abs());
  }

  lemma {:induction false} EvictParts(s: State, id: nat)
    requires Ok(s) && id in s.lru && s.lru[id] in s.bufs && s.lru[id] < |s.disk| && s.refBlocks > 0
    ensures EvictOf(s, id).writeBack == s.writeBack && DiskFrom(s, EvictOf(s, id))
  {
    hide Ok, Without;
  }

  /** ext4_block_cache_shake: evict least recently used buffers until there is room or every
      buffer is referenced. */
  method Shake(c: Cache)
    requires c.Tied() && Settled(c.Abs())
    modifies c, c.lbaTree.Values
    ensures c.Tied() && Settled(c.Abs())
    ensures Unseen(old(c.lbaTree), old(c.Abs()), c.lbaTree, c.Abs())
    ensures c.lruCtr == old(c.lruCtr) && c.writeBack == old(c.writeBack) && c.dontShake == old(c.dontShake)
    ensures c.lbaTree.Values <= old(c.lbaTree.Values) && |c.disk| == old(|c.disk|)
    ensures !c.dontShake ==> c.refBlocks < c.cnt || c.lruTree == map[]
    ensures OldestGone(old(c.Abs()), c.Abs()) && (c.refBlocks == old(c.refBlocks) || c.refBlocks + 1 >= c.cnt)
    ensures SameIds(old(c.Abs()), c.Abs())
  {
    hide TiedTo, Ok, EvictOf, View, SameRefs, StaysValid, RefOf, PointersStay, Unseen, OldestGone, SameIds;
    UnseenSame(c.lbaTree, c.Abs());
    NoneGone(c.Abs());
    StampedSame(c.Abs());
    if c.dontShake {
      return;
    }
    c.dontShake := true;
    while c.lruTree != map[] && c.cnt <= c.refBlocks
      invariant c.Tied() && Settled(c.Abs())
      invariant Unseen(old(c.lbaTree), old(c.Abs()), c.lbaTree, c.Abs())
      invariant c.lruCtr == old(c.lruCtr) && c.writeBack == old(c.writeBack)
      invariant c.lbaTree.Values <= old(c.lbaTree.Values) && |c.disk| == old(|c.disk|)
      invariant OldestGone(old(c.Abs()), c.Abs()) && (c.refBlocks == old(c.refBlocks) || c.refBlocks + 1 >= c.cnt)
      decreases c.refBlocks
    {
      ghost var s, tree := c.Abs(), c.lbaTree;
      ShakeOne(c);
      OldestGoneThen(old(c.Abs()), s, c.Abs());
      UnseenThen(old(c.lbaTree), old(c.Abs()), tree, s, c.lbaTree, c.Abs());
    }
    c.dontShake := false;
    GoneIds(old(c.Abs()), c.Abs());
  }

  lemma {:induction false} GoneIds(s: State, t: State)
    requires OldestGone(s, t) && t.lruCtr == s.lruCtr
    ensures SameIds(s, t)
  {}

  lemma {:induction false} NoneGone(s: State)
    ensures OldestGone(s, s)
  {}

  /** The abstract state's scalar parts. */
  lemma {:induction false} AbsParts(c: Cache)
    ensures c.Abs().lruCtr == c.lruCtr && c.Abs().writeBack == c.writeBack && c.Abs().disk == c.disk
    ensures c.Abs().bufs.Keys == c.lbaTree.Keys && c.Abs().refBlocks == c.refBlocks
    ensures c.Abs().lru == map[] <==> c.lruTree == map[]
  {
    hide TiedTo, Ok, View;
    assert LruLbas(c.lruTree).Keys == c.lruTree.Keys;
  }

  /** ext4_bcache_alloc as a client sees it. */
  method Acquire(c: Cache, lba: nat, junk: Data) returns (b: Buf)
    requires c.Tied() && Settled(c.Abs()) && Clear(c.Abs(), lba) && lba < |c.disk|
    modifies c`lruCtr, c`lruTree, c`dirtyList, c`lbaTree, c`refBlocks, c.lbaTree.Values
    ensures c.Tied() && Settled(c.Abs()) && fresh(c.lbaTree.Values - old(c.lbaTree.Values))
    ensures c.Cached(b) && b.lba == lba && Stamped(old(c.Abs()), c.Abs())
    ensures UnseenBut(old(c.lbaTree), old(c.Abs()), c.lbaTree, c.Abs(), lba, RefOf(old(c.Abs()), lba) + 1)
    ensures c.refBlocks <= old(c.refBlocks) + 1 && (old(c.lruTree) == map[] ==> c.lruTree == map[])
  {
    hide TiedTo, Ok, View, FindGetOf, AllocOf, RefChanged, SameRefs, RefOf, StaysValid, Cache.Abs, Clear, Stamped;
    ghost var s, tree := c.Abs(), c.lbaTree;
    AbsParts(c);
    b := c.Alloc(lba, junk);
    AbsParts(c);
    Acquired(s, lba, junk);
    assert PointersStay(tree, s, c.lbaTree, c.Abs());
  }

  /** ext4_block_get_noread: null when there is no such block (ENXIO); memory for a new buffer
      holds `junk`. */
  method GetNoread(c: Cache, lba: nat, junk: Data) returns (b: Buf?)
    requires c.Valid() && Clear(c.Abs(), lba)
    modifies c, c.lbaTree.Values
    ensures c.Valid() && fresh(c.lbaTree.Values - old(c.lbaTree.Values))
    ensures b == null <==> lba >= |old(c.disk)|
    ensures b == null ==> c.Abs() == old(c.Abs()) && c.lbaTree == old(c.lbaTree)
    ensures b != null ==> c.Cached(b) && b.lba == lba
    ensures b != null ==> UnseenBut(old(c.lbaTree), old(c.Abs()), c.lbaTree, c.Abs(), lba, RefOf(old(c.Abs()), lba) + 1)
    ensures b != null ==> c.refBlocks <= c.cnt || c.lruTree == map[]
    ensures Stamped(old(c.Abs()), c.Abs()) && c.writeBack == old(c.writeBack) && |c.disk| == |old(c.disk)|
  {
    hide TiedTo, Settled, View, RefChanged, SameRefs, RefOf, StaysValid, Cache.Abs, PointersStay, UnseenBut, Clear, Stamped, SameIds, OldestGone;
    StampedSame(c.Abs());
    if lba >= |c.disk| {
      return null;
    }
    Shake(c);
    ghost var s, tree := c.Abs(), c.lbaTree;
    StillHeld(old(c.Abs()), s, lba);
    ClearAfter(old(c.Abs()), s, lba);
    b := Acquire(c, lba, junk);
    StampedAfter(old(c.Abs()), s, c.Abs());
    UnseenThenBut(old(c.lbaTree), old(c.Abs()), tree, s, c.lbaTree, c.Abs(), lba, RefOf(s, lba) + 1);
    SameRefAt(old(c.Abs()), s, lba);
  }

  lemma {:induction false} StampedSame(s: State)
    ensures Stamped(s, s) && SameIds(s, s)
  {}

  lemma {:induction false} StillHeld(s: State, t: State, l: nat)
    requires SameRefs(s, t)
    ensures l in s.bufs && s.bufs[l].refctr > 0 ==> l in t.bufs && t.bufs[l].refctr > 0
  {
    assert RefOf(t, l) == RefOf(s, l);
  }

  lemma {:induction false} SameRefAt(s: State, t: State, l: nat)
    requires SameRefs(s, t)
    ensures RefOf(s, l) == RefOf(t, l)
  {}

  /** Both ways of acquiring a block add one reference to it. */
  lemma {:induction false} Acquired(s: State, l: nat, junk: Data)
    requires Ok(s) && l < |s.disk| && Clear(s, l)
    ensures var t := if l in s.bufs then FindGetOf(s, l) else AllocOf(s, l, junk);
            Ok(t) && View(t) == View(s) && RefChanged(s, t, l, RefOf(s, l) + 1) && StaysValid(s, t)
            && Stamped(s, t) && (s.dirty == [] ==> t.dirty == [])
            && (s.lru == map[] ==> t.lru == map[]) && t.refBlocks <= s.refBlocks + 1 && t.writeBack == s.writeBack
            && t.disk == s.disk
  {
    hide Ok, View, Without, Clear, Stamped;
    if l in s.bufs {
      FindGetOk(s, l);
      FindGetRefs(s, l);
    } else {
      AllocOk(s, l, junk);
      AllocRefs(s, l, junk);
    }
  }

  /** ext4_block_get: the buffer, filled from the device when it was not up to date. */
  method Get(c: Cache, lba: nat, junk: Data) returns (b: Buf?)
    requires c.Valid() && Clear(c.Abs(), lba)
    modifies c, c.lbaTree.Values
    ensures c.Valid() && fresh(c.lbaTree.Values - old(c.lbaTree.Values))
    ensures b == null <==> lba >= |old(c.disk)|
    ensures b == null ==> c.Abs() == old(c.Abs()) && c.lbaTree == old(c.lbaTree)
    ensures b != null ==> c.Cached(b) && b.lba == lba && b.uptodate && b.data == View(old(c.Abs()))[lba]
    ensures b != null ==> UnseenBut(old(c.lbaTree), old(c.Abs()), c.lbaTree, c.Abs(), lba, RefOf(old(c.Abs()), lba) + 1)
    ensures b != null ==> c.refBlocks <= c.cnt || c.lruTree == map[]
    ensures Stamped(old(c.Abs()), c.Abs()) && c.writeBack == old(c.writeBack) && |c.disk| == |old(c.disk)|
  {
    hide TiedTo, Settled, View, RefChanged, SameRefs, RefOf, StaysValid, Cache.Abs, PointersStay, Unseen, Clear, Stamped, SameIds;
    b := GetNoread(c, lba, junk);
    if b != null {
      ghost var s, tree := c.Abs(), c.lbaTree;
      Fill(c, b);
      StampedThen(old(c.Abs()), s, c.Abs());
      ButThenUnseen(old(c.lbaTree), old(c.Abs()), tree, s, c.lbaTree, c.Abs(), lba, RefOf(old(c.Abs()), lba) + 1);
    }
  }

  lemma {:induction false} ButThenUnseen(a: map<nat, Buf>, s: State, b: map<nat, Buf>, t: State, c: map<nat, Buf>, u: State, l: nat, n: int)
    requires UnseenBut(a, s, b, t, l, n) && Unseen(b, t, c, u)
    ensures UnseenBut(a, s, c, u, l, n)
  {
    hide View;
  }

  /** The read of ext4_block_get. */
  method Fill(c: Cache, b: Buf)
    requires c.Valid() && c.Cached(b)
    modifies b`data, b`uptodate
    ensures c.Valid() && b.lba < |c.disk| && b.uptodate && b.data == View(old(c.Abs()))[b.lba]
    ensures Unseen(c.lbaTree, old(c.Abs()), c.lbaTree, c.Abs()) && SameIds(old(c.Abs()), c.Abs())
  {
    hide TiedTo, Ok, View, SameRefs, RefOf, StaysValid, LruLbas, Lbas;
    ghost var s := c.Abs();
    c.BufFacts(b);
    if !b.uptodate {
      b.data := c.disk[b.lba];
      b.uptodate := true;
    }
    c.OneChanged(s.bufs, b);
    assert c.Abs() == FillOf(s, b.lba);
    FillOk(s, b.lba);
    FillRefs(s, b.lba);
  }

  /** A client changes the contents of a block it holds and marks it dirty
      (ext4_bcache_set_dirty): the only way the logical disk changes. */
  method Edit(c: Cache, b: Buf, data: Data)
    requires c.Valid() && c.Cached(b) && b.refctr > 0
    modifies b`data, b`uptodate, b`dirty
    ensures c.Valid() && b.lba < |c.disk| && b.uptodate && b.data == data
    ensures View(c.Abs()) == View(old(c.Abs()))[b.lba := data]
    ensures SameRefs(old(c.Abs()), c.Abs()) && StaysValid(old(c.Abs()), c.Abs()) && SameIds(old(c.Abs()), c.Abs())
  {
    hide TiedTo, Ok, View, SameRefs, RefOf, StaysValid, LruLbas, Lbas;
    ghost var s := c.Abs();
    c.BufFacts(b);
    b.data := data;
    b.uptodate := true;
    b.dirty := true;
    c.OneChanged(s.bufs, b);
    assert c.Abs() == EditOf(s, b.lba, data);
    EditOk(s, b.lba, data);
    EditRefs(s, b.lba, data);
  }

  /** ext4_block_set: one reference less; block 0 is refused by an assertion. */
  method Set(c: Cache, b: Buf)
    requires c.Valid() && c.Cached(b) && b.refctr > 0 && b.lba != 0
    modifies c, b
    ensures c.Valid() && c.lbaTree.Values <= old(c.lbaTree.Values)
    ensures UnseenBut(old(c.lbaTree), old(c.Abs()), c.lbaTree, c.Abs(), b.lba, RefOf(old(c.Abs()), b.lba) - 1)
    ensures SameIds(old(c.Abs()), c.Abs()) && c.writeBack == old(c.writeBack) && |c.disk| == |old(c.disk)|
  {
    hide TiedTo, Ok, View, RefChanged, RefOf, StaysValid, Cache.Abs, FreeOf, SameIds;
    ghost var s := c.Abs();
    AbsParts(c);
    c.BufFacts(b);
    c.Free(b);
    AbsParts(c);
    FreeOk(s, b.lba);
    FreeRefs(s, b.lba);
    FreeParts(s, b.lba);
    PointersKept(old(c.lbaTree), s, c.lbaTree, c.Abs());
  }

  lemma {:induction false} PointersKept(tree: map<nat, Buf>, s: State, tree': map<nat, Buf>, t: State)
    requires forall l: nat :: l in tree' ==> l in tree && tree'[l] == tree[l]
    requires t.bufs.Keys == tree'.Keys
    ensures PointersStay(tree, s, tree', t)
  {}

  lemma {:induction false} FreeParts(s: State, l: nat)
    requires l in s.bufs && s.bufs[l].refctr > 0 && l < |s.disk|
    ensures SameIds(s, FreeOf(s, l)) && FreeOf(s, l).writeBack == s.writeBack
    ensures DiskFrom(s, FreeOf(s, l))
  {
    hide Without;
  }

  // ----- writing back

  lemma {:induction false} UnseenSame(tree: map<nat, Buf>, s: State)
    ensures Unseen(tree, s, tree, s)
  {}

  lemma {:induction false} DirtyParts(c: Cache)
    requires c.Tied() && Ok(c.Abs())
    ensures |c.Abs().dirty| == |c.dirtyList|
    ensures c.dirtyList != [] ==> c.Cached(c.dirtyList[0]) && c.dirtyList[0].lba in c.Abs().dirty
  {
    hide Ok;
    if c.dirtyList != [] {
      assert Lbas(c.dirtyList)[0] == c.dirtyList[0].lba;
    }
  }

  /** One round of ext4_block_cache_flush. */
  method FlushFirst(c: Cache)
    requires c.Tied() && Ok(c.Abs()) && c.dirtyList != []
    modifies c`dirtyList, c`disk, c.lbaTree.Values
    ensures c.Tied() && Ok(c.Abs()) && |c.dirtyList| < |old(c.dirtyList)| && |c.disk| == |old(c.disk)|
    ensures Unseen(c.lbaTree, old(c.Abs()), c.lbaTree, c.Abs()) && SameIds(old(c.Abs()), c.Abs())
  {
    hide TiedTo, Ok, View, SameRefs, RefOf, StaysValid, Lbas, LruLbas, Without, SameIds;
    ghost var s := c.Abs();
    DirtyParts(c);
    var b := c.dirtyList[0];
    c.BufFacts(b);
    c.FlushBuf(b);
    FlushOk(s, b.lba);
    FlushRefs(s, b.lba);
    FlushIds(s, b.lba);
    DirtyParts(c);
  }

  lemma {:induction false} FlushIds(s: State, l: nat)
    requires l in s.bufs && l < |s.disk|
    ensures SameIds(s, FlushOf(s, l)) && DiskFrom(s, FlushOf(s, l))
  {
    hide Without;
  }

  /** ext4_block_cache_flush: afterwards the device holds every block no client is using. */
  method CacheFlush(c: Cache)
    requires c.Tied() && Ok(c.Abs())
    modifies c`dirtyList, c`disk, c.lbaTree.Values
    ensures c.Tied() && Ok(c.Abs()) && c.dirtyList == []
    ensures Unseen(c.lbaTree, old(c.Abs()), c.lbaTree, c.Abs()) && |c.disk| == |old(c.disk)|
    ensures forall l: nat :: l < |c.disk| && RefOf(c.Abs(), l) == 0 ==> c.disk[l] == View(old(c.Abs()))[l]
    ensures SameIds(old(c.Abs()), c.Abs())
  {
    hide TiedTo, Ok, View, SameRefs, RefOf, StaysValid, FlushOf, PointersStay, SameIds;
    UnseenSame(c.lbaTree, c.Abs());
    StampedSame(c.Abs());
    while c.dirtyList != []
      invariant c.Tied() && Ok(c.Abs()) && |c.disk| == |old(c.disk)|
      invariant Unseen(c.lbaTree, old(c.Abs()), c.lbaTree, c.Abs()) && SameIds(old(c.Abs()), c.Abs())
      decreases |c.dirtyList|
    {
      ghost var s := c.Abs();
      FlushFirst(c);
      SameIdsThen(old(c.Abs()), s, c.Abs());
      UnseenThen(c.lbaTree, old(c.Abs()), c.lbaTree, s, c.lbaTree, c.Abs());
    }
    DirtyParts(c);
    Durable(c.Abs());
  }

  /** ext4_block_cache_write_back: a 32-bit nesting counter; at zero everything is written. */
  method CacheWriteBack(c: Cache, on: bool)
    requires c.Valid()
    modifies c`writeBack, c`dirtyList, c`disk, c.lbaTree.Values
    ensures c.Valid() && |c.disk| == |old(c.disk)|
    ensures c.writeBack == if on then (old(c.writeBack) + 1) % U32 else if old(c.writeBack) > 0 then old(c.writeBack) - 1 else 0
    ensures Unseen(c.lbaTree, old(c.Abs()), c.lbaTree, c.Abs())
    ensures if c.writeBack > 0 then c.disk == old(c.disk) && c.dirtyList == old(c.dirtyList)
            else c.dirtyList == [] && forall l: nat :: l < |c.disk| && RefOf(c.Abs(), l) == 0 ==> c.disk[l] == View(old(c.Abs()))[l]
    ensures SameIds(old(c.Abs()), c.Abs())
  {
    hide TiedTo, View, SameRefs, RefOf, StaysValid, FlushOf, Cache.Abs, SameIds, Ok, Unseen;
    ghost var s := c.Abs();
    AbsParts(c);
    if on {
      SetCounter(c, (c.writeBack + 1) % U32);
    }
    if !on && c.writeBack > 0 {
      SetCounter(c, c.writeBack - 1);
    }
    SetWriteBack(c.lbaTree, s, c.writeBack);
    ghost var t := c.Abs();
    if c.writeBack > 0 {
      return;
    }
    CacheFlush(c);
    UnseenThen(c.lbaTree, s, c.lbaTree, t, c.lbaTree, c.Abs());
    SameIdsThen(s, t, c.Abs());
    AbsParts(c);
    DirtyParts(c);
  }

  method SetCounter(c: Cache, w: nat)
    modifies c`writeBack
    ensures c.writeBack == w && c.Abs() == old(c.Abs()).(writeBack := w)
  {
    hide LruLbas, Lbas;
    c.writeBack := w;
  }

  lemma {:induction false} SetWriteBack(tree: map<nat, Buf>, s: State, w: nat)
    requires Ok(s)
    ensures Ok(s.(writeBack := w)) && Unseen(tree, s, tree, s.(writeBack := w)) && SameIds(s, s.(writeBack := w))
  {
    hide NoDup;
    var t := s.(writeBack := w);
    forall l | l in t.bufs ensures Placed(t.bufs[l], l, t) { assert Placed(s.bufs[l], l, s); }
  }

  function FlushLbaOf(s: State, l: nat): State
    requires l in s.bufs && l < |s.disk|
  {
    FreeOf(FlushOf(FindGetOf(s, l), l), l)
  }

  /** Taking a reference, flushing and releasing writes the block and shows nothing to a reader. */
  lemma {:induction false} FlushLbaOk(s: State, l: nat)
    requires Settled(s) && l in s.bufs && Clear(s, l)
    ensures l < |s.disk|
    ensures var t := FlushLbaOf(s, l);
            Settled(t) && View(t) == View(s) && SameRefs(s, t) && StaysValid(s, t)
            && DiskFrom(s, t) && t.disk[l] == View(s)[l]
            && Stamped(s, t) && t.writeBack == s.writeBack
  {
    hide Ok, View, Without, FreeOf, Clear, Stamped, SameIds, SameRefs, StaysValid, FindGetOf, FlushOf, RefOf;
    CoherentIn(s, l);
    HeldForFlush(s, l);
    FlushLbaParts(s, l);
    var s1 := FindGetOf(s, l);
    FindGetOk(s, l);
    var s2 := FlushOf(s1, l);
    FlushOk(s1, l);
    FreeOk(s2, l);
    FreeParts(s2, l);
    FlushLbaRefs(s, l);
    CleanFree(s2, l);
    ViewHas(s2, l);
    FlushIds(s1, l);
    SameIdsThen(s1, s2, FreeOf(s2, l));
    StampedThen(s, s1, FreeOf(s2, l));
  }

  lemma {:induction false} FlushLbaParts(s: State, l: nat)
    requires l in s.bufs && l < |s.disk|
    ensures var s1 := FindGetOf(s, l); var s2 := FlushOf(s1, l);
      && |s2.disk| == |s.disk| && s2.writeBack == s.writeBack && (s1.dirty == [] ==> s2.dirty == [])
  {
  }

  lemma {:induction false} CoherentIn(s: State, l: nat)
    requires Ok(s) && l in s.bufs
    ensures Coherent(s.bufs[l], l, s.disk)
  {}

  lemma {:induction false} FlushLbaRefs(s: State, l: nat)
    requires Ok(s) && l in s.bufs && Clear(s, l) && l < |s.disk|
    ensures var t := FlushLbaOf(s, l); SameRefs(s, t) && StaysValid(s, t)
  {
    hide Ok, View, FindGetOf, FlushOf, FreeOf;
    FindGetOk(s, l);
    FindGetRefs(s, l);
    FlushOk(FindGetOf(s, l), l);
    FlushRefs(FindGetOf(s, l), l);
    FreeRefs(FlushOf(FindGetOf(s, l), l), l);
  }

  /** Releasing a clean buffer leaves the device alone, which already holds the block. */
  lemma {:induction false} CleanFree(s: State, l: nat)
    requires Ok(s) && l in s.bufs && s.bufs[l].refctr > 0 && !s.bufs[l].dirty && l < |s.disk|
    ensures FreeOf(s, l).disk == s.disk && s.disk[l] == ViewAt(s, l)
  {
    hide Without;
    CoherentIn(s, l);
  }

  lemma {:induction false} HeldForFlush(s: State, l: nat)
    requires l in s.bufs && l < |s.disk|
    ensures l in FindGetOf(s, l).bufs && FindGetOf(s, l).disk == s.disk && FindGetOf(s, l).bufs[l].refctr > 0
    ensures var t := FlushOf(FindGetOf(s, l), l); l in t.bufs && t.bufs[l].refctr > 0
  {
    hide Without;
  }

  /** A held buffer is written and released. */
  method FlushAndFree(c: Cache, b: Buf)
    requires c.Tied() && Ok(c.Abs()) && c.Cached(b) && c.Abs().bufs[b.lba].refctr > 0 && b.lba != 0
    modifies c, b
    ensures c.Tied() && b.lba in FlushOf(old(c.Abs()), b.lba).bufs && FlushOf(old(c.Abs()), b.lba).bufs[b.lba].refctr > 0
    ensures b.lba < |FlushOf(old(c.Abs()), b.lba).disk| && c.Abs() == FreeOf(FlushOf(old(c.Abs()), b.lba), b.lba)
    ensures c.dontShake == old(c.dontShake) && c.writeBack == old(c.writeBack)
    ensures c.lbaTree == old(c.lbaTree) || c.lbaTree == old(c.lbaTree) - {b.lba}
  {
    hide TiedTo, Ok, Cache.Abs, FlushOf, FreeOf;
    c.HasVal(b);
    c.BufFacts(b);
    FlushOk(c.Abs(), b.lba);
    c.FlushBuf(b);
    c.HasVal(b);
    c.BufFacts(b);
    c.Free(b);
  }

  /** ext4_block_flush_lba: the device then holds the block. */
  method FlushLba(c: Cache, lba: nat)
    requires c.Valid() && Clear(c.Abs(), lba) && (lba in c.lbaTree ==> lba != 0)
    modifies c, c.lbaTree.Values
    ensures c.Valid() && c.lbaTree.Values <= old(c.lbaTree.Values) && |c.disk| == |old(c.disk)|
    ensures Unseen(old(c.lbaTree), old(c.Abs()), c.lbaTree, c.Abs())
    ensures lba < |c.disk| ==> c.disk[lba] == View(old(c.Abs()))[lba]
    ensures Stamped(old(c.Abs()), c.Abs()) && c.writeBack == old(c.writeBack)
  {
    hide TiedTo, Ok, View, SameRefs, RefOf, StaysValid, Cache.Abs, FindGetOf, FlushOf, FreeOf, Clear, Stamped;
    ghost var s := c.Abs();
    AbsParts(c);
    StampedSame(s);
    UnseenSame(c.lbaTree, s);
    var b := c.FindGet(lba);
    AbsParts(c);
    if b == null {
      NotCached(s, lba);
      return;
    }
    FindGetOk(s, lba);
    CoherentIn(s, lba);
    HeldForFlush(s, lba);
    FlushAndFree(c, b);
    FlushLbaOk(s, lba);
    AbsParts(c);
    PointersKept(old(c.lbaTree), s, c.lbaTree, c.Abs());
  }

  lemma {:induction false} NotCached(s: State, l: nat)
    requires l !in s.bufs
    ensures l < |s.disk| ==> View(s)[l] == s.disk[l]
  {}

  // ----- invalidation and cleanup

  /** The buffer with the next higher address (RB_NEXT). */
  method NextBuf(c: Cache, l: nat) returns (b: Buf?)
    requires c.Tied()
    ensures b == null ==> forall m: nat :: m in c.lbaTree ==> m <= l
    ensures b != null ==> c.Cached(b) && l < b.lba && forall m: nat :: m in c.lbaTree ==> m <= l || b.lba <= m
  {
    var above := set m | m in c.lbaTree && l < m;
    if above == {} {
      forall m: nat | m in c.lbaTree ensures m <= l {
        assert m !in above;
      }
      return null;
    }
    LeastExists(above);
    var k :| k in above && IsLeast(above, k);
    b := c.lbaTree[k];
    forall m: nat | m in c.lbaTree ensures m <= l || b.lba <= m {
      assert l < m ==> m in above;
    }
  }

  /** Everything below `bound` in the range reads from the device. */
  ghost predicate Discarded(s: State, t: State, from: nat, bound: nat) {
    t.disk == s.disk && t.bufs.Keys == s.bufs.Keys && bound <= |s.disk| &&
    forall l: nat :: l < |s.disk| ==> View(t)[l] == if from <= l < bound then s.disk[l] else View(s)[l]
  }

  /** References, ids and buffers outside the range are as before. */
  ghost predicate Spared(s: State, t: State, from: nat, bound: nat) {
    SameRefs(s, t) && SameIds(s, t)
    && forall l: nat :: l in s.bufs && !(from <= l < bound) ==>
         l in t.bufs && t.bufs[l].uptodate == s.bufs[l].uptodate && t.bufs[l].dirty == s.bufs[l].dirty && t.bufs[l].data == s.bufs[l].data
  }

  /** The same for the blocks that an invalidation names. */
  ghost predicate SparedBut(s: State, t: State, from: nat, n: Count) {
    SameRefs(s, t) && SameIds(s, t)
    && forall l: nat :: l in s.bufs && !InRange(from, n, l) ==>
         l in t.bufs && t.bufs[l].uptodate == s.bufs[l].uptodate && t.bufs[l].dirty == s.bufs[l].dirty && t.bufs[l].data == s.bufs[l].data
  }

  lemma {:induction false} SparedNext(s: State, t: State, from: nat, l: nat, bound: nat)
    requires Spared(s, t, from, l) && from <= l < bound && l in t.bufs
    ensures Spared(s, InvalidateOf(t, l), from, bound)
  {
    hide Without;
    var u := InvalidateOf(t, l);
    forall m: nat ensures RefOf(u, m) == RefOf(t, m) {}
    assert SameRefs(s, u) by {
      forall m: nat ensures RefOf(u, m) == RefOf(s, m) { assert RefOf(t, m) == RefOf(s, m); }
    }
  }

  lemma {:induction false} SparedAll(s: State, t: State, from: nat, n: Count, bound: nat)
    requires Spared(s, t, from, bound)
    requires forall l: nat :: l in s.bufs && RangeEnd(from, n) < l && from <= l ==> bound <= l
    ensures SparedBut(s, t, from, n)
  {
    hide SameRefs, SameIds, RangeEnd, InRange;
    forall l: nat | l in s.bufs && !InRange(from, n, l) ensures !(from <= l < bound) { RangeIs(from, n, l); }
  }

  lemma {:induction false} SparedSame(s: State, from: nat, bound: nat)
    ensures Spared(s, s, from, bound) && forall n: Count :: SparedBut(s, s, from, n)
  {}

  ghost function Bound(b: Buf?, disk: seq<Data>): nat {
    if b == null then |disk| else b.lba
  }

  lemma {:induction false} ViewIs(s: State)
    ensures |View(s)| == |s.disk| && forall l: nat :: l < |s.disk| ==> View(s)[l] == ViewAt(s, l)
  {}

  lemma {:induction false} DiscardStep(s: State, t: State, from: nat, l: nat, bound: nat)
    requires Ok(t) && Discarded(s, t, from, l) && from <= l < bound <= |s.disk| && l in t.bufs
    requires forall m: nat :: m in s.bufs ==> m <= l || bound <= m
    ensures Discarded(s, InvalidateOf(t, l), from, bound)
  {
    hide Ok, View, Without;
    ViewIs(s);
    InvalidateOk(t, l);
  }

  lemma {:induction false} AllDiscarded(s: State, t: State, from: nat, n: Count, bound: nat)
    requires Discarded(s, t, from, bound) && from in s.bufs && (bound == |s.disk| || RangeEnd(from, n) < bound)
    requires forall l: nat :: l in s.bufs && RangeEnd(from, n) < l && from <= l ==> bound <= l
    ensures View(t) == InvalidatedView(s, from, n)
  {
    hide View, RangeEnd, InRange;
    ViewIs(s);
    ViewIs(t);
    forall l: nat | l < |s.disk| ensures View(t)[l] == InvalidatedView(s, from, n)[l] { RangeIs(from, n, l); }
  }

  /** One round of ext4_bcache_invalidate_lba. */
  method InvalidateStep(c: Cache, buf: Buf, ghost s: State, from: nat) returns (next: Buf?)
    requires c.Tied() && Settled(c.Abs()) && c.Cached(buf) && from <= buf.lba && Discarded(s, c.Abs(), from, buf.lba)
    requires Spared(s, c.Abs(), from, buf.lba)
    modifies c`dirtyList, buf
    ensures Spared(s, c.Abs(), from, Bound(next, s.disk))
    ensures c.Tied() && Settled(c.Abs())
    ensures next != null ==> c.Cached(next)
    ensures buf.lba < Bound(next, s.disk) && Discarded(s, c.Abs(), from, Bound(next, s.disk))
    ensures forall m: nat :: m in c.lbaTree ==> m <= buf.lba || Bound(next, s.disk) <= m
  {
    hide TiedTo, Ok, View, Cache.Abs, InvalidateOf, Spared;
    ghost var t := c.Abs();
    AbsParts(c);
    CoherentIn(t, buf.lba);
    InvalidateOk(t, buf.lba);
    c.InvalidateBuf(buf);
    next := NextBuf(c, buf.lba);
    if next != null { CoherentIn(t, next.lba); }
    forall m: nat | m in c.lbaTree ensures m < |s.disk| { CoherentIn(t, m); }
    DiscardStep(s, t, from, buf.lba, Bound(next, s.disk));
    SparedNext(s, t, from, buf.lba, Bound(next, s.disk));
    InvalidateParts(t, buf.lba);
  }

  lemma {:induction false} InvalidateParts(s: State, l: nat)
    requires l in s.bufs
    ensures InvalidateOf(s, l).writeBack == s.writeBack
  {}

  /** ext4_bcache_invalidate_lba. For a range below 2^64: what lies outside of it keeps its contents, its
      validity and its dirty bit; with the first block cached, all of it reads from the device. */
  method InvalidateLba(c: Cache, from: nat, n: Count)
    requires c.Valid()
    modifies c`dirtyList, c.lbaTree.Values
    ensures c.Valid()
    ensures View(c.Abs()) == InvalidatedView(old(c.Abs()), from, n)
    ensures SparedBut(old(c.Abs()), c.Abs(), from, n)
    ensures 0 < n && from + n <= 0x1_0000_0000_0000_0000 ==>
              forall l: nat :: l < from || from + n <= l ==>
                && (l < |c.disk| ==> View(c.Abs())[l] == View(old(c.Abs()))[l])
                && (l in old(c.Abs()).bufs ==> l in c.Abs().bufs && c.Abs().bufs[l].uptodate == old(c.Abs()).bufs[l].uptodate
                                               && c.Abs().bufs[l].dirty == old(c.Abs()).bufs[l].dirty)
    ensures 0 < n && from + n <= 0x1_0000_0000_0000_0000 && from in old(c.lbaTree) ==>
              forall l: nat :: from <= l < from + n && l < |c.disk| ==> View(c.Abs())[l] == c.disk[l]
  {
    hide TiedTo, Ok, View, Cache.Abs, Spared, SparedBut, InvalidatedView, InRange;
    ghost var s := c.Abs();
    AbsParts(c);
    SparedSame(s, from, from);
    if from !in c.lbaTree {
      NotInvalidated(s, from, n);
      InvalidatedRange(s, s, from, n);
      return;
    }
    var end := RangeEnd(from, n);
    var buf: Buf? := c.lbaTree[from];
    TreeLba(c.lbaTree, c.lruTree, c.dirtyList, from);
    CoherentIn(s, from);
    while buf != null && buf.lba <= end
      invariant c.Tied() && Settled(c.Abs())
      invariant buf != null ==> c.Cached(buf) && from <= buf.lba
      invariant Discarded(s, c.Abs(), from, Bound(buf, s.disk)) && Spared(s, c.Abs(), from, Bound(buf, s.disk))
      invariant forall l: nat :: l in c.lbaTree && end < l && from <= l ==> Bound(buf, s.disk) <= l
      decreases |s.disk| - Bound(buf, s.disk)
    {
      buf := InvalidateStep(c, buf, s, from);
    }
    AbsParts(c);
    AllDiscarded(s, c.Abs(), from, n, Bound(buf, s.disk));
    SparedAll(s, c.Abs(), from, n, Bound(buf, s.disk));
    InvalidatedRange(s, c.Abs(), from, n);
  }

  lemma {:induction false} NotInvalidated(s: State, from: nat, n: Count)
    requires from !in s.bufs
    ensures View(s) == InvalidatedView(s, from, n) && SparedBut(s, s, from, n)
  {
    ViewIs(s);
  }

  lemma {:induction false} InvalidatedRange(s: State, t: State, from: nat, n: Count)
    requires View(t) == InvalidatedView(s, from, n) && SparedBut(s, t, from, n) && |t.disk| == |s.disk|
    ensures 0 < n && from + n <= 0x1_0000_0000_0000_0000 ==>
              forall l: nat :: l < from || from + n <= l ==>
                && (l < |t.disk| ==> View(t)[l] == View(s)[l])
                && (l in s.bufs ==> l in t.bufs && t.bufs[l].uptodate == s.bufs[l].uptodate && t.bufs[l].dirty == s.bufs[l].dirty)
    ensures 0 < n && from + n <= 0x1_0000_0000_0000_0000 && from in s.bufs ==>
              forall l: nat :: from <= l < from + n && l < |t.disk| ==> View(t)[l] == s.disk[l]
  {
    hide SameRefs, SameIds;
    ViewIs(s);
  }

  /** ext4_bcache_cleanup: every buffer is written and dropped. */
  method Cleanup(c: Cache)
    requires c.Valid()
    modifies c, c.lbaTree.Values
    ensures c.Valid() && c.lbaTree == map[] && c.disk == View(old(c.Abs())) == View(c.Abs())
  {
    hide TiedTo, Ok, View, Cache.Abs, FlushOf, DropOf;
    ghost var v := View(c.Abs());
    while c.lbaTree != map[]
      invariant c.Tied() && Settled(c.Abs()) && View(c.Abs()) == v
      invariant c.dontShake == old(c.dontShake) && c.lbaTree.Values <= old(c.lbaTree.Values)
      decreases c.lbaTree.Keys
    {
      LeastExists(c.lbaTree.Keys);
      var k :| k in c.lbaTree && IsLeast(c.lbaTree.Keys, k);
      TreeLba(c.lbaTree, c.lruTree, c.dirtyList, k);
      WriteAndDrop(c, c.lbaTree[k]);
    }
    AbsParts(c);
    ViewIs(c.Abs());
  }

  /** One round of ext4_bcache_cleanup. */
  method WriteAndDrop(c: Cache, b: Buf)
    requires c.Tied() && Settled(c.Abs()) && c.Cached(b)
    modifies c`lruTree, c`lbaTree, c`dirtyList, c`refBlocks, c`disk, b
    ensures c.Tied() && Settled(c.Abs()) && View(c.Abs()) == View(old(c.Abs()))
    ensures c.lbaTree == old(c.lbaTree) - {b.lba}
  {
    hide TiedTo, Ok, View, Cache.Abs, FlushOf, DropOf;
    ghost var s := c.Abs();
    AbsParts(c);
    c.BufFacts(b);
    FlushOk(s, b.lba);
    c.FlushBuf(b);
    AbsParts(c);
    DropOk(FlushOf(s, b.lba), b.lba);
    c.DropBuf(b);
    FlushDropParts(s, b.lba);
  }

  lemma {:induction false} FlushDropParts(s: State, l: nat)
    requires Ok(s) && l in s.bufs && l < |s.disk| && s.refBlocks > 0
    ensures l in FlushOf(s, l).bufs && FlushOf(s, l).refBlocks > 0
    ensures var t := DropOf(FlushOf(s, l), l); t.writeBack == s.writeBack && (s.dirty == [] ==> t.dirty == [])
  {
    hide Ok;
  }
}
