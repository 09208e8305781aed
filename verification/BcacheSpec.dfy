/** The write-back block cache as a state machine over values: what each operation does to the
    buffers, the LRU order, the dirty list and the disk, and what that means to a reader. */
module BcacheSpec {
  /** The contents of one logical block. */
  type Data = seq<bv8>

  /** One buffer; the flags are BC_UPTODATE, BC_DIRTY, BC_FLUSH and BC_TMP. */
  datatype BufV = BufV(data: Data, uptodate: bool, dirty: bool, flush: bool, tmp: bool,
                       lruId: nat, refctr: nat, onDirty: bool)

  /** The cache and its device: buffers by address, unreferenced addresses by LRU id, dirty
      list, device blocks, and the device's write-back counter. */
  datatype State = State(lruCtr: nat, refBlocks: nat, bufs: map<nat, BufV>, lru: map<nat, nat>,
                         dirty: seq<nat>, disk: seq<Data>, writeBack: nat)

  // ----- invariants

  ghost predicate NoDup<T(!new)>(s: seq<T>) {
    forall i, j :: 0 <= i < j < |s| ==> s[i] != s[j]
  }

  function Without<T(==)>(s: seq<T>, x: T): seq<T> {
    if s == [] then [] else if s[0] == x then s[1..] else [s[0]] + Without(s[1..], x)
  }

  lemma {:induction false} WithoutOk<T(!new)>(s: seq<T>, x: T)
    requires NoDup(s)
    ensures NoDup(Without(s, x))
    ensures forall y :: y in Without(s, x) <==> y in s && y != x
    ensures |Without(s, x)| == if x in s then |s| - 1 else |s|
  {
    if s != [] {
      WithoutOk(s[1..], x);
      assert s == [s[0]] + s[1..];
      assert s[0] !in s[1..];
    }
  }

  /** A buffer's contents against the disk. */
  ghost predicate Coherent(b: BufV, l: nat, disk: seq<Data>) {
    l < |disk| && (b.dirty ==> b.uptodate) && (b.uptodate && !b.dirty ==> b.data == disk[l])
  }

  /** A buffer's place in the LRU order and on the dirty list. */
  ghost predicate Placed(b: BufV, l: nat, s: State) {
    && (b.refctr == 0 <==> b.lruId in s.lru && s.lru[b.lruId] == l)
    && (b.onDirty <==> l in s.dirty)
    && (b.onDirty <==> b.refctr == 0 && b.dirty)
  }

  ghost predicate AllCoherent(s: State) {
    forall l :: l in s.bufs ==> Coherent(s.bufs[l], l, s.disk)
  }

  ghost predicate AllPlaced(s: State) {
    forall l :: l in s.bufs ==> Placed(s.bufs[l], l, s)
  }

  ghost predicate UniqueIds(s: State) {
    forall l, m :: l in s.bufs && m in s.bufs && s.bufs[l].lruId == s.bufs[m].lruId ==> l == m
  }

  ghost predicate LruOk(s: State) {
    forall id :: id in s.lru ==> s.lru[id] in s.bufs && s.bufs[s.lru[id]].lruId == id
  }

  ghost predicate DirtyOk(s: State) {
    NoDup(s.dirty) && forall l :: l in s.dirty ==> l in s.bufs
  }

  ghost predicate Ok(s: State) {
    s.refBlocks == |s.bufs| && AllCoherent(s) && AllPlaced(s) && UniqueIds(s) && LruOk(s) && DirtyOk(s)
  }

  /** Between operations, dirty buffers wait only while write-back is on. */
  ghost predicate Settled(s: State) {
    Ok(s) && (s.writeBack == 0 ==> s.dirty == [])
  }

  /** What a reader of block l must get. */
  function ViewAt(s: State, l: nat): Data
    requires l < |s.disk|
  {
    if l in s.bufs && s.bufs[l].uptodate then s.bufs[l].data else s.disk[l]
  }

  /** The logical disk. */
  ghost function View(s: State): (v: seq<Data>)
    ensures |v| == |s.disk|
    ensures forall l :: 0 <= l < |v| ==> v[l] == ViewAt(s, l)
  {
    seq(|s.disk|, l requires 0 <= l < |s.disk| => ViewAt(s, l))
  }

  lemma {:induction false} SameView(s: State, t: State)
    requires |s.disk| == |t.disk| && forall l :: 0 <= l < |s.disk| ==> ViewAt(s, l) == ViewAt(t, l)
    ensures View(s) == View(t)
  {}

  /** Changing one buffer and its block keeps the others coherent and changes the view there only. */
  lemma {:induction false} CoherentUpdate(s: State, t: State, l: nat)
    requires AllCoherent(s) && l in t.bufs && t.bufs == s.bufs[l := t.bufs[l]]
    requires Coherent(t.bufs[l], l, t.disk) && |t.disk| == |s.disk|
    requires forall m :: 0 <= m < |s.disk| && m != l ==> t.disk[m] == s.disk[m]
    ensures AllCoherent(t) && l < |s.disk| && View(t) == View(s)[l := ViewAt(t, l)]
  {
    forall m | m in t.bufs ensures Coherent(t.bufs[m], m, t.disk) {
      if m != l { assert Coherent(s.bufs[m], m, s.disk); }
    }
  }

  // ----- single changes of the structure, of which the operations are made

  /** Only the fields of buffer l change. */
  function Put(s: State, l: nat, b: BufV): State { s.(bufs := s.bufs[l := b]) }

  function Unqueued(s: State, l: nat): State
    requires l in s.bufs
  {
    s.(dirty := if s.bufs[l].onDirty then Without(s.dirty, l) else s.dirty, bufs := s.bufs[l := s.bufs[l].(onDirty := false)])
  }

  function Written(s: State, l: nat): State
    requires l in s.bufs && l < |s.disk|
  {
    s.(disk := s.disk[l := s.bufs[l].data])
  }

  function FlushOf(s: State, l: nat): State
    requires l in s.bufs && l < |s.disk|
  {
    var b := s.bufs[l];
    if b.dirty && b.uptodate then
      s.(disk := s.disk[l := b.data],
         dirty := if b.onDirty then Without(s.dirty, l) else s.dirty,
         bufs := s.bufs[l := b.(dirty := false, onDirty := false)])
    else s
  }

  lemma {:induction false} FlushIs(s: State, l: nat)
    requires l in s.bufs && l < |s.disk| && s.bufs[l].dirty && s.bufs[l].uptodate
    ensures FlushOf(s, l) == var t := Unqueued(Written(s, l), l); Put(t, l, t.bufs[l].(dirty := false))
  {
    hide Without;
    var t := Unqueued(Written(s, l), l);
    assert Put(t, l, t.bufs[l].(dirty := false)).bufs == FlushOf(s, l).bufs;
  }

  lemma {:induction false} FlushOk(s: State, l: nat)
    requires Ok(s) && l in s.bufs && l < |s.disk|
    ensures Ok(FlushOf(s, l)) && View(FlushOf(s, l)) == View(s)
    ensures !FlushOf(s, l).bufs[l].dirty
    ensures l in s.dirty ==> |FlushOf(s, l).dirty| == |s.dirty| - 1
    ensures |FlushOf(s, l).dirty| <= |s.dirty|
  {
    hide View, NoDup, AllCoherent, AllPlaced;
    var t := FlushOf(s, l);
    FlushPlaced(s, l);
    FlushCoherent(s, l);
    WithoutOk(s.dirty, l);
    if t != s { assert t.bufs.Keys == s.bufs.Keys; }
  }

  lemma {:induction false} FlushPlaced(s: State, l: nat)
    requires AllPlaced(s) && NoDup(s.dirty) && l in s.bufs && l < |s.disk|
    ensures AllPlaced(FlushOf(s, l))
    ensures l in s.dirty ==> s.bufs[l].dirty && s.bufs[l].onDirty
  {
    hide NoDup, Without;
    WithoutOk(s.dirty, l);
    var t := FlushOf(s, l);
    assert Placed(s.bufs[l], l, s);
    forall m | m in t.bufs ensures Placed(t.bufs[m], m, t) {
      assert Placed(s.bufs[m], m, s);
    }
  }

  lemma {:induction false} FlushCoherent(s: State, l: nat)
    requires AllCoherent(s) && l in s.bufs && l < |s.disk|
    ensures AllCoherent(FlushOf(s, l)) && View(FlushOf(s, l)) == View(s)
    ensures !FlushOf(s, l).bufs[l].dirty
  {
    hide Without;
    var t := FlushOf(s, l);
    assert Coherent(s.bufs[l], l, s.disk);
    forall m | m in t.bufs ensures Coherent(t.bufs[m], m, t.disk) {
      assert Coherent(s.bufs[m], m, s.disk);
    }
    SameView(s, t);
  }

  // ----- drop

  function DropOf(s: State, l: nat): State
    requires l in s.bufs && s.refBlocks > 0
  {
    var b := s.bufs[l];
    s.(lru := if b.refctr == 0 then s.lru - {b.lruId} else s.lru,
       bufs := s.bufs - {l},
       dirty := if b.dirty && b.onDirty then Without(s.dirty, l) else s.dirty,
       refBlocks := s.refBlocks - 1)
  }

  /** Dropping a clean or stale buffer hides nothing from a reader. */
  lemma {:induction false} DropOk(s: State, l: nat)
    requires Ok(s) && l in s.bufs && !s.bufs[l].dirty
    ensures s.refBlocks > 0 && Ok(DropOf(s, l)) && View(DropOf(s, l)) == View(s)
  {
    hide View, NoDup, AllCoherent, AllPlaced, Without;
    DropCounts(s, l);
    DropPlaced(s, l);
    DropCoherent(s, l);
  }

  lemma {:induction false} DropCounts(s: State, l: nat)
    requires s.refBlocks == |s.bufs| && l in s.bufs
    ensures s.refBlocks > 0 && DropOf(s, l).refBlocks == |DropOf(s, l).bufs|
  {
    var t := s.bufs - {l};
    assert s.bufs.Keys == t.Keys + {l};
    assert |s.bufs.Keys| == |t.Keys| + 1;
  }

  /** Neither the LRU tree nor the dirty list leads to buffer l. */
  ghost predicate Loose(s: State, l: nat) {
    l !in s.dirty && forall id :: id in s.lru ==> s.lru[id] != l
  }

  function OutOfLru(s: State, l: nat): State
    requires l in s.bufs
  {
    s.(lru := if s.bufs[l].refctr == 0 then s.lru - {s.bufs[l].lruId} else s.lru)
  }

  lemma {:induction false} DropLoose(s: State, l: nat)
    requires AllPlaced(s) && LruOk(s) && DirtyOk(s) && l in s.bufs
    ensures var t := OutOfLru(s, l); Loose(if s.bufs[l].dirty then Unqueued(t, l) else t, l)
  {
    hide Without, NoDup;
    assert Placed(s.bufs[l], l, s);
    WithoutOk(s.dirty, l);
  }

  /** A drop is an exit from the LRU tree, from the dirty list and then, loose, from the cache. */
  lemma {:induction false} DropIs(s: State, l: nat)
    requires Ok(s) && l in s.bufs
    ensures var t := OutOfLru(s, l);
            var u := if s.bufs[l].dirty then Unqueued(t, l) else t;
            && s.refBlocks > 0 && u.refBlocks == s.refBlocks && Loose(u, l)
            && DropOf(s, l) == u.(bufs := u.bufs - {l}, refBlocks := u.refBlocks - 1)
  {
    hide Without, NoDup, AllCoherent, UniqueIds, AllPlaced, LruOk, Loose, Placed;
    DropCounts(s, l);
    DropLoose(s, l);
    var t := OutOfLru(s, l);
    assert Unqueued(t, l).bufs - {l} == s.bufs - {l};
  }

  lemma {:induction false} DropPlaced(s: State, l: nat)
    requires AllPlaced(s) && UniqueIds(s) && LruOk(s) && l in s.bufs && !s.bufs[l].dirty && s.refBlocks > 0
    ensures AllPlaced(DropOf(s, l)) && LruOk(DropOf(s, l)) && l !in s.dirty
  {
    hide NoDup, Without;
    var u := DropOf(s, l);
    assert Placed(s.bufs[l], l, s);
    forall m | m in u.bufs ensures Placed(u.bufs[m], m, u) {
      assert Placed(s.bufs[m], m, s);
    }
    forall id | id in u.lru ensures u.lru[id] in u.bufs && u.bufs[u.lru[id]].lruId == id {
      assert id in s.lru;
    }
  }

  lemma {:induction false} DropCoherent(s: State, l: nat)
    requires AllCoherent(s) && l in s.bufs && !s.bufs[l].dirty && s.refBlocks > 0
    ensures AllCoherent(DropOf(s, l)) && View(DropOf(s, l)) == View(s)
  {
    hide Without;
    var u := DropOf(s, l);
    assert Coherent(s.bufs[l], l, s.disk);
    forall m | m in u.bufs ensures Coherent(u.bufs[m], m, u.disk) {
      assert Coherent(s.bufs[m], m, s.disk);
    }
    SameView(s, u);
  }

  // ----- acquiring

  const U32 := 0x1_0000_0000

  /** The LRU counter is a 32-bit field. */
  function NextId(s: State): nat { (s.lruCtr + 1) % U32 }

  /** No cached buffer but that of block l has the id that comes next. */
  ghost predicate IdFree(s: State, l: nat) {
    forall m :: m in s.bufs && m != l ==> s.bufs[m].lruId != NextId(s)
  }

  /** Acquiring block l takes no id that another buffer has. */
  ghost predicate Clear(s: State, l: nat) {
    (l in s.bufs && s.bufs[l].refctr > 0) || IdFree(s, l)
  }

  /** The counter stayed or moved on by one; every buffer has its old id or, when it moved, the new one. */
  ghost predicate Stamped(s: State, t: State) {
    && (t.lruCtr == s.lruCtr || t.lruCtr == NextId(s))
    && forall l :: l in t.bufs ==> (l in s.bufs && t.bufs[l].lruId == s.bufs[l].lruId) || t.bufs[l].lruId == t.lruCtr == NextId(s)
  }

  /** The counter and all ids stayed. */
  ghost predicate SameIds(s: State, t: State) {
    t.lruCtr == s.lruCtr && forall l :: l in t.bufs ==> l in s.bufs && t.bufs[l].lruId == s.bufs[l].lruId
  }

  lemma {:induction false} StampedAfter(s: State, t: State, u: State)
    requires SameIds(s, t) && Stamped(t, u)
    ensures Stamped(s, u)
  {}

  lemma {:induction false} StampedThen(s: State, t: State, u: State)
    requires Stamped(s, t) && SameIds(t, u)
    ensures Stamped(s, u)
  {}

  lemma {:induction false} SameIdsThen(s: State, t: State, u: State)
    requires SameIds(s, t) && SameIds(t, u)
    ensures SameIds(s, u)
  {}

  /** Dropping buffers never makes an id collide. */
  lemma {:induction false} ClearAfter(s: State, t: State, l: nat)
    requires Clear(s, l) && SameIds(s, t)
    requires l in s.bufs && s.bufs[l].refctr > 0 ==> l in t.bufs && t.bufs[l].refctr > 0
    ensures Clear(t, l)
  {}

  /** Every id was given out, and the counter did not wrap yet. */
  ghost predicate IdsBelow(s: State) { forall l :: l in s.bufs ==> s.bufs[l].lruId <= s.lruCtr }

  /** Before the counter wraps no id collides. */
  lemma {:induction false} BelowIsClear(s: State, l: nat)
    requires IdsBelow(s) && s.lruCtr + 1 < 0x1_0000_0000
    ensures Clear(s, l) && forall t :: Stamped(s, t) ==> IdsBelow(t) && t.lruCtr <= s.lruCtr + 1
  {}

  /** ext4_bcache_find_get on a cached block. */
  function FindGetOf(s: State, l: nat): State
    requires l in s.bufs
  {
    var b := s.bufs[l];
    if b.refctr == 0 then
      s.(lruCtr := NextId(s),
         lru := s.lru - {b.lruId},
         dirty := if b.dirty && b.onDirty then Without(s.dirty, l) else s.dirty,
         bufs := s.bufs[l := b.(lruId := NextId(s), refctr := 1, onDirty := b.onDirty && !b.dirty)])
    else s.(bufs := s.bufs[l := b.(refctr := b.refctr + 1)])
  }

  /** A new LRU id, outside the LRU tree. */
  function Renewed(s: State, l: nat): State
    requires l in s.bufs
  {
    s.(lruCtr := NextId(s), lru := s.lru - {s.bufs[l].lruId}, bufs := s.bufs[l := s.bufs[l].(lruId := NextId(s))])
  }

  function Held(s: State, l: nat): State
    requires l in s.bufs
  {
    Put(s, l, s.bufs[l].(refctr := s.bufs[l].refctr + 1))
  }

  lemma {:induction false} FirstReferenceIs(s: State, l: nat)
    requires l in s.bufs && s.bufs[l].refctr == 0
    ensures FindGetOf(s, l) == var t := Renewed(s, l); Held(if s.bufs[l].dirty then Unqueued(t, l) else t, l)
  {
    hide Without, NextId;
    var t := Renewed(s, l);
    var u := if s.bufs[l].dirty then Unqueued(t, l) else t;
    assert Held(u, l).bufs == FindGetOf(s, l).bufs;
  }

  lemma {:induction false} FindGetOk(s: State, l: nat)
    requires Ok(s) && l in s.bufs && Clear(s, l)
    ensures Ok(FindGetOf(s, l)) && View(FindGetOf(s, l)) == View(s)
    ensures Stamped(s, FindGetOf(s, l))
    ensures s.dirty == [] ==> FindGetOf(s, l).dirty == []
  {
    hide View, NoDup, AllCoherent, AllPlaced, Without;
    var t := FindGetOf(s, l);
    assert t.bufs.Keys == s.bufs.Keys;
    WithoutOk(s.dirty, l);
    FindGetPlaced(s, l);
    FindGetCoherent(s, l);
    if s.dirty == [] { assert |Without(s.dirty, l)| == 0; }
  }

  lemma {:induction false} FindGetPlaced(s: State, l: nat)
    requires AllPlaced(s) && UniqueIds(s) && LruOk(s) && NoDup(s.dirty) && l in s.bufs && Clear(s, l)
    ensures AllPlaced(FindGetOf(s, l)) && UniqueIds(FindGetOf(s, l)) && LruOk(FindGetOf(s, l))
  {
    hide NoDup, Without;
    WithoutOk(s.dirty, l);
    var t := FindGetOf(s, l);
    assert Placed(s.bufs[l], l, s);
    forall m | m in t.bufs ensures Placed(t.bufs[m], m, t) && (m != l ==> t.bufs[m].lruId != t.bufs[l].lruId || s.bufs[l].refctr > 0) {
      assert Placed(s.bufs[m], m, s);
    }
    forall id | id in t.lru ensures t.lru[id] in t.bufs && t.bufs[t.lru[id]].lruId == id {
      assert id in s.lru;
      assert Placed(s.bufs[s.lru[id]], s.lru[id], s);
    }
  }

  lemma {:induction false} FindGetCoherent(s: State, l: nat)
    requires AllCoherent(s) && l in s.bufs
    ensures AllCoherent(FindGetOf(s, l)) && View(FindGetOf(s, l)) == View(s)
  {
    hide Without;
    var t := FindGetOf(s, l);
    forall m | m in t.bufs ensures Coherent(t.bufs[m], m, t.disk) {
      assert Coherent(s.bufs[m], m, s.disk);
    }
    SameView(s, t);
  }

  /** ext4_bcache_alloc on a block that is not cached; `junk` is what the memory held. */
  function AllocOf(s: State, l: nat, junk: Data): State {
    s.(bufs := s.bufs[l := BufV(junk, false, false, false, false, NextId(s), 1, false)],
       refBlocks := s.refBlocks + 1, lruCtr := NextId(s))
  }

  lemma {:induction false} AllocOk(s: State, l: nat, junk: Data)
    requires Ok(s) && l !in s.bufs && l < |s.disk| && Clear(s, l)
    ensures Ok(AllocOf(s, l, junk)) && View(AllocOf(s, l, junk)) == View(s)
    ensures Stamped(s, AllocOf(s, l, junk))
  {
    hide NoDup, View, AllPlaced, AllCoherent, UniqueIds, LruOk, DirtyOk;
    var t := AllocOf(s, l, junk);
    AllocCount(s, l, junk);
    CoherentUpdate(s, t, l);
    assert View(s)[l := ViewAt(t, l)] == View(s);
    AllocPlaced(s, l, junk);
    AllocIds(s, l, junk);
  }

  lemma {:induction false} AllocCount(s: State, l: nat, junk: Data)
    requires s.refBlocks == |s.bufs| && l !in s.bufs
    ensures AllocOf(s, l, junk).refBlocks == |AllocOf(s, l, junk).bufs|
  {
    assert AllocOf(s, l, junk).bufs.Keys == s.bufs.Keys + {l};
  }

  lemma {:induction false} AllocIds(s: State, l: nat, junk: Data)
    requires AllPlaced(s) && UniqueIds(s) && LruOk(s) && DirtyOk(s) && l !in s.bufs && IdFree(s, l)
    ensures UniqueIds(AllocOf(s, l, junk)) && LruOk(AllocOf(s, l, junk)) && DirtyOk(AllocOf(s, l, junk))
  {
    hide NoDup;
  }

  lemma {:induction false} AllocPlaced(s: State, l: nat, junk: Data)
    requires AllPlaced(s) && LruOk(s) && DirtyOk(s) && l !in s.bufs && IdFree(s, l)
    ensures AllPlaced(AllocOf(s, l, junk))
  {
    hide NoDup;
    var t := AllocOf(s, l, junk);
    forall m | m in t.bufs ensures Placed(t.bufs[m], m, t) {
      if m != l { assert Placed(s.bufs[m], m, s); }
    }
  }

  // ----- using a referenced buffer

  /** Changes to one buffer that leave its LRU id and its place in tree and list alone. */
  ghost predicate SameLinks(b: BufV, c: BufV) {
    c.lruId == b.lruId && c.onDirty == b.onDirty && (c.refctr == b.refctr || (c.refctr > 0 && b.refctr > 0))
  }

  lemma {:induction false} RewriteOk(s: State, l: nat, c: BufV)
    requires Ok(s) && l in s.bufs && SameLinks(s.bufs[l], c) && Coherent(c, l, s.disk)
    requires c.dirty == s.bufs[l].dirty || c.refctr > 0
    ensures Ok(s.(bufs := s.bufs[l := c]))
    ensures l < |s.disk| && View(s.(bufs := s.bufs[l := c])) == View(s)[l := if c.uptodate then c.data else s.disk[l]]
  {
    hide NoDup, View, AllCoherent, AllPlaced;
    var t := s.(bufs := s.bufs[l := c]);
    assert t.bufs.Keys == s.bufs.Keys;
    CoherentUpdate(s, t, l);
    RewritePlaced(s, l, c);
  }

  lemma {:induction false} RewritePlaced(s: State, l: nat, c: BufV)
    requires AllPlaced(s) && l in s.bufs && SameLinks(s.bufs[l], c)
    requires c.dirty == s.bufs[l].dirty || c.refctr > 0
    ensures AllPlaced(s.(bufs := s.bufs[l := c]))
  {
    var t := s.(bufs := s.bufs[l := c]);
    assert Placed(s.bufs[l], l, s);
    forall m | m in t.bufs ensures Placed(t.bufs[m], m, t) {
      assert Placed(s.bufs[m], m, s);
    }
  }

  /** A client changes the contents and marks the buffer dirty (ext4_bcache_set_dirty). */
  function EditOf(s: State, l: nat, data: Data): State
    requires l in s.bufs
  {
    s.(bufs := s.bufs[l := s.bufs[l].(data := data, uptodate := true, dirty := true)])
  }

  /** ext4_block_get reads a buffer that is not up to date. */
  function FillOf(s: State, l: nat): State
    requires l in s.bufs && l < |s.disk|
  {
    if s.bufs[l].uptodate then s
    else s.(bufs := s.bufs[l := s.bufs[l].(data := s.disk[l], uptodate := true)])
  }

  lemma {:induction false} EditOk(s: State, l: nat, data: Data)
    requires Ok(s) && l in s.bufs && s.bufs[l].refctr > 0
    ensures l < |s.disk| && Ok(EditOf(s, l, data)) && View(EditOf(s, l, data)) == View(s)[l := data]
  {
    assert Coherent(s.bufs[l], l, s.disk);
    RewriteOk(s, l, s.bufs[l].(data := data, uptodate := true, dirty := true));
  }

  lemma {:induction false} FillOk(s: State, l: nat)
    requires Ok(s) && l in s.bufs && l < |s.disk|
    ensures Ok(FillOf(s, l)) && View(FillOf(s, l)) == View(s)
    ensures FillOf(s, l).bufs[l].uptodate && FillOf(s, l).bufs[l].data == View(s)[l]
  {
    assert Coherent(s.bufs[l], l, s.disk);
    if !s.bufs[l].uptodate {
      RewriteOk(s, l, s.bufs[l].(data := s.disk[l], uptodate := true));
      assert View(s)[l := s.disk[l]] == View(s);
    }
  }

  // ----- releasing

  /** ext4_bcache_free up to the point where a stale buffer is dropped: the last reference
      enters the buffer into the LRU order and queues or writes it when it is dirty. */
  function ReleaseOf(s: State, l: nat): State
    requires l in s.bufs && s.bufs[l].refctr > 0 && l < |s.disk|
  {
    var b := s.bufs[l].(refctr := s.bufs[l].refctr - 1);
    if b.refctr > 0 then s.(bufs := s.bufs[l := b])
    else
      var s1 := s.(bufs := s.bufs[l := b], lru := if b.lruId in s.lru then s.lru else s.lru[b.lruId := l]);
      if b.dirty && b.uptodate then
        if s.writeBack > 0 && !b.flush && !b.tmp then Queued(s1, l)
        else Unflag(FlushOf(s1, l), l)
      else s1
  }

  lemma {:induction false} ReleaseIs(s: State, t: State, l: nat)
    requires l in s.bufs && s.bufs[l].refctr > 0 && l < |s.disk|
    requires t == Put(s, l, s.bufs[l].(refctr := s.bufs[l].refctr - 1))
    ensures t.writeBack == s.writeBack && t.disk == s.disk && l in t.bufs
    ensures t.bufs[l] == s.bufs[l].(refctr := s.bufs[l].refctr - 1)
    ensures s.bufs[l].refctr > 1 ==> ReleaseOf(s, l) == t
    ensures s.bufs[l].refctr == 1 ==>
      var b := t.bufs[l];
      var u := t.(lru := if b.lruId in t.lru then t.lru else t.lru[b.lruId := l]);
      ReleaseOf(s, l) == if !(b.dirty && b.uptodate) then u
                         else if s.writeBack > 0 && !b.flush && !b.tmp then Queued(u, l) else Unflag(FlushOf(u, l), l)
  {
    hide Queued, Unflag, FlushOf;
  }

  /** ext4_bcache_free. */
  function FreeOf(s: State, l: nat): State
    requires l in s.bufs && s.bufs[l].refctr > 0 && l < |s.disk|
  {
    var t := ReleaseOf(s, l);
    if s.bufs[l].refctr == 1 && (!s.bufs[l].uptodate || s.bufs[l].tmp) && t.refBlocks > 0 then DropOf(t, l) else t
  }

  function Queued(s: State, l: nat): State
    requires l in s.bufs
  {
    s.(dirty := if s.bufs[l].onDirty then s.dirty else [l] + s.dirty,
       bufs := s.bufs[l := s.bufs[l].(onDirty := true)])
  }

  function Unflag(s: State, l: nat): State
    requires l in s.bufs
  {
    s.(bufs := s.bufs[l := s.bufs[l].(flush := false)])
  }

  /** A released buffer that stays: clean, or dirty and queued. */
  lemma {:induction false} ReleasedOk(s: State, l: nat, c: BufV, dirty: seq<nat>, disk: seq<Data>)
    requires Ok(s) && l in s.bufs && s.bufs[l].refctr == 1 && l < |s.disk|
    requires c.refctr == 0 && c.lruId == s.bufs[l].lruId
    requires c.uptodate == s.bufs[l].uptodate && (c.uptodate ==> c.data == s.bufs[l].data)
    requires if c.dirty then s.bufs[l].dirty && c.onDirty && dirty == [l] + s.dirty && disk == s.disk
             else !c.onDirty && dirty == s.dirty && disk == if s.bufs[l].dirty then s.disk[l := c.data] else s.disk
    ensures var t := s.(bufs := s.bufs[l := c], lru := s.lru[c.lruId := l], dirty := dirty, disk := disk);
            Ok(t) && View(t) == View(s) && c.lruId !in s.lru
  {
    hide NoDup, View, AllCoherent, AllPlaced, UniqueIds, LruOk;
    var t := s.(bufs := s.bufs[l := c], lru := s.lru[c.lruId := l], dirty := dirty, disk := disk);
    assert t.bufs.Keys == s.bufs.Keys;
    ReleasedPlaced(s, t, l);
    CoherentAt(s, l);
    CoherentUpdate(s, t, l);
    assert View(s)[l := ViewAt(t, l)] == View(s);
    if dirty != s.dirty { NoDupCons(s.dirty, l); }
  }

  lemma {:induction false} CoherentAt(s: State, l: nat)
    requires AllCoherent(s) && l in s.bufs
    ensures Coherent(s.bufs[l], l, s.disk)
  {}

  lemma {:induction false} NoDupCons<T(!new)>(s: seq<T>, x: T)
    requires NoDup(s) && x !in s
    ensures NoDup([x] + s)
  {}

  lemma {:induction false} ReleasedPlaced(s: State, t: State, l: nat)
    requires AllPlaced(s) && UniqueIds(s) && LruOk(s) && l in s.bufs && s.bufs[l].refctr == 1
    requires l in t.bufs && t.bufs == s.bufs[l := t.bufs[l]] && t.lru == s.lru[s.bufs[l].lruId := l] && t.lruCtr == s.lruCtr
    requires t.bufs[l].refctr == 0 && t.bufs[l].lruId == s.bufs[l].lruId
    requires if t.bufs[l].dirty then t.bufs[l].onDirty && t.dirty == [l] + s.dirty
             else !t.bufs[l].onDirty && t.dirty == s.dirty
    ensures AllPlaced(t) && UniqueIds(t) && LruOk(t)
    ensures s.bufs[l].lruId !in s.lru && l !in s.dirty && !s.bufs[l].onDirty
  {
    assert Placed(s.bufs[l], l, s);
    forall m | m in t.bufs ensures Placed(t.bufs[m], m, t) {
      assert Placed(s.bufs[m], m, s);
    }
    forall id | id in t.lru ensures t.lru[id] in t.bufs && t.bufs[t.lru[id]].lruId == id {
      assert id == s.bufs[l].lruId || id in s.lru;
    }
  }

  /** Releasing a reference never changes the logical disk. */
  lemma {:induction false} FreeOk(s: State, l: nat)
    requires Ok(s) && l in s.bufs && s.bufs[l].refctr > 0 && l < |s.disk|
    ensures Ok(FreeOf(s, l)) && View(FreeOf(s, l)) == View(s)
    ensures s.writeBack == 0 && s.dirty == [] ==> FreeOf(s, l).dirty == []
    ensures forall m :: m in s.bufs && m != l ==> m in FreeOf(s, l).bufs && FreeOf(s, l).bufs[m] == s.bufs[m]
    ensures l in FreeOf(s, l).bufs ==> FreeOf(s, l).bufs[l].refctr == s.bufs[l].refctr - 1
    ensures l !in FreeOf(s, l).bufs ==> s.bufs[l].refctr == 1
  {
    hide NoDup, View, AllCoherent, AllPlaced, UniqueIds, LruOk, Without;
    CoherentAt(s, l);
    var b := s.bufs[l].(refctr := s.bufs[l].refctr - 1);
    if b.refctr > 0 {
      RewriteOk(s, l, b);
      assert View(s)[l := if b.uptodate then b.data else s.disk[l]] == View(s) by { ViewHas(s, l); }
    } else {
      LastFree(s, l);
    }
  }

  lemma {:induction false} ViewHas(s: State, l: nat)
    requires l < |s.disk|
    ensures View(s)[l] == ViewAt(s, l)
  {}

  lemma {:induction false} LastRelease(s: State, l: nat)
    requires Ok(s) && l in s.bufs && s.bufs[l].refctr == 1 && l < |s.disk|
    ensures Ok(ReleaseOf(s, l)) && View(ReleaseOf(s, l)) == View(s)
    ensures s.writeBack == 0 && s.dirty == [] ==> ReleaseOf(s, l).dirty == []
    ensures l in ReleaseOf(s, l).bufs && ReleaseOf(s, l).bufs[l].refctr == 0
    ensures !s.bufs[l].uptodate || s.bufs[l].tmp ==> !ReleaseOf(s, l).bufs[l].dirty
  {
    hide NoDup, View, AllCoherent, AllPlaced, UniqueIds, LruOk, Without;
    CoherentAt(s, l);
    NotQueued(s, l);
    var b := s.bufs[l].(refctr := 0);
    var queue := s.writeBack > 0 && !b.flush && !b.tmp;
    var c := if !b.dirty then b else if queue then b.(onDirty := true) else b.(dirty := false, flush := false);
    var dirty := if b.dirty && queue then [l] + s.dirty else s.dirty;
    var disk := if b.dirty && !queue then s.disk[l := b.data] else s.disk;
    ReleasedOk(s, l, c, dirty, disk);
    var t := s.(bufs := s.bufs[l := c], lru := s.lru[c.lruId := l], dirty := dirty, disk := disk);
    var s1 := s.(bufs := s.bufs[l := b], lru := s.lru[b.lruId := l]);
    assert s1.bufs[l := c] == s.bufs[l := c];
    assert b.dirty && !queue ==> FlushOf(s1, l).bufs[l := c] == s.bufs[l := c];
    assert ReleaseOf(s, l) == t;
  }

  lemma {:induction false} LastFree(s: State, l: nat)
    requires Ok(s) && l in s.bufs && s.bufs[l].refctr == 1 && l < |s.disk|
    ensures Ok(FreeOf(s, l)) && View(FreeOf(s, l)) == View(s)
    ensures s.writeBack == 0 && s.dirty == [] ==> FreeOf(s, l).dirty == []
  {
    hide NoDup, View, AllCoherent, AllPlaced, UniqueIds, LruOk, DirtyOk, Without, ReleaseOf;
    LastRelease(s, l);
    if !s.bufs[l].uptodate || s.bufs[l].tmp {
      DropOk(ReleaseOf(s, l), l);
    }
  }

  lemma {:induction false} NotQueued(s: State, l: nat)
    requires AllPlaced(s) && l in s.bufs && s.bufs[l].refctr > 0
    ensures !s.bufs[l].onDirty && l !in s.dirty
  {
    assert Placed(s.bufs[l], l, s);
  }

  // ----- invalidating

  /** ext4_bcache_invalidate_buf: both flags are cleared. */
  function InvalidateOf(s: State, l: nat): State
    requires l in s.bufs
  {
    var b := s.bufs[l];
    s.(dirty := if b.dirty && b.onDirty then Without(s.dirty, l) else s.dirty,
       bufs := s.bufs[l := b.(uptodate := false, dirty := false, onDirty := b.onDirty && !b.dirty)])
  }

  lemma {:induction false} InvalidateIs(s: State, l: nat)
    requires l in s.bufs
    ensures InvalidateOf(s, l) == var t := if s.bufs[l].dirty then Unqueued(s, l) else s;
                                  Put(t, l, t.bufs[l].(uptodate := false, dirty := false))
  {
    hide Without;
    var t := if s.bufs[l].dirty then Unqueued(s, l) else s;
    assert Put(t, l, t.bufs[l].(uptodate := false, dirty := false)).bufs == InvalidateOf(s, l).bufs;
  }

  /** Invalidating a buffer makes readers see the device's block again, and nothing else. */
  lemma {:induction false} InvalidateOk(s: State, l: nat)
    requires Ok(s) && l in s.bufs
    ensures Ok(InvalidateOf(s, l)) && l < |s.disk|
    ensures View(InvalidateOf(s, l)) == View(s)[l := s.disk[l]]
    ensures s.dirty == [] ==> InvalidateOf(s, l).dirty == []
  {
    hide NoDup, View, AllCoherent, AllPlaced, Without;
    CoherentAt(s, l);
    var t := InvalidateOf(s, l);
    assert t.bufs.Keys == s.bufs.Keys;
    CoherentUpdate(s, t, l);
    WithoutOk(s.dirty, l);
    InvalidatePlaced(s, l);
    if s.dirty == [] { assert |Without(s.dirty, l)| == 0; }
  }

  lemma {:induction false} InvalidatePlaced(s: State, l: nat)
    requires AllPlaced(s) && NoDup(s.dirty) && l in s.bufs
    ensures AllPlaced(InvalidateOf(s, l))
  {
    hide NoDup, Without;
    WithoutOk(s.dirty, l);
    var t := InvalidateOf(s, l);
    assert Placed(s.bufs[l], l, s);
    forall m | m in t.bufs ensures Placed(t.bufs[m], m, t) {
      assert Placed(s.bufs[m], m, s);
    }
  }

  const U64 := 0x1_0000_0000_0000_0000

  /** The last address of a range, computed in 64 bits. */
  function RangeEnd(from: nat, n: Count): nat { (from + n - 1) % U64 }

  /** A number of blocks: a 32-bit argument. */
  type Count = n: nat | n < 0x1_0000_0000

  /** Block l is one of the n blocks from `from` on, when these lie below 2^64; no blocks from block 0 on
      are all blocks, because the end is found by subtracting 1. */
  predicate InRange(from: nat, n: Count, l: nat) {
    if from == 0 && n == 0 then l < 0x1_0000_0000_0000_0000
    else from <= l < from + n && from + n <= 0x1_0000_0000_0000_0000
  }

  /** The end that the walk compares with keeps it inside the range, and lets it reach all of the range. */
  lemma {:induction false} RangeIs(from: nat, n: Count, l: nat)
    ensures from <= l <= RangeEnd(from, n) <==> InRange(from, n, l)
  {}

  /** What a reader sees after ext4_bcache_invalidate_lba: the walk starts at the buffer of
      `from`, so without it nothing happens. */
  ghost function InvalidatedView(s: State, from: nat, n: Count): seq<Data> {
    seq(|s.disk|, l requires 0 <= l < |s.disk| =>
      if from in s.bufs && InRange(from, n, l) then s.disk[l] else ViewAt(s, l))
  }

  /** A buffer whose unwritten contents an invalidation is meant to discard. */
  predicate Unwritten(s: State, l: nat)
    requires l < |s.disk|
  {
    l in s.bufs && s.bufs[l].uptodate && s.bufs[l].dirty && s.bufs[l].data != s.disk[l]
  }

  /** Exactly when invalidating makes the whole range read from the device. */
  lemma {:induction false} InvalidateReaches(s: State, from: nat, n: Count)
    requires Ok(s)
    ensures (forall l: nat :: InRange(from, n, l) && l < |s.disk| ==> InvalidatedView(s, from, n)[l] == s.disk[l])
       <==> (from in s.bufs || forall l: nat :: InRange(from, n, l) && l < |s.disk| ==> !Unwritten(s, l))
  {
    hide NoDup, AllPlaced, LruOk, UniqueIds;
    forall l: nat | l < |s.disk| ensures ViewAt(s, l) == s.disk[l] <==> !Unwritten(s, l) {
      if l in s.bufs { assert Coherent(s.bufs[l], l, s.disk); }
    }
    if from !in s.bufs {
      forall l: nat | l < |s.disk| ensures InvalidatedView(s, from, n)[l] == ViewAt(s, l) {}
    }
  }

  /** Block 3 is not cached, block 4 is and is dirty: invalidating blocks 3 and 4 discards nothing. */
  lemma {:induction false} InvalidateMisses()
    ensures var b := BufV([1], true, true, false, false, 1, 1, false);
            var s := State(1, 1, map[4 := b], map[], [], [[0], [0], [0], [0], [0]], 0);
            Settled(s) && InvalidatedView(s, 3, 2)[4] == [1] != s.disk[4]
  {
    var b := BufV([1], true, true, false, false, 1, 1, false);
    var s := State(1, 1, map[4 := b], map[], [], [[0], [0], [0], [0], [0]], 0);
    assert Placed(b, 4, s) && Coherent(b, 4, s.disk);
    assert |s.bufs| == 1 by { assert s.bufs.Keys == {4}; }
  }

  // ----- evicting

  predicate IsLeast(keys: set<nat>, k: nat) {
    k in keys && forall m :: m in keys ==> k <= m
  }

  lemma {:induction false} LeastExists(keys: set<nat>)
    requires keys != {}
    ensures exists k :: IsLeast(keys, k)
  {
    var k :| k in keys;
    LeastBelow(keys, k);
  }

  lemma {:induction false} LeastBelow(keys: set<nat>, k: nat)
    requires k in keys
    ensures exists least :: IsLeast(keys, least)
    decreases k
  {
    if m :| m in keys && m < k {
      LeastBelow(keys, m);
    } else {
      assert IsLeast(keys, k);
    }
  }

  /** One round of ext4_block_cache_shake on the buffer with LRU id `id`. */
  function EvictOf(s: State, id: nat): State
    requires id in s.lru && s.lru[id] in s.bufs && s.lru[id] < |s.disk| && s.refBlocks > 0
  {
    var l := s.lru[id];
    var s1 := if s.bufs[l].dirty then FlushOf(s, l) else s;
    DropOf(s1, l)
  }

  lemma {:induction false} EvictOk(s: State, id: nat)
    requires Ok(s) && id in s.lru
    ensures s.lru[id] in s.bufs && s.lru[id] < |s.disk| && s.refBlocks > 0 && s.bufs[s.lru[id]].refctr == 0
    ensures Ok(EvictOf(s, id)) && View(EvictOf(s, id)) == View(s)
    ensures EvictOf(s, id).refBlocks == s.refBlocks - 1 && EvictOf(s, id).bufs == s.bufs - {s.lru[id]}
    ensures EvictOf(s, id).lru == s.lru - {id}
    ensures s.dirty == [] ==> EvictOf(s, id).dirty == []
  {
    hide NoDup, View, AllCoherent, Without, UniqueIds;
    var l := s.lru[id];
    CoherentAt(s, l);
    assert Placed(s.bufs[l], l, s);
    FlushOk(s, l);
    var s1 := if s.bufs[l].dirty then FlushOf(s, l) else s;
    DropOk(s1, l);
    assert s1.bufs - {l} == s.bufs - {l};
  }

  /** From s to t the unreferenced buffers with the least LRU ids went, everything else stayed. */
  ghost predicate OldestGone(s: State, t: State) {
    && t.lru.Keys <= s.lru.Keys && (forall i :: i in t.lru ==> t.lru[i] == s.lru[i])
    && (forall i, j :: i in s.lru && i !in t.lru && j in t.lru ==> i < j)
    && (forall l :: l in t.bufs <==> l in s.bufs && !(exists i :: i in s.lru && i !in t.lru && s.lru[i] == l))
    && (forall l :: l in t.bufs ==> t.bufs[l] == s.bufs[l])
  }

  lemma {:induction false} OldestGoneOne(s: State, id: nat)
    requires Ok(s) && IsLeast(s.lru.Keys, id)
    requires s.lru[id] in s.bufs && s.lru[id] < |s.disk| && s.refBlocks > 0
    ensures OldestGone(s, EvictOf(s, id))
  {
    hide Ok, View, EvictOf, NoDup;
    EvictOk(s, id);
    var t := EvictOf(s, id);
    forall i | i in s.lru && i !in t.lru ensures i == id {}
  }

  lemma {:induction false} OldestGoneThen(s: State, t: State, u: State)
    requires OldestGone(s, t) && OldestGone(t, u)
    ensures OldestGone(s, u)
  {
    forall l | l in t.bufs && l !in u.bufs ensures exists i :: i in s.lru && i !in u.lru && s.lru[i] == l {
      var i :| i in t.lru && i !in u.lru && t.lru[i] == l;
      assert i in s.lru && s.lru[i] == l;
    }
  }

  // ----- references

  /** How many references clients hold to block l's buffer. */
  function RefOf(s: State, l: nat): nat {
    if l in s.bufs then s.bufs[l].refctr else 0
  }

  ghost predicate SameRefs(s: State, t: State) {
    forall l: nat :: RefOf(t, l) == RefOf(s, l)
  }

  /** t has `n` references to block l; all other counts are those of s. */
  ghost predicate RefChanged(s: State, t: State, l: nat, n: int) {
    RefOf(t, l) == n && forall m: nat :: m != l ==> RefOf(t, m) == RefOf(s, m)
  }

  /** Blocks that stay referenced keep their valid contents. */
  ghost predicate StaysValid(s: State, t: State) {
    forall l: nat :: RefOf(s, l) > 0 && RefOf(t, l) > 0 && s.bufs[l].uptodate ==> t.bufs[l].uptodate
  }

  lemma {:induction false} EvictRefs(s: State, id: nat)
    requires Ok(s) && id in s.lru
    ensures s.lru[id] in s.bufs && s.lru[id] < |s.disk| && s.refBlocks > 0
    ensures SameRefs(s, EvictOf(s, id)) && StaysValid(s, EvictOf(s, id))
  {
    hide Ok, EvictOf;
    EvictOk(s, id);
  }

  lemma {:induction false} FindGetRefs(s: State, l: nat)
    requires l in s.bufs
    ensures RefChanged(s, FindGetOf(s, l), l, RefOf(s, l) + 1) && StaysValid(s, FindGetOf(s, l))
  {}

  lemma {:induction false} AllocRefs(s: State, l: nat, junk: Data)
    requires l !in s.bufs
    ensures RefChanged(s, AllocOf(s, l, junk), l, 1) && StaysValid(s, AllocOf(s, l, junk))
  {}

  lemma {:induction false} FillRefs(s: State, l: nat)
    requires l in s.bufs && l < |s.disk|
    ensures SameRefs(s, FillOf(s, l)) && StaysValid(s, FillOf(s, l))
  {}

  lemma {:induction false} EditRefs(s: State, l: nat, data: Data)
    requires l in s.bufs
    ensures SameRefs(s, EditOf(s, l, data)) && StaysValid(s, EditOf(s, l, data))
  {}

  lemma {:induction false} FlushRefs(s: State, l: nat)
    requires l in s.bufs && l < |s.disk|
    ensures SameRefs(s, FlushOf(s, l)) && StaysValid(s, FlushOf(s, l))
  {
    hide Without;
  }

  lemma {:induction false} FreeRefs(s: State, l: nat)
    requires Ok(s) && l in s.bufs && s.bufs[l].refctr > 0 && l < |s.disk|
    ensures RefChanged(s, FreeOf(s, l), l, RefOf(s, l) - 1) && StaysValid(s, FreeOf(s, l))
  {
    hide Ok, FreeOf;
    FreeOk(s, l);
    FreeValid(s, l);
  }

  lemma {:induction false} FreeValid(s: State, l: nat)
    requires l in s.bufs && s.bufs[l].refctr > 0 && l < |s.disk|
    ensures FreeOf(s, l).bufs.Keys <= s.bufs.Keys
    ensures s.bufs[l].refctr > 1 ==> l in FreeOf(s, l).bufs && FreeOf(s, l).bufs[l].uptodate == s.bufs[l].uptodate
  {
    hide Without;
  }

  // ----- what the invariant says

  /** The LRU order holds exactly the unreferenced buffers, the dirty list exactly the dirty ones
      among them, the count is right, and clean buffers hold what the device holds. */
  lemma {:induction false} Structure(s: State)
    requires Ok(s)
    ensures s.lru.Values == set l | l in s.bufs && s.bufs[l].refctr == 0
    ensures forall l: nat :: l in s.dirty <==> l in s.bufs && s.bufs[l].refctr == 0 && s.bufs[l].dirty
    ensures s.refBlocks == |s.bufs|
    ensures forall l :: l in s.bufs && s.bufs[l].uptodate && !s.bufs[l].dirty ==> l < |s.disk| && s.bufs[l].data == s.disk[l]
  {
    hide NoDup;
    forall l | l in s.bufs
      ensures l in s.lru.Values <==> s.bufs[l].refctr == 0
      ensures l in s.dirty <==> s.bufs[l].refctr == 0 && s.bufs[l].dirty
    {
      assert Placed(s.bufs[l], l, s);
      if s.bufs[l].refctr == 0 { assert s.bufs[l].lruId in s.lru; }
    }
    forall l | l in s.bufs ensures Coherent(s.bufs[l], l, s.disk) {}
  }

  /** With an empty dirty list the device holds every block no client is using. */
  lemma {:induction false} Durable(s: State)
    requires Ok(s) && s.dirty == []
    ensures forall l: nat :: l < |s.disk| && RefOf(s, l) == 0 ==> s.disk[l] == View(s)[l]
  {
    hide NoDup;
    forall l: nat | l < |s.disk| && RefOf(s, l) == 0 ensures s.disk[l] == View(s)[l] {
      if l in s.bufs {
        assert Placed(s.bufs[l], l, s) && Coherent(s.bufs[l], l, s.disk);
      }
    }
  }

  /** Exactly when a get keeps the ids unique: the buffer was referenced already, or no other one has the id
      that comes next. */
  lemma {:induction false} FindGetUnique(s: State, l: nat)
    requires Ok(s) && l in s.bufs
    ensures UniqueIds(FindGetOf(s, l)) <==> Clear(s, l)
    ensures Ok(FindGetOf(s, l)) <==> Clear(s, l)
  {
    hide View, NoDup, AllCoherent, AllPlaced, Without, LruOk, DirtyOk;
    if Clear(s, l) {
      FindGetOk(s, l);
    } else {
      var m :| m in s.bufs && m != l && s.bufs[m].lruId == NextId(s);
      var t := FindGetOf(s, l);
      assert t.bufs[m].lruId == t.bufs[l].lruId;
    }
  }

  lemma {:induction false} AllocUnique(s: State, l: nat, junk: Data)
    requires Ok(s) && l !in s.bufs && l < |s.disk|
    ensures UniqueIds(AllocOf(s, l, junk)) <==> Clear(s, l)
    ensures Ok(AllocOf(s, l, junk)) <==> Clear(s, l)
  {
    hide View, NoDup, AllCoherent, AllPlaced, LruOk, DirtyOk;
    if Clear(s, l) {
      AllocOk(s, l, junk);
    } else {
      var m :| m in s.bufs && m != l && s.bufs[m].lruId == NextId(s);
      var t := AllocOf(s, l, junk);
      assert t.bufs[m].lruId == t.bufs[l].lruId;
    }
  }

  /** One clean block, held since the first get, when the LRU counter is about to wrap. */
  function AtWrap(): State {
    State(0xFFFF_FFFF, 1, map[4 := BufV([0], true, false, false, false, 1, 1, false)], map[], [], [[0], [0], [0], [0], [0], [0], [0]], 0)
  }

  lemma {:induction false} AtWrapSettled()
    ensures Settled(AtWrap())
  {
    var s := AtWrap();
    assert Placed(s.bufs[4], 4, s) && Coherent(s.bufs[4], 4, s.disk);
    assert s.bufs.Keys == {4};
  }

  /** Once the 32-bit counter has wrapped, the second get finds that buffer's id in use; when both are
      released, the older never enters the LRU order. */
  lemma {:induction false} WrappedCounter()
    ensures Settled(AtWrap()) && !Clear(AllocOf(AtWrap(), 5, []), 6)
    ensures var t := FillOf(AllocOf(AllocOf(AtWrap(), 5, []), 6, []), 6);
            var u := FreeOf(FreeOf(t, 6), 4);
            4 in u.bufs && u.bufs[4].refctr == 0 && 4 !in u.lru.Values
  {
    hide Settled, Ok, Without, Queued, FlushOf, DropOf, Unflag;
    AtWrapSettled();
    var t := FillOf(AllocOf(AllocOf(AtWrap(), 5, []), 6, []), 6);
    var b := BufV([0], true, false, false, false, 1, 1, false);
    assert t.bufs[6] == b && t.bufs[4] == b && t.lru == map[];
    var u := FreeOf(t, 6);
    assert u.lru == map[1 := 6] && u.bufs[4] == b;
    assert FreeOf(u, 4).lru == map[1 := 6];
  }
}
