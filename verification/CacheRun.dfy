/** Whole runs of cached block operations against a plain array of blocks. */
module CacheRun {
  import opened BcacheSpec
  import opened Bcache
  import opened BlockDevice

  /** What a client can do; `junk` is what the memory of a new buffer holds. `Fill` is
      ext4_block_get_noread followed by overwriting the block; `Invalidate` gives up what the cache holds
      of n blocks. */
  datatype Op =
    | Get(lba: nat, junk: Data)
    | Fill(lba: nat, junk: Data, data: Data)
    | Read(lba: nat)
    | Write(lba: nat, data: Data)
    | Put(lba: nat)
    | Flush(lba: nat)
    | FlushAll
    | WriteBack(on: bool)
    | Invalidate(from: nat, n: Count)

  /** The simple device: an array of blocks, the references held, and everything that each block ever held. */
  datatype Plain = Plain(disk: seq<Data>, held: map<nat, nat>, past: seq<set<Data>>)

  datatype Out = Nothing | Contents(data: Data)

  /** A device with these blocks, before any operation. */
  function Fresh(disk: seq<Data>): (p: Plain)
    ensures p.disk == disk && p.held == map[] && |p.past| == |disk| && forall l :: 0 <= l < |disk| ==> disk[l] in p.past[l]
  {
    Plain(disk, map[], seq(|disk|, l requires 0 <= l < |disk| => {disk[l]}))
  }

  function Held(p: Plain, l: nat): nat { if l in p.held then p.held[l] else 0 }

  function Take(p: Plain, l: nat): Plain { p.(held := p.held[l := Held(p, l) + 1]) }

  function Changed(p: Plain, l: nat, d: Data): Plain
    requires l < |p.disk| == |p.past|
  {
    p.(disk := p.disk[l := d], past := p.past[l := p.past[l] + {d}])
  }

  /** A block of the range is in use. */
  predicate InUse(p: Plain, from: nat, n: Count) {
    exists l :: l in p.held && p.held[l] > 0 && InRange(from, n, l)
  }

  /** What an invalidation can make of the array: of each block in the range, what it holds or held once. */
  predicate MayBecome(p: Plain, from: nat, n: Count, now: seq<Data>)
    requires |p.disk| == |p.past|
  {
    |now| == |p.disk|
    && forall l :: 0 <= l < |now| ==> now[l] == p.disk[l] || (InRange(from, n, l) && now[l] in p.past[l])
  }

  /** Using a block that is not held, releasing block 0, or invalidating a block in use is a client error: no
      effect. An invalidation makes the array `now`. */
  function Step(p: Plain, op: Op, now: seq<Data>): (Plain, Out)
    requires |p.disk| == |p.past|
  {
    match op
    case Get(l, _) => if l < |p.disk| then (Take(p, l), Contents(p.disk[l])) else (p, Nothing)
    case Fill(l, _, d) => if l < |p.disk| then (Take(Changed(p, l, d), l), Contents(d)) else (p, Nothing)
    case Read(l) => if l < |p.disk| && Held(p, l) > 0 then (p, Contents(p.disk[l])) else (p, Nothing)
    case Write(l, d) => if l < |p.disk| && Held(p, l) > 0 then (Changed(p, l, d), Contents(d)) else (p, Nothing)
    case Put(l) => if l != 0 && Held(p, l) > 0 then (p.(held := p.held[l := Held(p, l) - 1]), Nothing) else (p, Nothing)
    case Flush(_) => (p, Nothing)
    case FlushAll => (p, Nothing)
    case WriteBack(_) => (p, Nothing)
    case Invalidate(from, n) => if !InUse(p, from, n) && MayBecome(p, from, n, now) then (p.(disk := now), Nothing) else (p, Nothing)
  }

  /** An invalidation leaves every block alone that lies before or behind its range, and never makes one read
      as what it did not hold before. */
  lemma {:induction false} StepInvalidates(p: Plain, from: nat, n: Count, now: seq<Data>, l: nat)
    requires |p.disk| == |p.past| && l < |p.disk| && 0 < n && from + n <= 0x1_0000_0000_0000_0000
    ensures var q := Step(p, Invalidate(from, n), now).0;
      |q.disk| == |p.disk| && q.held == p.held && (l < from || from + n <= l ==> q.disk[l] == p.disk[l])
      && (q.disk[l] == p.disk[l] || q.disk[l] in p.past[l])
      && (l in p.held && p.held[l] > 0 && from <= l < from + n ==> q == p)
  {
    RangeIs(from, n, l);
  }

  /** The device after the operations and its answers; nows[k] is what the k-th one makes of the array if it is
      an invalidation. */
  function Steps(p: Plain, ops: seq<Op>, nows: seq<seq<Data>>): (r: (Plain, seq<Out>))
    requires |p.disk| == |p.past| && |nows| == |ops|
    ensures |r.0.disk| == |r.0.past|
    decreases |ops|
  {
    if ops == [] then (p, [])
    else
      var n := |ops| - 1;
      var (q, os) := Steps(p, ops[..n], nows[..n]);
      var (r, o) := Step(q, ops[n], nows[n]);
      (r, os + [o])
  }

  /** What the device holds after an operation that writes back: the block flushed, or every block that is
      not referenced. */
  ghost predicate WrittenBack(p: Plain, op: Op, s: State) {
    |s.disk| == |p.disk| &&
    match op
    case Flush(l) => 0 < l < |s.disk| ==> s.disk[l] == p.disk[l]
    case FlushAll => forall l: nat :: l < |s.disk| && RefOf(s, l) == 0 ==> s.disk[l] == p.disk[l]
    case WriteBack(_) => s.writeBack == 0 ==> forall l: nat :: l < |s.disk| && RefOf(s, l) == 0 ==> s.disk[l] == p.disk[l]
    case _ => true
  }

  /** The cache stands for the plain device, and the client's pointers are good. */
  ghost predicate Serves(tree: map<nat, Buf>, s: State, ptr: map<nat, Buf>, p: Plain) {
    && View(s) == p.disk && |p.past| == |s.disk|
    && (forall l :: 0 <= l < |s.disk| ==> s.disk[l] in p.past[l] && View(s)[l] in p.past[l])
    && forall l: nat ::
      RefOf(s, l) == Held(p, l) &&
      (Held(p, l) > 0 ==> l in ptr && l in tree && tree[l] == ptr[l] && s.bufs[l].uptodate)
  }

  lemma {:induction false} ServesUnseen(tree: map<nat, Buf>, s: State, tree': map<nat, Buf>, t: State, ptr: map<nat, Buf>, p: Plain)
    requires Serves(tree, s, ptr, p) && Unseen(tree, s, tree', t)
    ensures Serves(tree', t, ptr, p)
  {
    hide View;
  }

  /** A new reference, through the pointer b to valid contents. */
  lemma {:induction false} ServesTake(tree: map<nat, Buf>, s: State, tree': map<nat, Buf>, t: State, ptr: map<nat, Buf>, p: Plain, b: Buf)
    requires Serves(tree, s, ptr, p) && UnseenBut(tree, s, tree', t, b.lba, RefOf(s, b.lba) + 1)
    requires InTree(tree', b) && b.lba in t.bufs && t.bufs[b.lba].uptodate
    ensures Serves(tree', t, ptr[b.lba := b], Take(p, b.lba))
  {
    hide View;
  }

  lemma {:induction false} ServesEdit(tree: map<nat, Buf>, s: State, t: State, ptr: map<nat, Buf>, p: Plain, l: nat, d: Data)
    requires Serves(tree, s, ptr, p) && SameRefs(s, t) && StaysValid(s, t) && l < |p.disk| && View(t) == View(s)[l := d]
    requires t.disk == s.disk
    ensures Serves(tree, t, ptr, Changed(p, l, d))
  {
    hide View;
  }

  /** A new reference whose contents the client then overwrites. */
  lemma {:induction false} ServesFill(tree: map<nat, Buf>, s: State, tree': map<nat, Buf>, t: State, u: State, ptr: map<nat, Buf>, p: Plain, b: Buf, d: Data)
    requires Serves(tree, s, ptr, p) && UnseenBut(tree, s, tree', t, b.lba, RefOf(s, b.lba) + 1) && b.lba < |p.disk|
    requires SameRefs(t, u) && StaysValid(t, u) && View(u) == View(t)[b.lba := d] && u.disk == t.disk
    requires InTree(tree', b) && b.lba in u.bufs && u.bufs[b.lba].uptodate
    ensures |p.past| == |p.disk| && Serves(tree', u, ptr[b.lba := b], Take(Changed(p, b.lba, d), b.lba))
  {
    hide View;
    var q := Take(Changed(p, b.lba, d), b.lba);
    forall l: nat
      ensures RefOf(u, l) == Held(q, l)
      ensures Held(q, l) > 0 ==> l in ptr[b.lba := b] && l in tree' && tree'[l] == ptr[b.lba := b][l] && u.bufs[l].uptodate
    {
      assert RefOf(s, l) == Held(p, l);
    }
  }

  lemma {:induction false} ServesPut(tree: map<nat, Buf>, s: State, tree': map<nat, Buf>, t: State, ptr: map<nat, Buf>, p: Plain, l: nat)
    requires Serves(tree, s, ptr, p) && Held(p, l) > 0 && UnseenBut(tree, s, tree', t, l, RefOf(s, l) - 1)
    ensures Serves(tree', t, ptr, p.(held := p.held[l := Held(p, l) - 1]))
  {
    hide View;
  }

  /** What serving means for one held block. */
  lemma {:induction false} ServesHeld(c: Cache, ptr: map<nat, Buf>, p: Plain, l: nat)
    requires c.Valid() && Serves(c.lbaTree, c.Abs(), ptr, p)
    ensures |p.disk| == |c.disk| == |p.past|
    ensures Held(p, l) > 0 ==> l in ptr && c.Cached(ptr[l]) && ptr[l].lba == l && ptr[l].refctr > 0 && l < |p.disk|
    ensures Held(p, l) > 0 ==> ptr[l].uptodate && ptr[l].data == p.disk[l]
    ensures Held(p, l) > 0 <==> l in c.lbaTree && c.lbaTree[l].refctr > 0
  {
    hide Ok, View;
    ViewIs(c.Abs());
    assert RefOf(c.Abs(), l) == Held(p, l);
    if l in c.lbaTree {
      TreeLba(c.lbaTree, c.lruTree, c.dirtyList, l);
      c.BufFacts(c.lbaTree[l]);
    }
  }

  /** The operations that acquire a block, and thereby may take a new LRU id. */
  predicate Takes(op: Op) { op.Get? || op.Fill? || op.Flush? }

  lemma {:induction false} TakesIs(op: Op)
    ensures Takes(op) <==> op.Get? || op.Fill? || op.Flush?
  {}

  /** One client operation on the cache gives the plain device's answer. */
  method Do(c: Cache, ptr: map<nat, Buf>, op: Op, ghost p: Plain) returns (out: Out, ptr': map<nat, Buf>, ghost now: seq<Data>)
    requires c.Valid() && (Takes(op) ==> Clear(c.Abs(), op.lba)) && Serves(c.lbaTree, c.Abs(), ptr, p)
    modifies c, c.lbaTree.Values
    ensures c.Valid() && fresh(c.lbaTree.Values - old(c.lbaTree.Values)) && Stamped(old(c.Abs()), c.Abs())
    ensures |p.disk| == |p.past| && |now| == |p.disk| && out == Step(p, op, now).1 && Serves(c.lbaTree, c.Abs(), ptr', Step(p, op, now).0)
    ensures op.Flush? || op.FlushAll? || op.WriteBack? ==> WrittenBack(p, op, c.Abs())
  {
    hide *;
    TakesIs(op);
    StampedSame(c.Abs());
    ServesSize(c.lbaTree, c.Abs(), ptr, p);
    now := p.disk;
    match op {
      case Get(l, junk) => out, ptr' := DoGet(c, ptr, l, junk, p);
      case Fill(l, junk, d) => out, ptr' := DoFill(c, ptr, l, junk, d, p);
      case Read(l) => out, ptr' := DoRead(c, ptr, l, p);
      case Write(l, d) => out, ptr' := DoWrite(c, ptr, l, d, p);
      case Put(l) => out, ptr' := DoPut(c, ptr, l, p);
      case Invalidate(from, n) => out, ptr', now := DoInvalidate(c, ptr, from, n, p);
      case _ => out, ptr' := DoFlush(c, ptr, op, p);
    }
  }

  method DoGet(c: Cache, ptr: map<nat, Buf>, l: nat, junk: Data, ghost p: Plain) returns (out: Out, ptr': map<nat, Buf>)
    requires c.Valid() && Clear(c.Abs(), l) && Serves(c.lbaTree, c.Abs(), ptr, p)
    modifies c, c.lbaTree.Values
    ensures c.Valid() && fresh(c.lbaTree.Values - old(c.lbaTree.Values)) && Stamped(old(c.Abs()), c.Abs())
    ensures |p.disk| == |p.past| && out == Step(p, Op.Get(l, junk), p.disk).1 && Serves(c.lbaTree, c.Abs(), ptr', Step(p, Op.Get(l, junk), p.disk).0)
  {
    hide TiedTo, Settled, View, Cache.Abs, RefOf, StaysValid, SameRefs, RefChanged, PointersStay, UnseenBut, Take, Serves;
    ghost var s, tree := c.Abs(), c.lbaTree;
    ServesHeld(c, ptr, p, l);
    ServesView(c.lbaTree, s, ptr, p);
    var b := BlockDevice.Get(c, l, junk);
    if b == null {
      return Nothing, ptr;
    }
    BufIn(c, b);
    ServesTake(tree, s, c.lbaTree, c.Abs(), ptr, p, b);
    return Contents(b.data), ptr[l := b];
  }

  lemma {:induction false} ServesSize(tree: map<nat, Buf>, s: State, ptr: map<nat, Buf>, p: Plain)
    requires Serves(tree, s, ptr, p)
    ensures |p.disk| == |p.past| == |s.disk|
  {}

  lemma {:induction false} ServesView(tree: map<nat, Buf>, s: State, ptr: map<nat, Buf>, p: Plain)
    requires Serves(tree, s, ptr, p)
    ensures View(s) == p.disk && forall l: nat :: RefOf(s, l) == Held(p, l)
  {}

  lemma {:induction false} BufIn(c: Cache, b: Buf)
    requires c.Valid() && c.Cached(b)
    ensures b.lba in c.Abs().bufs && c.Abs().bufs[b.lba] == b.Val() && RefOf(c.Abs(), b.lba) == b.refctr
  {
    hide Ok;
    c.ValOf(b);
  }

  method DoFill(c: Cache, ptr: map<nat, Buf>, l: nat, junk: Data, d: Data, ghost p: Plain) returns (out: Out, ptr': map<nat, Buf>)
    requires c.Valid() && Clear(c.Abs(), l) && Serves(c.lbaTree, c.Abs(), ptr, p)
    modifies c, c.lbaTree.Values
    ensures c.Valid() && fresh(c.lbaTree.Values - old(c.lbaTree.Values)) && Stamped(old(c.Abs()), c.Abs())
    ensures |p.disk| == |p.past| && out == Step(p, Fill(l, junk, d), p.disk).1 && Serves(c.lbaTree, c.Abs(), ptr', Step(p, Fill(l, junk, d), p.disk).0)
  {
    hide TiedTo, Settled, View, Cache.Abs, RefOf, StaysValid, SameRefs, PointersStay, UnseenBut, Take, Serves;
    ghost var s, tree := c.Abs(), c.lbaTree;
    ServesHeld(c, ptr, p, l);
    var b := GetNoread(c, l, junk);
    if b == null {
      return Nothing, ptr;
    }
    BufIn(c, b);
    ghost var t := c.Abs();
    AbsParts(c);
    MoreRefs(tree, s, c.lbaTree, t, l, RefOf(s, l) + 1);
    Edit(c, b, d);
    AbsParts(c);
    BufIn(c, b);
    ServesFill(tree, s, c.lbaTree, t, c.Abs(), ptr, p, b, d);
    return Contents(d), ptr[l := b];
  }

  lemma {:induction false} MoreRefs(a: map<nat, Buf>, s: State, b: map<nat, Buf>, t: State, l: nat, n: int)
    requires UnseenBut(a, s, b, t, l, n)
    ensures RefOf(t, l) == n
  {}

  method DoRead(c: Cache, ptr: map<nat, Buf>, l: nat, ghost p: Plain) returns (out: Out, ptr': map<nat, Buf>)
    requires c.Valid() && Serves(c.lbaTree, c.Abs(), ptr, p)
    ensures |p.disk| == |p.past| && out == Step(p, Read(l), p.disk).1 && ptr' == ptr && Step(p, Read(l), p.disk).0 == p
  {
    hide TiedTo, Settled, View, Cache.Abs, Serves;
    ServesHeld(c, ptr, p, l);
    if l in c.lbaTree && c.lbaTree[l].refctr > 0 {
      return Contents(ptr[l].data), ptr;
    }
    return Nothing, ptr;
  }

  method DoWrite(c: Cache, ptr: map<nat, Buf>, l: nat, d: Data, ghost p: Plain) returns (out: Out, ptr': map<nat, Buf>)
    requires c.Valid() && Serves(c.lbaTree, c.Abs(), ptr, p)
    modifies c.lbaTree.Values
    ensures c.Valid() && c.lbaTree == old(c.lbaTree) && Stamped(old(c.Abs()), c.Abs())
    ensures |p.disk| == |p.past| && out == Step(p, Write(l, d), p.disk).1 && Serves(c.lbaTree, c.Abs(), ptr', Step(p, Write(l, d), p.disk).0)
  {
    hide TiedTo, Settled, View, Cache.Abs, Serves, SameRefs, StaysValid;
    ServesHeld(c, ptr, p, l);
    if l in c.lbaTree && c.lbaTree[l].refctr > 0 {
      ghost var s := c.Abs();
      AbsParts(c);
      Edit(c, ptr[l], d);
      AbsParts(c);
      ServesEdit(c.lbaTree, s, c.Abs(), ptr, p, l, d);
      return Contents(d), ptr;
    }
    return Nothing, ptr;
  }

  method DoPut(c: Cache, ptr: map<nat, Buf>, l: nat, ghost p: Plain) returns (out: Out, ptr': map<nat, Buf>)
    requires c.Valid() && Serves(c.lbaTree, c.Abs(), ptr, p)
    modifies c, c.lbaTree.Values
    ensures c.Valid() && c.lbaTree.Values <= old(c.lbaTree.Values) && Stamped(old(c.Abs()), c.Abs())
    ensures |p.disk| == |p.past| && out == Step(p, Put(l), p.disk).1 && Serves(c.lbaTree, c.Abs(), ptr', Step(p, Put(l), p.disk).0)
  {
    hide TiedTo, Settled, View, Cache.Abs, Serves, UnseenBut;
    ServesHeld(c, ptr, p, l);
    if l != 0 && l in c.lbaTree && c.lbaTree[l].refctr > 0 {
      ghost var s, tree := c.Abs(), c.lbaTree;
      Set(c, ptr[l]);
      ServesPut(tree, s, c.lbaTree, c.Abs(), ptr, p, l);
    }
    return Nothing, ptr;
  }

  method DoFlush(c: Cache, ptr: map<nat, Buf>, op: Op, ghost p: Plain) returns (out: Out, ptr': map<nat, Buf>)
    requires c.Valid() && (Takes(op) ==> Clear(c.Abs(), op.lba)) && Serves(c.lbaTree, c.Abs(), ptr, p)
    requires op.Flush? || op.FlushAll? || op.WriteBack?
    modifies c, c.lbaTree.Values
    ensures c.Valid() && c.lbaTree.Values <= old(c.lbaTree.Values) && Stamped(old(c.Abs()), c.Abs())
    ensures |p.disk| == |p.past| && out == Step(p, op, p.disk).1 && Serves(c.lbaTree, c.Abs(), ptr', Step(p, op, p.disk).0)
    ensures WrittenBack(p, op, c.Abs())
  {
    hide TiedTo, Ok, View, Cache.Abs, Serves, Unseen;
    ghost var s, tree := c.Abs(), c.lbaTree;
    ServesSize(tree, s, ptr, p);
    UnseenSame(tree, s);
    AbsParts(c);
    match op {
      case Flush(l) => if l != 0 { FlushLba(c, l); }
      case FlushAll =>
        CacheFlush(c);
        DirtyParts(c);
      case WriteBack(on) => CacheWriteBack(c, on);
    }
    AbsParts(c);
    ServesUnseen(tree, s, c.lbaTree, c.Abs(), ptr, p);
    assert View(s) == p.disk by { ServesView(tree, s, ptr, p); }
    return Nothing, ptr;
  }

  method DoInvalidate(c: Cache, ptr: map<nat, Buf>, from: nat, n: Count, ghost p: Plain) returns (out: Out, ptr': map<nat, Buf>, ghost now: seq<Data>)
    requires c.Valid() && Serves(c.lbaTree, c.Abs(), ptr, p)
    modifies c, c.lbaTree.Values
    ensures c.Valid() && c.lbaTree == old(c.lbaTree) && Stamped(old(c.Abs()), c.Abs())
    ensures |p.disk| == |p.past| && |now| == |p.disk|
    ensures out == Step(p, Invalidate(from, n), now).1 && Serves(c.lbaTree, c.Abs(), ptr', Step(p, Invalidate(from, n), now).0)
  {
    hide TiedTo, Ok, View, Cache.Abs, Serves, SparedBut, InvalidatedView;
    ghost var s := c.Abs();
    ServesSize(c.lbaTree, s, ptr, p);
    StampedSame(s);
    AbsParts(c);
    now := p.disk;
    if l :| l in c.lbaTree && c.lbaTree[l].refctr > 0 && InRange(from, n, l) {
      ServesHeld(c, ptr, p, l);
      return Nothing, ptr, p.disk;
    }
    NoneInUse(c, ptr, p, from, n);
    InvalidateLba(c, from, n);
    AbsParts(c);
    now := InvalidatedView(s, from, n);
    ServesInvalid(c.lbaTree, s, c.Abs(), ptr, p, from, n);
    StampedSpared(s, c.Abs(), from, n);
    return Nothing, ptr, now;
  }

  lemma {:induction false} NoneInUse(c: Cache, ptr: map<nat, Buf>, p: Plain, from: nat, n: Count)
    requires c.Valid() && Serves(c.lbaTree, c.Abs(), ptr, p)
    requires forall l :: l in c.lbaTree && InRange(from, n, l) ==> c.lbaTree[l].refctr == 0
    ensures !InUse(p, from, n)
  {
    hide TiedTo, Ok, View, Cache.Abs, Serves;
    if InUse(p, from, n) {
      var l :| l in p.held && p.held[l] > 0 && InRange(from, n, l);
      ServesHeld(c, ptr, p, l);
    }
  }

  lemma {:induction false} StampedSpared(s: State, t: State, from: nat, n: Count)
    requires SparedBut(s, t, from, n)
    ensures Stamped(s, t)
  {}

  /** After an invalidation each block is what it was, or what the device has, which it held once. */
  lemma {:induction false} ServesInvalid(tree: map<nat, Buf>, s: State, t: State, ptr: map<nat, Buf>, p: Plain, from: nat, n: Count)
    requires Serves(tree, s, ptr, p) && |p.past| == |p.disk| && !InUse(p, from, n) && t.disk == s.disk
    requires View(t) == InvalidatedView(s, from, n) && SparedBut(s, t, from, n)
    ensures MayBecome(p, from, n, View(t)) && Serves(tree, t, ptr, p.(disk := View(t)))
  {
    hide SameIds;
    var q := p.(disk := View(t));
    forall l: nat
      ensures RefOf(t, l) == Held(q, l)
      ensures Held(q, l) > 0 ==> l in ptr && l in tree && tree[l] == ptr[l] && t.bufs[l].uptodate
    {
      assert RefOf(s, l) == Held(p, l) && RefOf(t, l) == RefOf(s, l);
      if Held(p, l) > 0 { assert l in p.held && !InRange(from, n, l); }
    }
  }

  /** Whether the next operation would take an LRU id that another buffer has. */
  method Collides(c: Cache, op: Op) returns (yes: bool)
    requires c.Valid()
    ensures yes <==> Takes(op) && !Clear(c.Abs(), op.lba)
  {
    hide Ok, View;
    if !Takes(op) { return false; }
    c.AllVals();
    if op.lba in c.lbaTree && c.lbaTree[op.lba].refctr > 0 { return false; }
    var next := (c.lruCtr + 1) % U32;
    yes := exists m | m in c.lbaTree :: m != op.lba && c.lbaTree[m].lruId == next;
  }

  /** Every run of client operations on a fresh cache of any size returns what a plain array of
      blocks returns, and leaves the same logical contents; cleaning up leaves them on the device. Of a block
      that was given up by an invalidation the array has what the block holds or held once: nows[k] is
      what the k-th operation makes of it.
      The run is followed to its end, or up to the first operation that would take an id in use,
      which never comes before the counter wraps; `last` is the cache's state there. */
  method Run(cnt: nat, disk: seq<Data>, ops: seq<Op>)
    returns (outs: seq<Out>, final: seq<Data>, done: nat, ghost last: State, ghost nows: seq<seq<Data>>)
    requires cnt > 0
    ensures done <= |ops| && |nows| == done && outs == Steps(Fresh(disk), ops[..done], nows).1
    ensures final == Steps(Fresh(disk), ops[..done], nows).0.disk
    ensures Settled(last) && View(last) == final
    ensures done < |ops| ==> Takes(ops[done]) && !Clear(last, ops[done].lba)
    ensures |ops| < U32 ==> done == |ops|
  {
    hide TiedTo, Ok, View, Cache.Abs, Serves, Step, Steps, Clear, Stamped, IdsBelow, Takes;
    var c := new Cache.Init(cnt, disk);
    var ptr: map<nat, Buf> := map[];
    ghost var p := Fresh(disk);
    outs := [];
    done := 0;
    nows := [];
    AbsParts(c);
    ServesStart(c, disk);
    StepsEnd(p);
    NoIds(c);
    assert ops[..0] == [];
    while done < |ops|
      invariant done <= |ops| && |nows| == done && c.Valid() && fresh(c) && fresh(c.lbaTree.Values)
      invariant done < U32 ==> IdsBelow(c.Abs()) && c.Abs().lruCtr <= done
      invariant Serves(c.lbaTree, c.Abs(), ptr, p)
      invariant Steps(Fresh(disk), ops[..done], nows) == (p, outs)
    {
      ghost var s, op := c.Abs(), ops[done];
      if done + 1 < U32 { BelowIsClear(s, if Takes(op) then LbaOf(op) else 0); }
      var stop := Collides(c, ops[done]);
      if stop { break; }
      var out;
      ghost var now;
      out, ptr, now := Do(c, ptr, ops[done], p);
      StepsSnoc(Fresh(disk), ops, nows, done, now);
      p := Step(p, ops[done], now).0;
      outs := outs + [out];
      nows := nows + [now];
      done := done + 1;
    }
    ServesView(c.lbaTree, c.Abs(), ptr, p);
    last := c.Abs();
    Cleanup(c);
    final := c.disk;
  }

  ghost function LbaOf(op: Op): nat
    requires Takes(op)
  {
    op.lba
  }

  lemma {:induction false} NoIds(c: Cache)
    requires c.lbaTree == map[] && c.lruCtr == 0
    ensures IdsBelow(c.Abs()) && c.Abs().lruCtr == 0
  {}

  lemma {:induction false} StepsSnoc(p: Plain, ops: seq<Op>, nows: seq<seq<Data>>, n: nat, now: seq<Data>)
    requires n < |ops| && |nows| == n && |p.disk| == |p.past|
    ensures var (q, os) := Steps(p, ops[..n], nows);
      Steps(p, ops[..n + 1], nows + [now]) == (Step(q, ops[n], now).0, os + [Step(q, ops[n], now).1])
  {
    hide Step;
    assert ops[..n + 1][..n] == ops[..n] && (nows + [now])[..n] == nows;
  }

  lemma {:induction false} StepsEnd(p: Plain)
    requires |p.disk| == |p.past|
    ensures Steps(p, [], []) == (p, [])
  {}

  lemma {:induction false} ServesStart(c: Cache, disk: seq<Data>)
    requires c.lbaTree == map[] && View(c.Abs()) == disk == c.disk
    ensures Serves(c.lbaTree, c.Abs(), map[], Fresh(disk))
  {
    hide View;
  }
}
