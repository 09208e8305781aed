/** What all address spaces together keep in every run: who maps what, by which region, and who shares. */
module Worlds {
  import opened PageTree
  import opened Regions
  import opened Vmm
  import opened Fork
  import opened Teardown
  import opened Families

  /** Regions of one space: those of the user in user space and with some permission, no two of them
      at one address. */
  ghost predicate RegsOk(list: seq<Span>) {
    && (forall r :: r in list ==> SpanOk(r) && (UserRegion(r) ==> r.end <= USER_PAGES * PAGESIZE && Permits(r.flags)))
    && forall r, x :: r in list && x in list && r != x ==> !r.Overlaps(x)
  }

  /** Region r maps page p as entry e. */
  predicate MapsFor(r: Span, p: nat, e: Pte) { UserRegion(r) && InPages(r, p) && e == PteOf(r.flags, e.ppn) }

  /** Every mapped page lies in a user region of its space and has that region's permissions. */
  ghost predicate Lives(m: Mem, at: Tree, list: seq<Span>) {
    forall p :: Leaf(m, at, p).v ==> exists r :: r in list && MapsFor(r, p, Leaf(m, at, p))
  }

  /** Both have this shared region at page p. */
  ghost predicate SharedAt(a: seq<Span>, b: seq<Span>, p: nat) {
    exists r :: r in a && r in b && UserRegion(r) && Has(r.flags, VM_SHARED) && InPages(r, p)
  }

  /** What two spaces both map, they map at the same address and for a shared region that both have. */
  ghost predicate Isolated(m: Mem, s: Tree, t: Tree, a: seq<Span>, b: seq<Span>) {
    forall p, q :: Leaf(m, s, p).v && Leaf(m, t, q).v && Leaf(m, s, p).ppn == Leaf(m, t, q).ppn ==> p == q && SharedAt(a, b, p)
  }

  ghost predicate AllIsolated(m: Mem, ts: seq<Tree>, regs: seq<seq<Span>>)
    requires |ts| == |regs|
  {
    forall i, j :: 0 <= i < |ts| && 0 <= j < |ts| && i != j ==> Isolated(m, ts[i], ts[j], regs[i], regs[j])
  }

  ghost predicate AllLive(m: Mem, ts: seq<Tree>, regs: seq<seq<Span>>)
    requires |ts| == |regs|
  {
    forall i :: 0 <= i < |ts| ==> RegsOk(regs[i]) && Lives(m, ts[i], regs[i])
  }

  ghost predicate NoneTwice(ts: seq<Tree>) { forall i, j :: 0 <= i < j < |ts| ==> ts[i] != ts[j] }

  ghost function Elems(ts: seq<Tree>): set<Tree> { set t | t in ts }

  /** All spaces over memory m, when they started from memory m0; space i has the tree ts[i] and the
      regions regs[i]. */
  ghost predicate World(m0: Mem, m: Mem, ts: seq<Tree>, regs: seq<seq<Span>>) {
    && |ts| == |regs| && NoneTwice(ts) && Family(m0, m, Elems(ts))
    && AllLive(m, ts, regs) && AllIsolated(m, ts, regs)
  }

  // ----- sequences of trees

  lemma {:induction false} ElemsUpdate(ts: seq<Tree>, i: nat, a: Tree)
    requires i < |ts| && NoneTwice(ts)
    ensures var rest := Elems(ts) - {ts[i]};
            Elems(ts) == rest + {ts[i]} && Elems(ts[i := a]) == rest + {a} && (a !in rest ==> NoneTwice(ts[i := a]))
  {
    var rest := Elems(ts) - {ts[i]};
    forall t | t in rest ensures t in ts[i := a] {
      var k :| 0 <= k < |ts| && ts[k] == t;
      assert ts[i := a][k] == t;
    }
    assert ts[i := a][i] == a;
    forall k | 0 <= k < |ts| && k != i ensures ts[k] in rest { assert ts[k] in ts; }
  }

  lemma {:induction false} ElemsAdd(ts: seq<Tree>, a: Tree)
    ensures Elems(ts + [a]) == Elems(ts) + {a}
    ensures NoneTwice(ts) && a !in Elems(ts) ==> NoneTwice(ts + [a])
  {
    forall k | 0 <= k < |ts| ensures ts[k] in Elems(ts) { assert ts[k] in ts; }
  }

  /** All but element i. */
  function Cut<T>(s: seq<T>, i: nat): (r: seq<T>)
    requires i < |s|
    ensures |r| == |s| - 1 && forall k :: 0 <= k < |r| ==> r[k] == s[if k < i then k else k + 1]
  {
    s[..i] + s[i + 1..]
  }

  lemma {:induction false} ElemsCut(ts: seq<Tree>, i: nat)
    requires i < |ts| && NoneTwice(ts)
    ensures Elems(Cut(ts, i)) == Elems(ts) - {ts[i]} && NoneTwice(Cut(ts, i))
  {
    forall t | t in Elems(ts) - {ts[i]} ensures t in Cut(ts, i) {
      var k :| 0 <= k < |ts| && ts[k] == t;
      assert Cut(ts, i)[if k < i then k else k - 1] == t;
    }
    forall t | t in Cut(ts, i) ensures t in Elems(ts) - {ts[i]} {
      var k :| 0 <= k < |Cut(ts, i)| && Cut(ts, i)[k] == t;
    }
  }

  // ----- one pair of spaces

  /** Leaves as before, and no region less. */
  lemma {:induction false} StillLives(m: Mem, at: Tree, list: seq<Span>, m2: Mem, at2: Tree, list2: seq<Span>)
    requires Lives(m, at, list) && (forall p :: Leaf(m2, at2, p) == Leaf(m, at, p)) && forall r :: r in list ==> r in list2
    ensures Lives(m2, at2, list2)
  {
    hide Leaf, MapsFor;
  }

  lemma {:induction false} StillIsolated(m: Mem, s: Tree, t: Tree, a: seq<Span>, b: seq<Span>, m2: Mem, s2: Tree, t2: Tree, a2: seq<Span>, b2: seq<Span>)
    requires Isolated(m, s, t, a, b)
    requires (forall p :: Leaf(m2, s2, p) == Leaf(m, s, p)) && (forall p :: Leaf(m2, t2, p) == Leaf(m, t, p))
    requires (forall r :: r in a ==> r in a2) && forall r :: r in b ==> r in b2
    ensures Isolated(m2, s2, t2, a2, b2)
  {
    hide Leaf, UserRegion, Has, InPages;
  }

  lemma {:induction false} BothWays(m: Mem, s: Tree, t: Tree, a: seq<Span>, b: seq<Span>)
    requires Isolated(m, s, t, a, b)
    ensures Isolated(m, t, s, b, a)
  {
    hide Leaf, UserRegion, Has, InPages;
    forall p, q | Leaf(m, t, p).v && Leaf(m, s, q).v && Leaf(m, t, p).ppn == Leaf(m, s, q).ppn ensures p == q && SharedAt(b, a, p) {
      assert SharedAt(a, b, q);
    }
  }

  /** A fresh page belongs to nobody else. */
  lemma {:induction false} FreshIsolated(m: Mem, s: Tree, t: Tree, a: seq<Span>, b: seq<Span>, m2: Mem, s2: Tree, x: nat)
    requires Isolated(m, s, t, a, b) && MemOk(m) && Hangs(m, t) && Leaf(m2, s2, x).ppn in m.free
    requires (forall p :: p != x ==> Leaf(m2, s2, p) == Leaf(m, s, p)) && (forall p :: Leaf(m2, t, p) == Leaf(m, t, p))
    ensures Isolated(m2, s2, t, a, b)
  {
    hide Leaf, SharedAt, Hangs;
    forall q | Leaf(m, t, q).v ensures Leaf(m, t, q).ppn !in m.free {
      LeafData(m, t, q);
    }
  }

  /** A child and another space, or the child and its parent. */
  lemma {:induction false} ChildIsolated(mp: Mem, src: Tree, spans: seq<Span>, m: Mem, at: Tree, t: Tree, a: seq<Span>, b: seq<Span>)
    requires MemOk(mp) && Forked(mp, src, spans, |spans|, m, at) && Hangs(mp, t) && LeavesApart(mp, src)
    requires (forall p :: Leaf(m, t, p) == Leaf(mp, t, p)) && (forall r :: r in spans <==> r in a)
    requires Isolated(mp, src, t, a, b) || (t == src && a == b)
    ensures Isolated(m, at, t, a, b)
  {
    hide Leaf, Forked, Hangs, UserRegion, Has, InPages, SharedAt, MemOk, Copied;
    forall p: nat, q: nat | Leaf(m, at, p).v && Leaf(m, t, q).v && Leaf(m, at, p).ppn == Leaf(m, t, q).ppn
      ensures p == q && SharedAt(a, b, p)
    {
      var k := ChildLeaf(mp, src, spans, m, at, p);
      LeafData(mp, t, q);
      TablesUsed(mp);
      CopyIs(mp, Leaf(mp, src, p), spans[k].flags, m, Leaf(m, at, p));
      assert spans[k] in a;
      if t == src && a == b {
        RegionShared(spans[k], a, p);
      }
    }
  }

  /** A private copy is fresh, a shared page the same. */
  lemma {:induction false} CopyIs(m: Mem, e: Pte, flags: nat, m2: Mem, e2: Pte)
    requires Copied(m, e, flags, m2, e2)
    ensures if Has(flags, VM_SHARED) then e2.ppn == e.ppn else e2.ppn in m.free
  {}

  lemma {:induction false} RegionShared(r: Span, a: seq<Span>, p: nat)
    requires r in a && UserRegion(r) && InPages(r, p) && Has(r.flags, VM_SHARED)
    ensures SharedAt(a, a, p)
  {}

  lemma {:induction false} ChildLives(mp: Mem, src: Tree, spans: seq<Span>, m: Mem, at: Tree, list: seq<Span>)
    requires Forked(mp, src, spans, |spans|, m, at) && forall r :: r in spans <==> r in list
    ensures Lives(m, at, list)
  {
    hide Leaf, Forked, UserRegion, Has, InPages;
    forall p: nat | Leaf(m, at, p).v ensures exists r :: r in list && MapsFor(r, p, Leaf(m, at, p)) {
      var k := ChildLeaf(mp, src, spans, m, at, p);
      assert spans[k] in list && MapsFor(spans[k], p, Leaf(m, at, p));
    }
  }

  // ----- steps of the world

  lemma {:induction false} WorldIs(m0: Mem, m: Mem, ts: seq<Tree>, regs: seq<seq<Span>>)
    requires World(m0, m, ts, regs)
    ensures |ts| == |regs| && NoneTwice(ts) && Family(m0, m, Elems(ts)) && AllLive(m, ts, regs) && AllIsolated(m, ts, regs)
    ensures MemOk(m) && forall i :: 0 <= i < |ts| ==> ts[i] in Elems(ts) && TreeFine(m, ts[i])
  {
    hide TreeFine, MemOk, Owed, RefsKept, AllLive, AllIsolated, NoneTwice;
    forall i | 0 <= i < |ts| ensures ts[i] in Elems(ts) { assert ts[i] in ts; }
  }

  lemma {:induction false} LiveAt(m: Mem, ts: seq<Tree>, regs: seq<seq<Span>>, i: nat)
    requires |ts| == |regs| && AllLive(m, ts, regs) && i < |ts|
    ensures RegsOk(regs[i]) && Lives(m, ts[i], regs[i])
  {}

  lemma {:induction false} IsolatedAt(m: Mem, ts: seq<Tree>, regs: seq<seq<Span>>, i: nat, j: nat)
    requires |ts| == |regs| && AllIsolated(m, ts, regs) && i < |ts| && j < |ts| && i != j
    ensures Isolated(m, ts[i], ts[j], regs[i], regs[j])
  {}

  lemma {:induction false} WorldStart(m0: Mem, m: Mem)
    requires MemOk(m0)
    ensures World(m0, m, [], []) <==> m == m0
  {
    FamilyEmpty(m0, m);
    assert Elems([]) == {};
  }

  /** Space i changed its tree to a2; the others are where they were. */
  ghost predicate OthersStay(m: Mem, ts: seq<Tree>, i: nat, m2: Mem) {
    forall j :: 0 <= j < |ts| && j != i ==> forall p :: Leaf(m2, ts[j], p) == Leaf(m, ts[j], p)
  }

  lemma {:induction false} GrewOthers(m0: Mem, m: Mem, ts: seq<Tree>, i: nat, m2: Mem, a2: Tree)
    requires NoneTwice(ts) && i < |ts| && Family(m0, m, Elems(ts)) && Grew(m, ts[i], m2, a2)
    ensures OthersStay(m, ts, i, m2)
  {
    hide *;
    hide Leaf, TreeFine, MemOk, Grew, Family;
    ElemsUpdate(ts, i, a2);
    var rest := Elems(ts) - {ts[i]};
    FamilyParts(m0, m, rest, ts[i]);
    GrewStays(m0, m, rest, ts[i], m2, a2);
    OthersOf(m0, m, ts, i, m2);
  }

  lemma {:induction false} OthersOf(m0: Mem, m: Mem, ts: seq<Tree>, i: nat, m2: Mem)
    requires NoneTwice(ts) && i < |ts| && Family(m0, m, Elems(ts)) && Stay(m, Elems(ts) - {ts[i]}, m2)
    ensures OthersStay(m, ts, i, m2)
  {
    hide Leaf, TreeFine, MemOk, Stay, Owed, RefsKept, Counted, TablesApart;
    forall j | 0 <= j < |ts| && j != i ensures forall p :: Leaf(m2, ts[j], p) == Leaf(m, ts[j], p) {
      assert ts[j] in ts && ts[j] in Elems(ts) - {ts[i]};
      OneStays(m, Elems(ts) - {ts[i]}, m2, ts[j]);
    }
  }

  lemma {:induction false} WorldIf(m0: Mem, m: Mem, ts: seq<Tree>, regs: seq<seq<Span>>)
    requires |ts| == |regs| && NoneTwice(ts) && Family(m0, m, Elems(ts)) && AllLive(m, ts, regs) && AllIsolated(m, ts, regs)
    ensures World(m0, m, ts, regs)
  {}

  /** Space i changed its tree to a2. */
  lemma {:induction false} WorldWith(m0: Mem, m: Mem, ts: seq<Tree>, regs: seq<seq<Span>>, i: nat, m2: Mem, a2: Tree)
    requires World(m0, m, ts, regs) && i < |ts| && OthersStay(m, ts, i, m2)
    requires a2 !in Elems(ts) - {ts[i]} && Family(m0, m2, Elems(ts) - {ts[i]} + {a2}) && Lives(m2, a2, regs[i])
    requires forall j :: 0 <= j < |ts| && j != i ==> Isolated(m2, a2, ts[j], regs[i], regs[j])
    ensures World(m0, m2, ts[i := a2], regs)
  {
    hide Leaf, Family, RegsOk, Lives, Isolated, Elems, NoneTwice, World;
    var ts2 := ts[i := a2];
    WorldIs(m0, m, ts, regs);
    ElemsUpdate(ts, i, a2);
    forall j | 0 <= j < |ts2| ensures RegsOk(regs[j]) && Lives(m2, ts2[j], regs[j]) {
      LiveAt(m, ts, regs, j);
      if j != i { StillLives(m, ts[j], regs[j], m2, ts2[j], regs[j]); }
    }
    forall j, k | 0 <= j < |ts2| && 0 <= k < |ts2| && j != k ensures Isolated(m2, ts2[j], ts2[k], regs[j], regs[k]) {
      if k == i {
        BothWays(m2, a2, ts[j], regs[i], regs[j]);
      } else if j != i {
        IsolatedAt(m, ts, regs, j, k);
        StillIsolated(m, ts[j], ts[k], regs[j], regs[k], m2, ts2[j], ts2[k], regs[j], regs[k]);
      }
    }
    WorldIf(m0, m2, ts2, regs);
  }

  /** A solved fault in space i, in its region r. */
  lemma {:induction false} WorldFault(m0: Mem, m: Mem, ts: seq<Tree>, regs: seq<seq<Span>>, i: nat, m2: Mem, a2: Tree, p: nat, r: Span)
    requires MemOk(m0) && World(m0, m, ts, regs) && i < |ts|
    requires Grew(m, ts[i], m2, a2) && MemOk(m2) && Hangs(m2, a2) && LeavesApart(m2, a2)
    requires MappedNew(m, ts[i], m2, a2, p, r.flags, Zeroes()) && p < USER_PAGES && !Leaf(m, ts[i], p).v
    requires r in regs[i] && UserRegion(r) && InPages(r, p)
    ensures World(m0, m2, ts[i := a2], regs)
  {
    hide Leaf, Hangs, MemOk, LeavesApart, AllUser, Grew, Family, Lives, Isolated, Elems, NoneTwice, World, OthersStay, AllLive, AllIsolated, Has;
    WorldIs(m0, m, ts, regs);
    ElemsUpdate(ts, i, a2);
    GrewOthers(m0, m, ts, i, m2, a2);
    FamilyFault(m0, m, Elems(ts) - {ts[i]}, ts[i], m2, a2, p, r.flags);
    LiveAt(m, ts, regs, i);
    NewLives(m, ts[i], regs[i], m2, a2, p, r);
    forall j | 0 <= j < |ts| && j != i ensures Isolated(m2, a2, ts[j], regs[i], regs[j]) {
      IsolatedAt(m, ts, regs, i, j);
      StaysAt(m, ts, i, m2, j);
      FreshIsolated(m, ts[i], ts[j], regs[i], regs[j], m2, a2, p);
    }
    WorldWith(m0, m, ts, regs, i, m2, a2);
  }

  lemma {:induction false} StaysAt(m: Mem, ts: seq<Tree>, i: nat, m2: Mem, j: nat)
    requires OthersStay(m, ts, i, m2) && j < |ts| && j != i
    ensures forall p :: Leaf(m2, ts[j], p) == Leaf(m, ts[j], p)
  {
    hide Leaf;
  }

  lemma {:induction false} NewLives(m: Mem, at: Tree, list: seq<Span>, m2: Mem, a2: Tree, p: nat, r: Span)
    requires Lives(m, at, list) && MappedNew(m, at, m2, a2, p, r.flags, Zeroes())
    requires r in list && UserRegion(r) && InPages(r, p)
    ensures Lives(m2, a2, list)
  {
    hide Leaf, UserRegion, InPages, Zeroes;
    forall s | Leaf(m2, a2, s).v ensures exists x :: x in list && MapsFor(x, s, Leaf(m2, a2, s)) {
      if s == p { assert MapsFor(r, s, Leaf(m2, a2, s)); }
    }
  }

  /** A fault that is not solved. */
  lemma {:induction false} WorldSame(m0: Mem, m: Mem, ts: seq<Tree>, regs: seq<seq<Span>>, i: nat, m2: Mem, a2: Tree)
    requires MemOk(m0) && World(m0, m, ts, regs) && i < |ts|
    requires Grew(m, ts[i], m2, a2) && MemOk(m2) && Hangs(m2, a2) && LeavesApart(m2, a2)
    requires m2.ref == m.ref && m2.data == m.data && forall p :: Leaf(m2, a2, p) == Leaf(m, ts[i], p)
    ensures World(m0, m2, ts[i := a2], regs)
  {
    hide Leaf, Hangs, MemOk, LeavesApart, AllUser, Grew, Family, Lives, Isolated, Elems, NoneTwice, World, OthersStay, AllLive, AllIsolated;
    WorldIs(m0, m, ts, regs);
    ElemsUpdate(ts, i, a2);
    GrewOthers(m0, m, ts, i, m2, a2);
    FamilySame(m0, m, Elems(ts) - {ts[i]}, ts[i], m2, a2);
    LiveAt(m, ts, regs, i);
    StillLives(m, ts[i], regs[i], m2, a2, regs[i]);
    forall j | 0 <= j < |ts| && j != i ensures Isolated(m2, a2, ts[j], regs[i], regs[j]) {
      IsolatedAt(m, ts, regs, i, j);
      StaysAt(m, ts, i, m2, j);
      StillIsolated(m, ts[i], ts[j], regs[i], regs[j], m2, a2, ts[j], regs[i], regs[j]);
    }
    WorldWith(m0, m, ts, regs, i, m2, a2);
  }

  /** A region that space i may enter. */
  ghost predicate MayEnter(list: seq<Span>, r: Span) {
    SpanOk(r) && (UserRegion(r) ==> r.end <= USER_PAGES * PAGESIZE && Permits(r.flags)) && forall x :: x in list ==> !x.Overlaps(r)
  }

  lemma {:induction false} WorldEnter(m0: Mem, m: Mem, ts: seq<Tree>, regs: seq<seq<Span>>, i: nat, r: Span)
    requires World(m0, m, ts, regs) && i < |regs| && MayEnter(regs[i], r)
    ensures World(m0, m, ts, regs[i := regs[i] + [r]])
  {
    hide Leaf, Family, Lives, Isolated, Elems, NoneTwice, World;
    var regs2 := regs[i := regs[i] + [r]];
    WorldIs(m0, m, ts, regs);
    forall j | 0 <= j < |ts| ensures RegsOk(regs2[j]) && Lives(m, ts[j], regs2[j]) {
      LiveAt(m, ts, regs, j);
      StillLives(m, ts[j], regs[j], m, ts[j], regs2[j]);
    }
    forall j, k | 0 <= j < |ts| && 0 <= k < |ts| && j != k ensures Isolated(m, ts[j], ts[k], regs2[j], regs2[k]) {
      IsolatedAt(m, ts, regs, j, k);
      StillIsolated(m, ts[j], ts[k], regs[j], regs[k], m, ts[j], ts[k], regs2[j], regs2[k]);
    }
    WorldIf(m0, m, ts, regs2);
  }

  /** One more space, whose tree is `at`, while all others are where they were. */
  lemma {:induction false} WorldMore(m0: Mem, m: Mem, ts: seq<Tree>, regs: seq<seq<Span>>, m2: Mem, at: Tree, list: seq<Span>)
    requires World(m0, m, ts, regs) && forall j :: 0 <= j < |ts| ==> forall p :: Leaf(m2, ts[j], p) == Leaf(m, ts[j], p)
    requires at !in Elems(ts) && Family(m0, m2, Elems(ts) + {at}) && RegsOk(list) && Lives(m2, at, list)
    requires forall j :: 0 <= j < |ts| ==> Isolated(m2, at, ts[j], list, regs[j])
    ensures World(m0, m2, ts + [at], regs + [list])
  {
    hide Leaf, Family, RegsOk, Lives, Isolated, Elems, NoneTwice, World;
    var ts2, regs2 := ts + [at], regs + [list];
    WorldIs(m0, m, ts, regs);
    ElemsAdd(ts, at);
    forall j | 0 <= j < |ts2| ensures RegsOk(regs2[j]) && Lives(m2, ts2[j], regs2[j]) {
      if j < |ts| {
        LiveAt(m, ts, regs, j);
        StillLives(m, ts[j], regs[j], m2, ts2[j], regs2[j]);
      }
    }
    forall j, k | 0 <= j < |ts2| && 0 <= k < |ts2| && j != k ensures Isolated(m2, ts2[j], ts2[k], regs2[j], regs2[k]) {
      if k == |ts| {
        BothWays(m2, at, ts[j], list, regs[j]);
      } else if j < |ts| {
        IsolatedAt(m, ts, regs, j, k);
        StillIsolated(m, ts[j], ts[k], regs[j], regs[k], m2, ts2[j], ts2[k], regs2[j], regs2[k]);
      }
    }
    WorldIf(m0, m2, ts2, regs2);
  }

  /** A new space with the kernel's region. */
  lemma {:induction false} WorldNew(m0: Mem, m: Mem, ts: seq<Tree>, regs: seq<seq<Span>>, c: nat, boot: seq<Pte>)
    requires MemOk(m0) && World(m0, m, ts, regs) && c in m.free && KernelEntries(boot)
    ensures World(m0, NewRoot(m, c, boot), ts + [map[ROOT := c]], regs + [[KernelRegion()]])
  {
    hide Leaf, Hangs, MemOk, LeavesApart, AllUser, Family, Elems, NoneTwice, World, AllLive, AllIsolated, SpanOk, Has, Permits, Pages;
    var m2, at: Tree := NewRoot(m, c, boot), map[ROOT := c];
    WorldIs(m0, m, ts, regs);
    FamilyNew(m0, m, Elems(ts), c, boot);
    NewRootOk(m, c, boot);
    forall j | 0 <= j < |ts| ensures forall p :: Leaf(m2, ts[j], p) == Leaf(m, ts[j], p) {
      NewRootKeeps(m, ts[j], c, boot);
    }
    WorldMore(m0, m, ts, regs, m2, at, [KernelRegion()]);
  }

  lemma {:induction false} NewRootKeeps(m: Mem, t: Tree, c: nat, boot: seq<Pte>)
    requires MemOk(m) && Hangs(m, t) && c in m.free
    ensures forall p :: Leaf(NewRoot(m, c, boot), t, p) == Leaf(m, t, p)
  {
    hide Hangs, Leaf;
    forall q | q in t ensures t[q] in m.tabs && t[q] != c { TableLen(m, t, q); }
    LeavesStay(m, NewRoot(m, c, boot), t);
  }

  /** A fork of space i. */
  lemma {:induction false} WorldFork(m0: Mem, mp: Mem, ts: seq<Tree>, regs: seq<seq<Span>>, i: nat, spans: seq<Span>, m: Mem, at: Tree)
    requires MemOk(m0) && World(m0, mp, ts, regs) && i < |ts| && Hangs(m, at)
    requires Forked(mp, ts[i], spans, |spans|, m, at) && forall r :: r in spans <==> r in regs[i]
    ensures World(m0, m, ts + [at], regs + [regs[i]])
  {
    hide Leaf, Hangs, MemOk, LeavesApart, AllUser, Family, Elems, NoneTwice, World, AllLive, AllIsolated, RegsOk, Lives, Isolated, Forked, Kept;
    WorldIs(m0, mp, ts, regs);
    FamilyFork(m0, mp, Elems(ts), ts[i], spans, m, at);
    ForkIs(mp, ts[i], spans, m, at);
    LiveAt(mp, ts, regs, i);
    ChildLives(mp, ts[i], spans, m, at, regs[i]);
    forall j | 0 <= j < |ts|
      ensures forall p :: Leaf(m, ts[j], p) == Leaf(mp, ts[j], p)
      ensures Isolated(m, at, ts[j], regs[i], regs[j])
    {
      ForkKeeps(mp, ts[j], m);
      if j != i { IsolatedAt(mp, ts, regs, i, j); }
      ChildIsolated(mp, ts[i], spans, m, at, ts[j], regs[i], regs[j]);
    }
    WorldMore(m0, mp, ts, regs, m, at, regs[i]);
  }

  lemma {:induction false} ForkKeeps(mp: Mem, t: Tree, m: Mem)
    requires MemOk(mp) && Hangs(mp, t) && Kept(mp, m)
    ensures forall p :: Leaf(m, t, p) == Leaf(mp, t, p)
  {
    hide Hangs, Leaf;
    forall q | q in t ensures t[q] in mp.tabs { TableLen(mp, t, q); }
    LeavesStay(mp, m, t);
  }

  /** The end of space i. */
  lemma {:induction false} WorldExit(m0: Mem, m: Mem, ts: seq<Tree>, regs: seq<seq<Span>>, i: nat, m2: Mem)
    requires MemOk(m0) && World(m0, m, ts, regs) && i < |ts| && Gone(m, ts[i], m2)
    ensures World(m0, m2, Cut(ts, i), Cut(regs, i))
  {
    hide Leaf, Hangs, MemOk, LeavesApart, AllUser, Family, Elems, NoneTwice, World, RegsOk, Lives, Isolated, Gone;
    WorldIs(m0, m, ts, regs);
    var ts2, regs2 := Cut(ts, i), Cut(regs, i);
    ElemsCut(ts, i);
    ElemsUpdate(ts, i, ts[i]);
    FamilyEnd(m0, m, Elems(ts) - {ts[i]}, ts[i], m2);
    GoneOthers(m0, m, ts, i, m2);
    forall j | 0 <= j < |ts2| ensures RegsOk(regs2[j]) && Lives(m2, ts2[j], regs2[j]) {
      var o := if j < i then j else j + 1;
      LiveAt(m, ts, regs, o);
      StillLives(m, ts[o], regs[o], m2, ts2[j], regs2[j]);
    }
    forall j, k | 0 <= j < |ts2| && 0 <= k < |ts2| && j != k ensures Isolated(m2, ts2[j], ts2[k], regs2[j], regs2[k]) {
      var o, q := if j < i then j else j + 1, if k < i then k else k + 1;
      IsolatedAt(m, ts, regs, o, q);
      StillIsolated(m, ts[o], ts[q], regs[o], regs[q], m2, ts2[j], ts2[k], regs2[j], regs2[k]);
    }
    WorldIf(m0, m2, ts2, regs2);
  }

  lemma {:induction false} GoneOthers(m0: Mem, m: Mem, ts: seq<Tree>, i: nat, m2: Mem)
    requires NoneTwice(ts) && i < |ts| && Family(m0, m, Elems(ts)) && Gone(m, ts[i], m2)
    ensures OthersStay(m, ts, i, m2)
  {
    hide Leaf, TreeFine, MemOk, Family, Gone, Unshared, AllPages, Pages, Stay, Owed, RefsKept, TablesApart, OthersStay;
    var rest := Elems(ts) - {ts[i]};
    ElemsUpdate(ts, i, ts[i]);
    FamilyParts(m0, m, rest, ts[i]);
    UnsharedAre(m, rest, ts[i]);
    GoneStays(m, rest, ts[i], m2);
    OthersOf(m0, m, ts, i, m2);
  }

  // ----- programs

  /** Memory after a program replaced what page g holds. */
  function Written(m: Mem, g: nat, b: Bytes): Mem { m.(data := m.data[g := b]) }

  lemma {:induction false} WrittenTree(m: Mem, t: Tree, g: nat, b: Bytes)
    requires g in m.data
    ensures Hangs(m, t) ==> Hangs(Written(m, g, b), t)
    ensures forall p :: Leaf(Written(m, g, b), t, p) == Leaf(m, t, p)
  {
    if Hangs(m, t) { OtherTreeIf(m, Written(m, g, b), t); }
  }

  lemma {:induction false} FamilyWritten(m0: Mem, m: Mem, ts: set<Tree>, g: nat, b: Bytes)
    requires MemOk(m0) && Family(m0, m, ts) && g in AllPages(m, ts)
    ensures Family(m0, Written(m, g, b), ts)
  {
    hide Leaf, TreeFine, Mappers, AllPages, Tables, TablesApart, Pages, RefsKept, Owed, Family, MemOk;
    var m2 := Written(m, g, b);
    FamilyIs(m0, m, ts);
    AllPagesIn(m, ts);
    WrittenOk(m0, m, Tables(ts), AllPages(m, ts), g, b);
    AllStay(m, ts, m2);
    FamilyIf(m0, m2, ts);
  }

  lemma {:induction false} WrittenOk(m0: Mem, m: Mem, tabs: set<nat>, pages: set<nat>, g: nat, b: Bytes)
    requires MemOk(m0) && MemOk(m) && Owed(m0, m, tabs, pages) && RefsKept(m0, m) && g in pages
    ensures var m2 := Written(m, g, b); MemOk(m2) && Owed(m0, m2, tabs, pages) && RefsKept(m0, m2)
  {
    assert Written(m, g, b).data.Keys == m.data.Keys;
    forall h | NotTaken(m0, Written(m, g, b), h) ensures m.ref[h] == m0.ref[h] {
      assert NotTaken(m0, m, h);
    }
  }

  /** A store to a page that some space maps. */
  lemma {:induction false} WorldWritten(m0: Mem, m: Mem, ts: seq<Tree>, regs: seq<seq<Span>>, g: nat, b: Bytes)
    requires MemOk(m0) && World(m0, m, ts, regs) && g in AllPages(m, Elems(ts))
    ensures World(m0, Written(m, g, b), ts, regs)
  {
    hide Leaf, Hangs, LeavesApart, AllUser, Lives, Isolated, Elems, NoneTwice, World, RegsOk, AllPages, Family, MemOk;
    var m2 := Written(m, g, b);
    WorldIs(m0, m, ts, regs);
    FamilyIs(m0, m, Elems(ts));
    AllPagesIn(m, Elems(ts));
    FamilyWritten(m0, m, Elems(ts), g, b);
    forall i | 0 <= i < |ts| ensures RegsOk(regs[i]) && Lives(m2, ts[i], regs[i]) {
      LiveAt(m, ts, regs, i);
      WrittenTree(m, ts[i], g, b);
      StillLives(m, ts[i], regs[i], m2, ts[i], regs[i]);
    }
    forall i, j | 0 <= i < |ts| && 0 <= j < |ts| && i != j ensures Isolated(m2, ts[i], ts[j], regs[i], regs[j]) {
      IsolatedAt(m, ts, regs, i, j);
      WrittenTree(m, ts[i], g, b);
      WrittenTree(m, ts[j], g, b);
      StillIsolated(m, ts[i], ts[j], regs[i], regs[j], m2, ts[i], ts[j], regs[i], regs[j]);
    }
    WorldIf(m0, m2, ts, regs);
  }

  /** An access by a program that goes through, at whatever address, meets a data page, by a user region of
      its own space that permits it: never a table, a free page or a page of the kernel. */
  lemma {:induction false} UserAccess(m0: Mem, m: Mem, ts: seq<Tree>, regs: seq<seq<Span>>, i: nat, p: nat, a: Access)
    requires World(m0, m, ts, regs) && i < |ts|
    ensures ROOT in ts[i]
    ensures var w, q := Walk(m, ts[i][ROOT], p), WalkSlot(p);
            GoesThrough(w, a) ==>
              q < USER_PAGES && w.e.ppn in AllPages(m, Elems(ts)) && w.e.ppn in m.data && w.e.ppn !in m.tabs && w.e.ppn !in m.free
              && exists r :: r in regs[i] && UserRegion(r) && InPages(r, q) && Wants(r.flags, a)
  {
    hide Leaf, Hangs, LeavesApart, AllUser, Family, Elems, NoneTwice, World, AllLive, AllIsolated, RegsOk, Walk, WalkSlot, Has, InPages, Canonical, Pages, AllPages;
    WorldIs(m0, m, ts, regs);
    TreeFineIs(m, ts[i]);
    RootIn(m, ts[i]);
    FaultStrays(m, ts[i], p);
    var q := WalkSlot(p);
    if q < USER_PAGES && GoesThrough(Walk(m, ts[i][ROOT], p), a) {
      WalkIsLeaf(m, ts[i], p);
      LeafData(m, ts[i], q);
      PagesOf(m, ts[i]);
      assert UserLeaf(m, ts[i], q);
      PageListed(m, Elems(ts), ts[i], Leaf(m, ts[i], q).ppn);
      LiveAt(m, ts, regs, i);
      var r :| r in regs[i] && MapsFor(r, q, Leaf(m, ts[i], q));
    }
  }

  /** Programs of two spaces reach the same page only at the same slot, in a shared region of both, and then
      the page has at least two references. */
  lemma {:induction false} SharedAccess(m0: Mem, m: Mem, ts: seq<Tree>, regs: seq<seq<Span>>, i: nat, j: nat, p: nat, q: nat, a: Access, b: Access)
    requires World(m0, m, ts, regs) && i < |ts| && j < |ts| && i != j
    ensures ROOT in ts[i] && ROOT in ts[j]
    ensures var w, x := Walk(m, ts[i][ROOT], p), Walk(m, ts[j][ROOT], q);
            GoesThrough(w, a) && GoesThrough(x, b) && w.e.ppn == x.e.ppn ==>
              WalkSlot(p) == WalkSlot(q) && SharedAt(regs[i], regs[j], WalkSlot(p)) && w.e.ppn in m.ref && m.ref[w.e.ppn] >= 2
  {
    hide Leaf, Hangs, LeavesApart, AllUser, Family, Elems, NoneTwice, World, AllLive, AllIsolated, RegsOk, Walk, WalkSlot, Has, InPages, Canonical, SharedAt, AllPages;
    WorldIs(m0, m, ts, regs);
    UserAccess(m0, m, ts, regs, i, p, a);
    UserAccess(m0, m, ts, regs, j, q, b);
    TreeFineIs(m, ts[i]);
    TreeFineIs(m, ts[j]);
    if GoesThrough(Walk(m, ts[i][ROOT], p), a) && GoesThrough(Walk(m, ts[j][ROOT], q), b)
       && Walk(m, ts[i][ROOT], p).e.ppn == Walk(m, ts[j][ROOT], q).e.ppn {
      WalkIsLeaf(m, ts[i], p);
      WalkIsLeaf(m, ts[j], q);
      IsolatedAt(m, ts, regs, i, j);
      TwoMappers(m0, m, ts, i, j, WalkSlot(p), WalkSlot(q));
    }
  }

  lemma {:induction false} TwoMappers(m0: Mem, m: Mem, ts: seq<Tree>, i: nat, j: nat, p: nat, q: nat)
    requires NoneTwice(ts) && Family(m0, m, Elems(ts)) && i < |ts| && j < |ts| && i != j
    requires Leaf(m, ts[i], p).v && Leaf(m, ts[j], q).v && Leaf(m, ts[i], p).ppn == Leaf(m, ts[j], q).ppn
    ensures var g := Leaf(m, ts[i], p).ppn; g in m.ref && m.ref[g] >= 2
  {
    hide Leaf, Hangs, LeavesApart, Pages, Owed, RefsKept, MemOk, TablesApart;
    var g := Leaf(m, ts[i], p).ppn;
    assert ts[i] in Elems(ts) && ts[j] in Elems(ts);
    PagesOf(m, ts[i]);
    PagesOf(m, ts[j]);
    assert UserLeaf(m, ts[i], p) && UserLeaf(m, ts[j], q);
    assert {ts[i], ts[j]} <= Mappers(m, Elems(ts), g);
    Larger({ts[i], ts[j]}, Mappers(m, Elems(ts), g));
    NoMappers(m, Elems(ts), g);
  }

  lemma {:induction false} Larger(a: set<Tree>, b: set<Tree>)
    requires a <= b
    ensures |a| <= |b|
  {
    assert b == a + (b - a);
  }
}
