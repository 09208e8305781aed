/** The page tables of any number of address spaces in one memory, and who maps what. */
module Families {
  import opened PageTree
  import opened Regions
  import opened Vmm
  import opened Fork
  import opened Teardown

  ghost predicate AllUser(m: Mem, at: Tree) { forall p :: Leaf(m, at, p).v ==> Leaf(m, at, p).u }

  /** A space's tree, well formed, with user mappings only. */
  ghost predicate TreeFine(m: Mem, at: Tree) { Hangs(m, at) && LeavesApart(m, at) && AllUser(m, at) }

  ghost predicate TablesApart(ts: set<Tree>) {
    forall a, b :: a in ts && b in ts && a != b ==> a.Values !! b.Values
  }

  /** The spaces that map page g. */
  ghost function Mappers(m: Mem, ts: set<Tree>, g: nat): set<Tree> { set t | t in ts && g in Pages(m, t) }

  ghost function Tables(ts: set<Tree>): set<nat> { set t, x | t in ts && x in t.Values :: x }

  ghost function AllPages(m: Mem, ts: set<Tree>): set<nat> { set t, g | t in ts && g in Pages(m, t) :: g }

  /** A mapped page's reference count is the number of spaces that map it. */
  ghost predicate Counted(m: Mem, ts: set<Tree>) {
    forall g :: g in AllPages(m, ts) ==> g in m.ref && m.ref[g] == |Mappers(m, ts, g)|
  }

  /** All that the allocator of m0 has less is tables `tabs` and pages `pages`. */
  ghost predicate Owed(m0: Mem, m: Mem, tabs: set<nat>, pages: set<nat>) {
    && tabs <= m0.free && pages <= m0.free
    && m.tabs.Keys == m0.tabs.Keys + tabs && m.data.Keys == m0.data.Keys + pages
    && m.free + tabs + m.data.Keys == m0.free + m0.data.Keys
    && (forall t :: t in m0.tabs ==> m.tabs[t] == m0.tabs[t])
    && (forall g :: g in m0.data ==> m.data[g] == m0.data[g])
  }

  /** Reference counts are as in m0, but for those of data pages that m0 does not have. */
  ghost predicate RefsKept(m0: Mem, m: Mem) {
    m.ref.Keys == m0.ref.Keys && forall g :: NotTaken(m0, m, g) ==> m.ref[g] == m0.ref[g]
  }

  /** The spaces' trees share no table, a page has a reference for every space that maps it, and exactly
      the tables and the mapped pages are taken from the allocator of m0. */
  ghost predicate Family(m0: Mem, m: Mem, ts: set<Tree>) {
    && MemOk(m) && (forall t :: t in ts ==> TreeFine(m, t)) && TablesApart(ts) && Counted(m, ts)
    && Owed(m0, m, Tables(ts), AllPages(m, ts)) && RefsKept(m0, m)
  }

  /** Without spaces there is nothing to give back. */
  lemma {:induction false} FamilyEmpty(m0: Mem, m: Mem)
    requires MemOk(m0)
    ensures Family(m0, m, {}) <==> m == m0
  {
    assert Tables({}) == {} && AllPages(m, {}) == {};
    if Family(m0, m, {}) {
      assert m.tabs == m0.tabs && m.data == m0.data && m.free == m0.free;
      assert m.ref == m0.ref by {
        forall g | g in m0.ref ensures m.ref[g] == m0.ref[g] { assert NotTaken(m0, m, g); }
      }
    }
  }

  // ----- one tree and the rest

  lemma {:induction false} SetsWith(m: Mem, rest: set<Tree>, a: Tree)
    ensures Tables(rest + {a}) == Tables(rest) + a.Values
    ensures AllPages(m, rest + {a}) == AllPages(m, rest) + Pages(m, a)
    ensures forall g :: Mappers(m, rest + {a}, g) == Mappers(m, rest, g) + if g in Pages(m, a) then {a} else {}
  {
    hide Pages;
  }

  lemma {:induction false} CountWith(m: Mem, rest: set<Tree>, a: Tree, g: nat)
    requires a !in rest
    ensures |Mappers(m, rest + {a}, g)| == |Mappers(m, rest, g)| + if g in Pages(m, a) then 1 else 0
  {
    hide Pages;
    SetsWith(m, rest, a);
    assert a !in Mappers(m, rest, g);
  }

  lemma {:induction false} NoMappers(m: Mem, ts: set<Tree>, g: nat)
    ensures g in AllPages(m, ts) <==> Mappers(m, ts, g) != {}
    ensures g in AllPages(m, ts) <==> |Mappers(m, ts, g)| > 0
  {
    hide Pages;
    if t :| t in Mappers(m, ts, g) {
      assert t in ts && g in Pages(m, t);
    }
    if g in AllPages(m, ts) {
      var t :| t in ts && g in Pages(m, t);
      assert t in Mappers(m, ts, g);
    }
  }

  /** Another tree over the same tables and pages. */
  lemma {:induction false} SomeTree(ts: set<Tree>, t: Tree, x: nat)
    requires t in ts && x in t.Values
    ensures x in Tables(ts)
  {}

  lemma {:induction false} ApartWith(rest: set<Tree>, a: Tree)
    requires TablesApart(rest) && Tables(rest) !! a.Values
    ensures TablesApart(rest + {a})
  {
    forall s, t | s in rest + {a} && t in rest + {a} && s != t ensures s.Values !! t.Values {
      forall x | x in s.Values && x in t.Values ensures false {
        if s == a { SomeTree(rest, t, x); } else if t == a { SomeTree(rest, s, x); }
      }
    }
  }

  lemma {:induction false} RestApart(rest: set<Tree>, a: Tree)
    requires TablesApart(rest + {a}) && a !in rest
    ensures TablesApart(rest) && Tables(rest) !! a.Values
  {}

  lemma {:induction false} PagesOf(m: Mem, at: Tree)
    requires Hangs(m, at)
    ensures forall p: nat :: UserLeaf(m, at, p) ==> Leaf(m, at, p).ppn in Pages(m, at) && Leaf(m, at, p).ppn in m.data
    ensures Pages(m, at) <= m.data.Keys
  {
    hide Leaf, Hangs;
    forall p: nat | UserLeaf(m, at, p) ensures p < USER_PAGES && Leaf(m, at, p).ppn in m.data {
      LeafData(m, at, p);
    }
  }

  lemma {:induction false} PageAt(m: Mem, at: Tree, g: nat) returns (p: nat)
    requires g in Pages(m, at)
    ensures p < USER_PAGES && UserLeaf(m, at, p) && Leaf(m, at, p).v && Leaf(m, at, p).ppn == g
  {
    hide Leaf;
    p :| p < USER_PAGES && UserLeaf(m, at, p) && Leaf(m, at, p).ppn == g;
  }

  lemma {:induction false} AllPagesIn(m: Mem, ts: set<Tree>)
    requires forall t :: t in ts ==> TreeFine(m, t)
    ensures AllPages(m, ts) <= m.data.Keys && Tables(ts) <= m.tabs.Keys
  {
    hide Leaf, Pages, Hangs, LeavesApart, AllUser;
    forall t | t in ts ensures Pages(m, t) <= m.data.Keys && t.Values <= m.tabs.Keys {
      PagesOf(m, t);
      ValuesIn(m, t);
    }
  }

  lemma {:induction false} ValuesIn(m: Mem, at: Tree)
    requires Hangs(m, at)
    ensures at.Values <= m.tabs.Keys
  {
    hide Injective, Entries;
  }

  // ----- what a step leaves alone

  /** Leaves as before: the same pages. */
  lemma {:induction false} PagesSame(m: Mem, at: Tree, m': Mem, at': Tree)
    requires forall p :: Leaf(m', at', p) == Leaf(m, at, p)
    ensures Pages(m', at') == Pages(m, at)
  {
    hide Leaf;
  }

  /** A tree whose tables and mapped pages are still there. */
  lemma {:induction false} TreeStays(m: Mem, m2: Mem, b: Tree)
    requires Hangs(m, b)
    requires forall q :: q in b ==> b[q] in m.tabs && b[q] in m2.tabs && m2.tabs[b[q]] == m.tabs[b[q]]
    requires forall p :: Leaf(m, b, p).v ==> Leaf(m, b, p).ppn in m2.data
    ensures Hangs(m2, b) && forall p :: Leaf(m2, b, p) == Leaf(m, b, p)
  {
    hide Leaf, Injective;
    forall q, i: nat | q in b && i < 512 ensures EntryOk(m2, b, q, i) {
      assert EntryOk(m, b, q, i) && Entry(m2, b, q, i) == Entry(m, b, q, i);
      if q.level == 0 { LeafOf(m, b, q, i); }
    }
    LeavesStay(m, m2, b);
  }

  lemma {:induction false} LeafOf(m: Mem, b: Tree, q: Place, i: nat)
    requires q.level == 0 && i < 512
    ensures Leaf(m, b, q.n * 512 + i) == Entry(m, b, q, i)
  {
    assert (q.n * 512 + i) / 512 == q.n && (q.n * 512 + i) % 512 == i;
  }

  lemma {:induction false} LeavesStay(m: Mem, m2: Mem, b: Tree)
    requires forall q :: q in b ==> b[q] in m.tabs && b[q] in m2.tabs && m2.tabs[b[q]] == m.tabs[b[q]]
    ensures forall p :: Leaf(m2, b, p) == Leaf(m, b, p)
  {}

  /** Tables `ts` and the pages they map are the same in both memories. */
  ghost predicate Stay(m: Mem, ts: set<Tree>, m2: Mem) {
    && (forall x :: x in Tables(ts) ==> x in m.tabs && x in m2.tabs && m2.tabs[x] == m.tabs[x])
    && (forall g :: g in AllPages(m, ts) ==> g in m2.data)
  }

  lemma {:induction false} OneStays(m: Mem, ts: set<Tree>, m2: Mem, t: Tree)
    requires Stay(m, ts, m2) && t in ts && TreeFine(m, t)
    ensures TreeFine(m2, t) && Pages(m2, t) == Pages(m, t) && forall p :: Leaf(m2, t, p) == Leaf(m, t, p)
  {
    hide Leaf, Hangs, Pages, LeavesApart;
    forall q | q in t ensures t[q] in m.tabs && t[q] in m2.tabs && m2.tabs[t[q]] == m.tabs[t[q]] {
      assert t[q] in t.Values;
      SomeTree(ts, t, t[q]);
    }
    PagesOf(m, t);
    forall p: nat | Leaf(m, t, p).v ensures Leaf(m, t, p).ppn in m2.data {
      assert UserLeaf(m, t, p) && Leaf(m, t, p).ppn in AllPages(m, ts);
    }
    TreeStays(m, m2, t);
    SameApart(m, t, m2, t);
    PagesSame(m, t, m2, t);
  }

  lemma {:induction false} AllStay(m: Mem, ts: set<Tree>, m2: Mem)
    requires Stay(m, ts, m2) && forall t :: t in ts ==> TreeFine(m, t)
    ensures forall t :: t in ts ==> TreeFine(m2, t) && Pages(m2, t) == Pages(m, t)
    ensures AllPages(m2, ts) == AllPages(m, ts) && forall g :: Mappers(m2, ts, g) == Mappers(m, ts, g)
  {
    hide TreeFine, Pages, Stay;
    forall t | t in ts ensures TreeFine(m2, t) && Pages(m2, t) == Pages(m, t) {
      OneStays(m, ts, m2, t);
    }
  }

  /** Page g's count, seen from tree a and the rest. */
  ghost predicate RefIs(m: Mem, rest: set<Tree>, a: Tree, g: nat) {
    var n := |Mappers(m, rest, g)| + if g in Pages(m, a) then 1 else 0;
    n > 0 ==> g in m.ref && m.ref[g] == n
  }

  /** A family, seen from tree a and the rest. */
  ghost predicate Parts(m0: Mem, m: Mem, rest: set<Tree>, a: Tree) {
    && MemOk(m) && TreeFine(m, a) && (forall t :: t in rest ==> TreeFine(m, t))
    && TablesApart(rest) && Tables(rest) !! a.Values && (forall g :: RefIs(m, rest, a, g))
    && Owed(m0, m, Tables(rest) + a.Values, AllPages(m, rest) + Pages(m, a)) && RefsKept(m0, m)
  }

  lemma {:induction false} FamilyParts(m0: Mem, m: Mem, rest: set<Tree>, a: Tree)
    requires a !in rest
    ensures Family(m0, m, rest + {a}) <==> Parts(m0, m, rest, a)
  {
    hide TreeFine, Pages, MemOk, Owed, RefsKept, Mappers, AllPages, Tables, TablesApart;
    SetsWith(m, rest, a);
    if TablesApart(rest + {a}) { RestApart(rest, a); }
    if TablesApart(rest) && Tables(rest) !! a.Values { ApartWith(rest, a); }
    forall g: nat ensures RefIs(m, rest, a, g) <==> (g in AllPages(m, rest + {a}) ==> g in m.ref && m.ref[g] == |Mappers(m, rest + {a}, g)|) {
      CountWith(m, rest, a, g);
      NoMappers(m, rest + {a}, g);
    }
  }

  // ----- page faults

  lemma {:induction false} SameSum(f2: set<nat>, t2: set<nat>, d2: set<nat>, f: set<nat>, t: set<nat>, d: set<nat>, tb: set<nat>, all: set<nat>)
    requires f2 + t2 + d2 == f + t + d && f + (tb + t) + d == all
    ensures f2 + (tb + t2) + d2 == all
  {
    assert f2 + (tb + t2) + d2 == (f2 + t2 + d2) + tb;
    assert f + (tb + t) + d == (f + t + d) + tb;
  }

  lemma {:induction false} GrewTables(m: Mem, a: Tree, m2: Mem, a2: Tree)
    requires Grew(m, a, m2, a2)
    ensures a.Values <= a2.Values <= m.free + a.Values
    ensures m2.tabs.Keys == m.tabs.Keys + a2.Values && m2.free + a2.Values + m2.data.Keys == m.free + a.Values + m.data.Keys
    ensures forall t :: t in m.tabs && t !in a.Values ==> t in m2.tabs && m2.tabs[t] == m.tabs[t]
    ensures forall g :: g in m.data ==> g in m2.data && m2.data[g] == m.data[g]
  {
    forall t | t in a2.Values ensures t in m.free + a.Values {
      var q :| q in a2 && a2[q] == t;
      if q in a { assert a[q] in a.Values; }
    }
    forall t | t in a.Values ensures t in a2.Values {
      var q :| q in a && a[q] == t;
      assert a2[q] == t;
    }
  }

  /** New tables come from the free pages, the tables of m0 stay. */
  lemma {:induction false} OwedTables(m0: Mem, m: Mem, ta: set<nat>, tb: set<nat>, pages: set<nat>, m2: Mem, ta2: set<nat>)
    requires MemOk(m0) && Owed(m0, m, tb + ta, pages) && m.free <= m0.free && ta <= ta2 <= m.free + ta
    requires m2.tabs.Keys == m.tabs.Keys + ta2 && forall t :: t in m.tabs && t !in ta ==> t in m2.tabs && m2.tabs[t] == m.tabs[t]
    ensures tb + ta2 <= m0.free && m2.tabs.Keys == m0.tabs.Keys + (tb + ta2)
    ensures forall t :: t in m0.tabs ==> t in m2.tabs && m2.tabs[t] == m0.tabs[t]
  {}

  lemma {:induction false} FreeOf(m0: Mem, m: Mem, tabs: set<nat>, pages: set<nat>)
    requires MemOk(m) && Owed(m0, m, tabs, pages)
    ensures m.free <= m0.free && m0.tabs.Keys !! m.free && m0.data.Keys <= m.data.Keys
  {}

  lemma {:induction false} OwedGrew(m0: Mem, m: Mem, a: Tree, tb: set<nat>, pages: set<nat>, m2: Mem, a2: Tree, more: set<nat>)
    requires MemOk(m0) && MemOk(m) && Owed(m0, m, tb + a.Values, pages) && Grew(m, a, m2, a2) && tb !! a.Values
    requires m2.data.Keys == m.data.Keys + more && more <= m.free
    ensures Owed(m0, m2, tb + a2.Values, pages + more)
  {
    hide MemOk, Grew;
    FreeOf(m0, m, tb + a.Values, pages);
    GrewTables(m, a, m2, a2);
    OwedTables(m0, m, a.Values, tb, pages, m2, a2.Values);
    SameSum(m2.free, a2.Values, m2.data.Keys, m.free, a.Values, m.data.Keys, tb, m0.free + m0.data.Keys);
  }

  /** The other trees of a family in which one grew. */
  lemma {:induction false} GrewStays(m0: Mem, m: Mem, rest: set<Tree>, a: Tree, m2: Mem, a2: Tree)
    requires Parts(m0, m, rest, a) && Grew(m, a, m2, a2)
    ensures Stay(m, rest, m2) && Tables(rest) !! a2.Values && a2 !in rest
  {
    hide Leaf, Pages, Owed, Mappers, RefIs, RefsKept, LeavesApart, AllUser, AllPages, Grew;
    GrewTables(m, a, m2, a2);
    AllPagesIn(m, rest);
    TablesUsed(m);
    RootIn(m, a);
    RootStays(m, a, m2, a2);
    assert a[ROOT] in a.Values;
    forall t | t in rest ensures t != a2 { RootListed(m, rest, t); }
  }

  lemma {:induction false} RootListed(m: Mem, ts: set<Tree>, t: Tree)
    requires t in ts && TreeFine(m, t)
    ensures ROOT in t && t[ROOT] in Tables(ts)
  {
    hide LeavesApart, AllUser, Entries, Injective;
    assert t[ROOT] in t.Values;
    SomeTree(ts, t, t[ROOT]);
  }

  lemma {:induction false} TablesUsed(m: Mem)
    requires MemOk(m)
    ensures m.tabs.Keys !! m.free && m.data.Keys !! m.free
  {}

  /** Only a page that becomes a data page changes its count. */
  lemma {:induction false} RefsNext(m0: Mem, m: Mem, m2: Mem, c: nat)
    requires RefsKept(m0, m) && m0.data.Keys <= m.data.Keys && MemOk(m) && c in m.free && m2.data.Keys == m.data.Keys + {c}
    requires m2.ref.Keys == m.ref.Keys && forall g :: g in m.ref && g != c ==> m2.ref[g] == m.ref[g]
    ensures RefsKept(m0, m2)
  {
    forall g | NotTaken(m0, m2, g) ensures m2.ref[g] == m0.ref[g] {
      assert NotTaken(m0, m, g);
    }
  }

  /** One more mapping: one more page. */
  lemma {:induction false} PagesNext(m: Mem, at: Tree, m': Mem, at': Tree, p: nat)
    requires p < USER_PAGES && !Leaf(m, at, p).v && Leaf(m', at', p).v && Leaf(m', at', p).u
    requires forall s: nat :: s != p ==> Leaf(m', at', s) == Leaf(m, at, s)
    ensures Pages(m', at') == Pages(m, at) + {Leaf(m', at', p).ppn}
  {
    hide Leaf;
    forall g | g in Pages(m, at) ensures g in Pages(m', at') {
      var s: nat :| s < USER_PAGES && UserLeaf(m, at, s) && Leaf(m, at, s).ppn == g;
      assert s != p && UserLeaf(m', at', s);
    }
    forall g | g in Pages(m', at') ensures g in Pages(m, at) + {Leaf(m', at', p).ppn} {
      var s: nat :| s < USER_PAGES && UserLeaf(m', at', s) && Leaf(m', at', s).ppn == g;
      assert s != p ==> UserLeaf(m, at, s);
    }
    assert UserLeaf(m', at', p);
  }

  /** A solved fault: one more page of its own. */
  lemma {:induction false} FamilyFault(m0: Mem, m: Mem, rest: set<Tree>, a: Tree, m2: Mem, a2: Tree, p: nat, flags: nat)
    requires MemOk(m0) && a !in rest && Family(m0, m, rest + {a})
    requires Grew(m, a, m2, a2) && MemOk(m2) && Hangs(m2, a2) && LeavesApart(m2, a2)
    requires MappedNew(m, a, m2, a2, p, flags, Zeroes()) && p < USER_PAGES && !Leaf(m, a, p).v && !Has(flags, VM_KERNEL)
    ensures a2 !in rest && Family(m0, m2, rest + {a2})
  {
    hide Leaf, Hangs, MemOk, LeavesApart, Pages, Owed, Grew, Has, Zeroes, RefsKept, Mappers, AllPages, Tables, TablesApart, Stay, Family;
    var c := Leaf(m2, a2, p).ppn;
    FamilyParts(m0, m, rest, a);
    GrewStays(m0, m, rest, a, m2, a2);
    FamilyParts(m0, m2, rest, a2);
    AllStay(m, rest, m2);
    PagesNext(m, a, m2, a2, p);
    AllPagesIn(m, rest);
    PagesOf(m, a);
    TablesUsed(m);
    forall g: nat ensures RefIs(m2, rest, a2, g) {
      assert RefIs(m, rest, a, g);
      NoMappers(m, rest, g);
    }
    OwedGrew(m0, m, a, Tables(rest), AllPages(m, rest) + Pages(m, a), m2, a2, {c});
    assert AllPages(m, rest) + Pages(m, a) + {c} == AllPages(m2, rest) + Pages(m2, a2);
    FreeOf(m0, m, Tables(rest) + a.Values, AllPages(m, rest) + Pages(m, a));
    RefsNext(m0, m, m2, c);
  }

  /** A fault that is not solved: at most tables were made. */
  lemma {:induction false} FamilySame(m0: Mem, m: Mem, rest: set<Tree>, a: Tree, m2: Mem, a2: Tree)
    requires MemOk(m0) && a !in rest && Family(m0, m, rest + {a})
    requires Grew(m, a, m2, a2) && MemOk(m2) && Hangs(m2, a2) && LeavesApart(m2, a2)
    requires m2.ref == m.ref && m2.data == m.data && forall p :: Leaf(m2, a2, p) == Leaf(m, a, p)
    ensures a2 !in rest && Family(m0, m2, rest + {a2})
  {
    hide Leaf, Hangs, MemOk, LeavesApart, Pages, Owed, Grew, Mappers, AllPages, Tables, TablesApart, Stay, Family;
    FamilyParts(m0, m, rest, a);
    GrewStays(m0, m, rest, a, m2, a2);
    FamilyParts(m0, m2, rest, a2);
    AllStay(m, rest, m2);
    PagesSame(m, a, m2, a2);
    forall g: nat ensures RefIs(m2, rest, a2, g) {
      assert RefIs(m, rest, a, g);
    }
    OwedGrew(m0, m, a, Tables(rest), AllPages(m, rest) + Pages(m, a), m2, a2, {});
    assert AllPages(m, rest) + Pages(m, a) + {} == AllPages(m2, rest) + Pages(m2, a2);
  }

  // ----- a new space

  lemma {:induction false} FamilyNew(m0: Mem, m: Mem, ts: set<Tree>, c: nat, boot: seq<Pte>)
    requires MemOk(m0) && Family(m0, m, ts) && c in m.free && KernelEntries(boot)
    ensures var at := map[ROOT := c]; at !in ts && Family(m0, NewRoot(m, c, boot), ts + {at})
  {
    hide *;
    var m2, at: Tree := NewRoot(m, c, boot), map[ROOT := c];
    FamilyIs(m0, m, ts);
    NewRootOk(m, c, boot);
    NoLeafApart(m2, at);
    AllPagesIn(m, ts);
    NewRootStays(m, ts, c, boot);
    AllStay(m, ts, m2);
    TreeFineIf(m2, at);
    NewRefs(m, ts, m2, at);
    NewOwed(m0, m, Tables(ts), AllPages(m, ts), c, boot);
    assert AllPages(m, ts) + {} == AllPages(m2, ts) + Pages(m2, at);
    PartsIf(m0, m2, ts, at);
    FamilyParts(m0, m2, ts, at);
  }

  lemma {:induction false} NewRootStays(m: Mem, ts: set<Tree>, c: nat, boot: seq<Pte>)
    requires MemOk(m) && (forall t :: t in ts ==> TreeFine(m, t)) && c in m.free
    requires AllPages(m, ts) <= m.data.Keys && Tables(ts) <= m.tabs.Keys
    ensures var at := map[ROOT := c]; at !in ts && at.Values == {c} && Tables(ts) !! at.Values && Stay(m, ts, NewRoot(m, c, boot))
    ensures NewRoot(m, c, boot).ref == m.ref
  {
    hide TreeFine, Tables, AllPages;
    var at: Tree := map[ROOT := c];
    assert at[ROOT] == c && at.Values == {c};
    forall t | t in ts ensures t != at { RootListed(m, ts, t); }
  }

  lemma {:induction false} TreeFineIf(m: Mem, at: Tree)
    requires Hangs(m, at) && LeavesApart(m, at) && AllUser(m, at)
    ensures TreeFine(m, at)
  {}

  lemma {:induction false} NewRefs(m: Mem, ts: set<Tree>, m2: Mem, at: Tree)
    requires Counted(m, ts) && m2.ref == m.ref && Pages(m2, at) == {} && forall g :: Mappers(m2, ts, g) == Mappers(m, ts, g)
    ensures forall g :: RefIs(m2, ts, at, g)
  {
    hide Pages, Mappers, AllPages;
    forall g: nat ensures RefIs(m2, ts, at, g) {
      NoMappers(m, ts, g);
    }
  }

  lemma {:induction false} NewOwed(m0: Mem, m: Mem, tabs: set<nat>, pages: set<nat>, c: nat, boot: seq<Pte>)
    requires MemOk(m0) && MemOk(m) && Owed(m0, m, tabs, pages) && RefsKept(m0, m) && c in m.free
    ensures Owed(m0, NewRoot(m, c, boot), tabs + {c}, pages + {}) && RefsKept(m0, NewRoot(m, c, boot))
  {}

  lemma {:induction false} PartsIf(m0: Mem, m: Mem, rest: set<Tree>, a: Tree)
    requires MemOk(m) && TreeFine(m, a) && (forall t :: t in rest ==> TreeFine(m, t))
    requires TablesApart(rest) && Tables(rest) !! a.Values && (forall g :: RefIs(m, rest, a, g))
    requires Owed(m0, m, Tables(rest) + a.Values, AllPages(m, rest) + Pages(m, a)) && RefsKept(m0, m)
    ensures Parts(m0, m, rest, a)
  {}

  lemma {:induction false} NoLeafApart(m: Mem, at: Tree)
    requires forall p :: !Leaf(m, at, p).v
    ensures LeavesApart(m, at) && AllUser(m, at) && Pages(m, at) == {}
  {
    hide Leaf;
  }

  lemma {:induction false} FamilyIs(m0: Mem, m: Mem, ts: set<Tree>)
    requires Family(m0, m, ts)
    ensures MemOk(m) && (forall t :: t in ts ==> TreeFine(m, t)) && TablesApart(ts) && Counted(m, ts)
    ensures Owed(m0, m, Tables(ts), AllPages(m, ts)) && RefsKept(m0, m)
  {}

  // ----- the fork of a space

  /** What the child maps, it maps for a region of the parent. */
  lemma {:induction false} ChildLeaf(mp: Mem, src: Tree, spans: seq<Span>, m: Mem, at: Tree, p: nat) returns (k: nat)
    requires Forked(mp, src, spans, |spans|, m, at) && Leaf(m, at, p).v
    ensures k < |spans| && CopiedFor(mp, src, spans[k], p) && Leaf(mp, src, p).v
    ensures Copied(mp, Leaf(mp, src, p), spans[k].flags, m, Leaf(m, at, p)) && Leaf(m, at, p).u
  {
    hide Leaf, Both, Kept, SharedIn, Paid, Maps;
    k :| k < |spans| && CopiedFor(mp, src, spans[k], p);
  }

  lemma {:induction false} ForkIs(mp: Mem, src: Tree, spans: seq<Span>, m: Mem, at: Tree)
    requires Forked(mp, src, spans, |spans|, m, at) && Hangs(m, at)
    ensures MemOk(m) && LeavesApart(m, at) && AllUser(m, at) && ROOT in at
    ensures Kept(mp, m) && Paid(mp, m, at) && at.Values <= mp.free && m.ref.Keys == mp.ref.Keys
    ensures m.data.Keys == mp.data.Keys + Pages(m, at)
  {
    hide Leaf, Hangs, Paid, Copied, SharedFor, CopiedFor, Pages, MemOk;
    PagesOf(m, at);
    forall p: nat | Leaf(m, at, p).v ensures Leaf(m, at, p).u {
      var k := ChildLeaf(mp, src, spans, m, at, p);
    }
    forall g | g in m.data && g !in mp.data ensures g in Pages(m, at) {
      assert Maps(m, at, g);
      var p: nat :| Leaf(m, at, p).v && Leaf(m, at, p).ppn == g;
      assert UserLeaf(m, at, p);
    }
  }

  /** The trees from before the fork. */
  lemma {:induction false} ForkStays(mp: Mem, ts: set<Tree>, m: Mem, at: Tree)
    requires MemOk(mp) && (forall t :: t in ts ==> TreeFine(mp, t)) && Kept(mp, m) && at.Values <= mp.free && ROOT in at
    ensures Stay(mp, ts, m) && Tables(ts) !! at.Values && at !in ts
  {
    hide TreeFine, Tables, AllPages;
    AllPagesIn(mp, ts);
    assert at[ROOT] in at.Values;
    forall t | t in ts ensures t != at { RootListed(mp, ts, t); }
  }

  /** A page of the child: shared, with one reference more, or fresh, with one. */
  lemma {:induction false} ChildPage(mp: Mem, src: Tree, spans: seq<Span>, m: Mem, at: Tree, g: nat)
    requires MemOk(mp) && TreeFine(mp, src) && Forked(mp, src, spans, |spans|, m, at) && g in Pages(m, at)
    ensures g in m.ref
    ensures if g in mp.data then g in Pages(mp, src) && g in mp.ref && m.ref[g] == mp.ref[g] + 1 else g in mp.free && m.ref[g] == 1
  {
    hide Leaf, Hangs, MemOk, LeavesApart, Both, Kept, SharedIn, Paid, Maps, Has, Forked, CopiedFor, Pages;
    var p := PageAt(m, at, g);
    var k := ChildLeaf(mp, src, spans, m, at, p);
    PagesOf(mp, src);
    assert UserLeaf(mp, src, p);
    TablesUsed(mp);
  }

  /** A page shared for a region is mapped by the child. */
  lemma {:induction false} SharedMaps(mp: Mem, src: Tree, spans: seq<Span>, m: Mem, at: Tree, k: nat, g: nat)
    requires Forked(mp, src, spans, |spans|, m, at) && k < |spans| && SharedFor(mp, src, spans[k], g) && Hangs(m, at)
    ensures g in Pages(m, at)
  {
    hide Leaf, Hangs, Both, Kept, Paid, Maps, InPages, Pages;
    var p: nat :| Scope(mp, src, spans[k], 0, ALL, p) && Leaf(mp, src, p).ppn == g;
    assert CopiedFor(mp, src, spans[k], p);
    assert Copied(mp, Leaf(mp, src, p), spans[k].flags, m, Leaf(m, at, p));
    PagesOf(m, at);
    assert UserLeaf(m, at, p);
  }

  /** A page that the child does not map and that was not taken keeps its references. */
  lemma {:induction false} OtherPage(mp: Mem, src: Tree, spans: seq<Span>, m: Mem, at: Tree, g: nat)
    requires Forked(mp, src, spans, |spans|, m, at) && Hangs(m, at) && NotTaken(mp, m, g) && g !in Pages(m, at)
    ensures m.ref[g] == mp.ref[g]
  {
    hide Leaf, Hangs, Both, Kept, Paid, Maps, Has, Pages, SharedFor, Copied, CopiedFor;
    forall k: nat | k < |spans| ensures !SharedFor(mp, src, spans[k], g) {
      if SharedFor(mp, src, spans[k], g) { SharedMaps(mp, src, spans, m, at, k, g); }
    }
  }

  /** Every page's count after the fork. */
  lemma {:induction false} ForkRefs(mp: Mem, ts: set<Tree>, src: Tree, spans: seq<Span>, m: Mem, at: Tree)
    requires MemOk(mp) && (forall t :: t in ts ==> TreeFine(mp, t)) && Counted(mp, ts) && src in ts
    requires Forked(mp, src, spans, |spans|, m, at) && Hangs(m, at) && m.ref.Keys == mp.ref.Keys
    requires forall g :: Mappers(m, ts, g) == Mappers(mp, ts, g)
    ensures forall g :: RefIs(m, ts, at, g)
  {
    hide Leaf, Hangs, MemOk, LeavesApart, Forked, Pages, Mappers, AllPages, AllUser;
    AllPagesIn(mp, ts);
    TablesUsed(mp);
    forall g: nat ensures RefIs(m, ts, at, g) {
      NoMappers(mp, ts, g);
      if g in Pages(m, at) {
        ChildPage(mp, src, spans, m, at, g);
        if g in mp.data { PageListed(mp, ts, src, g); }
      } else if g in AllPages(mp, ts) {
        OtherPage(mp, src, spans, m, at, g);
      }
    }
  }

  lemma {:induction false} PageListed(m: Mem, ts: set<Tree>, t: Tree, g: nat)
    requires t in ts && g in Pages(m, t)
    ensures g in AllPages(m, ts)
  {
    hide Pages;
  }

  lemma {:induction false} OwedMore(m0: Mem, mp: Mem, tp: set<nat>, pp: set<nat>, m: Mem, at: Tree, pc: set<nat>)
    requires MemOk(m0) && MemOk(mp) && Owed(m0, mp, tp, pp) && Paid(mp, m, at) && Kept(mp, m) && at.Values <= mp.free
    requires pc <= m0.free && mp.data.Keys + pc == m.data.Keys && mp.free <= m0.free
    ensures Owed(m0, m, tp + at.Values, pp + pc)
  {}

  /** Pages that neither the fork nor a space from before took keep their counts. */
  lemma {:induction false} RefsForked(m0: Mem, mp: Mem, tabs: set<nat>, pages: set<nat>, src: Tree, spans: seq<Span>, m: Mem, at: Tree)
    requires MemOk(m0) && Owed(m0, mp, tabs, pages) && RefsKept(m0, mp) && m.ref.Keys == mp.ref.Keys
    requires Forked(mp, src, spans, |spans|, m, at) && Hangs(m, at) && Pages(m, at) <= m0.free && Kept(mp, m)
    requires m.data.Keys == mp.data.Keys + Pages(m, at)
    ensures RefsKept(m0, m)
  {
    hide Forked, Hangs, Pages;
    forall g | NotTaken(m0, m, g) ensures m.ref[g] == m0.ref[g] {
      assert NotTaken(m0, mp, g) && NotTaken(mp, m, g) && g !in Pages(m, at);
      OtherPage(mp, src, spans, m, at, g);
    }
  }

  lemma {:induction false} ChildFree(m0: Mem, mp: Mem, ts: set<Tree>, src: Tree, spans: seq<Span>, m: Mem, at: Tree)
    requires MemOk(mp) && src in ts && TreeFine(mp, src) && Owed(m0, mp, Tables(ts), AllPages(mp, ts))
    requires Forked(mp, src, spans, |spans|, m, at)
    ensures Pages(m, at) <= m0.free && mp.free <= m0.free
  {
    hide Forked, Pages, AllPages, Tables, TreeFine, Owed, MemOk;
    FreeOf(m0, mp, Tables(ts), AllPages(mp, ts));
    OwedIs(m0, mp, Tables(ts), AllPages(mp, ts));
    forall g | g in Pages(m, at) ensures g in m0.free {
      ChildPage(mp, src, spans, m, at, g);
      if g in mp.data { PageListed(mp, ts, src, g); }
    }
  }

  lemma {:induction false} OwedIs(m0: Mem, m: Mem, tabs: set<nat>, pages: set<nat>)
    requires Owed(m0, m, tabs, pages)
    ensures tabs <= m0.free && pages <= m0.free
  {}

  /** A fork adds its child to the family. */
  lemma {:induction false} FamilyFork(m0: Mem, mp: Mem, ts: set<Tree>, src: Tree, spans: seq<Span>, m: Mem, at: Tree)
    requires MemOk(m0) && Family(m0, mp, ts) && src in ts && Hangs(m, at) && Forked(mp, src, spans, |spans|, m, at)
    ensures at !in ts && Family(m0, m, ts + {at})
  {
    hide *;
    FamilyIs(m0, mp, ts);
    ForkIs(mp, src, spans, m, at);
    ForkStays(mp, ts, m, at);
    AllStay(mp, ts, m);
    TreeFineIf(m, at);
    ForkRefs(mp, ts, src, spans, m, at);
    ChildFree(m0, mp, ts, src, spans, m, at);
    OwedMore(m0, mp, Tables(ts), AllPages(mp, ts), m, at, Pages(m, at));
    RefsForked(m0, mp, Tables(ts), AllPages(mp, ts), src, spans, m, at);
    PartsIf(m0, m, ts, at);
    FamilyParts(m0, m, ts, at);
  }

  // ----- the end of a space

  /** Memory after the space of tree a was destroyed. */
  ghost predicate Gone(m: Mem, a: Tree, m2: Mem) {
    && m2.tabs == m.tabs - a.Values && m2.ref.Keys == m.ref.Keys
    && (forall g :: g in m.ref ==> m2.ref[g] + (if g in Pages(m, a) then 1 else 0) == m.ref[g])
    && m2.data == m.data - Unshared(m, a) && m2.free == m.free + a.Values + Unshared(m, a)
  }

  /** The pages that only this space maps. */
  lemma {:induction false} UnsharedAre(m: Mem, rest: set<Tree>, a: Tree)
    requires TreeFine(m, a) && forall g :: RefIs(m, rest, a, g)
    ensures Unshared(m, a) == Pages(m, a) - AllPages(m, rest) && RefsCount(m, a)
    ensures forall g :: g in Pages(m, a) ==> g in m.ref && m.ref[g] > 0
  {
    hide Pages, Leaf, Hangs, LeavesApart, Mappers, AllPages;
    forall g | g in Pages(m, a)
      ensures g in m.ref && m.ref[g] > 0 && (m.ref[g] == 1 <==> g !in AllPages(m, rest))
    {
      assert RefIs(m, rest, a, g);
      NoMappers(m, rest, g);
    }
    PagesOf(m, a);
  }

  lemma {:induction false} GoneStays(m: Mem, rest: set<Tree>, a: Tree, m2: Mem)
    requires (forall t :: t in rest ==> TreeFine(m, t)) && Tables(rest) !! a.Values && Gone(m, a, m2)
    requires Unshared(m, a) == Pages(m, a) - AllPages(m, rest)
    ensures Stay(m, rest, m2)
  {
    hide TreeFine, Tables, AllPages, Pages, Unshared;
    AllPagesIn(m, rest);
  }

  lemma {:induction false} GoneRefs(m: Mem, rest: set<Tree>, a: Tree, m2: Mem)
    requires Gone(m, a, m2) && (forall g :: RefIs(m, rest, a, g)) && forall g :: Mappers(m2, rest, g) == Mappers(m, rest, g)
    ensures Counted(m2, rest)
  {
    hide Pages, Unshared, Mappers, AllPages;
    forall g | g in AllPages(m2, rest) ensures g in m2.ref && m2.ref[g] == |Mappers(m2, rest, g)| {
      NoMappers(m2, rest, g);
      assert RefIs(m, rest, a, g);
    }
  }

  lemma {:induction false} GoneOk(m: Mem, a: Tree, m2: Mem)
    requires MemOk(m) && Gone(m, a, m2) && a.Values <= m.tabs.Keys && Pages(m, a) <= m.data.Keys
    requires Unshared(m, a) <= Pages(m, a) && forall g :: g in Unshared(m, a) ==> m.ref[g] == 1
    ensures MemOk(m2)
  {
    hide Pages, Unshared;
  }

  lemma {:induction false} UnsharedRef(m: Mem, a: Tree)
    ensures forall g :: g in Unshared(m, a) ==> g in Pages(m, a) && g in m.ref && m.ref[g] == 1
  {
    hide Pages;
  }

  lemma {:induction false} OwedLess(m0: Mem, m: Mem, ta: set<nat>, tb: set<nat>, pa: set<nat>, pb: set<nat>, m2: Mem)
    requires MemOk(m0) && Owed(m0, m, tb + ta, pb + pa) && tb !! ta
    requires m2.tabs == m.tabs - ta && m2.data == m.data - (pa - pb) && m2.free == m.free + ta + (pa - pb)
    ensures Owed(m0, m2, tb, pb)
  {
    assert m2.data.Keys == m.data.Keys - (pa - pb) && m2.tabs.Keys == m.tabs.Keys - ta;
  }

  lemma {:induction false} RefsLess(m0: Mem, m: Mem, rest: set<Tree>, a: Tree, tabs: set<nat>, m2: Mem)
    requires MemOk(m0) && Owed(m0, m, tabs, AllPages(m, rest) + Pages(m, a)) && RefsKept(m0, m) && Gone(m, a, m2)
    requires Unshared(m, a) == Pages(m, a) - AllPages(m, rest) && Pages(m, a) <= m.data.Keys
    requires forall g :: g in Unshared(m, a) ==> m.ref[g] == 1
    ensures RefsKept(m0, m2)
  {
    hide Pages, Unshared, AllPages;
    forall g | NotTaken(m0, m2, g) ensures m2.ref[g] == m0.ref[g] {
      if g in Pages(m, a) {
        assert g in m0.free && g !in m0.data && g in Unshared(m, a);
      } else {
        assert NotTaken(m0, m, g);
      }
    }
  }

  /** A destroyed space leaves the others as they were. */
  lemma {:induction false} FamilyEnd(m0: Mem, m: Mem, rest: set<Tree>, a: Tree, m2: Mem)
    requires MemOk(m0) && a !in rest && Family(m0, m, rest + {a}) && Gone(m, a, m2)
    ensures Family(m0, m2, rest)
  {
    hide Pages, TreeFine, MemOk, Mappers, AllPages, Tables, TablesApart, Stay, Family, Owed, RefsKept, RefIs, Unshared, Counted;
    FamilyParts(m0, m, rest, a);
    UnsharedAre(m, rest, a);
    UnsharedRef(m, a);
    GoneStays(m, rest, a, m2);
    AllStay(m, rest, m2);
    GoneRefs(m, rest, a, m2);
    TreeFineIs(m, a);
    PagesOf(m, a);
    ValuesIn(m, a);
    GoneOk(m, a, m2);
    OwedLess(m0, m, a.Values, Tables(rest), Pages(m, a), AllPages(m, rest), m2);
    RefsLess(m0, m, rest, a, Tables(rest) + a.Values, m2);
    FamilyIf(m0, m2, rest);
  }

  lemma {:induction false} TreeFineIs(m: Mem, at: Tree)
    requires TreeFine(m, at)
    ensures Hangs(m, at) && LeavesApart(m, at) && AllUser(m, at)
  {}

  lemma {:induction false} FamilyIf(m0: Mem, m: Mem, ts: set<Tree>)
    requires MemOk(m) && (forall t :: t in ts ==> TreeFine(m, t)) && TablesApart(ts) && Counted(m, ts)
    requires Owed(m0, m, Tables(ts), AllPages(m, ts)) && RefsKept(m0, m)
    ensures Family(m0, m, ts)
  {}
}
