/** PageTable::Destroy: the tables and the user pages of an address space go back to the page
    allocator. */
module Teardown {
  import opened PageTree
  import opened Regions
  import opened Vmm
  import opened Fork
  import LinkTable

  /** Page g is mapped for the user somewhere in [0, hi). */
  ghost predicate Used(m: Mem, at: Tree, hi: nat, g: nat) {
    exists p :: 0 <= p < hi && UserLeaf(m, at, p) && Leaf(m, at, p).ppn == g
  }

  ghost predicate UserLeaf(m: Mem, at: Tree, p: nat) { Leaf(m, at, p).v && Leaf(m, at, p).u }

  /** The pages of [0, hi) that nobody else maps. */
  ghost function Last(m: Mem, at: Tree, hi: nat): set<nat> {
    set g | g in m.data && g in m.ref && m.ref[g] == 1 && Used(m, at, hi, g)
  }

  /** Memory m0 after the tables T and the user mappings below page hi were given up. */
  ghost predicate Torn(m0: Mem, at: Tree, T: set<nat>, hi: nat, m: Mem) {
    && m.tabs == m0.tabs - T
    && m.data == m0.data - Last(m0, at, hi)
    && m.free == m0.free + T + Last(m0, at, hi)
    && m.ref.Keys == m0.ref.Keys
    && forall g :: g in m0.ref ==> m.ref[g] + (if Used(m0, at, hi, g) then 1 else 0) == m0.ref[g]
  }

  /** Every user mapping is counted. */
  ghost predicate RefsCount(m: Mem, at: Tree) {
    forall p :: UserLeaf(m, at, p) ==> Leaf(m, at, p).ppn in m.ref && m.ref[Leaf(m, at, p).ppn] > 0
  }

  ghost predicate TearOk(m: Mem, at: Tree) {
    MemOk(m) && Hangs(m, at) && LeavesApart(m, at) && RefsCount(m, at)
  }

  /** Table s lies behind the first i entries of the table at q. */
  ghost predicate Behind(q: Place, i: nat, s: Place) {
    s.level < q.level && First(q) <= First(s) < First(q) + i * Step(q.level)
  }

  ghost function Sub(at: Tree, q: Place, i: nat): set<nat> {
    set s | s in at && Behind(q, i, s) :: at[s]
  }

  /** The tables of the subtree at q. */
  ghost function Under(at: Tree, q: Place): set<nat>
    requires q in at
  {
    Sub(at, q, 512) + {at[q]}
  }

  // ----- positions

  lemma {:induction false} NextBehind(q: Place, i: nat, s: Place)
    requires 0 < q.level <= 2 && PlaceOk(q) && PlaceOk(s) && i < 512
    ensures Behind(q, i + 1, s) <==> Behind(q, i, s) || s == Child(q, i) || Behind(Child(q, i), 512, s)
  {
    FirstChild(q, i);
  }

  lemma {:induction false} SubNext(m: Mem, at: Tree, q: Place, i: nat)
    requires Hangs(m, at) && q in at && q.level > 0 && i < 512
    ensures Sub(at, q, i + 1) == Sub(at, q, i) + if Child(q, i) in at then Under(at, Child(q, i)) else {}
  {
    hide Hangs, Behind, Child;
    forall s | s in at ensures Behind(q, i + 1, s) <==> Behind(q, i, s) || s == Child(q, i) || Behind(Child(q, i), 512, s) {
      EntryAt(m, at, q, i);
      EntryAt(m, at, s, 0);
      NextBehind(q, i, s);
    }
    if Child(q, i) !in at {
      forall s | s in at ensures !Behind(Child(q, i), 512, s) {
        NotBehindGap(m, at, q, i, s);
      }
    }
  }

  /** Behind an absent table there is none. */
  lemma {:induction false} NotBehindGap(m: Mem, at: Tree, q: Place, i: nat, s: Place)
    requires Hangs(m, at) && q in at && q.level > 0 && i < 512 && Child(q, i) !in at && s in at
    ensures !Behind(Child(q, i), 512, s)
  {
    hide Hangs;
    EntryAt(m, at, q, i);
    EntryAt(m, at, s, 0);
    ParentIn(m, at, s);
    if Behind(Child(q, i), 512, s) {
      BehindParent(q, i, s);
    }
  }

  lemma {:induction false} BehindParent(q: Place, i: nat, s: Place)
    requires PlaceOk(q) && PlaceOk(s) && q.level > 0 && i < 512 && Behind(Child(q, i), 512, s)
    ensures s.level == 0 && q.level == 2 && Parent(s) == Child(q, i)
  {}

  lemma {:induction false} SubApart(m: Mem, at: Tree, q: Place, i: nat)
    requires Hangs(m, at) && q in at && q.level > 0 && i < 512 && Child(q, i) in at
    ensures Under(at, Child(q, i)) !! Sub(at, q, i) && at[q] !in Sub(at, q, i + 1)
    ensures Under(at, Child(q, i)) <= Sub(at, q, 512)
  {
    hide Hangs, Behind, Child, Injective;
    InjectiveOf(m, at);
    SubNext(m, at, q, i);
    forall s | s in at ensures Behind(q, i, s) ==> s != Child(q, i) && !Behind(Child(q, i), 512, s)
                       ensures Behind(q, i + 1, s) ==> s != q && Behind(q, 512, s) {
      EntryAt(m, at, q, i);
      EntryAt(m, at, s, 0);
      BehindApart(q, i, s);
    }
    SubMembers(at, q, i);
    SubMembers(at, q, i + 1);
    SubMembers(at, q, 512);
    SubMembers(at, Child(q, i), 512);
  }

  lemma {:induction false} InjectiveOf(m: Mem, at: Tree)
    requires Hangs(m, at)
    ensures Injective(at)
  {}

  lemma {:induction false} SubMembers(at: Tree, q: Place, i: nat)
    requires Injective(at)
    ensures forall s :: s in at ==> (at[s] in Sub(at, q, i) <==> Behind(q, i, s))
  {
    hide Behind;
  }

  lemma {:induction false} BehindApart(q: Place, i: nat, s: Place)
    requires PlaceOk(q) && PlaceOk(s) && q.level > 0 && i < 512
    ensures Behind(q, i, s) ==> s != Child(q, i) && !Behind(Child(q, i), 512, s)
    ensures Behind(q, i + 1, s) ==> s != q && Behind(q, 512, s)
  {}

  // ----- mappings

  lemma {:induction false} UsedSkip(m: Mem, at: Tree, lo: nat, hi: nat)
    requires lo <= hi && forall p :: lo <= p < hi ==> !UserLeaf(m, at, p)
    ensures forall g :: Used(m, at, hi, g) == Used(m, at, lo, g)
    ensures Last(m, at, hi) == Last(m, at, lo)
  {
    hide UserLeaf, Leaf;
    forall g: nat ensures Used(m, at, hi, g) == Used(m, at, lo, g) {
      if p :| 0 <= p < hi && UserLeaf(m, at, p) && Leaf(m, at, p).ppn == g {
        assert p < lo;
      }
      if p :| 0 <= p < lo && UserLeaf(m, at, p) && Leaf(m, at, p).ppn == g {
        assert p < hi;
      }
    }
  }

  lemma {:induction false} TornSkip(m0: Mem, at: Tree, T: set<nat>, lo: nat, hi: nat, m: Mem)
    requires Torn(m0, at, T, lo, m) && lo <= hi && forall p :: lo <= p < hi ==> !UserLeaf(m0, at, p)
    ensures Torn(m0, at, T, hi, m)
  {
    hide UserLeaf, Used, Last;
    UsedSkip(m0, at, lo, hi);
  }

  function Unref(m: Mem, g: nat): Mem
    requires g in m.ref && m.ref[g] > 0
  {
    var m1 := m.(ref := m.ref[g := m.ref[g] - 1]);
    if m.ref[g] == 1 then m1.(data := m.data - {g}, free := m.free + {g}) else m1
  }

  lemma {:induction false} UsedNext(m: Mem, at: Tree, p: nat)
    requires UserLeaf(m, at, p) && LeavesApart(m, at)
    ensures var g := Leaf(m, at, p).ppn;
            !Used(m, at, p, g) && forall h :: Used(m, at, p + 1, h) <==> Used(m, at, p, h) || h == g
  {
    hide Leaf;
    var g := Leaf(m, at, p).ppn;
    forall h: nat ensures Used(m, at, p + 1, h) <==> Used(m, at, p, h) || h == g {
      if s :| 0 <= s < p + 1 && UserLeaf(m, at, s) && Leaf(m, at, s).ppn == h {
        assert s == p || s < p;
      }
      if s :| 0 <= s < p && UserLeaf(m, at, s) && Leaf(m, at, s).ppn == h {
        assert s < p + 1;
      }
    }
  }

  lemma {:induction false} TornLeaf(m0: Mem, at: Tree, T: set<nat>, p: nat, m: Mem)
    requires TearOk(m0, at) && Torn(m0, at, T, p, m) && UserLeaf(m0, at, p) && T <= m0.tabs.Keys
    ensures var g := Leaf(m0, at, p).ppn; g in m.ref && m.ref[g] > 0 && Torn(m0, at, T, p + 1, Unref(m, g))
  {
    hide Leaf, Hangs, Used;
    var g := Leaf(m0, at, p).ppn;
    LeafData(m0, at, p);
    UsedNext(m0, at, p);
    LastNext(m0, at, p);
    assert g in m0.ref;
  }

  lemma {:induction false} LastNext(m: Mem, at: Tree, p: nat)
    requires TearOk(m, at) && UserLeaf(m, at, p)
    ensures var g := Leaf(m, at, p).ppn;
            g !in Last(m, at, p) && g in m.data && g in m.ref
            && Last(m, at, p + 1) == Last(m, at, p) + if m.ref[g] == 1 then {g} else {}
  {
    hide Leaf, Hangs, Used;
    LeafData(m, at, p);
    UsedNext(m, at, p);
  }

  lemma {:induction false} TornTable(m0: Mem, at: Tree, T: set<nat>, hi: nat, m: Mem, t: nat)
    requires Torn(m0, at, T, hi, m)
    ensures Torn(m0, at, T + {t}, hi, m.(tabs := m.tabs - {t}, free := m.free + {t}))
  {
    hide Last, Used;
  }

  lemma {:induction false} TornTabs(m0: Mem, at: Tree, T: set<nat>, hi: nat, m: Mem, q: Place)
    requires TearOk(m0, at) && Torn(m0, at, T, hi, m) && q in at && at[q] !in T
    ensures at[q] in m.tabs && |m.tabs[at[q]]| == 512 && PlaceOk(q)
    ensures forall i: nat :: i < 512 ==> m.tabs[at[q]][i] == Entry(m0, at, q, i)
  {
    hide Last, Used;
    TableLen(m0, at, q);
    EntryAt(m0, at, q, 0);
  }

  // ----- the walk

  /** --page->ref, and the page goes back when it was the last reference. */
  method DropRef(mem: Memory, g: nat)
    requires g in mem.ref && mem.ref[g] > 0
    modifies mem
    ensures mem.V() == Unref(old(mem.V()), g)
  {
    mem.ref := mem.ref[g := mem.ref[g] - 1];
    if mem.ref[g] == 0 {
      mem.data := mem.data - {g};
      mem.free := mem.free + {g};
    }
  }

  /** What destroying the tables below entry i of q needs and leaves. */
  lemma {:induction false} EntryCases(m: Mem, at: Tree, q: Place, i: nat)
    requires TearOk(m, at) && q in at && i < 512
    ensures var e := Entry(m, at, q, i);
            && (e.v && e.IsPageTable() ==> q.level > 0 && Child(q, i) in at && at[Child(q, i)] == e.ppn)
            && (q.level > 0 && !(e.v && e.IsPageTable()) ==> Child(q, i) !in at && (e.v ==> !e.u))
            && (q.level == 0 ==> First(q) + i < USER_PAGES && Leaf(m, at, First(q) + i) == e)
  {
    hide MemOk, Hangs, Entry;
    EntryAt(m, at, q, i);
    if q.level == 0 {
      assert (First(q) + i) / 512 == q.n && (First(q) + i) % 512 == i;
    } else if q.level == 2 && i >= 508 && Child(q, i) in at {
      EntryAt(m, at, Child(q, i), 0);
      assert false;
    }
  }

  /** Behind entry i without a table no page is mapped for the user. */
  lemma {:induction false} NoUserLeaf(m: Mem, at: Tree, q: Place, i: nat)
    requires TearOk(m, at) && q in at && i < 512
    requires if q.level > 0 then Child(q, i) !in at else !UserLeaf(m, at, First(q) + i)
    ensures forall p :: First(q) + i * Step(q.level) <= p < First(q) + (i + 1) * Step(q.level) ==> !UserLeaf(m, at, p)
  {
    hide MemOk, Hangs, Entry, First, Step, LeavesApart, RefsCount;
    EntryAt(m, at, q, i);
    forall p: nat | First(q) + i * Step(q.level) <= p < First(q) + (i + 1) * Step(q.level) ensures !UserLeaf(m, at, p) {
      BehindPlaces(q, i, p);
      if UserLeaf(m, at, p) {
        LeafData(m, at, p);
        ParentIn(m, at, Place(0, p / 512));
        OneStep(q, i, p);
      }
    }
  }

  lemma {:induction false} OneStep(q: Place, i: nat, p: nat)
    requires q.level == 0 && First(q) + i * Step(q.level) <= p < First(q) + (i + 1) * Step(q.level)
    ensures p == First(q) + i
  {}

  lemma {:induction false} SubTables(m: Mem, at: Tree, q: Place, i: nat)
    requires Hangs(m, at) && q in at
    ensures Sub(at, q, i) <= m.tabs.Keys && at[q] in m.tabs && Sub(at, q, 0) == {}
    ensures q.level == 0 ==> Sub(at, q, i) == {}
  {
    hide Entries, Injective;
  }

  lemma {:induction false} TearParts(m: Mem, at: Tree)
    requires TearOk(m, at)
    ensures MemOk(m) && Hangs(m, at) && LeavesApart(m, at)
  {}

  lemma {:induction false} SelfApart(m: Mem, at: Tree, q: Place, i: nat)
    requires Hangs(m, at) && q in at && i <= 512
    ensures at[q] !in Sub(at, q, i) && Sub(at, q, i) <= Sub(at, q, 512)
  {
    hide Hangs, Injective;
    InjectiveOf(m, at);
    forall s | s in at ensures Behind(q, i, s) ==> s != q && Behind(q, 512, s) {
      BehindMono(q, i, s);
    }
    SubMembers(at, q, i);
    SubMembers(at, q, 512);
  }

  lemma {:induction false} BehindMono(q: Place, i: nat, s: Place)
    requires i <= 512
    ensures Behind(q, i, s) ==> s != q && Behind(q, 512, s)
  {}

  /** One entry of PageTable::Destroy. */
  method DestroyEntry(mem: Memory, t: nat, level: nat, i: nat, ghost m0: Mem, ghost at: Tree, ghost q: Place, ghost T: set<nat>)
    requires TearOk(m0, at) && q in at && at[q] == t && q.level == level <= 2 && i < 512
    requires T <= m0.tabs.Keys && t !in T && (Child?(q) && Child(q, i) in at ==> T !! Under(at, Child(q, i)))
    requires Torn(m0, at, T, First(q) + i * Step(level), mem.V())
    modifies mem
    ensures Torn(m0, at, T + (if Child?(q) && Child(q, i) in at then Under(at, Child(q, i)) else {}), First(q) + (i + 1) * Step(level), mem.V())
    decreases level, 0
  {
    hide TearOk, Torn, Under, First, Child, Entry, Leaf, UserLeaf;
    ghost var m := mem.V();
    TearParts(m0, at);
    TornTabs(m0, at, T, First(q) + i * Step(level), m, q);
    EntryCases(m0, at, q, i);
    assert T + {} == T;
    var e := mem.tabs[t][i];
    if e.v && e.IsPageTable() {
      FirstChild(q, i);
      Destroy(mem, e.ppn, level - 1, m0, at, Child(q, i), T);
    } else if e.v && e.u && level == 0 {
      LeafHere(m0, at, q, i, e);
      TornLeaf(m0, at, T, First(q) + i, m);
      DropRef(mem, e.ppn);
    } else {
      NotUser(m0, at, q, i, e);
      NoUserLeaf(m0, at, q, i);
      TornSkip(m0, at, T, First(q) + i * Step(level), First(q) + (i + 1) * Step(level), m);
    }
  }

  predicate Child?(q: Place) { q.level > 0 }

  lemma {:induction false} LeafHere(m: Mem, at: Tree, q: Place, i: nat, e: Pte)
    requires q.level == 0 && Leaf(m, at, First(q) + i) == e && e.v && e.u
    ensures UserLeaf(m, at, First(q) + i)
  {}

  lemma {:induction false} NotUser(m: Mem, at: Tree, q: Place, i: nat, e: Pte)
    requires (q.level == 0 ==> Leaf(m, at, First(q) + i) == e) && !(e.v && e.u && q.level == 0)
    ensures q.level == 0 ==> !UserLeaf(m, at, First(q) + i)
  {}

  /** PageTable::Destroy on the table at q, when the tables T and the mappings before it are gone. */
  method Destroy(mem: Memory, t: nat, level: nat, ghost m0: Mem, ghost at: Tree, ghost q: Place, ghost T: set<nat>)
    requires TearOk(m0, at) && q in at && at[q] == t && q.level == level <= 2
    requires T <= m0.tabs.Keys && T !! Under(at, q) && Torn(m0, at, T, First(q), mem.V())
    modifies mem
    ensures Torn(m0, at, T + Under(at, q), First(q) + 512 * Step(level), mem.V())
    decreases level, 1
  {
    hide TearOk, Torn, First, Child, Sub, Step;
    TearParts(m0, at);
    SubTables(m0, at, q, 0);
    assert T + Sub(at, q, 0) == T;
    var i := 0;
    while i < 512
      invariant 0 <= i <= 512 && Torn(m0, at, T + Sub(at, q, i), First(q) + i * Step(level), mem.V())
    {
      SubTables(m0, at, q, i);
      SelfApart(m0, at, q, i);
      NextSub(m0, at, q, i, T);
      DestroyEntry(mem, t, level, i, m0, at, q, T + Sub(at, q, i));
      i := i + 1;
    }
    SelfApart(m0, at, q, 512);
    TornTable(m0, at, T + Sub(at, q, 512), First(q) + 512 * Step(level), mem.V(), t);
    mem.tabs := mem.tabs - {t};
    mem.free := mem.free + {t};
    assert T + Sub(at, q, 512) + {t} == T + Under(at, q);
  }

  lemma {:induction false} NextSub(m: Mem, at: Tree, q: Place, i: nat, T: set<nat>)
    requires Hangs(m, at) && q in at && i < 512 && T !! Under(at, q)
    ensures var here := if Child?(q) && Child(q, i) in at then Under(at, Child(q, i)) else {};
            T + Sub(at, q, i + 1) == (T + Sub(at, q, i)) + here && (T + Sub(at, q, i)) !! here && at[q] !in T
  {
    hide Hangs, Sub, Child;
    if q.level > 0 {
      SubNext(m, at, q, i);
      if Child(q, i) in at {
        SubApart(m, at, q, i);
      }
    } else {
      SubTables(m, at, q, i);
      SubTables(m, at, q, i + 1);
    }
  }

  // ----- whole address spaces

  /** All of the user's mappings. */
  ghost function Pages(m: Mem, at: Tree): set<nat> {
    set p: nat | 0 <= p < USER_PAGES && UserLeaf(m, at, p) :: Leaf(m, at, p).ppn
  }

  lemma {:induction false} AllUsed(m: Mem, at: Tree, g: nat)
    requires Hangs(m, at)
    ensures Used(m, at, ALL, g) <==> g in Pages(m, at)
    ensures g in Pages(m, at) ==> g in m.data
  {
    hide Leaf, Hangs;
    forall p: nat | UserLeaf(m, at, p) ensures p < USER_PAGES < ALL && Leaf(m, at, p).ppn in m.data {
      LeafData(m, at, p);
    }
  }

  lemma {:induction false} AllUnder(m: Mem, at: Tree)
    requires Hangs(m, at)
    ensures ROOT in at && First(ROOT) == 0 && Under(at, ROOT) == at.Values
  {
    hide Entries, Injective, Behind;
    forall s | s in at && s != ROOT ensures Behind(ROOT, 512, s) {
      BelowRoot(s);
    }
  }

  lemma {:induction false} BelowRoot(s: Place)
    requires PlaceOk(s) && s != ROOT
    ensures Behind(ROOT, 512, s)
  {}

  /** VirtualMemorySpace::Destroy: every table goes back to the allocator, every user mapping
      gives up its reference, and pages nobody else maps go back, too. */
  method DestroySpace(s: VirtualMemorySpace)
    requires s.Valid() && RefsCount(s.mem.V(), s.at)
    modifies s.mem, s.regions, s.regions.head, s.regions.list
    ensures s.regions.list == [] && s.mem.tabs == old(s.mem.tabs) - s.at.Values
    ensures s.mem.ref.Keys == old(s.mem.ref).Keys
    ensures forall g :: g in old(s.mem.ref) ==>
              s.mem.ref[g] + (if g in Pages(old(s.mem.V()), s.at) then 1 else 0) == old(s.mem.ref)[g]
    ensures s.mem.data == old(s.mem.data) - Unshared(old(s.mem.V()), s.at)
    ensures s.mem.free == old(s.mem.free) + s.at.Values + Unshared(old(s.mem.V()), s.at)
  {
    hide Leaf, Hangs, MemOk, LeavesApart, RefsCount, Used, Pages, RegionList.Valid, LinkTable.Chain;
    ghost var m0 := s.mem.V();
    AllUnder(m0, s.at);
    s.regions.ClearVMR();
    TornStart(m0, s.at);
    Destroy(s.mem, s.pdt, 2, m0, s.at, ROOT, {});
    forall g: nat ensures Used(m0, s.at, ALL, g) <==> g in Pages(m0, s.at) {
      AllUsed(m0, s.at, g);
    }
    UnsharedIs(m0, s.at);
  }

  /** The pages that only this space maps. */
  ghost function Unshared(m: Mem, at: Tree): set<nat> {
    set g | g in Pages(m, at) && g in m.ref && m.ref[g] == 1
  }

  lemma {:induction false} UnsharedIs(m: Mem, at: Tree)
    requires Hangs(m, at)
    ensures Last(m, at, ALL) == Unshared(m, at)
  {
    hide Used, Pages, Hangs;
    forall g: nat ensures g in Last(m, at, ALL) <==> g in Unshared(m, at) {
      AllUsed(m, at, g);
    }
  }

  lemma {:induction false} TornStart(m: Mem, at: Tree)
    ensures Torn(m, at, {}, 0, m)
  {
    assert Last(m, at, 0) == {};
  }
}
