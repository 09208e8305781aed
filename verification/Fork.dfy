/** What copying a region from one address space to another does to memory. */
module Fork {
  import opened PageTree
  import opened Regions
  import opened Vmm

  /** PageSizeN in pages. */
  function Step(level: nat): nat { if level == 0 then 1 else if level == 1 then 512 else 262144 }

  /** The first page a table covers. */
  function First(q: Place): nat { if q.level == 0 then q.n * 512 else if q.level == 1 then q.n * 262144 else q.n * 134217728 }

  lemma {:induction false} FirstChild(q: Place, i: nat)
    requires 0 < q.level <= 2
    ensures First(Child(q, i)) == First(q) + i * Step(q.level) && Step(q.level) == 512 * Step(q.level - 1)
    ensures Child(q, i).level == q.level - 1
  {}

  predicate InPages(r: Span, p: nat) { r.start <= p * PAGESIZE < r.end }

  /** Entries src[p] of the region between pages lo and hi. */
  ghost predicate Scope(m: Mem, src: Tree, r: Span, lo: nat, hi: nat, p: nat) {
    lo <= p < hi && InPages(r, p) && Leaf(m, src, p).v
  }

  /** The new entry e' against the source's e: the same page when the region is shared, else a
      page of the allocator with the same contents. */
  ghost predicate Copied(m: Mem, e: Pte, flags: nat, m': Mem, e': Pte) {
    && e' == PteOf(flags, e'.ppn) && e.ppn in m.data && e.ppn in m.ref && e'.ppn in m'.ref && e'.ppn in m'.data
    && m'.data[e'.ppn] == m.data[e.ppn]
    && if Has(flags, VM_SHARED) then e'.ppn == e.ppn && m'.ref[e.ppn] == m.ref[e.ppn] + 1
       else e'.ppn in m.free && m'.ref[e'.ppn] == 1
  }

  /** Page g is shared by an entry in scope. */
  ghost predicate SharedIn(m: Mem, src: Tree, r: Span, lo: nat, hi: nat, g: nat) {
    Has(r.flags, VM_SHARED) && exists p :: Scope(m, src, r, lo, hi, p) && Leaf(m, src, p).ppn == g
  }

  /** Page g is what the copy of an entry in scope maps. */
  ghost predicate NewHere(m: Mem, src: Tree, r: Span, lo: nat, hi: nat, m': Mem, at': Tree, g: nat) {
    exists p :: Scope(m, src, r, lo, hi, p) && Leaf(m', at', p).ppn == g
  }

  /** Page g did not become a data page on the way to m'. */
  ghost predicate NotTaken(m: Mem, m': Mem, g: nat) { g in m.ref && g in m'.ref && (g in m.data || g !in m'.data) }

  /** From memory m and tree `at` to m' and at': exactly the entries in scope were copied, and no
      page was taken for anything else. */
  ghost predicate CopiedRange(m: Mem, at: Tree, src: Tree, r: Span, lo: nat, hi: nat, m': Mem, at': Tree) {
    && Grew(m, at, m', at')
    && (forall p :: Leaf(m', src, p) == Leaf(m, src, p))
    && (forall p :: Scope(m, src, r, lo, hi, p) ==> Copied(m, Leaf(m, src, p), r.flags, m', Leaf(m', at', p)))
    && (forall p :: !Scope(m, src, r, lo, hi, p) ==> Leaf(m', at', p) == Leaf(m, at, p))
    && m'.ref.Keys == m.ref.Keys
    && (forall g :: NotTaken(m, m', g) && !SharedIn(m, src, r, lo, hi, g) ==> m'.ref[g] == m.ref[g])
    && (forall g :: g in m'.data && g !in m.data ==> NewHere(m, src, r, lo, hi, m', at', g))
  }

  /** Two trees in one memory that share no table, and no page but at the same address. */
  ghost predicate Both(m: Mem, at: Tree, src: Tree) {
    && MemOk(m) && Hangs(m, at) && Hangs(m, src) && at.Values !! src.Values
    && LeavesApart(m, at) && LeavesApart(m, src)
    && forall p, s :: Leaf(m, at, p).v && Leaf(m, src, s).v && Leaf(m, at, p).ppn == Leaf(m, src, s).ppn ==> p == s
  }

  lemma {:induction false} CopyNothing(m: Mem, at: Tree, src: Tree, r: Span, lo: nat, hi: nat)
    requires Hangs(m, at) && forall p :: !Scope(m, src, r, lo, hi, p)
    ensures CopiedRange(m, at, src, r, lo, hi, m, at)
  {
    hide Leaf, Has, Hangs, Grew;
    GrewNot(m, at);
  }

  /** Copying up to mid and then from mid on is copying all. */
  lemma {:induction false} CopyJoin(m: Mem, at: Tree, src: Tree, r: Span, lo: nat, mid: nat, hi: nat,
                                    m1: Mem, at1: Tree, m2: Mem, at2: Tree)
    requires Both(m, at, src) && lo <= mid <= hi
    requires CopiedRange(m, at, src, r, lo, mid, m1, at1) && CopiedRange(m1, at1, src, r, mid, hi, m2, at2)
    ensures CopiedRange(m, at, src, r, lo, hi, m2, at2)
  {
    hide Leaf, Hangs, MemOk, Grew, Copied, SharedIn, Both, LeavesApart;
    MemOkOf(m, at, src);
    GrewThen(m, at, m1, at1, m2, at2);
    ScopeSplit(m, m1, src, r, lo, mid, hi);
    forall p: nat | Scope(m, src, r, lo, hi, p) ensures Copied(m, Leaf(m, src, p), r.flags, m2, Leaf(m2, at2, p)) {
      if p < mid {
        CopiedStays(m, at, src, r, lo, mid, hi, m1, at1, m2, at2, p);
      } else {
        CopiedSince(m, at, src, r, lo, mid, hi, m1, at1, m2, at2, p);
      }
    }
    forall g | NotTaken(m, m2, g) && !SharedIn(m, src, r, lo, hi, g) ensures m2.ref[g] == m.ref[g] {
      NotSharedParts(m, m1, src, r, lo, mid, hi, g);
      NotTakenParts(m, at, m1, at1, m2, at2, g);
    }
    forall g | g in m2.data && g !in m.data ensures NewHere(m, src, r, lo, hi, m2, at2, g) {
      NewJoin(m, at, src, r, lo, mid, hi, m1, at1, m2, at2, g);
    }
  }

  lemma {:induction false} NotTakenParts(m: Mem, at: Tree, m1: Mem, at1: Tree, m2: Mem, at2: Tree, g: nat)
    requires Grew(m, at, m1, at1) && Grew(m1, at1, m2, at2) && m1.ref.Keys == m.ref.Keys && NotTaken(m, m2, g)
    ensures NotTaken(m, m1, g) && NotTaken(m1, m2, g)
  {}

  lemma {:induction false} NewJoin(m: Mem, at: Tree, src: Tree, r: Span, lo: nat, mid: nat, hi: nat,
                                   m1: Mem, at1: Tree, m2: Mem, at2: Tree, g: nat)
    requires lo <= mid <= hi && g in m2.data && g !in m.data
    requires CopiedRange(m, at, src, r, lo, mid, m1, at1) && CopiedRange(m1, at1, src, r, mid, hi, m2, at2)
    ensures NewHere(m, src, r, lo, hi, m2, at2, g)
  {
    hide Leaf, Grew, Copied, SharedIn, InPages;
    if g in m1.data {
      assert NewHere(m, src, r, lo, mid, m1, at1, g);
      var p :| Scope(m, src, r, lo, mid, p) && Leaf(m1, at1, p).ppn == g;
      assert !Scope(m1, src, r, mid, hi, p);
      assert Scope(m, src, r, lo, hi, p) && Leaf(m2, at2, p).ppn == g;
    } else {
      assert NewHere(m1, src, r, mid, hi, m2, at2, g);
      var p :| Scope(m1, src, r, mid, hi, p) && Leaf(m2, at2, p).ppn == g;
      assert Scope(m, src, r, lo, hi, p);
    }
  }

  lemma {:induction false} MemOkOf(m: Mem, at: Tree, src: Tree)
    requires Both(m, at, src)
    ensures MemOk(m) && Hangs(m, at) && Hangs(m, src) && LeavesApart(m, src)
  {}

  lemma {:induction false} DataStays(m: Mem, at: Tree, m1: Mem, at1: Tree, g: nat)
    requires Grew(m, at, m1, at1) && g in m.data
    ensures g in m1.data && m1.data[g] == m.data[g] && m1.free <= m.free
  {}

  lemma {:induction false} ScopeSplit(m: Mem, m1: Mem, src: Tree, r: Span, lo: nat, mid: nat, hi: nat)
    requires lo <= mid <= hi && forall p :: Leaf(m1, src, p) == Leaf(m, src, p)
    ensures forall p: nat :: Scope(m, src, r, lo, hi, p) <==> Scope(m, src, r, lo, mid, p) || Scope(m1, src, r, mid, hi, p)
    ensures forall p: nat :: Scope(m, src, r, lo, mid, p) ==> p < mid
    ensures forall p: nat :: Scope(m1, src, r, mid, hi, p) ==> mid <= p
  {
    hide Leaf;
  }

  lemma {:induction false} NotSharedParts(m: Mem, m1: Mem, src: Tree, r: Span, lo: nat, mid: nat, hi: nat, g: nat)
    requires lo <= mid <= hi && (forall p :: Leaf(m1, src, p) == Leaf(m, src, p)) && !SharedIn(m, src, r, lo, hi, g)
    ensures !SharedIn(m, src, r, lo, mid, g) && !SharedIn(m1, src, r, mid, hi, g)
  {
    hide Leaf;
    forall p: nat | Scope(m, src, r, lo, mid, p) || Scope(m1, src, r, mid, hi, p) ensures Scope(m, src, r, lo, hi, p) {}
  }

  /** A copy made in the first part survives the second. */
  lemma {:induction false} CopiedStays(m: Mem, at: Tree, src: Tree, r: Span, lo: nat, mid: nat, hi: nat,
                                       m1: Mem, at1: Tree, m2: Mem, at2: Tree, p: nat)
    requires Both(m, at, src) && lo <= mid <= hi && Scope(m, src, r, lo, mid, p)
    requires CopiedRange(m, at, src, r, lo, mid, m1, at1) && CopiedRange(m1, at1, src, r, mid, hi, m2, at2)
    ensures Copied(m, Leaf(m, src, p), r.flags, m2, Leaf(m2, at2, p))
  {
    hide Leaf, Hangs, MemOk, Grew, SharedIn, LeavesApart;
    var e, e' := Leaf(m, src, p), Leaf(m1, at1, p);
    assert Copied(m, e, r.flags, m1, e');
    assert !Scope(m1, src, r, mid, hi, p);
    DataStays(m1, at1, m2, at2, e'.ppn);
    NotLater(m, at, m1, src, r, lo, mid, hi, p, e'.ppn);
  }

  /** The page of an earlier copy is not shared again by a later one. */
  lemma {:induction false} NotLater(m: Mem, at: Tree, m1: Mem, src: Tree, r: Span, lo: nat, mid: nat, hi: nat, p: nat, g: nat)
    requires MemOk(m) && Hangs(m, src) && LeavesApart(m, src) && p < mid && Leaf(m, src, p).v
    requires forall s :: Leaf(m1, src, s) == Leaf(m, src, s)
    requires g == Leaf(m, src, p).ppn || g in m.free
    ensures !SharedIn(m1, src, r, mid, hi, g)
  {
    hide Leaf, Hangs;
    if s :| Scope(m1, src, r, mid, hi, s) && Leaf(m1, src, s).ppn == g {
      LeafData(m, src, s);
      assert false;
    }
  }

  /** A copy made in the second part, seen from the start. */
  lemma {:induction false} CopiedSince(m: Mem, at: Tree, src: Tree, r: Span, lo: nat, mid: nat, hi: nat,
                                       m1: Mem, at1: Tree, m2: Mem, at2: Tree, p: nat)
    requires Both(m, at, src) && lo <= mid <= hi && Scope(m1, src, r, mid, hi, p)
    requires CopiedRange(m, at, src, r, lo, mid, m1, at1) && CopiedRange(m1, at1, src, r, mid, hi, m2, at2)
    ensures Copied(m, Leaf(m, src, p), r.flags, m2, Leaf(m2, at2, p))
  {
    hide Leaf, Hangs, Grew, SharedIn, LeavesApart;
    var e := Leaf(m, src, p);
    assert Copied(m1, e, r.flags, m2, Leaf(m2, at2, p));
    assert !Scope(m, src, r, lo, mid, p);
    LeafData(m, src, p);
    DataStays(m, at, m1, at1, e.ppn);
    NotEarlier(m, src, r, lo, mid, p);
    RefOfData(m, e.ppn);
  }

  lemma {:induction false} RefOfData(m: Mem, g: nat)
    requires MemOk(m) && g in m.data
    ensures g in m.ref && g !in m.free
  {}

  lemma {:induction false} NotEarlier(m: Mem, src: Tree, r: Span, lo: nat, mid: nat, p: nat)
    requires LeavesApart(m, src) && mid <= p && Leaf(m, src, p).v
    ensures !SharedIn(m, src, r, lo, mid, Leaf(m, src, p).ppn)
  {
    hide Leaf;
  }

  // ----- single steps

  /** Hanging tables into the new tree copies nothing yet. */
  lemma {:induction false} TableStep(m: Mem, at: Tree, src: Tree, r: Span, lo: nat, m': Mem, at': Tree)
    requires Both(m, at, src) && MemOk(m') && Hangs(m', at') && Grew(m, at, m', at') && m'.ref == m.ref && m'.data == m.data
    requires forall p :: Leaf(m', at', p) == Leaf(m, at, p)
    ensures Both(m', at', src) && CopiedRange(m, at, src, r, lo, lo, m', at')
  {
    hide Leaf, Hangs, MemOk;
    SourceStays(m, at, src, m', at');
    SameApart(m, at, m', at');
    SameApart(m, src, m', src);
  }

  /** The source's tables are outside the new tree, so they stay. */
  lemma {:induction false} SourceStays(m: Mem, at: Tree, src: Tree, m': Mem, at': Tree)
    requires MemOk(m) && Hangs(m, src) && at.Values !! src.Values && Grew(m, at, m', at')
    ensures Hangs(m', src) && at'.Values !! src.Values && forall p :: Leaf(m', src, p) == Leaf(m, src, p)
    ensures forall q :: q in src ==> src[q] in m.tabs && src[q] in m'.tabs && m'.tabs[src[q]] == m.tabs[src[q]]
  {
    hide Entries, EntryOk;
    forall q | q in src ensures src[q] in m.tabs && src[q] in m'.tabs && m'.tabs[src[q]] == m.tabs[src[q]] {
      assert src[q] in src.Values;
    }
    forall q | q in at' ensures at'[q] !in src.Values {
      if q in at { assert at[q] in at.Values; }
    }
    OtherTree(m, m', src);
  }

  /** One private page was copied. */
  lemma {:induction false} PrivateStep(m: Mem, at: Tree, src: Tree, r: Span, p: nat, m': Mem)
    requires Both(m, at, src) && Scope(m, src, r, p, p + 1, p) && !Has(r.flags, VM_SHARED) && Leaf(m, src, p).ppn in m.data
    requires MemOk(m') && Hangs(m', at) && LeavesApart(m', at) && Grew(m, at, m', at)
    requires MappedNew(m, at, m', at, p, r.flags, m.data[Leaf(m, src, p).ppn])
    ensures Both(m', at, src) && CopiedRange(m, at, src, r, p, p + 1, m', at)
  {
    hide Leaf, Hangs, MemOk, InPages, Permits, Has, CopiedRange;
    MemOkOf(m, at, src);
    SourceStays(m, at, src, m', at);
    SameApart(m, src, m', src);
    PrivateCopied(m, at, src, r, p, m');
    forall s | Leaf(m, src, s).v ensures Leaf(m, src, s).ppn !in m.free {
      LeafData(m, src, s);
      RefOfData(m, Leaf(m, src, s).ppn);
    }
  }

  lemma {:induction false} PrivateCopied(m: Mem, at: Tree, src: Tree, r: Span, p: nat, m': Mem)
    requires MemOk(m) && Scope(m, src, r, p, p + 1, p) && !Has(r.flags, VM_SHARED) && Leaf(m, src, p).ppn in m.data
    requires Grew(m, at, m', at) && MappedNew(m, at, m', at, p, r.flags, m.data[Leaf(m, src, p).ppn])
    requires forall s :: Leaf(m', src, s) == Leaf(m, src, s)
    ensures CopiedRange(m, at, src, r, p, p + 1, m', at)
  {
    hide Leaf, MemOk, InPages, Permits, Has, Grew;
    var c := Leaf(m', at, p).ppn;
    RefOfData(m, Leaf(m, src, p).ppn);
    if c in m.data { RefOfData(m, c); }
  }

  /** One page was shared. */
  lemma {:induction false} SharedStep(m: Mem, at: Tree, src: Tree, r: Span, p: nat, m': Mem)
    requires Both(m, at, src) && Scope(m, src, r, p, p + 1, p) && Has(r.flags, VM_SHARED) && Permits(r.flags)
    requires Place(0, p / 512) in at && !Leaf(m, at, p).v
    requires m' == WithEntry(RefTo(m, Leaf(m, src, p).ppn), at[Place(0, p / 512)], p % 512, PteOf(r.flags, Leaf(m, src, p).ppn))
    ensures Both(m', at, src) && CopiedRange(m, at, src, r, p, p + 1, m', at)
  {
    hide Leaf, Hangs, MemOk, LeavesApart;
    var g := Leaf(m, src, p).ppn;
    MemOkOf(m, at, src);
    LeafData(m, src, p);
    RefOfData(m, g);
    var m1 := RefTo(m, g);
    RefToOk(m, at, g);
    SetLeafOk(m1, at, p, PteOf(r.flags, g));
    SharedGrew(m, at, p, g, PteOf(r.flags, g));
    SourceStays(m, at, src, m', at);
    SameApart(m, src, m', src);
    SharedApart(m, at, src, r, p, m');
    assert Scope(m, src, r, p, p + 1, p);
  }

  lemma {:induction false} RefToOk(m: Mem, at: Tree, g: nat)
    requires MemOk(m) && Hangs(m, at) && g in m.data
    ensures MemOk(RefTo(m, g)) && Hangs(RefTo(m, g), at) && forall p :: Leaf(RefTo(m, g), at, p) == Leaf(m, at, p)
  {
    hide Hangs;
    OtherTreeIf(m, RefTo(m, g), at);
  }

  lemma {:induction false} LeafTable(m: Mem, at: Tree, p: nat)
    requires Hangs(m, at) && Place(0, p / 512) in at
    ensures at[Place(0, p / 512)] in m.tabs
  {}

  lemma {:induction false} SharedGrew(m: Mem, at: Tree, p: nat, g: nat, e: Pte)
    requires Hangs(m, at) && Place(0, p / 512) in at
    ensures var m' := WithEntry(RefTo(m, g), at[Place(0, p / 512)], p % 512, e); Grew(m, at, m', at) && m'.ref == m.ref[g := (if g in m.ref then m.ref[g] else 0) + 1]
  {
    hide Hangs;
    GrewNot(m, at);
    LeafTable(m, at, p);
    assert at[Place(0, p / 512)] in at.Values && at[Place(0, p / 512)] in m.tabs;
  }

  lemma {:induction false} SharedApart(m: Mem, at: Tree, src: Tree, r: Span, p: nat, m': Mem)
    requires Both(m, at, src) && Leaf(m, src, p).v && Leaf(m', at, p).ppn == Leaf(m, src, p).ppn
    requires forall s: nat :: s != p ==> Leaf(m', at, s) == Leaf(m, at, s)
    requires forall s :: Leaf(m', src, s) == Leaf(m, src, s)
    ensures LeavesApart(m', at)
    ensures forall t, s :: Leaf(m', at, t).v && Leaf(m', src, s).v && Leaf(m', at, t).ppn == Leaf(m', src, s).ppn ==> t == s
  {
    hide Leaf, Hangs, MemOk;
  }

  // ----- copying tables

  /** A page of the region: shared, or a fresh page with the same contents. */
  method CopyLeaf(s: VirtualMemorySpace, r: Span, pt: nat, i: nat, e: Pte, ghost p: nat, ghost src: Tree) returns (ok: bool)
    requires Both(s.mem.V(), s.at, src) && Scope(s.mem.V(), src, r, p, p + 1, p) && Permits(r.flags)
    requires e == Leaf(s.mem.V(), src, p) && Place(0, p / 512) in s.at && s.at[Place(0, p / 512)] == pt && i == p % 512
    requires !Leaf(s.mem.V(), s.at, p).v
    modifies s.mem
    ensures Both(s.mem.V(), s.at, src)
    ensures ok ==> CopiedRange(old(s.mem.V()), s.at, src, r, p, p + 1, s.mem.V(), s.at)
    ensures !ok ==> s.mem.free == {} && s.mem.V() == old(s.mem.V())
  {
    hide Leaf, Hangs, MemOk, LeavesApart, Both, Scope, Grew, MappedNew, CopiedRange;
    ghost var m := s.mem.V();
    MemOkOf(m, s.at, src);
    ApartOf(m, s.at, src);
    TableLen(m, s.at, Place(0, p / 512));
    ScopeLeaf(m, src, r, p);
    if Has(r.flags, VM_SHARED) {
      s.mem.SetPage(pt, i, e.ppn, r.flags);
      SharedStep(m, s.at, src, r, p, s.mem.V());
      return true;
    }
    ok := s.MapNew(pt, i, p, r.flags, s.mem.data[e.ppn]);
    if ok {
      PrivateStep(m, s.at, src, r, p, s.mem.V());
    }
  }

  lemma {:induction false} ApartOf(m: Mem, at: Tree, src: Tree)
    requires Both(m, at, src)
    ensures LeavesApart(m, at)
  {}

  lemma {:induction false} ScopeLeaf(m: Mem, src: Tree, r: Span, p: nat)
    requires MemOk(m) && Hangs(m, src) && Scope(m, src, r, p, p + 1, p)
    ensures Leaf(m, src, p).ppn in m.data
  {
    LeafData(m, src, p);
  }

  /** Entry i of the source's table at q is absent, or its pages are outside the region. */
  lemma {:induction false} NoScope(m: Mem, src: Tree, r: Span, q: Place, i: nat, lo: nat, hi: nat)
    requires Hangs(m, src) && q in src && i < 512 && lo == First(q) + i * Step(q.level) && hi == First(q) + (i + 1) * Step(q.level)
    requires !Entry(m, src, q, i).v || !Touches(r, lo * PAGESIZE, hi * PAGESIZE)
    ensures forall p :: !Scope(m, src, r, lo, hi, p)
  {
    hide Hangs, Entry, First, Step;
    if !Entry(m, src, q, i).v {
      forall p: nat | lo <= p < hi ensures !Leaf(m, src, p).v {
        BehindEntry(m, src, q, i, p);
      }
    } else {
      forall p: nat | lo <= p < hi ensures !InPages(r, p) {
        PageIn(lo, hi, p);
      }
    }
  }

  lemma {:induction false} PageIn(lo: nat, hi: nat, p: nat)
    requires lo <= p < hi
    ensures lo * PAGESIZE <= p * PAGESIZE < hi * PAGESIZE
  {}

  /** VirtualMemoryRegion::Intersect. */
  predicate Touches(r: Span, l: nat, e: nat) { e > r.start && r.end > l }

  /** The places of a page behind entry i. */
  lemma {:induction false} BehindPlaces(q: Place, i: nat, p: nat)
    requires PlaceOk(q) && i < 512 && First(q) + i * Step(q.level) <= p < First(q) + (i + 1) * Step(q.level)
    ensures var q0 := Place(0, p / 512);
            if q.level == 0 then q0 == q && p % 512 == i
            else if q.level == 1 then q0 == Child(q, i)
            else Parent(q0) == Child(q, i)
  {}

  /** A page behind an absent entry is not mapped. */
  lemma {:induction false} BehindEntry(m: Mem, src: Tree, q: Place, i: nat, p: nat)
    requires Hangs(m, src) && q in src && i < 512 && !Entry(m, src, q, i).v
    requires First(q) + i * Step(q.level) <= p < First(q) + (i + 1) * Step(q.level)
    ensures !Leaf(m, src, p).v
  {
    hide Hangs, Entry, First, Step;
    EntryAt(m, src, q, i);
    BehindPlaces(q, i, p);
    var q0 := Place(0, p / 512);
    ParentIn(m, src, q0);
    NoEntry(m, src, q0, p % 512);
    if q0 in src { EntryAt(m, src, q0, p % 512); }
  }

  // ----- the copy of a whole table

  /** The new tree has nothing yet where the region is, from page lo on. */
  ghost predicate Vacant(m: Mem, at: Tree, r: Span, lo: nat, hi: nat) {
    forall p :: lo <= p < hi && InPages(r, p) ==> !Leaf(m, at, p).v
  }

  lemma {:induction false} StillVacant(m: Mem, at: Tree, src: Tree, r: Span, lo: nat, mid: nat, hi: nat, m': Mem, at': Tree)
    requires Vacant(m, at, r, lo, hi) && lo <= mid && CopiedRange(m, at, src, r, lo, mid, m', at')
    ensures Vacant(m', at', r, mid, hi)
  {
    hide Leaf, Copied, SharedIn, Grew;
    forall p | mid <= p < hi && InPages(r, p) ensures !Leaf(m', at', p).v {
      assert !Scope(m, src, r, lo, mid, p);
    }
  }

  lemma {:induction false} VacantPart(m: Mem, at: Tree, r: Span, lo: nat, hi: nat, a: nat, b: nat)
    requires Vacant(m, at, r, lo, hi) && lo <= a && b <= hi
    ensures Vacant(m, at, r, a, b)
  {
    hide Leaf;
  }

  lemma {:induction false} SameVacant(m: Mem, at: Tree, r: Span, lo: nat, hi: nat, m': Mem, at': Tree)
    requires Vacant(m, at, r, lo, hi) && forall p :: Leaf(m', at', p) == Leaf(m, at, p)
    ensures Vacant(m', at', r, lo, hi)
  {
    hide Leaf;
  }

  /** In the source's tree, an entry above level 0 that touches user space points to a table, so
      the branch for huge pages is never taken. */
  lemma {:induction false} NoHuge(m: Mem, src: Tree, r: Span, q: Place, i: nat)
    requires MemOk(m) && Hangs(m, src) && q in src && i < 512 && r.end <= USER_PAGES * PAGESIZE
    requires Entry(m, src, q, i).v && Touches(r, (First(q) + i * Step(q.level)) * PAGESIZE, (First(q) + (i + 1) * Step(q.level)) * PAGESIZE)
    ensures q.level > 0 <==> Entry(m, src, q, i).IsPageTable()
    ensures q.level > 0 ==> (q.level == 2 ==> i < 508) && Child(q, i) in src && src[Child(q, i)] == Entry(m, src, q, i).ppn
  {
    hide Hangs, Entry;
    EntryAt(m, src, q, i);
  }

  /** A level 0 entry that touches the region maps one of its pages. */
  lemma {:induction false} LeafTouched(m: Mem, src: Tree, r: Span, q: Place, i: nat)
    requires MemOk(m) && Hangs(m, src) && q in src && q.level == 0 && i < 512 && SpanOk(r) && Entry(m, src, q, i).v
    requires Touches(r, (First(q) + i) * PAGESIZE, (First(q) + i + 1) * PAGESIZE)
    ensures var p := First(q) + i;
            Scope(m, src, r, p, p + 1, p) && Place(0, p / 512) == q && p % 512 == i && Leaf(m, src, p) == Entry(m, src, q, i)
  {
    hide Hangs, Entry;
    assert (First(q) + i) / 512 == q.n && (First(q) + i) % 512 == i;
    AlignedIn(r, First(q) + i);
  }

  lemma {:induction false} AlignedIn(r: Span, p: nat)
    requires SpanOk(r) && Touches(r, p * PAGESIZE, (p + 1) * PAGESIZE)
    ensures InPages(r, p)
  {}

  lemma {:induction false} SourceTable(m: Mem, at: Tree, src: Tree, q: Place, i: nat)
    requires Both(m, at, src) && q in src && i < 512
    ensures src[q] in m.tabs && |m.tabs[src[q]]| == 512 && m.tabs[src[q]][i] == Entry(m, src, q, i) && PlaceOk(q)
  {
    assert EntryOk(m, src, q, i);
  }

  lemma {:induction false} VacantAt(m: Mem, at: Tree, r: Span, lo: nat, hi: nat)
    requires Vacant(m, at, r, lo, hi) && lo < hi && InPages(r, lo)
    ensures !Leaf(m, at, lo).v
  {}

  /** One entry of CopyMemory. */
  method CopyEntry(s: VirtualMemorySpace, r: Span, pt: nat, srcPt: nat, level: nat, l: nat, i: nat, ghost q: Place, ghost src: Tree)
    returns (ok: bool)
    requires Both(s.mem.V(), s.at, src) && SpanOk(r) && r.end <= USER_PAGES * PAGESIZE && Permits(r.flags)
    requires q in s.at && q in src && s.at[q] == pt && src[q] == srcPt && q.level == level <= 2 && i < 512
    requires l == (First(q) + i * Step(level)) * PAGESIZE
    requires Vacant(s.mem.V(), s.at, r, First(q) + i * Step(level), First(q) + (i + 1) * Step(level))
    modifies s`at, s.mem
    ensures Both(s.mem.V(), s.at, src) && Grew(old(s.mem.V()), old(s.at), s.mem.V(), s.at)
    ensures ok ==> CopiedRange(old(s.mem.V()), old(s.at), src, r, First(q) + i * Step(level), First(q) + (i + 1) * Step(level), s.mem.V(), s.at)
    ensures !ok ==> s.mem.free == {}
    decreases level, 0
  {
    hide Leaf, Hangs, MemOk, LeavesApart, Both, Scope, Grew, CopiedRange, Vacant, First, Child, Entry, Permits, SpanOk;
    ghost var m, at := s.mem.V(), s.at;
    ghost var lo, hi := First(q) + i * Step(level), First(q) + (i + 1) * Step(level);
    MemOkOf(m, at, src);
    ApartOf(m, at, src);
    GrewNot(m, at);
    SourceTable(m, at, src, q, i);
    var e := s.mem.tabs[srcPt][i];
    if !(e.v && Touches(r, l, l + Step(level) * PAGESIZE)) {
      NoScope(m, src, r, q, i, lo, hi);
      CopyNothing(m, at, src, r, lo, hi);
      return true;
    }
    NoHuge(m, src, r, q, i);
    if e.IsPageTable() {
      ChildCovers(q, i, lo, hi);
      ok := CopyBelow(s, r, pt, e.ppn, level, l, i, lo, hi, q, src);
    } else {
      LeafTouched(m, src, r, q, i);
      AlignedIn(r, lo);
      VacantAt(m, at, r, lo, hi);
      ok := CopyLeaf(s, r, pt, i, e, lo, src);
      LeafGrew(m, at, s.mem.V(), s.at, src, r, lo, ok);
    }
  }

  lemma {:induction false} ChildCovers(q: Place, i: nat, lo: nat, hi: nat)
    requires 0 < q.level <= 2 && lo == First(q) + i * Step(q.level) && hi == First(q) + (i + 1) * Step(q.level)
    ensures First(Child(q, i)) == lo && lo + 512 * Step(q.level - 1) == hi && Child(q, i).level == q.level - 1
  {
    FirstChild(q, i);
  }

  /** The branch of an entry that points to a table, which covers the pages lo to hi. */
  method CopyBelow(s: VirtualMemorySpace, r: Span, pt: nat, below: nat, level: nat, l: nat, i: nat,
                   ghost lo: nat, ghost hi: nat, ghost q: Place, ghost src: Tree)
    returns (ok: bool)
    requires Both(s.mem.V(), s.at, src) && SpanOk(r) && r.end <= USER_PAGES * PAGESIZE && Permits(r.flags)
    requires q in s.at && s.at[q] == pt && q.level == level && 0 < level <= 2 && i < 512 && (level == 2 ==> i < 508)
    requires Child(q, i) in src && src[Child(q, i)] == below && Child(q, i).level == level - 1 && First(Child(q, i)) == lo && lo + 512 * Step(level - 1) == hi
    requires Vacant(s.mem.V(), s.at, r, lo, hi) && l == lo * PAGESIZE
    modifies s`at, s.mem
    ensures Both(s.mem.V(), s.at, src) && Grew(old(s.mem.V()), old(s.at), s.mem.V(), s.at)
    ensures ok ==> CopiedRange(old(s.mem.V()), old(s.at), src, r, lo, hi, s.mem.V(), s.at)
    ensures !ok ==> s.mem.free == {}
    decreases level - 1, 2
  {
    hide *;
    ghost var m, at := s.mem.V(), s.at;
    MemOkOf(m, at, src);
    var nxt;
    ok, nxt := TableFor(s, r, pt, i, lo, hi, q, src);
    if !ok {
      return;
    }
    ghost var m1, at1 := s.mem.V(), s.at;
    ok := CopyMemory(s, r, nxt, below, level - 1, l, Child(q, i), src);
    GrewThen(m, at, m1, at1, s.mem.V(), s.at);
    if ok {
      CopyJoin(m, at, src, r, lo, lo, hi, m1, at1, s.mem.V(), s.at);
    }
  }

  /** The child's table behind entry i, made when it is missing; nothing is copied by that. */
  method TableFor(s: VirtualMemorySpace, r: Span, pt: nat, i: nat, ghost lo: nat, ghost hi: nat, ghost q: Place, ghost src: Tree)
    returns (ok: bool, nxt: nat)
    requires Both(s.mem.V(), s.at, src) && q in s.at && s.at[q] == pt && 0 < q.level <= 2 && i < 512 && (q.level == 2 ==> i < 508)
    requires Vacant(s.mem.V(), s.at, r, lo, hi)
    modifies s`at, s.mem
    ensures Both(s.mem.V(), s.at, src) && Grew(old(s.mem.V()), old(s.at), s.mem.V(), s.at)
    ensures CopiedRange(old(s.mem.V()), old(s.at), src, r, lo, lo, s.mem.V(), s.at) && Vacant(s.mem.V(), s.at, r, lo, hi)
    ensures ok ==> Child(q, i) in s.at && s.at[Child(q, i)] == nxt
    ensures !ok ==> s.mem.free == {}
  {
    hide Leaf, Hangs, MemOk, LeavesApart, Both, Grew, CopiedRange, Vacant, Absent;
    ghost var m, at := s.mem.V(), s.at;
    MemOkOf(m, at, src);
    ok, nxt := s.TableBehind(pt, i, q);
    TableStep(m, at, src, r, lo, s.mem.V(), s.at);
    SameVacant(m, at, r, lo, hi, s.mem.V(), s.at);
  }

  lemma {:induction false} LeafGrew(m: Mem, at: Tree, m': Mem, at': Tree, src: Tree, r: Span, p: nat, ok: bool)
    requires Hangs(m, at) && if ok then CopiedRange(m, at, src, r, p, p + 1, m', at') else m' == m && at' == at
    ensures Grew(m, at, m', at')
  {
    hide Leaf, Hangs, Grew;
    GrewNot(m, at);
  }

  /** VirtualMemoryRegion::CopyMemory on a user region, for the table at q in both trees; l is the
      first address the table covers. */
  method CopyMemory(s: VirtualMemorySpace, r: Span, pt: nat, srcPt: nat, level: nat, l: nat, ghost q: Place, ghost src: Tree)
    returns (ok: bool)
    requires Both(s.mem.V(), s.at, src) && SpanOk(r) && r.end <= USER_PAGES * PAGESIZE && Permits(r.flags)
    requires q in s.at && q in src && s.at[q] == pt && src[q] == srcPt && q.level == level <= 2 && l == First(q) * PAGESIZE
    requires Vacant(s.mem.V(), s.at, r, First(q), First(q) + 512 * Step(level))
    modifies s`at, s.mem
    ensures Both(s.mem.V(), s.at, src) && Grew(old(s.mem.V()), old(s.at), s.mem.V(), s.at)
    ensures ok ==> CopiedRange(old(s.mem.V()), old(s.at), src, r, First(q), First(q) + 512 * Step(level), s.mem.V(), s.at)
    ensures !ok ==> s.mem.free == {}
    decreases level, 1
  {
    hide Leaf, Hangs, MemOk, LeavesApart, Both, Scope, Grew, CopiedRange, Vacant, First, Step, Permits, SpanOk;
    ghost var m0, at0 := s.mem.V(), s.at;
    ghost var lo, hi := First(q), First(q) + 512 * Step(level);
    EmptyScope(m0, src, r, lo);
    MemOkOf(m0, at0, src);
    CopyNothing(m0, at0, src, r, lo, lo);
    GrewNot(m0, at0);
    var i := 0;
    while i < 512
      invariant 0 <= i <= 512 && Both(s.mem.V(), s.at, src) && Grew(m0, at0, s.mem.V(), s.at)
      invariant CopiedRange(m0, at0, src, r, lo, lo + i * Step(level), s.mem.V(), s.at)
      invariant q in s.at && s.at[q] == pt
    {
      ghost var m, at := s.mem.V(), s.at;
      ghost var mid, nxt := lo + i * Step(level), lo + (i + 1) * Step(level);
      StepBounds(level, i);
      StillVacant(m0, at0, src, r, lo, mid, hi, m, at);
      VacantPart(m, at, r, mid, hi, mid, nxt);
      ok := CopyEntry(s, r, pt, srcPt, level, l + i * Step(level) * PAGESIZE, i, q, src);
      GrewThen(m0, at0, m, at, s.mem.V(), s.at);
      TableKept(m, at, s.mem.V(), s.at, q);
      if !ok {
        return;
      }
      CopyJoin(m0, at0, src, r, lo, mid, nxt, m, at, s.mem.V(), s.at);
      i := i + 1;
    }
    ok := true;
  }

  lemma {:induction false} EmptyScope(m: Mem, src: Tree, r: Span, lo: nat)
    ensures forall p :: !Scope(m, src, r, lo, lo, p)
  {}

  lemma {:induction false} StepBounds(level: nat, i: nat)
    requires i < 512
    ensures i * Step(level) + Step(level) == (i + 1) * Step(level) <= 512 * Step(level)
  {}

  lemma {:induction false} TableKept(m: Mem, at: Tree, m': Mem, at': Tree, q: Place)
    requires Grew(m, at, m', at') && q in at
    ensures q in at' && at'[q] == at[q]
  {}

  // ----- copying all regions

  const ALL := 512 * 262144

  predicate UserRegion(r: Span) { !Has(r.flags, VM_KERNEL) }

  /** A fault at this address goes to a user region or to none. */
  predicate UserFault(spans: seq<Span>, tval: nat) { forall r :: r in spans && r.Has(tval) ==> UserRegion(r) }

  /** Regions that can be faulted in: user regions lie in user space and permit something. */
  ghost predicate RegionsOk(spans: seq<Span>) {
    Ordered(spans) && forall k :: 0 <= k < |spans| && UserRegion(spans[k]) ==> spans[k].end <= USER_PAGES * PAGESIZE && Permits(spans[k].flags)
  }

  /** Memory m0 is still there in m. */
  ghost predicate Kept(m0: Mem, m: Mem) {
    && (forall t :: t in m0.tabs ==> t in m.tabs && m.tabs[t] == m0.tabs[t])
    && (forall g :: g in m0.data ==> g in m.data && m.data[g] == m0.data[g])
    && m.free <= m0.free
  }

  /** Page p of the parent is copied because of region r. */
  ghost predicate CopiedFor(m0: Mem, src: Tree, r: Span, p: nat) {
    UserRegion(r) && InPages(r, p) && Leaf(m0, src, p).v
  }

  /** Region r shares page g. */
  ghost predicate SharedFor(m0: Mem, src: Tree, r: Span, g: nat) {
    UserRegion(r) && SharedIn(m0, src, r, 0, ALL, g)
  }

  /** The child after the regions below j: their mapped pages are copied or shared, nothing else
      is mapped, and the parent's memory is as it was but for the references to shared pages. */
  ghost predicate Forked(m0: Mem, src: Tree, spans: seq<Span>, j: nat, m: Mem, at: Tree)
    requires j <= |spans|
  {
    && Both(m, at, src) && Kept(m0, m) && ROOT in at && (forall q :: q in at ==> at[q] in m0.free)
    && (forall p :: Leaf(m, src, p) == Leaf(m0, src, p))
    && (forall k: nat, p :: k < j && CopiedFor(m0, src, spans[k], p) ==> Copied(m0, Leaf(m0, src, p), spans[k].flags, m, Leaf(m, at, p)))
    && (forall p :: (forall k: nat :: k < j ==> !CopiedFor(m0, src, spans[k], p)) ==> !Leaf(m, at, p).v)
    && m.ref.Keys == m0.ref.Keys
    && (forall g :: NotTaken(m0, m, g) && (forall k: nat :: k < j ==> !SharedFor(m0, src, spans[k], g)) ==> m.ref[g] == m0.ref[g])
    && Paid(m0, m, at) && (forall g :: g in m.data && g !in m0.data ==> Maps(m, at, g))
  }

  /** What the child's tables and pages take, the allocator has less. */
  ghost predicate Paid(m0: Mem, m: Mem, at: Tree) {
    m.tabs.Keys == m0.tabs.Keys + at.Values && m.free + at.Values + m.data.Keys == m0.free + m0.data.Keys
  }

  /** Some virtual page is mapped to page g. */
  ghost predicate Maps(m: Mem, at: Tree, g: nat) {
    exists p :: Leaf(m, at, p).v && Leaf(m, at, p).ppn == g
  }

  lemma {:induction false} PaidMore(m0: Mem, m: Mem, at: Tree, m2: Mem, at2: Tree)
    requires Paid(m0, m, at) && Grew(m, at, m2, at2)
    ensures Paid(m0, m2, at2)
  {
    forall t | t in at.Values ensures t in at2.Values {
      var q :| q in at && at[q] == t;
      assert at2[q] == t;
    }
  }

  /** Pages taken for the child are still mapped by it after the next region. */
  lemma {:induction false} StillMaps(m0: Mem, src: Tree, spans: seq<Span>, j: nat, m: Mem, at: Tree, m2: Mem, at2: Tree, g: nat)
    requires j < |spans| && RegionsOk(spans) && Forked(m0, src, spans, j, m, at)
    requires CopiedRange(m, at, src, spans[j], 0, ALL, m2, at2) && g in m2.data && g !in m0.data
    ensures Maps(m2, at2, g)
  {
    hide Leaf, Both, Kept, SharedIn, Has, RegionsOk, Grew, Paid, InPages;
    if g in m.data {
      ForkVacant(m0, src, spans, j, m, at);
      assert Maps(m, at, g);
      var p :| Leaf(m, at, p).v && Leaf(m, at, p).ppn == g;
      assert !Scope(m, src, spans[j], 0, ALL, p);
      assert Leaf(m2, at2, p) == Leaf(m, at, p);
    } else {
      assert NewHere(m, src, spans[j], 0, ALL, m2, at2, g);
      var p :| Scope(m, src, spans[j], 0, ALL, p) && Leaf(m2, at2, p).ppn == g;
      assert Copied(m, Leaf(m, src, p), spans[j].flags, m2, Leaf(m2, at2, p));
    }
  }

  lemma {:induction false} KernelSkipped(m0: Mem, src: Tree, spans: seq<Span>, j: nat, m: Mem, at: Tree)
    requires j < |spans| && Forked(m0, src, spans, j, m, at) && !UserRegion(spans[j])
    ensures Forked(m0, src, spans, j + 1, m, at)
  {
    hide Leaf, Both, Kept, Copied, SharedIn, Has;
  }

  /** The next user region is copied. */
  lemma {:induction false} NextRegion(m0: Mem, src: Tree, spans: seq<Span>, j: nat, m: Mem, at: Tree, m2: Mem, at2: Tree)
    requires j < |spans| && RegionsOk(spans) && MemOk(m0) && Hangs(m0, src) && LeavesApart(m0, src)
    requires Forked(m0, src, spans, j, m, at) && UserRegion(spans[j]) && Both(m2, at2, src)
    requires CopiedRange(m, at, src, spans[j], 0, ALL, m2, at2)
    ensures Forked(m0, src, spans, j + 1, m2, at2)
  {
    hide Leaf, Both, Copied, SharedIn, Hangs, MemOk, LeavesApart, Has, RegionsOk, Kept, Grew, Paid, Maps, NewHere;
    var r := spans[j];
    NewFromFree(m0, m, at, m2, at2);
    forall p ensures Leaf(m2, src, p) == Leaf(m0, src, p) {}
    KeptThen(m0, src, m, at, m2, at2);
    forall k: nat, p: nat | k < j + 1 && CopiedFor(m0, src, spans[k], p)
      ensures Copied(m0, Leaf(m0, src, p), spans[k].flags, m2, Leaf(m2, at2, p))
    {
      AnyCopy(m0, src, spans, j, m, at, m2, at2, k, p);
    }
    forall p: nat | forall k: nat :: k < j + 1 ==> !CopiedFor(m0, src, spans[k], p) ensures !Leaf(m2, at2, p).v {
      NextUnmapped(m0, src, spans, j, m, at, m2, at2, p);
    }
    forall g | NotTaken(m0, m2, g) && (forall k: nat :: k < j + 1 ==> !SharedFor(m0, src, spans[k], g)) ensures m2.ref[g] == m0.ref[g] {
      NextUnshared(m0, src, spans, j, m, at, m2, at2, g);
    }
    PaidMore(m0, m, at, m2, at2);
    forall g | g in m2.data && g !in m0.data ensures Maps(m2, at2, g) {
      StillMaps(m0, src, spans, j, m, at, m2, at2, g);
    }
  }

  lemma {:induction false} NextUnmapped(m0: Mem, src: Tree, spans: seq<Span>, j: nat, m: Mem, at: Tree, m2: Mem, at2: Tree, p: nat)
    requires j < |spans| && Forked(m0, src, spans, j, m, at) && UserRegion(spans[j])
    requires CopiedRange(m, at, src, spans[j], 0, ALL, m2, at2)
    requires forall k: nat :: k < j + 1 ==> !CopiedFor(m0, src, spans[k], p)
    ensures !Leaf(m2, at2, p).v
  {
    hide Leaf, Both, Copied, SharedIn, Has, Kept, Grew, Paid, Maps, NewHere;
    assert !CopiedFor(m0, src, spans[j], p);
    assert !Scope(m, src, spans[j], 0, ALL, p);
  }

  lemma {:induction false} NextUnshared(m0: Mem, src: Tree, spans: seq<Span>, j: nat, m: Mem, at: Tree, m2: Mem, at2: Tree, g: nat)
    requires j < |spans| && Forked(m0, src, spans, j, m, at) && UserRegion(spans[j])
    requires CopiedRange(m, at, src, spans[j], 0, ALL, m2, at2) && NotTaken(m0, m2, g)
    requires forall k: nat :: k < j + 1 ==> !SharedFor(m0, src, spans[k], g)
    ensures m2.ref[g] == m0.ref[g]
  {
    hide Leaf, Both, Copied, SharedIn, Has, Paid, Maps, NewHere, CopiedFor;
    assert !SharedFor(m0, src, spans[j], g);
    SharedSame(m0, m, src, spans[j], g);
  }

  lemma {:induction false} AnyCopy(m0: Mem, src: Tree, spans: seq<Span>, j: nat, m: Mem, at: Tree, m2: Mem, at2: Tree, k: nat, p: nat)
    requires j < |spans| && RegionsOk(spans) && MemOk(m0) && Hangs(m0, src) && LeavesApart(m0, src)
    requires Forked(m0, src, spans, j, m, at) && k <= j && CopiedFor(m0, src, spans[k], p)
    requires CopiedRange(m, at, src, spans[j], 0, ALL, m2, at2)
    ensures Copied(m0, Leaf(m0, src, p), spans[k].flags, m2, Leaf(m2, at2, p))
  {
    hide Leaf, Both, Copied, SharedIn, Hangs, MemOk, LeavesApart, Has, RegionsOk, Kept, Grew, Paid, Maps, NewHere, UserRegion;
    LeafData(m0, src, p);
    if k < j {
      EarlierCopy(m0, src, spans, j, m, at, m2, at2, k, p);
    } else {
      assert Scope(m, src, spans[j], 0, ALL, p);
      LaterCopy(m0, src, spans, j, m, at, m2, at2, p);
    }
  }

  lemma {:induction false} RegionsApart(spans: seq<Span>, k: int, j: int, p: nat)
    requires RegionsOk(spans) && 0 <= k < |spans| && 0 <= j < |spans| && InPages(spans[k], p) && InPages(spans[j], p)
    ensures k == j
  {}

  /** A copy made for an earlier region survives. */
  lemma {:induction false} EarlierCopy(m0: Mem, src: Tree, spans: seq<Span>, j: nat, m: Mem, at: Tree, m2: Mem, at2: Tree, k: nat, p: nat)
    requires j < |spans| && RegionsOk(spans) && MemOk(m0) && Hangs(m0, src) && LeavesApart(m0, src)
    requires Forked(m0, src, spans, j, m, at) && k < j && CopiedFor(m0, src, spans[k], p)
    requires CopiedRange(m, at, src, spans[j], 0, ALL, m2, at2)
    ensures Copied(m0, Leaf(m0, src, p), spans[k].flags, m2, Leaf(m2, at2, p))
  {
    hide Leaf, Both, SharedIn, Hangs, MemOk, LeavesApart, Has, RegionsOk, Kept;
    var e, e' := Leaf(m0, src, p), Leaf(m, at, p);
    assert Copied(m0, e, spans[k].flags, m, e');
    if Scope(m, src, spans[j], 0, ALL, p) { RegionsApart(spans, k, j, p); }
    DataStays(m, at, m2, at2, e'.ppn);
    NotSharedBy(m0, m, src, spans, k, j, p, e'.ppn);
  }

  lemma {:induction false} NotSharedBy(m0: Mem, m: Mem, src: Tree, spans: seq<Span>, k: nat, j: nat, p: nat, g: nat)
    requires RegionsOk(spans) && k < |spans| && j < |spans| && k != j && InPages(spans[k], p) && Leaf(m0, src, p).v
    requires MemOk(m0) && Hangs(m0, src) && LeavesApart(m0, src) && forall s :: Leaf(m, src, s) == Leaf(m0, src, s)
    requires g == Leaf(m0, src, p).ppn || g in m0.free
    ensures !SharedIn(m, src, spans[j], 0, ALL, g)
  {
    hide Leaf, Hangs, RegionsOk;
    if s :| Scope(m, src, spans[j], 0, ALL, s) && Leaf(m, src, s).ppn == g {
      LeafData(m0, src, s);
      if s == p { RegionsApart(spans, k, j, p); }
      assert false;
    }
  }

  /** A copy made for the last region, seen from the start. */
  lemma {:induction false} LaterCopy(m0: Mem, src: Tree, spans: seq<Span>, j: nat, m: Mem, at: Tree, m2: Mem, at2: Tree, p: nat)
    requires j < |spans| && RegionsOk(spans) && MemOk(m0) && Hangs(m0, src) && LeavesApart(m0, src)
    requires Forked(m0, src, spans, j, m, at) && CopiedFor(m0, src, spans[j], p) && Scope(m, src, spans[j], 0, ALL, p)
    requires CopiedRange(m, at, src, spans[j], 0, ALL, m2, at2)
    ensures Copied(m0, Leaf(m0, src, p), spans[j].flags, m2, Leaf(m2, at2, p))
  {
    hide Leaf, Both, SharedIn, Hangs, LeavesApart, Has, RegionsOk;
    var e := Leaf(m0, src, p);
    assert Copied(m, e, spans[j].flags, m2, Leaf(m2, at2, p));
    LeafData(m0, src, p);
    RefOfData(m0, e.ppn);
    forall k: nat | k < j ensures !SharedFor(m0, src, spans[k], e.ppn) {
      NotSharedBy(m0, m0, src, spans, j, k, p, e.ppn);
    }
  }

  lemma {:induction false} SharedSame(m0: Mem, m: Mem, src: Tree, r: Span, g: nat)
    requires forall p :: Leaf(m, src, p) == Leaf(m0, src, p)
    ensures SharedIn(m, src, r, 0, ALL, g) == SharedIn(m0, src, r, 0, ALL, g)
  {
    hide Leaf;
    forall p: nat ensures Scope(m, src, r, 0, ALL, p) == Scope(m0, src, r, 0, ALL, p) {}
  }

  lemma {:induction false} NewFromFree(m0: Mem, m: Mem, at: Tree, m2: Mem, at2: Tree)
    requires Grew(m, at, m2, at2) && Kept(m0, m) && forall q :: q in at ==> at[q] in m0.free
    ensures forall q :: q in at2 ==> at2[q] in m0.free
    ensures ROOT in at ==> ROOT in at2
    ensures forall g :: g in m0.data ==> g in m.data
  {}

  lemma {:induction false} KeptThen(m0: Mem, src: Tree, m: Mem, at: Tree, m2: Mem, at2: Tree)
    requires Kept(m0, m) && Grew(m, at, m2, at2) && MemOk(m0) && (forall q :: q in at ==> at[q] in m0.free)
    ensures Kept(m0, m2)
  {}

  lemma {:induction false} ForkStart(m0: Mem, src: Tree, spans: seq<Span>, c: nat, boot: seq<Pte>)
    requires MemOk(m0) && Hangs(m0, src) && LeavesApart(m0, src) && c in m0.free && KernelEntries(boot)
    ensures Forked(m0, src, spans, 0, NewRoot(m0, c, boot), map[ROOT := c])
  {
    hide Leaf, Hangs, Entries, EntryOk;
    var m := NewRoot(m0, c, boot);
    NewRootOk(m0, c, boot);
    forall q | q in src ensures src[q] in m0.tabs && m.tabs[src[q]] == m0.tabs[src[q]] {
      TableLen(m0, src, q);
    }
    OtherTree(m0, m, src);
    SameApart(m0, src, m, src);
    var at := map[ROOT := c];
    assert at[ROOT] == c && at.Values == {c};
  }

  lemma {:induction false} LastSpan(s: seq<Span>, x: Span)
    requires Ordered(s + [x])
    ensures SpanOk(x) && forall i :: 0 <= i < |s| ==> SpanOk(s[i]) && s[i].end <= x.start
  {
    var t := s + [x];
    assert t[|s|] == x;
    forall i | 0 <= i < |s| ensures SpanOk(s[i]) && s[i].end <= x.start { assert t[i] == s[i]; }
  }

  lemma {:induction false} MidSpan(s: seq<Span>, x: Span, k: nat)
    requires k < |s| && Ordered(s[..k] + [x] + s[k..])
    ensures x.end <= s[k].start
  {
    var t := s[..k] + [x] + s[k..];
    assert t[k] == x && t[k + 1] == s[k];
  }

  /** A region that lies behind all others goes to the end of the list. */
  lemma {:induction false} GoesLast(s: seq<Span>, x: Span, k: nat)
    requires Ordered(s + [x]) && k <= |s| && Ordered(s[..k] + [x] + s[k..])
    ensures k == |s|
  {
    hide Ordered;
    LastSpan(s, x);
    if k < |s| {
      MidSpan(s, x, k);
      assert false;
    }
  }

  lemma {:induction false} PrefixOrdered(s: seq<Span>, k: nat)
    requires Ordered(s) && k < |s|
    ensures Ordered(s[..k] + [s[k]]) && SpanOk(s[k]) && s[..k] + [s[k]] == s[..k + 1]
    ensures forall i :: 0 <= i < k ==> !s[..k][i].Overlaps(s[k])
  {}

  /** The copy of a region is entered into the child's list. */
  method CopyRegion(s: VirtualMemorySpace, v: LinkTable.Node, ghost spans: seq<Span>, ghost j: nat)
    requires s.regions.Valid() && Ordered(spans) && j < |spans| && s.regions.Spans() == spans[..j] && SpanOf(v) == spans[j]
    modifies s.regions, s.regions.head, s.regions.list
    ensures s.regions.Valid() && s.regions.Spans() == spans[..j + 1]
    ensures forall x :: x in s.regions.list ==> x in old(s.regions.list) || fresh(x)
  {
    hide Ordered, SpanOk, LinkTable.Chain;
    var q := new LinkTable.Node(v.start, v.end, v.flags);
    PrefixOrdered(spans, j);
    ghost var was := s.regions.list;
    var fault, k := s.regions.InsertVMR(q);
    assert !fault;
    OrderedNow(s.regions);
    GoesLast(spans[..j], spans[j], k);
  }

  /** Where a region has not been copied yet, the child maps nothing. */
  lemma {:induction false} ForkVacant(m0: Mem, src: Tree, spans: seq<Span>, j: nat, m: Mem, at: Tree)
    requires j < |spans| && RegionsOk(spans) && Forked(m0, src, spans, j, m, at)
    ensures Vacant(m, at, spans[j], 0, ALL)
  {
    hide Leaf, Both, Kept, Copied, SharedIn, Has, RegionsOk;
    forall p: nat | p < ALL && InPages(spans[j], p) ensures !Leaf(m, at, p).v {
      forall k: nat | k < j ensures !CopiedFor(m0, src, spans[k], p) {
        if CopiedFor(m0, src, spans[k], p) { RegionsApart(spans, k, j, p); }
      }
    }
  }

  lemma {:induction false} ForkParts(m0: Mem, src: Tree, spans: seq<Span>, j: nat, m: Mem, at: Tree)
    requires j <= |spans| && Forked(m0, src, spans, j, m, at) && ROOT in src
    ensures Both(m, at, src) && ROOT in at
  {}

  lemma {:induction false} RegionIs(spans: seq<Span>, j: nat)
    requires RegionsOk(spans) && j < |spans|
    ensures SpanOk(spans[j]) && (UserRegion(spans[j]) ==> spans[j].end <= USER_PAGES * PAGESIZE && Permits(spans[j].flags))
  {}

  /** The pages of one region; a kernel region needs no copy. */
  method CopyPages(s: VirtualMemorySpace, src: VirtualMemorySpace, v: LinkTable.Node, ghost spans: seq<Span>, ghost j: nat, ghost m0: Mem)
    returns (ok: bool)
    requires s.mem == src.mem && s != src && j < |spans| && SpanOf(v) == spans[j] && RegionsOk(spans)
    requires MemOk(m0) && Hangs(m0, src.at) && LeavesApart(m0, src.at) && ROOT in src.at && src.at[ROOT] == src.pdt
    requires Forked(m0, src.at, spans, j, s.mem.V(), s.at) && ROOT in s.at && s.at[ROOT] == s.pdt
    modifies s`at, s.mem
    ensures Both(s.mem.V(), s.at, src.at) && ROOT in s.at && s.at[ROOT] == s.pdt
    ensures ok ==> Forked(m0, src.at, spans, j + 1, s.mem.V(), s.at)
    ensures !ok ==> s.mem.free == {}
  {
    hide Ordered, SpanOk, Hangs, MemOk, Leaf, Forked, LeavesApart, Both, CopiedRange, RegionsOk, Vacant, Grew, Permits, Has;
    ghost var m, at := s.mem.V(), s.at;
    ForkParts(m0, src.at, spans, j, m, at);
    if Has(v.flags, VM_KERNEL) {
      KernelSkipped(m0, src.at, spans, j, m, at);
      return true;
    }
    RegionIs(spans, j);
    ForkVacant(m0, src.at, spans, j, m, at);
    ok := CopyMemory(s, Span(v.start, v.end, v.flags), s.pdt, src.pdt, 2, 0, ROOT, src.at);
    TableKept(m, at, s.mem.V(), s.at, ROOT);
    if ok {
      NextRegion(m0, src.at, spans, j, m, at, s.mem.V(), s.at);
    }
  }

  lemma {:induction false} OrderedNow(l: RegionList)
    requires l.Valid()
    ensures Ordered(l.Spans())
  {}

  /** Parent and child as address spaces of their own. */
  lemma {:induction false} BothParts(m: Mem, at: Tree, src: Tree)
    requires Both(m, at, src)
    ensures MemOk(m) && Hangs(m, at) && LeavesApart(m, at) && Hangs(m, src) && LeavesApart(m, src)
  {}

  /** The child's list is made of objects that the parent's does not know. */
  ghost predicate Separate(a: RegionList, b: RegionList)
    reads a, b
  {
    a != b && a.head != b.head && a.head !in b.list && b.head !in a.list && forall x :: x in a.list ==> x !in b.list
  }

  /** One region of the parent. */
  method CopyOne(s: VirtualMemorySpace, src: VirtualMemorySpace, p: LinkTable.Node, ghost spans: seq<Span>, ghost j: nat, ghost m0: Mem)
    returns (ok: bool)
    requires src.regions.Valid() && RegionsOk(spans) && s.mem == src.mem && s != src && src.regions.Spans() == spans
    requires MemOk(m0) && Hangs(m0, src.at) && LeavesApart(m0, src.at) && ROOT in src.at && src.at[ROOT] == src.pdt
    requires s.regions.Valid() && Separate(s.regions, src.regions) && j < |spans| && p == src.regions.list[j]
    requires s.regions.Spans() == spans[..j] && Forked(m0, src.at, spans, j, s.mem.V(), s.at) && ROOT in s.at && s.at[ROOT] == s.pdt
    modifies s`at, s.mem, s.regions, s.regions.head, s.regions.list
    ensures Both(s.mem.V(), s.at, src.at) && ROOT in s.at && s.at[ROOT] == s.pdt
    ensures src.regions.Valid() && src.regions.Spans() == spans && src.regions.list == old(src.regions.list)
    ensures s.regions.Valid() && s.regions.Spans() == spans[..j + 1] && Separate(s.regions, src.regions)
    ensures forall x :: x in s.regions.list ==> x in old(s.regions.list) || fresh(x)
    ensures ok ==> Forked(m0, src.at, spans, j + 1, s.mem.V(), s.at)
    ensures !ok ==> s.mem.free == {}
  {
    hide RegionList.Valid, Ordered, SpanOk, LinkTable.Chain, Hangs, MemOk, Leaf, Forked, LeavesApart, Both, CopiedRange, RegionsOk, Vacant, Grew;
    OrderedNow(src.regions);
    ghost var list := src.regions.list;
    forall i | 0 <= i < |list| ensures list[i] !in s.regions.list && list[i] != s.regions.head {
      assert list[i] in list;
    }
    CopyRegion(s, p, spans, j);
    assert forall i :: 0 <= i < |list| ==> SpanOf(list[i]) == spans[i];
    assert src.regions.Spans() == spans;
    ok := CopyPages(s, src, p, spans, j, m0);
  }

  /** The walk over the parent's regions. */
  method CopyAll(s: VirtualMemorySpace, src: VirtualMemorySpace, ghost m0: Mem) returns (ok: bool)
    requires src.regions.Valid() && RegionsOk(src.regions.Spans()) && s.mem == src.mem && s != src
    requires MemOk(m0) && Hangs(m0, src.at) && LeavesApart(m0, src.at) && ROOT in src.at && src.at[ROOT] == src.pdt
    requires s.regions.Valid() && s.regions.list == [] && Separate(s.regions, src.regions)
    requires ROOT in s.at && s.at[ROOT] == s.pdt
    requires Forked(m0, src.at, src.regions.Spans(), 0, s.mem.V(), s.at)
    modifies s`at, s.mem, s.regions, s.regions.head
    ensures Both(s.mem.V(), s.at, src.at) && ROOT in s.at && s.at[ROOT] == s.pdt
    ensures src.regions.Valid() && src.regions.Spans() == old(src.regions.Spans())
    ensures ok ==> s.regions.Valid() && s.regions.Spans() == src.regions.Spans()
    ensures src.regions.list == old(src.regions.list) && forall x :: x in s.regions.list ==> fresh(x)
    ensures ok ==> Forked(m0, src.at, src.regions.Spans(), |src.regions.Spans()|, s.mem.V(), s.at)
    ensures !ok ==> s.mem.free == {}
  {
    hide RegionList.Valid, Separate, Ordered, SpanOk, LinkTable.Chain, Hangs, MemOk, Leaf, Forked, LeavesApart, Both, CopiedRange, RegionsOk, Vacant, Grew;
    ghost var spans, list := src.regions.Spans(), src.regions.list;
    var p := src.regions.head.nxt;
    FirstNode(src.regions);
    OrderedNow(src.regions);
    ForkParts(m0, src.at, spans, 0, s.mem.V(), s.at);
    ghost var j := 0;
    while p != null
      invariant j <= |spans| && p == LinkTable.At(list, j) && src.regions.list == list
      invariant src.regions.Valid() && src.regions.Spans() == spans && Separate(s.regions, src.regions)
      invariant s.regions.Valid() && s.regions.Spans() == spans[..j]
      invariant forall x :: x in s.regions.list ==> fresh(x)
      invariant Forked(m0, src.at, spans, j, s.mem.V(), s.at) && ROOT in s.at && s.at[ROOT] == s.pdt
      invariant Both(s.mem.V(), s.at, src.at)
      decreases |spans| - j
    {
      forall i | 0 <= i < |s.regions.list| ensures fresh(s.regions.list[i]) {
        assert s.regions.list[i] in s.regions.list;
      }
      ok := CopyOne(s, src, p, spans, j, m0);
      if !ok {
        return;
      }
      NextNode(src.regions, j);
      p := p.nxt;
      j := j + 1;
    }
    ok := true;
  }

  /** VirtualMemorySpace::CreateFrom: every region is entered into the child and its mapped pages
      are copied; it fails only when the allocator runs out of pages. */
  method CreateFrom(src: VirtualMemorySpace, boot: seq<Pte>) returns (ok: bool, s: VirtualMemorySpace)
    requires src.Valid() && RegionsOk(src.regions.Spans()) && KernelEntries(boot) && src.mem.free != {}
    modifies src.mem
    ensures src.Valid() && src.at == old(src.at) && fresh(s) && s.mem == src.mem && src.regions.list == old(src.regions.list)
    ensures fresh(s.regions) && fresh(s.regions.head) && forall x :: x in s.regions.list ==> fresh(x)
    ensures ok ==> s.Valid() && s.regions.Spans() == src.regions.Spans()
    ensures ok ==> Forked(old(src.mem.V()), src.at, src.regions.Spans(), |src.regions.Spans()|, src.mem.V(), s.at)
    ensures !ok ==> src.mem.free == {}
  {
    hide Ordered, SpanOk, LinkTable.Chain, Hangs, MemOk, Leaf, Forked, LeavesApart, Both, CopiedRange, RegionsOk, Vacant, Grew;
    ghost var m0 := src.mem.V();
    RootIn(m0, src.at);
    s := new VirtualMemorySpace(src.mem, boot);
    ForkStart(m0, src.at, src.regions.Spans(), s.pdt, boot);
    ok := CopyAll(s, src, m0);
    BothParts(s.mem.V(), s.at, src.at);
  }

  /** Fork isolation, on every page whose walk goes through user space: the parent translates as
      before; a private page the parent had mapped is mapped in the child to another page with equal
      contents, which the parent does not map anywhere; a shared page is the same page with one
      reference more; the child has nothing else. In both, the hardware takes the entry exactly when the
      address is canonical and its permissions are not reserved. */
  lemma {:induction false} ForkIsolates(m0: Mem, src: Tree, spans: seq<Span>, m: Mem, at: Tree, k: nat, p: nat)
    requires Forked(m0, src, spans, |spans|, m, at) && RegionsOk(spans) && MemOk(m0) && Hangs(m0, src) && WalkSlot(p) < USER_PAGES
    ensures ROOT in at && ROOT in src && Walk(m, src[ROOT], p) == Walk(m0, src[ROOT], p)
    ensures k < |spans| && CopiedFor(m0, src, spans[k], WalkSlot(p)) ==>
              var q, flags := WalkSlot(p), spans[k].flags;
              var e, e' := Leaf(m0, src, q), Leaf(m, at, q);
              Walk(m0, src[ROOT], p) == Seen(p, e) && e' == PteOf(flags, e'.ppn)
              && Walk(m, at[ROOT], p) == (if Canonical(p) && Grants(flags) then Mapped(e') else Nothing)
              && e.ppn in m0.data && e'.ppn in m.data && m.data[e'.ppn] == m0.data[e.ppn] && e'.ppn in m.ref
              && if flags / 64 % 2 == 1 then e'.ppn == e.ppn && e.ppn in m0.ref && m.ref[e.ppn] == m0.ref[e.ppn] + 1
                 else m.ref[e'.ppn] == 1 && e'.ppn in m0.free && forall s :: Leaf(m, src, s).v ==> Leaf(m, src, s).ppn != e'.ppn
    ensures (forall j: nat :: j < |spans| ==> !CopiedFor(m0, src, spans[j], WalkSlot(p))) ==> Walk(m, at[ROOT], p) == Nothing
  {
    hide Leaf, Hangs, MemOk, Both, RegionsOk, Has, Walk, SharedFor, InPages, UserRegion, Canonical, WalkSlot;
    RootIn(m0, src);
    BothParts(m, at, src);
    var q := WalkSlot(p);
    WalkIsLeaf(m0, src, p);
    WalkIsLeaf(m, src, p);
    WalkIsLeaf(m, at, p);
    forall s | Leaf(m0, src, s).v ensures Leaf(m0, src, s).ppn !in m0.free {
      LeafData(m0, src, s);
      RefOfData(m0, Leaf(m0, src, s).ppn);
    }
    if k < |spans| && CopiedFor(m0, src, spans[k], q) {
      LeafData(m0, src, q);
      assert Copied(m0, Leaf(m0, src, q), spans[k].flags, m, Leaf(m, at, q));
      NewLeafData(m, at, q);
      SeenIs(p, spans[k].flags, Leaf(m, at, q).ppn);
      FlagBits(spans[k].flags);
    }
  }

  lemma {:induction false} FirstNode(l: RegionList)
    requires l.Valid()
    ensures l.head.nxt == LinkTable.At(l.list, 0)
  {
    assert LinkTable.Linked([l.head] + l.list, 0);
  }

  lemma {:induction false} NextNode(l: RegionList, j: nat)
    requires l.Valid() && j < |l.list|
    ensures l.list[j].nxt == LinkTable.At(l.list, j + 1)
  {
    assert LinkTable.Linked([l.head] + l.list, j + 1);
  }
}
