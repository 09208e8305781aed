/** Address spaces: demand paging over the regions, fork by copying, and teardown. */
module Vmm {
  import opened PageTree
  import opened Regions
  import LinkTable

  const VM_READ := 1
  const VM_WRITE := 2
  const VM_EXEC := 4
  const VM_KERNEL := 32
  const VM_SHARED := 64

  predicate Has(flags: nat, bit: nat)
    requires bit > 0
  {
    flags / bit % 2 == 1
  }

  /** The entry that SetPage writes with ToPageEntryFlags of a region. */
  function PteOf(flags: nat, ppn: nat): Pte {
    Pte(true, Has(flags, VM_READ), Has(flags, VM_WRITE), Has(flags, VM_EXEC), !Has(flags, VM_KERNEL), ppn)
  }

  /** A region whose pages can be told from tables. */
  predicate Permits(flags: nat) { Has(flags, VM_READ) || Has(flags, VM_WRITE) || Has(flags, VM_EXEC) }

  /** The flag bits of a region in its number. */
  lemma {:induction false} FlagBits(flags: nat)
    ensures Has(flags, VM_READ) <==> flags % 2 == 1
    ensures Has(flags, VM_WRITE) <==> flags / 2 % 2 == 1
    ensures Has(flags, VM_EXEC) <==> flags / 4 % 2 == 1
    ensures Has(flags, VM_KERNEL) <==> flags / 32 % 2 == 1
    ensures Has(flags, VM_SHARED) <==> flags / 64 % 2 == 1
  {}

  /** Without a permission bit a page's entry reads as a pointer to a table. */
  lemma {:induction false} NeedsPermission(flags: nat, ppn: nat)
    ensures PteOf(flags, ppn).IsPageTable() <==> !Permits(flags)
    ensures Permits(flags) <==> flags % 8 != 0
  {
    hide Has;
    FlagBits(flags);
    LowBits(flags);
  }

  lemma {:induction false} LowBits(f: nat)
    ensures f % 8 == f % 2 + 2 * (f / 2 % 2) + 4 * (f / 4 % 2)
  {
    var a, b := f / 2, f / 4;
    Halves(f, a, b);
    Remains(f % 2 + 2 * (a % 2) + 4 * (b % 2), b / 2, f);
  }

  lemma {:induction false} Halves(f: nat, a: nat, b: nat)
    requires a == f / 2 && b == f / 4
    ensures f == f % 2 + 2 * (a % 2) + 4 * (b % 2) + 8 * (b / 2)
  {
    assert b == a / 2;
  }

  lemma {:induction false} Remains(r: nat, q: nat, f: nat)
    requires f == r + 8 * q && r < 8
    ensures f % 8 == r
  {}

  /** Physical memory. */
  class Memory {
    var tabs: map<nat, seq<Pte>>
    var data: map<nat, Bytes>
    var ref: map<nat, nat>
    var free: set<nat>

    ghost function V(): Mem
      reads this
    {
      Mem(tabs, data, ref, free)
    }

    /** A page of the allocator, cleared as a table. */
    method AllocTable() returns (ok: bool, c: nat)
      modifies this
      ensures ok <==> old(free) != {}
      ensures ok ==> c in old(free) && V() == NewTable(old(V()), c)
      ensures !ok ==> V() == old(V())
    {
      if free == {} {
        return false, 0;
      }
      c :| c in free;
      free := free - {c};
      tabs := tabs[c := Empty()];
      ok := true;
    }

    /** A page of the allocator with contents b. */
    method AllocData(b: Bytes) returns (ok: bool, c: nat)
      modifies this
      ensures ok <==> old(free) != {}
      ensures ok ==> c in old(free) && V() == NewData(old(V()), c, b)
      ensures !ok ==> V() == old(V())
    {
      if free == {} {
        return false, 0;
      }
      c :| c in free;
      free := free - {c};
      data := data[c := b];
      ok := true;
    }

    method SetEntry(t: nat, i: nat, e: Pte)
      requires t in tabs && i < |tabs[t]|
      modifies this
      ensures V() == WithEntry(old(V()), t, i, e)
    {
      tabs := tabs[t := tabs[t][i := e]];
    }

    /** Entry::SetPage: the page's reference count goes up. */
    method SetPage(t: nat, i: nat, page: nat, flags: nat)
      requires t in tabs && i < |tabs[t]|
      modifies this
      ensures V() == WithEntry(RefTo(old(V()), page), t, i, PteOf(flags, page))
    {
      ref := ref[page := (if page in ref then ref[page] else 0) + 1];
      SetEntry(t, i, PteOf(flags, page));
    }
  }

  /** Strays: the root entry on the way is a large page of the kernel, and the source goes on with
      it as with a table. */
  datatype Outcome = Ok | AccessInvalidVMR | OutOfMemory | Fault | Strays

  /** What a step leaves alone: data, references and tables outside the tree `at`, while pages
      only leave the allocator. */
  ghost predicate Grew(m: Mem, at: Tree, m': Mem, at': Tree) {
    && (forall q :: q in at ==> q in at' && at'[q] == at[q])
    && (forall q :: q in at' && q !in at ==> at'[q] in m.free)
    && (forall t :: t in m.tabs && t !in at.Values ==> t in m'.tabs && m'.tabs[t] == m.tabs[t])
    && (forall g :: g in m.data ==> g in m'.data && m'.data[g] == m.data[g])
    && m'.free <= m.free
    && m'.tabs.Keys == m.tabs.Keys + at'.Values
    && m'.free + at'.Values + m'.data.Keys == m.free + at.Values + m.data.Keys
  }

  lemma {:induction false} GrewThen(m: Mem, at: Tree, m1: Mem, at1: Tree, m2: Mem, at2: Tree)
    requires Grew(m, at, m1, at1) && Grew(m1, at1, m2, at2) && MemOk(m)
    ensures Grew(m, at, m2, at2)
  {
    forall t | t in m.tabs && t !in at.Values ensures t !in at1.Values {}
  }

  /** Page p now maps to the fresh page c with contents b; no other page's mapping changed. */
  ghost predicate MappedNew(m: Mem, at: Tree, m': Mem, at': Tree, p: nat, flags: nat, b: Bytes) {
    var c := Leaf(m', at', p).ppn;
    && Leaf(m', at', p) == PteOf(flags, c) && c in m.free && c in m'.data && m'.data[c] == b && c in m'.ref && m'.ref[c] == 1
    && m'.data.Keys == m.data.Keys + {c}
    && (forall s :: s != p ==> Leaf(m', at', s) == Leaf(m, at, s))
    && m'.ref.Keys == m.ref.Keys && (forall g :: g in m.ref && g != c ==> m'.ref[g] == m.ref[g])
  }

  /** The tables on the way to page p that are missing, and with the page itself what a fault there
      takes from the allocator. */
  ghost function Missing(at: Tree, p: nat): nat {
    Absent(at, Place(1, Vpn(p, 2))) + Absent(at, Place(0, p / 512))
  }

  ghost function Absent(at: Tree, q: Place): nat { if q in at then 0 else 1 }

  /** The page whose entry a fault at this address goes to, by the three masked table indices. */
  function FaultSlot(tval: nat): (p: nat)
    ensures tval < USER_PAGES * PAGESIZE ==> p == tval / PAGESIZE
  {
    WalkSlot(tval / PAGESIZE)
  }

  /** The region that a fault goes to, if any, permits something, at least in user space. */
  ghost predicate Grantable(spans: seq<Span>, tval: nat) {
    var k := Scan(spans, tval);
    0 <= k < |spans| && FaultSlot(tval) < USER_PAGES ==> Permits(spans[k].flags)
  }

  class VirtualMemorySpace {
    const mem: Memory
    const regions: RegionList
    var pdt: nat
    ghost var at: Tree

    ghost predicate Valid()
      reads this, mem, regions, regions.head, regions.list
    {
      && MemOk(mem.V()) && Hangs(mem.V(), at) && LeavesApart(mem.V(), at) && at[ROOT] == pdt && regions.Valid()
    }

    /** Init and CreatePDT; the source takes for granted that a page is left. */
    constructor (mem: Memory, boot: seq<Pte>)
      requires MemOk(mem.V()) && KernelEntries(boot) && mem.free != {}
      modifies mem
      ensures Valid() && this.mem == mem && regions.list == [] && fresh(regions) && fresh(regions.head)
      ensures at == map[ROOT := pdt] && pdt in old(mem.free) && mem.V() == NewRoot(old(mem.V()), pdt, boot)
      ensures forall p :: !Leaf(mem.V(), at, p).v
    {
      this.mem := mem;
      regions := new RegionList();
      var c :| c in mem.free;
      pdt := c;
      at := map[ROOT := c];
      new;
      NewRootOk(mem.V(), c, boot);
      mem.free := mem.free - {c};
      mem.tabs := mem.tabs[c := Empty()[..508] + boot];
    }

    /** The table behind entry i of table t, hung into the tree when there is none. */
    method TableBehind(t: nat, i: nat, ghost q: Place) returns (ok: bool, c: nat)
      requires MemOk(mem.V()) && Hangs(mem.V(), at) && q in at && at[q] == t && 0 < q.level && i < 512
      requires q.level == 2 ==> i < 508
      modifies this`at, mem
      ensures MemOk(mem.V()) && Hangs(mem.V(), at) && Grew(old(mem.V()), old(at), mem.V(), at)
      ensures ok ==> Child(q, i) in at && at[Child(q, i)] == c
      ensures !ok ==> mem.free == {} && at == old(at) && mem.V() == old(mem.V()) && Child(q, i) !in at
      ensures at == if ok && Child(q, i) !in old(at) then old(at)[Child(q, i) := c] else old(at)
      ensures ok <==> |old(mem.free)| >= Absent(old(at), Child(q, i))
      ensures ok ==> |mem.free| == |old(mem.free)| - Absent(old(at), Child(q, i))
      ensures forall p :: Leaf(mem.V(), at, p) == Leaf(old(mem.V()), old(at), p)
      ensures mem.ref == old(mem.ref) && mem.data == old(mem.data)
    {
      hide MemOk, Hangs, EntryOk, Grew;
      ghost var m := mem.V();
      GrewNot(m, at);
      EntryAt(m, at, q, i);
      TableLen(m, at, q);
      var e := mem.tabs[t][i];
      if !e.v {
        NoChild(m, at, q, i);
        ok, c := mem.AllocTable();
        if !ok {
          return;
        }
        AddTableOk(m, at, q, i, c);
        NotItself(m, at, q, c);
        AddTableGrew(m, at, q, i, c);
        mem.SetEntry(t, i, SetTable(e, c));
        at := at[Child(q, i) := c];
      } else {
        ValidChild(m, at, q, i);
        return true, e.ppn;
      }
    }

    /** The last step of a fault: page p gets a fresh page with contents b. */
    method MapNew(t: nat, i: nat, ghost p: nat, flags: nat, b: Bytes) returns (ok: bool)
      requires MemOk(mem.V()) && Hangs(mem.V(), at) && LeavesApart(mem.V(), at)
      requires i == p % 512 && Place(0, p / 512) in at && at[Place(0, p / 512)] == t && !Leaf(mem.V(), at, p).v && Permits(flags)
      modifies mem
      ensures MemOk(mem.V()) && Hangs(mem.V(), at) && LeavesApart(mem.V(), at) && Grew(old(mem.V()), at, mem.V(), at)
      ensures ok ==> MappedNew(old(mem.V()), at, mem.V(), at, p, flags, b)
      ensures ok <==> |old(mem.free)| > 0
      ensures !ok ==> mem.free == {} && mem.V() == old(mem.V())
    {
      hide MemOk, Hangs, EntryOk, Leaf, LeavesApart, Grew;
      ghost var m := mem.V();
      GrewNot(m, at);
      var c;
      ok, c := mem.AllocData(b);
      if !ok {
        return;
      }
      TableLen(m, at, Place(0, p / 512));
      NewPageOk(m, at, c, b);
      NotItself(m, at, Place(0, p / 512), c);
      ghost var m1 := NewPage(m, c, b);
      SetLeafOk(m1, at, p, PteOf(flags, c));
      mem.SetPage(t, i, c, flags);
      assert mem.V() == WithEntry(m1, t, p % 512, PteOf(flags, c));
      NewLeafGrew(m, at, p, c, PteOf(flags, c), b);
      FreshApart(m, m1, mem.V(), at, p, c);
    }

    /** SolvePageFault: on success exactly the faulting page's slot is mapped in addition, to a fresh
        zeroed page with its region's flags. */
    method SolvePageFault(tval: nat) returns (r: Outcome)
      requires Valid() && Grantable(regions.Spans(), tval)
      modifies this`at, mem, regions`cache
      ensures Valid() && Grew(old(mem.V()), old(at), mem.V(), at)
      ensures regions.list == old(regions.list)
      ensures r == AccessInvalidVMR <==> Scan(regions.Spans(), tval) < 0
      ensures r == Strays <==> Scan(regions.Spans(), tval) >= 0 && USER_PAGES <= FaultSlot(tval)
      ensures r == Ok ==> var k := Scan(regions.Spans(), tval);
                          0 <= k < |regions.Spans()| && FaultSlot(tval) < USER_PAGES &&
                          MappedNew(old(mem.V()), old(at), mem.V(), at, FaultSlot(tval), regions.Spans()[k].flags, Zeroes())
      ensures r == Ok ==> var c := Leaf(mem.V(), at, FaultSlot(tval)).ppn;
                          c in mem.data && |mem.data[c]| == 0x1000 && forall i :: 0 <= i < 0x1000 ==> mem.data[c][i] == 0
      ensures r == Fault <==> Scan(regions.Spans(), tval) >= 0 && Leaf(old(mem.V()), old(at), FaultSlot(tval)).v
      ensures r == OutOfMemory <==> Scan(regions.Spans(), tval) >= 0 && FaultSlot(tval) < USER_PAGES
                                    && !Leaf(old(mem.V()), old(at), FaultSlot(tval)).v
                                    && |old(mem.free)| <= Missing(old(at), FaultSlot(tval))
      ensures r == OutOfMemory ==> mem.free == {}
      ensures r == Strays ==> mem.V() == old(mem.V()) && at == old(at)
      ensures r != Ok ==> mem.ref == old(mem.ref) && mem.data == old(mem.data)
                          && forall p :: Leaf(mem.V(), at, p) == Leaf(old(mem.V()), old(at), p)
    {
      hide MemOk, Hangs, EntryOk, Leaf, LeavesApart, LinkTable.Chain, Ordered, Grew, Missing, Vpn, WalkSlot, Walk;
      ghost var m := mem.V();
      ScanIs(regions.Spans(), tval);
      GrewNot(m, at);
      NoUpperLeaf(m, at, FaultSlot(tval));
      var vmr := regions.FindVMR(tval);
      if vmr == null {
        return AccessInvalidVMR;
      }
      RootTable(m, at);
      FaultStrays(m, at, tval / PAGESIZE);
      var e2 := mem.tabs[pdt][Vpn(tval / PAGESIZE, 2)];
      if e2.v && !e2.IsPageTable() {
        return Strays;
      }
      r := FaultIn(FaultSlot(tval), vmr.flags);
    }

    /** The level 1 table on the way to page p's entry. */
    method FirstTable(p: nat) returns (ok: bool, pt2: nat)
      requires Valid() && p < USER_PAGES
      modifies this`at, mem
      ensures Valid() && Grew(old(mem.V()), old(at), mem.V(), at)
      ensures ok ==> Place(1, Vpn(p, 2)) in at && at[Place(1, Vpn(p, 2))] == pt2
      ensures !ok ==> mem.free == {} && !Leaf(mem.V(), at, p).v
      ensures ok <==> |old(mem.free)| >= Absent(old(at), Place(1, Vpn(p, 2)))
      ensures ok ==> |mem.free| == |old(mem.free)| - Absent(old(at), Place(1, Vpn(p, 2)))
      ensures Absent(at, Place(0, p / 512)) == Absent(old(at), Place(0, p / 512))
      ensures forall s :: Leaf(mem.V(), at, s) == Leaf(old(mem.V()), old(at), s)
      ensures mem.ref == old(mem.ref) && mem.data == old(mem.data)
    {
      hide RegionList.Valid, MemOk, Hangs, EntryOk, Leaf, LeavesApart, Grew, Child, Vpn, Absent;
      ghost var m, at0 := mem.V(), at;
      WalkPlaces(p);
      RootIn(m, at);
      ok, pt2 := TableBehind(pdt, Vpn(p, 2), ROOT);
      SameApart(m, at0, mem.V(), at);
      RootStays(m, at0, mem.V(), at);
      AbsentSame(at0, at, Place(0, p / 512));
      if !ok {
        NoLeaf(mem.V(), at, p);
      }
    }

    /** The level 0 table behind it. */
    method SecondTable(p: nat, pt2: nat) returns (ok: bool, pt1: nat)
      requires Valid() && p < USER_PAGES && Place(1, Vpn(p, 2)) in at && at[Place(1, Vpn(p, 2))] == pt2
      modifies this`at, mem
      ensures Valid() && Grew(old(mem.V()), old(at), mem.V(), at)
      ensures ok ==> Place(0, p / 512) in at && at[Place(0, p / 512)] == pt1
      ensures !ok ==> mem.free == {} && !Leaf(mem.V(), at, p).v
      ensures ok <==> |old(mem.free)| >= Absent(old(at), Place(0, p / 512))
      ensures ok ==> |mem.free| == |old(mem.free)| - Absent(old(at), Place(0, p / 512))
      ensures forall s :: Leaf(mem.V(), at, s) == Leaf(old(mem.V()), old(at), s)
      ensures mem.ref == old(mem.ref) && mem.data == old(mem.data)
    {
      hide RegionList.Valid, MemOk, Hangs, EntryOk, Leaf, LeavesApart, Grew, Child, Vpn, Absent;
      ghost var m, at0 := mem.V(), at;
      WalkPlaces(p);
      RootIn(m, at);
      ok, pt1 := TableBehind(pt2, Vpn(p, 1), Place(1, Vpn(p, 2)));
      SameApart(m, at0, mem.V(), at);
      RootStays(m, at0, mem.V(), at);
      if !ok {
        NoLeaf(mem.V(), at, p);
      }
    }

    lemma {:induction false} ValidMem()
      requires Valid()
      ensures MemOk(mem.V())
    {}

    /** The two tables on the way to page p's entry. */
    method TablesTo(p: nat) returns (ok: bool, pt1: nat)
      requires Valid() && p < USER_PAGES
      modifies this`at, mem
      ensures Valid() && Grew(old(mem.V()), old(at), mem.V(), at)
      ensures ok ==> Place(0, p / 512) in at && at[Place(0, p / 512)] == pt1
      ensures !ok ==> mem.free == {} && !Leaf(mem.V(), at, p).v
      ensures ok <==> |old(mem.free)| >= Missing(old(at), p)
      ensures ok ==> |mem.free| == |old(mem.free)| - Missing(old(at), p)
      ensures forall s :: Leaf(mem.V(), at, s) == Leaf(old(mem.V()), old(at), s)
      ensures mem.ref == old(mem.ref) && mem.data == old(mem.data)
    {
      hide Valid, MemOk, Leaf, Grew, Vpn, Absent;
      ghost var m, at0 := mem.V(), at;
      ValidMem();
      var pt2;
      ok, pt2 := FirstTable(p);
      if !ok {
        return false, 0;
      }
      ghost var m1, at1 := mem.V(), at;
      ok, pt1 := SecondTable(p, pt2);
      GrewThen(m, at0, m1, at1, mem.V(), at);
    }

    method FaultIn(p: nat, flags: nat) returns (r: Outcome)
      requires Valid() && p < USER_PAGES && Permits(flags)
      modifies this`at, mem
      ensures Valid() && Grew(old(mem.V()), old(at), mem.V(), at)
      ensures r == Ok || r == Fault || r == OutOfMemory
      ensures r == Ok ==> MappedNew(old(mem.V()), old(at), mem.V(), at, p, flags, Zeroes())
      ensures r == Fault <==> Leaf(old(mem.V()), old(at), p).v
      ensures r == OutOfMemory <==> !Leaf(old(mem.V()), old(at), p).v && |old(mem.free)| <= Missing(old(at), p)
      ensures r == OutOfMemory ==> mem.free == {}
      ensures r != Ok ==> mem.ref == old(mem.ref) && mem.data == old(mem.data)
                          && forall s :: Leaf(mem.V(), at, s) == Leaf(old(mem.V()), old(at), s)
    {
      hide RegionList.Valid, MemOk, Hangs, EntryOk, Leaf, LeavesApart, Grew, MappedNew, Permits, Zeroes, Missing;
      ghost var m, at0 := mem.V(), at;
      var ok, pt1 := TablesTo(p);
      if !ok {
        return OutOfMemory;
      }
      ghost var m2 := mem.V();
      TableLen(m2, at, Place(0, p / 512));
      LeafIs(m2, at, p);
      RootIn(m2, at);
      if mem.tabs[pt1][Vpn(p, 0)].v {
        return Fault;
      }
      r := MapLast(pt1, p, flags);
      GrewThen(m, at0, m2, at, mem.V(), at);
      if r == Ok {
        MappedSince(m, at0, m2, at, mem.V(), at, p, flags, Zeroes());
      }
    }

    /** The page itself. */
    method MapLast(pt1: nat, p: nat, flags: nat) returns (r: Outcome)
      requires Valid() && Place(0, p / 512) in at && at[Place(0, p / 512)] == pt1 && !Leaf(mem.V(), at, p).v && Permits(flags)
      modifies mem
      ensures Valid() && Grew(old(mem.V()), at, mem.V(), at)
      ensures r == if |old(mem.free)| == 0 then OutOfMemory else Ok
      ensures r == Ok ==> MappedNew(old(mem.V()), at, mem.V(), at, p, flags, Zeroes())
      ensures r != Ok ==> mem.free == {} && mem.V() == old(mem.V())
    {
      hide RegionList.Valid, MemOk, Hangs, EntryOk, Leaf, LeavesApart, Grew, MappedNew, Permits, Zeroes;
      var ok := MapNew(pt1, Vpn(p, 0), p, flags, Zeroes());
      r := if ok then Ok else OutOfMemory;
    }
  }

  /** The region of the kernel: from the link address to the end of physical memory. */
  function KernelRegion(): (r: Span)
    ensures SpanOk(r) && Has(r.flags, VM_KERNEL)
    ensures forall tval: nat :: r.Has(tval) ==> USER_PAGES <= FaultSlot(tval) && Canonical(tval / PAGESIZE)
  {
    Span(0xFFFF_FFFF_8020_0000, 0xFFFF_FFFF_8800_0000, VM_KERNEL + VM_READ + VM_WRITE + VM_EXEC)
  }

  /** VirtualMemorySpace::Create: an empty page table and the kernel's region. */
  method Create(mem: Memory, boot: seq<Pte>) returns (s: VirtualMemorySpace)
    requires MemOk(mem.V()) && KernelEntries(boot) && mem.free != {}
    modifies mem
    ensures s.Valid() && s.mem == mem && s.regions.Spans() == [KernelRegion()] == [Span(0xFFFF_FFFF_8020_0000, 0xFFFF_FFFF_8800_0000, 39)]
    ensures fresh(s) && fresh(s.regions) && fresh(s.regions.head) && forall x :: x in s.regions.list ==> fresh(x)
    ensures s.at == map[ROOT := s.pdt] && s.pdt in old(mem.free) && mem.V() == NewRoot(old(mem.V()), s.pdt, boot)
  {
    hide Hangs, LeavesApart, Leaf, MemOk, KernelEntries, LinkTable.Chain, Ordered, SpanOk;
    s := new VirtualMemorySpace(mem, boot);
    var r := KernelRegion();
    var v := new LinkTable.Node(r.start, r.end, r.flags);
    var fault;
    ghost var k;
    fault, k := s.regions.InsertVMR(v);
  }

  lemma {:induction false} AbsentSame(at: Tree, at': Tree, q: Place)
    requires q in at <==> q in at'
    ensures Absent(at', q) == Absent(at, q)
  {}

  lemma {:induction false} NoUpperLeaf(m: Mem, at: Tree, p: nat)
    requires Hangs(m, at)
    ensures USER_PAGES <= p ==> !Leaf(m, at, p).v
  {
    if Leaf(m, at, p).v { LeafData(m, at, p); }
  }

  lemma {:induction false} RootTable(m: Mem, at: Tree)
    requires MemOk(m) && Hangs(m, at)
    ensures ROOT in at && at[ROOT] in m.tabs && |m.tabs[at[ROOT]]| == 512
    ensures forall i: nat :: i < 512 ==> m.tabs[at[ROOT]][i] == Entry(m, at, ROOT, i)
  {}

  /** The root entry of a faulting page is a table of the space or absent exactly when the walk goes
      to user space. Elsewhere it is a large page of the kernel: the hardware translates the page by
      it, there is no table behind it, and what the fault takes for a table is the large page. */
  lemma {:induction false} FaultStrays(m: Mem, at: Tree, p: nat)
    requires Hangs(m, at)
    ensures ROOT in at && (WalkSlot(p) < USER_PAGES <==> Vpn(p, 2) < 508)
    ensures var i := Vpn(p, 2);
            var e := Entry(m, at, ROOT, i);
            if WalkSlot(p) < USER_PAGES then e.v == (Child(ROOT, i) in at) && (e.v ==> e.IsPageTable() && at[Child(ROOT, i)] == e.ppn)
            else e.v && !e.IsPageTable() && Child(ROOT, i) !in at
                 && Walk(m, at[ROOT], p) == (if Canonical(p) && !e.Refused() then LargePage(e, 262144) else Nothing)
  {
    hide Entry, Table;
    WalkSlotVpn(p);
    RootIn(m, at);
    EntryAt(m, at, ROOT, Vpn(p, 2));
  }

  lemma {:induction false} NoChild(m: Mem, at: Tree, q: Place, i: nat)
    requires Hangs(m, at) && q in at && q.level > 0 && i < 512 && (q.level == 2 ==> i < 508) && !Entry(m, at, q, i).v
    ensures Child(q, i) !in at
  {
    EntryAt(m, at, q, i);
  }

  lemma {:induction false} NoLeaf(m: Mem, at: Tree, p: nat)
    requires Hangs(m, at) && p < USER_PAGES && (Place(1, Vpn(p, 2)) !in at || Place(0, p / 512) !in at)
    ensures !Leaf(m, at, p).v
  {
    hide Hangs;
    WalkPlaces(p);
    if Leaf(m, at, p).v {
      LeafData(m, at, p);
      ParentIn(m, at, Place(0, p / 512));
    }
  }

  lemma {:induction false} SameApart(m: Mem, at: Tree, m': Mem, at': Tree)
    requires LeavesApart(m, at) && forall p :: Leaf(m', at', p) == Leaf(m, at, p)
    ensures LeavesApart(m', at')
  {
    hide Leaf;
  }

  lemma {:induction false} RootStays(m: Mem, at: Tree, m': Mem, at': Tree)
    requires Grew(m, at, m', at') && ROOT in at
    ensures ROOT in at' && at'[ROOT] == at[ROOT]
  {}

  lemma {:induction false} LeafIs(m: Mem, at: Tree, p: nat)
    requires MemOk(m) && Hangs(m, at) && Place(0, p / 512) in at
    ensures var t := at[Place(0, p / 512)]; t in m.tabs && |m.tabs[t]| == 512 && Leaf(m, at, p) == m.tabs[t][p % 512]
  {}

  lemma {:induction false} MappedSince(m: Mem, at: Tree, m1: Mem, at1: Tree, m2: Mem, at2: Tree, p: nat, flags: nat, b: Bytes)
    requires Grew(m, at, m1, at1) && m1.ref == m.ref && m1.data == m.data && (forall s :: Leaf(m1, at1, s) == Leaf(m, at, s))
    requires MappedNew(m1, at1, m2, at2, p, flags, b)
    ensures MappedNew(m, at, m2, at2, p, flags, b)
  {
    hide Leaf;
  }

  /** What a solved fault means to the hardware: a page whose walk goes to the faulting page's slot
      translates to a zeroed page that was free if its address is canonical and its region's
      permissions are, else it is refused; every other page translates as before. */
  lemma {:induction false} FaultTranslates(m: Mem, at: Tree, m': Mem, at': Tree, p: nat, flags: nat, s: nat)
    requires MemOk(m) && Hangs(m, at) && Hangs(m', at') && MappedNew(m, at, m', at', p, flags, Zeroes())
    requires p < USER_PAGES && WalkSlot(s) < USER_PAGES
    ensures ROOT in at && ROOT in at'
    ensures var c := Leaf(m', at', p).ppn;
            c in m.free && c in m'.data && |m'.data[c]| == 0x1000 && (forall i :: 0 <= i < 0x1000 ==> m'.data[c][i] == 0)
            && (WalkSlot(s) == p ==>
                  Walk(m', at'[ROOT], s) == if Canonical(s) && Grants(flags) then Mapped(PteOf(flags, c)) else Nothing)
    ensures WalkSlot(s) != p ==> Walk(m', at'[ROOT], s) == Walk(m, at[ROOT], s)
  {
    hide Leaf, Hangs, Walk, MemOk, WalkSlot, Canonical, Has;
    RootIn(m, at);
    RootIn(m', at');
    WalkIsLeaf(m', at', s);
    WalkIsLeaf(m, at, s);
    NewLeafData(m', at', p);
    SeenIs(s, flags, Leaf(m', at', p).ppn);
  }

  lemma {:induction false} NewLeafData(m: Mem, at: Tree, p: nat)
    requires Hangs(m, at)
    ensures Leaf(m, at, p).v ==> !Leaf(m, at, p).IsPageTable()
  {
    if Leaf(m, at, p).v { LeafData(m, at, p); }
  }

  /** The permissions that the hardware takes: those of a page, without write where there is no read. */
  predicate Grants(flags: nat) { Has(flags, VM_READ) || (Has(flags, VM_EXEC) && !Has(flags, VM_WRITE)) }

  lemma {:induction false} SeenIs(p: nat, flags: nat, ppn: nat)
    requires !PteOf(flags, ppn).IsPageTable()
    ensures Seen(p, PteOf(flags, ppn)) == if Canonical(p) && Grants(flags) then Mapped(PteOf(flags, ppn)) else Nothing
  {
    hide Has, Canonical;
  }

  // ----- what a program sees of a solved fault

  datatype Access = Load | Store | Fetch

  /** The access checks of the translation, for a program in user mode. */
  predicate GoesThrough(w: Walked, a: Access) {
    w.Mapped? && w.e.u && match a case Load => w.e.r case Store => w.e.w case Fetch => w.e.x
  }

  /** A region that wants this access permits it. */
  predicate Wants(flags: nat, a: Access) {
    match a case Load => Has(flags, VM_READ) case Store => Has(flags, VM_WRITE) case Fetch => Has(flags, VM_EXEC)
  }

  /** After a solved fault the page translates, and an access that its region permits goes through,
      exactly when the address lies in the lower half and the region may be read or is executable and
      not writable; the access needs that it is no region of the kernel, too. */
  lemma {:induction false} FaultServes(m: Mem, at: Tree, m': Mem, at': Tree, p: nat, flags: nat, a: Access)
    requires MemOk(m) && Hangs(m, at) && Hangs(m', at') && MappedNew(m, at, m', at', p, flags, Zeroes())
    requires p < 508 * 512 * 512
    ensures ROOT in at'
    ensures var r, w, x := flags % 2 == 1, flags / 2 % 2 == 1, flags / 4 % 2 == 1;
            && (Walk(m', at'[ROOT], p).Mapped? <==> p < 0x400_0000 && (r || (x && !w)))
            && (GoesThrough(Walk(m', at'[ROOT], p), a) <==>
                  match a { case Load => r case Store => w case Fetch => x } && p < 0x400_0000 && (r || (x && !w)) && flags / 32 % 2 == 0)
  {
    hide Leaf, Hangs, Walk, MemOk, Has, MappedNew;
    FlagBits(flags);
    FaultTranslates(m, at, m', at', p, flags, p);
  }

  /** A region that may be written and executed but not read, or only written: the entry is
      reserved, no access to the solved page goes through. */
  lemma {:induction false} WriteNeedsRead(m: Mem, at: Tree, m': Mem, at': Tree, p: nat, flags: nat)
    requires MemOk(m) && Hangs(m, at) && Hangs(m', at') && MappedNew(m, at, m', at', p, flags, Zeroes())
    requires p < USER_PAGES && flags in {2, 6}
    ensures Permits(flags) && Wants(flags, Store) && ROOT in at' && Walk(m', at'[ROOT], p) == Nothing
  {
    hide Leaf, Hangs, Walk, MemOk, MappedNew;
    FaultTranslates(m, at, m', at', p, flags, p);
  }

  /** A page of user space above 2^38 bytes: its entry is seen at the canonical address whose walk goes
      to the same slot, in the upper half of the address space, and not at its own. */
  lemma {:induction false} UpperAlias(m: Mem, at: Tree, m': Mem, at': Tree, p: nat, flags: nat)
    requires MemOk(m) && Hangs(m, at) && Hangs(m', at') && MappedNew(m, at, m', at', p, flags, Zeroes())
    requires 0x400_0000 <= p < 508 * 512 * 512 && Grants(flags)
    ensures ROOT in at' && Walk(m', at'[ROOT], p) == Nothing
    ensures Walk(m', at'[ROOT], 0xF_FFFF_F800_0000 + p) == Mapped(PteOf(flags, Leaf(m', at', p).ppn))
  {
    hide Leaf, Hangs, Walk, MemOk, MappedNew, Grants;
    FaultTranslates(m, at, m', at', p, flags, p);
    assert WalkSlot(PAGES - 2 * HALF + p) == p;
    FaultTranslates(m, at, m', at', p, flags, PAGES - 2 * HALF + p);
  }

  /** An access that is refused after a solved fault faults again, and that fault is not solved: the
      page exists. */
  method FaultAgain(s: VirtualMemorySpace, tval: nat) returns (r: Outcome, again: Outcome)
    requires s.Valid() && Grantable(s.regions.Spans(), tval)
    modifies s`at, s.mem, s.regions`cache
    ensures s.Valid() && (r == Ok ==> again == Fault)
  {
    hide MemOk, Hangs, LeavesApart, Leaf, Grew, Scan, Grantable, FaultSlot, RegionList.Valid;
    r := s.SolvePageFault(tval);
    again := r;
    if r == Ok {
      again := s.SolvePageFault(tval);
    }
  }

  /** Memory with four pages, all free. */
  method FourPages() returns (mem: Memory)
    ensures fresh(mem) && MemOk(mem.V()) && mem.free == {0, 1, 2, 3}
  {
    mem := new Memory;
    mem.tabs, mem.data, mem.ref, mem.free := map[], map[], map[0 := 0, 1 := 0, 2 := 0, 3 := 0], {0, 1, 2, 3};
  }

  /** A fresh space in it with one region of one page. */
  method OnePageSpace(flags: nat) returns (s: VirtualMemorySpace)
    ensures s.Valid() && s.regions.Spans() == [Span(0x1_0000, 0x1_1000, flags)] && fresh(s) && fresh(s.mem) && fresh(s.regions)
    ensures |s.mem.free| == 3 && !Leaf(s.mem.V(), s.at, 16).v
  {
    hide Hangs, LeavesApart, Leaf, MemOk, LinkTable.Chain, Ordered;
    var mem := FourPages();
    s := new VirtualMemorySpace(mem, Boot());
    OneLess({0, 1, 2, 3}, s.pdt);
    assert |{0, 1, 2, 3}| == 4;
    var v := new LinkTable.Node(0x1_0000, 0x1_1000, flags);
    var fault;
    ghost var k;
    fault, k := s.regions.InsertVMR(v);
  }

  /** A program accesses the kernel's first page: the hardware has a large page there that the program
      may not use, and the fault takes that page for a table. */
  method KernelFaultRun() returns (s: VirtualMemorySpace, r: Outcome)
    ensures s.Valid() && r == Strays && s.regions.Spans() == [KernelRegion()]
    ensures Walk(s.mem.V(), s.pdt, 0xF_FFFF_FFF8_0200) == Huge(Pte(true, true, true, true, false, 0x8_0000))
    ensures forall a :: !GoesThrough(Walk(s.mem.V(), s.pdt, 0xF_FFFF_FFF8_0200), a)
  {
    hide Hangs, LeavesApart, Leaf, MemOk, Grew, LinkTable.Chain, Ordered, RegionList.Valid, Walk, GoesThrough, Scan, Missing, MappedNew;
    var mem := FourPages();
    s := Create(mem, Boot());
    KernelWalk(mem.V(), s.pdt);
    KernelScan();
    r := s.SolvePageFault(0xFFFF_FFFF_8020_0000);
  }

  lemma {:induction false} KernelWalk(m: Mem, root: nat)
    requires Table(m, root, 510) == Boot()[2]
    ensures Walk(m, root, 0xF_FFFF_FFF8_0200) == Huge(Pte(true, true, true, true, false, 0x8_0000))
    ensures forall a :: !GoesThrough(Walk(m, root, 0xF_FFFF_FFF8_0200), a)
  {}

  lemma {:induction false} KernelScan()
    ensures Scan([KernelRegion()], 0xFFFF_FFFF_8020_0000) == 0
  {}

  lemma {:induction false} OneLess(s: set<nat>, c: nat)
    requires c in s
    ensures |s - {c}| == |s| - 1
  {}

  /** A region that may be written and executed but not read: its page fault is solved, and the page
      still does not translate. */
  method WriteOnlyRun() returns (s: VirtualMemorySpace, r: Outcome)
    ensures s.Valid() && r == Ok && s.regions.Spans() == [Span(0x1_0000, 0x1_1000, 6)]
    ensures Walk(s.mem.V(), s.pdt, 16) == Nothing && Leaf(s.mem.V(), s.at, 16).v
  {
    hide Hangs, LeavesApart, Leaf, MemOk, Grew, MappedNew, Walk, LinkTable.Chain, Ordered, Zeroes, RegionList.Valid, Scan;
    s := OnePageSpace(VM_WRITE + VM_EXEC);
    ghost var m, at := s.mem.V(), s.at;
    OneRegion(s.regions.Spans());
    MissingFew(at, 16);
    r := s.SolvePageFault(0x1_0000);
    NewlyMapped(m, at, s.mem.V(), s.at, 16, VM_WRITE + VM_EXEC);
    WriteNeedsRead(m, at, s.mem.V(), s.at, 16, VM_WRITE + VM_EXEC);
  }

  lemma {:induction false} MissingFew(at: Tree, p: nat)
    ensures Missing(at, p) <= 2
  {}

  lemma {:induction false} OneRegion(spans: seq<Span>)
    requires spans == [Span(0x1_0000, 0x1_1000, VM_WRITE + VM_EXEC)]
    ensures Scan(spans, 0x1_0000) == 0
  {}

  lemma {:induction false} NewlyMapped(m: Mem, at: Tree, m': Mem, at': Tree, p: nat, flags: nat)
    requires MappedNew(m, at, m', at', p, flags, Zeroes())
    ensures Leaf(m', at', p).v
  {
    hide Leaf;
  }

  function Zeroes(): (b: Bytes)
    ensures |b| == 0x1000 && forall i :: 0 <= i < 0x1000 ==> b[i] == 0
  {
    seq(PAGESIZE, _ => 0)
  }

  lemma {:induction false} GrewNot(m: Mem, at: Tree)
    requires Hangs(m, at)
    ensures Grew(m, at, m, at)
  {
    hide Entries, Injective;
    assert m.tabs.Keys == m.tabs.Keys + at.Values;
  }

  lemma {:induction false} AddTableGrew(m: Mem, at: Tree, q: Place, i: nat, c: nat)
    requires MemOk(m) && Hangs(m, at) && q in at && q.level > 0 && Child(q, i) !in at && c in m.free
    ensures Grew(m, at, AddTable(m, at[q], i, c), at[Child(q, i) := c])
  {
    hide Hangs, Child;
    GrewNot(m, at);
    TableLen(m, at, q);
    var at' := at[Child(q, i) := c];
    assert at[q] in at.Values;
    forall q' | q' in at ensures at'[q'] == at[q'] && at[q'] in at'.Values { assert at'[q'] in at'.Values; }
    assert at'[Child(q, i)] == c && c in at'.Values;
    assert at'.Values == at.Values + {c};
  }

  lemma {:induction false} NewLeafGrew(m: Mem, at: Tree, p: nat, c: nat, e: Pte, b: Bytes)
    requires MemOk(m) && Hangs(m, at) && Place(0, p / 512) in at && c in m.free
    ensures Grew(m, at, WithEntry(NewPage(m, c, b), at[Place(0, p / 512)], p % 512, e), at)
  {
    hide Hangs;
    GrewNot(m, at);
    TableLen(m, at, Place(0, p / 512));
    assert at[Place(0, p / 512)] in at.Values;
  }

  lemma {:induction false} FreshApart(m: Mem, m1: Mem, m2: Mem, at: Tree, p: nat, c: nat)
    requires MemOk(m) && Hangs(m, at) && LeavesApart(m, at) && c in m.free
    requires forall s :: Leaf(m1, at, s) == Leaf(m, at, s)
    requires forall s :: s != p ==> Leaf(m2, at, s) == Leaf(m1, at, s)
    requires Leaf(m2, at, p).ppn == c
    ensures LeavesApart(m2, at)
  {
    hide Hangs, Leaf;
    forall s | Leaf(m, at, s).v ensures Leaf(m, at, s).ppn != c {
      LeafData(m, at, s);
    }
  }

  lemma {:induction false} TableLen(m: Mem, at: Tree, q: Place)
    requires MemOk(m) && Hangs(m, at) && q in at
    ensures at[q] in m.tabs && |m.tabs[at[q]]| == 512
  {}

  lemma {:induction false} NotItself(m: Mem, at: Tree, q: Place, c: nat)
    requires MemOk(m) && Hangs(m, at) && q in at && c in m.free
    ensures at[q] != c && c !in m.tabs && c !in m.data && c in m.ref
  {}

  lemma {:induction false} ValidChild(m: Mem, at: Tree, q: Place, i: nat)
    requires MemOk(m) && Hangs(m, at) && q in at && q.level > 0 && i < 512 && (q.level == 2 ==> i < 508) && Entry(m, at, q, i).v
    ensures Child(q, i) in at && at[Child(q, i)] == Entry(m, at, q, i).ppn
  {
    EntryAt(m, at, q, i);
  }
}
