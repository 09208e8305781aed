/** All address spaces of the system, over every run of creations, forks, new regions, page faults and
    ends. */
module Spaces {
  import opened PageTree
  import opened Regions
  import opened Vmm
  import opened Fork
  import opened Teardown
  import opened Families
  import opened Worlds
  import LinkTable

  /** What is done to the spaces; number i is the i-th oldest of those that live. Touch is a page fault,
      Store a program's change of what it sees as page p. */
  datatype Cmd = New | Fork(i: nat) | Enter(i: nat, r: Span) | Touch(i: nat, tval: nat) | Store(i: nat, p: nat, b: Bytes) | Exit(i: nat)

  /** A command names a space, enters a region where it fits, or accesses an address outside the
      kernel's regions. */
  ghost predicate CmdOk(regs: seq<seq<Span>>, cmd: Cmd) {
    match cmd
    case New => true
    case Fork(i) => i < |regs|
    case Enter(i, r) => i < |regs| && MayEnter(regs[i], r)
    case Touch(i, tval) => i < |regs| && UserFault(regs[i], tval)
    case Store(i, _, _) => i < |regs|
    case Exit(i) => i < |regs|
  }

  /** The regions of all spaces after a command. */
  ghost function After(regs: seq<seq<Span>>, cmd: Cmd): seq<seq<Span>>
    requires CmdOk(regs, cmd)
  {
    match cmd
    case New => regs + [[KernelRegion()]]
    case Fork(i) => regs + [regs[i]]
    case Enter(i, r) => regs[i := regs[i] + [r]]
    case Touch(_, _) => regs
    case Store(_, _, _) => regs
    case Exit(i) => Cut(regs, i)
  }

  ghost predicate RunOk(regs: seq<seq<Span>>, cmds: seq<Cmd>)
    decreases |cmds|
  {
    cmds == [] || (CmdOk(regs, cmds[0]) && RunOk(After(regs, cmds[0]), cmds[1..]))
  }

  ghost function AfterAll(regs: seq<seq<Span>>, cmds: seq<Cmd>): seq<seq<Span>>
    requires RunOk(regs, cmds)
    decreases |cmds|
  {
    if cmds == [] then regs else AfterAll(After(regs, cmds[0]), cmds[1..])
  }

  // ----- what a command does to memory and trees

  /** Memory, the trees of the living spaces in order of age, and their regions. */
  datatype Snap = Snap(m: Mem, ts: seq<Tree>, regs: seq<seq<Span>>)

  /** A page fault: the page gets zeroes and the permissions of its region when it has one, is not mapped
      yet and there are pages enough for it and the missing tables; else no mapping and no data change. */
  ghost predicate Faulted(m: Mem, at: Tree, list: seq<Span>, tval: nat, m2: Mem, at2: Tree) {
    var p := tval / 0x1000;
    if (exists r :: r in list && r.Has(tval)) && !Leaf(m, at, p).v && |m.free| > Missing(at, p)
    then exists r :: r in list && r.Has(tval) && MappedNew(m, at, m2, at2, p, r.flags, Zeroes())
    else m2.ref == m.ref && m2.data == m.data && forall q :: Leaf(m2, at2, q) == Leaf(m, at, q)
  }

  /** A store: it reaches the page that the hardware's walk gives it, or does nothing. */
  ghost function Stored(m: Mem, at: Tree, p: nat, b: Bytes): Mem
    requires ROOT in at
  {
    var w := Walk(m, at[ROOT], p);
    if GoesThrough(w, Access.Store) then Written(m, w.e.ppn, b) else m
  }

  /** The child has a fork of the pages of tree t, whose regions are those of the list in some order. */
  ghost predicate ForkOf(m: Mem, t: Tree, list: seq<Span>, m2: Mem, child: Tree) {
    exists spans: seq<Span> :: (forall r :: r in spans <==> r in list) && Forked(m, t, spans, |spans|, m2, child)
  }

  /** One command takes a to b. */
  ghost predicate Stepped(a: Snap, cmd: Cmd, boot: seq<Pte>, b: Snap) {
    && |a.ts| == |a.regs| && CmdOk(a.regs, cmd) && b.regs == After(a.regs, cmd)
    && match cmd
       case New => exists c: nat :: c in a.m.free && b.m == NewRoot(a.m, c, boot) && b.ts == a.ts + [map[ROOT := c]]
       case Fork(i) => |b.ts| == |a.ts| + 1 && b.ts[..|a.ts|] == a.ts && ForkOf(a.m, a.ts[i], a.regs[i], b.m, b.ts[|a.ts|])
       case Enter(_, _) => b.m == a.m && b.ts == a.ts
       case Touch(i, tval) => |b.ts| == |a.ts| && b.ts == a.ts[i := b.ts[i]] && Faulted(a.m, a.ts[i], a.regs[i], tval, b.m, b.ts[i])
       case Store(i, p, d) => b.ts == a.ts && ROOT in a.ts[i] && b.m == Stored(a.m, a.ts[i], p, d)
       case Exit(i) => b.ts == Cut(a.ts, i) && Gone(a.m, a.ts[i], b.m)
  }

  // ----- the objects

  /** A space object with these regions. */
  ghost predicate SpaceOk(mem: Memory, s: VirtualMemorySpace, list: seq<Span>)
    reads s, s.regions, s.regions.head, s.regions.list
  {
    && s.mem == mem && s.regions.Valid() && ROOT in s.at && s.at[ROOT] == s.pdt
    && forall r :: r in s.regions.Spans() <==> r in list
  }

  ghost predicate Objects(mem: Memory, ss: seq<VirtualMemorySpace>, regs: seq<seq<Span>>)
    reads *
  {
    && |ss| == |regs| && (forall i :: 0 <= i < |ss| ==> SpaceOk(mem, ss[i], regs[i]))
    && forall i, j :: 0 <= i < |ss| && 0 <= j < |ss| && i != j ==> ss[i] != ss[j] && Separate(ss[i].regions, ss[j].regions)
  }

  ghost function Ats(ss: seq<VirtualMemorySpace>): (ts: seq<Tree>)
    reads ss
    ensures |ts| == |ss| && forall i :: 0 <= i < |ts| ==> ts[i] == ss[i].at
  {
    seq(|ss|, i requires 0 <= i < |ss| reads ss => ss[i].at)
  }

  /** The system: objects that stand for a world that started from memory m0. */
  ghost predicate Good(m0: Mem, mem: Memory, ss: seq<VirtualMemorySpace>, regs: seq<seq<Span>>)
    reads *
  {
    Objects(mem, ss, regs) && World(m0, mem.V(), Ats(ss), regs)
  }

  lemma {:induction false} ValidAt(m0: Mem, mem: Memory, ss: seq<VirtualMemorySpace>, regs: seq<seq<Span>>, i: nat)
    requires Good(m0, mem, ss, regs) && i < |ss|
    ensures ss[i].Valid() && RegionsOk(ss[i].regions.Spans()) && ss[i].mem == mem
    ensures forall tval: nat :: UserFault(regs[i], tval) ==> UserFault(ss[i].regions.Spans(), tval)
  {
    hide Leaf, Hangs, MemOk, LeavesApart, AllUser, Family, RegionList.Valid, Has, Permits;
    WorldIs(m0, mem.V(), Ats(ss), regs);
    LiveAt(mem.V(), Ats(ss), regs, i);
    assert SpaceOk(mem, ss[i], regs[i]);
    OrderedNow(ss[i].regions);
    RegsAreOk(ss[i].regions.Spans(), regs[i]);
  }

  lemma {:induction false} RegsAreOk(spans: seq<Span>, list: seq<Span>)
    requires Ordered(spans) && RegsOk(list) && forall r :: r in spans <==> r in list
    ensures RegionsOk(spans)
  {
    hide Has, Permits;
    forall k | 0 <= k < |spans| && UserRegion(spans[k]) ensures spans[k].end <= USER_PAGES * PAGESIZE && Permits(spans[k].flags) {
      assert spans[k] in list;
    }
  }

  lemma {:induction false} NewStep(a: Snap, boot: seq<Pte>, c: nat, m2: Mem)
    requires |a.ts| == |a.regs| && c in a.m.free && m2 == NewRoot(a.m, c, boot)
    ensures Stepped(a, New, boot, Snap(m2, a.ts + [map[ROOT := c]], a.regs + [[KernelRegion()]]))
  {}

  lemma {:induction false} ForkStep(a: Snap, boot: seq<Pte>, i: nat, m2: Mem, child: Tree)
    requires i < |a.ts| == |a.regs| && ForkOf(a.m, a.ts[i], a.regs[i], m2, child)
    ensures Stepped(a, Cmd.Fork(i), boot, Snap(m2, a.ts + [child], a.regs + [a.regs[i]]))
  {
    hide ForkOf;
  }

  lemma {:induction false} TouchStep(a: Snap, boot: seq<Pte>, i: nat, tval: nat, m2: Mem, at2: Tree)
    requires i < |a.ts| == |a.regs| && UserFault(a.regs[i], tval) && Faulted(a.m, a.ts[i], a.regs[i], tval, m2, at2)
    ensures Stepped(a, Touch(i, tval), boot, Snap(m2, a.ts[i := at2], a.regs))
  {
    hide Faulted;
  }

  lemma {:induction false} EnterStep(a: Snap, boot: seq<Pte>, i: nat, r: Span)
    requires i < |a.ts| == |a.regs| && MayEnter(a.regs[i], r)
    ensures Stepped(a, Enter(i, r), boot, Snap(a.m, a.ts, a.regs[i := a.regs[i] + [r]]))
  {}

  lemma {:induction false} ExitStep(a: Snap, boot: seq<Pte>, i: nat, m2: Mem)
    requires i < |a.ts| == |a.regs| && Gone(a.m, a.ts[i], m2)
    ensures Stepped(a, Exit(i), boot, Snap(m2, Cut(a.ts, i), Cut(a.regs, i)))
  {
    hide Gone;
  }

  lemma {:induction false} StoreStep(a: Snap, boot: seq<Pte>, i: nat, p: nat, b: Bytes, passed: bool, m2: Mem)
    requires i < |a.ts| == |a.regs| && ROOT in a.ts[i]
    requires passed <==> GoesThrough(Walk(a.m, a.ts[i][ROOT], p), Access.Store)
    requires m2 == if passed then Written(a.m, Walk(a.m, a.ts[i][ROOT], p).e.ppn, b) else a.m
    ensures Stepped(a, Cmd.Store(i, p, b), boot, Snap(m2, a.ts, a.regs))
  {
    hide Walk;
  }

  // ----- a page fault

  lemma {:induction false} FaultRegion(spans: seq<Span>, tval: nat)
    requires RegionsOk(spans) && UserFault(spans, tval)
    ensures Grantable(spans, tval)
    ensures var k := Scan(spans, tval);
            0 <= k < |spans| ==> FaultSlot(tval) == tval / PAGESIZE < USER_PAGES && UserRegion(spans[k]) && InPages(spans[k], tval / PAGESIZE)
  {
    ScanIs(spans, tval);
  }

  /** In a space with the kernel's region and user regions, a fault goes astray exactly in the kernel's
      region. */
  lemma {:induction false} StraysInKernel(spans: seq<Span>, list: seq<Span>, tval: nat)
    requires Ordered(spans) && RegsOk(list) && (forall r :: r in spans <==> r in list)
    requires KernelRegion() in list && forall r :: r in list ==> r == KernelRegion() || UserRegion(r)
    ensures Scan(spans, tval) >= 0 && USER_PAGES <= FaultSlot(tval) <==> KernelRegion().Has(tval)
    ensures UserFault(list, tval) <==> !KernelRegion().Has(tval)
  {
    hide Has;
    ScanIs(spans, tval);
    if Scan(spans, tval) >= 0 && !KernelRegion().Has(tval) {
      assert spans[Scan(spans, tval)] in list;
    }
  }

  lemma {:induction false} FaultedIf(m: Mem, at: Tree, spans: seq<Span>, list: seq<Span>, tval: nat, ok: bool, m2: Mem, at2: Tree)
    requires (forall r :: r in spans <==> r in list) && -1 <= Scan(spans, tval) < |spans|
    requires ok <==> Scan(spans, tval) >= 0 && !Leaf(m, at, tval / 0x1000).v && |m.free| > Missing(at, tval / 0x1000)
    requires ok ==> MappedNew(m, at, m2, at2, tval / 0x1000, spans[Scan(spans, tval)].flags, Zeroes())
    requires !ok ==> m2.ref == m.ref && m2.data == m.data && forall q :: Leaf(m2, at2, q) == Leaf(m, at, q)
    ensures Faulted(m, at, list, tval, m2, at2)
  {
    hide Leaf, Missing, MappedNew, Zeroes, Scan;
    ScanIs(spans, tval);
    var k := Scan(spans, tval);
    if k >= 0 { assert spans[k] in list; }
  }

  method DoTouch(mem: Memory, ss: seq<VirtualMemorySpace>, s: VirtualMemorySpace, i: nat, tval: nat, ghost regs: seq<seq<Span>>, ghost m0: Mem,
                 ghost boot: seq<Pte>)
    requires MemOk(m0) && Good(m0, mem, ss, regs) && i < |ss| && s == ss[i] && UserFault(regs[i], tval)
    modifies s`at, mem, s.regions`cache
    ensures Good(m0, mem, ss, regs) && forall j :: 0 <= j < |ss| ==> ss[j].regions.list == old(ss[j].regions.list)
    ensures Stepped(Snap(old(mem.V()), old(Ats(ss)), regs), Touch(i, tval), boot, Snap(mem.V(), Ats(ss), regs))
  {
    hide Leaf, Hangs, MemOk, LeavesApart, Family, RegionList.Valid, RegionsOk, UserFault, FaultSlot, Grantable, Grew, MappedNew, Permits, Has,
         Scan, World, InPages, UserRegion, RegionList.Spans, Faulted, Missing, Zeroes, Stepped;
    ghost var m, ts := mem.V(), Ats(ss);
    ghost var spans := s.regions.Spans();
    ValidAt(m0, mem, ss, regs, i);
    FaultRegion(spans, tval);
    ScanIs(spans, tval);
    var r := s.SolvePageFault(tval);
    FaultedIf(m, ts[i], spans, regs[i], tval, r == Ok, mem.V(), s.at);
    assert Ats(ss) == ts[i := s.at];
    TouchStep(Snap(m, ts, regs), boot, i, tval, mem.V(), s.at);
    if r == Ok {
      ghost var k := Scan(spans, tval);
      assert spans[k] in regs[i];
      WorldFault(m0, m, ts, regs, i, mem.V(), s.at, tval / PAGESIZE, spans[k]);
    } else {
      WorldSame(m0, m, ts, regs, i, mem.V(), s.at);
    }
    RootIn(mem.V(), s.at);
    forall j | 0 <= j < |ss| ensures SpaceOk(mem, ss[j], regs[j]) && ss[j].regions.list == old(ss[j].regions.list) {
      assert old(SpaceOk(mem, ss[j], regs[j]));
      assert j != i ==> ss[j] != s && old(Separate(ss[j].regions, s.regions));
    }
    forall j, k | 0 <= j < |ss| && 0 <= k < |ss| && j != k ensures ss[j] != ss[k] && Separate(ss[j].regions, ss[k].regions) {
      assert old(Separate(ss[j].regions, ss[k].regions));
    }
  }

  // ----- a store

  /** A program of space i stores to page p: through the hardware's walk, if that lets it. */
  method DoStore(mem: Memory, ss: seq<VirtualMemorySpace>, i: nat, p: nat, b: Bytes, ghost regs: seq<seq<Span>>, ghost m0: Mem,
                 ghost boot: seq<Pte>) returns (passed: bool)
    requires MemOk(m0) && Good(m0, mem, ss, regs) && i < |ss|
    modifies mem
    ensures Good(m0, mem, ss, regs) && forall j :: 0 <= j < |ss| ==> ss[j].regions.list == old(ss[j].regions.list)
    ensures passed <==> GoesThrough(Walk(old(mem.V()), ss[i].pdt, p), Access.Store)
    ensures mem.V() == if passed then Written(old(mem.V()), Walk(old(mem.V()), ss[i].pdt, p).e.ppn, b) else old(mem.V())
    ensures Stepped(Snap(old(mem.V()), old(Ats(ss)), regs), Cmd.Store(i, p, b), boot, Snap(mem.V(), Ats(ss), regs))
  {
    hide Leaf, Hangs, MemOk, LeavesApart, Family, RegionList.Valid, World, Walk, WalkSlot, InPages, Wants, AllPages, UserRegion, Stepped;
    ghost var m, ts := mem.V(), Ats(ss);
    assert SpaceOk(mem, ss[i], regs[i]);
    UserAccess(m0, mem.V(), ts, regs, i, p, Access.Store);
    var w := Walk(Mem(mem.tabs, mem.data, mem.ref, mem.free), ss[i].pdt, p);
    passed := GoesThrough(w, Access.Store);
    if passed {
      WorldWritten(m0, mem.V(), ts, regs, w.e.ppn, b);
      mem.data := mem.data[w.e.ppn := b];
    }
    assert Ats(ss) == ts;
    StoreStep(Snap(m, ts, regs), boot, i, p, b, passed, mem.V());
    forall j | 0 <= j < |ss| ensures SpaceOk(mem, ss[j], regs[j]) {
      assert old(SpaceOk(mem, ss[j], regs[j]));
    }
    forall j, k | 0 <= j < |ss| && 0 <= k < |ss| && j != k ensures ss[j] != ss[k] && Separate(ss[j].regions, ss[k].regions) {
      assert old(Separate(ss[j].regions, ss[k].regions));
    }
  }

  // ----- a new region

  lemma {:induction false} EnteredAt(list: seq<Span>, k: nat, x: Span, was: seq<Span>, regs: seq<Span>)
    requires k <= |was| && list == was[..k] + [x] + was[k..] && forall r :: r in was <==> r in regs
    ensures forall r :: r in list <==> r in regs + [x]
  {
    assert was == was[..k] + was[k..];
  }

  method EnterOne(s: VirtualMemorySpace, r: Span, ghost list: seq<Span>)
    requires s.regions.Valid() && MayEnter(list, r) && forall x :: x in s.regions.Spans() <==> x in list
    modifies s.regions, s.regions.head, s.regions.list
    ensures s.regions.Valid() && forall x :: x in s.regions.Spans() <==> x in list + [r]
    ensures forall x :: x in s.regions.list ==> x in old(s.regions.list) || fresh(x)
  {
    hide LinkTable.Chain, SpanOk, Ordered, UserRegion, Permits;
    var v := new LinkTable.Node(r.start, r.end, r.flags);
    ghost var was := s.regions.Spans();
    var fault, k := s.regions.InsertVMR(v);
    EnteredAt(s.regions.Spans(), k, r, was, list);
  }

  /** The list of one space is made of nodes that no other space has. */
  lemma {:induction false} OtherNodes(mem: Memory, ss: seq<VirtualMemorySpace>, regs: seq<seq<Span>>, i: nat)
    requires Objects(mem, ss, regs) && i < |ss|
    ensures forall j, k :: 0 <= j < |ss| && j != i && 0 <= k < |ss[j].regions.list| ==>
              ss[j].regions.list[k] !in ss[i].regions.list && ss[j].regions.list[k] != ss[i].regions.head
    ensures forall j :: 0 <= j < |ss| && j != i ==> ss[j] != ss[i] && ss[j].regions != ss[i].regions && ss[j].regions.head != ss[i].regions.head
                                                    && ss[j].regions.head !in ss[i].regions.list
  {
    hide RegionList.Valid;
    forall j | 0 <= j < |ss| && j != i ensures Separate(ss[j].regions, ss[i].regions) {}
  }

  method DoEnter(mem: Memory, ss: seq<VirtualMemorySpace>, s: VirtualMemorySpace, i: nat, r: Span, ghost regs: seq<seq<Span>>, ghost m0: Mem,
                 ghost boot: seq<Pte>)
    requires Good(m0, mem, ss, regs) && i < |ss| && s == ss[i] && MayEnter(regs[i], r)
    modifies s.regions, s.regions.head, s.regions.list
    ensures Good(m0, mem, ss, regs[i := regs[i] + [r]])
    ensures Stepped(Snap(mem.V(), Ats(ss), regs), Enter(i, r), boot, Snap(mem.V(), Ats(ss), regs[i := regs[i] + [r]]))
    ensures forall j :: 0 <= j < |ss| ==> forall x :: x in ss[j].regions.list ==> x in old(ss[j].regions.list) || fresh(x)
  {
    hide RegionList.Valid, World, MayEnter, Stepped;
    ghost var ts := Ats(ss);
    OtherNodes(mem, ss, regs, i);
    EnterOne(s, r, regs[i]);
    WorldEnter(m0, mem.V(), ts, regs, i, r);
    assert Ats(ss) == ts;
    EnterStep(Snap(mem.V(), ts, regs), boot, i, r);
    forall j | 0 <= j < |ss| ensures SpaceOk(mem, ss[j], regs[i := regs[i] + [r]][j]) && (j != i ==> ss[j].regions.list == old(ss[j].regions.list)) {
      assert old(SpaceOk(mem, ss[j], regs[j]));
      assert j != i ==> old(Separate(ss[j].regions, s.regions));
    }
    forall j, k | 0 <= j < |ss| && 0 <= k < |ss| && j != k ensures ss[j] != ss[k] && Separate(ss[j].regions, ss[k].regions) {
      assert old(Separate(ss[j].regions, ss[k].regions));
    }
  }

  // ----- the end of a space

  method ExitOne(s: VirtualMemorySpace)
    requires s.Valid() && RefsCount(s.mem.V(), s.at)
    modifies s.mem, s.regions, s.regions.head, s.regions.list
    ensures Gone(old(s.mem.V()), s.at, s.mem.V())
  {
    hide RefsCount, Pages, Unshared, Hangs, MemOk, LeavesApart, RegionList.Valid;
    DestroySpace(s);
  }

  method DoExit(mem: Memory, ss: seq<VirtualMemorySpace>, s: VirtualMemorySpace, i: nat, ghost regs: seq<seq<Span>>, ghost m0: Mem, ghost boot: seq<Pte>)
    requires MemOk(m0) && Good(m0, mem, ss, regs) && i < |ss| && s == ss[i]
    modifies mem, s.regions, s.regions.head, s.regions.list
    ensures Good(m0, mem, Cut(ss, i), Cut(regs, i))
    ensures Stepped(Snap(old(mem.V()), old(Ats(ss)), regs), Exit(i), boot, Snap(mem.V(), Ats(Cut(ss, i)), Cut(regs, i)))
    ensures forall j :: 0 <= j < |ss| && j != i ==> ss[j].regions.list == old(ss[j].regions.list)
  {
    hide Leaf, Hangs, MemOk, LeavesApart, AllUser, Family, RegionList.Valid, World, RefsCount, Pages, Unshared, RegionsOk, UserFault, Stepped, Gone;
    ghost var m, ts := mem.V(), Ats(ss);
    ValidAt(m0, mem, ss, regs, i);
    Counts(m0, m, ts, regs, i);
    OtherNodes(mem, ss, regs, i);
    ExitOne(s);
    WorldExit(m0, m, ts, regs, i, mem.V());
    assert Ats(Cut(ss, i)) == Cut(ts, i);
    ExitStep(Snap(m, ts, regs), boot, i, mem.V());
    forall j | 0 <= j < |ss| && j != i ensures SpaceOk(mem, ss[j], regs[j]) && ss[j].regions.list == old(ss[j].regions.list) {
      assert old(SpaceOk(mem, ss[j], regs[j]));
      assert old(Separate(ss[j].regions, s.regions));
    }
    forall j, k | 0 <= j < |ss| && 0 <= k < |ss| && j != k && j != i && k != i
      ensures ss[j] != ss[k] && Separate(ss[j].regions, ss[k].regions)
    {
      assert old(Separate(ss[j].regions, ss[k].regions));
    }
  }

  lemma {:induction false} Counts(m0: Mem, m: Mem, ts: seq<Tree>, regs: seq<seq<Span>>, i: nat)
    requires World(m0, m, ts, regs) && i < |ts|
    ensures RefsCount(m, ts[i])
  {
    hide Leaf, Hangs, MemOk, LeavesApart, AllUser, Family, Elems, NoneTwice, World, AllLive, AllIsolated, RefsCount, Pages, RefIs;
    WorldIs(m0, m, ts, regs);
    ElemsUpdate(ts, i, ts[i]);
    FamilyParts(m0, m, Elems(ts) - {ts[i]}, ts[i]);
    UnsharedAre(m, Elems(ts) - {ts[i]}, ts[i]);
  }

  // ----- a new space

  method DoNew(mem: Memory, boot: seq<Pte>, ss: seq<VirtualMemorySpace>, ghost regs: seq<seq<Span>>, ghost m0: Mem) returns (s: VirtualMemorySpace)
    requires MemOk(m0) && Good(m0, mem, ss, regs) && KernelEntries(boot) && mem.free != {}
    modifies mem
    ensures Good(m0, mem, ss + [s], regs + [[KernelRegion()]])
    ensures Stepped(Snap(old(mem.V()), old(Ats(ss)), regs), New, boot, Snap(mem.V(), Ats(ss + [s]), regs + [[KernelRegion()]]))
    ensures fresh(s) && fresh(s.regions) && fresh(s.regions.head) && forall x :: x in s.regions.list ==> fresh(x)
    ensures forall j :: 0 <= j < |ss| ==> ss[j].regions.list == old(ss[j].regions.list)
  {
    hide Leaf, Hangs, MemOk, LeavesApart, Family, RegionList.Valid, World, KernelEntries, Stepped;
    ghost var m, ts := mem.V(), Ats(ss);
    WorldMem(m0, m, ts, regs);
    s := Create(mem, boot);
    WorldNew(m0, m, ts, regs, s.pdt, boot);
    assert Ats(ss + [s]) == ts + [s.at];
    NewStep(Snap(m, ts, regs), boot, s.pdt, mem.V());
    forall j | 0 <= j < |ss| ensures SpaceOk(mem, ss[j], regs[j]) && ss[j].regions.list == old(ss[j].regions.list)
                             ensures ss[j] != s && Separate(ss[j].regions, s.regions) && Separate(s.regions, ss[j].regions) {
      assert old(SpaceOk(mem, ss[j], regs[j]));
      assert old(allocated(ss[j]));
    }
    forall j, k | 0 <= j < |ss| && 0 <= k < |ss| && j != k ensures ss[j] != ss[k] && Separate(ss[j].regions, ss[k].regions) {
      assert old(Separate(ss[j].regions, ss[k].regions));
    }
  }

  lemma {:induction false} WorldMem(m0: Mem, m: Mem, ts: seq<Tree>, regs: seq<seq<Span>>)
    requires World(m0, m, ts, regs)
    ensures MemOk(m)
  {
    hide MemOk;
  }

  // ----- a fork

  method DoFork(mem: Memory, boot: seq<Pte>, ss: seq<VirtualMemorySpace>, i: nat, ghost regs: seq<seq<Span>>, ghost m0: Mem)
    returns (ok: bool, s: VirtualMemorySpace)
    requires MemOk(m0) && Good(m0, mem, ss, regs) && i < |ss| && KernelEntries(boot) && mem.free != {}
    modifies mem
    ensures ok ==> Good(m0, mem, ss + [s], regs + [regs[i]])
    ensures ok ==> Stepped(Snap(old(mem.V()), old(Ats(ss)), regs), Cmd.Fork(i), boot, Snap(mem.V(), Ats(ss + [s]), regs + [regs[i]]))
    ensures !ok ==> mem.free == {}
    ensures fresh(s) && fresh(s.regions) && fresh(s.regions.head) && forall x :: x in s.regions.list ==> fresh(x)
    ensures forall j :: 0 <= j < |ss| ==> ss[j].regions.list == old(ss[j].regions.list)
  {
    hide Leaf, Hangs, MemOk, LeavesApart, Family, RegionList.Valid, RegionsOk, World, KernelEntries, Forked, UserFault, Stepped;
    ghost var m, ts := mem.V(), Ats(ss);
    ValidAt(m0, mem, ss, regs, i);
    ok, s := CreateFrom(ss[i], boot);
    if !ok {
      return;
    }
    assert ForkOf(m, ts[i], regs[i], mem.V(), s.at);
    ForkStep(Snap(m, ts, regs), boot, i, mem.V(), s.at);
    WorldFork(m0, m, ts, regs, i, ss[i].regions.Spans(), mem.V(), s.at);
    assert Ats(ss + [s]) == ts + [s.at];
    RootIn(mem.V(), s.at);
    forall j | 0 <= j < |ss| ensures SpaceOk(mem, ss[j], regs[j]) && ss[j].regions.list == old(ss[j].regions.list)
                             ensures ss[j] != s && Separate(ss[j].regions, s.regions) && Separate(s.regions, ss[j].regions) {
      assert old(SpaceOk(mem, ss[j], regs[j]));
      assert old(allocated(ss[j]));
    }
    forall j, k | 0 <= j < |ss| && 0 <= k < |ss| && j != k ensures ss[j] != ss[k] && Separate(ss[j].regions, ss[k].regions) {
      assert old(Separate(ss[j].regions, ss[k].regions));
    }
  }

  // ----- runs

  lemma {:induction false} Sizes(m0: Mem, mem: Memory, ss: seq<VirtualMemorySpace>, regs: seq<seq<Span>>)
    requires Good(m0, mem, ss, regs)
    ensures |ss| == |regs|
  {
    hide World;
  }

  /** What CmdOk asks of a command that names a space, and what comes of it. */
  lemma {:induction false} Names(regs: seq<seq<Span>>, cmd: Cmd)
    requires CmdOk(regs, cmd)
    ensures !cmd.New? ==> cmd.i < |regs|
    ensures cmd.Enter? ==> MayEnter(regs[cmd.i], cmd.r)
    ensures cmd.Touch? ==> UserFault(regs[cmd.i], cmd.tval)
    ensures After(regs, cmd) == match cmd
                                case New => regs + [[KernelRegion()]]
                                case Fork(i) => regs + [regs[i]]
                                case Enter(i, r) => regs[i := regs[i] + [r]]
                                case Touch(_, _) => regs
                                case Store(_, _, _) => regs
                                case Exit(i) => Cut(regs, i)
  {
    hide MayEnter, UserFault;
  }

  lemma {:induction false} RunNext(regs: seq<seq<Span>>, cmds: seq<Cmd>)
    requires RunOk(regs, cmds) && cmds != []
    ensures CmdOk(regs, cmds[0]) && RunOk(After(regs, cmds[0]), cmds[1..])
    ensures AfterAll(regs, cmds) == AfterAll(After(regs, cmds[0]), cmds[1..])
  {}

  lemma {:induction false} RunEnds(regs: seq<seq<Span>>, cmds: seq<Cmd>)
    requires RunOk(regs, cmds) && cmds == []
    ensures AfterAll(regs, cmds) == regs
  {}

  lemma {:induction false} GoodStart(mem: Memory)
    requires MemOk(mem.V())
    ensures Good(mem.V(), mem, [], [])
  {
    hide World;
    WorldStart(mem.V(), mem.V());
    assert Ats([]) == [];
  }

  /** The states of a run: each command takes one to the next, and all are worlds. */
  ghost predicate Logged(m0: Mem, boot: seq<Pte>, cmds: seq<Cmd>, log: seq<Snap>) {
    && 0 < |log| <= |cmds| + 1 && log[0] == Snap(m0, [], [])
    && (forall k :: 0 <= k < |log| - 1 ==> Stepped(log[k], cmds[k], boot, log[k + 1]))
    && forall k :: 0 <= k < |log| ==> World(m0, log[k].m, log[k].ts, log[k].regs)
  }

  lemma {:induction false} LogStart(m0: Mem, boot: seq<Pte>, cmds: seq<Cmd>)
    requires World(m0, m0, [], [])
    ensures Logged(m0, boot, cmds, [Snap(m0, [], [])])
  {
    hide World;
  }

  lemma {:induction false} LogMore(m0: Mem, boot: seq<Pte>, cmds: seq<Cmd>, log: seq<Snap>, s: Snap)
    requires Logged(m0, boot, cmds, log) && |log| <= |cmds|
    requires Stepped(log[|log| - 1], cmds[|log| - 1], boot, s) && World(m0, s.m, s.ts, s.regs)
    ensures Logged(m0, boot, cmds, log + [s])
  {
    hide World, Stepped;
  }

  lemma {:induction false} GoodWorld(m0: Mem, mem: Memory, ss: seq<VirtualMemorySpace>, regs: seq<seq<Span>>)
    requires Good(m0, mem, ss, regs)
    ensures |ss| == |regs| && World(m0, mem.V(), Ats(ss), regs)
  {
    hide World;
  }

  /** The parts of all spaces that change are among these objects. */
  ghost predicate Owned(ss: seq<VirtualMemorySpace>, own: set<object>)
    reads *
  {
    forall j :: 0 <= j < |ss| ==>
      ss[j] in own && ss[j].regions in own && ss[j].regions.head in own && forall x :: x in ss[j].regions.list ==> x in own
  }

  lemma {:induction false} OwnsNone(own: set<object>)
    ensures Owned([], own)
  {}

  /** A command that adds a space. */
  method AddOne(mem: Memory, boot: seq<Pte>, ss: seq<VirtualMemorySpace>, cmd: Cmd, ghost regs: seq<seq<Span>>, ghost m0: Mem, ghost own: set<object>)
    returns (ok: bool, ss': seq<VirtualMemorySpace>, ghost own': set<object>)
    requires MemOk(m0) && KernelEntries(boot) && Good(m0, mem, ss, regs) && CmdOk(regs, cmd) && Owned(ss, own) && (cmd.New? || cmd.Fork?)
    modifies mem
    ensures ok ==> Good(m0, mem, ss', After(regs, cmd)) && Owned(ss', own')
    ensures ok ==> Stepped(Snap(old(mem.V()), old(Ats(ss)), regs), cmd, boot, Snap(mem.V(), Ats(ss'), After(regs, cmd)))
    ensures own <= own' && fresh(own' - own)
    ensures !ok ==> mem.free == {}
  {
    hide Good, Stepped, MemOk, KernelEntries, CmdOk, After, Ats, MayEnter, UserFault, RegionList.Valid;
    Sizes(m0, mem, ss, regs);
    Names(regs, cmd);
    if mem.free == {} { return false, ss, own; }
    var s;
    ok := true;
    if cmd.New? {
      s := DoNew(mem, boot, ss, regs, m0);
    } else {
      ok, s := DoFork(mem, boot, ss, cmd.i, regs, m0);
    }
    ss' := ss + [s];
    own' := own + {s, s.regions, s.regions.head} + set x | x in s.regions.list;
  }

  /** A command on one space, which may end it. */
  method ChangeOne(mem: Memory, ss: seq<VirtualMemorySpace>, cmd: Cmd, ghost regs: seq<seq<Span>>, ghost m0: Mem, ghost own: set<object>,
                   ghost boot: seq<Pte>) returns (ss': seq<VirtualMemorySpace>, ghost own': set<object>)
    requires MemOk(m0) && Good(m0, mem, ss, regs) && CmdOk(regs, cmd) && Owned(ss, own) && !cmd.New? && !cmd.Fork?
    modifies mem, own
    ensures Good(m0, mem, ss', After(regs, cmd)) && Owned(ss', own')
    ensures Stepped(Snap(old(mem.V()), old(Ats(ss)), regs), cmd, boot, Snap(mem.V(), Ats(ss'), After(regs, cmd)))
    ensures own <= own' && fresh(own' - own)
  {
    hide Good, Stepped, MemOk, KernelEntries, CmdOk, After, Ats, MayEnter, UserFault, RegionList.Valid;
    Sizes(m0, mem, ss, regs);
    Names(regs, cmd);
    ss', own' := ss, own;
    match cmd {
      case Enter(i, r) =>
        DoEnter(mem, ss, ss[i], i, r, regs, m0, boot);
        own' := own + set j, x | 0 <= j < |ss| && x in ss[j].regions.list :: x;
      case Touch(i, tval) =>
        DoTouch(mem, ss, ss[i], i, tval, regs, m0, boot);
      case Store(i, p, b) =>
        var passed := DoStore(mem, ss, i, p, b, regs, m0, boot);
      case Exit(i) =>
        DoExit(mem, ss, ss[i], i, regs, m0, boot);
        ss' := Cut(ss, i);
    }
  }

  /** Every run from well formed memory keeps all that a world keeps, however many spaces there are; it ends
      early only when pages run out for a new root or during a fork. The states gone through are those of
      `log`: each command does what it says, and all of them are worlds. */
  method Run(mem: Memory, boot: seq<Pte>, cmds: seq<Cmd>) returns (done: bool, ss: seq<VirtualMemorySpace>, ghost log: seq<Snap>)
    requires MemOk(mem.V()) && KernelEntries(boot) && RunOk([], cmds)
    modifies mem
    ensures done ==> Good(old(mem.V()), mem, ss, AfterAll([], cmds))
    ensures !done ==> mem.free == {} && 0 < |log| <= |cmds| && (cmds[|log| - 1].New? || cmds[|log| - 1].Fork?)
    ensures Logged(old(mem.V()), boot, cmds, log)
    ensures done ==> |log| == |cmds| + 1 && log[|cmds|] == Snap(mem.V(), Ats(ss), AfterAll([], cmds))
  {
    hide *;
    ghost var m0, regs: seq<seq<Span>> := mem.V(), [];
    ss := [];
    GoodStart(mem);
    log := [Snap(m0, [], [])];
    GoodWorld(m0, mem, ss, regs);
    LogStart(m0, boot, cmds);
    ghost var own: set<object> := {};
    OwnsNone(own);
    var n := 0;
    assert cmds[0..] == cmds;
    while n < |cmds|
      invariant 0 <= n <= |cmds| && Good(m0, mem, ss, regs) && RunOk(regs, cmds[n..])
      invariant AfterAll([], cmds) == AfterAll(regs, cmds[n..])
      invariant |log| == n + 1 && log[n] == Snap(mem.V(), Ats(ss), regs) && Logged(m0, boot, cmds, log)
      invariant fresh(own) && Owned(ss, own)
    {
      var cmd := cmds[n];
      RunNext(regs, cmds[n..]);
      assert cmds[n..][0] == cmd && cmds[n..][1..] == cmds[n + 1..];
      Sizes(m0, mem, ss, regs);
      Names(regs, cmd);
      if cmd.New? || cmd.Fork? {
        var ok;
        ok, ss, own := AddOne(mem, boot, ss, cmd, regs, m0, own);
        if !ok { return false, ss, log; }
      } else {
        ss, own := ChangeOne(mem, ss, cmd, regs, m0, own, boot);
      }
      regs := After(regs, cmd);
      GoodWorld(m0, mem, ss, regs);
      LogMore(m0, boot, cmds, log, Snap(mem.V(), Ats(ss), regs));
      log := log + [Snap(mem.V(), Ats(ss), regs)];
      n := n + 1;
    }
    RunEnds(regs, cmds[n..]);
    done := true;
  }

  /** Every run that leaves no space leaves memory as it was: allocator, tables, data and reference counts. */
  method Lifecycle(mem: Memory, boot: seq<Pte>, cmds: seq<Cmd>) returns (done: bool)
    requires MemOk(mem.V()) && KernelEntries(boot) && RunOk([], cmds) && AfterAll([], cmds) == []
    modifies mem
    ensures done ==> mem.V() == old(mem.V())
    ensures !done ==> mem.free == {}
  {
    hide World, RunOk, AfterAll, MemOk, KernelEntries;
    ghost var m0 := mem.V();
    var ss;
    ghost var log;
    done, ss, log := Run(mem, boot, cmds);
    if done {
      assert Ats(ss) == [];
      WorldStart(m0, mem.V());
    }
  }
}
