/** Sv39 page tables in physical memory, and the tree they form for one address space. */
module PageTree {

  /** Page numbers below this one are user space: the last four root entries map the kernel. */
  const USER_PAGES := 508 * 512 * 512

  type Bytes = seq<bv8>

  /** A page table entry, decoded: valid, read, write, execute, user, physical page number. */
  datatype Pte = Pte(v: bool, r: bool, w: bool, x: bool, u: bool, ppn: nat)
  {
    /** Entry::IsPageTable: no permission bit. */
    predicate IsPageTable() { !r && !w && !x }

    /** Step 3 of the hardware's algorithm: invalid, write without read, or a pointer to a table with
        the user bit, which is reserved there. */
    predicate Refused() { !v || (!r && w) || (IsPageTable() && u) }
  }

  const NONE := Pte(false, false, false, false, false, 0)

  /** Physical memory: pages used as tables, pages with data, PAGE::ref of every page, and the
      pages the page allocator holds. */
  datatype Mem = Mem(tabs: map<nat, seq<Pte>>, data: map<nat, Bytes>, ref: map<nat, nat>, free: set<nat>)

  ghost predicate MemOk(m: Mem) {
    && m.tabs.Keys !! m.data.Keys && m.tabs.Keys !! m.free && m.data.Keys !! m.free
    && (forall t :: t in m.tabs ==> |m.tabs[t]| == 512 && t in m.ref && m.ref[t] == 0)
    && (forall p :: p in m.free ==> p in m.ref && m.ref[p] == 0)
    && (forall p :: p in m.data ==> p in m.ref)
  }

  // ----- the tree

  /** The table at `level` that covers the n-th stretch of 512^(level+1) pages. */
  datatype Place = Place(level: nat, n: nat)

  type Tree = map<Place, nat>

  const ROOT := Place(2, 0)

  /** The place of the table behind entry i. */
  function Child(q: Place, i: nat): Place
    requires q.level > 0
  {
    Place(q.level - 1, q.n * 512 + i)
  }

  function Parent(q: Place): Place { Place(q.level + 1, q.n / 512) }

  ghost predicate PlaceOk(q: Place) {
    q.level <= 2 && (q.level == 2 ==> q.n == 0) && (q.level == 1 ==> q.n < 508) && (q.level == 0 ==> q.n < 508 * 512)
  }

  function Entry(m: Mem, at: Tree, q: Place, i: nat): Pte {
    if q in at && at[q] in m.tabs && i < |m.tabs[at[q]]| then m.tabs[at[q]][i] else NONE
  }

  /** What entry i of the table at q must be. */
  ghost predicate EntryOk(m: Mem, at: Tree, q: Place, i: nat) {
    var e := Entry(m, at, q, i);
    if q.level == 0 then e.v ==> !e.IsPageTable() && e.ppn in m.data
    else if q.level == 2 && i >= 508 then e.v && !e.IsPageTable() && !e.u
    else !e.u && e.v == (Child(q, i) in at) && (e.v ==> e.IsPageTable() && e.ppn == at[Child(q, i)])
  }

  ghost predicate Injective(at: Tree) {
    forall q, s :: q in at && s in at && at[q] == at[s] ==> q == s
  }

  ghost predicate Placed(m: Mem, at: Tree) {
    ROOT in at && forall q :: q in at ==> PlaceOk(q) && at[q] in m.tabs && (q.level < 2 ==> Parent(q) in at)
  }

  ghost predicate Entries(m: Mem, at: Tree) {
    forall q, i: nat :: q in at && i < 512 ==> EntryOk(m, at, q, i)
  }

  /** The tables of `at` are the tree of one address space. */
  ghost predicate Hangs(m: Mem, at: Tree) {
    Placed(m, at) && Injective(at) && Entries(m, at)
  }

  /** The entry that maps page p, as the tree has it. */
  function Leaf(m: Mem, at: Tree, p: nat): Pte { Entry(m, at, Place(0, p / 512), p % 512) }

  // ----- translation

  /** What a walk from the root finds for virtual page p. */
  datatype Walked = Nothing | Mapped(e: Pte) | Huge(e: Pte)

  function Table(m: Mem, t: nat, i: nat): Pte {
    if t in m.tabs && i < |m.tabs[t]| then m.tabs[t][i] else NONE
  }

  /** PageTable::VPN of an address in page p. */
  function Vpn(p: nat, n: nat): (i: nat)
    requires n <= 2
    ensures i < 512
  {
    (if n == 0 then p else if n == 1 then p / 512 else p / 262144) % 512
  }

  /** The places a walk to page p goes through. */
  lemma {:induction false} WalkPlaces(p: nat)
    requires p < USER_PAGES
    ensures var q1, q0 := Place(1, Vpn(p, 2)), Place(0, p / 512);
            Child(ROOT, Vpn(p, 2)) == q1 && Vpn(p, 2) < 508 && Child(q1, Vpn(p, 1)) == q0 && Vpn(p, 0) == p % 512
            && Parent(q0) == q1 && PlaceOk(q1) && PlaceOk(q0)
  {}

  /** Half of the pages that Sv39 can address, and all pages of 64-bit addresses. */
  const HALF := 0x400_0000
  const PAGES := 0x10_0000_0000_0000

  /** Bits 63 to 39 of the page's addresses equal bit 38. */
  predicate Canonical(p: nat) { p < HALF || PAGES - HALF <= p < PAGES }

  /** Page numbers have 52 bits, of which the upper 26 are alike. */
  lemma {:induction false} CanonicalIs(p: nat)
    ensures Canonical(p) <==> p / 0x400_0000 in {0, 0x3FF_FFFF}
  {}

  /** The part of a page number that a walk looks at: its 27 low bits. */
  function WalkSlot(p: nat): (q: nat)
    ensures q < 2 * HALF && (p < 2 * HALF ==> q == p)
  {
    p % (2 * HALF)
  }

  /** The address translation of Sv39 (RISC-V Privileged Architecture, version 20211203, sections
      4.3.2 and 4.4) up to the check of the access: reserved entries, misaligned large pages and
      addresses that are not canonical raise a page fault; a valid entry with R or X is a leaf at
      whatever level. The A and D bits are taken to be set by the hardware. */
  function Walk(m: Mem, root: nat, p: nat): Walked {
    if !Canonical(p) then Nothing else
    var e2 := Table(m, root, Vpn(p, 2));
    if e2.Refused() then Nothing
    else if !e2.IsPageTable() then LargePage(e2, 262144)
    else
      var e1 := Table(m, e2.ppn, Vpn(p, 1));
      if e1.Refused() then Nothing
      else if !e1.IsPageTable() then LargePage(e1, 512)
      else
        var e0 := Table(m, e1.ppn, Vpn(p, 0));
        if e0.Refused() || e0.IsPageTable() then Nothing else Mapped(e0)
  }

  /** A leaf above level 0 must be aligned to its size. */
  function LargePage(e: Pte, pages: nat): Walked
    requires pages > 0
  {
    if e.ppn % pages == 0 then Huge(e) else Nothing
  }

  /** What the hardware makes of entry e for page p. */
  function Seen(p: nat, e: Pte): Walked {
    if Canonical(p) && !e.Refused() then Mapped(e) else Nothing
  }

  lemma {:induction false} WalkSlotVpn(p: nat)
    ensures Vpn(p, 0) == Vpn(WalkSlot(p), 0) && Vpn(p, 1) == Vpn(WalkSlot(p), 1) && Vpn(p, 2) == Vpn(WalkSlot(p), 2)
  {
    var k, q := p / (2 * HALF), WalkSlot(p);
    assert p == k * 134217728 + q;
    assert p / 512 == k * 262144 + q / 512;
    assert p / 262144 == k * 512 + q / 262144;
  }

  lemma {:induction false} EntryAt(m: Mem, at: Tree, q: Place, i: nat)
    requires Hangs(m, at) && q in at && i < 512
    ensures EntryOk(m, at, q, i) && PlaceOk(q) && at[q] in m.tabs
    ensures Entry(m, at, q, i) == Table(m, at[q], i)
  {}

  /** The walk through user space meets the tree's leaf, for every page whose walk goes there. */
  lemma {:induction false} WalkIsLeaf(m: Mem, at: Tree, p: nat)
    requires Hangs(m, at) && WalkSlot(p) < USER_PAGES
    ensures ROOT in at && Walk(m, at[ROOT], p) == Seen(p, Leaf(m, at, WalkSlot(p)))
  {
    hide Hangs, Entry, Table, Vpn, Child, Parent, WalkSlot, Canonical;
    var q := WalkSlot(p);
    WalkSlotVpn(p);
    WalkPlaces(q);
    var q1, q0 := Place(1, Vpn(q, 2)), Place(0, q / 512);
    RootIn(m, at);
    EntryAt(m, at, ROOT, Vpn(q, 2));
    if q1 in at {
      EntryAt(m, at, q1, Vpn(q, 1));
    } else {
      ParentIn(m, at, q0);
    }
    if q0 in at {
      EntryAt(m, at, q0, Vpn(q, 0));
    } else {
      NoTable(m, at, q0, Vpn(q, 0));
    }
  }

  lemma {:induction false} NoTable(m: Mem, at: Tree, q: Place, i: nat)
    requires q !in at
    ensures Entry(m, at, q, i) == NONE
  {}

  lemma {:induction false} RootIn(m: Mem, at: Tree)
    requires Hangs(m, at)
    ensures ROOT in at
  {}

  lemma {:induction false} ParentIn(m: Mem, at: Tree, q: Place)
    requires Hangs(m, at)
    ensures q in at && q.level < 2 ==> Parent(q) in at
  {}

  // ----- changing the tree

  function Empty(): (s: seq<Pte>)
    ensures |s| == 512 && forall i :: 0 <= i < 512 ==> s[i] == NONE == Pte(false, false, false, false, false, 0)
  {
    seq(512, _ => NONE)
  }

  /** Entry::SetPageTable keeps the other bits of the entry. */
  function SetTable(e: Pte, ppn: nat): Pte { e.(v := true, r := false, w := false, x := false, ppn := ppn) }

  function WithEntry(m: Mem, t: nat, i: nat, e: Pte): Mem {
    if t in m.tabs && i < |m.tabs[t]| then m.(tabs := m.tabs[t := m.tabs[t][i := e]]) else m
  }

  /** Free page c becomes an empty table. */
  function NewTable(m: Mem, c: nat): Mem { m.(tabs := m.tabs[c := Empty()], free := m.free - {c}) }

  /** A new table c behind entry i of table t. */
  function AddTable(m: Mem, t: nat, i: nat, c: nat): Mem {
    WithEntry(NewTable(m, c), t, i, SetTable(Table(m, t, i), c))
  }

  lemma {:induction false} ChildOk(q: Place, i: nat)
    requires PlaceOk(q) && q.level > 0 && i < 512 && (q.level == 2 ==> i < 508)
    ensures PlaceOk(Child(q, i)) && Parent(Child(q, i)) == q && Child(q, i).n % 512 == i
    ensures forall s: Place, j: nat :: s.level > 0 && j < 512 && Child(s, j) == Child(q, i) ==> s == q && j == i
  {
    forall s: Place, j: nat | s.level > 0 && j < 512 && Child(s, j) == Child(q, i) ensures s == q && j == i {
      assert s.n * 512 + j == q.n * 512 + i;
    }
  }

  /** Hanging a new empty table into the tree maps no page and unmaps none. */
  lemma {:induction false} AddTableOk(m: Mem, at: Tree, q: Place, i: nat, c: nat)
    requires MemOk(m) && Hangs(m, at) && q in at && q.level > 0 && i < 512 && (q.level == 2 ==> i < 508)
    requires c in m.free && !Entry(m, at, q, i).v
    ensures var m', at' := AddTable(m, at[q], i, c), at[Child(q, i) := c];
            MemOk(m') && Hangs(m', at') && Child(q, i) !in at
            && forall p :: Leaf(m', at', p) == Leaf(m, at, p)
  {
    hide MemOk, Hangs, Injective;
    AddTablePlaced(m, at, q, i, c);
    AddTableMem(m, at, q, i, c);
    AddTableEntries(m, at, q, i, c);
    AddTableLeaves(m, at, q, i, c);
    HangsIf(AddTable(m, at[q], i, c), at[Child(q, i) := c]);
  }

  lemma {:induction false} HangsIf(m: Mem, at: Tree)
    requires Placed(m, at) && Injective(at) && Entries(m, at)
    ensures Hangs(m, at)
  {}

  lemma {:induction false} AddTableMem(m: Mem, at: Tree, q: Place, i: nat, c: nat)
    requires MemOk(m) && Hangs(m, at) && q in at && i < 512 && c in m.free
    ensures MemOk(AddTable(m, at[q], i, c))
  {
    hide Hangs, Entries;
    EntryAt(m, at, q, i);
  }

  lemma {:induction false} AddTablePlaced(m: Mem, at: Tree, q: Place, i: nat, c: nat)
    requires MemOk(m) && Hangs(m, at) && q in at && q.level > 0 && i < 512 && (q.level == 2 ==> i < 508)
    requires c in m.free && !Entry(m, at, q, i).v
    ensures var m', at' := AddTable(m, at[q], i, c), at[Child(q, i) := c];
            Placed(m', at') && Injective(at') && Child(q, i) !in at
  {
    EntryAt(m, at, q, i);
    ChildOk(q, i);
  }

  lemma {:induction false} AddTableEntry(m: Mem, at: Tree, q: Place, i: nat, c: nat, s: Place, j: nat)
    requires MemOk(m) && Hangs(m, at) && q in at && q.level > 0 && i < 512 && c in m.free && Child(q, i) !in at && j < 512
    ensures Entry(AddTable(m, at[q], i, c), at[Child(q, i) := c], s, j)
         == if s == Child(q, i) then NONE
            else if s == q && j == i then SetTable(Entry(m, at, q, i), c)
            else Entry(m, at, s, j)
  {
    EntryAt(m, at, q, i);
    if s in at { EntryAt(m, at, s, j); }
  }

  lemma {:induction false} AddTableEntries(m: Mem, at: Tree, q: Place, i: nat, c: nat)
    requires MemOk(m) && Hangs(m, at) && q in at && q.level > 0 && i < 512 && (q.level == 2 ==> i < 508)
    requires c in m.free && !Entry(m, at, q, i).v && Child(q, i) !in at
    ensures Entries(AddTable(m, at[q], i, c), at[Child(q, i) := c])
  {
    hide MemOk, Hangs, Entry, Child;
    var m', at' := AddTable(m, at[q], i, c), at[Child(q, i) := c];
    EntryAt(m, at, q, i);
    ChildOk(q, i);
    forall s, j: nat | s in at' && j < 512 ensures EntryOk(m', at', s, j) {
      AddTableEntry(m, at, q, i, c, s, j);
      if s == Child(q, i) {
        if s.level > 0 { Orphan(m, at, s, j); }
      } else {
        EntryAt(m, at, s, j);
      }
    }
  }

  /** A table that is not in the tree has no children there. */
  lemma {:induction false} Orphan(m: Mem, at: Tree, s: Place, j: nat)
    requires Hangs(m, at) && s !in at && 0 < s.level <= 2 && j < 512
    ensures Child(s, j) !in at
  {
    assert (s.n * 512 + j) / 512 == s.n;
    assert Parent(Child(s, j)) == s;
  }

  lemma {:induction false} AddTableLeaves(m: Mem, at: Tree, q: Place, i: nat, c: nat)
    requires MemOk(m) && Hangs(m, at) && q in at && q.level > 0 && i < 512 && c in m.free && Child(q, i) !in at
    ensures forall p :: Leaf(AddTable(m, at[q], i, c), at[Child(q, i) := c], p) == Leaf(m, at, p)
  {
    hide MemOk, Hangs, Entry, Child;
    forall p: nat ensures Leaf(AddTable(m, at[q], i, c), at[Child(q, i) := c], p) == Leaf(m, at, p) {
      AddTableEntry(m, at, q, i, c, Place(0, p / 512), p % 512);
      NoEntry(m, at, Place(0, p / 512), p % 512);
    }
  }

  lemma {:induction false} NoEntry(m: Mem, at: Tree, q: Place, i: nat)
    ensures q !in at ==> Entry(m, at, q, i) == NONE
  {}

  /** Page p's entry becomes e, in the level 0 table that covers it. */
  lemma {:induction false} SetLeafOk(m: Mem, at: Tree, p: nat, e: Pte)
    requires MemOk(m) && Hangs(m, at) && Place(0, p / 512) in at && e.v && !e.IsPageTable() && e.ppn in m.data
    ensures var m' := WithEntry(m, at[Place(0, p / 512)], p % 512, e);
            MemOk(m') && Hangs(m', at) && forall s: nat :: Leaf(m', at, s) == if s == p then e else Leaf(m, at, s)
  {
    hide MemOk, Hangs, Entry;
    var q := Place(0, p / 512);
    var m' := WithEntry(m, at[q], p % 512, e);
    SetLeafMem(m, at, p, e);
    forall s, j: nat | s in at && j < 512 ensures EntryOk(m', at, s, j) {
      EntryAt(m, at, s, j);
      SetLeafEntry(m, at, p, e, s, j);
    }
    HangsIf(m', at);
    forall s: nat ensures Leaf(m', at, s) == if s == p then e else Leaf(m, at, s) {
      SetLeafEntry(m, at, p, e, Place(0, s / 512), s % 512);
      SamePage(s, p);
    }
  }

  lemma {:induction false} SamePage(s: nat, p: nat)
    ensures s / 512 == p / 512 && s % 512 == p % 512 ==> s == p
  {}

  lemma {:induction false} SetLeafMem(m: Mem, at: Tree, p: nat, e: Pte)
    requires MemOk(m) && Hangs(m, at) && Place(0, p / 512) in at
    ensures var m' := WithEntry(m, at[Place(0, p / 512)], p % 512, e);
            MemOk(m') && Placed(m', at) && Injective(at)
  {
    hide Entries;
  }

  lemma {:induction false} SetLeafEntry(m: Mem, at: Tree, p: nat, e: Pte, s: Place, j: nat)
    requires MemOk(m) && Hangs(m, at) && Place(0, p / 512) in at && j < 512
    ensures Entry(WithEntry(m, at[Place(0, p / 512)], p % 512, e), at, s, j)
         == if s == Place(0, p / 512) && j == p % 512 then e else Entry(m, at, s, j)
  {
    hide Entries;
    assert at[Place(0, p / 512)] in m.tabs && |m.tabs[at[Place(0, p / 512)]]| == 512;
  }

  /** A tree whose tables are untouched keeps its leaves. */
  lemma {:induction false} OtherTree(m: Mem, m': Mem, at: Tree)
    requires Hangs(m, at) && m.data.Keys <= m'.data.Keys
    requires forall q :: q in at ==> at[q] in m'.tabs && at[q] in m.tabs && m'.tabs[at[q]] == m.tabs[at[q]]
    ensures Hangs(m', at) && forall p :: Leaf(m', at, p) == Leaf(m, at, p)
  {
    forall q, i: nat | q in at && i < 512 ensures EntryOk(m', at, q, i) {
      assert EntryOk(m, at, q, i) && Entry(m', at, q, i) == Entry(m, at, q, i);
    }
  }

  // ----- data pages

  /** Free page c gets contents b. */
  function NewData(m: Mem, c: nat, b: Bytes): Mem { m.(data := m.data[c := b], free := m.free - {c}) }

  function RefTo(m: Mem, c: nat): Mem { m.(ref := m.ref[c := (if c in m.ref then m.ref[c] else 0) + 1]) }

  /** Two virtual pages never map to the same physical page. */
  ghost predicate LeavesApart(m: Mem, at: Tree) {
    forall p, s :: Leaf(m, at, p).v && Leaf(m, at, s).v && Leaf(m, at, p).ppn == Leaf(m, at, s).ppn ==> p == s
  }

  /** A page that becomes a data page, with the reference of its new mapping. */
  function NewPage(m: Mem, c: nat, b: Bytes): Mem { RefTo(NewData(m, c, b), c) }

  lemma {:induction false} NewPageOk(m: Mem, at: Tree, c: nat, b: Bytes)
    requires MemOk(m) && Hangs(m, at) && c in m.free
    ensures var m' := NewPage(m, c, b);
            MemOk(m') && Hangs(m', at) && c in m'.data && c !in m.data && m'.data[c] == b && c in m'.ref && m'.ref[c] == 1
            && forall p :: Leaf(m', at, p) == Leaf(m, at, p)
  {
    hide Hangs, Entries;
    OtherTreeIf(m, NewPage(m, c, b), at);
  }

  lemma {:induction false} OtherTreeIf(m: Mem, m': Mem, at: Tree)
    requires Hangs(m, at) && m.data.Keys <= m'.data.Keys && m'.tabs == m.tabs
    ensures Hangs(m', at) && forall p :: Leaf(m', at, p) == Leaf(m, at, p)
  {
    hide Entries, EntryOk;
    OtherTree(m, m', at);
  }

  lemma {:induction false} LeafData(m: Mem, at: Tree, p: nat)
    requires Hangs(m, at) && Leaf(m, at, p).v
    ensures Leaf(m, at, p).ppn in m.data && !Leaf(m, at, p).IsPageTable() && p < USER_PAGES && Place(0, p / 512) in at
  {
    assert EntryOk(m, at, Place(0, p / 512), p % 512);
  }

  // ----- a new address space

  /** The root entries of the kernel: valid leaves without the user bit. */
  ghost predicate KernelEntries(boot: seq<Pte>) {
    |boot| == 4 && forall i :: 0 <= i < 4 ==> boot[i].v && !boot[i].IsPageTable() && !boot[i].u
  }

  /** The last four entries of boot_page_table_sv39: the first 4 GB of physical memory. */
  function Boot(): (boot: seq<Pte>)
    ensures KernelEntries(boot)
  {
    seq(4, i requires 0 <= i < 4 => Pte(true, true, true, true, false, i * 262144))
  }

  /** InitAsPDT on free page c: empty but for the kernel's last four entries. */
  function NewRoot(m: Mem, c: nat, boot: seq<Pte>): Mem {
    m.(tabs := m.tabs[c := Empty()[..508] + boot], free := m.free - {c})
  }

  lemma {:induction false} NewRootOk(m: Mem, c: nat, boot: seq<Pte>)
    requires MemOk(m) && c in m.free && KernelEntries(boot)
    ensures var m', at := NewRoot(m, c, boot), map[ROOT := c];
            MemOk(m') && Hangs(m', at) && forall p :: !Leaf(m', at, p).v
  {
    hide Entries;
    var m', at := NewRoot(m, c, boot), map[ROOT := c];
    forall q, i: nat | q in at && i < 512 ensures EntryOk(m', at, q, i) {
      assert q == ROOT && Child(q, i) !in at;
    }
    assert Entries(m', at) by { EntriesIf(m', at); }
  }

  lemma {:induction false} EntriesIf(m: Mem, at: Tree)
    requires forall q, i: nat :: q in at && i < 512 ==> EntryOk(m, at, q, i)
    ensures Entries(m, at)
  {}
}
