/** The 64-bit page table entries behind the decoded ones: flags in the low byte, the physical
    page number in bits 10 to 53. */
module PteBits {

  /** Entry::Get and Entry::Set for a field of `mask` shifted by `i`. */
  function Get(x: bv64, i: nat, mask: bv64): bv64
    requires i < 64
  {
    (x >> i) & mask
  }

  function Set(x: bv64, i: nat, mask: bv64, y: bv64): bv64
    requires i < 64
  {
    (x & !(mask << i)) | (y << i)
  }

  const PPN: bv64 := 0xFFF_FFFF_FFFF
  const XWR: bv64 := 7
  const FLAGS: bv64 := 0xFF

  function GetV(x: bv64): bv64 { Get(x, 0, 1) }
  function GetXwr(x: bv64): bv64 { Get(x, 1, XWR) }
  function GetU(x: bv64): bv64 { Get(x, 4, 1) }
  function GetPpn(x: bv64): bv64 { Get(x, 10, PPN) }

  /** SetPage: the flags and the page number replace what was there. */
  function SetPage(x: bv64, flags: bv64, ppn: bv64): bv64 { Set(Set(x, 0, FLAGS, flags), 10, PPN, ppn) }

  /** SetPageTable. */
  function SetPageTable(x: bv64, ppn: bv64): bv64 { Set(Set(Set(x, 0, 1, 1), 1, XWR, 0), 10, PPN, ppn) }

  /** ToPageEntryFlags of a region with these permissions. */
  function EntryFlags(r: bool, w: bool, x: bool, kernel: bool): bv64 {
    1 | (if r then 2 else 0) | (if w then 4 else 0) | (if x then 8 else 0) | (if kernel then 0 else 16)
  }

  /** The accessed and dirty bits. */
  const AD: bv64 := 0xC0

  /** An entry written by SetPage reads back its permissions and page, whatever it held before, with the
      accessed and dirty bits clear: the hardware must set them itself. */
  lemma {:induction false} PageReads(e: bv64, r: bool, w: bool, x: bool, kernel: bool, ppn: bv64)
    requires ppn <= 0xFFF_FFFF_FFFF
    ensures var n := SetPage(e, EntryFlags(r, w, x, kernel), ppn);
            GetV(n) == 1 && GetPpn(n) == ppn && GetU(n) == (if kernel then 0 else 1)
            && GetXwr(n) == (if r then 1 else 0) | (if w then 2 else 0) | (if x then 4 else 0)
            && (GetXwr(n) == 0 <==> !r && !w && !x) && n & 0xC0 == 0
  {
    var f := EntryFlags(r, w, x, kernel);
    FieldsOf(e, f, ppn);
  }

  /** The layout of the entry in bits: valid, read, write, execute and user are the lowest five, the page number
      begins at bit 10, and the two bits between and the ten above it stay. */
  lemma {:induction false} PageLayout(e: bv64, r: bool, w: bool, x: bool, kernel: bool, ppn: bv64)
    requires ppn <= 0xFFF_FFFF_FFFF
    ensures var n := SetPage(e, EntryFlags(r, w, x, kernel), ppn);
            && n & 1 == 1 && (n & 2 != 0 <==> r) && (n & 4 != 0 <==> w) && (n & 8 != 0 <==> x) && (n & 16 != 0 <==> !kernel)
            && n & 0xE0 == 0 && (n >> 10) & 0xFFF_FFFF_FFFF == ppn && n & 0xFFC0_0000_0000_0300 == e & 0xFFC0_0000_0000_0300
  {}

  lemma {:induction false} FieldsOf(e: bv64, f: bv64, ppn: bv64)
    requires ppn <= PPN && f <= FLAGS
    ensures var n := SetPage(e, f, ppn);
            GetV(n) == f & 1 && GetPpn(n) == ppn && GetU(n) == (f >> 4) & 1 && GetXwr(n) == (f >> 1) & 7
            && n & AD == f & AD
  {
    hide Get, Set, GetV, GetXwr, GetU, GetPpn;
    var e1 := Set(e, 0, FLAGS, f);
    FlagsSet(e, f);
    PpnApart(e1, ppn);
    var n := Set(e1, 10, PPN, ppn);
    LowFields(n, f);
    HighFlags(n, f);
  }

  lemma {:induction false} HighFlags(n: bv64, f: bv64)
    requires n & FLAGS == f & FLAGS
    ensures n & AD == f & AD
  {
    assert n & AD == n & FLAGS & AD && f & AD == f & FLAGS & AD;
  }

  lemma {:induction false} FlagsSet(e: bv64, f: bv64)
    requires f <= FLAGS
    ensures Set(e, 0, FLAGS, f) & FLAGS == f & FLAGS
  {}

  /** Setting the page number leaves the low ten bits alone. */
  lemma {:induction false} PpnApart(e: bv64, ppn: bv64)
    requires ppn <= PPN
    ensures var n := Set(e, 10, PPN, ppn); GetPpn(n) == ppn && n & 0x3FF == e & 0x3FF && n & FLAGS == e & FLAGS
  {}

  lemma {:induction false} LowFields(n: bv64, f: bv64)
    requires n & FLAGS == f & FLAGS
    ensures GetV(n) == f & 1 && GetU(n) == (f >> 4) & 1 && GetXwr(n) == (f >> 1) & 7
  {}

  /** An entry written by SetPageTable is valid, has no permission and reads back the table; its
      other bits stay. */
  lemma {:induction false} TableReads(e: bv64, ppn: bv64)
    requires ppn <= PPN
    ensures var n := SetPageTable(e, ppn);
            GetV(n) == 1 && GetXwr(n) == 0 && GetPpn(n) == ppn && GetU(n) == GetU(e)
  {
    var e1 := Set(Set(e, 0, 1, 1), 1, XWR, 0);
    assert e1 & FLAGS == (e & 0xF0) | 1;
    PpnApart(e1, ppn);
    LowFields(Set(e1, 10, PPN, ppn), (e & 0xF0) | 1);
  }

  /** The same for a table's entry, which keeps the user bit and those above it, too. */
  lemma {:induction false} TableLayout(e: bv64, ppn: bv64)
    requires ppn <= 0xFFF_FFFF_FFFF
    ensures var n := SetPageTable(e, ppn);
            n & 15 == 1 && (n >> 10) & 0xFFF_FFFF_FFFF == ppn && n & 0xFFC0_0000_0000_03F0 == e & 0xFFC0_0000_0000_03F0
  {}

  const PV_OFFSET: bv64 := 0xFFFF_FFFF_0000_0000

  /** PAddr() >> 12 of a kernel address, and GetPPN_KAddr back: inverse on page-aligned addresses
      of the window that maps physical memory. */
  lemma {:induction false} KernelAddress(kaddr: bv64)
    requires 0xFFFF_FFFF_0000_0000 <= kaddr
    ensures ((kaddr - PV_OFFSET) >> 12) < 0x10_0000
    ensures (((kaddr - PV_OFFSET) >> 12) << 12) + 0xFFFF_FFFF_0000_0000 == kaddr <==> kaddr & 0xFFF == 0
  {}
}
