/** Block addresses, block groups and indices within a group, in the source's machine widths. */
module BlockGroups {
  import opened Arith

  const U32 := 0x1_0000_0000

  /** A conversion to uint32_t. */
  function ToU32(x: nat): nat { x % U32 }

  /** The superblock fields that place blocks in groups; `first` is 1 when first_data_block is
      not zero. */
  datatype Geo = Geo(bs: nat, bpg: nat, first: nat, total: nat)
  {
    ghost predicate Ok() {
      0 < bpg <= 8 * bs && bs <= 0x1_0000 && first <= 1 && first < total < U32
    }

    /** An address counted from the first data block. */
    function Shifted(baddr: nat): nat { if first != 0 && baddr != 0 then baddr - 1 else baddr }

    /** ext4_balloc_get_bgid_of_block, a 32-bit result. */
    function BgOf(baddr: nat): nat
      requires bpg > 0
    {
      ToU32(Quot(Shifted(baddr), bpg))
    }

    /** ext4_fs_addr_to_idx_bg. */
    function IdxOf(baddr: nat): nat
      requires bpg > 0
    {
      Rem(Shifted(baddr), bpg)
    }

    /** ext4_fs_bg_idx_to_addr: 32-bit arithmetic. */
    function AddrOf(index: nat, bgid: nat): nat { ToU32(bpg * bgid + ToU32(index + first)) }

    /** ext4_balloc_get_block_of_bgid: the product is a 32-bit one. */
    function BlockOfBg(bgid: nat): nat { first + ToU32(bgid * bpg) }

    /** ext4_block_group_cnt. */
    function GroupCnt(): nat
      requires bpg > 0
    {
      ToU32(ToU32(Quot(total, bpg)) + if Rem(total, bpg) != 0 then 1 else 0)
    }

    /** ext4_blocks_in_group_cnt. */
    function BlocksIn(bgid: nat): int
      requires bpg > 0
    {
      if bgid < GroupCnt() - 1 then bpg else (total - ((GroupCnt() - 1) * bpg) % U32) % U32
    }

    /** n groups are enough for all blocks. */
    predicate Covers(n: nat) { total <= first + n * bpg }

    /** Index i of group g stands for a block of the file system. */
    predicate Real(g: nat, i: nat) { i < bpg && first + g * bpg + i < total }
  }

  /** The conversions without the widths, where they do not matter. */
  lemma {:induction false} PlaceValue(g: Geo, a: nat)
    requires 0 < g.bpg < U32 && a < U32
    ensures g.Shifted(a) == g.BgOf(a) * g.bpg + g.IdxOf(a) && g.IdxOf(a) < g.bpg && g.BgOf(a) <= a
  {
    hide Quot, Rem, ToU32;
    var s := g.Shifted(a);
    Split(s, g.bpg);
    Grows(Quot(s, g.bpg), g.bpg);
    Narrow(Quot(s, g.bpg));
  }

  lemma {:induction false} Narrow(x: nat)
    requires x < U32
    ensures ToU32(x) == x
  {}

  lemma {:induction false} PlaceIs(g: Geo, a: nat, bg: nat, i: nat)
    requires 0 < g.bpg < U32 && a < U32 && g.Shifted(a) == bg * g.bpg + i && i < g.bpg
    ensures g.BgOf(a) == bg && g.IdxOf(a) == i
  {
    hide Geo.BgOf, Geo.IdxOf, Geo.Shifted;
    PlaceValue(g, a);
    Unique(bg, i, g.BgOf(a), g.IdxOf(a), g.bpg);
  }

  lemma {:induction false} AddrValue(g: Geo, i: nat, bg: nat)
    requires g.first <= 1 && i < g.bpg < U32
    ensures g.AddrOf(i, bg) == (bg * g.bpg + i + g.first) % U32
  {
    Narrow(i + g.first);
    assert g.bpg * bg == bg * g.bpg;
  }

  /** Address to group and index and back gives the address exactly for 32-bit addresses, other
      than 0 when the first data block is block 1. */
  lemma {:induction false} AddressRoundTrip(g: Geo, a: nat)
    requires 0 < g.bpg < 0x1_0000_0000 && g.first <= 1
    ensures g.AddrOf(g.IdxOf(a), g.BgOf(a)) == a <==> a < 0x1_0000_0000 && (g.first != 0 ==> a != 0)
  {
    hide Geo.BgOf, Geo.IdxOf, Geo.AddrOf;
    var i, bg := g.IdxOf(a), g.BgOf(a);
    IdxSmall(g, a);
    AddrValue(g, i, bg);
    if a < U32 { PlaceValue(g, a); }
  }

  lemma {:induction false} IdxSmall(g: Geo, a: nat)
    requires g.bpg > 0
    ensures g.IdxOf(a) < g.bpg
  {
    Split(g.Shifted(a), g.bpg);
  }

  /** Group and index to address and back, exactly when the address fits in 32 bits. */
  lemma {:induction false} IndexRoundTrip(g: Geo, i: nat, bg: nat)
    requires 0 < g.bpg < 0x1_0000_0000 && g.first <= 1 && i < g.bpg && bg < 0x1_0000_0000
    ensures g.IdxOf(g.AddrOf(i, bg)) == i && g.BgOf(g.AddrOf(i, bg)) == bg <==> g.first + bg * g.bpg + i < 0x1_0000_0000
  {
    hide Geo.BgOf, Geo.IdxOf, Geo.AddrOf;
    var a := g.AddrOf(i, bg);
    AddrValue(g, i, bg);
    var x := bg * g.bpg + i;
    if x + g.first < U32 {
      PlaceIs(g, a, bg, i);
    } else {
      PlaceValue(g, a);
      assert g.IdxOf(a) == i && g.BgOf(a) == bg ==> g.Shifted(a) == x;
    }
  }

  /** A block of the file system and its place. */
  lemma {:induction false} PlaceOf(g: Geo, a: nat)
    requires g.Ok() && g.first <= a < g.total
    ensures g.Real(g.BgOf(a), g.IdxOf(a)) && a == g.first + g.BgOf(a) * g.bpg + g.IdxOf(a)
  {
    hide Geo.BgOf, Geo.IdxOf, Geo.GroupCnt;
    PlaceValue(g, a);
  }

  lemma {:induction false} RealCovered(g: Geo, bg: nat, i: nat, n: nat)
    requires g.Real(bg, i) && g.Covers(n)
    ensures bg < n
  {
    if n < bg { MulMore(n, bg, g.bpg); }
  }

  /** The place of an address computed from a real position. */
  lemma {:induction false} AddrAt(g: Geo, bg: nat, i: nat)
    requires g.Ok() && g.Real(bg, i)
    ensures var a := g.AddrOf(i, bg);
            a == g.first + bg * g.bpg + i && g.first <= a < g.total && g.BgOf(a) == bg && g.IdxOf(a) == i
  {
    hide Geo.BgOf, Geo.IdxOf, Geo.AddrOf, Geo.GroupCnt;
    AddrValue(g, i, bg);
    PlaceIs(g, g.AddrOf(i, bg), bg, i);
  }

  /** The group count covers the blocks; the last group is not empty. */
  lemma {:induction false} Groups(g: Geo)
    requires g.Ok()
    ensures 0 < g.GroupCnt() < U32
    ensures (g.GroupCnt() - 1) * g.bpg < g.total <= g.GroupCnt() * g.bpg && g.Covers(g.GroupCnt())
  {
    hide Quot, Rem, ToU32;
    Split(g.total, g.bpg);
    CeilingOk(g.total, g.bpg, Quot(g.total, g.bpg), Rem(g.total, g.bpg));
  }

  lemma {:induction false} CeilingOk(x: nat, n: nat, q: nat, r: nat)
    requires x == q * n + r && r < n && 0 < x < U32
    ensures var c := ToU32(ToU32(q) + if r != 0 then 1 else 0); 0 < c < U32 && (c - 1) * n < x <= c * n
  {
    Grows(q, n);
    Narrow(q);
    if r == 0 {
      assert q != 0;
      assert (q - 1) * n == q * n - n;
    } else {
      Narrow(q + 1);
      assert (q + 1) * n == q * n + n;
    }
  }

  /** Every group has a block, none has more than its bits, and all groups but the last have one for each bit: the
      counts are those of the numbers 0 .. total, cut into groups. */
  lemma {:induction false} BlocksInGroup(g: Geo, bg: nat)
    requires g.Ok() && bg < g.GroupCnt()
    ensures 0 < g.BlocksIn(bg) <= g.bpg
    ensures var before := bg * g.bpg; g.BlocksIn(bg) == if before + g.bpg <= g.total then g.bpg else g.total - before
    ensures forall i: nat :: g.Real(bg, i) ==> i < g.BlocksIn(bg)
  {
    hide Geo.GroupCnt;
    Groups(g);
    var last := g.GroupCnt() - 1;
    assert (last + 1) * g.bpg == last * g.bpg + g.bpg;
    if bg == last {
      LastCount(g.total, last * g.bpg);
    } else {
      MulMore(bg, last, g.bpg);
    }
  }

  lemma {:induction false} LastCount(total: nat, x: nat)
    requires x < total < U32
    ensures (total - x % U32) % U32 == total - x
  {}
}
