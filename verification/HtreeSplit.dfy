/** Splitting a full leaf block: collect the live records, sort them by hash, pack the
    lighter half of the bytes back and the rest into a new block. */
module HtreeSplit {
  import opened DirNames
  import opened DirBlock
  import opened HtreeImage
  import opened HtreeSort

  ghost function SumItems(items: seq<Item>): nat {
    if items == [] then 0 else SumItems(items[..|items| - 1]) + items[|items| - 1].len
  }

  ghost function LiveItems(items: seq<Item>): multiset<Entry> {
    if items == [] then multiset{} else LiveItems(items[..|items| - 1]) + EntryOf(items[|items| - 1].rec)
  }

  lemma {:induction false} ItemsConcat(a: seq<Item>, b: seq<Item>)
    ensures SumItems(a + b) == SumItems(a) + SumItems(b)
    ensures LiveItems(a + b) == LiveItems(a) + LiveItems(b)
  {
    hide EntryOf;
    if b == [] {
      assert a + b == a;
    } else {
      var c := b[..|b| - 1];
      ItemsConcat(a, c);
      assert (a + b)[..|a + b| - 1] == a + c;
    }
  }

  lemma {:induction false} ItemsOne(x: Item)
    ensures SumItems([x]) == x.len && LiveItems([x]) == EntryOf(x.rec)
  {
    assert [x][..0] == [];
  }

  lemma {:induction false} ItemsNil()
    ensures SumItems([]) == 0 && LiveItems([]) == multiset{}
  {}

  lemma {:induction false} ItemsStep(items: seq<Item>, i: nat)
    requires i < |items|
    ensures SumItems(items[..i + 1]) == SumItems(items[..i]) + items[i].len
    ensures LiveItems(items[..i + 1]) == LiveItems(items[..i]) + EntryOf(items[i].rec)
  {
    assert items[..i + 1][..i] == items[..i];
  }

  lemma {:induction false} ItemsCut(items: seq<Item>, m: nat)
    requires m <= |items|
    ensures SumItems(items) == SumItems(items[..m]) + SumItems(items[m..])
    ensures LiveItems(items) == LiveItems(items[..m]) + LiveItems(items[m..])
  {
    assert items == items[..m] + items[m..];
    ItemsConcat(items[..m], items[m..]);
  }

  lemma {:induction false} TakeOut<T>(s: seq<T>, k: nat)
    requires k < |s|
    ensures multiset(s) == multiset(s[..k] + s[k + 1..]) + multiset{s[k]}
  {
    assert s == s[..k] + [s[k]] + s[k + 1..];
  }

  lemma {:induction false} Cancel<T>(x: multiset<T>, y: multiset<T>, m: multiset<T>)
    requires x + m == y + m
    ensures x == y
  {
    forall e ensures x[e] == y[e] { assert (x + m)[e] == (y + m)[e]; }
  }

  lemma {:induction false} ItemsTakeOut(s: seq<Item>, k: nat)
    requires k < |s|
    ensures SumItems(s) == SumItems(s[..k] + s[k + 1..]) + s[k].len
    ensures LiveItems(s) == LiveItems(s[..k] + s[k + 1..]) + EntryOf(s[k].rec)
  {
    hide SumItems, LiveItems, EntryOf;
    ItemsOne(s[k]);
    assert s == s[..k] + [s[k]] + s[k + 1..];
    ItemsConcat(s[..k] + [s[k]], s[k + 1..]);
    ItemsConcat(s[..k], [s[k]]);
    ItemsConcat(s[..k], s[k + 1..]);
  }

  /** The folds do not see the order. */
  lemma {:induction false} ItemsPermuted(a: seq<Item>, b: seq<Item>)
    requires multiset(a) == multiset(b)
    ensures SumItems(a) == SumItems(b) && LiveItems(a) == LiveItems(b)
    decreases |a|
  {
    hide SumItems, LiveItems, EntryOf;
    if a == [] {
      assert |multiset(b)| == 0;
    } else {
      assert a[0] in multiset(b);
      var k :| 0 <= k < |b| && b[k] == a[0];
      TakeOut(a, 0);
      TakeOut(b, k);
      ItemsTakeOut(a, 0);
      ItemsTakeOut(b, k);
      Cancel(multiset(a[..0] + a[1..]), multiset(b[..k] + b[k + 1..]), multiset{a[0]});
      ItemsPermuted(a[..0] + a[1..], b[..k] + b[k + 1..]);
    }
  }

  ghost predicate Lists(items: seq<Item>, e: Entry) {
    exists i :: 0 <= i < |items| && Entry(items[i].rec.name, items[i].rec.inode) == e
  }

  lemma {:induction false} ListsSnoc(items: seq<Item>, e: Entry)
    requires items != []
    ensures var n := |items| - 1;
            Lists(items, e) <==> Lists(items[..n], e) || Entry(items[n].rec.name, items[n].rec.inode) == e
  {
    var n := |items| - 1;
    if Lists(items[..n], e) {
      var i :| 0 <= i < n && Entry(items[..n][i].rec.name, items[..n][i].rec.inode) == e;
      assert items[i] == items[..n][i];
    }
    if i :| 0 <= i < n && Entry(items[i].rec.name, items[i].rec.inode) == e {
      assert items[i] == items[..n][i];
    }
  }

  /** What is listed comes from some item. */
  lemma {:induction false} ItemsMember(items: seq<Item>, e: Entry)
    requires forall i :: 0 <= i < |items| ==> items[i].rec.inode != 0
    ensures e in LiveItems(items) <==> Lists(items, e)
  {
    hide Lists;
    if items == [] {
      NoneListed(e);
    } else {
      var n := |items| - 1;
      ItemsMember(items[..n], e);
      ListsSnoc(items, e);
    }
  }

  lemma {:induction false} NoneListed(e: Entry)
    ensures !Lists([], e)
  {}

  // ----- collecting

  /** The live records in block order. */
  ghost function ItemsOf(recs: seq<Rec>, raw: Name -> nat): seq<Item> {
    if recs == [] then []
    else
      var r := recs[|recs| - 1];
      ItemsOf(recs[..|recs| - 1], raw) + if r.inode != 0 && |r.name| != 0 then [Item(Hash(raw, r.name), Need(|r.name|), r)] else []
  }

  lemma {:induction false} ItemsOfStep(recs: seq<Rec>, i: nat, raw: Name -> nat)
    requires i < |recs|
    ensures ItemsOf(recs[..i + 1], raw) ==
            ItemsOf(recs[..i], raw)
            + if recs[i].inode != 0 && |recs[i].name| != 0 then [Item(Hash(raw, recs[i].name), Need(|recs[i].name|), recs[i])] else []
  {
    hide Hash;
    assert recs[..i + 1][..i] == recs[..i];
  }

  /** The first loop of ext4_dir_dx_split_data: every live record, in block order. */
  method Collect(recs: seq<Rec>, bs: nat, raw: Name -> nat) returns (items: seq<Item>)
    requires Tiled(recs, bs)
    ensures items == ItemsOf(recs, raw) && ItemsOk(items, raw)
    ensures SumItems(items) == LiveSize(recs) && LiveItems(items) == Live(recs)
    ensures SumItems(items) <= bs
  {
    hide SumLen, Live, LiveSize, SumItems, LiveItems, Hash, ItemsOf;
    Nil();
    ItemsNil();
    NoItems(raw);
    items := [];
    var i, off := 0, 0;
    assert recs[..0] == [];
    while off < bs
      invariant 0 <= i <= |recs| && off == SumLen(recs[..i])
      invariant off < bs ==> i < |recs|
      invariant ItemsOk(items, raw) && items == ItemsOf(recs[..i], raw)
      invariant SumItems(items) == LiveSize(recs[..i]) <= SumLen(recs[..i])
      invariant LiveItems(items) == Live(recs[..i])
      decreases |recs| - i
    {
      PrefixStep(recs, i);
      One(recs[i]);
      ItemsOfStep(recs, i, raw);
      if recs[i].inode != 0 && |recs[i].name| != 0 {
        var recLen := HEADER + |recs[i].name|;
        if recLen % 4 != 0 {
          recLen := recLen + 4 - recLen % 4;
        }
        assert recLen == Need(|recs[i].name|) <= recs[i].len;
        ItemsConcat(items, [Item(Hash(raw, recs[i].name), recLen, recs[i])]);
        ItemsOne(Item(Hash(raw, recs[i].name), recLen, recs[i]));
        items := items + [Item(Hash(raw, recs[i].name), recLen, recs[i])];
      }
      off := off + recs[i].len;
      i := i + 1;
      assert i == |recs| ==> recs[..i] == recs;
    }
    CutAll(recs);
    Exhausted(recs, bs, i);
  }

  lemma {:induction false} NoItems(raw: Name -> nat)
    ensures ItemsOf([], raw) == []
  {}

  // ----- packing

  /** Items written one after another; the last record takes the rest of the block. */
  ghost function Packed(items: seq<Item>, bs: nat): seq<Rec>
    requires 0 < |items| && SumItems(items[..|items| - 1]) <= bs
  {
    Bodies(items[..|items| - 1]) + [Last(items, bs)]
  }

  ghost function Last(items: seq<Item>, bs: nat): Rec
    requires 0 < |items| && SumItems(items[..|items| - 1]) <= bs
  {
    items[|items| - 1].rec.(len := bs - SumItems(items[..|items| - 1]))
  }

  ghost function Bodies(items: seq<Item>): seq<Rec> {
    if items == [] then []
    else Bodies(items[..|items| - 1]) + [items[|items| - 1].rec.(len := items[|items| - 1].len)]
  }

  lemma {:induction false} BodiesSnoc(items: seq<Item>, x: Item)
    ensures Bodies([]) == [] && Bodies(items + [x]) == Bodies(items) + [x.rec.(len := x.len)]
  {
    var s := items + [x];
    assert s[..|s| - 1] == items;
  }

  lemma {:induction false} BodiesOk(items: seq<Item>, raw: Name -> nat)
    requires ItemsOk(items, raw)
    ensures |Bodies(items)| == |items| && forall k :: 0 <= k < |items| ==> RecOk(Bodies(items)[k])
    ensures SumLen(Bodies(items)) == LiveSize(Bodies(items)) == SumItems(items) && SumItems(items) % 4 == 0
    ensures Live(Bodies(items)) == LiveItems(items)
  {
    hide SumLen, Live, LiveSize, EntryOf, Hash, Bodies, SumItems, LiveItems;
    if items == [] {
      Nil();
      ItemsNil();
      BodiesSnoc([], Item(0, 0, Rec(0, 0, [], 0)));
    } else {
      var n := |items| - 1;
      var x := items[n];
      var r := x.rec.(len := x.len);
      BodiesOk(items[..n], raw);
      assert items == items[..n] + [x];
      BodiesSnoc(items[..n], x);
      Snoc(Bodies(items[..n]), r);
      ItemsConcat(items[..n], [x]);
      ItemsOne(x);
      SameEntry(x.rec, x.len);
    }
  }

  lemma {:induction false} SameEntry(r: Rec, len: nat)
    ensures EntryOf(r.(len := len)) == EntryOf(r)
  {}

  /** Packing loses nothing, fills the block exactly, and leaves all the spare bytes behind
      the last record. */
  lemma {:induction false} PackedOk(items: seq<Item>, bs: nat, raw: Name -> nat)
    requires ItemsOk(items, raw) && 0 < |items| && SumItems(items) <= bs && bs % 4 == 0 && bs < 0x1_0000
    ensures SumItems(items[..|items| - 1]) <= bs
    ensures Tiled(Packed(items, bs), bs)
    ensures Live(Packed(items, bs)) == LiveItems(items)
    ensures LiveSize(Packed(items, bs)) == SumItems(items)
    ensures |Packed(items, bs)| == |items| && HasRoom(Packed(items, bs)[|items| - 1], bs - SumItems(items))
  {
    hide SumLen, Live, LiveSize, EntryOf, SumItems, LiveItems, Bodies, Hash, Packed, RecOk, HasRoom, Need, ItemsOk;
    var n := |items| - 1;
    ItemsStep(items, n);
    assert items[..n + 1] == items;
    PrefixItemsOk(items, raw);
    BodiesOk(items[..n], raw);
    var r := items[n].rec.(len := bs - SumItems(items[..n]));
    PackedIs(items, bs);
    LastOk(items[n], r, SumItems(items[..n]), bs, raw);
    Snoc(Bodies(items[..n]), r);
    SameEntry(items[n].rec, r.len);
    AllRecOk(Bodies(items[..n]), r);
  }

  lemma {:induction false} PrefixItemsOk(items: seq<Item>, raw: Name -> nat)
    requires ItemsOk(items, raw) && items != []
    ensures ItemsOk(items[..|items| - 1], raw) && ItemOk(items[|items| - 1], raw)
  {
    hide ItemOk;
  }

  lemma {:induction false} PackedIs(items: seq<Item>, bs: nat)
    requires 0 < |items| && SumItems(items[..|items| - 1]) <= bs
    ensures var n := |items| - 1; Packed(items, bs) == Bodies(items[..n]) + [items[n].rec.(len := bs - SumItems(items[..n]))]
  {
    hide Bodies, SumItems;
  }

  /** The record that takes the rest of the block. */
  lemma {:induction false} LastOk(x: Item, r: Rec, used: nat, bs: nat, raw: Name -> nat)
    requires ItemOk(x, raw) && used + x.len <= bs && used % 4 == 0 && bs % 4 == 0 && r == x.rec.(len := bs - used)
    ensures RecOk(r) && HasRoom(r, bs - (used + x.len)) && r.inode != 0 && Need(|r.name|) == x.len
  {
    hide Hash;
  }

  lemma {:induction false} AllRecOk(a: seq<Rec>, r: Rec)
    requires RecOk(r) && forall k :: 0 <= k < |a| ==> RecOk(a[k])
    ensures forall k :: 0 <= k < |a + [r]| ==> RecOk((a + [r])[k])
  {
    hide RecOk;
  }

  /** The packing loops of ext4_dir_dx_split_data. */
  method Pack(items: seq<Item>, bs: nat) returns (recs: seq<Rec>)
    requires 0 < |items| && SumItems(items[..|items| - 1]) <= bs
    ensures recs == Packed(items, bs)
  {
    hide Bodies, SumItems, LiveItems;
    ItemsNil();
    BodiesSnoc([], items[0]);
    assert items[..0] == [] && items[..|items| - 1] + [items[|items| - 1]] == items;
    recs := [];
    var off := 0;
    for i := 0 to |items|
      invariant off == SumItems(items[..i])
      invariant i < |items| ==> recs == Bodies(items[..i])
      invariant i == |items| ==> recs == Packed(items, bs)
    {
      ItemsStep(items, i);
      assert items[..i + 1] == items[..i] + [items[i]];
      BodiesSnoc(items[..i], items[i]);
      assert i == |items| - 1 ==> items[..i + 1] == items;
      var len := if i < |items| - 1 then items[i].len else bs - off;
      recs := recs + [items[i].rec.(len := len)];
      off := off + items[i].len;
    }
  }

  // ----- the whole split

  /** The hash of some entry of the listing. */
  ghost predicate HasHash(m: multiset<Entry>, raw: Name -> nat, h: nat) {
    exists e :: e in m && Hash(raw, e.name) == h
  }

  /** A proper split: nothing is lost, hashes below the new index hash stay, the others move,
      and the left part takes as many records as fit into half the block. */
  ghost predicate ProperSplit(recs: seq<Rec>, left: seq<Rec>, right: seq<Rec>, newHash: nat, continued: nat,
                              bs: nat, metaCsum: bool, raw: Name -> nat)
  {
    && Tiled(left, bs) && Tiled(right, bs)
    && Live(left) + Live(right) == Live(recs)
    && continued <= 1
    && newHash % 2 == 0
    && Live(left) != multiset{}
    && HasHash(Live(right), raw, newHash)
    && (continued == 1 <==> HasHash(Live(left), raw, newHash))
    && (forall e :: e in Live(left) ==> Hash(raw, e.name) <= newHash)
    && (forall e :: e in Live(right) ==> newHash <= Hash(raw, e.name))
    && Roomy(left, LeafSpace(bs, metaCsum)) && Roomy(right, LeafSpace(bs, metaCsum))
    && Neat(left, metaCsum) && Neat(right, metaCsum)
    && LiveSize(left) <= bs / 2 && bs / 2 < LiveSize(left) + Need(MAX_NAME)
    && LiveSize(left) + LiveSize(right) == LiveSize(recs)
  }

  /** All bytes that the live records leave of `space` are in one place. */
  ghost predicate Roomy(recs: seq<Rec>, space: nat) {
    LiveSize(recs) <= space && Fits(recs, space - LiveSize(recs))
  }

  lemma {:induction false} RoomyFits(recs: seq<Rec>, space: nat, need: nat)
    requires Roomy(recs, space) && need + LiveSize(recs) <= space
    ensures Fits(recs, need)
  {
    var i :| 0 <= i < |recs| && HasRoom(recs[i], space - LiveSize(recs));
    assert HasRoom(recs[i], need);
  }

  /** The first record from number i on that would cross half the block, or 0. */
  ghost function MidFrom(s: seq<Item>, bs: nat, i: nat): nat
    requires i <= |s|
    decreases |s| - i
  {
    if i == |s| then 0 else if SumItems(s[..i + 1]) > bs / 2 then i else MidFrom(s, bs, i + 1)
  }

  /** The middle loop of ext4_dir_dx_split_data: the first record that would cross half the
      block.  Without one, `mid` and the new hash stay 0. */
  method FindMid(s: seq<Item>, bs: nat, raw: Name -> nat) returns (mid: nat, newHash: nat)
    requires ItemsOk(s, raw) && 0 < |s| && 1024 <= bs
    ensures mid == MidFrom(s, bs, 0)
    ensures SumItems(s) <= bs / 2 ==> mid == 0 && newHash == 0
    ensures bs / 2 < SumItems(s) ==>
              0 < mid < |s| && newHash == s[mid].hash && SumItems(s[..mid]) <= bs / 2 < SumItems(s[..mid]) + s[mid].len
  {
    hide SumItems, LiveItems, Hash;
    FirstFits(s, bs, raw);
    var size := 0;
    mid, newHash := 0, 0;
    for i := 0 to |s|
      invariant size == SumItems(s[..i]) <= bs / 2 && mid == 0 && newHash == 0
      invariant MidFrom(s, bs, 0) == MidFrom(s, bs, i)
    {
      ItemsStep(s, i);
      ItemsCut(s, i + 1);
      if size + s[i].len > bs / 2 {
        newHash, mid := s[i].hash, i;
        return;
      }
      size := size + s[i].len;
    }
    assert s[..|s|] == s;
  }

  /** The two parts of a split, the new index hash and whether it is continued. */
  datatype Halves = Halves(left: seq<Item>, right: seq<Item>, newHash: nat, continued: nat)

  /** The split of a leaf, a function of its records: the left part is the longest prefix of the list by hash
      that fits into half the block. Without a cut everything is in the right part. */
  ghost function HalvesOf(recs: seq<Rec>, bs: nat, raw: Name -> nat): Halves {
    var s := ByHash(ItemsOf(recs, raw));
    var m := MidFrom(s, bs, 0);
    if 0 < m < |s| then Halves(s[..m], s[m..], s[m].hash, if s[m].hash == s[m - 1].hash then 1 else 0)
    else Halves([], s, 0, 0)
  }

  lemma {:induction false} ItemsOfOk(recs: seq<Rec>, raw: Name -> nat)
    requires forall k :: 0 <= k < |recs| ==> RecOk(recs[k])
    ensures ItemsOk(ItemsOf(recs, raw), raw) && SumItems(ItemsOf(recs, raw)) == LiveSize(recs)
  {
    hide Live, LiveItems, Hash, SumItems, LiveSize, ItemsOf;
    if recs == [] {
      NoItems(raw);
      ItemsNil();
      Nil();
    } else {
      var n := |recs| - 1;
      ItemsOfOk(recs[..n], raw);
      ItemsOfStep(recs, n, raw);
      PrefixStep(recs, n);
      One(recs[n]);
      assert recs[..n + 1] == recs;
      var x := Item(Hash(raw, recs[n].name), Need(|recs[n].name|), recs[n]);
      ItemsConcat(ItemsOf(recs[..n], raw), [x]);
      ItemsOne(x);
      assert ItemsOf(recs[..n], raw) + [] == ItemsOf(recs[..n], raw);
    }
  }

  lemma {:induction false} WholeAndNothing(s: seq<Item>)
    ensures s[..|s|] == s && s[..0] == []
  {}

  lemma {:induction false} MidFromOk(s: seq<Item>, bs: nat, i: nat)
    requires i <= |s| && SumItems(s[..i]) <= bs / 2 < SumItems(s)
    ensures var m := MidFrom(s, bs, i); i <= m < |s| && SumItems(s[..m]) <= bs / 2 < SumItems(s[..m]) + s[m].len
    decreases |s| - i
  {
    hide SumItems, LiveItems;
    WholeAndNothing(s);
    if i < |s| {
      ItemsStep(s, i);
      if SumItems(s[..i + 1]) <= bs / 2 { MidFromOk(s, bs, i + 1); }
    }
  }

  /** A leaf whose live records exceed half a block is cut so that the left part fits into half a block and its
      next record would not. */
  lemma {:induction false} HalvesOk(recs: seq<Rec>, bs: nat, raw: Name -> nat)
    requires Tiled(recs, bs) && 1024 <= bs && bs / 2 < LiveSize(recs)
    ensures var h := HalvesOf(recs, bs, raw);
      && h.left != [] && h.right != [] && h.left + h.right == ByHash(ItemsOf(recs, raw))
      && SumItems(h.left) + SumItems(h.right) == LiveSize(recs)
      && SumItems(h.left) <= bs / 2 < SumItems(h.left) + h.right[0].len && h.right[0].len <= Need(MAX_NAME)
  {
    hide SumItems, LiveItems, Live, LiveSize, Hash, ItemsOf, ByHash, SumLen, SameOrder;
    ItemsOfOk(recs, raw);
    var items := ItemsOf(recs, raw);
    var s := ByHash(items);
    ByHashOk(items);
    ByHashSame(items);
    SortedOk(items, s, raw);
    ItemsNil();
    FirstFits(s, bs, raw);
    MidFromOk(s, bs, 0);
    var m := MidFrom(s, bs, 0);
    ItemsCut(s, m);
    assert ItemOk(s[m], raw);
    NeedBound(s[m].rec.name);
    WholeAndNothing(s);
  }

  lemma {:induction false} ByHashSame(items: seq<Item>)
    ensures multiset(ByHash(items)) == multiset(items)
  {
    hide OfHash, ByHash;
    ByHashOk(items);
  }

  /** A new name with this hash, which needs `need` bytes, finds room in its half after the split. */
  ghost predicate GoesIn(recs: seq<Rec>, hash: nat, need: nat, bs: nat, metaCsum: bool, raw: Name -> nat) {
    var h := HalvesOf(recs, bs, raw);
    need + SumItems(if hash >= h.newHash + h.continued then h.right else h.left) <= LeafSpace(bs, metaCsum)
  }

  /** A block that these items were packed into, in front of the tail if there is one. */
  ghost predicate PackedAs(items: seq<Item>, recs: seq<Rec>, bs: nat, metaCsum: bool) {
    && |items| > 0 && SumItems(items[..|items| - 1]) <= LeafSpace(bs, metaCsum)
    && recs == Tailed(Packed(items, LeafSpace(bs, metaCsum)), metaCsum) && LiveSize(recs) == SumItems(items)
  }

  /** The blocks hold the two parts of the leaf's split. */
  ghost predicate SplitAs(recs: seq<Rec>, left: seq<Rec>, right: seq<Rec>, newHash: nat, continued: nat,
                          bs: nat, metaCsum: bool, raw: Name -> nat) {
    var h := HalvesOf(recs, bs, raw);
    PackedAs(h.left, left, bs, metaCsum) && PackedAs(h.right, right, bs, metaCsum) && newHash == h.newHash && continued == h.continued
  }

  lemma {:induction false} RoomInHalf(recs: seq<Rec>, left: seq<Rec>, right: seq<Rec>, newHash: nat, continued: nat,
                                      bs: nat, metaCsum: bool, raw: Name -> nat, hash: nat, need: nat)
    requires SplitAs(recs, left, right, newHash, continued, bs, metaCsum, raw)
    ensures GoesIn(recs, hash, need, bs, metaCsum, raw)
       <==> need + LiveSize(if hash >= newHash + continued then right else left) <= LeafSpace(bs, metaCsum)
  {
    hide HalvesOf, Packed;
  }

  /** What becomes of a leaf: a proper split when its live records exceed half a block; else the old block stays
      and everything is written a second time. */
  ghost predicate Parted(recs: seq<Rec>, left: seq<Rec>, right: seq<Rec>, newHash: nat, continued: nat,
                         bs: nat, metaCsum: bool, raw: Name -> nat, stray: nat)
  {
    if bs / 2 < LiveSize(recs)
    then ProperSplit(recs, left, right, newHash, continued, bs, metaCsum, raw)
         && SplitAs(recs, left, right, newHash, continued, bs, metaCsum, raw)
    else left == recs && PackedAs(ByHash(ItemsOf(recs, raw)), right, bs, metaCsum) && Live(right) == Live(recs)
         && LiveSize(right) == LiveSize(recs) && Roomy(right, LeafSpace(bs, metaCsum)) && newHash == 0 && continued == if stray == 0 then 1 else 0
  }

  /** ext4_dir_dx_split_data without the index update.  When no prefix of the sorted records
      exceeds half a block, `mid` stays 0: the old block is left as it was, every record is
      written to the new one. `stray` stands for the word that the source then reads as the last
      hash of the left part: number 0xFFFFFFFF of the sort array, far outside it. That the read
      succeeds is taken for granted. With checksums, records leave room for the tail, which is written
      into both blocks. */
  method SplitData(recs: seq<Rec>, bs: nat, metaCsum: bool, raw: Name -> nat, stray: nat)
    returns (left: seq<Rec>, right: seq<Rec>, newHash: nat, continued: nat)
    requires Tiled(recs, bs) && bs % 4 == 0 && 1024 <= bs < 0x1_0000
    requires 0 < LiveSize(recs) && Neat(recs, metaCsum)
    ensures Tiled(left, bs) && Tiled(right, bs) && Neat(left, metaCsum) && Neat(right, metaCsum)
    ensures Parted(recs, left, right, newHash, continued, bs, metaCsum, raw, stray)
  {
    hide SumLen, Live, LiveSize, EntryOf, SumItems, LiveItems, Hash, Packed, Fits, Tiled, ItemsOk, Neat, Roomy, SortedItems, ItemsOf, ByHash, MidFrom, ProperSplit,
         Tailed;
    var space := LeafSpace(bs, metaCsum);
    var items := Collect(recs, bs, raw);
    ItemsNil();
    BodyOk(recs, bs, metaCsum);
    var n := |items|;
    assert n > 0;
    var a := new Item[n](i requires 0 <= i < n => items[i]);
    assert a[..] == items;
    if n >= 2 {
      BubbleSort(a);
    }
    var s := a[..];
    OneByHash(items);
    ByHashOk(items);
    SortedOk(items, s, raw);
    var mid;
    mid, newHash := FindMid(s, bs, raw);
    if mid == 0 {
      continued := if newHash == stray then 1 else 0;
      left := recs;
      PackedBlock(s, bs, metaCsum, raw);
      right := Pack(s, space);
    } else {
      continued := if newHash == s[mid - 1].hash then 1 else 0;
      SplitIsProper(recs, s, mid, bs, metaCsum, raw);
      SlicesOk(s, mid, raw);
      PackedBlock(s[..mid], bs, metaCsum, raw);
      PackedBlock(s[mid..], bs, metaCsum, raw);
      left := Pack(s[..mid], space);
      right := Pack(s[mid..], space);
      left := Tailed(left, metaCsum);
    }
    right := Tailed(right, metaCsum);
  }

  lemma {:induction false} OneByHash(items: seq<Item>)
    ensures |items| <= 1 ==> ByHash(items) == items
  {
    if |items| > 1 { return; }
    SortedByHash(items);
  }

  lemma {:induction false} SortedOk(items: seq<Item>, s: seq<Item>, raw: Name -> nat)
    requires ItemsOk(items, raw) && multiset(s) == multiset(items) && (SortedItems(s) || |s| <= 1)
    ensures ItemsOk(s, raw) && SortedItems(s) && SumItems(s) == SumItems(items) && LiveItems(s) == LiveItems(items)
  {
    hide SumItems, LiveItems;
    ItemsPermuted(s, items);
    forall k | 0 <= k < |s| ensures ItemOk(s[k], raw) {
      assert s[k] in multiset(items);
    }
  }

  lemma {:induction false} SlicesOk(s: seq<Item>, mid: nat, raw: Name -> nat)
    requires ItemsOk(s, raw) && mid <= |s|
    ensures ItemsOk(s[..mid], raw) && ItemsOk(s[mid..], raw)
    ensures forall i :: 0 <= i < |s| ==> s[i].hash <= HASH_END
  {
    hide Hash;
    forall i | 0 <= i < |s| ensures s[i].hash <= HASH_END {
      assert ItemOk(s[i], raw);
      HashRange(raw, s[i].rec.name);
    }
  }

  /** One record never fills half a block. */
  lemma {:induction false} FirstFits(s: seq<Item>, bs: nat, raw: Name -> nat)
    requires ItemsOk(s, raw) && 0 < |s| && 1024 <= bs
    ensures s[0].len <= Need(MAX_NAME) <= bs / 2
    ensures SumItems(s[..0]) == 0
  {
    assert ItemOk(s[0], raw);
    assert s[..0] == [];
  }

  lemma {:induction false} BodiesLive(items: seq<Item>, raw: Name -> nat)
    requires ItemsOk(items, raw)
    ensures |Bodies(items)| == |items| && forall k :: 0 <= k < |items| ==> Bodies(items)[k].inode != 0
  {
    if items != [] { BodiesLive(items[..|items| - 1], raw); }
  }

  lemma {:induction false} PackedNeat(items: seq<Item>, space: nat, raw: Name -> nat)
    requires ItemsOk(items, raw) && 0 < |items| && SumItems(items[..|items| - 1]) <= space
    ensures NeatBody(Packed(items, space))
  {
    hide SumItems, Bodies;
    BodiesLive(items[..|items| - 1], raw);
    assert ItemOk(items[|items| - 1], raw);
  }

  /** A packed block. */
  lemma {:induction false} PackedBlock(items: seq<Item>, bs: nat, metaCsum: bool, raw: Name -> nat)
    requires ItemsOk(items, raw) && 0 < |items| && SumItems(items) <= LeafSpace(bs, metaCsum) && bs % 4 == 0 && 12 <= bs < 0x1_0000
    ensures SumItems(items[..|items| - 1]) <= LeafSpace(bs, metaCsum)
    ensures var p := Tailed(Packed(items, LeafSpace(bs, metaCsum)), metaCsum);
            && Tiled(p, bs) && Live(p) == LiveItems(items) && LiveSize(p) == SumItems(items)
            && Roomy(p, LeafSpace(bs, metaCsum)) && Neat(p, metaCsum) && PackedAs(items, p, bs, metaCsum)
  {
    hide SumLen, Live, LiveSize, SumItems, LiveItems, Packed, HasRoom, NeatBody, Neat, Tailed, Tiled;
    var space := LeafSpace(bs, metaCsum);
    PackedOk(items, space, raw);
    PackedNeat(items, space, raw);
    var p := Packed(items, space);
    assert HasRoom(p[|items| - 1], space - LiveSize(p));
    TailedOk(p, bs, metaCsum);
    TailedNeat(p, metaCsum);
  }

  lemma {:induction false} ItemsHash(items: seq<Item>, raw: Name -> nat, lo: nat, hi: nat)
    requires ItemsOk(items, raw) && forall i :: 0 <= i < |items| ==> lo <= items[i].hash <= hi
    ensures forall e :: e in LiveItems(items) ==> lo <= Hash(raw, e.name) <= hi
    ensures forall i :: 0 <= i < |items| ==> HasHash(LiveItems(items), raw, items[i].hash)
  {
    hide SumItems, LiveItems, Hash;
    forall e | e in LiveItems(items) ensures lo <= Hash(raw, e.name) <= hi {
      ItemsMember(items, e);
    }
    forall i | 0 <= i < |items| ensures HasHash(LiveItems(items), raw, items[i].hash) {
      ItemsMember(items, Entry(items[i].rec.name, items[i].rec.inode));
    }
  }

  lemma {:induction false} SplitIsProper(recs: seq<Rec>, s: seq<Item>, mid: nat, bs: nat, metaCsum: bool, raw: Name -> nat)
    requires ItemsOk(s, raw) && SortedItems(s) && 0 < mid < |s|
    requires 1024 <= bs < 0x1_0000 && bs % 4 == 0
    requires SumItems(s) == LiveSize(recs) <= LeafSpace(bs, metaCsum) && LiveItems(s) == Live(recs)
    requires SumItems(s[..mid]) <= bs / 2 < SumItems(s[..mid]) + s[mid].len
    ensures var space := LeafSpace(bs, metaCsum);
            && SumItems(s[..mid]) <= space && SumItems(s[mid..]) <= space
            && SumItems(s[..mid][..mid - 1]) <= space && SumItems(s[mid..][..|s| - mid - 1]) <= space
            && ProperSplit(recs, Tailed(Packed(s[..mid], space), metaCsum), Tailed(Packed(s[mid..], space), metaCsum), s[mid].hash,
                           if s[mid].hash == s[mid - 1].hash then 1 else 0, bs, metaCsum, raw)
    ensures bs / 2 < LiveSize(recs)
  {
    hide SumLen, Live, LiveSize, SumItems, LiveItems, Packed, Hash, Roomy, Need, Tiled, Neat, Tailed, PackedAs;
    var l, r := s[..mid], s[mid..];
    ItemsStep(s, mid);
    ItemsCut(s, mid + 1);
    ItemsCut(s, mid);
    SlicesOk(s, mid, raw);
    PackedBlock(l, bs, metaCsum, raw);
    PackedBlock(r, bs, metaCsum, raw);
    assert ItemOk(s[mid], raw);
    NeedBound(s[mid].rec.name);
    HashRange(raw, s[mid].rec.name);
    ItemsHash(l, raw, 0, s[mid - 1].hash);
    ItemsHash(r, raw, s[mid].hash, HASH_END);
    assert r[0] == s[mid] && l[mid - 1] == s[mid - 1];
    assert HasHash(LiveItems(l), raw, l[mid - 1].hash);
    assert HasHash(LiveItems(r), raw, r[0].hash);
  }

  lemma {:induction false} NeedBound(name: Name)
    requires |name| <= MAX_NAME
    ensures Need(|name|) <= Need(MAX_NAME)
  {}
}
