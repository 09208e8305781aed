/** Adding an entry to the blocks of a directory in scan order: the way of ext4_dir_add_entry when the
    directory has no index, or one that cannot be used. */
module LinearAdd {
  import opened DirNames
  import opened DirBlock
  import opened HtreeImage
  import opened HtreeLookup

  /** What the blocks show to the scan, as leaves. */
  ghost function ShownImage(img: Image, bs: nat): (s: Image)
    ensures |s| == |img| && forall b :: 0 <= b < |img| ==> s[b] == Leaf(Visible(img[b], bs))
  {
    seq(|img|, b requires 0 <= b < |img| => Leaf(Visible(img[b], bs)))
  }

  /** All entries that the scan meets. */
  ghost function Shown(img: Image, bs: nat): multiset<Entry> { Listing(ShownImage(img, bs)) }

  ghost predicate Scannable(img: Image, bs: nat) {
    && BlockSize(bs) && LeavesTiled(img, bs)
    && forall b :: 0 <= b < |img| && img[b].Root? ==> img[b].self != 0 && img[b].parent != 0
  }

  /** A new block with one entry; with checksums the tail record takes its last 12 bytes. */
  function FreshBlock(bs: nat, name: Name, inode: nat, ftype: nat, metaCsum: bool): seq<Rec>
    requires BlockSize(bs)
  {
    if metaCsum then [Rec(inode, bs - 12, name, ftype), Rec(0, 12, [], DIR_CSUM)] else [Rec(inode, bs, name, ftype)]
  }

  lemma {:induction false} FreshBlockOk(bs: nat, name: Name, inode: nat, ftype: nat, metaCsum: bool)
    requires BlockSize(bs) && 0 < |name| <= MAX_NAME && inode != 0 && ftype != DIR_CSUM
    ensures Tiled(FreshBlock(bs, name, inode, ftype, metaCsum), bs)
    ensures Live(FreshBlock(bs, name, inode, ftype, metaCsum)) == multiset{Entry(name, inode)}
    ensures metaCsum ==> var r := FreshBlock(bs, name, inode, ftype, metaCsum); r[|r| - 1] == Rec(0, 12, [], 0xDE)
  {
    if metaCsum {
      Two(Rec(inode, bs - 12, name, ftype), Rec(0, 12, [], DIR_CSUM));
    } else {
      One(Rec(inode, bs, name, ftype));
    }
  }

  /** The blocks before b have no room for the name. */
  ghost predicate NoRoomBefore(img: Image, bs: nat, b: nat, need: nat) {
    b <= |img| && forall c :: 0 <= c < b ==> !Fits(Visible(img[c], bs), need)
  }

  /** The entry went to the first block with room, or else to a new block behind the others. */
  ghost predicate AddedAt(img: Image, out: Image, bs: nat, b: nat, name: Name, inode: nat, ftype: nat, metaCsum: bool)
    requires BlockSize(bs)
  {
    && NoRoomBefore(img, bs, b, Need(|name|))
    && if b == |img| then out == img + [Leaf(FreshBlock(bs, name, inode, ftype, metaCsum))]
       else |out| == |img| && out[b].Leaf? && out == img[b := out[b]]
            && Inserts(Visible(img[b], bs), out[b].recs, bs, name, inode, ftype)
  }

  /** The linear algorithm of ext4_dir_add_entry. */
  method LinearInsert(img: Image, bs: nat, name: Name, inode: nat, ftype: nat, metaCsum: bool) returns (out: Image, ghost at: nat)
    requires Scannable(img, bs) && 0 < |name| <= MAX_NAME && inode != 0 && ftype != DIR_CSUM
    ensures AddedAt(img, out, bs, at, name, inode, ftype, metaCsum)
    ensures |out| == |img| <==> exists c :: 0 <= c < |img| && Fits(Visible(img[c], bs), Need(|name|))
  {
    hide Tiled, Fits, Inserts, FreshBlock;
    var iblock := 0;
    while iblock < |img|
      invariant NoRoomBefore(img, bs, iblock, Need(|name|))
    {
      VisibleTiled(img[iblock], bs);
      var ok, recs := TryInsert(Visible(img[iblock], bs), bs, name, inode, ftype);
      if ok {
        return img[iblock := Leaf(recs)], iblock;
      }
      iblock := iblock + 1;
    }
    return img + [Leaf(FreshBlock(bs, name, inode, ftype, metaCsum))], iblock;
  }

  /** The scan meets exactly the new entry in addition, and the blocks can still be scanned. */
  lemma {:induction false} LinearAddOk(img: Image, out: Image, bs: nat, b: nat, name: Name, inode: nat, ftype: nat, metaCsum: bool)
    requires Scannable(img, bs) && 0 < |name| <= MAX_NAME && inode != 0 && ftype != DIR_CSUM
    requires AddedAt(img, out, bs, b, name, inode, ftype, metaCsum)
    ensures Scannable(out, bs) && Shown(out, bs) == Shown(img, bs) + multiset{Entry(name, inode)}
  {
    hide Tiled, Fits, Live, FreshBlock, Listing, Visible;
    FreshBlockOk(bs, name, inode, ftype, metaCsum);
    var s, t := ShownImage(img, bs), ShownImage(out, bs);
    if b == |img| {
      var blk := Leaf(FreshBlock(bs, name, inode, ftype, metaCsum));
      LeafShows(blk, bs);
      assert t == s + [blk];
      ListingAppend(s, blk);
    } else {
      LeafShows(out[b], bs);
      assert t == s[b := out[b]];
      ListingUpdate(s, b, out[b]);
      Shift(Listing(t), LeafLive(s[b]), Listing(s), multiset{Entry(name, inode)});
    }
  }

  lemma {:induction false} LeafShows(b: Block, bs: nat)
    requires b.Leaf?
    ensures Visible(b, bs) == b.recs
  {}

  lemma {:induction false} Shift<T>(t: multiset<T>, m: multiset<T>, s: multiset<T>, e: multiset<T>)
    requires t + m == s + (m + e)
    ensures t == s + e
  {
    assert t + m - m == t && s + (m + e) - m == s + e;
  }
}
