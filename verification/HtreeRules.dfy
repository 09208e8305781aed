/** What keeps an indexed directory well formed: rules for leaf rewrites and leaf splits. */
module HtreeRules {
  import opened DirNames
  import opened DirBlock
  import opened HtreeImage
  import opened HtreeLookup
  import opened HtreeSplit
  import opened HtreeUpdate

  /** Rewriting one leaf keeps the directory well formed when the leaf's entries stay in
      its slot's hash range. */
  lemma {:induction false} RewriteLeaf(img: Image, bs: nat, raw: Name -> nat, p: nat, recs: seq<Rec>)
    requires WellFormed(img, bs, raw) && p < |Flat(img, bs)| && Tiled(recs, bs)
    requires var f := Flat(img, bs); Between(Live(recs), f[p].hash, Hi(f, p), raw)
    ensures var b := Flat(img, bs)[p].block;
            && IsLeaf(img, b)
            && WellFormed(img[b := Leaf(recs)], bs, raw)
            && Flat(img[b := Leaf(recs)], bs) == Flat(img, bs)
            && Listing(img[b := Leaf(recs)]) + Live(img[b].recs) == Listing(img) + Live(recs)
  {
    hide Live, Kids, Flat, Hash, Tiled, Listing, Between;
    var f := Flat(img, bs);
    var b := f[p].block;
    var img2 := img[b := Leaf(recs)];
    SameIndexFlat(img, img2, bs);
    ListingUpdate(img, b, Leaf(recs));
    forall i | 0 <= i < |f| ensures LeafOk(img2, f, i, raw) {
      assert LeafOk(img, f, i, raw);
    }
    assert Wired(img2, f) by {
      forall c | 0 <= c < |img2| && img2[c].Leaf? ensures Reached(f, c) {
        assert img[c].Leaf?;
        assert Reached(f, c);
      }
    }
  }

  /** An entry whose hash belongs to slot p may be added to its leaf. */
  lemma {:induction false} AddToLeaf(img: Image, bs: nat, raw: Name -> nat, p: nat, recs: seq<Rec>, e: Entry)
    requires WellFormed(img, bs, raw) && p < |Flat(img, bs)| && Tiled(recs, bs)
    requires IsLeaf(img, Flat(img, bs)[p].block)
    requires Live(recs) == Live(img[Flat(img, bs)[p].block].recs) + multiset{e}
    requires var f := Flat(img, bs); Lo(f[p].hash) <= Hash(raw, e.name) < Hi(f, p)
    ensures var img2 := img[Flat(img, bs)[p].block := Leaf(recs)];
            && WellFormed(img2, bs, raw) && Flat(img2, bs) == Flat(img, bs)
            && Listing(img2) == Listing(img) + multiset{e}
  {
    hide Live, Kids, Flat, Hash, Tiled, Listing;
    var f := Flat(img, bs);
    var b := f[p].block;
    assert LeafOk(img, f, p, raw);
    assert Between(Live(recs), f[p].hash, Hi(f, p), raw);
    RewriteLeaf(img, bs, raw, p, recs);
    var img2 := img[b := Leaf(recs)];
    assert Listing(img2) + Live(img[b].recs) == Listing(img) + (Live(img[b].recs) + multiset{e});
    Shift(Listing(img2), Listing(img), Live(img[b].recs), multiset{e});
  }

  lemma {:induction false} Shift<T>(x: multiset<T>, y: multiset<T>, m: multiset<T>, n: multiset<T>)
    requires x + m == y + (m + n)
    ensures x == y + n
  {
    assert y + (m + n) == (y + n) + m;
    Cancel(x, y + n, m);
  }

  /** Entries may always be taken out of a leaf. */
  lemma {:induction false} TakeFromLeaf(img: Image, bs: nat, raw: Name -> nat, p: nat, recs: seq<Rec>, gone: multiset<Entry>)
    requires WellFormed(img, bs, raw) && p < |Flat(img, bs)| && Tiled(recs, bs)
    requires IsLeaf(img, Flat(img, bs)[p].block)
    requires Live(recs) + gone == Live(img[Flat(img, bs)[p].block].recs)
    ensures var img2 := img[Flat(img, bs)[p].block := Leaf(recs)];
            && WellFormed(img2, bs, raw) && Listing(img2) + gone == Listing(img)
  {
    hide Live, Kids, Flat, Hash, Tiled, Listing;
    var f := Flat(img, bs);
    var b := f[p].block;
    assert LeafOk(img, f, p, raw);
    assert Between(Live(recs), f[p].hash, Hi(f, p), raw);
    RewriteLeaf(img, bs, raw, p, recs);
    var img2 := img[b := Leaf(recs)];
    assert Listing(img2) + (Live(recs) + gone) == Listing(img) + Live(recs);
    Shift(Listing(img), Listing(img2), Live(recs), gone);
  }

  // ----- splitting a leaf

  /** The new index hash lies between the old slot's hash and the next slot's. */
  lemma {:induction false} SplitHash(recs: seq<Rec>, left: seq<Rec>, right: seq<Rec>, newHash: nat, continued: nat,
                                     bs: nat, metaCsum: bool, raw: Name -> nat, lo: nat, hi: nat)
    requires ProperSplit(recs, left, right, newHash, continued, bs, metaCsum, raw)
    requires Between(Live(recs), lo, hi, raw)
    ensures lo <= newHash + continued <= hi
    ensures Between(Live(left), lo, newHash + continued, raw)
    ensures Between(Live(right), newHash + continued, hi, raw)
    ensures Lo(newHash + continued) == newHash
  {
    hide Live, Hash, Tiled, Roomy, LiveSize;
    assert forall e :: e in Live(left) ==> e in Live(recs);
    assert forall e :: e in Live(right) ==> e in Live(recs);
    var l :| l in Live(left);
    var r :| r in Live(right) && Hash(raw, r.name) == newHash;
    HashRange(raw, l.name);
    if continued == 0 {
      forall e | e in Live(left) ensures Hash(raw, e.name) < newHash {
        assert !HasHash(Live(left), raw, newHash);
      }
    } else {
      var c :| c in Live(left) && Hash(raw, c.name) == newHash;
    }
  }

  /** The image after a leaf split: the old block keeps the left part, a new block at the end
      takes the right part, and the index gets its slot. */
  function AfterSplit(img: Image, path: seq<Cursor>, left: seq<Rec>, right: seq<Rec>): Image
    requires Typed(img) && ValidPath(img, path) && LeafOf(img, path) < |img|
  {
    img[LeafOf(img, path) := Leaf(left)] + [Leaf(right)]
  }

  lemma {:induction false} SplitFlat(img: Image, bs: nat, path: seq<Cursor>, left: seq<Rec>, right: seq<Rec>, hash: nat)
    requires Shape(img, bs) && ValidPath(img, path) && HasSlack(img, path) && IsLeaf(img, LeafOf(img, path))
    ensures var mid := AfterSplit(img, path, left, right);
            var x := Idx(hash, |img|);
            && Shape(mid, bs) && ValidPath(mid, path) && HasSlack(mid, path)
            && var img2 := WithSlot(mid, path, x);
               Shape(img2, bs) && Flat(img2, bs) == InsertIdx(Flat(img, bs), Position(img, bs, path), x)
  {
    hide Kids, Flat;
    var mid := AfterSplit(img, path, left, right);
    SameIndexPath(img, mid, bs, path);
    SameIndexFlat(img, mid, bs);
    WithSlotFlat(mid, bs, path, Idx(hash, |img|));
  }

  /** WithSlot rewrites an index block only. */
  lemma {:induction false} WithSlotLeaves(img: Image, path: seq<Cursor>, x: Idx)
    requires Typed(img) && ValidPath(img, path)
    ensures var img2 := WithSlot(img, path, x);
            |img2| == |img|
            && (forall b :: 0 <= b < |img| ==> img2[b].Leaf? == img[b].Leaf? && (img[b].Leaf? ==> img2[b] == img[b]))
    ensures Listing(WithSlot(img, path, x)) == Listing(img)
  {
    hide Kids, Listing;
    var c := path[|path| - 1];
    var blk := WithEn(img[c.blk], InsertIdx(En(img, c.blk), c.pos, x));
    ListingUpdate(img, c.blk, blk);
    Cancel(Listing(img[c.blk := blk]), Listing(img), multiset{});
  }

  /** A proper split keeps the directory well formed and its listing unchanged. */
  lemma {:induction false} SplitLeaf(img: Image, bs: nat, metaCsum: bool, raw: Name -> nat, path: seq<Cursor>,
                                     left: seq<Rec>, right: seq<Rec>, newHash: nat, continued: nat)
    requires WellFormed(img, bs, raw) && ValidPath(img, path) && HasSlack(img, path)
    requires IsLeaf(img, LeafOf(img, path))
    requires ProperSplit(img[LeafOf(img, path)].recs, left, right, newHash, continued, bs, metaCsum, raw)
    ensures var mid := AfterSplit(img, path, left, right);
            && Typed(mid) && ValidPath(mid, path)
            && var img2 := WithSlot(mid, path, Idx(newHash + continued, |img|));
               && WellFormed(img2, bs, raw) && Listing(img2) == Listing(img)
               && Flat(img2, bs) == InsertIdx(Flat(img, bs), Position(img, bs, path), Idx(newHash + continued, |img|))
               && |img2| == |img| + 1 && img2[|img|] == Leaf(right) && img2[LeafOf(img, path)] == Leaf(left)
  {
    hide Live, Kids, Flat, Hash, Tiled, Listing, Position, LiveSize, Between;
    var b := LeafOf(img, path);
    var mid := AfterSplit(img, path, left, right);
    var x := Idx(newHash + continued, |img|);
    SplitFlat(img, bs, path, left, right, x.hash);
    var img2 := WithSlot(mid, path, x);
    AtPosition(img, bs, path);
    WithSlotLeaves(mid, path, x);
    SplitListing(img, b, left, right);
    var f, p := Flat(img, bs), Position(img, bs, path);
    assert LeafOk(img, f, p, raw);
    SplitHash(img[b].recs, left, right, newHash, continued, bs, metaCsum, raw, f[p].hash, Hi(f, p));
    SplitSlots(img, img2, f, p, x, left, right, raw);
    assert LeavesTiled(img2, bs) by {
      forall c | 0 <= c < |img2| && img2[c].Leaf? ensures Tiled(img2[c].recs, bs) {
        assert c < |img| && c != b ==> img2[c] == img[c];
      }
    }
  }

  lemma {:induction false} SplitListing(img: Image, b: nat, left: seq<Rec>, right: seq<Rec>)
    requires IsLeaf(img, b) && Live(left) + Live(right) == Live(img[b].recs)
    ensures Listing(img[b := Leaf(left)] + [Leaf(right)]) == Listing(img)
  {
    hide Live, Listing;
    ListingUpdate(img, b, Leaf(left));
    ListingAppend(img[b := Leaf(left)], Leaf(right));
    var l2 := Listing(img[b := Leaf(left)]);
    assert l2 + (Live(left) + Live(right)) == Listing(img) + Live(left);
    Shift(Listing(img), l2, Live(left), Live(right));
  }

  /** g is f with x inserted behind place p. */
  ghost predicate Inserted(g: seq<Idx>, f: seq<Idx>, p: nat, x: Idx) {
    && p < |f| && |g| == |f| + 1
    && (forall i :: 0 <= i <= p ==> g[i] == f[i])
    && g[p + 1] == x
    && (forall i :: p + 1 < i < |g| ==> g[i] == f[i - 1])
  }

  lemma {:induction false} InsertedOrdered(g: seq<Idx>, f: seq<Idx>, p: nat, x: Idx)
    requires Inserted(g, f, p, x) && Ordered(f) && f[p].hash <= x.hash <= Hi(f, p)
    ensures Ordered(g)
  {
    forall i, j | 0 <= i < j < |g| ensures g[i].hash <= g[j].hash {
      if j == p + 1 {
        assert f[i].hash <= f[p].hash;
      } else if i == p + 1 {
        assert f[p + 1].hash <= f[j - 1].hash;
      }
    }
  }

  /** img2 has one more block than img, behind it, and differs in block b only. */
  ghost predicate OneMoreLeaf(img: Image, img2: Image, b: nat, left: seq<Rec>, right: seq<Rec>) {
    && |img2| == |img| + 1 && b < |img| && img2[|img|] == Leaf(right) && img2[b] == Leaf(left)
    && (forall c :: 0 <= c < |img| && c != b ==> img2[c].Leaf? == img[c].Leaf? && (img[c].Leaf? ==> img2[c] == img[c]))
  }

  lemma {:induction false} InsertedWired(img: Image, img2: Image, g: seq<Idx>, f: seq<Idx>, p: nat, x: Idx,
                                         left: seq<Rec>, right: seq<Rec>)
    requires Inserted(g, f, p, x) && Wired(img, f) && x.block == |img|
    requires OneMoreLeaf(img, img2, f[p].block, left, right)
    ensures Wired(img2, g)
  {
    hide Inserted, OneMoreLeaf, Reached, Wired;
    InsertedLeaves(img, img2, g, f, p, x, left, right);
    forall b | 0 <= b < |img2| && img2[b].Leaf? ensures Reached(g, b) {
      InsertedReached(img, img2, g, f, p, x, left, right, b);
    }
    WiredIf(img2, g);
  }

  lemma {:induction false} WiredIf(img: Image, f: seq<Idx>)
    requires forall i :: 0 <= i < |f| ==> IsLeaf(img, f[i].block)
    requires forall i, j :: 0 <= i < j < |f| ==> f[i].block != f[j].block
    requires forall b :: 0 <= b < |img| && img[b].Leaf? ==> Reached(f, b)
    ensures Wired(img, f)
  {}

  lemma {:induction false} InsertedLeaves(img: Image, img2: Image, g: seq<Idx>, f: seq<Idx>, p: nat, x: Idx,
                                          left: seq<Rec>, right: seq<Rec>)
    requires Inserted(g, f, p, x) && Wired(img, f) && x.block == |img|
    requires OneMoreLeaf(img, img2, f[p].block, left, right)
    ensures forall i :: 0 <= i < |g| ==> IsLeaf(img2, g[i].block)
    ensures forall i, j :: 0 <= i < j < |g| ==> g[i].block != g[j].block
  {
    hide Reached;
    forall i | 0 <= i < |g| ensures IsLeaf(img2, g[i].block) {
      if i != p + 1 {
        var o := if i <= p then i else i - 1;
        assert IsLeaf(img, f[o].block);
      }
    }
    forall i, j | 0 <= i < j < |g| ensures g[i].block != g[j].block {
      var o, q := if i <= p then i else i - 1, if j <= p then j else j - 1;
      assert IsLeaf(img, f[o].block) && IsLeaf(img, f[q].block);
    }
  }

  lemma {:induction false} InsertedReached(img: Image, img2: Image, g: seq<Idx>, f: seq<Idx>, p: nat, x: Idx,
                                           left: seq<Rec>, right: seq<Rec>, b: nat)
    requires Inserted(g, f, p, x) && Wired(img, f) && x.block == |img|
    requires OneMoreLeaf(img, img2, f[p].block, left, right) && b < |img2| && img2[b].Leaf?
    ensures Reached(g, b)
  {
    if b == |img| {
      assert g[p + 1].block == b;
    } else {
      assert IsLeaf(img, f[p].block);
      assert Reached(f, b);
      var i :| 0 <= i < |f| && f[i].block == b;
      assert g[if i <= p then i else i + 1].block == b;
    }
  }

  /** The slot list with the new slot is ordered, wired and has every entry in range. */
  lemma {:induction false} SplitSlots(img: Image, img2: Image, f: seq<Idx>, p: nat, x: Idx,
                                      left: seq<Rec>, right: seq<Rec>, raw: Name -> nat)
    requires p < |f| && Ordered(f) && Wired(img, f) && forall i :: 0 <= i < |f| ==> LeafOk(img, f, i, raw)
    requires x.block == |img| && OneMoreLeaf(img, img2, f[p].block, left, right)
    requires f[p].hash <= x.hash <= Hi(f, p)
    requires Between(Live(left), f[p].hash, x.hash, raw) && Between(Live(right), x.hash, Hi(f, p), raw)
    ensures var g := InsertIdx(f, p, x);
            Ordered(g) && Wired(img2, g) && forall i :: 0 <= i < |g| ==> LeafOk(img2, g, i, raw)
  {
    hide Live, Hash, Between, Ordered;
    var g := InsertIdx(f, p, x);
    assert Inserted(g, f, p, x);
    InsertedOrdered(g, f, p, x);
    InsertedWired(img, img2, g, f, p, x, left, right);
    forall i | 0 <= i < |g| ensures LeafOk(img2, g, i, raw) {
      if i < p || i > p + 1 {
        var o := if i < p then i else i - 1;
        assert LeafOk(img, f, o, raw);
        assert g[i] == f[o] && Hi(g, i) == Hi(f, o);
        assert f[o].block != f[p].block;
        assert img2[f[o].block] == img[f[o].block];
      } else if i == p {
        assert Hi(g, p) == x.hash;
      } else {
        assert Hi(g, p + 1) == Hi(f, p);
      }
    }
  }
}
