/** How the index's block updates act on the flat list of slots. */
module HtreeUpdate {
  import opened DirNames
  import opened DirBlock
  import opened HtreeImage
  import opened HtreeLookup
  import opened HtreeSplit

  function InsertIdx(en: seq<Idx>, pos: nat, x: Idx): seq<Idx>
    requires pos < |en|
  {
    en[..pos + 1] + [x] + en[pos + 1..]
  }

  /** The block with other index entries. */
  function WithEn(b: Block, en: seq<Idx>): Block
    requires !b.Leaf?
  {
    if b.Node? then Node(b.limit, en) else Root(b.self, b.parent, b.levels, b.limit, en)
  }

  // ----- updates that leave the index alone

  /** Same index blocks, leaves stay leaves, possibly new leaves behind. */
  ghost predicate SameIndex(img: Image, img2: Image) {
    && |img| <= |img2|
    && (forall b :: 0 <= b < |img| ==> if img[b].Leaf? then img2[b].Leaf? else img2[b] == img[b])
  }

  lemma {:induction false} SameIndexFlat(img: Image, img2: Image, bs: nat)
    requires Shape(img, bs) && SameIndex(img, img2)
    ensures Shape(img2, bs) && Flat(img2, bs) == Flat(img, bs)
  {
    hide Kids;
    assert img2[0] == img[0];
    if img[0].levels == 1 {
      forall k | 0 <= k < |img[0].en| ensures NodeTyped(img2, img[0].en[k].block) && NodeCounts(img2, img[0].en[k].block, bs)
      {
        assert NodeTyped(img, img[0].en[k].block) && NodeCounts(img, img[0].en[k].block, bs);
        assert img2[img[0].en[k].block] == img[img[0].en[k].block];
        forall i | 0 <= i < |img2[img[0].en[k].block].en| ensures IsLeaf(img2, img2[img[0].en[k].block].en[i].block) {
          assert IsLeaf(img, img[img[0].en[k].block].en[i].block);
        }
      }
      ShapeNodes(img, bs);
      forall k | 0 <= k < |img[0].en| ensures IsNode(img2, img[0].en[k].block) && Sub(img, img[0].en, k) == Sub(img2, img[0].en, k) {
        assert IsNode(img, img[0].en[k].block);
        assert NodeCounts(img2, img[0].en[k].block, bs);
      }
      KidsSame(img[0].en, img, img[0].en, img2, |img[0].en|);
    } else {
      forall k | 0 <= k < |img[0].en| ensures IsLeaf(img2, img[0].en[k].block) {
        assert IsLeaf(img, img[0].en[k].block);
      }
    }
  }

  lemma {:induction false} SameIndexPath(img: Image, img2: Image, bs: nat, path: seq<Cursor>)
    requires Shape(img, bs) && SameIndex(img, img2) && ValidPath(img, path)
    ensures Shape(img2, bs) && ValidPath(img2, path) && Position(img2, bs, path) == Position(img, bs, path)
    ensures LeafOf(img2, path) == LeafOf(img, path)
  {
    hide Kids;
    SameIndexFlat(img, img2, bs);
    assert img2[0] == img[0];
    if img[0].levels == 1 {
      ShapeNodes(img, bs);
      ShapeNodes(img2, bs);
      assert IsNode(img, img[0].en[path[0].pos].block);
      forall k | 0 <= k < path[0].pos ensures Sub(img, img[0].en, k) == Sub(img2, img[0].en, k) {
        assert IsNode(img, img[0].en[k].block);
      }
      KidsSame(img[0].en, img, img[0].en, img2, path[0].pos);
    }
  }

  // ----- a new slot

  /** ext4_dir_dx_insert_entry: the image after a slot is put behind the path's position. */
  function WithSlot(img: Image, path: seq<Cursor>, x: Idx): Image
    requires Typed(img) && ValidPath(img, path)
  {
    var c := path[|path| - 1];
    img[c.blk := WithEn(img[c.blk], InsertIdx(En(img, c.blk), c.pos, x))]
  }

  predicate HasSlack(img: Image, path: seq<Cursor>)
    requires Typed(img) && ValidPath(img, path)
  {
    var c := path[|path| - 1];
    |En(img, c.blk)| < img[c.blk].limit
  }

  /** The children's slots when child k alone gains a slot. */
  lemma {:induction false} KidsInsert(en: seq<Idx>, img: Image, img2: Image, k: nat, i: nat, x: Idx, n: nat)
    requires k < n <= |en|
    requires forall j :: 0 <= j < |en| ==> IsNode(img, en[j].block) && IsNode(img2, en[j].block)
    requires i < |Sub(img, en, k)| && Sub(img2, en, k) == InsertIdx(Sub(img, en, k), i, x)
    requires forall j :: 0 <= j < |en| && j != k ==> Sub(img2, en, j) == Sub(img, en, j)
    ensures |Kids(en, img, k)| + i < |Kids(en, img, n)|
    ensures Kids(en, img2, n) == InsertIdx(Kids(en, img, n), |Kids(en, img, k)| + i, x)
    decreases n
  {
    var p := |Kids(en, img, k)| + i;
    if n == k + 1 {
      KidsSame(en, img, en, img2, k);
      InsertNorm(Kids(en, img, k), Sub(img, en, k), Low(en, k), i, x);
    } else {
      KidsInsert(en, img, img2, k, i, x, n - 1);
      InsertTail(Kids(en, img, n - 1), Norm(Sub(img, en, n - 1), Low(en, n - 1)), p, x);
    }
  }

  lemma {:induction false} InsertNorm(a: seq<Idx>, en: seq<Idx>, lo: nat, i: nat, x: Idx)
    requires i < |en|
    ensures a + Norm(InsertIdx(en, i, x), lo) == InsertIdx(a + Norm(en, lo), |a| + i, x)
  {
    var s, t := a + Norm(InsertIdx(en, i, x), lo), InsertIdx(a + Norm(en, lo), |a| + i, x);
    assert |s| == |t|;
    forall j | 0 <= j < |s| ensures s[j] == t[j] {}
  }

  lemma {:induction false} InsertTail(a: seq<Idx>, b: seq<Idx>, p: nat, x: Idx)
    requires p < |a|
    ensures InsertIdx(a, p, x) + b == InsertIdx(a + b, p, x)
  {}

  lemma {:induction false} WithSlotShape(img: Image, bs: nat, path: seq<Cursor>, x: Idx)
    requires Shape(img, bs) && ValidPath(img, path) && HasSlack(img, path) && IsLeaf(img, x.block)
    ensures Shape(WithSlot(img, path, x), bs)
  {
    hide Kids;
    var c := path[|path| - 1];
    var img2 := WithSlot(img, path, x);
    if img[0].levels == 1 {
      assert NodeTyped(img, img[0].en[path[0].pos].block);
      assert img2[0] == img[0];
      forall k | 0 <= k < |img[0].en| ensures NodeTyped(img2, img[0].en[k].block) && NodeCounts(img2, img[0].en[k].block, bs) {
        NodeAfterSlot(img, img2, bs, path, x, k);
      }
    } else {
      var en2 := InsertIdx(img[0].en, c.pos, x);
      forall k | 0 <= k < |en2| ensures IsLeaf(img2, en2[k].block) {
        if k <= c.pos { assert en2[k] == img[0].en[k]; }
        else if k > c.pos + 1 { assert en2[k] == img[0].en[k - 1]; }
      }
    }
  }

  lemma {:induction false} NodeAfterSlot(img: Image, img2: Image, bs: nat, path: seq<Cursor>, x: Idx, k: nat)
    requires Shape(img, bs) && ValidPath(img, path) && HasSlack(img, path) && IsLeaf(img, x.block)
    requires img[0].levels == 1 && k < |img[0].en| && img2 == WithSlot(img, path, x)
    ensures NodeTyped(img2, img[0].en[k].block) && NodeCounts(img2, img[0].en[k].block, bs)
  {
    hide Kids;
    var b := img[0].en[k].block;
    var c := path[1];
    assert NodeTyped(img, b) && NodeCounts(img, b, bs);
    assert NodeTyped(img, c.blk);
    var en, en2 := img[b].en, img2[b].en;
    forall i | 0 <= i < |en2| ensures IsLeaf(img2, en2[i].block) {
      if b != c.blk || i <= c.pos { assert en2[i] == en[i]; assert IsLeaf(img, en[i].block); }
      else if i > c.pos + 1 { assert en2[i] == en[i - 1]; assert IsLeaf(img, en[i - 1].block); }
    }
  }

  /** Inserting an index entry inserts its slot right behind the path's. */
  lemma {:induction false} WithSlotFlat(img: Image, bs: nat, path: seq<Cursor>, x: Idx)
    requires Shape(img, bs) && ValidPath(img, path) && HasSlack(img, path) && IsLeaf(img, x.block)
    ensures Shape(WithSlot(img, path, x), bs)
    ensures Flat(WithSlot(img, path, x), bs) == InsertIdx(Flat(img, bs), Position(img, bs, path), x)
  {
    hide Kids;
    WithSlotShape(img, bs, path, x);
    var img2 := WithSlot(img, path, x);
    var en := img[0].en;
    if img[0].levels == 1 {
      ShapeNodes(img, bs);
      ShapeNodes(img2, bs);
      assert img2[0] == img[0];
      var k := path[0].pos;
      forall j | 0 <= j < |en| && j != k ensures Sub(img2, en, j) == Sub(img, en, j) {
        assert en[j].block != en[k].block;
      }
      KidsInsert(en, img, img2, k, path[1].pos, x, |en|);
    } else {
      InsertNorm([], en, 0, path[0].pos, x);
      assert [] + Norm(en, 0) == Norm(en, 0);
      assert [] + Norm(InsertIdx(en, path[0].pos, x), 0) == Norm(InsertIdx(en, path[0].pos, x), 0);
    }
  }

  // ----- splitting index blocks

  /** The root's entries move to a new node; the root keeps one entry that leads there. */
  function Grown(img: Image, bs: nat): Image
    requires Typed(img) && img[0].levels == 0 && 0 < |img[0].en|
  {
    var r := img[0];
    img[0 := Root(r.self, r.parent, 1, r.limit, [Idx(r.en[0].hash, |img|)])] + [Node(NodeLimit(bs), r.en)]
  }

  lemma {:induction false} GrownOk(img: Image, bs: nat, path: seq<Cursor>)
    requires Shape(img, bs) && ValidPath(img, path) && img[0].levels == 0 && 64 <= bs
    ensures var img2 := Grown(img, bs);
            var path2 := [Cursor(0, 0), Cursor(|img|, path[0].pos)];
            && Shape(img2, bs) && Flat(img2, bs) == Flat(img, bs)
            && ValidPath(img2, path2) && Position(img2, bs, path2) == Position(img, bs, path)
            && LeafOf(img2, path2) == LeafOf(img, path) && HasSlack(img2, path2)
  {
    hide SomeNodeLimit, SomeRootLimit;
    var img2 := Grown(img, bs);
    var en := img[0].en;
    Written(bs);
    LimitBounds(bs, img[0].limit, NodeLimit(bs));
    forall i | 0 <= i < |en| ensures IsLeaf(img2, en[i].block) { assert IsLeaf(img, en[i].block); }
    assert NodeTyped(img2, |img|) && NodeCounts(img2, |img|, bs);
    ShapeNodes(img2, bs);
    assert Kids(img2[0].en, img2, 0) == [];
    assert Kids(img2[0].en, img2, 1) == [] + Norm(en, 0);
  }

  /** Child k of the root gives its upper half to a new node, entered behind it in the root. */
  function Halved(img: Image, bs: nat, k: nat): Image
    requires Typed(img) && img[0].levels == 1 && k < |img[0].en|
    requires IsNode(img, img[0].en[k].block) && 2 <= |Sub(img, img[0].en, k)|
  {
    var r := img[0];
    var b := r.en[k].block;
    var en := img[b].en;
    var cut := |en| / 2;
    img[b := Node(img[b].limit, en[..cut])]
       [0 := WithEn(r, InsertIdx(r.en, k, Idx(en[cut].hash, |img|)))]
      + [Node(NodeLimit(bs), en[cut..])]
  }

  /** The limit that index splits write is one of the two. */
  lemma {:induction false} Written(bs: nat)
    ensures SomeNodeLimit(bs, NodeLimit(bs)) && SomeRootLimit(bs, RootLimit(bs))
  {
    assert IndexSpace(bs, false) == bs;
  }

  /** A node has one entry more than the root at least, and both have at least two. */
  lemma {:induction false} LimitBounds(bs: nat, root: nat, node: nat)
    requires SomeRootLimit(bs, root) && SomeNodeLimit(bs, node) && 64 <= bs
    ensures 2 <= root < node && 2 <= node && root < NodeLimit(bs) && node <= NodeLimit(bs)
  {}

  lemma {:induction false} HalvedShape(img: Image, bs: nat, k: nat)
    requires Shape(img, bs) && img[0].levels == 1 && k < |img[0].en| && IsNode(img, img[0].en[k].block)
    requires |img[0].en| < img[0].limit && 2 <= |Sub(img, img[0].en, k)| && 64 <= bs
    ensures Shape(Halved(img, bs, k), bs)
  {
    hide Kids, SomeNodeLimit, SomeRootLimit;
    Written(bs);
    var img2 := Halved(img, bs, k);
    var en, en2 := img[0].en, img2[0].en;
    var b := en[k].block;
    var sub := Sub(img, en, k);
    assert NodeTyped(img, b) && NodeCounts(img, b, bs);
    LimitBounds(bs, img[0].limit, img[b].limit);
    forall j | 0 <= j < |en2| ensures NodeTyped(img2, en2[j].block) && NodeCounts(img2, en2[j].block, bs) {
      var o := if j <= k then j else j - 1;
      if j != k + 1 {
        assert en2[j] == en[o];
        assert NodeTyped(img, en[o].block) && NodeCounts(img, en[o].block, bs);
        if o != k { assert en[o].block != b; }
      }
      forall i | 0 <= i < |img2[en2[j].block].en| ensures IsLeaf(img2, img2[en2[j].block].en[i].block) {
        if j == k + 1 { assert IsLeaf(img, sub[i + |sub| / 2].block); }
        else if j == k { assert IsLeaf(img, sub[i].block); }
        else { assert IsLeaf(img, img[en[o].block].en[i].block); }
      }
    }
    forall i, j | 0 <= i < j < |en2| ensures en2[i].block != en2[j].block {
      var o, q := if i <= k then i else i - 1, if j <= k then j else j - 1;
      assert IsNode(img, en[o].block) by { assert NodeCounts(img, en[o].block, bs); }
      assert IsNode(img, en[q].block) by { assert NodeCounts(img, en[q].block, bs); }
      assert i != k + 1 ==> en2[i] == en[o];
      assert j != k + 1 ==> en2[j] == en[q];
    }
  }

  lemma {:induction false} NormSplit(en: seq<Idx>, cut: nat, lo: nat)
    requires 0 < cut < |en|
    ensures Norm(en[..cut], lo) + Norm(en[cut..], en[cut].hash) == Norm(en, lo)
  {
    var s, t := Norm(en[..cut], lo) + Norm(en[cut..], en[cut].hash), Norm(en, lo);
    assert |s| == |t|;
    forall j | 0 <= j < |s| ensures s[j] == t[j] {}
  }

  /** The facts about a halved child that the slot lists depend on. */
  ghost predicate HalvedKids(en: seq<Idx>, img: Image, en2: seq<Idx>, img2: Image, k: nat)
  {
    && k < |en| && |en2| == |en| + 1
    && (forall j :: 0 <= j < |en| ==> IsNode(img, en[j].block))
    && (forall j :: 0 <= j < |en2| ==> IsNode(img2, en2[j].block))
    && (forall j :: 0 <= j < k ==> Low(en2, j) == Low(en, j) && Sub(img2, en2, j) == Sub(img, en, j))
    && (forall j :: k < j < |en| ==> Low(en2, j + 1) == Low(en, j) && Sub(img2, en2, j + 1) == Sub(img, en, j))
    && var sub := Sub(img, en, k);
       var cut := |sub| / 2;
       2 <= |sub| && Low(en2, k) == Low(en, k) && Sub(img2, en2, k) == sub[..cut]
       && Low(en2, k + 1) == sub[cut].hash && Sub(img2, en2, k + 1) == sub[cut..]
  }

  lemma {:induction false} KidsStep(en: seq<Idx>, img: Image, n: nat)
    requires n < |en| && forall k :: 0 <= k <= n ==> IsNode(img, en[k].block)
    ensures Kids(en, img, n + 1) == Kids(en, img, n) + Norm(Sub(img, en, n), Low(en, n))
  {}

  lemma {:induction false} KidsHalvedHere(en: seq<Idx>, img: Image, en2: seq<Idx>, img2: Image, k: nat)
    requires HalvedKids(en, img, en2, img2, k)
    ensures Kids(en2, img2, k + 2) == Kids(en, img, k + 1)
    ensures Kids(en2, img2, k) == Kids(en, img, k)
    ensures |Kids(en2, img2, k + 1)| == |Kids(en, img, k)| + |Sub(img, en, k)| / 2
  {
    hide Kids;
    var sub := Sub(img, en, k);
    var cut := |sub| / 2;
    KidsSame(en, img, en2, img2, k);
    NormSplit(sub, cut, Low(en, k));
    KidsStep(en, img, k);
    KidsStep(en2, img2, k);
    KidsStep(en2, img2, k + 1);
    var a, b := Norm(sub[..cut], Low(en, k)), Norm(sub[cut..], sub[cut].hash);
    assert Kids(en2, img2, k) + a + b == Kids(en2, img2, k) + (a + b);
  }

  lemma {:induction false} KidsHalved(en: seq<Idx>, img: Image, en2: seq<Idx>, img2: Image, k: nat, n: nat)
    requires HalvedKids(en, img, en2, img2, k) && k < n <= |en|
    ensures Kids(en2, img2, n + 1) == Kids(en, img, n)
    decreases n
  {
    hide Kids;
    if n == k + 1 {
      KidsHalvedHere(en, img, en2, img2, k);
    } else {
      KidsHalved(en, img, en2, img2, k, n - 1);
      assert k < n - 1 < |en|;
      KidsStep(en, img, n - 1);
      KidsStep(en2, img2, n);
    }
  }

  lemma {:induction false} HalvedFacts(img: Image, bs: nat, k: nat)
    requires Shape(img, bs) && img[0].levels == 1 && k < |img[0].en|
    requires |img[0].en| < img[0].limit && 2 <= |Sub(img, img[0].en, k)| && 64 <= bs
    ensures var img2 := Halved(img, bs, k); Shape(img2, bs) && HalvedKids(img[0].en, img, img2[0].en, img2, k)
  {
    hide Kids, SomeNodeLimit, SomeRootLimit;
    HalvedShape(img, bs, k);
    var img2 := Halved(img, bs, k);
    var en, en2 := img[0].en, img2[0].en;
    ShapeNodes(img, bs);
    ShapeNodes(img2, bs);
    assert NodeTyped(img, en[k].block);
    forall j | 0 <= j < |en| && j != k ensures en[j].block != en[k].block {}
    forall j | 0 <= j < k ensures Low(en2, j) == Low(en, j) && Sub(img2, en2, j) == Sub(img, en, j) {
      assert en2[j] == en[j] && IsNode(img, en[j].block);
    }
    forall j | k < j < |en| ensures Low(en2, j + 1) == Low(en, j) && Sub(img2, en2, j + 1) == Sub(img, en, j) {
      assert en2[j + 1] == en[j] && IsNode(img, en[j].block);
    }
    assert en2[k] == en[k] && en2[k + 1].block == |img|;
  }

  /** Where the path's position goes when its child is halved. */
  function HalvedPath(img: Image, path: seq<Cursor>): seq<Cursor>
    requires Typed(img) && ValidPath(img, path) && |path| == 2
  {
    var cut := |En(img, path[1].blk)| / 2;
    if path[1].pos >= cut then [Cursor(0, path[0].pos + 1), Cursor(|img|, path[1].pos - cut)] else path
  }

  /** Halving a child changes no slot and leaves room at the path's position. */
  lemma {:induction false} HalvedOk(img: Image, bs: nat, path: seq<Cursor>)
    requires Shape(img, bs) && ValidPath(img, path) && |path| == 2 && 64 <= bs
    requires |img[0].en| < img[0].limit && 2 <= |En(img, path[1].blk)|
    ensures var img2 := Halved(img, bs, path[0].pos);
            var path2 := HalvedPath(img, path);
            && Shape(img2, bs) && Flat(img2, bs) == Flat(img, bs)
            && ValidPath(img2, path2) && Position(img2, bs, path2) == Position(img, bs, path)
            && LeafOf(img2, path2) == LeafOf(img, path) && HasSlack(img2, path2)
  {
    hide Kids, SomeNodeLimit, SomeRootLimit, HalvedKids;
    var k := path[0].pos;
    assert NodeCounts(img, img[0].en[k].block, bs);
    LimitBounds(bs, img[0].limit, img[img[0].en[k].block].limit);
    HalvedFacts(img, bs, k);
    var img2 := Halved(img, bs, k);
    KidsHalvedHere(img[0].en, img, img2[0].en, img2, k);
    KidsHalved(img[0].en, img, img2[0].en, img2, k, |img[0].en|);
    assert NodeCounts(img, img[0].en[k].block, bs);
    assert img2[0].en[k] == img[0].en[k] && img2[0].en[k + 1].block == |img|;
  }
}
