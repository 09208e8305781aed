/** The hash-tree index of a directory as it lies in the directory's blocks, and its
    meaning: one flat list of (hash, leaf block) slots, whatever the tree's height. */
module HtreeImage {
  import opened DirNames
  import opened DirBlock

  /** An index entry.  The hash of an index block's entry 0 is never read: its bytes hold
      the block's limit and count. */
  datatype Idx = Idx(hash: nat, block: nat)

  datatype Block =
    | Leaf(recs: seq<Rec>)
    | Node(limit: nat, en: seq<Idx>)
    | Root(self: nat, parent: nat, levels: nat, limit: nat, en: seq<Idx>)

  /** The directory's logical blocks, in order. */
  type Image = seq<Block>

  const HASH_END := 0x1_0000_0000

  // ----- hashes

  /** The end of ext2_htree_hash: the low bit is cleared and the end-of-file marker avoided. */
  function FinishHash(major: nat): nat
    requires major < HASH_END
  {
    var even := major - major % 2;
    if even == 0xFFFF_FFFE then 0xFFFF_FFFC else even
  }

  /** The hash of a name, for an arbitrary underlying hash function. */
  function Hash(raw: Name -> nat, name: Name): nat {
    FinishHash(raw(name) % HASH_END)
  }

  /** Every hash is even and leaves room for its odd "continued" marker; of a 32-bit value of the hash function
      it keeps all but the lowest bit, unless that would make it the end-of-file marker. */
  lemma {:induction false} HashRange(raw: Name -> nat, name: Name)
    ensures Hash(raw, name) % 2 == 0 && Hash(raw, name) + 1 < 0xFFFF_FFFE
    ensures raw(name) < 0xFFFF_FFFE ==> Hash(raw, name) <= raw(name) <= Hash(raw, name) + 1
    ensures 0xFFFF_FFFE <= raw(name) <= 0xFFFF_FFFF ==> Hash(raw, name) == 0xFFFF_FFFC
  {}

  /** An index hash without its continuation bit. */
  function Lo(h: nat): nat { h - h % 2 }

  // ----- the flat view

  predicate IsLeaf(img: Image, b: nat) { b < |img| && img[b].Leaf? }

  predicate IsNode(img: Image, b: nat) { b < |img| && img[b].Node? && 0 < |img[b].en| }

  /** The entries of the index block that entry k leads to. */
  function Sub(img: Image, en: seq<Idx>, k: nat): seq<Idx>
    requires k < |en| && IsNode(img, en[k].block)
  {
    img[en[k].block].en
  }

  /** The slots of one index block: entry 0 starts at the parent's hash. */
  function Norm(en: seq<Idx>, lo: nat): seq<Idx>
    requires 0 < |en|
  {
    [Idx(lo, en[0].block)] + en[1..]
  }

  function Low(en: seq<Idx>, k: nat): nat
    requires k < |en|
  {
    if k == 0 then 0 else en[k].hash
  }

  /** The slots below the first n entries of the root. */
  function Kids(en: seq<Idx>, img: Image, n: nat): seq<Idx>
    requires n <= |en| && forall k :: 0 <= k < n ==> IsNode(img, en[k].block)
  {
    if n == 0 then []
    else Kids(en, img, n - 1) + Norm(Sub(img, en, n - 1), Low(en, n - 1))
  }

  /** Every index entry leads to a block of the right kind. */
  predicate Typed(img: Image) {
    && 0 < |img| && img[0].Root?
    && (img[0].levels == 0 ==> forall k :: 0 <= k < |img[0].en| ==> IsLeaf(img, img[0].en[k].block))
    && (img[0].levels == 1 ==> forall k :: 0 <= k < |img[0].en| ==> NodeTyped(img, img[0].en[k].block))
  }

  predicate NodeTyped(img: Image, b: nat) {
    b < |img| && img[b].Node? && forall i :: 0 <= i < |img[b].en| ==> IsLeaf(img, img[b].en[i].block)
  }

  /** Entries an index block has space for: 8 bytes each behind the root's two dot records
      and info (32 bytes), or behind a node's fake record (8 bytes). */
  function RootLimit(space: nat): nat { if space < 32 then 0 else (space - 32) / 8 }
  function NodeLimit(space: nat): nat { if space < 8 then 0 else (space - 8) / 8 }

  /** The bytes of a block that the lookup counts for an index: with checksums a tail of 8 bytes goes off. */
  function IndexSpace(bs: nat, metaCsum: bool): nat { if metaCsum && 8 <= bs then bs - 8 else bs }

  /** The limit is the largest number of entries that fits. */
  lemma {:induction false} LimitFills(bs: nat, metaCsum: bool)
    requires 1024 <= bs
    ensures var tail, n := if metaCsum then 8 else 0, RootLimit(IndexSpace(bs, metaCsum));
            12 + 12 + 8 + n * 8 + tail <= bs < 12 + 12 + 8 + (n + 1) * 8 + tail
    ensures var tail, n := if metaCsum then 8 else 0, NodeLimit(IndexSpace(bs, metaCsum));
            8 + n * 8 + tail <= bs < 8 + (n + 1) * 8 + tail
  {}

  /** Limits with or without that tail: index splits write them without, whatever the lookup counts. */
  predicate SomeRootLimit(bs: nat, limit: nat) { exists c :: limit == RootLimit(IndexSpace(bs, c)) }
  predicate SomeNodeLimit(bs: nat, limit: nat) { exists c :: limit == NodeLimit(IndexSpace(bs, c)) }

  /** Counts within limits. */
  predicate Counts(img: Image, bs: nat)
    requires Typed(img)
  {
    && img[0].levels <= 1
    && SomeRootLimit(bs, img[0].limit)
    && 0 < |img[0].en| <= img[0].limit
    && (img[0].levels == 1 ==> forall k :: 0 <= k < |img[0].en| ==> NodeCounts(img, img[0].en[k].block, bs))
  }

  predicate NodeCounts(img: Image, b: nat, bs: nat) {
    b < |img| && img[b].Node? && SomeNodeLimit(bs, img[b].limit) && 0 < |img[b].en| <= img[b].limit
  }

  predicate DistinctNodes(img: Image)
    requires Typed(img)
  {
    img[0].levels == 1 ==>
      forall i, j :: 0 <= i < j < |img[0].en| ==> img[0].en[i].block != img[0].en[j].block
  }

  ghost predicate Shape(img: Image, bs: nat) {
    Typed(img) && Counts(img, bs) && DistinctNodes(img)
  }

  /** The slots of the whole index, in hash order. */
  ghost function Flat(img: Image, bs: nat): seq<Idx>
    requires Shape(img, bs)
  {
    if img[0].levels == 0 then Norm(img[0].en, 0) else Kids(img[0].en, img, |img[0].en|)
  }

  ghost predicate Ordered(f: seq<Idx>) {
    forall i, j :: 0 <= i < j < |f| ==> f[i].hash <= f[j].hash
  }

  /** The slots reach every leaf block exactly once. */
  ghost predicate Wired(img: Image, f: seq<Idx>) {
    && (forall i :: 0 <= i < |f| ==> IsLeaf(img, f[i].block))
    && (forall i, j :: 0 <= i < j < |f| ==> f[i].block != f[j].block)
    && (forall b :: 0 <= b < |img| && img[b].Leaf? ==> Reached(f, b))
  }

  ghost predicate Reached(f: seq<Idx>, b: nat) {
    exists i :: 0 <= i < |f| && f[i].block == b
  }

  /** The first hash that no longer belongs to slot i. */
  function Hi(f: seq<Idx>, i: nat): nat
    requires i < |f|
  {
    if i + 1 < |f| then f[i + 1].hash else HASH_END
  }

  ghost predicate Between(m: multiset<Entry>, lo: nat, hi: nat, raw: Name -> nat) {
    forall e :: e in m ==> Lo(lo) <= Hash(raw, e.name) < hi
  }

  ghost predicate LeafOk(img: Image, f: seq<Idx>, i: nat, raw: Name -> nat)
    requires i < |f| && IsLeaf(img, f[i].block)
  {
    Between(Live(img[f[i].block].recs), f[i].hash, Hi(f, i), raw)
  }

  ghost predicate LeavesTiled(img: Image, bs: nat) {
    forall b :: 0 <= b < |img| && img[b].Leaf? ==> Tiled(img[b].recs, bs)
  }

  /** A well-formed indexed directory. */
  ghost predicate WellFormed(img: Image, bs: nat, raw: Name -> nat) {
    && Shape(img, bs)
    && LeavesTiled(img, bs)
    && var f := Flat(img, bs);
       Ordered(f) && Wired(img, f) && forall i :: 0 <= i < |f| ==> LeafOk(img, f, i, raw)
  }

  // ----- listing

  ghost function LeafLive(b: Block): multiset<Entry> {
    if b.Leaf? then Live(b.recs) else multiset{}
  }

  /** All live entries of all leaf blocks. */
  ghost function Listing(img: Image): multiset<Entry> {
    if img == [] then multiset{} else Listing(img[..|img| - 1]) + LeafLive(img[|img| - 1])
  }

  lemma {:induction false} ListingConcat(a: Image, b: Image)
    ensures Listing(a + b) == Listing(a) + Listing(b)
  {
    hide Live;
    if b == [] {
      assert a + b == a;
    } else {
      var c := b[..|b| - 1];
      ListingConcat(a, c);
      assert (a + b)[..|a + b| - 1] == a + c;
    }
  }

  lemma {:induction false} ListingOne(blk: Block)
    ensures Listing([blk]) == LeafLive(blk)
  {
    assert [blk][..0] == [];
  }

  lemma {:induction false} ListingSplit(img: Image, b: nat)
    requires b < |img|
    ensures Listing(img) == Listing(img[..b]) + LeafLive(img[b]) + Listing(img[b + 1..])
  {
    hide Live, Listing;
    ListingOne(img[b]);
    assert img == (img[..b] + [img[b]]) + img[b + 1..];
    ListingConcat(img[..b] + [img[b]], img[b + 1..]);
    ListingConcat(img[..b], [img[b]]);
  }

  /** Rewriting block b changes the listing by that block's change. */
  lemma {:induction false} ListingUpdate(img: Image, b: nat, blk: Block)
    requires b < |img|
    ensures Listing(img[b := blk]) + LeafLive(img[b]) == Listing(img) + LeafLive(blk)
  {
    hide Live, Listing;
    ListingSplit(img, b);
    ListingSplit(img[b := blk], b);
    assert img[b := blk][..b] == img[..b] && img[b := blk][b + 1..] == img[b + 1..];
    Exchange(Listing(img[..b]), LeafLive(img[b]), Listing(img[b + 1..]), LeafLive(blk));
  }

  lemma {:induction false} Exchange<T>(a: multiset<T>, m: multiset<T>, b: multiset<T>, n: multiset<T>)
    ensures (a + n + b) + m == (a + m + b) + n
  {}

  lemma {:induction false} ListingAppend(img: Image, blk: Block)
    ensures Listing(img + [blk]) == Listing(img) + LeafLive(blk)
  {
    assert (img + [blk])[..|img|] == img;
  }

  /** An entry is listed exactly when some leaf lists it. */
  lemma {:induction false} ListingMember(img: Image, e: Entry)
    ensures e in Listing(img) <==> exists b :: 0 <= b < |img| && e in LeafLive(img[b])
  {
    hide Live;
    if img != [] {
      var n := |img| - 1;
      ListingMember(img[..n], e);
      if e in Listing(img[..n]) {
        var b :| 0 <= b < n && e in LeafLive(img[..n][b]);
        assert img[b] == img[..n][b];
      } else {
        forall b | 0 <= b < n ensures e !in LeafLive(img[b]) { assert img[b] == img[..n][b]; }
      }
    }
  }

  // ----- positions in the flat view

  lemma {:induction false} KidsPrefix(en: seq<Idx>, img: Image, m: nat, n: nat)
    requires m <= n <= |en| && forall k :: 0 <= k < n ==> IsNode(img, en[k].block)
    ensures |Kids(en, img, m)| <= |Kids(en, img, n)|
    ensures Kids(en, img, m) == Kids(en, img, n)[..|Kids(en, img, m)|]
    ensures |Kids(en, img, n)| >= |Kids(en, img, m)| + (n - m)
    decreases n
  {
    if m < n { KidsPrefix(en, img, m, n - 1); }
  }

  /** Where entry i of the root's child k lies in the flat view, and what follows it. */
  lemma {:induction false} KidAt(en: seq<Idx>, img: Image, k: nat, i: nat)
    requires forall j :: 0 <= j < |en| ==> IsNode(img, en[j].block)
    requires k < |en| && i < |Sub(img, en, k)|
    ensures var p := |Kids(en, img, k)| + i;
            var f := Kids(en, img, |en|);
            && p < |f| && f[p] == Norm(Sub(img, en, k), Low(en, k))[i]
            && (i + 1 < |Sub(img, en, k)| ==> p + 1 < |f| && f[p + 1] == Sub(img, en, k)[i + 1])
            && (i + 1 == |Sub(img, en, k)| ==> p + 1 == |Kids(en, img, k + 1)|)
            && (i + 1 == |Sub(img, en, k)| && k + 1 < |en| ==>
                  p + 1 < |f| && f[p + 1] == Idx(en[k + 1].hash, Sub(img, en, k + 1)[0].block))
            && (i + 1 == |Sub(img, en, k)| && k + 1 == |en| ==> p + 1 == |f|)
  {
    hide Kids, IsNode;
    var f := Kids(en, img, |en|);
    var p := |Kids(en, img, k)| + i;
    KidsPrefix(en, img, k + 1, |en|);
    var here := Kids(en, img, k + 1);
    KidsSnoc(en, img, k);
    assert f[p] == here[p];
    if i + 1 < |Sub(img, en, k)| {
      assert f[p + 1] == here[p + 1];
    } else if k + 1 < |en| {
      KidsPrefix(en, img, k + 2, |en|);
      var next := Kids(en, img, k + 2);
      NodeHasEntries(img, en[k + 1].block);
      KidsSnoc(en, img, k + 1);
      assert f[p + 1] == next[p + 1];
    }
  }

  lemma {:induction false} KidsSnoc(en: seq<Idx>, img: Image, k: nat)
    requires forall j :: 0 <= j < |en| ==> IsNode(img, en[j].block)
    requires k < |en|
    ensures |Sub(img, en, k)| > 0 && Kids(en, img, k + 1) == Kids(en, img, k) + Norm(Sub(img, en, k), Low(en, k))
  {}

  lemma {:induction false} NodeHasEntries(img: Image, b: nat)
    requires IsNode(img, b)
    ensures b < |img| && img[b].Node? && |img[b].en| > 0
  {}

  /** Kids looks only at the blocks the first n entries name. */
  lemma {:induction false} KidsSame(en: seq<Idx>, img: Image, en2: seq<Idx>, img2: Image, n: nat)
    requires n <= |en| && n <= |en2|
    requires forall k :: 0 <= k < n ==> IsNode(img, en[k].block) && IsNode(img2, en2[k].block)
    requires forall k :: 0 <= k < n ==> Low(en, k) == Low(en2, k) && Sub(img, en, k) == Sub(img2, en2, k)
    ensures Kids(en, img, n) == Kids(en2, img2, n)
  {
    if n > 0 { KidsSame(en, img, en2, img2, n - 1); }
  }
}
