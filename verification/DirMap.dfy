/** A directory as a map from names to inodes: what its listing means while no name is in it twice. */
module DirMap {
  import opened DirNames
  import opened DirBlock
  import opened HtreeImage
  import opened HtreeLookup
  import opened HtreeSplit
  import opened HtreeRules
  import opened Htree

  /** Every name once. */
  ghost predicate OneEach(m: multiset<Entry>) {
    && (forall e :: e in m ==> m[e] == 1)
    && (forall e, f :: e in m && f in m && e.name == f.name ==> e == f)
  }

  ghost predicate Names(m: multiset<Entry>, name: Name) { exists e :: e in m && e.name == name }

  /** No name is in both. */
  ghost predicate NamesApart(a: multiset<Entry>, b: multiset<Entry>) {
    forall e, f :: e in a && f in b ==> e.name != f.name
  }

  ghost function AsMap(m: multiset<Entry>): map<Name, nat>
    requires OneEach(m)
  {
    map e | e in m :: e.name := e.inode
  }

  lemma {:induction false} OneEachSum(a: multiset<Entry>, b: multiset<Entry>)
    ensures OneEach(a + b) <==> OneEach(a) && OneEach(b) && NamesApart(a, b)
  {
    if OneEach(a + b) {
      forall e | e in a ensures a[e] == 1 { assert e in a + b && (a + b)[e] == a[e] + b[e]; }
      forall e | e in b ensures b[e] == 1 { assert e in a + b && (a + b)[e] == a[e] + b[e]; }
      forall e, f | e in a && f in a && e.name == f.name ensures e == f { assert e in a + b && f in a + b; }
      forall e, f | e in b && f in b && e.name == f.name ensures e == f { assert e in a + b && f in a + b; }
      forall e, f | e in a && f in b ensures e.name != f.name {
        assert e in a + b && f in a + b;
        assert (a + b)[e] == a[e] + b[e];
      }
    }
    if OneEach(a) && OneEach(b) && NamesApart(a, b) {
      forall e | e in a + b ensures (a + b)[e] == 1 { assert !(e in a && e in b); }
    }
  }

  lemma {:induction false} OneEachSingle(e: Entry)
    ensures OneEach(multiset{e})
  {}

  // ----- unique names, record by record

  ghost predicate UniqueIn(recs: seq<Rec>) {
    forall k, l :: 0 <= k < l < |recs| && recs[k].inode != 0 && recs[l].inode != 0 ==> recs[k].name != recs[l].name
  }

  lemma {:induction false} UniqueSnoc(c: seq<Rec>, r: Rec)
    ensures UniqueIn(c + [r]) <==> UniqueIn(c) && (r.inode != 0 ==> !Names(Live(c), r.name))
  {
    hide Live;
    var s := c + [r];
    assert forall k :: 0 <= k < |c| ==> s[k] == c[k];
    NamesLive(c, r.name);
    if UniqueIn(s) {
      forall k, l | 0 <= k < l < |c| && c[k].inode != 0 && c[l].inode != 0 ensures c[k].name != c[l].name {
        assert s[k].name != s[l].name;
      }
      if r.inode != 0 {
        forall k | 0 <= k < |c| ensures !Match(c[k], r.name) {
          assert s[k] == c[k] && s[|c|] == r;
        }
      }
    } else {
      var k, l :| 0 <= k < l < |s| && s[k].inode != 0 && s[l].inode != 0 && s[k].name == s[l].name;
      assert l == |c| ==> Match(c[k], r.name);
    }
  }

  lemma {:induction false} NamesLive(recs: seq<Rec>, name: Name)
    ensures Names(Live(recs), name) <==> exists k :: 0 <= k < |recs| && Match(recs[k], name)
  {
    hide Live;
    if Names(Live(recs), name) {
      var e :| e in Live(recs) && e.name == name;
      LiveMember(recs, e);
    }
    if k :| 0 <= k < |recs| && Match(recs[k], name) {
      LiveMember(recs, Entry(name, recs[k].inode));
    }
  }

  lemma {:induction false} UniqueRecs(recs: seq<Rec>)
    ensures UniqueIn(recs) <==> OneEach(Live(recs))
  {
    hide Live, OneEach, UniqueIn, Names, NamesApart;
    if recs == [] {
      Nil();
      NoRecs();
    } else {
      var c, r := recs[..|recs| - 1], recs[|recs| - 1];
      UniqueRecs(c);
      assert recs == c + [r];
      Snoc(c, r);
      UniqueSnoc(c, r);
      OneEachSum(Live(c), EntryOf(r));
      EntryApart(Live(c), r);
    }
  }

  lemma {:induction false} NoRecs()
    ensures UniqueIn([]) && OneEach(multiset{})
  {}

  lemma {:induction false} EntryApart(m: multiset<Entry>, r: Rec)
    ensures OneEach(EntryOf(r)) && (NamesApart(m, EntryOf(r)) <==> (r.inode != 0 ==> !Names(m, r.name)))
  {}

  // ----- block by block

  lemma {:induction false} NamesListed(img: Image, name: Name)
    ensures Names(Listing(img), name) <==> exists b: nat, k: nat :: LiveAt(img, b, k) && img[b].recs[k].name == name
  {
    hide Live, Listing;
    NotListed(img, name);
    if b: nat, k: nat :| LiveAt(img, b, k) && img[b].recs[k].name == name {
      assert Match(img[b].recs[k], name) && LeafHas(img, b, name);
    }
    if b: nat :| IsLeaf(img, b) && LeafHas(img, b, name) {
      var k: nat :| k < |img[b].recs| && Match(img[b].recs[k], name);
      assert LiveAt(img, b, k);
    }
  }

  lemma {:induction false} UniqueAppend(c: Image, b: Block)
    ensures UniqueNames(c + [b]) <==>
              UniqueNames(c) && (b.Leaf? ==> UniqueIn(b.recs) && NamesApart(Listing(c), Live(b.recs)))
  {
    hide Live, Listing, NamesApart;
    var s := c + [b];
    var n := |c|;
    assert forall i :: 0 <= i < n ==> s[i] == c[i];
    forall i: nat, k: nat ensures LiveAt(s, i, k) <==> LiveAt(c, i, k) || (i == n && b.Leaf? && k < |b.recs| && b.recs[k].inode != 0) {}
    if b.Leaf? { ApartMeans(c, b.recs); }
    if UniqueNames(s) {
      forall i: nat, k: nat, j: nat, l: nat | LiveAt(c, i, k) && LiveAt(c, j, l) && c[i].recs[k].name == c[j].recs[l].name
        ensures i == j && k == l
      {
        assert LiveAt(s, i, k) && LiveAt(s, j, l);
      }
      if b.Leaf? {
        forall k, l | 0 <= k < l < |b.recs| && b.recs[k].inode != 0 && b.recs[l].inode != 0 ensures b.recs[k].name != b.recs[l].name {
          assert LiveAt(s, n, k) && LiveAt(s, n, l);
        }
        forall i: nat, k: nat, l: nat | LiveAt(c, i, k) && l < |b.recs| && b.recs[l].inode != 0
          ensures c[i].recs[k].name != b.recs[l].name
        {
          assert LiveAt(s, i, k) && LiveAt(s, n, l);
        }
      }
    }
  }

  /** Blocks and a further leaf share no name. */
  lemma {:induction false} ApartMeans(c: Image, recs: seq<Rec>)
    ensures NamesApart(Listing(c), Live(recs)) <==>
            forall i: nat, k: nat, l: nat :: LiveAt(c, i, k) && l < |recs| && recs[l].inode != 0 ==> c[i].recs[k].name != recs[l].name
  {
    hide Live, Listing;
    if NamesApart(Listing(c), Live(recs)) {
      forall i: nat, k: nat, l: nat | LiveAt(c, i, k) && l < |recs| && recs[l].inode != 0
        ensures c[i].recs[k].name != recs[l].name
      {
        NamesListed(c, c[i].recs[k].name);
        LiveMember(recs, Entry(recs[l].name, recs[l].inode));
      }
    } else {
      var e, f :| e in Listing(c) && f in Live(recs) && e.name == f.name;
      NamesListed(c, e.name);
      LiveMember(recs, f);
    }
  }

  /** No record's name comes twice exactly when the listing has every name once. */
  lemma {:induction false} UniqueIsOneEach(img: Image)
    ensures UniqueNames(img) <==> OneEach(Listing(img))
  {
    hide Live, OneEach, UniqueIn, NamesApart, UniqueNames, Listing;
    if img == [] {
      NoBlocks();
    } else {
      var c, b := img[..|img| - 1], img[|img| - 1];
      UniqueIsOneEach(c);
      assert img == c + [b];
      ListingAppend(c, b);
      UniqueAppend(c, b);
      OneEachSum(Listing(c), LeafLive(b));
      if b.Leaf? {
        UniqueRecs(b.recs);
      } else {
        NothingApart(Listing(c));
      }
    }
  }

  lemma {:induction false} NoBlocks()
    ensures UniqueNames([]) && OneEach(Listing([]))
  {}

  lemma {:induction false} NothingApart(m: multiset<Entry>)
    ensures OneEach(multiset{}) && NamesApart(m, multiset{})
  {}

  // ----- the map

  /** The names of a directory and their inodes. */
  ghost function MapOf(img: Image): map<Name, nat>
    requires UniqueNames(img)
  {
    UniqueIsOneEach(img);
    AsMap(Listing(img))
  }

  lemma {:induction false} AsMapIs(m: multiset<Entry>)
    requires OneEach(m)
    ensures forall e: Entry :: e in m <==> e.name in AsMap(m) && AsMap(m)[e.name] == e.inode
    ensures forall n :: n in AsMap(m) <==> Names(m, n)
  {
    forall e: Entry | e.name in AsMap(m) && AsMap(m)[e.name] == e.inode ensures e in m {
      var f :| f in m && f.name == e.name;
      assert f == e;
    }
  }

  lemma {:induction false} AsMapMore(m: multiset<Entry>, e: Entry)
    requires OneEach(m) && OneEach(m + multiset{e})
    ensures AsMap(m + multiset{e}) == AsMap(m)[e.name := e.inode] && e.name !in AsMap(m)
  {
    hide AsMap, OneEach;
    var n := m + multiset{e};
    AsMapIs(m);
    AsMapIs(n);
    OneEachSum(m, multiset{e});
    assert e in multiset{e} && e in n;
    NamesMore(m, e);
    forall k | k in AsMap(m) ensures k in AsMap(n) && AsMap(n)[k] == AsMap(m)[k] {
      assert Entry(k, AsMap(m)[k]) in n;
    }
  }

  lemma {:induction false} NamesMore(m: multiset<Entry>, e: Entry)
    ensures forall k :: Names(m + multiset{e}, k) <==> Names(m, k) || k == e.name
  {
    forall k ensures Names(m + multiset{e}, k) <==> Names(m, k) || k == e.name {
      if f :| f in m + multiset{e} && f.name == k { assert f in m || f == e; }
      if f :| f in m && f.name == k { assert f in m + multiset{e}; }
      assert e in m + multiset{e};
    }
  }

  /** Looking a name up, by index or scan, is looking it up in the map. */
  lemma {:induction false} FindsInMap(img: Image, name: Name, r: FindResult)
    requires Finds(img, name, r) && UniqueNames(img)
    ensures r.Found? <==> name in MapOf(img)
    ensures r.Found? ==> img[r.blk].recs[r.rec].inode == MapOf(img)[name]
  {
    hide Live, Listing, UniqueNames, AsMap;
    UniqueIsOneEach(img);
    AsMapIs(Listing(img));
    NotListed(img, name);
    if r.Found? {
      assert Match(img[r.blk].recs[r.rec], name) && LeafHas(img, r.blk, name);
      var e := Entry(name, img[r.blk].recs[r.rec].inode);
      LiveMember(img[r.blk].recs, e);
      assert e in LeafLive(img[r.blk]);
      ListingMember(img, e);
    }
  }

  /** Adding a new name: the names stay unique exactly unless a leaf was split that was filled at most by half;
      then the map has the name in addition, or is as it was when the entry was lost. */
  lemma {:induction false} AddedToMap(img: Image, img2: Image, bs: nat, metaCsum: bool, raw: Name -> nat, name: Name, inode: nat, ftype: nat,
                                      slot: nat, at: seq<Cursor>, stray: nat)
    requires AddedByIndex(img, img2, bs, metaCsum, raw, name, inode, ftype, Added, slot, at, stray)
    requires UniqueNames(img) && name !in MapOf(img)
    ensures var leaf := img[Flat(img, bs)[slot].block].recs;
      && (UniqueNames(img2) <==> Fits(leaf, Need(|name|)) || bs / 2 < LiveSize(leaf))
      && (UniqueNames(img2) ==>
            MapOf(img2) == if Fits(leaf, Need(|name|)) || GoesIn(leaf, Hash(raw, name), Need(|name|), bs, metaCsum, raw)
                           then MapOf(img)[name := inode] else MapOf(img))
  {
    hide Live, Listing, UniqueNames, AsMap, Fits, LiveSize, GoesIn, Flat, Kids, Sound, Position, Hash, OneEach;
    var e := Entry(name, inode);
    var leaf := img[Flat(img, bs)[slot].block].recs;
    UniqueIsOneEach(img);
    UniqueIsOneEach(img2);
    NewName(Listing(img), e);
    assert Listing(img) + multiset{} == Listing(img);
    if Fits(leaf, Need(|name|)) || bs / 2 < LiveSize(leaf) {
      if Listing(img2) == Listing(img) + multiset{e} { AsMapMore(Listing(img), e); }
    } else {
      Doubled(img, Flat(img, bs)[slot].block);
      TwiceNot(Listing(img), Live(leaf));
      OneEachSum(Listing(img) + Live(leaf), multiset{e});
      assert Listing(img) + Live(leaf) + multiset{} == Listing(img) + Live(leaf);
    }
  }

  lemma {:induction false} NewName(m: multiset<Entry>, e: Entry)
    requires OneEach(m) && e.name !in AsMap(m)
    ensures OneEach(m + multiset{e})
  {
    hide AsMap, OneEach;
    AsMapIs(m);
    OneEachSingle(e);
    assert NamesApart(m, multiset{e}) by {
      assert forall f :: f in m ==> f.name in AsMap(m);
    }
    OneEachSum(m, multiset{e});
  }

  lemma {:induction false} Doubled(img: Image, b: nat)
    requires IsLeaf(img, b)
    ensures forall e :: e in Live(img[b].recs) ==> e in Listing(img)
  {
    hide Live, Listing;
    forall e | e in Live(img[b].recs) ensures e in Listing(img) {
      assert e in LeafLive(img[b]);
      ListingMember(img, e);
    }
  }

  lemma {:induction false} TwiceNot(m: multiset<Entry>, a: multiset<Entry>)
    requires a != multiset{} && forall e :: e in a ==> e in m
    ensures !OneEach(m + a)
  {
    var e :| e in a;
    assert (m + a)[e] == m[e] + a[e] >= 2;
  }

  /** Removing a name takes it out of the map. */
  lemma {:induction false} RemovedFromMap(img: Image, img2: Image, name: Name, inode: nat)
    requires UniqueNames(img) && Listing(img2) + multiset{Entry(name, inode)} == Listing(img)
    ensures UniqueNames(img2) && MapOf(img2) == MapOf(img) - {name} && name in MapOf(img) && MapOf(img)[name] == inode
  {
    hide Live, Listing, UniqueNames, OneEach, AsMap;
    var e := Entry(name, inode);
    UniqueIsOneEach(img);
    UniqueIsOneEach(img2);
    OneEachSum(Listing(img2), multiset{e});
    AsMapMore(Listing(img2), e);
    KeyGone(MapOf(img2), name, inode);
  }

  lemma {:induction false} KeyGone(a: map<Name, nat>, name: Name, inode: nat)
    requires name !in a
    ensures a[name := inode] - {name} == a
  {}
}
