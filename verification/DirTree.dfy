/** The directory tree: directories with their entries in scan order, and what removing a set of
    inodes from it leaves. */
module DirTree {
  import opened DirNames

  /** Directories by inode with their live entries in scan order ("." and ".." first), other
      inodes, and the link counts of directories. */
  datatype Tree = Tree(dirs: map<nat, seq<Entry>>, files: set<nat>, links: map<nat, nat>)

  /** The inodes that the entries of a list name, apart from the dots. */
  ghost function Named(s: seq<Entry>): set<nat> {
    set i | 0 <= i < |s| && !IsDots(s[i].name) :: s[i].inode
  }

  ghost function SubDirsOf(dirs: map<nat, seq<Entry>>, d: nat): set<nat>
    requires d in dirs
  {
    set x | x in Named(dirs[d]) && x in dirs
  }

  ghost function SubDirs(t: Tree, d: nat): set<nat>
    requires d in t.dirs
  {
    SubDirsOf(t.dirs, d)
  }

  /** Who names whom: the parent of every inode but the root, and its distance from the root. */
  datatype Shape = Shape(root: nat, par: map<nat, nat>, level: map<nat, nat>)

  ghost predicate Known(t: Tree, x: nat) { x in t.dirs || x in t.files }

  /** A directory's entries: the dots, then entries with distinct names and inodes. */
  ghost predicate EntriesOk(t: Tree, h: Shape, d: nat)
    requires d in t.dirs
  {
    var s := t.dirs[d];
    && |s| >= 2 && s[0] == Entry(DOT, d) && s[1] == Entry(DOTDOT, if d in h.par then h.par[d] else d)
    && (forall i :: 2 <= i < |s| ==> !IsDots(s[i].name) && Known(t, s[i].inode) && s[i].inode in h.par && h.par[s[i].inode] == d)
    && (forall i, j :: 2 <= i < j < |s| ==> s[i].name != s[j].name && s[i].inode != s[j].inode)
  }

  /** Every inode but the root has exactly one entry that names it, ".." leads to the parent, and
      link counts are right. */
  ghost predicate TreeOk(t: Tree, h: Shape) {
    && h.root in t.dirs && h.root !in h.par && t.files !! t.dirs.Keys
    && (forall d :: d in t.dirs ==> EntriesOk(t, h, d) && d in t.links && t.links[d] == 2 + |SubDirs(t, d)|)
    && (forall x :: Known(t, x) ==> x in h.level && (x != h.root ==> x in h.par))
    && (forall x :: Known(t, x) && x in h.par ==> h.par[x] in t.dirs && h.par[x] in h.level && h.level[x] == h.level[h.par[x]] + 1
                                                  && x in Named(t.dirs[h.par[x]]))
  }

  /** x lies in the subtree of `goal`. */
  ghost predicate Within(h: Shape, goal: nat, x: nat)
    decreases if x in h.level then h.level[x] else 0
  {
    x == goal || (x in h.par && x in h.level && h.par[x] in h.level && h.level[h.par[x]] < h.level[x] && Within(h, goal, h.par[x]))
  }

  ghost function Subtree(t: Tree, h: Shape, goal: nat): set<nat> {
    set x | x in t.dirs.Keys + t.files && Within(h, goal, x)
  }

  // ----- removing inodes

  /** The entries that do not name a removed inode. */
  function Kept(s: seq<Entry>, gone: set<nat>): seq<Entry> {
    if s == [] then []
    else if !IsDots(s[0].name) && s[0].inode in gone then Kept(s[1..], gone)
    else [s[0]] + Kept(s[1..], gone)
  }

  /** The tree without the inodes in `gone`. */
  ghost function Cut(t: Tree, gone: set<nat>): Tree {
    var dirs := map d | d in t.dirs && d !in gone :: Kept(t.dirs[d], gone);
    Tree(dirs, t.files - gone, map d | d in dirs :: 2 + |SubDirsOf(dirs, d)|)
  }

  lemma {:induction false} KeptConcat(a: seq<Entry>, b: seq<Entry>, gone: set<nat>)
    ensures Kept(a + b, gone) == Kept(a, gone) + Kept(b, gone)
  {
    if a == [] {
      assert a + b == b;
    } else {
      assert (a + b)[1..] == a[1..] + b;
      KeptConcat(a[1..], b, gone);
    }
  }

  lemma {:induction false} KeptMembers(s: seq<Entry>, gone: set<nat>)
    ensures forall e :: e in Kept(s, gone) <==> e in s && (IsDots(e.name) || e.inode !in gone)
  {
    if s != [] {
      KeptMembers(s[1..], gone);
      assert s == [s[0]] + s[1..];
    }
  }

  /** Entries with distinct names and inodes keep them distinct. */
  ghost predicate Apart(s: seq<Entry>) {
    forall i, j :: 0 <= i < j < |s| ==> s[i].name != s[j].name && s[i].inode != s[j].inode
  }

  lemma {:induction false} KeptApart(s: seq<Entry>, gone: set<nat>)
    requires Apart(s)
    ensures Apart(Kept(s, gone))
  {
    if s != [] {
      KeptApart(s[1..], gone);
      KeptMembers(s[1..], gone);
      var k := Kept(s[1..], gone);
      forall i | 0 <= i < |k| ensures k[i] in s[1..] { assert k[i] in k; }
    }
  }

  /** Removing one more inode takes exactly its entry out of the list. */
  lemma {:induction false} KeptOne(s: seq<Entry>, gone: set<nat>, c: nat, j: nat)
    requires Apart(Kept(s, gone)) && j < |Kept(s, gone)| && Kept(s, gone)[j].inode == c
    requires forall e :: e in s ==> !IsDots(e.name)
    ensures Kept(s, gone + {c}) == Kept(s, gone)[..j] + Kept(s, gone)[j + 1..]
  {
    var k := Kept(s, gone);
    if s[0].inode in gone {
      KeptOne(s[1..], gone, c, j);
    } else if j == 0 {
      KeptNone(s[1..], gone, c);
      assert k == [s[0]] + Kept(s[1..], gone);
      assert k[..0] + k[1..] == Kept(s[1..], gone);
    } else {
      assert k == [s[0]] + Kept(s[1..], gone);
      assert k[j] == Kept(s[1..], gone)[j - 1] && k[0].inode != k[j].inode;
      TailApart(k);
      assert k[1..] == Kept(s[1..], gone);
      KeptOne(s[1..], gone, c, j - 1);
      assert k[..j] + k[j + 1..] == [s[0]] + (k[1..][..j - 1] + k[1..][j..]);
    }
  }

  lemma {:induction false} TailApart(s: seq<Entry>)
    requires Apart(s) && s != []
    ensures Apart(s[1..])
    ensures forall i :: 0 <= i < |s| - 1 ==> s[1..][i].inode != s[0].inode
  {}

  lemma {:induction false} KeptNone(s: seq<Entry>, gone: set<nat>, c: nat)
    requires forall e :: e in Kept(s, gone) ==> e.inode != c
    requires forall e :: e in s ==> !IsDots(e.name)
    ensures Kept(s, gone + {c}) == Kept(s, gone)
  {
    if s != [] {
      if s[0].inode in gone {
        assert Kept(s, gone) == Kept(s[1..], gone);
      } else {
        assert Kept(s, gone) == [s[0]] + Kept(s[1..], gone) && s[0] in Kept(s, gone);
      }
      KeptNone(s[1..], gone, c);
    }
  }

  // ----- what the state of a partly removed subtree is like

  /** `gone` contains the descendants of its members and stays below `goal`. */
  ghost predicate Closed(t: Tree, h: Shape, goal: nat, gone: set<nat>) {
    && (forall x :: x in gone ==> Known(t, x) && x != goal && Within(h, goal, x))
    && (forall x :: Known(t, x) && x in h.par && h.par[x] in gone ==> x in gone)
  }

  /** The entries of a remaining directory: the dots, then the kept ones. */
  lemma {:induction false} CutEntries(t: Tree, h: Shape, gone: set<nat>, d: nat)
    requires TreeOk(t, h) && d in t.dirs
    ensures var s, k := t.dirs[d], Kept(t.dirs[d], gone);
            |s| >= 2 && k == s[..2] + Kept(s[2..], gone) && Apart(Kept(s[2..], gone))
            && (forall e :: e in s[2..] ==> !IsDots(e.name)) && k[0] == s[0] && k[1] == s[1]
            && forall i :: 2 <= i < |k| ==> !IsDots(k[i].name) && k[i].inode !in gone && k[i] in s[2..]
  {
    hide TreeOk, Kept, Apart;
    RestApart(t, h, d);
    var s := t.dirs[d];
    assert s == s[..2] + s[2..];
    KeptConcat(s[..2], s[2..], gone);
    KeptDots(s[..2], gone);
    KeptMembers(s[2..], gone);
    KeptApart(s[2..], gone);
    var k := Kept(s, gone);
    forall i | 2 <= i < |k| ensures !IsDots(k[i].name) && k[i].inode !in gone && k[i] in s[2..] {
      assert k[i] == Kept(s[2..], gone)[i - 2] && k[i] in Kept(s[2..], gone);
    }
  }

  lemma {:induction false} RestApart(t: Tree, h: Shape, d: nat)
    requires TreeOk(t, h) && d in t.dirs
    ensures |t.dirs[d]| >= 2 && IsDots(t.dirs[d][0].name) && IsDots(t.dirs[d][1].name)
    ensures Apart(t.dirs[d][2..]) && forall e :: e in t.dirs[d][2..] ==> !IsDots(e.name)
  {
    hide Known, SubDirs;
    assert EntriesOk(t, h, d);
    var s := t.dirs[d];
    forall i, j | 0 <= i < j < |s[2..]| ensures s[2..][i].name != s[2..][j].name && s[2..][i].inode != s[2..][j].inode {
      assert s[2..][i] == s[i + 2] && s[2..][j] == s[j + 2];
    }
  }

  lemma {:induction false} KeptDots(s: seq<Entry>, gone: set<nat>)
    requires forall i :: 0 <= i < |s| ==> IsDots(s[i].name)
    ensures Kept(s, gone) == s
  {
    if s != [] {
      KeptDots(s[1..], gone);
      assert s == [s[0]] + s[1..];
    }
  }

  // ----- removing one childless inode

  /** ext4_dir_remove_entry on the list: the first entry with this name goes. */
  function RemoveName(s: seq<Entry>, name: Name): seq<Entry> {
    if s == [] then [] else if s[0].name == name then s[1..] else [s[0]] + RemoveName(s[1..], name)
  }

  lemma {:induction false} RemoveNameAt(s: seq<Entry>, name: Name, j: nat)
    requires j < |s| && s[j].name == name && forall i :: 0 <= i < j ==> s[i].name != name
    ensures RemoveName(s, name) == s[..j] + s[j + 1..]
  {
    if j == 0 {
    } else {
      RemoveNameAt(s[1..], name, j - 1);
      assert s[..j] + s[j + 1..] == [s[0]] + (s[1..][..j - 1] + s[1..][j..]);
    }
  }

  /** The tree after the inode c, named in directory d, was unlinked and freed. */
  function Unlinked(s: Tree, d: nat, name: Name, c: nat): Tree
    requires d in s.dirs && d in s.links
  {
    Tree((s.dirs - {c})[d := RemoveName(s.dirs[d], name)], s.files - {c},
         (s.links - {c})[d := if c in s.dirs && s.links[d] > 2 then s.links[d] - 1 else s.links[d]])
  }

  lemma {:induction false} NamedKept(s: seq<Entry>, gone: set<nat>)
    ensures Named(Kept(s, gone)) == Named(s) - gone
  {
    KeptMembers(s, gone);
    forall x | x in Named(s) - gone ensures x in Named(Kept(s, gone)) {
      var i :| 0 <= i < |s| && !IsDots(s[i].name) && s[i].inode == x;
      assert s[i] in Kept(s, gone);
    }
    forall x | x in Named(Kept(s, gone)) ensures x in Named(s) - gone {
      var i :| 0 <= i < |Kept(s, gone)| && !IsDots(Kept(s, gone)[i].name) && Kept(s, gone)[i].inode == x;
      assert Kept(s, gone)[i] in Kept(s, gone);
    }
  }

  /** Only the parent's entries name c. */
  lemma {:induction false} NamedOnce(t: Tree, h: Shape, x: nat, c: nat)
    requires TreeOk(t, h) && x in t.dirs && c in Named(t.dirs[x])
    ensures c in h.par && h.par[c] == x && Known(t, c)
  {
    hide SubDirs, Known;
    assert EntriesOk(t, h, x);
  }

  lemma {:induction false} OtherDir(t: Tree, h: Shape, gone: set<nat>, x: nat, c: nat)
    requires TreeOk(t, h) && x in t.dirs && c !in Named(t.dirs[x])
    ensures Kept(t.dirs[x], gone + {c}) == Kept(t.dirs[x], gone)
  {
    hide TreeOk;
    CutEntries(t, h, gone, x);
    CutEntries(t, h, gone + {c}, x);
    var s := t.dirs[x];
    KeptMembers(s[2..], gone);
    forall e | e in Kept(s[2..], gone) ensures e.inode != c {
      assert e in s[2..] && e in s;
    }
    KeptNone(s[2..], gone, c);
  }

  /** The list of the directory that loses an entry. */
  lemma {:induction false} LosesEntry(t: Tree, h: Shape, gone: set<nat>, d: nat, j: nat)
    requires TreeOk(t, h) && d in t.dirs && 2 <= j < |Kept(t.dirs[d], gone)|
    ensures var k := Kept(t.dirs[d], gone); Kept(t.dirs[d], gone + {k[j].inode}) == RemoveName(k, k[j].name)
  {
    hide TreeOk, Kept, Apart, RemoveName;
    var s, k := t.dirs[d], Kept(t.dirs[d], gone);
    var c := k[j].inode;
    CutEntries(t, h, gone, d);
    CutEntries(t, h, gone + {c}, d);
    DotNames(t, h, d);
    var r := Kept(s[2..], gone);
    KeptOne(s[2..], gone, c, j - 2);
    DistinctNames(k, r, j);
    RemoveNameAt(k, k[j].name, j);
    assert k[..j] + k[j + 1..] == s[..2] + (r[..j - 2] + r[j - 1..]);
  }

  lemma {:induction false} DistinctNames(k: seq<Entry>, r: seq<Entry>, j: nat)
    requires |k| >= 2 && k[2..] == r && Apart(r) && 2 <= j < |k| && IsDots(k[0].name) && IsDots(k[1].name) && !IsDots(k[j].name)
    ensures forall i :: 0 <= i < j ==> k[i].name != k[j].name
  {
    forall i | 2 <= i < j ensures k[i].name != k[j].name {
      assert r[i - 2] == k[i] && r[j - 2] == k[j];
    }
  }

  lemma {:induction false} DotNames(t: Tree, h: Shape, d: nat)
    requires TreeOk(t, h) && d in t.dirs
    ensures |t.dirs[d]| >= 2 && t.dirs[d][0] == Entry(DOT, d) && t.dirs[d][1].name == DOTDOT
    ensures t.dirs[d][1].inode == if d in h.par then h.par[d] else d
  {
    assert EntriesOk(t, h, d);
  }

  lemma {:induction false} CutShape(t: Tree, gone: set<nat>)
    ensures Cut(t, gone).dirs.Keys == t.dirs.Keys - gone && Cut(t, gone).links.Keys == t.dirs.Keys - gone
    ensures Cut(t, gone).files == t.files - gone
  {
    hide Kept;
  }

  lemma {:induction false} CutList(t: Tree, gone: set<nat>, d: nat)
    requires d in t.dirs && d !in gone
    ensures d in Cut(t, gone).dirs && Cut(t, gone).dirs[d] == Kept(t.dirs[d], gone)
  {
    hide Kept;
  }

  lemma {:induction false} CutDirs(t: Tree, gone: set<nat>)
    ensures Cut(t, gone).dirs.Keys == t.dirs.Keys - gone && Cut(t, gone).links.Keys == t.dirs.Keys - gone
    ensures forall d :: d in t.dirs && d !in gone ==> Cut(t, gone).dirs[d] == Kept(t.dirs[d], gone)
    ensures forall d :: d in t.dirs && d !in gone ==> Cut(t, gone).links[d] == 2 + |SubDirs(Cut(t, gone), d)|
    ensures Cut(t, gone).files == t.files - gone
  {
    hide Kept;
  }

  lemma {:induction false} SubDirsCut(t: Tree, gone: set<nat>, d: nat)
    requires d in t.dirs && d !in gone
    ensures d in Cut(t, gone).dirs && SubDirs(Cut(t, gone), d) == (Named(t.dirs[d]) * t.dirs.Keys) - gone
  {
    hide Named, Kept;
    CutDirs(t, gone);
    NamedKept(t.dirs[d], gone);
  }

  /** Unlinking and freeing a named inode takes exactly this inode out of the tree. */
  lemma {:induction false} UnlinkedIs(t: Tree, h: Shape, gone: set<nat>, d: nat, j: nat)
    requires TreeOk(t, h) && d in t.dirs && d !in gone && 2 <= j < |Kept(t.dirs[d], gone)|
    ensures var e := Kept(t.dirs[d], gone)[j];
            d in Cut(t, gone).dirs && d in Cut(t, gone).links
            && Unlinked(Cut(t, gone), d, e.name, e.inode) == Cut(t, gone + {e.inode})
  {
    hide TreeOk, Kept, RemoveName, Named, SubDirs, Cut, Unlinked;
    var e := Kept(t.dirs[d], gone)[j];
    var c := e.inode;
    CutShape(t, gone);
    CutShape(t, gone + {c});
    CutList(t, gone, d);
    LosesEntry(t, h, gone, d, j);
    NamedHere(t, h, gone, d, j);
    NamedOnce(t, h, d, c);
    ParentDiffers(t, h, c);
    CutList(t, gone + {c}, d);
    LinksAfter(t, gone, d, c);
    OthersSame(t, h, gone, d, c);
    UnlinkedParts(Cut(t, gone), d, e.name, c);
    var u, v := Unlinked(Cut(t, gone), d, e.name, c), Cut(t, gone + {c});
    assert u.dirs.Keys == v.dirs.Keys && u.links.Keys == v.links.Keys && u.files == v.files;
    forall x | x in u.dirs ensures u.dirs[x] == v.dirs[x] && u.links[x] == v.links[x] {
      if x != d { assert x in t.dirs && x !in gone && x != c; }
    }
    SameTree(u, v);
  }

  lemma {:induction false} UnlinkedParts(s: Tree, d: nat, name: Name, c: nat)
    requires d in s.dirs && d in s.links && d != c
    ensures var u := Unlinked(s, d, name, c);
      && u.dirs.Keys == s.dirs.Keys - {c} && u.links.Keys == s.links.Keys - {c} && u.files == s.files - {c}
      && u.dirs[d] == RemoveName(s.dirs[d], name)
      && u.links[d] == (if c in s.dirs && s.links[d] > 2 then s.links[d] - 1 else s.links[d])
    ensures forall x :: x in s.dirs && x != c && x != d ==> Unlinked(s, d, name, c).dirs[x] == s.dirs[x]
    ensures forall x :: x in s.links && x != c && x != d ==> Unlinked(s, d, name, c).links[x] == s.links[x]
  {
    hide RemoveName;
  }

  /** The directories that do not name c stay as they were. */
  lemma {:induction false} OthersSame(t: Tree, h: Shape, gone: set<nat>, d: nat, c: nat)
    requires TreeOk(t, h) && c in h.par && h.par[c] == d
    ensures forall x :: x in t.dirs && x !in gone && x != c && x != d ==>
      && x in Cut(t, gone).dirs && x in Cut(t, gone + {c}).dirs && Cut(t, gone + {c}).dirs[x] == Cut(t, gone).dirs[x]
      && x in Cut(t, gone).links && x in Cut(t, gone + {c}).links && Cut(t, gone + {c}).links[x] == Cut(t, gone).links[x]
  {
    hide TreeOk, Kept, Named, SubDirs, Cut;
    CutDirs(t, gone);
    CutDirs(t, gone + {c});
    forall x | x in t.dirs && x !in gone && x != c && x != d
      ensures Cut(t, gone + {c}).dirs[x] == Cut(t, gone).dirs[x] && Cut(t, gone + {c}).links[x] == Cut(t, gone).links[x]
    {
      if c in Named(t.dirs[x]) { NamedOnce(t, h, x, c); }
      OtherDir(t, h, gone, x, c);
      OtherLinks(t, gone, x, c);
    }
  }

  lemma {:induction false} SameTree(a: Tree, b: Tree)
    requires a.dirs.Keys == b.dirs.Keys && a.links.Keys == b.links.Keys && a.files == b.files
    requires forall d :: d in a.dirs ==> a.dirs[d] == b.dirs[d]
    requires forall d :: d in a.links ==> a.links[d] == b.links[d]
    ensures a == b
  {}

  lemma {:induction false} OtherLinks(t: Tree, gone: set<nat>, x: nat, c: nat)
    requires x in t.dirs && x !in gone && x != c && c !in Named(t.dirs[x])
    ensures x in Cut(t, gone).links && x in Cut(t, gone + {c}).links && Cut(t, gone + {c}).links[x] == Cut(t, gone).links[x]
  {
    hide Kept, Named, SubDirs, Cut;
    CutDirs(t, gone);
    CutDirs(t, gone + {c});
    SubDirsCut(t, gone, x);
    SubDirsCut(t, gone + {c}, x);
    assert (Named(t.dirs[x]) * t.dirs.Keys) - (gone + {c}) == (Named(t.dirs[x]) * t.dirs.Keys) - gone;
  }

  lemma {:induction false} LinksAfter(t: Tree, gone: set<nat>, d: nat, c: nat)
    requires d in t.dirs && d !in gone && d != c && c in Named(t.dirs[d]) && c !in gone
    ensures d in Cut(t, gone).links && d in Cut(t, gone + {c}).links
    ensures Cut(t, gone + {c}).links[d] == if c in t.dirs then Cut(t, gone).links[d] - 1 else Cut(t, gone).links[d]
    ensures c in t.dirs ==> Cut(t, gone).links[d] > 2
  {
    hide Kept, Named, SubDirs, Cut;
    CutDirs(t, gone);
    CutDirs(t, gone + {c});
    SubDirsCut(t, gone, d);
    SubDirsCut(t, gone + {c}, d);
    var a := (Named(t.dirs[d]) * t.dirs.Keys) - gone;
    assert (Named(t.dirs[d]) * t.dirs.Keys) - (gone + {c}) == a - {c};
    if c in t.dirs {
      assert c in a && |a - {c}| == |a| - 1;
    } else {
      assert a - {c} == a;
    }
  }

  lemma {:induction false} NamedHere(t: Tree, h: Shape, gone: set<nat>, d: nat, j: nat)
    requires TreeOk(t, h) && d in t.dirs && 2 <= j < |Kept(t.dirs[d], gone)|
    ensures var c := Kept(t.dirs[d], gone)[j].inode; c in Named(t.dirs[d]) && c !in gone
  {
    hide TreeOk, Kept;
    CutEntries(t, h, gone, d);
    var e := Kept(t.dirs[d], gone)[j];
    assert e in t.dirs[d][2..] && e in t.dirs[d];
  }

  lemma {:induction false} ParentDiffers(t: Tree, h: Shape, c: nat)
    requires TreeOk(t, h) && Known(t, c) && c in h.par
    ensures h.par[c] != c && h.par[c] in t.dirs
  {
    hide SubDirs, EntriesOk;
  }

  /** A childless inode can go. */
  lemma {:induction false} ClosedMore(t: Tree, h: Shape, goal: nat, gone: set<nat>, c: nat)
    requires TreeOk(t, h) && Closed(t, h, goal, gone) && Known(t, c) && c != goal && Within(h, goal, c)
    requires c in t.dirs ==> Named(t.dirs[c]) <= gone
    ensures Closed(t, h, goal, gone + {c})
  {
    hide SubDirs, EntriesOk, Named;
  }
}
