/** Recursive directory removal: ext4_has_children, ext4_unlink and ext4_dir_rm. The traversal keeps
    no stack, only the current inode, the inode to go up to and a depth. */
module DirRm {
  import opened DirNames
  import opened DirTree

  datatype Error = EOK | ENOTEMPTY | ENOENT

  lemma {:induction false} CutNothing(t: Tree, h: Shape)
    requires TreeOk(t, h) && t.links.Keys == t.dirs.Keys
    ensures Cut(t, {}) == t
  {
    hide TreeOk, Kept, Named, SubDirs, Cut;
    CutDirs(t, {});
    forall d | d in t.dirs ensures Cut(t, {}).dirs[d] == t.dirs[d] {
      KeptAll(t.dirs[d]);
    }
    SameDirs(t);
    forall d | d in t.dirs ensures t.links[d] == 2 + |SubDirs(t, d)| { LinksRight(t, h, d); }
    SameTree(Cut(t, {}), t);
  }

  lemma {:induction false} SameDirs(t: Tree)
    requires Cut(t, {}).dirs == t.dirs
    ensures forall d :: d in t.dirs ==> SubDirs(Cut(t, {}), d) == SubDirs(t, d)
  {
    hide Named, Kept, Cut;
  }

  lemma {:induction false} KeptAll(s: seq<Entry>)
    ensures Kept(s, {}) == s
  {
    if s != [] { KeptAll(s[1..]); assert s == [s[0]] + s[1..]; }
  }

  // ----- where the traversal is

  /** The traversal stands in the directory `cur`, `depth` levels below the parent of `goal`, after the
      inodes in `gone` went. */
  ghost predicate At(t: Tree, h: Shape, goal: nat, gone: set<nat>, cur: nat, depth: nat) {
    && TreeOk(t, h) && Closed(t, h, goal, gone)
    && goal in t.dirs && goal != h.root
    && cur in t.dirs && cur !in gone && Within(h, goal, cur)
    && cur in h.level && goal in h.level && h.level[cur] + 1 == h.level[goal] + depth
  }

  /** The directories further from the root than `cur`. */
  ghost function Deeper(t: Tree, h: Shape, cur: nat): set<nat> {
    set x | x in t.dirs && x in h.level && cur in h.level && h.level[x] > h.level[cur]
  }

  lemma {:induction false} WithinIsDeeper(h: Shape, goal: nat, x: nat)
    requires Within(h, goal, x) && goal in h.level
    ensures x in h.level && h.level[x] >= h.level[goal] && (h.level[x] == h.level[goal] ==> x == goal)
    decreases if x in h.level then h.level[x] else 0
  {
    if x != goal { WithinIsDeeper(h, goal, h.par[x]); }
  }

  /** A named child of a directory of the subtree is in the subtree, one level down. */
  lemma {:induction false} ChildWithin(t: Tree, h: Shape, goal: nat, d: nat, c: nat)
    requires TreeOk(t, h) && goal in t.dirs && Within(h, goal, d) && d in t.dirs && c in Named(t.dirs[d])
    ensures Known(t, c) && c in h.level && d in h.level && h.level[c] == h.level[d] + 1 && Within(h, goal, c) && c != goal
    ensures c in h.par && h.par[c] == d && d != c
  {
    hide SubDirs, EntriesOk;
    NamedOnce(t, h, d, c);
    KnownLevel(t, h, c);
    LevelOf(t, h, goal);
    WithinIsDeeper(h, goal, d);
  }

  lemma {:induction false} KnownLevel(t: Tree, h: Shape, c: nat)
    requires TreeOk(t, h) && Known(t, c) && c in h.par
    ensures c in h.level && h.par[c] in h.level && h.par[c] in t.dirs && h.level[c] == h.level[h.par[c]] + 1
    ensures c in Named(t.dirs[h.par[c]])
  {
    hide SubDirs, EntriesOk, Named;
  }

  lemma {:induction false} LevelOf(t: Tree, h: Shape, c: nat)
    requires TreeOk(t, h) && Known(t, c)
    ensures c in h.level && (c != h.root ==> c in h.par)
  {
    hide SubDirs, EntriesOk, Named;
  }

  /** Going up from a directory below the goal stays in the subtree and among what remains. */
  lemma {:induction false} UpWithin(t: Tree, h: Shape, goal: nat, gone: set<nat>, cur: nat, depth: nat)
    requires At(t, h, goal, gone, cur, depth) && depth > 1
    ensures cur in h.par && h.par[cur] in t.dirs && At(t, h, goal, gone, h.par[cur], depth - 1) && cur in Named(t.dirs[h.par[cur]])
  {
    hide TreeOk, Named;
    assert cur != goal;
    KnownLevel(t, h, cur);
  }

  /** At the bottom level the current directory is the goal. */
  lemma {:induction false} AtGoal(t: Tree, h: Shape, goal: nat, gone: set<nat>, cur: nat)
    requires At(t, h, goal, gone, cur, 1)
    ensures cur == goal && goal in h.par
  {
    hide TreeOk;
    WithinIsDeeper(h, goal, cur);
    LevelOf(t, h, goal);
  }

  lemma {:induction false} DepthPositive(t: Tree, h: Shape, goal: nat, gone: set<nat>, cur: nat, depth: nat)
    requires At(t, h, goal, gone, cur, depth)
    ensures depth >= 1
  {
    hide TreeOk;
    WithinIsDeeper(h, goal, cur);
  }

  /** Diving into a child. */
  lemma {:induction false} DownWithin(t: Tree, h: Shape, goal: nat, gone: set<nat>, cur: nat, depth: nat, c: nat)
    requires At(t, h, goal, gone, cur, depth) && c in Named(t.dirs[cur]) && c in t.dirs && c !in gone
    ensures At(t, h, goal, gone, c, depth + 1) && Deeper(t, h, c) < Deeper(t, h, cur)
  {
    hide TreeOk, Named;
    ChildWithin(t, h, goal, cur, c);
    assert c in Deeper(t, h, cur) && c !in Deeper(t, h, c);
  }

  /** Removing a childless child of the current directory. */
  lemma {:induction false} RemovedChild(t: Tree, h: Shape, goal: nat, gone: set<nat>, cur: nat, depth: nat, c: nat)
    requires At(t, h, goal, gone, cur, depth) && c in Named(t.dirs[cur]) && c !in gone
    requires c in t.dirs ==> Named(t.dirs[c]) <= gone
    ensures At(t, h, goal, gone + {c}, cur, depth) && c in Subtree(t, h, goal)
  {
    hide TreeOk, Named;
    ChildWithin(t, h, goal, cur, c);
    ClosedMore(t, h, goal, gone, c);
  }

  lemma {:induction false} GoneBelow(t: Tree, h: Shape, goal: nat, gone: set<nat>)
    requires Closed(t, h, goal, gone) && goal in t.dirs
    ensures gone <= Subtree(t, h, goal) - {goal}
  {}

  /** When the goal's own children went, everything below it went. */
  lemma {:induction false} BelowIsGone(t: Tree, h: Shape, goal: nat, gone: set<nat>, x: nat)
    requires TreeOk(t, h) && Closed(t, h, goal, gone) && goal in t.dirs && Named(t.dirs[goal]) <= gone
    requires Known(t, x) && Within(h, goal, x) && x != goal
    ensures x in gone
    decreases if x in h.level then h.level[x] else 0
  {
    hide TreeOk, Named;
    KnownLevel(t, h, x);
    if h.par[x] != goal { BelowIsGone(t, h, goal, gone, h.par[x]); }
  }

  lemma {:induction false} AllGone(t: Tree, h: Shape, goal: nat, gone: set<nat>)
    requires TreeOk(t, h) && Closed(t, h, goal, gone) && goal in t.dirs && Named(t.dirs[goal]) <= gone
    ensures gone == Subtree(t, h, goal) - {goal}
  {
    hide TreeOk, Named;
    GoneBelow(t, h, goal, gone);
    forall x | x in Subtree(t, h, goal) - {goal} ensures x in gone {
      BelowIsGone(t, h, goal, gone, x);
    }
  }

  // ----- one entry of a directory in a partly removed tree

  /** The dots, "..", leading to the parent, then other entries. */
  ghost predicate ListOk(h: Shape, s: seq<Entry>, d: nat) {
    && |s| >= 2 && s[0] == Entry(DOT, d) && s[1] == Entry(DOTDOT, if d in h.par then h.par[d] else d)
    && forall i :: 2 <= i < |s| ==> !IsDots(s[i].name)
  }

  /** The entries of a remaining directory, as the scan sees them. */
  lemma {:induction false} ListHere(t: Tree, h: Shape, gone: set<nat>, d: nat)
    requires TreeOk(t, h) && d in t.dirs && d !in gone
    ensures d in Cut(t, gone).dirs && d in Cut(t, gone).links && Cut(t, gone).dirs[d] == Kept(t.dirs[d], gone)
    ensures ListOk(h, Cut(t, gone).dirs[d], d) && Named(Cut(t, gone).dirs[d]) == Named(t.dirs[d]) - gone
  {
    hide TreeOk, Kept, Named, SubDirs, Cut;
    CutDirs(t, gone);
    CutEntries(t, h, gone, d);
    DotNames(t, h, d);
    NamedKept(t.dirs[d], gone);
  }

  /** A child without children: nothing below it is left. */
  lemma {:induction false} Childless(t: Tree, h: Shape, gone: set<nat>, c: nat)
    requires TreeOk(t, h) && c !in gone && !(c in Cut(t, gone).dirs && Named(Cut(t, gone).dirs[c]) != {})
    ensures c in t.dirs ==> Named(t.dirs[c]) <= gone
  {
    hide TreeOk, Kept, Named, SubDirs, Cut;
    CutDirs(t, gone);
    if c in t.dirs {
      ListHere(t, h, gone, c);
      assert Named(t.dirs[c]) - gone == {};
      forall x | x in Named(t.dirs[c]) ensures x in gone {
        assert x in Named(t.dirs[c]) - gone || x in gone;
      }
    }
  }

  /** A child with children is a directory that is left. */
  lemma {:induction false} Dives(t: Tree, gone: set<nat>, c: nat)
    requires c in Cut(t, gone).dirs
    ensures c in t.dirs && c !in gone
  {}

  lemma {:induction false} NothingNamed(s: seq<Entry>)
    requires |s| == 2 && IsDots(s[0].name) && IsDots(s[1].name)
    ensures Named(s) == {}
  {}

  lemma {:induction false} NamesOne(s: seq<Entry>, j: nat)
    requires j < |s| && !IsDots(s[j].name)
    ensures s[j].inode in Named(s)
  {}

  lemma {:induction false} NameAt(s: seq<Entry>, j: nat, name: Name)
    requires j < |s| && s[j].name == name
    ensures exists i :: 0 <= i < |s| && s[i].name == name
  {}

  /** A directory that names no directory but by the dots; the same file may be named more than once. */
  predicate OnlyFiles(dirs: map<nat, seq<Entry>>, d: nat)
    requires d in dirs
  {
    var s := dirs[d];
    && |s| >= 2 && s[0].name == DOT && s[1].name == DOTDOT
    && forall i :: 2 <= i < |s| ==> !IsDots(s[i].name) && s[i].inode !in dirs
  }

  /** The inodes of a list, an inode as often as it is named. */
  function Inos(s: seq<Entry>): seq<nat> { seq(|s|, i requires 0 <= i < |s| => s[i].inode) }

  /** An inode is in the list more than once exactly when two entries name it. */
  lemma {:induction false} FreedTwice(s: seq<Entry>, c: nat)
    ensures multiset(Inos(s))[c] > 0 <==> exists i :: 0 <= i < |s| && s[i].inode == c
    ensures multiset(Inos(s))[c] > 1 <==> exists i, j :: 0 <= i < j < |s| && s[i].inode == s[j].inode == c
  {
    if s != [] {
      var n := |s| - 1;
      FreedTwice(s[..n], c);
      assert Inos(s) == Inos(s[..n]) + [s[n].inode];
      assert forall i :: 0 <= i < n ==> s[..n][i] == s[i];
    }
  }

  lemma {:induction false} FilesStart(s: seq<Entry>)
    requires |s| >= 2
    ensures s[..2] + s[2..] == s && Inos(s[2..2]) == []
  {}

  /** The first entry behind the dots goes. */
  lemma {:induction false} FilesNext(s: seq<Entry>, n: nat)
    requires |s| >= 2 && n < |s| - 2 && s[0].name != s[2 + n].name && s[1].name != s[2 + n].name
    ensures RemoveName(s[..2] + s[2 + n..], s[2 + n].name) == s[..2] + s[3 + n..]
    ensures Inos(s[2..3 + n]) == Inos(s[2..2 + n]) + [s[2 + n].inode]
  {
    var u := s[..2] + s[2 + n..];
    RemoveNameAt(u, s[2 + n].name, 2);
    assert u[..2] + u[3..] == s[..2] + s[3 + n..];
  }

  /** The tree after directory c lost one name and kept its inode. */
  function Unnamed(s: Tree, d: nat, name: Name, c: nat): Tree
    requires d in s.dirs && d in s.links && c in s.links
  {
    var links := s.links[d := if c in s.dirs && s.links[d] > 2 then s.links[d] - 1 else s.links[d]];
    Tree(s.dirs[d := RemoveName(s.dirs[d], name)], s.files, links[c := if s.links[c] > 2 then s.links[c] - 1 else s.links[c]])
  }

  // ----- the file system

  class Fs {
    var dirs: map<nat, seq<Entry>>
    var files: set<nat>
    var links: map<nat, nat>
    /** The inodes handed to ext4_fs_free_inode, in order. */
    var freed: seq<nat>

    function State(): Tree
      reads this
    {
      Tree(dirs, files, links)
    }

    /** ext4_has_children. */
    method HasChildren(x: nat) returns (has: bool)
      ensures has <==> x in dirs && Named(dirs[x]) != {}
    {
      if x !in dirs { return false; }
      var i := 0;
      while i < |dirs[x]|
        invariant i <= |dirs[x]| && forall k :: 0 <= k < i ==> IsDots(dirs[x][k].name)
      {
        if !IsDots(dirs[x][i].name) {
          NamesOne(dirs[x], i);
          return true;
        }
        i := i + 1;
      }
      has := false;
    }

    /** ext4_unlink: only a node without children loses its name. */
    method Unlink(d: nat, c: nat, name: Name) returns (r: Error)
      requires d in dirs && d in links && d != c && (c in dirs ==> c in links)
      modifies this`dirs, this`links
      ensures (r == ENOTEMPTY) <==> old(c in dirs && Named(dirs[c]) != {})
      ensures r == EOK ==> old(exists i :: 0 <= i < |dirs[d]| && dirs[d][i].name == name)
      ensures r == ENOENT ==> old(forall i :: 0 <= i < |dirs[d]| ==> dirs[d][i].name != name)
      ensures r != EOK ==> dirs == old(dirs) && links == old(links)
      ensures r == EOK ==> dirs == old(dirs[d := RemoveName(dirs[d], name)])
      ensures r == EOK ==> links.Keys == old(links).Keys && forall x :: x in links && x != c ==>
        links[x] == if x == d && c in old(dirs) && old(links)[x] > 2 then old(links)[x] - 1 else old(links)[x]
      ensures r == EOK && c in links ==> links[c] == if old(links)[c] > 2 then old(links)[c] - 1 else old(links)[c]
    {
      var has := HasChildren(c);
      if has { return ENOTEMPTY; }
      if forall i | 0 <= i < |dirs[d]| :: dirs[d][i].name != name { return ENOENT; }
      dirs := dirs[d := RemoveName(dirs[d], name)];
      if c in dirs && links[d] > 2 { links := links[d := links[d] - 1]; }
      if c in links && links[c] > 2 { links := links[c := links[c] - 1]; }
      r := EOK;
    }

    /** ext4_fs_free_inode. */
    method FreeInode(c: nat)
      modifies this
      ensures State() == old(Tree(dirs - {c}, files - {c}, links - {c})) && freed == old(freed) + [c]
    {
      dirs, files, links, freed := dirs - {c}, files - {c}, links - {c}, freed + [c];
    }

    /** The name goes and the inode is freed. */
    method Drop(d: nat, c: nat, name: Name) returns (r: Error)
      requires d in dirs && d in links && d != c && (c in dirs ==> c in links)
      requires !(c in dirs && Named(dirs[c]) != {}) && exists i :: 0 <= i < |dirs[d]| && dirs[d][i].name == name
      modifies this
      ensures r == EOK && State() == old(Unlinked(State(), d, name, c)) && freed == old(freed) + [c]
    {
      r := Unlink(d, c, name);
      FreeInode(c);
    }

    /** A turn of the inner loop on an entry that is not a dot: a child with children is left alone, any
        other one loses this name and its inode is freed, whatever its link count. */
    method Visit(cur: nat, j: nat) returns (has: bool)
      requires cur in dirs && cur in links && j < |dirs[cur]| && dirs[cur][j].inode != cur
      requires dirs[cur][j].inode in dirs ==> dirs[cur][j].inode in links
      modifies this
      ensures has <==> old(dirs[cur][j].inode in dirs && Named(dirs[dirs[cur][j].inode]) != {})
      ensures has ==> State() == old(State()) && freed == old(freed)
      ensures !has ==> var e := old(dirs[cur][j]);
                       State() == old(Unlinked(State(), cur, dirs[cur][j].name, dirs[cur][j].inode)) && freed == old(freed) + [e.inode]
    {
      var e := dirs[cur][j];
      has := HasChildren(e.inode);
      if !has {
        NameAt(dirs[cur], j, e.name);
        var r := Drop(cur, e.inode, e.name);
        assert r == EOK;
      }
    }

    /** The traversal of a directory that names only files, each any number of times: one scan and the
        last unlink. Every entry hands its inode to ext4_fs_free_inode. */
    method DirRmFiles(goal: nat, name: Name) returns (r: Error)
      requires links.Keys == dirs.Keys && goal in dirs && OnlyFiles(dirs, goal) && dirs[goal][1].inode in dirs && dirs[goal][1].inode != goal
      modifies this
      ensures r == EOK <==> old(exists i :: 0 <= i < |dirs[dirs[goal][1].inode]| && dirs[dirs[goal][1].inode][i].name == name)
      ensures freed == old(freed) + Inos(old(dirs[goal])[2..]) + if r == EOK && 2 <= old(links)[goal] <= 3 then [goal] else []
    {
      hide RemoveName, Named, Unlinked, Unnamed;
      var up := ScanFiles(goal);
      NothingNamed(dirs[goal]);
      r := LastUnlink(up, goal, name);
    }

    /** The inner loop on such a directory. */
    method ScanFiles(cur: nat) returns (up: nat)
      requires links.Keys == dirs.Keys && cur in dirs && OnlyFiles(dirs, cur)
      modifies this
      ensures dirs == old(dirs)[cur := old(dirs[cur])[..2]] && links == old(links)
      ensures freed == old(freed) + Inos(old(dirs[cur])[2..]) && up == old(dirs[cur])[1].inode
    {
      hide Named, RemoveName;
      ghost var s, n := dirs[cur], 0;
      ghost var dirs0, links0, freed0 := dirs, links, freed;
      up := cur;
      var pos, has, end := 0, false, false;
      FilesStart(s);
      while !has && !end
        invariant pos <= 2 && n <= |s| - 2 && (n > 0 ==> pos == 2) && dirs == dirs0[cur := s[..2] + s[2 + n..]] && links == links0
        invariant freed == freed0 + Inos(s[2..2 + n]) && !has && (pos == 2 ==> up == s[1].inode)
        invariant end ==> pos == 2 && n == |s| - 2
        decreases |s| - n - pos + if end then 0 else 1
      {
        if pos >= |dirs[cur]| {
          end := true;
        } else {
          var e := dirs[cur][pos];
          if |e.name| == 2 && IsDots(e.name) { up := e.inode; }
          if !IsDots(e.name) {
            has := Visit(cur, pos);
            FilesNext(s, n);
            n := n + 1;
          } else {
            pos := pos + 1;
          }
        }
      }
      assert s[..2] + s[2 + n..] == s[..2] && s[2..2 + n] == s[2..];
    }

    /** A turn of the inner loop on an entry that is not a dot: a child with children stays, a childless
        child goes. */
    method VisitEntry(cur: nat, j: nat, ghost t: Tree, ghost h: Shape, ghost goal: nat, ghost gone: set<nat>, ghost depth: nat)
      returns (has: bool)
      requires At(t, h, goal, gone, cur, depth) && State() == Cut(t, gone)
      requires cur in dirs && 2 <= j < |dirs[cur]|
      modifies this
      ensures has <==> old(dirs[cur][j].inode in dirs && Named(dirs[dirs[cur][j].inode]) != {})
      ensures has ==> State() == old(State()) && freed == old(freed) && At(t, h, goal, gone, old(dirs[cur][j].inode), depth + 1)
                      && Deeper(t, h, old(dirs[cur][j].inode)) < Deeper(t, h, cur)
      ensures !has ==> var c := old(dirs[cur][j].inode);
                       c !in gone && c in Subtree(t, h, goal) && At(t, h, goal, gone + {c}, cur, depth)
                       && State() == Cut(t, gone + {c}) && freed == old(freed) + [c]
      ensures !has ==> cur in dirs && |dirs[cur]| == old(|dirs[cur]|) - 1
    {
      hide At, TreeOk, Kept, Named, SubDirs, Cut, Deeper, Subtree, Closed, Within, Unlinked;
      ghost var c := dirs[cur][j].inode;
      EntryHere(t, h, goal, gone, cur, j, depth);
      LinksThere(t, h, gone, c);
      has := Visit(cur, j);
      if has {
        Dives(t, gone, c);
        DownWithin(t, h, goal, gone, cur, depth, c);
      } else {
        Childless(t, h, gone, c);
        RemovedChild(t, h, goal, gone, cur, depth, c);
        UnlinkedIs(t, h, gone, cur, j);
        ListAfter(t, h, gone, cur, j);
      }
    }

    /** The inner loop: scan the current directory from its start, removing childless children, until a
        child with children turns up, which becomes the current directory, or the scan ends. The inode
        to go up to is that of the last ".." seen. An entry that is removed leaves its position to the
        one after it. */
    method Scan(cur0: nat, up0: nat, depth0: nat, ghost t: Tree, ghost h: Shape, ghost goal: nat, ghost gone0: set<nat>)
      returns (cur: nat, up: nat, depth: nat, end: bool, ghost gone: set<nat>)
      requires At(t, h, goal, gone0, cur0, depth0) && State() == Cut(t, gone0)
      modifies this
      ensures State() == Cut(t, gone) && gone0 <= gone && At(t, h, goal, gone, cur, depth)
      ensures multiset(freed) == multiset(old(freed)) + multiset(gone - gone0)
      ensures end ==> cur == cur0 && depth == depth0 && Bare(t, gone, cur) && up == if cur in h.par then h.par[cur] else cur
      ensures !end ==> depth == depth0 + 1 && (gone == gone0 ==> Sooner(t, h, gone, cur, cur0))
    {
      hide At, TreeOk, Kept, Named, SubDirs, Cut, Deeper, Subtree, Closed, Within, Unlinked, AtEnd, Sooner, Bare;
      cur, up, depth, gone := cur0, up0, depth0, gone0;
      end := false;
      var pos, has := 0, false;
      CurHere(t, h, goal, gone, cur, depth);
      while !has && !end
        invariant State() == Cut(t, gone) && gone0 <= gone
        invariant multiset(freed) == multiset(old(freed)) + multiset(gone - gone0)
        invariant At(t, h, goal, gone, cur, depth)
        invariant !has ==> cur == cur0 && depth == depth0 && cur in dirs && ListOk(h, dirs[cur], cur)
                           && Named(dirs[cur]) == Named(t.dirs[cur]) - gone
        invariant !has ==> pos <= 2 <= |dirs[cur]| && (pos == 2 ==> up == if cur in h.par then h.par[cur] else cur)
        invariant end ==> !has && pos == 2 && cur in dirs && |dirs[cur]| == 2
        invariant has ==> depth == depth0 + 1
        invariant has && gone == gone0 ==> Sooner(t, h, gone, cur, cur0)
        decreases if has || end || cur0 !in dirs then 0 else 3 + |dirs[cur0]| - pos
      {
        if pos >= |dirs[cur]| {
          end := true;
        } else {
          var e := dirs[cur][pos];
          if |e.name| == 2 && IsDots(e.name) { up := e.inode; }
          if !IsDots(e.name) {
            ghost var was := gone;
            has := VisitEntry(cur, pos, t, h, goal, gone, depth);
            if has {
              EntryStays(t, h, goal, gone, cur, pos, depth);
              up := cur;
              cur := e.inode;
              depth := depth + 1;
              if gone == gone0 { DiveIsSooner(t, h, goal, gone, cur, cur0, depth0); }
            } else {
              gone := gone + {e.inode};
              OneMore(gone0, was, e.inode);
              CurHere(t, h, goal, gone, cur, depth);
            }
          } else {
            pos := pos + 1;
          }
        }
      }
      if end {
        NothingNamed(dirs[cur]);
        AllNamedGone(t, gone, cur, dirs[cur]);
      }
    }

    /** A turn of the outer loop: a scan, and at its end a step up. */
    method Turn(cur0: nat, up0: nat, depth0: nat, ghost t: Tree, ghost h: Shape, ghost goal: nat, ghost gone0: set<nat>)
      returns (cur: nat, up: nat, depth: nat, ghost gone: set<nat>)
      requires At(t, h, goal, gone0, cur0, depth0) && State() == Cut(t, gone0)
      modifies this
      ensures State() == Cut(t, gone) && gone0 <= gone <= Subtree(t, h, goal) - {goal}
      ensures multiset(freed) == multiset(old(freed)) + multiset(gone - gone0)
      ensures depth > 0 ==> At(t, h, goal, gone, cur, depth)
      ensures depth == 0 ==> AtEnd(t, h, goal, gone, cur, up)
      ensures depth > 0 && gone == gone0 ==> Sooner(t, h, gone, cur, cur0)
    {
      hide At, TreeOk, Kept, Named, SubDirs, Cut, Deeper, Subtree, Closed, Within, AtEnd, Sooner, Bare;
      var end;
      cur, up, depth, end, gone := Scan(cur0, up0, depth0, t, h, goal, gone0);
      Least(t, h, goal, gone, cur, depth);
      if end {
        depth := depth - 1;
        if depth > 0 {
          UpWithin(t, h, goal, gone, cur, depth + 1);
          cur := up;
          if gone == gone0 { UpIsSooner(t, h, gone, cur, cur0); }
        } else {
          EndsAt(t, h, goal, gone, cur, up);
        }
      }
    }

    /** ext4_dir_rm on the directory `goal`, whose entry in its parent has this name. `h` says where the
        inodes are: it is the precondition that the tree is well formed. */
    method DirRm(goal: nat, name: Name, ghost h: Shape) returns (r: Error)
      requires TreeOk(State(), h) && links.Keys == dirs.Keys && goal in dirs && goal != h.root && !IsDots(name)
      requires goal in h.par && h.par[goal] in dirs && Entry(name, goal) in dirs[h.par[goal]]
      modifies this
      ensures r == EOK && State() == old(Cut(State(), Subtree(State(), h, goal)))
      ensures multiset(freed) == multiset(old(freed)) + multiset(old(Subtree(State(), h, goal)))
    {
      hide TreeOk, Kept, Named, SubDirs, Cut, Deeper, Subtree, Closed, Within, AtEnd, Unlinked, Bare, At;
      ghost var t, gone := State(), {};
      Starts(t, h, goal);
      // up is set by the scan before it is used
      var cur, up, depth := goal, goal, 1;
      while depth > 0
        invariant State() == Cut(t, gone) && multiset(freed) == multiset(old(freed)) + multiset(gone)
        invariant depth > 0 ==> At(t, h, goal, gone, cur, depth)
        invariant depth == 0 ==> AtEnd(t, h, goal, gone, cur, up)
        decreases Subtree(t, h, goal) - {goal} - gone, if depth == 0 then 0 else if Bare(t, gone, cur) then 2 else 1, Deeper(t, h, cur)
      {
        ghost var gone0 := gone;
        cur, up, depth, gone := Turn(cur, up, depth, t, h, goal, gone);
        Added(gone0, gone);
        if gone != gone0 { Shrinks(Subtree(t, h, goal) - {goal}, gone0, gone); }
      }
      EndedAt(t, h, goal, gone, cur, up);
      Finish(t, h, goal, gone, cur, up, name);
      OneMore({}, gone, goal);
      r := LastUnlink(up, cur, name);
    }

    /** The last unlink: the inode is freed when its count was 2, or 3 of which one was taken off;
        with a higher count it keeps its inode and loses one link. */
    method LastUnlink(up: nat, cur: nat, name: Name) returns (r: Error)
      requires up in dirs && up in links && up != cur && cur in dirs && cur in links
      modifies this
      ensures r == EOK <==> old(Named(dirs[cur]) == {} && exists i :: 0 <= i < |dirs[up]| && dirs[up][i].name == name)
      ensures r != EOK ==> State() == old(State()) && freed == old(freed)
      ensures r == EOK && 2 <= old(links)[cur] <= 3 ==> State() == old(Unlinked(State(), up, name, cur)) && freed == old(freed) + [cur]
      ensures r == EOK && !(2 <= old(links)[cur] <= 3) ==> State() == old(Unnamed(State(), up, name, cur)) && freed == old(freed)
    {
      r := Unlink(up, cur, name);
      if r != EOK { return; }
      if links[cur] == 2 { FreeInode(cur); }
    }
  }

  lemma {:induction false} Added(a: set<nat>, b: set<nat>)
    requires a <= b
    ensures multiset(b) == multiset(a) + multiset(b - a)
  {
    assert b == a + (b - a);
  }

  lemma {:induction false} Shrinks(s: set<nat>, a: set<nat>, b: set<nat>)
    requires a <= b <= s && a != b
    ensures s - b < s - a
  {
    assert b == a + (b - a);
    var x :| x in b - a;
    assert x in s - a && x !in s - b;
  }

  lemma {:induction false} Starts(t: Tree, h: Shape, goal: nat)
    requires TreeOk(t, h) && t.links.Keys == t.dirs.Keys && goal in t.dirs && goal != h.root
    ensures At(t, h, goal, {}, goal, 1) && Cut(t, {}) == t
  {
    hide TreeOk, Named, Kept, Cut;
    CutNothing(t, h);
    LevelOf(t, h, goal);
  }

  /** At the end of the traversal the goal's own entry is the last one that names the subtree. */
  lemma {:induction false} Finish(t: Tree, h: Shape, goal: nat, gone: set<nat>, cur: nat, up: nat, name: Name)
    requires AtEnd(t, h, goal, gone, cur, up) && up in t.dirs && Entry(name, goal) in t.dirs[up] && !IsDots(name)
    ensures var s := Cut(t, gone);
            && up in s.dirs && up in s.links && up != cur && cur in s.dirs && cur in s.links && s.links[cur] == 2
            && Named(s.dirs[cur]) == {} && (exists i :: 0 <= i < |s.dirs[up]| && s.dirs[up][i].name == name)
            && Unlinked(s, up, name, cur) == Cut(t, Subtree(t, h, goal))
    ensures cur == goal && goal !in gone && gone + {goal} == Subtree(t, h, goal)
  {
    hide TreeOk, Kept, Named, SubDirs, Cut, Closed, Within, Subtree, Unlinked;
    AllGone(t, h, goal, gone);
    GoalWithin(t, h, goal);
    ParentStays(t, h, goal);
    CutDirs(t, gone);
    var j := EntryAt(t, h, gone, up, Entry(name, goal));
    UnlinkedIs(t, h, gone, up, j);
    assert gone + {goal} == Subtree(t, h, goal);
    EmptyGoal(t, h, gone, goal);
  }

  lemma {:induction false} GoalWithin(t: Tree, h: Shape, goal: nat)
    requires goal in t.dirs
    ensures goal in Subtree(t, h, goal)
  {}

  lemma {:induction false} ParentStays(t: Tree, h: Shape, goal: nat)
    requires TreeOk(t, h) && goal in t.dirs && goal in h.par
    ensures h.par[goal] !in Subtree(t, h, goal) && h.par[goal] != goal
  {
    hide TreeOk;
    KnownLevel(t, h, goal);
    if Within(h, goal, h.par[goal]) { WithinIsDeeper(h, goal, h.par[goal]); }
  }

  lemma {:induction false} EntryAt(t: Tree, h: Shape, gone: set<nat>, d: nat, e: Entry) returns (j: nat)
    requires TreeOk(t, h) && d in t.dirs && d !in gone && e in t.dirs[d] && e.inode !in gone && !IsDots(e.name)
    ensures 2 <= j < |Kept(t.dirs[d], gone)| && Kept(t.dirs[d], gone)[j] == e
  {
    hide TreeOk, Kept, Named, SubDirs, Cut;
    ListHere(t, h, gone, d);
    KeptMembers(t.dirs[d], gone);
    var k := Kept(t.dirs[d], gone);
    j :| 0 <= j < |k| && k[j] == e;
  }

  lemma {:induction false} EmptyGoal(t: Tree, h: Shape, gone: set<nat>, goal: nat)
    requires TreeOk(t, h) && goal !in gone && Bare(t, gone, goal)
    ensures goal in Cut(t, gone).dirs && goal in Cut(t, gone).links && Named(Cut(t, gone).dirs[goal]) == {} && Cut(t, gone).links[goal] == 2
  {
    hide TreeOk, Kept, Named, SubDirs, Cut;
    CutDirs(t, gone);
    NamedKept(t.dirs[goal], gone);
    SubDirsCut(t, gone, goal);
    assert Named(t.dirs[goal]) - gone == {};
    assert SubDirs(Cut(t, gone), goal) == {};
  }

  /** No child of x is left. */
  ghost predicate Bare(t: Tree, gone: set<nat>, x: nat) { x in t.dirs && Named(t.dirs[x]) <= gone }

  /** Without removing anything, the traversal leaves a bare directory upwards, or dives into a deeper
      one that is not bare. */
  ghost predicate Sooner(t: Tree, h: Shape, gone: set<nat>, x: nat, y: nat) {
    !Bare(t, gone, x) && (Bare(t, gone, y) || Deeper(t, h, x) < Deeper(t, h, y))
  }

  /** Where the traversal ends: in the goal, bare, with its parent as the inode to go up to. */
  ghost predicate AtEnd(t: Tree, h: Shape, goal: nat, gone: set<nat>, cur: nat, up: nat) {
    && TreeOk(t, h) && Closed(t, h, goal, gone) && goal in t.dirs && goal != h.root
    && cur == goal && goal in h.par && up == h.par[goal] && Bare(t, gone, goal)
  }

  lemma {:induction false} EndedAt(t: Tree, h: Shape, goal: nat, gone: set<nat>, cur: nat, up: nat)
    requires AtEnd(t, h, goal, gone, cur, up)
    ensures cur == goal && goal in h.par && up == h.par[goal]
  {}

  lemma {:induction false} CurHere(t: Tree, h: Shape, goal: nat, gone: set<nat>, cur: nat, depth: nat)
    requires At(t, h, goal, gone, cur, depth)
    ensures cur in t.dirs && cur !in gone && cur in Cut(t, gone).dirs && ListOk(h, Cut(t, gone).dirs[cur], cur)
    ensures Named(Cut(t, gone).dirs[cur]) == Named(t.dirs[cur]) - gone
  {
    hide TreeOk, Kept, Named, SubDirs, Cut, Closed, Within;
    ListHere(t, h, gone, cur);
  }

  lemma {:induction false} Least(t: Tree, h: Shape, goal: nat, gone: set<nat>, cur: nat, depth: nat)
    requires At(t, h, goal, gone, cur, depth)
    ensures depth >= 1 && gone <= Subtree(t, h, goal) - {goal} && cur !in gone
  {
    hide TreeOk, Within, Closed, Subtree;
    DepthPositive(t, h, goal, gone, cur, depth);
    GoneBelow(t, h, goal, gone);
  }

  lemma {:induction false} EntryStays(t: Tree, h: Shape, goal: nat, gone: set<nat>, cur: nat, j: nat, depth: nat)
    requires At(t, h, goal, gone, cur, depth) && cur in Cut(t, gone).dirs && 2 <= j < |Cut(t, gone).dirs[cur]|
    ensures cur in t.dirs && !Bare(t, gone, cur)
  {
    hide TreeOk, Kept, Named, Cut, Closed, Within, At;
    EntryHere(t, h, goal, gone, cur, j, depth);
  }

  lemma {:induction false} OneMore(gone0: set<nat>, was: set<nat>, c: nat)
    requires gone0 <= was && c !in was
    ensures multiset(was + {c} - gone0) == multiset(was - gone0) + multiset{c}
  {
    assert was + {c} - gone0 == (was - gone0) + {c};
  }

  lemma {:induction false} EntryHere(t: Tree, h: Shape, goal: nat, gone: set<nat>, cur: nat, j: nat, depth: nat)
    requires At(t, h, goal, gone, cur, depth) && cur in Cut(t, gone).dirs && 2 <= j < |Cut(t, gone).dirs[cur]|
    ensures cur in t.dirs && cur !in gone && TreeOk(t, h) && cur in Cut(t, gone).links
    ensures Cut(t, gone).dirs[cur] == Kept(t.dirs[cur], gone)
    ensures var e := Cut(t, gone).dirs[cur][j]; !IsDots(e.name) && e.inode in Named(t.dirs[cur]) && e.inode !in gone && e.inode != cur
  {
    hide TreeOk, Kept, Named, SubDirs, Cut, Closed, Within;
    ListHere(t, h, gone, cur);
    NamesOne(Cut(t, gone).dirs[cur], j);
    ChildWithin(t, h, goal, cur, Cut(t, gone).dirs[cur][j].inode);
  }

  lemma {:induction false} LinksThere(t: Tree, h: Shape, gone: set<nat>, c: nat)
    ensures c in Cut(t, gone).dirs ==> c in Cut(t, gone).links
  {}

  lemma {:induction false} ListAfter(t: Tree, h: Shape, gone: set<nat>, d: nat, j: nat)
    requires TreeOk(t, h) && d in t.dirs && d !in gone && 2 <= j < |Kept(t.dirs[d], gone)| && Kept(t.dirs[d], gone)[j].inode != d
    ensures var c := Kept(t.dirs[d], gone)[j].inode;
            d in Cut(t, gone + {c}).dirs && |Cut(t, gone + {c}).dirs[d]| == |Kept(t.dirs[d], gone)| - 1
  {
    hide TreeOk, Kept, Named, SubDirs, Cut, RemoveName;
    var k := Kept(t.dirs[d], gone);
    LosesEntry(t, h, gone, d, j);
    CutDirs(t, gone + {k[j].inode});
    RemovedLength(k, k[j].name, j);
  }

  lemma {:induction false} RemovedLength(s: seq<Entry>, name: Name, j: nat)
    requires j < |s| && s[j].name == name
    ensures |RemoveName(s, name)| == |s| - 1
  {
    if s[0].name != name { RemovedLength(s[1..], name, j - 1); }
  }

  lemma {:induction false} DiveIsSooner(t: Tree, h: Shape, goal: nat, gone: set<nat>, c: nat, cur0: nat, depth0: nat)
    requires At(t, h, goal, gone, c, depth0 + 1) && Deeper(t, h, c) < Deeper(t, h, cur0)
    requires c in Cut(t, gone).dirs && Named(Cut(t, gone).dirs[c]) != {}
    ensures Sooner(t, h, gone, c, cur0)
  {
    hide TreeOk, Kept, Named, SubDirs, Cut, Closed, Within, Deeper;
    CurHere(t, h, goal, gone, c, depth0 + 1);
  }

  lemma {:induction false} AllNamedGone(t: Tree, gone: set<nat>, cur: nat, s: seq<Entry>)
    requires cur in t.dirs && Named(s) == Named(t.dirs[cur]) - gone && Named(s) == {}
    ensures Bare(t, gone, cur)
  {
    hide Named;
    forall x | x in Named(t.dirs[cur]) ensures x in gone {
      assert x in Named(t.dirs[cur]) - gone || x in gone;
    }
  }

  lemma {:induction false} UpIsSooner(t: Tree, h: Shape, gone: set<nat>, up: nat, cur0: nat)
    requires up in t.dirs && cur0 in Named(t.dirs[up]) && cur0 !in gone && Bare(t, gone, cur0)
    ensures Sooner(t, h, gone, up, cur0)
  {
    hide Named, Deeper;
  }

  lemma {:induction false} EndsAt(t: Tree, h: Shape, goal: nat, gone: set<nat>, cur: nat, up: nat)
    requires At(t, h, goal, gone, cur, 1) && Bare(t, gone, cur) && (up == if cur in h.par then h.par[cur] else cur)
    ensures AtEnd(t, h, goal, gone, cur, up)
  {
    hide TreeOk, Closed, Within, Bare;
    AtGoal(t, h, goal, gone, cur);
  }

  // ----- what DirRm leaves

  lemma {:induction false} KeptSame(s: seq<Entry>, gone: set<nat>)
    requires forall e :: e in s ==> IsDots(e.name) || e.inode !in gone
    ensures Kept(s, gone) == s
  {
    if s != [] { KeptSame(s[1..], gone); assert s == [s[0]] + s[1..] && s[0] in s; }
  }

  /** Outside the subtree only the parent of the goal names an inode of the subtree, the goal. */
  lemma {:induction false} NamesSubtree(t: Tree, h: Shape, goal: nat, d: nat, c: nat)
    requires TreeOk(t, h) && goal in t.dirs && d in t.dirs && c in Named(t.dirs[d])
    requires d !in Subtree(t, h, goal) && c in Subtree(t, h, goal)
    ensures c == goal && goal in h.par && h.par[goal] == d
  {
    hide TreeOk, Named;
    NamedOnce(t, h, d, c);
  }

  /** A directory outside the subtree, other than the goal's parent, is as before. */
  lemma {:induction false} OutsideSame(t: Tree, h: Shape, goal: nat, d: nat)
    requires TreeOk(t, h) && goal in t.dirs && d in t.dirs && d !in Subtree(t, h, goal) && !(goal in h.par && h.par[goal] == d)
    ensures Kept(t.dirs[d], Subtree(t, h, goal)) == t.dirs[d]
  {
    hide TreeOk, Kept, Subtree;
    forall e | e in t.dirs[d] ensures IsDots(e.name) || e.inode !in Subtree(t, h, goal) {
      if !IsDots(e.name) && e.inode in Subtree(t, h, goal) {
        var i :| 0 <= i < |t.dirs[d]| && t.dirs[d][i] == e;
        NamesOne(t.dirs[d], i);
        NamesSubtree(t, h, goal, d, e.inode);
      }
    }
    KeptSame(t.dirs[d], Subtree(t, h, goal));
  }

  /** The goal's parent loses the goal's entry. */
  lemma {:induction false} ParentLoses(t: Tree, h: Shape, goal: nat, d: nat, name: Name)
    requires TreeOk(t, h) && goal in t.dirs && goal in h.par && h.par[goal] == d && d in t.dirs
    requires Entry(name, goal) in t.dirs[d] && !IsDots(name)
    ensures Kept(t.dirs[d], Subtree(t, h, goal)) == RemoveName(t.dirs[d], name)
  {
    hide TreeOk, Kept, Subtree, RemoveName;
    var rest := Subtree(t, h, goal) - {goal};
    ParentStays(t, h, goal);
    GoalWithin(t, h, goal);
    forall e | e in t.dirs[d] ensures IsDots(e.name) || e.inode !in rest {
      if !IsDots(e.name) && e.inode in rest {
        var i :| 0 <= i < |t.dirs[d]| && t.dirs[d][i] == e;
        NamesOne(t.dirs[d], i);
        NamesSubtree(t, h, goal, d, e.inode);
        assert false;
      }
    }
    KeptSame(t.dirs[d], rest);
    var j := EntryAt(t, h, rest, d, Entry(name, goal));
    LosesEntry(t, h, rest, d, j);
    assert rest + {goal} == Subtree(t, h, goal);
  }

  lemma {:induction false} LinksRight(t: Tree, h: Shape, d: nat)
    requires TreeOk(t, h) && d in t.dirs
    ensures d in t.links && t.links[d] == 2 + |SubDirs(t, d)| && SubDirs(t, d) == Named(t.dirs[d]) * t.dirs.Keys
  {
    hide EntriesOk, Named, Known;
  }

  /** The link count of a directory outside the subtree: it drops by one only for the goal's parent. */
  lemma {:induction false} LinksLeft(t: Tree, h: Shape, goal: nat, d: nat)
    requires TreeOk(t, h) && goal in t.dirs && d in t.dirs && d !in Subtree(t, h, goal)
    ensures d in Cut(t, Subtree(t, h, goal)).links && d in t.links
    ensures Cut(t, Subtree(t, h, goal)).links[d] == t.links[d] - if goal in h.par && h.par[goal] == d then 1 else 0
  {
    hide TreeOk, Kept, Subtree, Cut, Named, SubDirs;
    var gone := Subtree(t, h, goal);
    CutDirs(t, gone);
    SubDirsCut(t, gone, d);
    LinksRight(t, h, d);
    GoalWithin(t, h, goal);
    var a := SubDirs(t, d);
    forall c | c in a && c in gone ensures c == goal && goal in h.par && h.par[goal] == d {
      NamesSubtree(t, h, goal, d, c);
    }
    if goal in h.par && h.par[goal] == d {
      KnownLevel(t, h, goal);
      assert goal in a && a - gone == a - {goal};
      assert |a - {goal}| == |a| - 1;
    } else {
      assert a - gone == a;
    }
    assert (Named(t.dirs[d]) * t.dirs.Keys) - gone == a - gone;
  }

  /** What is left is a well formed tree: outside the subtree the goal's parent loses one entry and one
      link, and nothing else changes. */
  lemma {:induction false} RestUnchanged(t: Tree, h: Shape, goal: nat, name: Name)
    requires TreeOk(t, h) && goal in t.dirs && goal != h.root && goal in h.par && h.par[goal] in t.dirs
    requires Entry(name, goal) in t.dirs[h.par[goal]] && !IsDots(name)
    ensures var s, gone, p := Cut(t, Subtree(t, h, goal)), Subtree(t, h, goal), h.par[goal];
            && p !in gone && s.files == t.files - gone && s.dirs.Keys == t.dirs.Keys - gone && s.links.Keys == s.dirs.Keys
            && (forall d :: d in s.dirs && d != p ==> s.dirs[d] == t.dirs[d])
            && s.dirs[p] == RemoveName(t.dirs[p], name)
    ensures var s, p := Cut(t, Subtree(t, h, goal)), h.par[goal];
            && p in t.links && p in s.links && s.links[p] == t.links[p] - 1
            && forall d :: d in s.dirs && d != p ==> d in t.links && d in s.links && s.links[d] == t.links[d]
    ensures TreeOk(Cut(t, Subtree(t, h, goal)), h)
  {
    hide TreeOk, Kept, Subtree, Cut, Named, SubDirs, RemoveName, Within;
    var gone, p := Subtree(t, h, goal), h.par[goal];
    CutDirs(t, gone);
    ParentStays(t, h, goal);
    ParentLoses(t, h, goal, p, name);
    LinksLeft(t, h, goal, p);
    forall d | d in t.dirs && d !in gone && d != p
      ensures Kept(t.dirs[d], gone) == t.dirs[d] && d in t.links && Cut(t, gone).links[d] == t.links[d]
    {
      OutsideSame(t, h, goal, d);
      LinksLeft(t, h, goal, d);
    }
    SubtreeClosed(t, h, goal);
    CutOk(t, h, gone);
  }

  lemma {:induction false} SubtreeClosed(t: Tree, h: Shape, goal: nat)
    requires TreeOk(t, h) && goal in t.dirs && goal != h.root
    ensures h.root !in Subtree(t, h, goal)
    ensures forall x :: Known(t, x) && x in h.par && h.par[x] in Subtree(t, h, goal) ==> x in Subtree(t, h, goal)
  {
    hide EntriesOk, Named, SubDirs;
  }

  /** Cutting a set that contains the descendants of its members leaves a well formed tree. */
  lemma {:induction false} CutOk(t: Tree, h: Shape, gone: set<nat>)
    requires TreeOk(t, h) && h.root !in gone
    requires forall x :: Known(t, x) && x in h.par && h.par[x] in gone ==> x in gone
    ensures TreeOk(Cut(t, gone), h)
  {
    hide Kept, Cut, Named, SubDirs, EntriesOk;
    var s := Cut(t, gone);
    CutDirs(t, gone);
    forall d | d in s.dirs ensures EntriesOk(s, h, d) {
      CutEntriesOk(t, h, gone, d);
    }
    forall x | Known(s, x) && x in h.par
      ensures h.par[x] in s.dirs && x in Named(s.dirs[h.par[x]])
    {
      KnownLevel(t, h, x);
      NamedKept(t.dirs[h.par[x]], gone);
    }
  }

  lemma {:induction false} CutEntriesOk(t: Tree, h: Shape, gone: set<nat>, d: nat)
    requires TreeOk(t, h) && d in t.dirs && d !in gone
    ensures d in Cut(t, gone).dirs && EntriesOk(Cut(t, gone), h, d)
  {
    hide TreeOk, Kept, Cut, Named, SubDirs, Apart, EntriesOk;
    CutDirs(t, gone);
    CutEntries(t, h, gone, d);
    DotNames(t, h, d);
    var k := Kept(t.dirs[d], gone);
    forall i | 2 <= i < |k|
      ensures !IsDots(k[i].name) && Known(Cut(t, gone), k[i].inode) && k[i].inode in h.par && h.par[k[i].inode] == d
    {
      assert k[i] in t.dirs[d];
      var n :| 0 <= n < |t.dirs[d]| && t.dirs[d][n] == k[i];
      NamesOne(t.dirs[d], n);
      NamedOnce(t, h, d, k[i].inode);
    }
    ApartFrom(k, Kept(t.dirs[d][2..], gone));
    EntriesFrom(Cut(t, gone), h, d, k);
  }

  lemma {:induction false} ApartFrom(k: seq<Entry>, r: seq<Entry>)
    requires |k| >= 2 && k[2..] == r && Apart(r)
    ensures forall i, j :: 2 <= i < j < |k| ==> k[i].name != k[j].name && k[i].inode != k[j].inode
  {
    forall i, j | 2 <= i < j < |k| ensures k[i].name != k[j].name && k[i].inode != k[j].inode {
      assert r[i - 2] == k[i] && r[j - 2] == k[j];
    }
  }

  lemma {:induction false} EntriesFrom(s: Tree, h: Shape, d: nat, k: seq<Entry>)
    requires d in s.dirs && s.dirs[d] == k
    requires |k| >= 2 && k[0] == Entry(DOT, d) && k[1] == Entry(DOTDOT, if d in h.par then h.par[d] else d)
    requires forall i :: 2 <= i < |k| ==> !IsDots(k[i].name) && Known(s, k[i].inode) && k[i].inode in h.par && h.par[k[i].inode] == d
    requires forall i, j :: 2 <= i < j < |k| ==> k[i].name != k[j].name && k[i].inode != k[j].inode
    ensures EntriesOk(s, h, d)
  {
    hide Known;
  }

  // ----- inodes with more than one name

  ghost predicate StillNamed(s: Tree, c: nat) { exists x :: x in s.dirs && c in Named(s.dirs[x]) }

  /** An entry other than number j of directory d that names c. */
  ghost predicate NamesToo(s: Tree, d: nat, j: nat, c: nat, x: nat, i: int) {
    x in s.dirs && 0 <= i < |s.dirs[x]| && !(x == d && i == j) && !IsDots(s.dirs[x][i].name) && s.dirs[x][i].inode == c
  }

  /** The traversal frees a child whatever its link count: a name is left for the freed inode exactly when
      another entry named it before. */
  lemma {:induction false} HardLinkLeft(s: Tree, d: nat, j: nat, c: nat)
    requires d in s.dirs && d in s.links && d != c && j < |s.dirs[d]| && s.dirs[d][j].inode == c
    requires forall i :: 0 <= i < j ==> s.dirs[d][i].name != s.dirs[d][j].name
    requires c in s.dirs ==> Named(s.dirs[c]) == {}
    ensures StillNamed(Unlinked(s, d, s.dirs[d][j].name, c), c) <==> exists x, i :: NamesToo(s, d, j, c, x, i)
  {
    hide Named, RemoveName;
    var name := s.dirs[d][j].name;
    var u := Unlinked(s, d, name, c);
    RemoveNameAt(s.dirs[d], name, j);
    if x :| x in u.dirs && c in Named(u.dirs[x]) {
      var i := NamedAt(u.dirs[x], c);
      assert NamesToo(s, d, j, c, x, if x == d && i >= j then i + 1 else i);
    }
    if x, i :| NamesToo(s, d, j, c, x, i) {
      if x == c {
        NamesOne(s.dirs[c], i);
        assert false;
      }
      NamesOne(u.dirs[x], if x == d && i > j then i - 1 else i);
    }
  }

  lemma {:induction false} NamedAt(s: seq<Entry>, c: nat) returns (i: nat)
    requires c in Named(s)
    ensures i < |s| && !IsDots(s[i].name) && s[i].inode == c
  {
    i :| 0 <= i < |s| && !IsDots(s[i].name) && s[i].inode == c;
  }
}
