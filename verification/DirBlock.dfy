/** One linear directory block: a list of variable-length records that tile the
    block exactly.  A record with inode 0 is dead space. */
module DirBlock {
  import opened DirNames

  /** `len` is the record's entry length; the name length is the length of `name`. */
  datatype Rec = Rec(inode: nat, len: nat, name: Name, ftype: nat)

  datatype Option<T> = None | Some(value: T)

  const HEADER := 8
  const DIR_CSUM := 0xDE
  const MAX_NAME := 255

  /** Bytes a record with a name of n bytes needs: header and name, rounded up to 4. */
  function Need(n: nat): nat {
    HEADER + n + (if n % 4 != 0 then 4 - n % 4 else 0)
  }

  function SumLen(recs: seq<Rec>): nat {
    if recs == [] then 0 else SumLen(recs[..|recs| - 1]) + recs[|recs| - 1].len
  }

  /** Bytes the live records would take if packed. */
  function LiveSize(recs: seq<Rec>): nat {
    if recs == [] then 0
    else LiveSize(recs[..|recs| - 1]) + (if recs[|recs| - 1].inode != 0 then Need(|recs[|recs| - 1].name|) else 0)
  }

  predicate RecOk(r: Rec) {
    && r.len % 4 == 0
    && HEADER + |r.name| <= r.len
    && |r.name| <= MAX_NAME
    && (r.inode != 0 ==> 0 < |r.name| && r.ftype != DIR_CSUM)
  }

  /** The records tile a block of bs bytes; entry lengths are 16-bit fields. */
  ghost predicate Tiled(recs: seq<Rec>, bs: nat) {
    && (forall i :: 0 <= i < |recs| ==> RecOk(recs[i]))
    && SumLen(recs) == bs
    && bs < 0x1_0000
  }

  predicate Match(r: Rec, name: Name) {
    r.inode != 0 && r.name == name
  }

  ghost function EntryOf(r: Rec): multiset<Entry> {
    if r.inode != 0 then multiset{Entry(r.name, r.inode)} else multiset{}
  }

  /** The live entries of a record list. */
  ghost function Live(recs: seq<Rec>): multiset<Entry> {
    if recs == [] then multiset{} else Live(recs[..|recs| - 1]) + EntryOf(recs[|recs| - 1])
  }

  // ----- lemmas about the three folds

  lemma {:induction false} Nil()
    ensures SumLen([]) == 0 && LiveSize([]) == 0 && Live([]) == multiset{}
  {}

  lemma {:induction false} Snoc(a: seq<Rec>, r: Rec)
    ensures SumLen(a + [r]) == SumLen(a) + r.len
    ensures LiveSize(a + [r]) == LiveSize(a) + (if r.inode != 0 then Need(|r.name|) else 0)
    ensures Live(a + [r]) == Live(a) + EntryOf(r)
  {
    hide EntryOf, Need;
    var s := a + [r];
    assert s[..|s| - 1] == a && s[|s| - 1] == r;
  }

  lemma {:induction false} Concat(a: seq<Rec>, b: seq<Rec>)
    ensures SumLen(a + b) == SumLen(a) + SumLen(b)
    ensures LiveSize(a + b) == LiveSize(a) + LiveSize(b)
    ensures Live(a + b) == Live(a) + Live(b)
  {
    hide SumLen, LiveSize, Live, EntryOf, Need;
    if b == [] {
      assert a + b == a;
      Nil();
    } else {
      var c, r := b[..|b| - 1], b[|b| - 1];
      Concat(a, c);
      Snoc(a + c, r);
      Snoc(c, r);
      assert b == c + [r] && a + b == (a + c) + [r];
    }
  }

  lemma {:induction false} One(r: Rec)
    ensures SumLen([r]) == r.len
    ensures LiveSize([r]) == if r.inode != 0 then Need(|r.name|) else 0
    ensures Live([r]) == EntryOf(r)
  {
    assert [r][..0] == [];
  }

  /** The folds of a list cut at i. */
  lemma {:induction false} CutAt(recs: seq<Rec>, i: nat)
    requires i < |recs|
    ensures SumLen(recs) == SumLen(recs[..i]) + recs[i].len + SumLen(recs[i + 1..])
    ensures LiveSize(recs) == LiveSize(recs[..i]) + LiveSize([recs[i]]) + LiveSize(recs[i + 1..])
    ensures Live(recs) == Live(recs[..i]) + EntryOf(recs[i]) + Live(recs[i + 1..])
  {
    One(recs[i]);
    assert recs == (recs[..i] + [recs[i]]) + recs[i + 1..];
    Concat(recs[..i] + [recs[i]], recs[i + 1..]);
    Concat(recs[..i], [recs[i]]);
  }

  lemma {:induction false} PrefixStep(recs: seq<Rec>, i: nat)
    requires i < |recs|
    ensures SumLen(recs[..i + 1]) == SumLen(recs[..i]) + recs[i].len <= SumLen(recs)
    ensures Live(recs[..i + 1]) == Live(recs[..i]) + EntryOf(recs[i])
    ensures LiveSize(recs[..i + 1]) == LiveSize(recs[..i]) + LiveSize([recs[i]])
  {
    One(recs[i]);
    assert recs[..i + 1][..i] == recs[..i];
    CutAt(recs, i);
  }

  /** An entry is listed exactly when some live record carries it. */
  lemma {:induction false} LiveMember(recs: seq<Rec>, e: Entry)
    ensures e in Live(recs) <==> exists i :: 0 <= i < |recs| && recs[i].inode != 0 && Entry(recs[i].name, recs[i].inode) == e
  {
    hide Live, SumLen, LiveSize, Need;
    if recs == [] {
      Nil();
    } else {
      var c, r := recs[..|recs| - 1], recs[|recs| - 1];
      LiveMember(c, e);
      assert recs == c + [r];
      Snoc(c, r);
      if i :| 0 <= i < |c| && c[i].inode != 0 && Entry(c[i].name, c[i].inode) == e { assert recs[i] == c[i]; }
      if i :| 0 <= i < |recs| && recs[i].inode != 0 && Entry(recs[i].name, recs[i].inode) == e {
        assert i < |c| ==> c[i] == recs[i];
      }
    }
  }

  // ----- searching a block

  /** ext4_dir_find_in_block: the first live record with the name. */
  method FindInBlock(recs: seq<Rec>, bs: nat, name: Name) returns (r: Option<nat>)
    requires Tiled(recs, bs)
    ensures r.Some? ==> r.value < |recs| && Match(recs[r.value], name)
                        && forall k :: 0 <= k < r.value ==> !Match(recs[k], name)
    ensures r.None? ==> forall k :: 0 <= k < |recs| ==> !Match(recs[k], name)
  {
    hide SumLen, Live, LiveSize, RecOk;
    Nil();
    assert recs[..0] == [];
    var i, off := 0, 0;
    CutAll(recs);
    while off < bs
      invariant 0 <= i <= |recs| && off == SumLen(recs[..i])
      invariant off < bs ==> i < |recs|
      invariant forall k :: 0 <= k < i ==> !Match(recs[k], name)
      decreases |recs| - i
    {
      assert i < |recs|;
      if off + |name| > bs {
        forall k | i <= k < |recs| ensures !Match(recs[k], name) {
          Room(recs, bs, i, k);
        }
        break;
      }
      if recs[i].inode != 0 && |recs[i].name| == |name| && recs[i].name == name {
        return Some(i);
      }
      PrefixStep(recs, i);
      off := off + recs[i].len;
      i := i + 1;
      assert i == |recs| ==> recs[..i] == recs;
    }
    if off >= bs { Exhausted(recs, bs, i); }
    return None;
  }

  lemma {:induction false} SeqCut<T>(s: seq<T>, i: nat, j: nat)
    requires i <= j <= |s|
    ensures s == s[..i] + s[i..j] + s[j..]
  {}

  lemma {:induction false} CutAll(recs: seq<Rec>)
    ensures recs[..|recs|] == recs
  {}

  /** Record k, at or after i, has its name inside the bytes from record i's start. */
  lemma {:induction false} Room(recs: seq<Rec>, bs: nat, i: nat, k: nat)
    requires Tiled(recs, bs) && i <= k < |recs|
    ensures SumLen(recs[..i]) + |recs[k].name| <= bs
    decreases k - i
  {
    PrefixStep(recs, i);
    if i < k { Room(recs, bs, i + 1, k); }
  }

  /** Only the end of the list is at the end of the block: no record is empty. */
  lemma {:induction false} Exhausted(recs: seq<Rec>, bs: nat, i: nat)
    requires Tiled(recs, bs) && i <= |recs| && SumLen(recs[..i]) >= bs
    ensures i == |recs|
  {
    if i < |recs| { PrefixStep(recs, i); }
  }

  // ----- inserting

  /** Record r can give a new record of `need` bytes a place. */
  predicate HasRoom(r: Rec, need: nat) {
    if r.inode == 0 then r.ftype != DIR_CSUM && need <= r.len
    else need <= r.len - Need(|r.name|)
  }

  predicate Fits(recs: seq<Rec>, need: nat) {
    exists i :: 0 <= i < |recs| && HasRoom(recs[i], need)
  }

  /** The list after the entry takes its place at record i: a dead record is reused
      whole, a live one is cut behind its name. */
  function Placed(recs: seq<Rec>, i: nat, name: Name, inode: nat, ftype: nat): seq<Rec>
    requires i < |recs| && RecOk(recs[i])
  {
    if recs[i].inode == 0 then
      recs[..i] + [Rec(inode, recs[i].len, name, ftype)] + recs[i + 1..]
    else
      var sz := Need(|recs[i].name|);
      recs[..i] + [recs[i].(len := sz), Rec(inode, recs[i].len - sz, name, ftype)] + recs[i + 1..]
  }

  /** Replacing a stretch of the list by records of the same total length keeps the tiling. */
  lemma {:induction false} Splice(recs: seq<Rec>, bs: nat, i: nat, j: nat, mid: seq<Rec>)
    requires Tiled(recs, bs) && i <= j <= |recs|
    requires (forall k :: 0 <= k < |mid| ==> RecOk(mid[k])) && SumLen(mid) == SumLen(recs[i..j])
    ensures Tiled(recs[..i] + mid + recs[j..], bs)
    ensures Live(recs[..i] + mid + recs[j..]) == Live(recs) - Live(recs[i..j]) + Live(mid)
  {
    hide SumLen, Live, LiveSize;
    Concat(recs[..i] + mid, recs[j..]);
    Concat(recs[..i], mid);
    Concat(recs[..i] + recs[i..j], recs[j..]);
    Concat(recs[..i], recs[i..j]);
    SeqCut(recs, i, j);
  }

  lemma {:induction false} Two(r: Rec, s: Rec)
    ensures SumLen([r, s]) == r.len + s.len
    ensures LiveSize([r, s]) == LiveSize([r]) + LiveSize([s])
    ensures Live([r, s]) == EntryOf(r) + EntryOf(s)
  {
    One(r);
    One(s);
    assert [r, s] == [r] + [s];
    Concat([r], [s]);
  }

  /** Placing an entry where there is room keeps the tiling and adds just that entry. */
  lemma {:induction false} PlacedOk(recs: seq<Rec>, bs: nat, i: nat, name: Name, inode: nat, ftype: nat)
    requires Tiled(recs, bs) && i < |recs| && HasRoom(recs[i], Need(|name|))
    requires 0 < |name| <= MAX_NAME && inode != 0 && ftype != DIR_CSUM
    ensures Tiled(Placed(recs, i, name, inode, ftype), bs)
    ensures Live(Placed(recs, i, name, inode, ftype)) == Live(recs) + multiset{Entry(name, inode)}
  {
    hide SumLen, Live, LiveSize, RecOk, Need;
    var r := recs[i];
    assert recs[i..i + 1] == [r];
    One(r);
    CutAt(recs, i);
    PiecesOk(r, name, inode, ftype);
    if r.inode == 0 {
      var mid := [Rec(inode, r.len, name, ftype)];
      One(mid[0]);
      Splice(recs, bs, i, i + 1, mid);
    } else {
      var sz := Need(|r.name|);
      var mid := [r.(len := sz), Rec(inode, r.len - sz, name, ftype)];
      Two(mid[0], mid[1]);
      Splice(recs, bs, i, i + 1, mid);
      Swap(Live(recs[..i]), EntryOf(r), Live(recs[i + 1..]), multiset{Entry(name, inode)});
    }
  }

  lemma {:induction false} NeedFits(r: Rec)
    requires RecOk(r)
    ensures Need(|r.name|) <= r.len
  {}

  lemma {:induction false} PiecesOk(r: Rec, name: Name, inode: nat, ftype: nat)
    requires RecOk(r) && HasRoom(r, Need(|name|)) && 0 < |name| <= MAX_NAME && ftype != DIR_CSUM
    ensures Need(|r.name|) <= r.len
    ensures RecOk(r.(len := Need(|r.name|)))
    ensures r.inode == 0 ==> RecOk(Rec(inode, r.len, name, ftype))
    ensures r.inode != 0 ==> RecOk(Rec(inode, r.len - Need(|r.name|), name, ftype))
  {}

  lemma {:induction false} Swap<T>(a: multiset<T>, m: multiset<T>, b: multiset<T>, n: multiset<T>)
    ensures a + m + b - m + (m + n) == a + m + b + n
  {}

  /** The list after a successful insertion at the first place with room. */
  ghost predicate Inserts(recs: seq<Rec>, out: seq<Rec>, bs: nat, name: Name, inode: nat, ftype: nat) {
    && Tiled(out, bs) && Live(out) == Live(recs) + multiset{Entry(name, inode)}
    && Recorded(out, name, inode, ftype)
    && exists i :: 0 <= i < |recs| && RecOk(recs[i]) && FirstRoom(recs, i, Need(|name|))
                   && out == Placed(recs, i, name, inode, ftype)
  }

  /** Some record has this name, inode and type. */
  predicate Recorded(recs: seq<Rec>, name: Name, inode: nat, ftype: nat) {
    exists k :: 0 <= k < |recs| && recs[k].name == name && recs[k].inode == inode && recs[k].ftype == ftype
  }

  /** The new record has the given type; all others keep inode, name and type, and at most the one that was
      cut changes its length. */
  lemma {:induction false} PlacedRecords(recs: seq<Rec>, i: nat, name: Name, inode: nat, ftype: nat)
    requires i < |recs| && RecOk(recs[i])
    ensures var out, k := Placed(recs, i, name, inode, ftype), if recs[i].inode == 0 then i else i + 1;
            && k < |out| && out[k].name == name && out[k].inode == inode && out[k].ftype == ftype && Recorded(out, name, inode, ftype)
            && |out| == |recs| + (k - i) && out[i].len + (if k == i then 0 else out[k].len) == recs[i].len
            && (forall j :: 0 <= j < i ==> out[j] == recs[j]) && (forall j :: k < j < |out| ==> out[j] == recs[j - (k - i)])
            && (k > i ==> out[i].inode == recs[i].inode && out[i].name == recs[i].name && out[i].ftype == recs[i].ftype)
  {
    var out, k := Placed(recs, i, name, inode, ftype), if recs[i].inode == 0 then i else i + 1;
    assert out[k].name == name && out[k].inode == inode && out[k].ftype == ftype;
  }

  predicate FirstRoom(recs: seq<Rec>, i: nat, need: nat) {
    i < |recs| && HasRoom(recs[i], need) && forall k :: 0 <= k < i ==> !HasRoom(recs[k], need)
  }

  /** The space an entry with a name of n bytes takes. */
  method Required(n: nat) returns (required: nat)
    ensures required == Need(n) && required % 4 == 0 && 8 + n <= required < 8 + n + 4
  {
    required := HEADER + n;
    if required % 4 != 0 {
      required := required + 4 - required % 4;
    }
  }

  /** ext4_dir_try_insert_entry: takes the first record with room, or reports no space
      exactly when no record has any. */
  method TryInsert(recs: seq<Rec>, bs: nat, name: Name, inode: nat, ftype: nat)
    returns (ok: bool, out: seq<Rec>)
    requires Tiled(recs, bs)
    requires 0 < |name| <= MAX_NAME && inode != 0 && ftype != DIR_CSUM
    ensures ok <==> Fits(recs, Need(|name|))
    ensures if ok then Inserts(recs, out, bs, name, inode, ftype) else out == recs
  {
    hide SumLen, Live, LiveSize, RecOk;
    assert recs[..0] == [];
    Nil();
    var required := Required(|name|);
    var i, off := 0, 0;
    CutAll(recs);
    while off < bs
      invariant 0 <= i <= |recs| && off == SumLen(recs[..i])
      invariant off < bs ==> i < |recs|
      invariant forall k :: 0 <= k < i ==> !HasRoom(recs[k], required)
      decreases |recs| - i
    {
      var r := recs[i];
      NeedFits(r);
      if r.inode == 0 && r.ftype != DIR_CSUM && r.len >= required {
        PlacedOk(recs, bs, i, name, inode, ftype);
        PlacedRecords(recs, i, name, inode, ftype);
        return true, recs[..i] + [Rec(inode, r.len, name, ftype)] + recs[i + 1..];
      }
      if r.inode != 0 {
        var sz := HEADER + |r.name|;
        if |r.name| % 4 != 0 {
          sz := sz + 4 - |r.name| % 4;
        }
        var freeSpace := r.len - sz;
        if freeSpace >= required {
          PlacedOk(recs, bs, i, name, inode, ftype);
          PlacedRecords(recs, i, name, inode, ftype);
          return true, recs[..i] + [r.(len := sz), Rec(inode, freeSpace, name, ftype)] + recs[i + 1..];
        }
      }
      PrefixStep(recs, i);
      off := off + r.len;
      i := i + 1;
      assert i == |recs| ==> recs[..i] == recs;
    }
    Exhausted(recs, bs, i);
    return false, recs;
  }

  // ----- removing

  /** The list after record i dies: merged into its predecessor, or left dead in front. */
  function Dropped(recs: seq<Rec>, i: nat): seq<Rec>
    requires i < |recs|
  {
    if i == 0 then [recs[0].(inode := 0)] + recs[1..]
    else recs[..i - 1] + [recs[i - 1].(len := recs[i - 1].len + recs[i].len)] + recs[i + 1..]
  }

  lemma {:induction false} DroppedOk(recs: seq<Rec>, bs: nat, i: nat)
    requires Tiled(recs, bs) && i < |recs|
    ensures Tiled(Dropped(recs, i), bs)
    ensures Live(Dropped(recs, i)) == Live(recs) - EntryOf(recs[i])
  {
    hide SumLen, Live, LiveSize, RecOk;
    if i == 0 {
      CutAt(recs, 0);
      One(recs[0]);
      One(recs[0].(inode := 0));
      MergeOk(recs[0], recs[0]);
      assert recs[0..1] == [recs[0]];
      Splice(recs, bs, 0, 1, [recs[0].(inode := 0)]);
      assert recs[..0] + [recs[0].(inode := 0)] + recs[1..] == Dropped(recs, 0);
    } else {
      MergePair(recs, bs, i);
      CutPair(recs, i);
      Regroup(Live(recs[..i - 1]), EntryOf(recs[i - 1]), EntryOf(recs[i]), Live(recs[i + 1..]));
    }
  }

  lemma {:induction false} CutPair(recs: seq<Rec>, i: nat)
    requires 0 < i < |recs|
    ensures Live(recs) == Live(recs[..i - 1]) + (EntryOf(recs[i - 1]) + EntryOf(recs[i])) + Live(recs[i + 1..])
  {
    hide SumLen, Live, LiveSize;
    Two(recs[i - 1], recs[i]);
    assert recs[i - 1..i + 1] == [recs[i - 1], recs[i]];
    Concat(recs[..i - 1] + recs[i - 1..i + 1], recs[i + 1..]);
    Concat(recs[..i - 1], recs[i - 1..i + 1]);
    SeqCut(recs, i - 1, i + 1);
  }

  lemma {:induction false} MergePair(recs: seq<Rec>, bs: nat, i: nat)
    requires Tiled(recs, bs) && 0 < i < |recs|
    ensures Tiled(Dropped(recs, i), bs)
    ensures Live(Dropped(recs, i)) == Live(recs) - (EntryOf(recs[i - 1]) + EntryOf(recs[i])) + EntryOf(recs[i - 1])
  {
    hide SumLen, Live, LiveSize, RecOk;
    var p, r := recs[i - 1], recs[i];
    One(p.(len := p.len + r.len));
    MergeOk(p, r);
    Two(p, r);
    assert recs[i - 1..i + 1] == [p, r];
    Splice(recs, bs, i - 1, i + 1, [p.(len := p.len + r.len)]);
  }

  lemma {:induction false} MergeOk(p: Rec, r: Rec)
    requires RecOk(p) && RecOk(r)
    ensures RecOk(p.(len := p.len + r.len)) && RecOk(p.(inode := 0))
  {}

  lemma {:induction false} Regroup<T>(a: multiset<T>, p: multiset<T>, r: multiset<T>, b: multiset<T>)
    ensures a + (p + r) + b - (p + r) + p == a + (p + r) + b - r
  {}

  /** The tail of ext4_dir_remove_entry: the walk from the block's start finds the
      direct predecessor of the removed record. */
  method RemoveAt(recs: seq<Rec>, bs: nat, i: nat) returns (out: seq<Rec>)
    requires Tiled(recs, bs) && i < |recs|
    ensures out == Dropped(recs, i)
    ensures Tiled(out, bs)
    ensures Live(out) == Live(recs) - EntryOf(recs[i])
  {
    hide SumLen, Live, LiveSize;
    Nil();
    DroppedOk(recs, bs, i);
    assert recs[..0] == [];
    var pos := Offset(recs, i);
    if pos == 0 {
      if i > 0 { PrefixStep(recs, 0); PrefixMono(recs, 1, i); assert false; }
      return [recs[0].(inode := 0)] + recs[1..];
    }
    var p, offset := 0, 0;
    var len := recs[0].len;
    PrefixStep(recs, 0);
    while offset + len < pos
      invariant 0 <= p < i && offset == SumLen(recs[..p]) && len == recs[p].len
    {
      PrefixStep(recs, p);
      if p + 1 >= i { assert false; }
      offset := offset + len;
      p := p + 1;
      len := recs[p].len;
    }
    PrefixStep(recs, p);
    if p + 1 < i { PrefixStep(recs, p + 1); PrefixMono(recs, p + 2, i); assert false; }
    assert len + offset == pos;
    return recs[..p] + [recs[p].(len := len + recs[i].len)] + recs[i + 1..];
  }

  lemma {:induction false} PrefixMono(recs: seq<Rec>, i: nat, j: nat)
    requires i <= j <= |recs|
    ensures SumLen(recs[..i]) <= SumLen(recs[..j])
    decreases j - i
  {
    if i < j { PrefixStep(recs, i); PrefixMono(recs, i + 1, j); }
  }

  /** The byte offset of record i. */
  function Offset(recs: seq<Rec>, i: nat): nat
    requires i <= |recs|
  {
    SumLen(recs[..i])
  }

  /** A removal keeps the place of an iterator that stands on the removed record: the next byte
      position is again a record's start, with the same records from there on. */
  lemma {:induction false} DroppedKeepsPlace(recs: seq<Rec>, i: nat)
    requires i < |recs|
    ensures var d, j := Dropped(recs, i), if i == 0 then 1 else i;
            |d| >= j && d[j..] == recs[i + 1..] && Offset(d, j) == Offset(recs, i) + recs[i].len
  {
    hide SumLen, Live, LiveSize, Dropped, EntryOf;
    if i == 0 {
      KilledPlace(recs);
    } else {
      MergedPlace(recs, i);
    }
  }

  lemma {:induction false} KilledPlace(recs: seq<Rec>)
    requires recs != []
    ensures var d := Dropped(recs, 0); |d| == |recs| && d[1..] == recs[1..] && Offset(d, 1) == Offset(recs, 0) + recs[0].len
  {
    hide SumLen, Live, LiveSize, EntryOf;
    var d := Dropped(recs, 0);
    PrefixStep(d, 0);
    assert d[..0] == recs[..0];
  }

  lemma {:induction false} MergedPlace(recs: seq<Rec>, i: nat)
    requires 0 < i < |recs|
    ensures var d := Dropped(recs, i); |d| >= i && d[i..] == recs[i + 1..] && Offset(d, i) == Offset(recs, i) + recs[i].len
  {
    hide SumLen, Live, LiveSize, EntryOf;
    var d := Dropped(recs, i);
    PrefixStep(d, i - 1);
    PrefixStep(recs, i - 1);
    assert d[..i - 1] == recs[..i - 1];
    assert d[i - 1].len == recs[i - 1].len + recs[i].len;
  }

  // ----- dead space

  /** The record that keeps the last 12 bytes of a block for its checksum. */
  const TAIL := Rec(0, 12, [], DIR_CSUM)

  /** The bytes of a block that records can have. */
  function LeafSpace(bs: nat, metaCsum: bool): nat { if metaCsum && 12 <= bs then bs - 12 else bs }

  function Tailed(body: seq<Rec>, metaCsum: bool): seq<Rec> { if metaCsum then body + [TAIL] else body }

  /** All records but the tail. */
  function Body(recs: seq<Rec>, metaCsum: bool): seq<Rec> { if metaCsum && recs != [] then recs[..|recs| - 1] else recs }

  /** The operations leave dead space only in front of a block, and it is usable; with checksums the tail is
      where it belongs. */
  ghost predicate Neat(recs: seq<Rec>, metaCsum: bool) {
    recs == Tailed(Body(recs, metaCsum), metaCsum) && NeatBody(Body(recs, metaCsum))
  }

  ghost predicate NeatBody(recs: seq<Rec>) {
    && 0 < |recs|
    && (recs[0].inode == 0 ==> recs[0].ftype != DIR_CSUM)
    && forall k :: 0 < k < |recs| ==> recs[k].inode != 0
  }

  lemma {:induction false} TailedNeat(body: seq<Rec>, metaCsum: bool)
    requires NeatBody(body)
    ensures Neat(Tailed(body, metaCsum), metaCsum) && Body(Tailed(body, metaCsum), metaCsum) == body
  {}

  lemma {:induction false} TailedOk(body: seq<Rec>, bs: nat, metaCsum: bool)
    requires 12 <= bs < 0x1_0000
    ensures Tiled(Tailed(body, metaCsum), bs) <==> Tiled(body, LeafSpace(bs, metaCsum))
    ensures Live(Tailed(body, metaCsum)) == Live(body) && LiveSize(Tailed(body, metaCsum)) == LiveSize(body)
    ensures forall need: nat :: Fits(Tailed(body, metaCsum), need) <==> Fits(body, need)
  {
    hide SumLen, Live, LiveSize, HasRoom;
    if metaCsum {
      Snoc(body, TAIL);
      var t := Tailed(body, metaCsum);
      assert t[|body|] == TAIL && forall k :: 0 <= k < |body| ==> t[k] == body[k];
      TailRoom();
    }
  }

  lemma {:induction false} TailRoom()
    ensures RecOk(TAIL) && EntryOf(TAIL) == multiset{} && forall need: nat :: !HasRoom(TAIL, need)
  {}

  /** A neat block without its tail. */
  lemma {:induction false} BodyOk(recs: seq<Rec>, bs: nat, metaCsum: bool)
    requires Tiled(recs, bs) && Neat(recs, metaCsum)
    ensures var b := Body(recs, metaCsum);
            && Tiled(b, LeafSpace(bs, metaCsum)) && NeatBody(b) && Live(b) == Live(recs) && LiveSize(b) == LiveSize(recs)
            && (metaCsum ==> 12 <= bs) && LiveSize(recs) <= LeafSpace(bs, metaCsum)
            && forall need: nat :: Fits(recs, need) <==> Fits(b, need)
  {
    hide Live, LiveSize, SumLen, HasRoom, NeatBody;
    var b := Body(recs, metaCsum);
    if metaCsum { Snoc(b, TAIL); }
    LiveSizeBound(b);
    if 12 <= bs { TailedOk(b, bs, metaCsum); }
  }

  /** A record with room, or a live one, is not the tail. */
  lemma {:induction false} InBody(recs: seq<Rec>, metaCsum: bool, i: nat, need: nat)
    requires Neat(recs, metaCsum) && i < |recs| && (HasRoom(recs[i], need) || recs[i].inode != 0)
    ensures i < |Body(recs, metaCsum)| && Body(recs, metaCsum)[i] == recs[i]
  {}

  lemma {:induction false} PlacedNeat(recs: seq<Rec>, metaCsum: bool, i: nat, name: Name, inode: nat, ftype: nat)
    requires Neat(recs, metaCsum) && i < |recs| && RecOk(recs[i]) && inode != 0 && HasRoom(recs[i], Need(|name|))
    ensures Neat(Placed(recs, i, name, inode, ftype), metaCsum)
  {
    hide RecOk, HasRoom;
    InBody(recs, metaCsum, i, Need(|name|));
    var b := Body(recs, metaCsum);
    var p := Placed(b, i, name, inode, ftype);
    forall k | 0 < k < |p| ensures p[k].inode != 0 {
      if k < i { assert p[k] == b[k]; }
      else if k > i + |p| - |b| { assert p[k] == b[k - (|p| - |b|)]; }
    }
    assert Placed(recs, i, name, inode, ftype) == Tailed(p, metaCsum);
    TailedNeat(p, metaCsum);
  }

  lemma {:induction false} DroppedNeat(recs: seq<Rec>, metaCsum: bool, i: nat)
    requires Neat(recs, metaCsum) && i < |recs| && recs[i].inode != 0 && recs[i].ftype != DIR_CSUM
    ensures Neat(Dropped(recs, i), metaCsum)
  {
    InBody(recs, metaCsum, i, 0);
    var b := Body(recs, metaCsum);
    var d := Dropped(b, i);
    forall k | 0 < k < |d| ensures d[k].inode != 0 {
      if i == 0 || k < i - 1 { assert d[k] == b[k]; }
      else if k > i - 1 { assert d[k] == b[k + 1]; }
    }
    assert Dropped(recs, i) == Tailed(d, metaCsum);
    TailedNeat(d, metaCsum);
  }

  lemma {:induction false} LiveSizePrefix(recs: seq<Rec>, i: nat)
    requires i <= |recs|
    ensures LiveSize(recs[..i]) <= LiveSize(recs)
  {
    SeqCut(recs, i, |recs|);
    assert recs[..i] + recs[i..] == recs;
    Concat(recs[..i], recs[i..]);
  }

  /** A block without a live record is one usable dead record. */
  lemma {:induction false} FullMeansLive(recs: seq<Rec>, bs: nat, metaCsum: bool, need: nat)
    requires Tiled(recs, bs) && Neat(recs, metaCsum) && need <= LeafSpace(bs, metaCsum) && !Fits(recs, need)
    ensures 0 < LiveSize(recs)
  {
    hide SumLen, LiveSize, Live;
    BodyOk(recs, bs, metaCsum);
    var b := Body(recs, metaCsum);
    One(b[0]);
    if |b| == 1 {
      assert b == [b[0]];
      assert !HasRoom(b[0], need);
    } else {
      assert b[1].inode != 0;
      assert b[..2] == [b[0], b[1]];
      Two(b[0], b[1]);
      One(b[1]);
      LiveSizePrefix(b, 2);
    }
  }

  /** Live records never need more than the block. */
  lemma {:induction false} LiveSizeBound(recs: seq<Rec>)
    requires forall k :: 0 <= k < |recs| ==> RecOk(recs[k])
    ensures LiveSize(recs) <= SumLen(recs)
  {
    if recs != [] {
      var r := recs[|recs| - 1];
      LiveSizeBound(recs[..|recs| - 1]);
      assert RecOk(r);
      assert Need(|r.name|) <= r.len;
    }
  }

  /** Whatever place a new record finds, it lies in bytes no live record needs. */
  lemma {:induction false} FitsBound(recs: seq<Rec>, bs: nat, need: nat)
    requires Tiled(recs, bs) && Fits(recs, need)
    ensures need + LiveSize(recs) <= bs
  {
    hide SumLen, LiveSize, Live;
    var i :| 0 <= i < |recs| && HasRoom(recs[i], need);
    CutAt(recs, i);
    One(recs[i]);
    LiveSizeBound(recs[..i]);
    LiveSizeBound(recs[i + 1..]);
  }
}
