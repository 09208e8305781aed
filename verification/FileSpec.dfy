/** The bytes of a file, read off the medium through its block map. */
module FileSpec {
  import opened Arith
  import opened ByteIo

  /** Where file blocks lie: the partition's offset, the block size and the physical block of each
      logical one. */
  datatype Layout = Layout(po: nat, bs: nat, blocks: seq<nat>)

  /** No holes, no block twice, all blocks inside the partition. */
  ghost predicate LayoutOk(l: Layout, partSize: nat) {
    && l.bs > 0
    && (forall k :: 0 <= k < |l.blocks| ==> l.blocks[k] != 0 && l.blocks[k] * l.bs + l.bs <= partSize)
    && forall j, k :: 0 <= j < k < |l.blocks| ==> l.blocks[j] != l.blocks[k]
  }

  /** The address of byte i of the file. */
  function Addr(l: Layout, i: nat): nat
    requires l.bs > 0 && Quot(i, l.bs) < |l.blocks|
  {
    l.po + l.blocks[Quot(i, l.bs)] * l.bs + Rem(i, l.bs)
  }

  function ByteAt(m: seq<bv8>, a: nat): bv8 { if a < |m| then m[a] else 0 }

  /** Byte i of the file, 0 behind the last block. */
  function FileByte(m: seq<bv8>, l: Layout, i: nat): bv8
    requires l.bs > 0
  {
    if Quot(i, l.bs) < |l.blocks| then ByteAt(m, Addr(l, i)) else 0
  }

  ghost function Content(m: seq<bv8>, l: Layout, n: nat): (c: seq<bv8>)
    requires l.bs > 0
    ensures |c| == n && forall i: nat :: i < n ==> c[i] == FileByte(m, l, i)
  {
    seq(n, i requires 0 <= i < n => FileByte(m, l, i))
  }

  /** Logical blocks k .. k + count lie in physical blocks start .. start + count. */
  ghost predicate Run(l: Layout, k: nat, start: nat, count: nat) {
    k + count <= |l.blocks| && forall j: nat :: k <= j < k + count ==> l.blocks[j] == start + (j - k)
  }

  /** Byte x of a run. */
  lemma {:induction false} RunByte(l: Layout, k: nat, start: nat, count: nat, x: nat)
    requires l.bs > 0 && Run(l, k, start, count) && x < count * l.bs
    ensures Quot(k * l.bs + x, l.bs) == k + Quot(x, l.bs) < |l.blocks| && Quot(x, l.bs) < count
    ensures Addr(l, k * l.bs + x) == l.po + start * l.bs + x
  {
    hide Quot, Rem;
    Split(x, l.bs);
    var q, r := Quot(x, l.bs), Rem(x, l.bs);
    if count <= q { MulBelow(count, q, l.bs); }
    assert (k + q) * l.bs == k * l.bs + q * l.bs;
    DivMod(k + q, l.bs, r);
    assert (start + q) * l.bs == start * l.bs + q * l.bs;
  }

  /** A slice of a run on the medium is the slice of the file. */
  lemma {:induction false} RunBytes(m: seq<bv8>, l: Layout, k: nat, start: nat, count: nat, at: nat, len: nat, n: nat)
    requires l.bs > 0 && Run(l, k, start, count) && at + len <= count * l.bs && l.po + start * l.bs + at + len <= |m|
    requires k * l.bs + at + len <= n
    ensures m[l.po + start * l.bs + at..l.po + start * l.bs + at + len] == Content(m, l, n)[k * l.bs + at..k * l.bs + at + len]
  {
    hide Quot, Rem, Addr;
    var a, b, c := l.po + start * l.bs + at, k * l.bs + at, Content(m, l, n);
    var s, t := m[a..a + len], c[b..b + len];
    forall x: nat | x < len ensures s[x] == t[x] {
      RunByte(l, k, start, count, at + x);
      assert c[b + x] == FileByte(m, l, k * l.bs + (at + x));
    }
  }

  lemma {:induction false} RunAt(l: Layout, k: nat, start: nat, count: nat, j: nat)
    requires Run(l, k, start, count) && k <= j < k + count
    ensures j < |l.blocks| && l.blocks[j] == start + (j - k)
  {}

  lemma {:induction false} Apart(l: Layout, partSize: nat, k: nat, start: nat, count: nat, i: nat)
    requires LayoutOk(l, partSize) && Run(l, k, start, count) && Quot(i, l.bs) < |l.blocks|
    requires !(k <= Quot(i, l.bs) < k + count)
    ensures Addr(l, i) < l.po + start * l.bs || l.po + start * l.bs + count * l.bs <= Addr(l, i)
  {
    hide Quot, Rem;
    var j := Quot(i, l.bs);
    Split(i, l.bs);
    var b := l.blocks[j];
    if start <= b < start + count {
      RunAt(l, k, start, count, k + (b - start));
      assert false;
    } else if b < start {
      MulMore(b, start, l.bs);
    } else {
      MulBelow(start + count, b, l.bs);
      assert (start + count) * l.bs == start * l.bs + count * l.bs;
    }
  }

  /** Writing into a run changes exactly that part of the file. */
  lemma {:induction false} RunWritten(m: seq<bv8>, m': seq<bv8>, l: Layout, partSize: nat, k: nat, start: nat, count: nat, at: nat, d: seq<bv8>, i: nat)
    requires LayoutOk(l, partSize) && Run(l, k, start, count) && at + |d| <= count * l.bs
    requires Overwritten(m, m', l.po + start * l.bs + at, d)
    ensures FileByte(m', l, i) == if k * l.bs + at <= i < k * l.bs + at + |d| then d[i - (k * l.bs + at)] else FileByte(m, l, i)
  {
    hide Quot, Rem, Addr;
    if Quot(i, l.bs) < |l.blocks| {
      InRun(l, k, count, i);
      if k <= Quot(i, l.bs) < k + count {
        RunByte(l, k, start, count, i - k * l.bs);
      } else {
        Apart(l, partSize, k, start, count, i);
      }
    } else {
      InRun(l, k, count, i);
    }
  }

  lemma {:induction false} InRun(l: Layout, k: nat, count: nat, i: nat)
    requires l.bs > 0
    ensures k <= Quot(i, l.bs) < k + count <==> k * l.bs <= i < k * l.bs + count * l.bs
  {
    hide Quot, Rem;
    Split(i, l.bs);
    var q := Quot(i, l.bs);
    assert (k + count) * l.bs == k * l.bs + count * l.bs;
    if q < k { MulMore(q, k, l.bs); } else { MulBelow(k, q, l.bs); }
    if q < k + count { MulMore(q, k + count, l.bs); } else { MulBelow(k + count, q, l.bs); }
  }

  /** A new last block shows nothing of what was there before. */
  lemma {:induction false} Appended(m: seq<bv8>, l: Layout, b: nat, i: nat)
    requires l.bs > 0 && i < |l.blocks| * l.bs
    ensures FileByte(m, l.(blocks := l.blocks + [b]), i) == FileByte(m, l, i)
  {
    hide Quot, Rem;
    Split(i, l.bs);
    if |l.blocks| <= Quot(i, l.bs) { MulBelow(|l.blocks|, Quot(i, l.bs), l.bs); }
  }

  // ----- writing

  /** Address a belongs to no block of the file. */
  ghost predicate Outside(l: Layout, a: nat) {
    forall k :: 0 <= k < |l.blocks| ==> !(l.po + l.blocks[k] * l.bs <= a < l.po + l.blocks[k] * l.bs + l.bs)
  }

  /** What a write starts from: the medium, the layout, the position and the data. */
  datatype Job = Job(m0: seq<bv8>, l0: Layout, f0: nat, data: seq<bv8>)

  /** From m0 with layout l0: the file's bytes f0 .. upto are those of `data`, its other bytes and
      all of the medium outside the file are as before. */
  ghost predicate Written(w: Job, m: seq<bv8>, l: Layout, upto: nat) {
    var (m0, l0, f0, data) := (w.m0, w.l0, w.f0, w.data);
    && l0.bs == l.bs > 0 && l0.po == l.po && f0 <= upto <= f0 + |data| && |m| == |m0|
    && (forall i: nat :: f0 <= i < upto ==> FileByte(m, l, i) == data[i - f0])
    && (forall i: nat :: i < |l0.blocks| * l.bs && !(f0 <= i < upto) ==> FileByte(m, l, i) == FileByte(m0, l0, i))
    && (forall a: nat :: a < |m| && Outside(l, a) ==> m[a] == m0[a])
  }

  lemma {:induction false} WrittenStart(w: Job)
    requires w.l0.bs > 0
    ensures Written(w, w.m0, w.l0, w.f0)
  {}

  /** The next piece goes into a run. */
  lemma {:induction false} WrittenMore(w: Job, m: seq<bv8>, l: Layout, upto: nat, m': seq<bv8>, partSize: nat, k: nat, start: nat, count: nat, at: nat, d: seq<bv8>)
    requires Written(w, m, l, upto) && LayoutOk(l, partSize) && Run(l, k, start, count) && at + |d| <= count * l.bs
    requires Overwritten(m, m', l.po + start * l.bs + at, d) && upto == k * l.bs + at
    requires upto + |d| <= w.f0 + |w.data| && d == w.data[upto - w.f0..upto - w.f0 + |d|]
    ensures Written(w, m', l, upto + |d|)
  {
    hide FileByte, LayoutOk, Outside;
    forall i: nat ensures FileByte(m', l, i) == if upto <= i < upto + |d| then d[i - upto] else FileByte(m, l, i) {
      RunWritten(m, m', l, partSize, k, start, count, at, d, i);
    }
    forall a: nat | a < |m| && Outside(l, a) ensures m'[a] == m[a] {
      if l.po + start * l.bs <= a < l.po + start * l.bs + count * l.bs {
        InsideRun(l, k, start, count, a);
      }
    }
  }

  /** An address in a run belongs to the file. */
  lemma {:induction false} InsideRun(l: Layout, k: nat, start: nat, count: nat, a: nat)
    requires l.bs > 0 && Run(l, k, start, count) && l.po + start * l.bs <= a < l.po + start * l.bs + count * l.bs
    ensures !Outside(l, a)
  {
    hide Quot, Rem;
    var x := a - (l.po + start * l.bs);
    RunByte(l, k, start, count, x);
    Split(x, l.bs);
    var j := k + Quot(x, l.bs);
    RunAt(l, k, start, count, j);
    assert (start + Quot(x, l.bs)) * l.bs == start * l.bs + Quot(x, l.bs) * l.bs;
    assert l.po + l.blocks[j] * l.bs <= a < l.po + l.blocks[j] * l.bs + l.bs;
  }

  /** A block is appended to the file. */
  lemma {:induction false} WrittenAppend(w: Job, m: seq<bv8>, l: Layout, upto: nat, b: nat)
    requires Written(w, m, l, upto) && upto <= |l.blocks| * l.bs && |w.l0.blocks| <= |l.blocks|
    ensures Written(w, m, l.(blocks := l.blocks + [b]), upto)
  {
    hide FileByte;
    MulBelow(|w.l0.blocks|, |l.blocks|, l.bs);
    var l' := l.(blocks := l.blocks + [b]);
    forall i: nat | i < |l.blocks| * l.bs ensures FileByte(m, l', i) == FileByte(m, l, i) {
      Appended(m, l, b, i);
    }
    forall a: nat | Outside(l', a) ensures Outside(l, a) {
      forall k | 0 <= k < |l.blocks| ensures l'.blocks[k] == l.blocks[k] {}
    }
  }

  /** The contents after a write: the data over or behind the old bytes. */
  function Overlay(c: seq<bv8>, f0: nat, data: seq<bv8>): seq<bv8>
    requires f0 <= |c|
  {
    c[..f0] + data + if f0 + |data| > |c| then [] else c[f0 + |data|..]
  }

  /** Reading back where the data went gives the data; everywhere else the old bytes are seen. */
  lemma {:induction false} OverlayReadsBack(c: seq<bv8>, f0: nat, data: seq<bv8>)
    requires f0 <= |c|
    ensures var e := Overlay(c, f0, data);
            f0 + |data| <= |e| && |e| == (if f0 + |data| > |c| then f0 + |data| else |c|) && e[f0..f0 + |data|] == data
            && e[..f0] == c[..f0] && forall i :: f0 + |data| <= i < |c| ==> e[i] == c[i]
  {
    var e := Overlay(c, f0, data);
    assert e == c[..f0] + data + if f0 + |data| > |c| then [] else c[f0 + |data|..];
  }

  /** What a finished write means for the file's contents. */
  lemma {:induction false} WrittenContent(w: Job, m: seq<bv8>, l: Layout, n0: nat, n: nat)
    requires Written(w, m, l, w.f0 + |w.data|) && w.f0 <= n0 <= |w.l0.blocks| * w.l0.bs
    requires n == if w.f0 + |w.data| > n0 then w.f0 + |w.data| else n0
    ensures Content(m, l, n) == Overlay(Content(w.m0, w.l0, n0), w.f0, w.data)
  {
    hide FileByte;
    var c, d := Content(w.m0, w.l0, n0), Content(m, l, n);
    var e := Overlay(c, w.f0, w.data);
    assert |e| == n;
    forall i: nat | i < n ensures d[i] == e[i] {
      assert d[i] == FileByte(m, l, i);
      if i < w.f0 || w.f0 + |w.data| <= i { assert c[i] == FileByte(w.m0, w.l0, i); }
    }
  }
}
