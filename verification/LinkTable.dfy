/** The doubly linked list that keeps the regions of an address space. */
module LinkTable {

  /** A list node; regions are nodes with bounds and flags. The list's head is a node, too. */
  class Node {
    var pre: Node?
    var nxt: Node?
    var start: nat
    var end: nat
    var flags: nat
    /** VMS is not null. */
    var owned: bool

    constructor (start: nat, end: nat, flags: nat)
      ensures pre == null && nxt == null && !owned && this.start == start && this.end == end && this.flags == flags
    {
      pre, nxt, owned := null, null, false;
      this.start, this.end, this.flags := start, end, flags;
    }
  }

  ghost predicate Distinct(s: seq<Node>) {
    forall i, j :: 0 <= i < j < |s| ==> s[i] != s[j]
  }

  function At(s: seq<Node>, i: int): Node? {
    if 0 <= i < |s| then s[i] else null
  }

  /** The node at position i points to its neighbours. */
  ghost predicate Linked(s: seq<Node>, i: nat)
    requires i < |s|
    reads s`pre, s`nxt
  {
    s[i].nxt == At(s, i + 1) && s[i].pre == At(s, i - 1)
  }

  /** The nodes of s are linked in both directions, in this order, and to nothing else. */
  ghost predicate Chain(s: seq<Node>)
    reads s`pre, s`nxt
  {
    Distinct(s) && forall i: nat :: i < |s| ==> Linked(s, i)
  }

  /** NxtInsert on the node at position k: p comes right behind it. */
  method NxtInsert(n: Node, p: Node, ghost s: seq<Node>, ghost k: nat)
    requires Chain(s) && k < |s| && s[k] == n && p !in s && p.pre == null && p.nxt == null
    modifies s`pre, s`nxt, p`pre, p`nxt
    ensures Chain(s[..k + 1] + [p] + s[k + 1..])
  {
    ghost var t := s[..k + 1] + [p] + s[k + 1..];
    assert Linked(s, k);
    assert k + 1 < |s| ==> Linked(s, k + 1);
    if n.nxt == null {
      p.pre := n;
      n.nxt := p;
    } else {
      p.pre := n;
      p.nxt := n.nxt;
      n.nxt.pre := p;
      n.nxt := p;
    }
    forall i: nat | i < |t| ensures Linked(t, i) {
      if i != k + 1 {
        ghost var j := if i <= k then i else i - 1;
        assert old(Linked(s, j)) && t[i] == s[j];
      }
    }
  }

  /** PreInsert on the node at position k: p comes right before it. */
  method PreInsert(n: Node, p: Node, ghost s: seq<Node>, ghost k: nat)
    requires Chain(s) && k < |s| && s[k] == n && p !in s && p.pre == null && p.nxt == null
    modifies s`pre, s`nxt, p`pre, p`nxt
    ensures Chain(s[..k] + [p] + s[k..])
  {
    ghost var t := s[..k] + [p] + s[k..];
    assert Linked(s, k);
    assert k > 0 ==> Linked(s, k - 1);
    if n.pre == null {
      p.nxt := n;
      n.pre := p;
    } else {
      p.pre := n.pre;
      p.nxt := n;
      n.pre.nxt := p;
      n.pre := p;
    }
    forall i: nat | i < |t| ensures Linked(t, i) {
      if i != k {
        ghost var j := if i < k then i else i - 1;
        assert old(Linked(s, j)) && t[i] == s[j];
      }
    }
  }

  /** Remove on the node at position k: it ends up alone. */
  method Remove(n: Node, ghost s: seq<Node>, ghost k: nat)
    requires Chain(s) && k < |s| && s[k] == n
    modifies s`pre, s`nxt
    ensures Chain(s[..k] + s[k + 1..]) && n.pre == null && n.nxt == null
  {
    ghost var t := s[..k] + s[k + 1..];
    assert Linked(s, k);
    assert k > 0 ==> Linked(s, k - 1);
    assert k + 1 < |s| ==> Linked(s, k + 1);
    if n.pre == null && n.nxt == null {
    } else if n.pre == null {
      n.nxt.pre := null;
      n.nxt := null;
    } else if n.nxt == null {
      n.pre.nxt := null;
      n.pre := null;
    } else {
      n.pre.nxt := n.nxt;
      n.nxt.pre := n.pre;
      n.pre := null;
      n.nxt := null;
    }
    forall i: nat | i < |t| ensures Linked(t, i) {
      ghost var j := if i < k then i else i + 1;
      assert old(Linked(s, j)) && t[i] == s[j];
    }
  }
}
