/** The nodes of a document and their doubly linked child lists, proved against one sequence per parent. */
module ChildLists {
  import opened Seqs

  datatype DomKind = DocumentKind | ElementKind | TextKind(cdata: bool) | CommentKind | DeclarationKind | UnknownKind

  datatype Pool = ElementPool | TextPool | CommentPool

  function PoolOf(kind: DomKind): Pool {
    match kind
    case ElementKind => ElementPool
    case TextKind(_) => TextPool
    case _ => CommentPool
  }

  /** Each kind of node has its pool; comments share theirs with declarations and unknowns. */
  lemma PoolsAre(kind: DomKind)
    ensures PoolOf(kind) == ElementPool <==> kind == ElementKind
    ensures PoolOf(kind) == TextPool <==> kind.TextKind?
    ensures PoolOf(kind) == CommentPool <==> kind != ElementKind && !kind.TextKind?
  {
  }

  class DomNode {
    /** The document's own node, null in that node itself. */
    const document: DomNode?
    const kind: DomKind
    const value: string
    const attrs: seq<(string, string)>
    var parent: DomNode?
    var prev: DomNode?
    var next: DomNode?
    var firstChild: DomNode?
    var lastChild: DomNode?

    constructor (document: DomNode?, kind: DomKind, value: string, attrs: seq<(string, string)>)
      ensures this.document == document && this.kind == kind && this.value == value && this.attrs == attrs
      ensures parent == null && prev == null && next == null && firstChild == null && lastChild == null
    {
      this.document, this.kind, this.value, this.attrs := document, kind, value, attrs;
      parent, prev, next, firstChild, lastChild := null, null, null, null, null;
    }
  }

  // ----- Forests -----

  /** The live nodes, each with its children in order. */
  type Forest = map<DomNode, seq<DomNode>>

  /** `parent`'s ends are those of the sequence. */
  ghost predicate Ends(parent: DomNode, s: seq<DomNode>)
    reads parent`firstChild, parent`lastChild
  {
    && parent.firstChild == (if s == [] then null else s[0])
    && parent.lastChild == (if s == [] then null else s[|s| - 1])
  }

  /** The links of child `i` are its neighbours in the sequence. */
  ghost predicate Sits(parent: DomNode, s: seq<DomNode>, i: nat)
    requires i < |s|
    reads s`parent, s`prev, s`next
  {
    && s[i].parent == parent
    && s[i].prev == (if i == 0 then null else s[i - 1])
    && s[i].next == (if i + 1 == |s| then null else s[i + 1])
  }

  /** The child list of `n` is the sequence. */
  ghost predicate Holds(n: DomNode, s: seq<DomNode>)
    reads n`firstChild, n`lastChild, s`parent, s`prev, s`next
  {
    Ends(n, s) && NoRepeats(s) && forall i | 0 <= i < |s| :: Sits(n, s, i)
  }

  /** A node without a parent has no neighbours, any other is a child of its parent. */
  ghost predicate Placed(kids: Forest, n: DomNode)
    reads n`parent, n`prev, n`next
  {
    if n.parent == null then n.prev == null && n.next == null else n.parent in kids && n in kids[n.parent]
  }

  ghost predicate Linked(kids: Forest)
    reads kids.Keys
  {
    && (forall n | n in kids :: forall c | c in kids[n] :: c in kids)
    && (forall n | n in kids :: Holds(n, kids[n]))
    && (forall n | n in kids :: Placed(kids, n))
  }

  // ----- One list -----

  lemma Apart(s: seq<DomNode>, i: nat, j: nat)
    requires NoRepeats(s) && i < |s| && j < |s|
    ensures s[i] == s[j] <==> i == j
  {
  }

  /** The pointer updates of `Unlink`. */
  method Bypass(p: DomNode, child: DomNode, ghost s: seq<DomNode>, ghost i: nat)
    requires Holds(p, s) && i < |s| && s[i] == child
    modifies p`firstChild, p`lastChild, s`parent, s`prev, s`next
    ensures Holds(p, RemoveAt(s, i))
    ensures child.parent == null && child.prev == null && child.next == null
    ensures forall c | c in s && c != child :: c.parent == old(c.parent)
  {
    hide RemoveAt;
    assert Sits(p, s, i);
    assert forall j | 0 <= j < |s| :: Sits(p, s, j);
    if child == p.firstChild {
      p.firstChild := p.firstChild.next;
    }
    if child == p.lastChild {
      p.lastChild := p.lastChild.prev;
    }
    if child.prev != null {
      child.prev.next := child.next;
    }
    if child.next != null {
      child.next.prev := child.prev;
    }
    child.next := null;
    child.prev := null;
    child.parent := null;
    ghost var r := RemoveAt(s, i);
    assert NoRepeats(r);
    assert Ends(p, r);
    forall j | 0 <= j < |r| ensures Sits(p, r, j) {
      var k := if j < i then j else j + 1;
      assert r[j] == s[k] && old(Sits(p, s, k));
      Apart(s, k, i);
      if i > 0 { Apart(s, k, i - 1); }
      if i + 1 < |s| { Apart(s, k, i + 1); }
      assert r[j].parent == p;
      assert r[j].prev == if j == 0 then null else r[j - 1];
      assert r[j].next == if j + 1 == |r| then null else r[j + 1];
    }
  }

  ghost function Detached(kids: Forest, c: DomNode): Forest {
    map n | n in kids :: Without(kids[n], c)
  }

  /** The pointer updates of `InsertEndChild`. */
  method Append(p: DomNode, c: DomNode, ghost s: seq<DomNode>)
    requires Holds(p, s) && c !in s
    modifies p`firstChild, p`lastChild, c`parent, c`prev, c`next, s`prev, s`next
    ensures Holds(p, InsertAt(s, |s|, c)) && c.parent == p
  {
    hide InsertAt;
    assert forall j | 0 <= j < |s| :: Sits(p, s, j);
    if p.lastChild != null {
      p.lastChild.next := c;
      c.prev := p.lastChild;
      p.lastChild := c;
      c.next := null;
    } else {
      p.firstChild, p.lastChild := c, c;
      c.prev := null;
      c.next := null;
    }
    c.parent := p;
    ghost var r := InsertAt(s, |s|, c);
    assert NoRepeats(r);
    assert Ends(p, r);
    forall j | 0 <= j < |r| ensures Sits(p, r, j) {
      if j < |s| {
        assert r[j] == s[j] && old(Sits(p, s, j));
        Apart(s, j, |s| - 1);
      }
    }
  }

  /** The pointer updates of `InsertFirstChild`; `next` of the only child keeps the null it has. */
  method Prepend(p: DomNode, c: DomNode, ghost s: seq<DomNode>)
    requires Holds(p, s) && c !in s
    modifies p`firstChild, p`lastChild, c`parent, c`prev, c`next, s`prev, s`next
    ensures Holds(p, InsertAt(s, 0, c)) && c.parent == p
  {
    hide InsertAt;
    assert forall j | 0 <= j < |s| :: Sits(p, s, j);
    if p.firstChild != null {
      p.firstChild.prev := c;
      c.next := p.firstChild;
      p.firstChild := c;
      c.prev := null;
    } else {
      p.firstChild, p.lastChild := c, c;
      c.prev := null;
      c.next := null;
    }
    c.parent := p;
    ghost var r := InsertAt(s, 0, c);
    assert NoRepeats(r);
    assert Ends(p, r);
    forall j | 0 <= j < |r| ensures Sits(p, r, j) {
      if j > 0 {
        assert r[j] == s[j - 1] && old(Sits(p, s, j - 1));
        Apart(s, j - 1, 0);
      }
    }
  }

  /** The pointer updates of `InsertAfterChild`, for a node that is not the last. */
  method PlaceAfter(p: DomNode, after: DomNode, c: DomNode, ghost s: seq<DomNode>, ghost i: nat)
    requires Holds(p, s) && c !in s && i + 1 < |s| && s[i] == after
    modifies p`firstChild, p`lastChild, c`parent, c`prev, c`next, s`prev, s`next
    ensures Holds(p, InsertAt(s, i + 1, c)) && c.parent == p
  {
    hide InsertAt;
    assert forall j | 0 <= j < |s| :: Sits(p, s, j);
    assert Sits(p, s, i);
    c.prev := after;
    c.next := after.next;
    after.next.prev := c;
    after.next := c;
    c.parent := p;
    ghost var r := InsertAt(s, i + 1, c);
    assert NoRepeats(r);
    assert Ends(p, r);
    forall j | 0 <= j < |r| ensures Sits(p, r, j) {
      if j != i + 1 {
        var k := if j <= i then j else j - 1;
        assert r[j] == s[k] && old(Sits(p, s, k));
        Apart(s, k, i);
        Apart(s, k, i + 1);
      }
    }
  }

  lemma HoldsApart(n: DomNode, s: seq<DomNode>)
    requires Holds(n, s)
    ensures NoRepeats(s)
  {
  }

  /** Only the list the node was in changes, and only the node leaves it. */
  lemma DetachedIs(kids: Forest, p: DomNode, c: DomNode)
    requires p in kids && c in kids[p] && NoRepeats(kids[p])
    requires forall n | n in kids && n != p :: c !in kids[n]
    ensures Detached(kids, c) == kids[p := RemoveAt(kids[p], Position(kids[p], c))]
    ensures forall n | n in kids :: forall x | x in kids[n] && x != c :: x in Detached(kids, c)[n]
    ensures forall n | n in kids :: forall x | x in Detached(kids, c)[n] :: x in kids[n] && x != c
  {
    hide RemoveAt, Position;
    WithoutMembers(kids[p], c);
  }

  /** A child has one parent. */
  lemma ChildOf(kids: Forest, n: DomNode, c: DomNode)
    requires Linked(kids) && n in kids && c in kids[n]
    ensures c in kids && c.parent == n
  {
    assert Sits(n, kids[n], Position(kids[n], c));
  }

  lemma DetachedRelates(kids: Forest, p: DomNode, c: DomNode)
    requires Linked(kids) && p in kids && c in kids && c.parent == p
    ensures c in kids[p] && NoRepeats(kids[p]) && Holds(p, kids[p])
    ensures forall x | x in kids[p] :: x.parent == p
    ensures forall n | n in kids && n != p :: forall x | x in kids[n] :: x !in kids[p]
    ensures Detached(kids, c) == kids[p := RemoveAt(kids[p], Position(kids[p], c))]
    ensures forall n | n in kids :: forall x | x in kids[n] && x != c :: x in Detached(kids, c)[n]
    ensures forall n | n in kids :: forall x | x in Detached(kids, c)[n] :: x in kids[n] && x != c
  {
    hide RemoveAt, Position, Detached, Holds;
    forall n, x | n in kids && x in kids[n] ensures x.parent == n {
      ChildOf(kids, n, x);
    }
    assert Placed(kids, c) && Holds(p, kids[p]);
    HoldsApart(p, kids[p]);
    DetachedIs(kids, p, c);
  }

  lemma ParentIn(kids: Forest, c: DomNode)
    requires Linked(kids) && c in kids && c.parent != null
    ensures c.parent in kids && c in kids[c.parent]
  {
    assert Placed(kids, c);
  }

  lemma DetachedKeys(kids: Forest, c: DomNode)
    ensures Detached(kids, c).Keys == kids.Keys
  {
  }

  /** Taking a node out of its parent's list disturbs no other list. */
  method Detach(ghost kids: Forest, p: DomNode, child: DomNode)
    requires Linked(kids) && p in kids && child in kids && child.parent == p
    modifies kids.Keys
    ensures Detached(kids, child).Keys == kids.Keys && Linked(Detached(kids, child))
    ensures child.parent == null
    ensures forall n | n in kids && n != child :: n.parent == old(n.parent)
  {
    hide Holds, RemoveAt, Position, Detached;
    ghost var s := kids[p];
    DetachedRelates(kids, p, child);
    DetachedKeys(kids, child);
    AllHold(kids);
    BypassAlone(kids, p, child, s, Position(s, child));
    ghost var now := Detached(kids, child);
    forall n | n in now ensures Holds(n, now[n]) && Placed(now, n) {
      assert old(Placed(kids, n)) && (n != p ==> now[n] == kids[n]);
    }
  }

  lemma AllHold(kids: Forest)
    requires Linked(kids)
    ensures forall n | n in kids :: Holds(n, kids[n])
  {
  }

  /** The other lists have no node in common with this one, and hold on. */
  method BypassAlone(ghost kids: Forest, p: DomNode, child: DomNode, ghost s: seq<DomNode>, ghost i: nat)
    requires Holds(p, s) && i < |s| && s[i] == child
    requires forall n | n in kids && n != p :: Holds(n, kids[n]) && forall c | c in kids[n] :: c !in s
    modifies p`firstChild, p`lastChild, s`parent, s`prev, s`next
    ensures Holds(p, RemoveAt(s, i)) && forall n | n in kids && n != p :: Holds(n, kids[n])
    ensures child.parent == null && child.prev == null && child.next == null
    ensures forall c | c in s && c != child :: c.parent == old(c.parent)
  {
    hide Holds, RemoveAt;
    Bypass(p, child, s, i);
    forall n | n in kids && n != p ensures Holds(n, kids[n]) {
      assert old(Holds(n, kids[n]));
      assert forall c | c in kids[n] :: c !in s;
      assert n.firstChild == old(n.firstChild) && n.lastChild == old(n.lastChild);
      assert forall c | c in kids[n] :: c.parent == old(c.parent);
      assert forall c | c in kids[n] :: c.next == old(c.next);
      assert forall c | c in kids[n] :: c.prev == old(c.prev);
    }
  }

  // ----- Linking -----

  /** Where a node goes in a child list. */
  datatype Where = First | Last | After(sibling: DomNode)

  function IndexFor(s: seq<DomNode>, w: Where): (i: nat)
    requires w.After? ==> w.sibling in s
    ensures i <= |s|
  {
    match w
    case First => 0
    case Last => |s|
    case After(x) => Position(s, x) + 1
  }

  ghost function Attached(kids: Forest, p: DomNode, w: Where, c: DomNode): Forest
    requires p in kids && (w.After? ==> w.sibling in kids[p])
  {
    kids[p := InsertAt(kids[p], IndexFor(kids[p], w), c)]
  }

  lemma AttachedMembers(kids: Forest, p: DomNode, w: Where, c: DomNode)
    requires p in kids && (w.After? ==> w.sibling in kids[p])
    requires NoRepeats(kids[p]) && c !in kids[p]
    ensures Attached(kids, p, w, c).Keys == kids.Keys + {p}
    ensures forall n | n in kids && n != p :: Attached(kids, p, w, c)[n] == kids[n]
    ensures c in Attached(kids, p, w, c)[p] && forall x | x in kids[p] :: x in Attached(kids, p, w, c)[p]
    ensures forall x | x in Attached(kids, p, w, c)[p] :: x in kids[p] || x == c
  {
    hide InsertAt, IndexFor;
    InsertMembers(kids[p], IndexFor(kids[p], w), c);
  }

  lemma AttachedClosed(kids: Forest, p: DomNode, w: Where, c: DomNode)
    requires p in kids && c in kids && (w.After? ==> w.sibling in kids[p]) && NoRepeats(kids[p]) && c !in kids[p]
    requires forall n | n in kids :: forall x | x in kids[n] :: x in kids
    ensures var now := Attached(kids, p, w, c); forall n | n in now :: forall x | x in now[n] :: x in now
  {
    hide Attached;
    AttachedMembers(kids, p, w, c);
    var now := Attached(kids, p, w, c);
    forall n, x | n in now && x in now[n] ensures x in now {
      if n == p {
        assert x in kids[p] || x == c;
      } else {
        assert x in kids[n];
      }
    }
  }

  lemma AttachedRelates(kids: Forest, p: DomNode, w: Where, c: DomNode)
    requires Linked(kids) && p in kids && c in kids && c.parent == null && (w.After? ==> w.sibling in kids[p])
    ensures NoRepeats(kids[p]) && c !in kids[p] && Holds(p, kids[p]) && forall x | x in kids[p] :: x.parent == p
    ensures forall n | n in kids && n != p :: forall x | x in kids[n] :: x !in kids[p] && x != c
    ensures var now := Attached(kids, p, w, c);
            && (forall n | n in now :: forall x | x in now[n] :: x in now)
            && now.Keys == kids.Keys && (forall n | n in kids && n != p :: now[n] == kids[n])
            && now[p] == InsertAt(kids[p], IndexFor(kids[p], w), c)
            && c in now[p] && forall x | x in kids[p] :: x in now[p]
  {
    hide Attached, Holds, InsertAt;
    forall n, x | n in kids && x in kids[n] ensures x.parent == n {
      ChildOf(kids, n, x);
    }
    assert Holds(p, kids[p]);
    HoldsApart(p, kids[p]);
    AttachedMembers(kids, p, w, c);
    AttachedClosed(kids, p, w, c);
    AttachedAt(kids, p, w, c);
  }

  /** Linking a node disturbs no other list. */
  method Attach(ghost kids: Forest, p: DomNode, c: DomNode, w: Where)
    requires Linked(kids) && p in kids && c in kids && c.parent == null
    requires w.After? ==> w.sibling in kids[p] && w.sibling.next != null
    modifies kids.Keys
    ensures Linked(Attached(kids, p, w, c)) && c.parent == p
    ensures forall n | n in kids && n != c :: n.parent == old(n.parent)
  {
    hide Holds, Attached, InsertAt, IndexFor;
    ghost var s := kids[p];
    AttachedRelates(kids, p, w, c);
    ghost var now := Attached(kids, p, w, c);
    AllHold(kids);
    SpliceAlone(kids, p, c, s, w);
    forall n | n in now ensures Holds(n, now[n]) && Placed(now, n) {
      assert old(Placed(kids, n)) && (n != p ==> now[n] == kids[n]);
    }
  }

  method SpliceAlone(ghost kids: Forest, p: DomNode, c: DomNode, ghost s: seq<DomNode>, w: Where)
    requires Holds(p, s) && c !in s && (w.After? ==> w.sibling in s && w.sibling.next != null)
    requires forall n | n in kids && n != p :: Holds(n, kids[n]) && forall x | x in kids[n] :: x !in s && x != c
    modifies p`firstChild, p`lastChild, c`parent, c`prev, c`next, s`prev, s`next
    ensures Holds(p, InsertAt(s, IndexFor(s, w), c)) && c.parent == p
    ensures forall n | n in kids && n != p :: Holds(n, kids[n])
  {
    hide Holds, InsertAt, IndexFor;
    Splice(p, c, s, w);
    forall n | n in kids && n != p ensures Holds(n, kids[n]) {
      assert old(Holds(n, kids[n]));
      assert forall x | x in kids[n] :: x !in s && x != c;
      assert n.firstChild == old(n.firstChild) && n.lastChild == old(n.lastChild);
      assert forall x | x in kids[n] :: x.parent == old(x.parent);
      assert forall x | x in kids[n] :: x.next == old(x.next);
      assert forall x | x in kids[n] :: x.prev == old(x.prev);
    }
  }

  method Splice(p: DomNode, c: DomNode, ghost s: seq<DomNode>, w: Where)
    requires Holds(p, s) && c !in s && (w.After? ==> w.sibling in s && w.sibling.next != null)
    modifies p`firstChild, p`lastChild, c`parent, c`prev, c`next, s`prev, s`next
    ensures Holds(p, InsertAt(s, IndexFor(s, w), c)) && c.parent == p
  {
    hide Holds, InsertAt, Position;
    match w {
      case First => Prepend(p, c, s);
      case Last => Append(p, c, s);
      case After(x) =>
        InMiddle(p, s, x);
        PlaceAfter(p, x, c, s, Position(s, x));
    }
  }

  lemma AttachedAt(kids: Forest, p: DomNode, w: Where, c: DomNode)
    requires p in kids && (w.After? ==> w.sibling in kids[p])
    ensures Attached(kids, p, w, c)[p] == InsertAt(kids[p], IndexFor(kids[p], w), c)
  {
  }

  /** A child with a next sibling is not the last. */
  lemma InMiddle(p: DomNode, s: seq<DomNode>, x: DomNode)
    requires Holds(p, s) && x in s && x.next != null
    ensures Position(s, x) + 1 < |s|
  {
    assert Sits(p, s, Position(s, x));
  }
}
