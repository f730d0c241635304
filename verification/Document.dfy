/** A document: its nodes, the list of nodes that are not linked anywhere, and the counters of its four pools. */
module Documents {
  import opened Seqs
  import opened ChildLists
  import opened Forests

  type Counters = map<Pool, int>

  /** The nodes of `s` that live in pool `p`. */
  ghost function Of(s: set<DomNode>, p: Pool): set<DomNode> {
    set n | n in s && PoolOf(n.kind) == p
  }

  /** Every counter is the number of nodes of its pool. */
  ghost predicate Counted(m: Counters, s: set<DomNode>) {
    forall p: Pool :: p in m && m[p] == |Of(s, p)|
  }

  function Stepped(m: Counters, kind: DomKind, delta: int): Counters {
    var p := PoolOf(kind);
    if p in m then m[p := m[p] + delta] else m
  }

  const ZERO: Counters := map[ElementPool := 0, TextPool := 0, CommentPool := 0]

  lemma CountedNone()
    ensures Counted(ZERO, {})
  {
    forall p: Pool ensures p in ZERO && ZERO[p] == |Of({}, p)| {
      assert Of({}, p) == {};
      match p {
        case ElementPool => assert ZERO[ElementPool] == 0;
        case TextPool => assert ZERO[TextPool] == 0;
        case CommentPool => assert ZERO[CommentPool] == 0;
      }
    }
  }

  lemma CountedAdd(m: Counters, s: set<DomNode>, n: DomNode)
    requires Counted(m, s) && n !in s
    ensures Counted(Stepped(m, n.kind, 1), s + {n})
  {
    forall p: Pool ensures p in m && |Of(s + {n}, p)| == |Of(s, p)| + if PoolOf(n.kind) == p then 1 else 0 {
      if PoolOf(n.kind) == p {
        assert Of(s + {n}, p) == Of(s, p) + {n};
      } else {
        assert Of(s + {n}, p) == Of(s, p);
      }
    }
  }

  lemma CountedRemove(m: Counters, s: set<DomNode>, n: DomNode)
    requires Counted(m, s) && n in s
    ensures Counted(Stepped(m, n.kind, -1), s - {n})
  {
    forall p: Pool ensures p in m && |Of(s - {n}, p)| == |Of(s, p)| - if PoolOf(n.kind) == p then 1 else 0 {
      if PoolOf(n.kind) == p {
        assert Of(s - {n}, p) == Of(s, p) - {n};
      } else {
        assert Of(s - {n}, p) == Of(s, p);
      }
    }
  }

  /** The attributes of all nodes of `s`. */
  ghost function AttributesOf(s: set<DomNode>): nat {
    if s == {} then 0
    else
      var n :| n in s;
      |n.attrs| + AttributesOf(s - {n})
  }

  /** The attribute pool holds the attributes of `s`, and all of them are tracked. */
  ghost predicate AttributesCounted(allocs: int, untracked: int, s: set<DomNode>) {
    allocs == AttributesOf(s) && untracked == 0
  }

  lemma {:induction false} AttributesAdd(s: set<DomNode>, n: DomNode)
    requires n !in s
    ensures AttributesOf(s + {n}) == AttributesOf(s) + |n.attrs|
    decreases s
  {
    var t := s + {n};
    var m :| m in t && AttributesOf(t) == |m.attrs| + AttributesOf(t - {m});
    if m == n {
      assert t - {n} == s;
    } else {
      assert t - {m} == s - {m} + {n} && s == s - {m} + {m};
      AttributesAdd(s - {m}, n);
      AttributesAdd(s - {m}, m);
    }
  }

  datatype Outcome = Done(node: DomNode?) | NullDereference

  class Document {
    const root: DomNode
    var unlinked: seq<DomNode>
    var currentAllocs: Counters
    var nUntracked: Counters
    var attributeAllocs: int
    var attributesUntracked: int
    ghost var kids: Forest
    ghost var rank: Ranks

    /** All links agree with the sequences, and all but the root are ordinary nodes of this document. */
    ghost predicate Wired()
      reads this, kids.Keys
    {
      && root in kids && root.parent == null && root.kind == DocumentKind && root.document == null
      && Linked(kids)
      && forall n | n in kids && n != root :: n.document == root && n.kind != DocumentKind
    }

    /** The live nodes form a forest. */
    ghost predicate Shape()
      reads this, kids.Keys
    {
      Wired() && Ranked(kids, rank)
    }

    /** `unlinked` holds each parentless node once, with possible exceptions in `but`, and the counters count
        the live nodes, the unlinked ones outside `but`, and the attributes of the live ones, which are tracked
        at once. */
    ghost predicate AccountsBut(but: set<DomNode>)
      reads this, kids.Keys
    {
      && NoRepeats(unlinked)
      && (forall n | n in Elements(unlinked) :: n in kids && n != root && n.parent == null)
      && (forall n | n in kids && n != root && n.parent == null && n !in but :: n in Elements(unlinked))
      && Counted(nUntracked, Elements(unlinked) - but)
      && Counted(currentAllocs, kids.Keys - {root})
      && AttributesCounted(attributeAllocs, attributesUntracked, kids.Keys - {root})
    }

    /** What holds between public operations. */
    ghost predicate Valid()
      reads this, kids.Keys
    {
      Shape() && AccountsBut({})
    }

    constructor ()
      ensures Valid() && kids == map[root := []] && unlinked == [] && fresh(root)
    {
      root := new DomNode(null, DocumentKind, "", []);
      unlinked, currentAllocs, nUntracked, attributeAllocs, attributesUntracked := [], ZERO, ZERO, 0, 0;
      kids := map[root := []];
      rank := map[root := 0];
      new;
      LinkedNew(map[], root);
      assert map[][root := []] == kids;
      CountedNone();
      assert kids.Keys - {root} == {} && Elements(unlinked) - {} == {};
    }

    // ----- Creating and linking -----

    /** A new node starts out unlinked and untracked. */
    method CreateUnlinkedNode(kind: DomKind, value: string, attrs: seq<(string, string)>) returns (n: DomNode)
      requires Valid() && kind != DocumentKind
      modifies this`unlinked, this`currentAllocs, this`nUntracked, this`kids, this`rank
      modifies this`attributeAllocs, this`attributesUntracked
      ensures Valid() && fresh(n) && n.kind == kind && n.value == value && n.attrs == attrs
      ensures kids == old(kids)[n := []] && unlinked == old(unlinked) + [n] && n.parent == null
      ensures rank == old(rank)[n := 0]
    {
      hide Linked, Ranked, Counted, AttributesCounted, NoRepeats;
      n := new DomNode(root, kind, value, attrs);
      Register(n);
    }

    /** `CreateAttribute`, as far as the counters of the attribute pool go. */
    method CreateAttribute()
      modifies this`attributeAllocs, this`attributesUntracked
      ensures attributeAllocs == old(attributeAllocs) + 1 && attributesUntracked == old(attributesUntracked)
    {
      attributeAllocs, attributesUntracked := attributeAllocs + 1, attributesUntracked + 1;
      attributesUntracked := attributesUntracked - 1;
    }

    method CreateAttributes(attrs: seq<(string, string)>)
      modifies this`attributeAllocs, this`attributesUntracked
      ensures attributeAllocs == old(attributeAllocs) + |attrs| && attributesUntracked == old(attributesUntracked)
    {
      for i := 0 to |attrs|
        invariant attributeAllocs == old(attributeAllocs) + i && attributesUntracked == old(attributesUntracked)
      {
        CreateAttribute();
      }
    }

    /** The loop of `~XMLElement`: every attribute goes back to its pool. */
    method FreeAttributes(attrs: seq<(string, string)>)
      modifies this`attributeAllocs
      ensures attributeAllocs == old(attributeAllocs) - |attrs|
    {
      for i := 0 to |attrs|
        invariant attributeAllocs == old(attributeAllocs) - i
      {
        attributeAllocs := attributeAllocs - 1;
      }
    }

    /** The memory of a node and of its attributes. */
    method TakeMemory(n: DomNode, ghost s: set<DomNode>)
      requires n !in s && Counted(currentAllocs, s) && AttributesCounted(attributeAllocs, attributesUntracked, s)
      modifies this`currentAllocs, this`attributeAllocs, this`attributesUntracked
      ensures Counted(currentAllocs, s + {n})
      ensures AttributesCounted(attributeAllocs, attributesUntracked, s + {n})
    {
      hide Counted, AttributesOf;
      CountedAdd(currentAllocs, s, n);
      AttributesAdd(s, n);
      currentAllocs := Stepped(currentAllocs, n.kind, 1);
      CreateAttributes(n.attrs);
    }

    /** The attributes are freed first, then the node. */
    method GiveBackMemory(n: DomNode, ghost s: set<DomNode>)
      requires n in s && Counted(currentAllocs, s) && AttributesCounted(attributeAllocs, attributesUntracked, s)
      modifies this`currentAllocs, this`attributeAllocs
      ensures Counted(currentAllocs, s - {n})
      ensures AttributesCounted(attributeAllocs, attributesUntracked, s - {n})
    {
      hide Counted, AttributesOf;
      CountedRemove(currentAllocs, s, n);
      AttributesAdd(s - {n}, n);
      assert s - {n} + {n} == s;
      FreeAttributes(n.attrs);
      currentAllocs := Stepped(currentAllocs, n.kind, -1);
    }

    /** The new node is counted as live and as untracked and is listed as unlinked. */
    method Register(n: DomNode)
      requires Valid() && n !in kids && n.kind != DocumentKind && n.document == root
      requires n.parent == null && n.prev == null && n.next == null && n.firstChild == null && n.lastChild == null
      modifies this`unlinked, this`currentAllocs, this`nUntracked, this`kids, this`rank
      modifies this`attributeAllocs, this`attributesUntracked
      ensures Valid() && kids == old(kids)[n := []] && unlinked == old(unlinked) + [n] && rank == old(rank)[n := 0]
    {
      hide Linked, Ranked, Counted, AttributesCounted, NoRepeats;
      assert n !in Elements(unlinked);
      LinkedNew(kids, n);
      RankedNew(kids, rank, n);
      AppendDistinct(unlinked, n);
      CountedAdd(nUntracked, Elements(unlinked) - {}, n);
      assert Elements(unlinked + [n]) - {} == Elements(unlinked) - {} + {n};
      assert kids[n := []].Keys - {root} == kids.Keys - {root} + {n};
      TakeMemory(n, kids.Keys - {root});
      nUntracked := Stepped(nUntracked, n.kind, 1);
      unlinked := unlinked + [n];
      kids := kids[n := []];
      rank := rank[n := 0];
    }

    method Unlink(p: DomNode, child: DomNode)
      requires Shape() && child in kids && child.parent == p
      modifies this`kids, kids.Keys
      ensures Shape() && kids == Detached(old(kids), child) && kids.Keys == old(kids).Keys && child.parent == null
      ensures forall n | n in kids && n != child :: n.parent == old(n.parent)
    {
      hide Linked, Detached, Ranked;
      ghost var was := kids;
      ParentIn(kids, child);
      NoListRepeats(kids);
      DetachedRanked(kids, rank, child);
      Detach(kids, p, child);
      kids := Detached(was, child);
    }

    /** The node leaves the unlinked list, if it is there; the last one takes its place. */
    method MarkInUse(node: DomNode)
      requires NoRepeats(unlinked)
      modifies this`unlinked
      ensures NoRepeats(unlinked) && Elements(unlinked) == Elements(old(unlinked)) - {node}
      ensures node !in old(unlinked) ==> unlinked == old(unlinked)
    {
      var i := 0;
      while i < |unlinked|
        invariant 0 <= i <= |unlinked| && unlinked == old(unlinked)
        invariant forall k | 0 <= k < i :: unlinked[k] != node
      {
        if node == unlinked[i] {
          SwapRemove(i);
          return;
        }
        i := i + 1;
      }
    }

    method SwapRemove(i: nat)
      requires i < |unlinked| && NoRepeats(unlinked)
      modifies this`unlinked
      ensures NoRepeats(unlinked) && Elements(unlinked) == Elements(old(unlinked)) - {old(unlinked)[i]}
    {
      var last := |unlinked| - 1;
      ghost var was := unlinked;
      unlinked := unlinked[i := unlinked[last]][..last];
      forall x | x in was && x != was[i] ensures x in unlinked {
        var k := Position(was, x);
        assert unlinked[if k == last then i else k] == x;
      }
    }

    /** The node leaves its parent, or the list of unlinked nodes. */
    method InsertChildPreamble(c: DomNode)
      requires Valid() && c in kids && c != root
      modifies this`unlinked, this`nUntracked, this`kids, kids.Keys
      ensures Shape() && AccountsBut({c}) && c !in unlinked && c.parent == null
      ensures kids == Detached(old(kids), c) && kids.Keys == old(kids).Keys
      ensures Elements(unlinked) == Elements(old(unlinked)) - {c}
    {
      hide Linked, Ranked, Detached, Counted, AttributesCounted;
      if c.parent != null {
        ParentIn(kids, c);
        assert c !in unlinked;
        Unlink(c.parent, c);
        assert Elements(unlinked) - {} == Elements(unlinked) - {c};
      } else {
        DetachedNothing(kids, c);
        assert c in Elements(unlinked) - {};
        CountedRemove(nUntracked, Elements(unlinked) - {}, c);
        MarkInUse(c);
        nUntracked := Stepped(nUntracked, c.kind, -1);
        assert Elements(unlinked) - {c} == Elements(old(unlinked)) - {} - {c};
        assert forall n | n in unlinked :: n in Elements(unlinked);
        assert forall n | n in old(unlinked) && n != c :: n in Elements(unlinked);
      }
    }

    /** Linking a parentless node whose subtree is `below`. */
    method LinkUnder(p: DomNode, c: DomNode, w: Where, ghost below: set<DomNode>)
      requires Shape() && AccountsBut({c}) && c !in unlinked && c.parent == null && c in kids && c != root && p in kids
      requires w.After? ==> w.sibling in kids[p] && w.sibling.next != null
      requires Closed(kids, below) && c in below
      modifies this`kids, this`rank, kids.Keys
      ensures Wired() && AccountsBut({}) && (p !in below ==> Ranked(kids, rank))
      ensures kids == Attached(old(kids), p, w, c) && kids.Keys == old(kids).Keys
    {
      hide Linked, Ranked, Attached, Counted, AttributesCounted, Closed, NoRepeats;
      Join(p, c, w, below);
      assert Elements(unlinked) - {c} == Elements(unlinked) - {};
    }

    method Join(p: DomNode, c: DomNode, w: Where, ghost below: set<DomNode>)
      requires Shape() && c.parent == null && c in kids && c != root && p in kids
      requires w.After? ==> w.sibling in kids[p] && w.sibling.next != null
      requires Closed(kids, below) && c in below
      modifies this`kids, this`rank, kids.Keys
      ensures Wired() && (p !in below ==> Ranked(kids, rank)) && c.parent == p
      ensures kids == Attached(old(kids), p, w, c) && kids.Keys == old(kids).Keys
      ensures forall n | n in kids && n != c :: n.parent == old(n.parent)
    {
      hide Linked, Ranked, Attached, Closed, NoRepeats, InsertAt, IndexFor;
      ghost var was := kids;
      AttachedRelates(kids, p, w, c);
      if p !in below {
        AttachedRanked(kids, rank, p, w, c, below);
        rank := Lifted(rank, below, rank[p]);
      }
      Attach(kids, p, c, w);
      kids := Attached(was, p, w, c);
    }

    predicate Mine(n: DomNode) {
      n == root || n.document == root
    }

    /** A move changes no list but by `c`, which is in `p`'s list only. */
    static ghost predicate OnlyMoved(was: Forest, now: Forest, p: DomNode, c: DomNode) {
      && now.Keys == was.Keys && p in was && c in now[p] && Without(now[p], c) == Without(was[p], c)
      && forall n | n in was && n != p :: c !in now[n] && now[n] == Without(was[n], c)
    }

    /** Where the moved node is, by the sequences and by the links. */
    static ghost predicate PlacedAs(was: Forest, now: Forest, p: DomNode, w: Where, c: DomNode)
      reads p`firstChild, p`lastChild, c`parent, c`prev, c`next, if w.After? then {w.sibling} else {}
    {
      && OnlyMoved(was, now, p, c) && c.parent == p
      && match w
         case Last => now[p] == Without(was[p], c) + [c] && p.lastChild == c && c.next == null
         case First => now[p] == [c] + Without(was[p], c) && p.firstChild == c && c.prev == null
         case After(x) => x.next == c && c.prev == x
    }

    lemma MovedLinks(c: DomNode, p: DomNode, belowItself: bool)
      requires Moved(c, p, belowItself)
      ensures Linked(kids)
    {
    }

    /** All links and accounts are right after a move. The nodes are a forest exactly when the node was not put
        below itself; otherwise there is a cycle. */
    ghost predicate Moved(c: DomNode, p: DomNode, belowItself: bool)
      reads this, kids.Keys
    {
      && Wired() && AccountsBut({}) && p in kids && c in kids[p]
      && (Ranked(kids, rank) <==> !belowItself)
    }

    /** The second part of an insertion: the node has left its list in `was`, and is linked at its new place. */
    method LinkMoved(p: DomNode, c: DomNode, w: Where, ghost was: Forest, ghost ranks: Ranks)
      requires Shape() && AccountsBut({c}) && c !in unlinked && c.parent == null && c in kids && c != root && p in kids
      requires Linked(kids) && kids == Detached(was, c) && kids.Keys == was.Keys
      requires Ranked(was, ranks) && rank == ranks && forall n | n in was :: NoRepeats(was[n])
      requires w.After? ==> w.sibling in kids[p] && w.sibling.next != null
      modifies this`kids, this`rank, kids.Keys
      ensures Moved(c, p, p in Subtree(was, ranks, c))
      ensures kids == Attached(Detached(was, c), p, w, c) && kids.Keys == was.Keys && PlacedAs(was, kids, p, w, c)
      ensures p in Subtree(was, ranks, c) ==> exists path :: IsCycle(kids, path)
    {
      hide Linked, Ranked, Detached, Attached, Counted, AttributesCounted, Subtree, Closed, NoRepeats, PlacedAs;
      ghost var below := Subtree(was, ranks, c);
      SubtreeClosed(was, ranks, c);
      DetachedRanked(was, ranks, c);
      OtherLinksStay(was, c, p, w);
      LinkUnder(p, c, w, below);
      if p in below {
        ghost var path := AttachedBelowItself(was, ranks, kids, p, c);
        RankedHasNoCycle(kids, rank, path);
      }
      MovedTo(was, kids, p, w, c);
    }

    /** A move or a first link: the node leaves its list and comes last among `p`'s children. A document has no
        pool, so inserting it dereferences null. */
    method InsertEndChild(p: DomNode, addThis: DomNode) returns (r: Outcome)
      requires Valid() && p in kids && (Mine(addThis) ==> addThis in kids)
      modifies this`unlinked, this`nUntracked, this`kids, this`rank, kids.Keys
      ensures r == NullDereference <==> addThis == root
      ensures !Mine(addThis) ==> r == Done(null) && Valid() && kids == old(kids) && unlinked == old(unlinked)
      ensures r.Done? && Mine(addThis) ==>
                && r == Done(addThis) && Moved(addThis, p, old(p in Subtree(kids, rank, addThis)))
                && kids == Attached(Detached(old(kids), addThis), p, Last, addThis) && kids.Keys == old(kids).Keys
                && OnlyMoved(old(kids), kids, p, addThis) && kids[p] == Without(old(kids)[p], addThis) + [addThis]
                && addThis.parent == p && p.lastChild == addThis && addThis.next == null
                && Elements(unlinked) == Elements(old(unlinked)) - {addThis}
                && (old(p in Subtree(kids, rank, addThis)) ==> exists path :: IsCycle(kids, path))
    {
      hide Linked, Ranked, Detached, Attached, Counted, AttributesCounted, Subtree, Closed, Moved, OnlyMoved;
      if !Mine(addThis) {
        return Done(null);
      }
      if addThis == root {
        return NullDereference;
      }
      ghost var was, ranks := kids, rank;
      NoListRepeats(kids);
      InsertChildPreamble(addThis);
      LinkMoved(p, addThis, Last, was, ranks);
      r := Done(addThis);
    }

    /** The same, as the first child. */
    method InsertFirstChild(p: DomNode, addThis: DomNode) returns (r: Outcome)
      requires Valid() && p in kids && (Mine(addThis) ==> addThis in kids)
      modifies this`unlinked, this`nUntracked, this`kids, this`rank, kids.Keys
      ensures r == NullDereference <==> addThis == root
      ensures !Mine(addThis) ==> r == Done(null) && Valid() && kids == old(kids) && unlinked == old(unlinked)
      ensures r.Done? && Mine(addThis) ==>
                && r == Done(addThis) && Moved(addThis, p, old(p in Subtree(kids, rank, addThis)))
                && kids == Attached(Detached(old(kids), addThis), p, First, addThis) && kids.Keys == old(kids).Keys
                && OnlyMoved(old(kids), kids, p, addThis) && kids[p] == [addThis] + Without(old(kids)[p], addThis)
                && addThis.parent == p && p.firstChild == addThis && addThis.prev == null
                && Elements(unlinked) == Elements(old(unlinked)) - {addThis}
                && (old(p in Subtree(kids, rank, addThis)) ==> exists path :: IsCycle(kids, path))
    {
      hide Linked, Ranked, Detached, Attached, Counted, AttributesCounted, Subtree, Closed, Moved, OnlyMoved;
      if !Mine(addThis) {
        return Done(null);
      }
      if addThis == root {
        return NullDereference;
      }
      ghost var was, ranks := kids, rank;
      NoListRepeats(kids);
      InsertChildPreamble(addThis);
      LinkMoved(p, addThis, First, was, ranks);
      r := Done(addThis);
    }

    /** `InsertAfterChild` reads the next sibling again after the node has left its list: when the node was that
        sibling, and the last child, it dereferences null, and else only for a document. */
    method InsertAfterChild(p: DomNode, afterThis: DomNode, addThis: DomNode) returns (r: Outcome)
      requires Valid() && p in kids && (Mine(addThis) ==> addThis in kids)
      requires afterThis.parent == p ==> afterThis in kids
      modifies this`unlinked, this`nUntracked, this`kids, this`rank, kids.Keys
      ensures r == NullDereference <==>
              && Mine(addThis) && old(afterThis.parent) == p && afterThis != addThis
              && (addThis == root || (old(afterThis.next) == addThis && old(addThis.next) == null))
      ensures !Mine(addThis) || old(afterThis.parent) != p ==> r == Done(null)
      ensures Mine(addThis) && old(afterThis.parent) == p && afterThis == addThis ==> r == Done(addThis)
      ensures !Mine(addThis) || old(afterThis.parent) != p || afterThis == addThis ==>
                Valid() && kids == old(kids) && unlinked == old(unlinked)
      ensures r.Done? && Mine(addThis) && old(afterThis.parent) == p && afterThis != addThis ==>
                && r == Done(addThis) && Moved(addThis, p, old(p in Subtree(kids, rank, addThis)))
                && afterThis in Detached(old(kids), addThis)[p] && kids.Keys == old(kids).Keys
                && kids == Attached(Detached(old(kids), addThis), p, After(afterThis), addThis)
                && OnlyMoved(old(kids), kids, p, addThis)
                && addThis.parent == p && afterThis.next == addThis && addThis.prev == afterThis
                && Elements(unlinked) == Elements(old(unlinked)) - {addThis}
                && (old(p in Subtree(kids, rank, addThis)) ==> exists path :: IsCycle(kids, path))
    {
      hide Linked, Ranked, Detached, Attached, Counted, AttributesCounted, Subtree, Closed, Holds, Moved, OnlyMoved;
      if !Mine(addThis) || afterThis.parent != p {
        return Done(null);
      }
      if afterThis == addThis {
        return Done(addThis);
      }
      AfterStays(kids, p, afterThis, addThis);
      if afterThis.next == null {
        ghost var was, ranks := kids, rank;
        NoListRepeats(kids);
        r := InsertEndChild(p, addThis);
        if addThis != root {
          MovedLinks(addThis, p, p in Subtree(was, ranks, addThis));
          MovedTo(was, kids, p, After(afterThis), addThis);
        }
        return;
      }
      if addThis == root {
        return NullDereference;
      }
      ghost var was, ranks := kids, rank;
      NoListRepeats(kids);
      InsertChildPreamble(addThis);
      NextOf(kids, p, afterThis);
      if afterThis.next == null {
        return NullDereference;
      }
      LinkMoved(p, addThis, After(afterThis), was, ranks);
      r := Done(addThis);
    }

    /** Where a moved node stands, by its links. */
    lemma MovedTo(was: Forest, now: Forest, p: DomNode, w: Where, c: DomNode)
      requires (forall n | n in was :: NoRepeats(was[n])) && p in was && now.Keys == was.Keys
      requires w.After? ==> w.sibling in Detached(was, c)[p]
      requires now == Attached(Detached(was, c), p, w, c) && Linked(now)
      ensures PlacedAs(was, now, p, w, c)
    {
      hide Linked, NoRepeats, RemoveAt, Without, InsertAt;
      var s := Without(was[p], c);
      forall n | n in was ensures c !in Without(was[n], c) && NoRepeats(Without(was[n], c)) {
        WithoutMembers(was[n], c);
      }
      var i := IndexFor(s, w);
      WithoutInserted(s, i, c);
      InsertMembers(s, i, c);
      ChildOf(now, p, c);
      PositionIs(now[p], c, i);
      Neighbours(now, p, i);
      match w {
        case Last => AttachedLast(Detached(was, c), p, c);
        case First => InsertedFirst(s, c);
        case After(x) => assert now[p][i - 1] == x;
      }
    }

    // ----- Deleting -----

    /** `XMLNode::DeleteNode`, for a node that has left its parent: its children go first, then its memory is
        given back. What is gone is its subtree. */
    method DeleteLoose(node: DomNode, ghost but: set<DomNode>) returns (ghost gone: set<DomNode>)
      requires Shape() && AccountsBut(but + {node}) && node in kids && node != root && node.parent == null
      modifies this`unlinked, this`currentAllocs, this`attributeAllocs, this`kids, this`rank, kids.Keys
      ensures Shape() && AccountsBut(but) && IsSubtree(old(kids), old(rank), node, gone)
      ensures kids == old(kids) - gone && rank == old(rank) - gone
      ensures Elements(unlinked) == Elements(old(unlinked)) - {node}
      ensures node !in old(unlinked) ==> unlinked == old(unlinked)
      ensures forall n | n in kids :: n.parent == old(n.parent)
      decreases Higher(rank, node), 2
    {
      hide Linked, Ranked, Counted, AttributesCounted, IsSubtree, AreSubtrees, Higher, NoRepeats;
      ghost var was, ranks, u := kids, rank, Elements(unlinked);
      MarkInUse(node);
      assert Elements(unlinked) - (but + {node}) == u - (but + {node});
      gone := DeleteChildren(node, but + {node});
      SubtreeOf(was, ranks, node, gone);
      assert kids - {node} == was - (gone + {node}) && rank - {node} == ranks - (gone + {node});
      Free(node, but);
      gone := gone + {node};
    }

    /** The memory of a node without children and parent. */
    method Free(node: DomNode, ghost but: set<DomNode>)
      requires Shape() && AccountsBut(but + {node}) && node !in Elements(unlinked)
      requires node in kids && node != root && node.parent == null && kids[node] == []
      modifies this`currentAllocs, this`attributeAllocs, this`kids, this`rank
      ensures Shape() && AccountsBut(but) && kids == old(kids) - {node} && rank == old(rank) - {node}
    {
      hide Linked, Ranked, Counted, AttributesCounted, NoRepeats;
      LinkedLess(kids, node);
      NobodysChild(kids, node);
      RankedLess(kids, rank, node);
      assert (kids - {node}).Keys - {root} == kids.Keys - {root} - {node};
      assert Elements(unlinked) - (but + {node}) == Elements(unlinked) - but;
      GiveBackMemory(node, kids.Keys - {root});
      kids := kids - {node};
      rank := rank - {node};
    }

    method DeleteChildren(n: DomNode, ghost but: set<DomNode>) returns (ghost gone: set<DomNode>)
      requires Shape() && AccountsBut(but) && n in kids
      modifies this`unlinked, this`currentAllocs, this`attributeAllocs, this`kids, this`rank, kids.Keys
      ensures Shape() && AccountsBut(but) && unlinked == old(unlinked)
      ensures AreSubtrees(old(kids), old(rank), n, |old(kids)[n]|, gone)
      ensures kids == (old(kids) - gone)[n := []] && rank == old(rank) - gone
      ensures forall m | m in kids :: m.parent == old(m.parent)
      decreases Higher(rank, n), 1
    {
      hide Linked, Ranked, Counted, AttributesCounted, Closed, Grounded, AreSubtrees, Higher;
      ghost var was, ranks, s, k := kids, rank, kids[n], 0;
      gone := {};
      assert s[0..] == s && kids == (was - gone)[n := s];
      NoSubtrees(was, ranks, n);
      while n.firstChild != null
        invariant Shape() && AccountsBut(but) && unlinked == old(unlinked) && n in kids
        invariant k <= |s| && AreSubtrees(was, ranks, n, k, gone)
        invariant kids == (was - gone)[n := s[k..]] && rank == ranks - gone
        invariant forall m | m in kids :: m.parent == old(m.parent)
        decreases |s| - k
      {
        FirstOf(kids, n);
        FewerHigher(ranks, gone, n);
        ghost var now := kids;
        DetachedFirst(now, n);
        ghost var c := DeleteChild(n, n.firstChild, but);
        OneMore(was, ranks, n, k, gone, now, c);
        StillThere(was, ranks, gone, n, k, now, c);
        gone := gone + c;
        k := k + 1;
      }
      FirstOf(kids, n);
      assert k == |s| && s[k..] == [];
      n.firstChild, n.lastChild := null, null;
    }

    method DeleteChild(p: DomNode, node: DomNode, ghost but: set<DomNode>) returns (ghost gone: set<DomNode>)
      requires Shape() && AccountsBut(but) && node in kids && node.parent == p
      modifies this`unlinked, this`currentAllocs, this`attributeAllocs, this`kids, this`rank, kids.Keys
      ensures Shape() && AccountsBut(but) && unlinked == old(unlinked)
      ensures IsSubtree(old(kids), old(rank), node, gone) && p !in gone
      ensures kids == Detached(old(kids), node) - gone && rank == old(rank) - gone
      ensures forall n | n in kids :: n.parent == old(n.parent)
      decreases Higher(rank, p), 0
    {
      hide Linked, Ranked, Counted, AttributesCounted, IsSubtree, Higher, Detached;
      ghost var was, ranks := kids, rank;
      ParentIn(kids, node);
      DetachedRelates(kids, p, node);
      HigherThanParent(kids, rank, p, node);
      Unlink(p, node);
      assert node !in unlinked;
      assert Elements(unlinked) - but == Elements(unlinked) - (but + {node});
      gone := DeleteLoose(node, but);
      SubtreeOfDetached(was, ranks, p, node, gone);
    }

    /** `XMLDocument::DeleteNode`: the node and all below it are gone, and nothing else. */
    method DeleteNode(node: DomNode)
      requires Valid() && node in kids && node != root
      modifies this`unlinked, this`currentAllocs, this`nUntracked, this`kids, this`rank, kids.Keys
      modifies this`attributeAllocs
      ensures Valid() && kids == Detached(old(kids), node) - Subtree(old(kids), old(rank), node)
      ensures Elements(unlinked) == Elements(old(unlinked)) - {node}
      ensures root in kids && node !in kids && kids.Keys < old(kids).Keys
    {
      hide Linked, Ranked, Counted, AttributesCounted, Subtree, Closed, Grounded, Detached;
      ghost var was, ranks, gone := kids, rank, {};
      if node.parent != null {
        assert node !in Elements(unlinked);
        gone := DeleteChild(node.parent, node, {});
      } else {
        DetachedNothing(kids, node);
        assert Elements(unlinked) - {} - {node} == Elements(unlinked) - ({} + {node});
        assert node in Elements(unlinked) - {};
        CountedRemove(nUntracked, Elements(unlinked) - {}, node);
        nUntracked := Stepped(nUntracked, node.kind, -1);
        gone := DeleteLoose(node, {});
      }
      SubtreeUnique(was, ranks, node, gone);
      DetachedKeys(was, node);
    }

    /** Everything is deleted, linked or not, and all counters are back at zero. */
    method Clear()
      requires Valid()
      modifies this`unlinked, this`currentAllocs, this`nUntracked, this`kids, this`rank, kids.Keys
      modifies this`attributeAllocs
      ensures Valid() && kids == map[root := []] && unlinked == []
      ensures forall p: Pool :: p in currentAllocs && currentAllocs[p] == 0 && p in nUntracked && nUntracked[p] == 0
      ensures attributeAllocs == 0 && attributesUntracked == 0
    {
      hide Linked, Ranked, Counted, AttributesCounted, Subtree, Detached;
      ghost var gone := DeleteChildren(root, {});
      assert kids[root] == [];
      while |unlinked| > 0
        invariant Valid() && kids.Keys <= old(kids).Keys && kids[root] == []
        decreases kids.Keys
      {
        assert unlinked[0] in Elements(unlinked);
        EmptyDetached(kids, root, unlinked[0]);
        DeleteNode(unlinked[0]);
      }
      OnlyRoot();
      CountersZero();
    }

    /** With no child of the root and nothing unlinked, there is nothing left. */
    lemma OnlyRoot()
      requires Valid() && kids[root] == [] && unlinked == []
      ensures kids == map[root := []]
    {
      hide Linked, Ranked, Counted, AttributesCounted;
      forall n | n in kids ensures n == root {
        UpToRoot(n);
      }
    }

    lemma {:induction false} UpToRoot(n: DomNode)
      requires Valid() && kids[root] == [] && unlinked == [] && n in kids
      ensures n == root
      decreases rank[n]
    {
      hide Counted, AttributesCounted, NoRepeats;
      if n != root {
        assert n !in Elements(unlinked);
        ParentIn(kids, n);
        UpToRoot(n.parent);
      }
    }

    lemma CountersZero()
      requires Valid() && kids == map[root := []] && unlinked == []
      ensures forall p: Pool :: p in currentAllocs && currentAllocs[p] == 0 && p in nUntracked && nUntracked[p] == 0
      ensures attributeAllocs == 0 && attributesUntracked == 0
    {
      assert kids.Keys - {root} == {} && Elements(unlinked) - {} == {};
      forall p: Pool ensures |Of({}, p)| == 0 {
        assert Of({}, p) == {};
      }
    }
  }

  lemma EmptyDetached(kids: Forest, n: DomNode, c: DomNode)
    requires n in kids && kids[n] == []
    ensures n in Detached(kids, c) && Detached(kids, c)[n] == []
  {
  }

  lemma StillThere(was: Forest, ranks: Ranks, gone: set<DomNode>, n: DomNode, k: nat, now: Forest, c: set<DomNode>)
    requires n in was && k < |was[n]| && now == (was - gone)[n := was[n][k..]] && n !in c && n !in gone
    ensures now[n := now[n][1..]] - c == (was - (gone + c))[n := was[n][k + 1..]]
    ensures ranks - gone - c == ranks - (gone + c)
  {
    assert was[n][k..][1..] == was[n][k + 1..];
  }

  /** The ends of a child list, and the parent of its first child. */
  lemma FirstOf(kids: Forest, n: DomNode)
    requires Linked(kids) && n in kids
    ensures n.firstChild == (if kids[n] == [] then null else kids[n][0])
            && (n.firstChild == null <==> n.lastChild == null)
    ensures kids[n] != [] ==> kids[n][0] in kids && kids[n][0].parent == n
  {
    assert Holds(n, kids[n]);
    if kids[n] != [] {
      assert Sits(n, kids[n], 0);
      assert kids[n][0] in kids[n];
    }
  }

  lemma DetachedFirst(kids: Forest, n: DomNode)
    requires Linked(kids) && n in kids && kids[n] != []
    ensures Detached(kids, kids[n][0]) == kids[n := kids[n][1..]]
  {
    FirstOf(kids, n);
    DetachedRelates(kids, n, kids[n][0]);
    PositionIs(kids[n], kids[n][0], 0);
    assert RemoveAt(kids[n], 0) == kids[n][1..];
  }

  /** A node without parent and children leaves no link behind. */
  lemma LinkedLess(kids: Forest, n: DomNode)
    requires Linked(kids) && n in kids && kids[n] == [] && n.parent == null
    ensures Linked(kids - {n})
  {
    var now := kids - {n};
    forall m, c | m in now && c in now[m] ensures c in now {
      ChildOf(kids, m, c);
    }
    forall m | m in now ensures Holds(m, now[m]) && Placed(now, m) {
      assert Holds(m, kids[m]) && Placed(kids, m);
    }
  }

  lemma RankedLess(kids: Forest, rank: Ranks, n: DomNode)
    requires Ranked(kids, rank) && forall m | m in kids :: n !in kids[m]
    ensures Ranked(kids - {n}, rank - {n})
  {
  }

  /** A child's link to its next sibling, from its place in the list. */
  lemma NextOf(kids: Forest, p: DomNode, x: DomNode)
    requires Linked(kids) && p in kids && x in kids[p]
    ensures NoRepeats(kids[p])
    ensures var i := Position(kids[p], x); x.next == if i + 1 < |kids[p]| then kids[p][i + 1] else null
  {
    assert Holds(p, kids[p]);
    assert Sits(p, kids[p], Position(kids[p], x));
  }

  /** The links at place `i` of a list. */
  lemma Neighbours(kids: Forest, p: DomNode, i: nat)
    requires Linked(kids) && p in kids && i < |kids[p]|
    ensures var s := kids[p];
            && (i == 0 ==> p.firstChild == s[i] && s[i].prev == null)
            && (i > 0 ==> s[i].prev == s[i - 1] && s[i - 1].next == s[i])
            && (i + 1 == |s| ==> p.lastChild == s[i] && s[i].next == null)
  {
    assert Holds(p, kids[p]);
    assert Sits(p, kids[p], i);
    if i > 0 { assert Sits(p, kids[p], i - 1); }
  }

  lemma InsertedFirst<T>(s: seq<T>, x: T)
    ensures InsertAt(s, 0, x) == [x] + s
  {
    assert s[..0] == [] && s[0..] == s;
  }

  /** What follows `after` when another node has left the list. */
  lemma AfterStays(kids: Forest, p: DomNode, after: DomNode, c: DomNode)
    requires Linked(kids) && p in kids && after in kids && c in kids && after.parent == p && after != c
    ensures after in kids[p] && p in Detached(kids, c) && after in Detached(kids, c)[p]
    ensures var s := Detached(kids, c)[p];
            Position(s, after) + 1 == |s| <==> after.next == null || (after.next == c && c.next == null)
    ensures after.next == null ==>
              Attached(Detached(kids, c), p, Last, c) == Attached(Detached(kids, c), p, After(after), c)
  {
    hide Position, Without, NoRepeats, Linked;
    ParentIn(kids, after);
    NextOf(kids, p, after);
    var s := kids[p];
    LastWithout(s, after, c);
    assert Detached(kids, c)[p] == Without(s, c);
    if after.next == c {
      NextOf(kids, p, c);
      PositionIs(s, c, Position(s, after) + 1);
    }
  }

  lemma NobodysChild(kids: Forest, c: DomNode)
    requires Linked(kids) && c.parent == null
    ensures forall n | n in kids :: c !in kids[n]
  {
    forall n | n in kids ensures c !in kids[n] {
      if c in kids[n] {
        ChildOf(kids, n, c);
      }
    }
  }

  /** Moving a node keeps all links but those to it. */
  lemma OtherLinksStay(kids: Forest, c: DomNode, p: DomNode, w: Where)
    requires p in kids && (forall n | n in kids :: NoRepeats(kids[n]))
    requires var d := Detached(kids, c); p in d && (w.After? ==> w.sibling in d[p])
    ensures var now := Attached(Detached(kids, c), p, w, c);
            && c in now[p] && forall m | m in kids :: m in now && forall x | x in kids[m] && x != c :: x in now[m]
  {
    hide InsertAt, RemoveAt;
    forall m | m in kids ensures NoRepeats(Detached(kids, c)[m]) && c !in Detached(kids, c)[m] {
      WithoutMembers(kids[m], c);
    }
    forall m, x | m in kids && x in kids[m] && x != c ensures x in Detached(kids, c)[m] {
      WithoutMembers(kids[m], c);
    }
    AttachedMembers(Detached(kids, c), p, w, c);
  }

  lemma DetachedNothing(kids: Forest, c: DomNode)
    requires Linked(kids) && c.parent == null
    ensures Detached(kids, c) == kids
  {
    NobodysChild(kids, c);
  }

  lemma LinkedNew(kids: Forest, n: DomNode)
    requires Linked(kids) && n !in kids && n.parent == null && n.prev == null && n.next == null
    requires n.firstChild == null && n.lastChild == null
    ensures Linked(kids[n := []])
  {
    var now := kids[n := []];
    forall m | m in now ensures Holds(m, now[m]) && Placed(now, m) {
      assert m != n ==> Holds(m, kids[m]) && Placed(kids, m);
    }
  }

  lemma RankedNew(kids: Forest, rank: Ranks, n: DomNode)
    requires Ranked(kids, rank) && n !in kids
    ensures Ranked(kids[n := []], rank[n := 0])
  {
  }

  lemma NoListRepeats(kids: Forest)
    requires Linked(kids)
    ensures forall n | n in kids :: NoRepeats(kids[n])
  {
    forall n | n in kids ensures NoRepeats(kids[n]) {
      assert Holds(n, kids[n]);
    }
  }

  // ----- What callers can run into -----

  /** A new document with the children `a` and `b`. */
  method TwoChildren() returns (d: Document, a: DomNode, b: DomNode)
    ensures fresh(d) && fresh(d.kids.Keys) && d.Valid() && a != b && a in d.kids && b in d.kids && d.Mine(a)
            && d.Mine(b)
    ensures d.kids[d.root] == [a, b] && d.kids[a] == [] && d.kids[b] == []
  {
    hide Linked, Ranked, Counted, AttributesCounted, Subtree, Detached, Attached;
    d := new Document();
    a := d.CreateUnlinkedNode(ElementKind, "a", []);
    Append(d, a);
    b := d.CreateUnlinkedNode(ElementKind, "b", []);
    Append(d, b);
  }

  /** A node that is in no list becomes the root's last child. */
  method Append(d: Document, n: DomNode)
    requires d.Valid() && n in d.kids && n != d.root && n.parent == null && d.Mine(n)
    modifies d, d.kids.Keys
    ensures d.Valid() && d.kids == old(d.kids[d.root := d.kids[d.root] + [n]])
  {
    hide Linked, Ranked, Counted, AttributesCounted, Subtree, Detached, Attached;
    NobodysChild(d.kids, d.root);
    OutsideSubtree(d.kids, d.rank, d.root, n);
    DetachedNothing(d.kids, n);
    AttachedLast(d.kids, d.root, n);
    var r := d.InsertEndChild(d.root, n);
  }

  lemma AttachedLast(kids: Forest, p: DomNode, c: DomNode)
    requires p in kids
    ensures Attached(kids, p, Last, c) == kids[p := kids[p] + [c]]
  {
    var s := kids[p];
    assert s[..|s|] == s && s[|s|..] == [] && IndexFor(s, Last) == |s|;
    assert InsertAt(s, |s|, c) == s + [c];
  }

  /** Moving the last child behind the one before it dereferences null. */
  method MoveLastBehindItsPrevious() returns (r: Outcome)
    ensures r == NullDereference
  {
    hide Linked, Ranked, Counted, AttributesCounted, Subtree, Position;
    var d, a, b := TwoChildren();
    var s := [a, b];
    NextOf(d.kids, d.root, a);
    NextOf(d.kids, d.root, b);
    PositionIs(s, a, 0);
    PositionIs(s, b, 1);
    ChildOf(d.kids, d.root, a);
    r := d.InsertAfterChild(d.root, a, b);
  }

  /** Inserting a node into itself is accepted and makes a cycle. */
  method InsertIntoItself() returns (d: Document, a: DomNode, r: Outcome)
    ensures r == Done(a) && a in d.kids && a in d.kids[a] && !d.Valid() && exists path :: IsCycle(d.kids, path)
  {
    hide Linked, Counted, AttributesCounted, Detached, Attached;
    var b;
    d, a, b := TwoChildren();
    assert a in Subtree(d.kids, d.rank, a);
    r := d.InsertEndChild(a, a);
  }
}
