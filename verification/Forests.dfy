/** What the child lists of a document amount to: a forest without cycles, its subtrees and its values. */
module Forests {
  import opened Seqs
  import opened ChildLists

  type Ranks = map<DomNode, nat>

  /** Children have a higher rank, so no node is below itself. */
  ghost predicate Ranked(kids: Forest, rank: Ranks) {
    && rank.Keys == kids.Keys
    && forall n | n in kids :: forall c | c in kids[n] :: c in rank && rank[n] < rank[c]
  }

  /** The nodes that can be below `n`. */
  ghost function Higher(rank: Ranks, n: DomNode): set<DomNode> {
    set m | m in rank && n in rank && rank[n] < rank[m]
  }

  lemma HigherShrinks(rank: Ranks, n: DomNode, c: DomNode)
    requires n in rank && c in rank && rank[n] < rank[c]
    ensures Higher(rank, c) < Higher(rank, n)
  {
    assert c in Higher(rank, n) && c !in Higher(rank, c);
  }

  /** A node and all that is below it. */
  ghost function Subtree(kids: Forest, rank: Ranks, n: DomNode): (r: set<DomNode>)
    requires Ranked(kids, rank) && n in kids
    ensures n in r && r <= kids.Keys
    decreases Higher(rank, n)
  {
    {n} + set c, x | c in kids[n] && x in Below(kids, rank, n, c) :: x
  }

  ghost function Below(kids: Forest, rank: Ranks, n: DomNode, c: DomNode): (r: set<DomNode>)
    requires Ranked(kids, rank) && n in kids && c in kids[n]
    ensures r <= kids.Keys
    decreases Higher(rank, n), 0
  {
    HigherShrinks(rank, n, c);
    Subtree(kids, rank, c)
  }

  ghost predicate Closed(kids: Forest, s: set<DomNode>) {
    forall n | n in s && n in kids :: forall c | c in kids[n] :: c in s
  }

  /** Every member but `n` is a child of a member. */
  ghost predicate Grounded(kids: Forest, s: set<DomNode>, n: DomNode) {
    forall x | x in s && x != n :: exists p | p in s && p in kids :: x in kids[p]
  }

  /** Whatever is closed contains the subtrees of its members. */
  lemma {:induction false} SubtreeLeast(kids: Forest, rank: Ranks, n: DomNode, s: set<DomNode>)
    requires Ranked(kids, rank) && n in kids && n in s && Closed(kids, s)
    ensures Subtree(kids, rank, n) <= s
    decreases Higher(rank, n)
  {
    forall c | c in kids[n] ensures Below(kids, rank, n, c) <= s {
      HigherShrinks(rank, n, c);
      SubtreeLeast(kids, rank, c, s);
    }
  }

  lemma {:induction false} SubtreeClosed(kids: Forest, rank: Ranks, n: DomNode)
    requires Ranked(kids, rank) && n in kids
    ensures Closed(kids, Subtree(kids, rank, n))
    decreases Higher(rank, n)
  {
    var s := Subtree(kids, rank, n);
    forall m, x | m in s && m in kids && x in kids[m] ensures x in s {
      if m == n {
        assert x in Below(kids, rank, n, x);
      } else {
        var c :| c in kids[n] && m in Below(kids, rank, n, c);
        HigherShrinks(rank, n, c);
        SubtreeClosed(kids, rank, c);
        assert x in Below(kids, rank, n, c);
      }
    }
  }

  /** What is closed and grounded in `n` is the subtree of `n`. */
  lemma SubtreeUnique(kids: Forest, rank: Ranks, n: DomNode, s: set<DomNode>)
    requires Ranked(kids, rank) && n in kids && n in s && s <= kids.Keys && Closed(kids, s) && Grounded(kids, s, n)
    ensures s == Subtree(kids, rank, n)
  {
    SubtreeLeast(kids, rank, n, s);
    forall x | x in s ensures x in Subtree(kids, rank, n) {
      GroundedBelow(kids, rank, n, s, x);
    }
  }

  lemma {:induction false} GroundedBelow(kids: Forest, rank: Ranks, n: DomNode, s: set<DomNode>, x: DomNode)
    requires Ranked(kids, rank) && n in kids && s <= kids.Keys && Grounded(kids, s, n) && x in s
    ensures x in Subtree(kids, rank, n)
    decreases rank[x]
  {
    hide Subtree;
    if x != n {
      var p :| p in s && p in kids && x in kids[p];
      GroundedBelow(kids, rank, n, s, p);
      SubtreeClosed(kids, rank, n);
    } else {
      assert n in Subtree(kids, rank, n);
    }
  }

  // ----- Moving -----

  /** The ranks when everything in `s` is lifted above `base`. */
  ghost function Lifted(rank: Ranks, s: set<DomNode>, base: nat): Ranks {
    map n | n in rank :: if n in s then rank[n] + base + 1 else rank[n]
  }

  /** A node that is not an ancestor of its new parent can be linked without making a cycle. */
  lemma AttachedRanked(kids: Forest, rank: Ranks, p: DomNode, w: Where, c: DomNode, s: set<DomNode>)
    requires Ranked(kids, rank) && p in kids && c in kids && (w.After? ==> w.sibling in kids[p])
    requires NoRepeats(kids[p]) && c !in kids[p]
    requires Closed(kids, s) && c in s && p !in s
    ensures p in rank && Ranked(Attached(kids, p, w, c), Lifted(rank, s, rank[p]))
  {
    hide Attached;
    AttachedMembers(kids, p, w, c);
    var now, up := Attached(kids, p, w, c), Lifted(rank, s, rank[p]);
    forall n, x | n in now && x in now[n] ensures x in up && up[n] < up[x] {
      assert x in kids[n] || (n == p && x == c);
    }
  }

  ghost predicate IsPath(kids: Forest, path: seq<DomNode>) {
    forall i | 0 <= i < |path| - 1 :: path[i] in kids && path[i + 1] in kids[path[i]]
  }

  /** A way down that comes back to its first node. */
  ghost predicate IsCycle(kids: Forest, path: seq<DomNode>) {
    |path| >= 2 && path[0] == path[|path| - 1] && IsPath(kids, path)
  }

  /** There is a way down to every node of a subtree, and the ranks grow on it. */
  lemma {:induction false} PathDown(kids: Forest, rank: Ranks, n: DomNode, x: DomNode) returns (path: seq<DomNode>)
    requires Ranked(kids, rank) && n in kids && x in Subtree(kids, rank, n)
    ensures path != [] && path[0] == n && path[|path| - 1] == x && IsPath(kids, path)
    ensures forall i | 0 < i < |path| :: path[i] in rank && rank[n] < rank[path[i]]
    decreases Higher(rank, n)
  {
    path := [n];
    if x != n {
      var c :| c in kids[n] && x in Below(kids, rank, n, c);
      HigherShrinks(rank, n, c);
      var rest := PathDown(kids, rank, c, x);
      path := path + rest;
    }
  }

  /** With ranks there is no cycle. */
  lemma RankedHasNoCycle(kids: Forest, rank: Ranks, path: seq<DomNode>)
    ensures IsCycle(kids, path) ==> !Ranked(kids, rank)
  {
    if Ranked(kids, rank) && |path| >= 2 && IsPath(kids, path) {
      PathGrows(kids, rank, path, |path| - 1);
    }
  }

  lemma {:induction false} PathGrows(kids: Forest, rank: Ranks, path: seq<DomNode>, i: nat)
    requires Ranked(kids, rank) && IsPath(kids, path) && 0 < i < |path|
    ensures path[0] in rank && path[i] in rank && rank[path[0]] < rank[path[i]]
  {
    assert path[i - 1] in kids && path[i - 1 + 1] in kids[path[i - 1]];
    if i > 1 {
      PathGrows(kids, rank, path, i - 1);
    }
  }

  /** A node that is linked under one of its own subtree ends up below itself. */
  lemma AttachedBelowItself(kids: Forest, rank: Ranks, now: Forest, p: DomNode, c: DomNode) returns (path: seq<DomNode>)
    requires Ranked(kids, rank) && c in kids && p in Subtree(kids, rank, c) && p in now && c in now[p]
    requires forall m | m in kids :: m in now && forall x | x in kids[m] && x != c :: x in now[m]
    ensures IsCycle(now, path)
  {
    hide Subtree;
    path := PathDown(kids, rank, c, p);
    forall i | 0 <= i < |path| - 1 ensures path[i] in now && path[i + 1] in now[path[i]] {
      assert path[i] in kids && path[i + 1] in kids[path[i]] && path[i + 1] != c;
    }
    path := path + [c];
  }

  /** A node that is in no list is in no other subtree. */
  lemma OutsideSubtree(kids: Forest, rank: Ranks, p: DomNode, c: DomNode)
    requires Ranked(kids, rank) && p in kids && c in kids && p != c && forall n | n in kids :: p !in kids[n]
    ensures p !in Subtree(kids, rank, c)
  {
    var s := kids.Keys - {p};
    assert Closed(kids, s) by {
      forall n, x | n in s && n in kids && x in kids[n] ensures x in s {
        assert x in rank;
      }
    }
    SubtreeLeast(kids, rank, c, s);
  }

  lemma DetachedRanked(kids: Forest, rank: Ranks, c: DomNode)
    requires Ranked(kids, rank) && forall n | n in kids :: NoRepeats(kids[n])
    ensures Ranked(Detached(kids, c), rank)
    ensures forall s: set<DomNode> | Closed(kids, s) :: Closed(Detached(kids, c), s)
  {
    forall n | n in kids ensures forall x | x in Detached(kids, c)[n] :: x in kids[n] {
      WithoutMembers(kids[n], c);
    }
  }

  // ----- Deleting -----

  /** `gone` is the subtree of `n`. */
  ghost predicate IsSubtree(kids: Forest, rank: Ranks, n: DomNode, gone: set<DomNode>) {
    && n in gone && gone <= kids.Keys && Closed(kids, gone) && Grounded(kids, gone, n)
    && forall x | x in gone :: x in rank && n in rank && rank[n] <= rank[x]
  }

  /** `gone` is what the subtrees of the first `k` children of `n` hold. */
  ghost predicate AreSubtrees(kids: Forest, rank: Ranks, n: DomNode, k: nat, gone: set<DomNode>) {
    && n in kids && n !in gone && gone <= kids.Keys && Closed(kids, gone) && Grounded(kids, gone + {n}, n)
    && (forall x | x in gone :: x in rank && n in rank && rank[n] < rank[x])
    && k <= |kids[n]| && forall j | 0 <= j < k :: kids[n][j] in gone
  }

  lemma NoSubtrees(kids: Forest, rank: Ranks, n: DomNode)
    requires n in kids
    ensures AreSubtrees(kids, rank, n, 0, {})
  {
  }

  lemma SubtreeOf(kids: Forest, rank: Ranks, n: DomNode, gone: set<DomNode>)
    requires Ranked(kids, rank) && n in kids && AreSubtrees(kids, rank, n, |kids[n]|, gone)
    ensures IsSubtree(kids, rank, n, gone + {n}) && n !in gone && gone <= kids.Keys
  {
  }

  /** The next child's subtree, as it is when the ones before are gone. */
  lemma OneMore(kids: Forest, rank: Ranks, n: DomNode, k: nat, gone: set<DomNode>, now: Forest, c: set<DomNode>)
    requires Ranked(kids, rank) && n in kids && k < |kids[n]| && AreSubtrees(kids, rank, n, k, gone)
    requires now == (kids - gone)[n := kids[n][k..]] && n !in c && IsSubtree(now, rank - gone, kids[n][k], c)
    ensures AreSubtrees(kids, rank, n, k + 1, gone + c)
  {
  }

  lemma FewerHigher(rank: Ranks, gone: set<DomNode>, n: DomNode)
    ensures Higher(rank - gone, n) <= Higher(rank, n)
  {
  }

  lemma HigherThanParent(kids: Forest, rank: Ranks, p: DomNode, c: DomNode)
    requires Ranked(kids, rank) && p in kids && c in kids[p]
    ensures Higher(rank, c) < Higher(rank, p)
  {
    HigherShrinks(rank, p, c);
  }

  /** The subtree of a node is the same before the node leaves its list. */
  lemma SubtreeOfDetached(kids: Forest, rank: Ranks, p: DomNode, c: DomNode, gone: set<DomNode>)
    requires Ranked(kids, rank) && p in kids && c in kids[p]
    requires IsSubtree(Detached(kids, c), rank, c, gone)
    requires forall n | n in kids && n != p :: Detached(kids, c)[n] == kids[n]
    requires forall x | x in Detached(kids, c)[p] :: x in kids[p]
    ensures IsSubtree(kids, rank, c, gone) && p !in gone
  {
  }
}
