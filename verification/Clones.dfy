/** `DeepClone` and `DeepCopy`: a clone has new nodes and the same value, and what was there stays as it was. */
module Clones {
  import opened Seqs
  import opened Entries
  import opened ChildLists
  import opened Forests
  import opened Documents

  /** What a node and all below it amount to, without identities. */
  datatype Image = Image(kind: DomKind, value: string, attrs: seq<(string, string)>, children: seq<Image>)

  ghost function ImageOf(kids: Forest, rank: Ranks, n: DomNode): (r: Image)
    requires Ranked(kids, rank) && n in kids
    ensures |r.children| == |kids[n]|
    decreases Higher(rank, n), 1, 0
  {
    Image(n.kind, n.value, n.attrs, ImagesOf(kids, rank, n, |kids[n]|))
  }

  /** The images of the first `k` children. */
  ghost function ImagesOf(kids: Forest, rank: Ranks, n: DomNode, k: nat): (r: seq<Image>)
    requires Ranked(kids, rank) && n in kids && k <= |kids[n]|
    ensures |r| == k
    decreases Higher(rank, n), 0, k
  {
    if k == 0 then []
    else
      var c := kids[n][k - 1];
      assert c in kids[n];
      HigherShrinks(rank, n, c);
      ImagesOf(kids, rank, n, k - 1) + [ImageOf(kids, rank, c)]
  }

  /** The image of a node depends only on the lists below it. */
  lemma {:induction false} SameImage(kids: Forest, rank: Ranks, kids': Forest, rank': Ranks, s: set<DomNode>,
                                     n: DomNode)
    requires Ranked(kids, rank) && Ranked(kids', rank') && Closed(kids, s) && n in s && s <= kids.Keys
    requires forall m | m in s :: m in kids' && kids'[m] == kids[m]
    ensures ImageOf(kids', rank', n) == ImageOf(kids, rank, n)
    decreases Higher(rank, n), 1, 0
  {
    SameImages(kids, rank, kids', rank', s, n, |kids[n]|);
  }

  lemma {:induction false} SameImages(kids: Forest, rank: Ranks, kids': Forest, rank': Ranks, s: set<DomNode>,
                                      n: DomNode, k: nat)
    requires Ranked(kids, rank) && Ranked(kids', rank') && Closed(kids, s) && n in kids && s <= kids.Keys
    requires n in kids' && k <= |kids[n]| && k <= |kids'[n]| && kids'[n][..k] == kids[n][..k]
    requires forall c | c in kids[n][..k] :: c in s
    requires forall m | m in s :: m in kids' && kids'[m] == kids[m]
    ensures ImagesOf(kids', rank', n, k) == ImagesOf(kids, rank, n, k)
    decreases Higher(rank, n), 0, k
  {
    if k > 0 {
      var c := kids[n][k - 1];
      assert c in kids[n] && c == kids[n][..k][k - 1] == kids'[n][..k][k - 1];
      assert kids[n][..k - 1] == kids[n][..k][..k - 1] && kids'[n][..k - 1] == kids'[n][..k][..k - 1];
      HigherShrinks(rank, n, c);
      SameImages(kids, rank, kids', rank', s, n, k - 1);
      SameImage(kids, rank, kids', rank', s, c);
    }
  }

  lemma {:induction false} ChildImage(kids: Forest, rank: Ranks, n: DomNode, k: nat, j: nat)
    requires Ranked(kids, rank) && n in kids && j < k <= |kids[n]|
    ensures kids[n][j] in kids && ImagesOf(kids, rank, n, k)[j] == ImageOf(kids, rank, kids[n][j])
    decreases k
  {
    hide ImageOf;
    assert kids[n][j] in kids[n];
    if j < k - 1 {
      ChildImage(kids, rank, n, k - 1, j);
    }
  }

  /** Every list of `was` is still there. */
  ghost predicate Extends(was: Forest, now: Forest) {
    forall n | n in was :: n in now && now[n] == was[n]
  }

  /** The other lists stay when `c`, a node without parent, becomes the last child of `p`. */
  lemma JoinedImages(was: Forest, rank: Ranks, now: Forest, rank': Ranks, p: DomNode, c: DomNode)
    requires Ranked(was, rank) && Ranked(now, rank') && p in was && c in was && p != c
    requires forall n | n in was :: p !in was[n]
    requires now.Keys == was.Keys && now[p] == was[p] + [c] && forall n | n in was && n != p :: now[n] == was[n]
    ensures var k := |was[p]|;
            ImagesOf(now, rank', p, k + 1) == ImagesOf(was, rank, p, k) + [ImageOf(was, rank, c)]
  {
    var s := was.Keys - {p};
    assert Closed(was, s) by {
      forall n, x | n in s && n in was && x in was[n] ensures x in s {
        assert x in rank;
      }
    }
    var k := |was[p]|;
    assert now[p][..k] == was[p][..k] && now[p][k] == c;
    forall x | x in was[p][..k] ensures x in s {
      assert x in was[p] && x in rank;
    }
    SameImages(was, rank, now, rank', s, p, k);
    SameImage(was, rank, now, rank', s, c);
  }

  /** `ShallowClone` of an element sets the attributes one by one; distinct names keep their order. */
  method CopyAttributes(attrs: seq<(string, string)>) returns (r: seq<(string, string)>)
    requires Distinct(attrs)
    ensures r == attrs
  {
    r := [];
    assert attrs[0..] == attrs && [] + attrs == attrs;
    PutAllCopies([], attrs);
    var i := 0;
    while i < |attrs|
      invariant 0 <= i <= |attrs| && PutAll(r, attrs[i..]) == PutAll([], attrs)
    {
      assert attrs[i..][0] == attrs[i] && attrs[i..][1..] == attrs[i + 1..];
      r := Put(r, attrs[i].0, attrs[i].1);
      i := i + 1;
    }
    assert attrs[i..] == [];
  }

  lemma Facts(d: Document)
    requires d.Valid()
    ensures d.root in d.kids && d.root.parent == null && Linked(d.kids) && Ranked(d.kids, d.rank)
    ensures forall n | n in d.kids && n != d.root :: d.Mine(n) && n.kind != DocumentKind
    ensures d.root.kind == DocumentKind && Elements(d.unlinked) <= d.kids.Keys && d.root !in Elements(d.unlinked)
    ensures forall n | n in Elements(d.unlinked) :: n.parent == null
    ensures forall n | n in d.kids && n.parent == null && n != d.root :: n in Elements(d.unlinked)
  {
  }

  /** A live node without parent. */
  ghost predicate IsTop(d: Document, n: DomNode)
    reads d
  {
    n == d.root || n in Elements(d.unlinked)
  }

  /** A finished child clone is linked under its parent's clone. */
  method AddClone(target: Document, clone: DomNode, child: DomNode)
    requires target.Valid() && IsTop(target, clone) && child in Elements(target.unlinked) && clone != child
    modifies target, target.kids.Keys
    ensures target.Valid() && target.kids == old(target.kids[clone := target.kids[clone] + [child]])
    ensures Elements(target.unlinked) == old(Elements(target.unlinked)) - {child}
    ensures clone in target.kids && clone in old(target.kids) && child in old(target.kids)
    ensures Ranked(target.kids, target.rank) && old(Ranked(target.kids, target.rank))
    ensures var k := |old(target.kids[clone])|;
            ImagesOf(target.kids, target.rank, clone, k + 1)
            == old(ImagesOf(target.kids, target.rank, clone, |target.kids[clone]|)
                + [ImageOf(target.kids, target.rank, child)])
  {
    hide ImagesOf, ImageOf, Subtree, Linked, Detached, Ranked, Document.OnlyMoved, Without;
    Facts(target);
    ghost var was, ranks := target.kids, target.rank;
    NobodysChild(was, clone);
    OutsideSubtree(was, ranks, clone, child);
    DetachedNothing(was, child);
    var r := target.InsertEndChild(clone, child);
    Facts(target);
    AttachedLast(was, clone, child);
    JoinedImages(was, ranks, target.kids, target.rank, clone, child);
  }

  /** No two attributes of a node have the same name. */
  ghost predicate DistinctNames(image: Image) {
    Distinct(image.attrs) && forall i | 0 <= i < |image.children| :: DistinctNames(image.children[i])
  }

  lemma KeptFacts(source: Document, target: Document, s: Forest, ranks: Ranks)
    requires Kept(source, target, s, ranks)
    ensures source.Valid() && Linked(source.kids) && Ranked(source.kids, source.rank) && Extends(s, source.kids)
    ensures source.root.parent == null
    ensures source != target ==> source.kids == s && source.rank == ranks && s.Keys !! target.kids.Keys
    ensures forall n | n in source.kids && n.parent != null :: n.kind != DocumentKind
  {
    Facts(source);
  }

  lemma KeptBy(source: Document, target: Document, mid: Forest, midRanks: Ranks, s: Forest, ranks: Ranks)
    requires Kept(source, target, mid, midRanks) && Extends(s, mid)
    requires source != target ==> mid == s && midRanks == ranks
    ensures Kept(source, target, s, ranks)
  {
  }

  /** The source is there and as it was: the same document, perhaps with more nodes, or one of its own. */
  ghost predicate Kept(source: Document, target: Document, s: Forest, ranks: Ranks)
    reads source, source.kids.Keys, target
  {
    && source.Valid() && Extends(s, source.kids)
    && if source == target then true else source.kids == s && source.rank == ranks && s.Keys !! target.kids.Keys
  }

  /** The clone of a node: new nodes in the target, the same value, and every list there was as it was. */
  method DeepClone(source: Document, target: Document, node: DomNode, ghost image: Image) returns (clone: DomNode?)
    requires Kept(source, target, source.kids, source.rank) && target.Valid() && node in source.kids
    requires Ranked(source.kids, source.rank) && image == ImageOf(source.kids, source.rank, node)
    requires DistinctNames(image)
    modifies target, target.kids.Keys
    ensures target.Valid() && Extends(old(target.kids), target.kids)
    ensures Kept(source, target, old(source.kids), old(source.rank))
    ensures forall n | n in target.kids && n !in old(target.kids) :: fresh(n)
    ensures clone == null <==> node.kind == DocumentKind
    ensures clone == null ==> target.kids == old(target.kids) && target.unlinked == old(target.unlinked)
    ensures clone != null ==>
              && clone in target.kids && clone !in old(target.kids)
              && Elements(target.unlinked) == old(Elements(target.unlinked)) + {clone}
              && Ranked(target.kids, target.rank) && ImageOf(target.kids, target.rank, clone) == image
    decreases image, 1, 0
  {
    hide ImagesOf, ImageOf, Linked, Ranked, Kept, Document.Valid, Extends, DistinctNames, NoRepeats, Copied;
    ghost var s, ranks, before := source.kids, source.rank, target.kids;
    KeptFacts(source, target, s, ranks);
    Facts(target);
    ImageParts(s, ranks, node);
    if node.kind == DocumentKind {
      ExtendsItself(before);
      return null;
    }
    clone := ShallowClone(source, target, node, s, ranks);
    CloneChildren(source, target, node, clone, s, ranks, image);
    ExtendsPast(before, clone, target.kids);
    AllCopied(s, ranks, node, target.kids, target.rank, clone);
  }

  /** A new node like the other one, without children. */
  method ShallowClone(source: Document, target: Document, node: DomNode, ghost s: Forest, ghost ranks: Ranks)
    returns (clone: DomNode)
    requires Kept(source, target, s, ranks) && target.Valid() && node in s && s == source.kids
    requires node.kind != DocumentKind && Distinct(node.attrs)
    modifies target, target.kids.Keys
    ensures Kept(source, target, s, ranks) && target.Valid() && fresh(clone) && clone !in s
            && clone !in old(target.kids)
    ensures clone.kind == node.kind && clone.value == node.value && clone.attrs == node.attrs
    ensures target.kids == old(target.kids)[clone := []] && IsTop(target, clone)
    ensures Elements(target.unlinked) == old(Elements(target.unlinked)) + {clone}
  {
    hide Linked, Ranked, Kept, Document.Valid, NoRepeats;
    KeptFacts(source, target, s, ranks);
    var attrs := CopyAttributes(node.attrs);
    clone := target.CreateUnlinkedNode(node.kind, node.value, attrs);
    KeptNew(source, target, s, ranks, clone);
  }

  lemma ExtendsItself(kids: Forest)
    ensures Extends(kids, kids)
  {
  }

  /** A new node and what was linked under it leave the other lists alone. */
  lemma ExtendsPast(was: Forest, n: DomNode, now: Forest)
    requires n !in was && Extends(was[n := []] - {n}, now)
    ensures Extends(was, now)
  {
    assert was[n := []] - {n} == was;
  }

  lemma ImageParts(kids: Forest, rank: Ranks, n: DomNode)
    requires Ranked(kids, rank) && n in kids
    ensures var r := ImageOf(kids, rank, n);
            && r.kind == n.kind && r.value == n.value && r.attrs == n.attrs
            && r.children == ImagesOf(kids, rank, n, |kids[n]|) && (DistinctNames(r) ==> Distinct(n.attrs))
  {
  }

  /** A new node of the target takes nothing from the source. */
  lemma KeptNew(source: Document, target: Document, s: Forest, ranks: Ranks, n: DomNode)
    requires source.Valid() && target.Valid() && n in target.kids && n !in s
    requires source != target ==> source.kids == s && source.rank == ranks && s.Keys !! target.kids.Keys
    requires source == target ==> source.kids == s[n := []]
    ensures Kept(source, target, s, ranks)
  {
  }

  /** The loop over the children, under a node without parent and children. */
  method CloneChildren(source: Document, target: Document, node: DomNode, clone: DomNode, ghost s: Forest,
                       ghost ranks: Ranks, ghost image: Image)
    requires Kept(source, target, s, ranks) && target.Valid() && node in s && node in source.kids
    requires Ranked(s, ranks) && image == ImageOf(s, ranks, node)
    requires IsTop(target, clone) && clone in target.kids && target.kids[clone] == [] && clone !in s
    requires DistinctNames(image)
    modifies target, target.kids.Keys
    ensures Kept(source, target, s, ranks) && target.Valid() && clone in target.kids
    ensures Extends(old(target.kids) - {clone}, target.kids)
    ensures forall n | n in target.kids && n !in old(target.kids) :: fresh(n)
    ensures Elements(target.unlinked) == old(Elements(target.unlinked))
    ensures Copied(s, ranks, node, target.kids, target.rank, clone, |s[node]|)
    decreases image, 0, 2
  {
    hide ImageOf, Linked, Ranked, Kept, Document.Valid, Extends, NoRepeats, Position, Copied;
    ghost var before, loose := target.kids, Elements(target.unlinked);
    KeptFacts(source, target, s, ranks);
    Facts(target);
    Same(s, source.kids, node);
    ExtendsSelf(before, clone);
    FirstOf(source.kids, node);
    NoneCopied(s, ranks, node, target.kids, target.rank, clone);
    var child := node.firstChild;
    ghost var k := 0;
    while child != null
      invariant target.Valid() && Kept(source, target, s, ranks)
      invariant clone in target.kids && Extends(before - {clone}, target.kids)
      invariant (forall n | n in target.kids && n !in before :: fresh(n)) && Elements(target.unlinked) == loose
      invariant k <= |s[node]| && child == if k < |s[node]| then s[node][k] else null
      invariant Copied(s, ranks, node, target.kids, target.rank, clone, k)
      decreases |s[node]| - k
    {
      ghost var mid := target.kids;
      child := CloneNext(source, target, node, child, clone, s, ranks, k, image);
      ExtendsFurther(before, mid, target.kids, clone);
      k := k + 1;
    }
  }

  /** One turn of that loop: the child is cloned, and the next one is found behind it. */
  method CloneNext(source: Document, target: Document, node: DomNode, child: DomNode, clone: DomNode, ghost s: Forest,
                   ghost ranks: Ranks, ghost k: nat, ghost image: Image)
    returns (next: DomNode?)
    requires Kept(source, target, s, ranks) && target.Valid() && node in s && k < |s[node]| && s[node][k] == child
    requires Ranked(s, ranks) && image == ImageOf(s, ranks, node) && DistinctNames(image)
    requires IsTop(target, clone) && clone !in s
    requires Copied(s, ranks, node, target.kids, target.rank, clone, k)
    modifies target, target.kids.Keys
    ensures Kept(source, target, s, ranks) && target.Valid() && clone in target.kids
    ensures Extends(old(target.kids) - {clone}, target.kids)
    ensures forall n | n in target.kids && n !in old(target.kids) :: fresh(n)
    ensures Elements(target.unlinked) == old(Elements(target.unlinked))
    ensures next == if k + 1 < |s[node]| then s[node][k + 1] else null
    ensures Copied(s, ranks, node, target.kids, target.rank, clone, k + 1)
    decreases image, 0, 1
  {
    hide ImageOf, Linked, Ranked, Kept, Document.Valid, Extends, NoRepeats, Position, Copied;
    KeptFacts(source, target, s, ranks);
    Same(s, source.kids, node);
    ChildOf(source.kids, node, child);
    CloneChild(source, target, node, child, clone, s, ranks, k, image);
    KeptFacts(source, target, s, ranks);
    Same(s, source.kids, node);
    NextAt(source.kids, node, s[node], k);
    next := child.next;
  }

  lemma NextAt(kids: Forest, p: DomNode, s: seq<DomNode>, i: nat)
    requires Linked(kids) && p in kids && kids[p] == s && i < |s|
    ensures s[i].next == if i + 1 < |s| then s[i + 1] else null
  {
    assert Holds(p, s);
    assert Sits(p, s, i);
  }

  lemma Same(was: Forest, now: Forest, n: DomNode)
    requires Extends(was, now) && n in was
    ensures n in now && now[n] == was[n]
  {
  }

  lemma ExtendsSelf(kids: Forest, n: DomNode)
    ensures Extends(kids - {n}, kids)
  {
  }

  lemma ExtendsFurther(was: Forest, mid: Forest, now: Forest, n: DomNode)
    requires Extends(was - {n}, mid) && Extends(mid - {n}, now)
    ensures Extends(was - {n}, now)
  {
  }

  /** The clone has clones of the first `k` children. */
  ghost predicate Copied(s: Forest, ranks: Ranks, node: DomNode, kids: Forest, rank: Ranks, clone: DomNode, k: nat) {
    && Ranked(s, ranks) && node in s && Ranked(kids, rank) && clone in kids && k == |kids[clone]| <= |s[node]|
    && ImagesOf(kids, rank, clone, k) == ImagesOf(s, ranks, node, k)
  }

  lemma CopiedFacts(s: Forest, ranks: Ranks, node: DomNode, kids: Forest, rank: Ranks, clone: DomNode, k: nat)
    requires Copied(s, ranks, node, kids, rank, clone, k)
    ensures Ranked(s, ranks) && Ranked(kids, rank) && clone in kids
  {
  }

  lemma NoneCopied(s: Forest, ranks: Ranks, node: DomNode, kids: Forest, rank: Ranks, clone: DomNode)
    requires Ranked(s, ranks) && node in s && Ranked(kids, rank) && clone in kids && kids[clone] == []
    ensures Copied(s, ranks, node, kids, rank, clone, 0)
  {
  }

  lemma AllCopied(s: Forest, ranks: Ranks, node: DomNode, kids: Forest, rank: Ranks, clone: DomNode)
    requires Ranked(s, ranks) && node in s && Copied(s, ranks, node, kids, rank, clone, |s[node]|)
    requires var i := ImageOf(s, ranks, node);
             clone.kind == i.kind && clone.value == i.value && clone.attrs == i.attrs
    ensures clone in kids && Ranked(kids, rank) && ImageOf(kids, rank, clone) == ImageOf(s, ranks, node)
  {
    hide ImagesOf;
  }

  /** One child more. */
  method CloneChild(source: Document, target: Document, node: DomNode, child: DomNode, clone: DomNode, ghost s: Forest,
                    ghost ranks: Ranks, ghost k: nat, ghost image: Image)
    requires Kept(source, target, s, ranks) && target.Valid() && node in s && k < |s[node]| && s[node][k] == child
    requires child.parent != null
    requires Ranked(s, ranks) && image == ImageOf(s, ranks, node) && DistinctNames(image)
    requires IsTop(target, clone) && clone !in s
    requires Copied(s, ranks, node, target.kids, target.rank, clone, k)
    modifies target, target.kids.Keys
    ensures Kept(source, target, s, ranks) && target.Valid() && clone in target.kids
    ensures Extends(old(target.kids) - {clone}, target.kids)
    ensures forall n | n in target.kids && n !in old(target.kids) :: fresh(n)
    ensures Elements(target.unlinked) == old(Elements(target.unlinked))
    ensures Copied(s, ranks, node, target.kids, target.rank, clone, k + 1)
    decreases image, 0, 0
  {
    hide ImageOf, Linked, Ranked, Kept, Document.Valid, Extends, NoRepeats, Copied;
    CopiedFacts(s, ranks, node, target.kids, target.rank, clone, k);
    KeptFacts(source, target, s, ranks);
    Facts(target);
    ImageParts(s, ranks, node);
    ChildImage(s, ranks, node, |s[node]|, k);
    assert image.children[k] == ImageOf(s, ranks, child);
    Same(s, source.kids, node);
    ImageStays(s, ranks, source.kids, source.rank, child);
    ghost var mid, midRanks, sk, sr := target.kids, target.rank, source.kids, source.rank;
    KeptNow(source, target, s, ranks);
    var c := DeepClone(source, target, child, image.children[k]);
    Facts(target);
    KeptBy(source, target, sk, sr, s, ranks);
    CopiedStays(s, ranks, node, mid, midRanks, target.kids, target.rank, clone, k);
    ghost var now := target.kids;
    LinkClone(source, target, node, clone, c, s, ranks, k);
    ExtendsFurther(mid, now, target.kids, clone);
  }

  /** The clone of child `k` becomes the last child of its parent's clone. */
  method LinkClone(source: Document, target: Document, ghost node: DomNode, clone: DomNode, c: DomNode, ghost s: Forest,
                   ghost ranks: Ranks, ghost k: nat)
    requires Kept(source, target, s, ranks) && target.Valid() && clone !in s && clone != c
    requires IsTop(target, clone) && c in Elements(target.unlinked)
    requires Copied(s, ranks, node, target.kids, target.rank, clone, k) && k < |s[node]| && s[node][k] in s
    requires c in target.kids && ImageOf(target.kids, target.rank, c) == ImageOf(s, ranks, s[node][k])
    modifies target, target.kids.Keys
    ensures Kept(source, target, s, ranks) && target.Valid() && target.kids.Keys == old(target.kids).Keys
    ensures Extends(old(target.kids) - {clone}, target.kids)
    ensures Elements(target.unlinked) == old(Elements(target.unlinked)) - {c}
    ensures Copied(s, ranks, node, target.kids, target.rank, clone, k + 1)
  {
    hide ImagesOf, ImageOf, Linked, Ranked, Kept, Document.Valid, Extends, NoRepeats;
    KeptFacts(source, target, s, ranks);
    ghost var now := target.kids;
    AddClone(target, clone, c);
    KeptAdded(source, target, s, ranks, now, clone, c);
    ExtendsAdded(now, target.kids, clone);
    ImagesSnoc(s, ranks, node, k);
  }

  lemma CopiedStays(s: Forest, ranks: Ranks, node: DomNode, mid: Forest, midRanks: Ranks, now: Forest, rank: Ranks,
                    clone: DomNode, k: nat)
    requires Copied(s, ranks, node, mid, midRanks, clone, k) && Extends(mid, now) && Ranked(now, rank)
    ensures Copied(s, ranks, node, now, rank, clone, k) && Extends(mid - {clone}, now)
  {
    hide ImagesOf;
    ImagesStay(mid, midRanks, now, rank, clone, k);
  }

  lemma ImagesSnoc(kids: Forest, rank: Ranks, n: DomNode, k: nat)
    requires Ranked(kids, rank) && n in kids && k < |kids[n]|
    ensures kids[n][k] in kids
    ensures ImagesOf(kids, rank, n, k + 1) == ImagesOf(kids, rank, n, k) + [ImageOf(kids, rank, kids[n][k])]
  {
    assert kids[n][k] in kids[n];
  }

  lemma ImageStays(was: Forest, rank: Ranks, now: Forest, rank': Ranks, n: DomNode)
    requires Ranked(was, rank) && Ranked(now, rank') && Extends(was, now) && n in was
    ensures n in now && ImageOf(now, rank', n) == ImageOf(was, rank, n)
  {
    SameImage(was, rank, now, rank', was.Keys, n);
  }

  lemma ImagesStay(was: Forest, rank: Ranks, now: Forest, rank': Ranks, n: DomNode, k: nat)
    requires Ranked(was, rank) && Ranked(now, rank') && Extends(was, now) && n in was && k == |was[n]|
    ensures n in now && now[n] == was[n] && ImagesOf(now, rank', n, k) == ImagesOf(was, rank, n, k)
  {
    forall c | c in was[n][..k] ensures c in was.Keys {
      assert c in rank;
    }
    SameImages(was, rank, now, rank', was.Keys, n, k);
  }

  lemma KeptNow(source: Document, target: Document, s: Forest, ranks: Ranks)
    requires Kept(source, target, s, ranks)
    ensures Kept(source, target, source.kids, source.rank)
  {
  }

  lemma KeptAdded(source: Document, target: Document, s: Forest, ranks: Ranks, now: Forest, clone: DomNode, c: DomNode)
    requires source.Valid() && clone in now && clone !in s && target.kids == now[clone := now[clone] + [c]]
    requires source != target ==> source.kids == s && source.rank == ranks && s.Keys !! target.kids.Keys
    requires source == target ==> Extends(s, now)
    ensures Kept(source, target, s, ranks)
  {
  }

  lemma ExtendsAdded(now: Forest, after: Forest, clone: DomNode)
    requires after.Keys == now.Keys && forall n | n in now && n != clone :: after[n] == now[n]
    ensures Extends(now - {clone}, after)
  {
  }

  /** The target is emptied; then its children are clones of the source's, in order. */
  method DeepCopy(source: Document, target: Document)
    requires source.Valid() && target.Valid() && (source == target || source.kids.Keys !! target.kids.Keys)
    requires Ranked(source.kids, source.rank) && DistinctNames(ImageOf(source.kids, source.rank, source.root))
    modifies target, target.kids.Keys
    ensures source.Valid() && source.kids == old(source.kids) && target.Valid()
    ensures source == target ==> target.unlinked == old(target.unlinked)
    ensures Ranked(source.kids, source.rank) && Ranked(target.kids, target.rank)
    ensures source != target ==>
              && target.unlinked == [] && source.kids.Keys !! target.kids.Keys
              && ImageOf(target.kids, target.rank, target.root).children
                 == ImageOf(source.kids, source.rank, source.root).children
  {
    hide ImageOf, Linked, Ranked, Document.Valid, Copied, Kept, Extends, DistinctNames;
    if target == source {
      return;
    }
    Facts(source);
    Facts(target);
    ghost var s, ranks := source.kids, source.rank;
    target.Clear();
    KeptApart(source, target);
    CloneChildren(source, target, source.root, target.root, s, ranks, ImageOf(s, ranks, source.root));
    KeptFacts(source, target, s, ranks);
    CopiedFacts(s, ranks, source.root, target.kids, target.rank, target.root, |s[source.root]|);
    CopiedChildren(s, ranks, source.root, target.kids, target.rank, target.root);
    NoElements(target.unlinked);
  }

  lemma KeptApart(source: Document, target: Document)
    requires source.Valid() && source != target && source.kids.Keys !! target.kids.Keys
    ensures Kept(source, target, source.kids, source.rank)
  {
  }

  lemma CopiedChildren(s: Forest, ranks: Ranks, node: DomNode, kids: Forest, rank: Ranks, clone: DomNode)
    requires node in s && Copied(s, ranks, node, kids, rank, clone, |s[node]|)
    ensures ImageOf(kids, rank, clone).children == ImageOf(s, ranks, node).children
  {
    hide ImagesOf;
  }
}
