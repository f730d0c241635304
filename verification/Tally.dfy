/** How many items of each pool a tree takes: elements, texts, comments and what shares their pool, attributes. */
module Tallies {
  import opened Syntax

  datatype Tally = Tally(elements: int, texts: int, comments: int, attributes: int)

  const NOTHING := Tally(0, 0, 0, 0)
  const ELEMENT := Tally(1, 0, 0, 0)
  const ATTRIBUTE := Tally(0, 0, 0, 1)

  function Plus(a: Tally, b: Tally): Tally {
    Tally(a.elements + b.elements, a.texts + b.texts, a.comments + b.comments, a.attributes + b.attributes)
  }

  function Minus(a: Tally, b: Tally): Tally {
    Tally(a.elements - b.elements, a.texts - b.texts, a.comments - b.comments, a.attributes - b.attributes)
  }

  function LeafUnit(kind: Kind): Tally {
    if kind == Text || kind == CData then Tally(0, 1, 0, 0) else Tally(0, 0, 1, 0)
  }

  /** The item of the node itself. */
  function Unit(n: Node): Tally {
    if n.Leaf? then LeafUnit(n.kind) else ELEMENT
  }

  function FoundUnit(f: Found): Tally
    requires !f.Nothing?
  {
    if f.FoundLeaf? then LeafUnit(f.kind) else ELEMENT
  }

  function Attributes(n: nat): Tally {
    Tally(0, 0, 0, n)
  }

  /** A node takes one item: of the element pool, of the text pool for text and CDATA, and else of the comment pool. */
  lemma UnitsAre(n: Node)
    ensures Unit(n)
         == if n.Element? then Tally(1, 0, 0, 0)
            else if n.kind == Text || n.kind == CData then Tally(0, 1, 0, 0) else Tally(0, 0, 1, 0)
  {
  }

  /** The node, its attributes and all that is below it. */
  function Count(n: Node): Tally {
    match n
    case Leaf(kind, _, _) => LeafUnit(kind)
    case Element(_, attrs, _, children, _) => Plus(Plus(ELEMENT, Attributes(|attrs|)), CountAll(children))
  }

  function CountAll(nodes: seq<Node>): Tally {
    if nodes == [] then NOTHING else Plus(Count(nodes[0]), CountAll(nodes[1..]))
  }

  lemma CountParts(n: Node)
    ensures Count(n) == if n.Leaf? then Unit(n) else Plus(Plus(Unit(n), Attributes(|n.attrs|)), CountAll(n.children))
  {
    hide CountAll;
  }

  lemma CountNone()
    ensures CountAll([]) == NOTHING
  {
  }

  lemma {:induction false} CountMore(nodes: seq<Node>, n: Node)
    ensures CountAll(nodes + [n]) == Plus(CountAll(nodes), Count(n))
    decreases nodes
  {
    hide Count;
    if nodes == [] {
      assert [] + [n] == [n] && [n][1..] == [];
    } else {
      assert (nodes + [n])[1..] == nodes[1..] + [n];
      CountMore(nodes[1..], n);
    }
  }
}
