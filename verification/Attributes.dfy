/** The attributes of an element: a singly linked list that behaves as an insertion-ordered map. */
module Attributes {
  import opened Entries
  import opened Seqs

  class Attribute {
    const name: string
    var value: string
    var next: Attribute?

    constructor (name: string)
      ensures this.name == name && value == "" && next == null
    {
      this.name := name;
      value := "";
      next := null;
    }
  }

  /** The counters of the attribute pool. */
  class AttributePool {
    var currentAllocs: int
    var nUntracked: int

    constructor ()
      ensures currentAllocs == 0 && nUntracked == 0
    {
      currentAllocs, nUntracked := 0, 0;
    }

    /** Memory for one attribute, counted as tracked at once. */
    method CreateAttribute(name: string) returns (a: Attribute)
      modifies this
      ensures fresh(a) && a.name == name && a.value == "" && a.next == null
      ensures currentAllocs == old(currentAllocs) + 1 && nUntracked == old(nUntracked)
    {
      currentAllocs := currentAllocs + 1;
      nUntracked := nUntracked + 1;
      a := new Attribute(name);
      nUntracked := nUntracked - 1;
    }

    method Free(a: Attribute)
      modifies this
      ensures currentAllocs == old(currentAllocs) - 1 && nUntracked == old(nUntracked)
    {
      currentAllocs := currentAllocs - 1;
    }
  }

  class AttributeList {
    const pool: AttributePool
    var rootAttribute: Attribute?
    ghost var chain: seq<Attribute>

    /** The list holds `chain`, and no two attributes have the same name. */
    ghost predicate Valid()
      reads this, chain
    {
      && rootAttribute == At(0)
      && (forall i | 0 <= i < |chain| :: chain[i].next == At(i + 1))
      && NamesDiffer(chain)
    }

    static ghost predicate NamesDiffer(c: seq<Attribute>) {
      forall i, j | 0 <= i < j < |c| :: c[i].name != c[j].name
    }

    ghost function At(i: nat): Attribute?
      reads this
    {
      if i < |chain| then chain[i] else null
    }

    /** The list as an ordered map. */
    ghost function Entries(): (r: seq<(string, string)>)
      reads this, chain
      ensures |r| == |chain| && forall i | 0 <= i < |r| :: r[i] == (chain[i].name, chain[i].value)
    {
      seq(|chain|, i requires 0 <= i < |chain| reads this, chain => (chain[i].name, chain[i].value))
    }

    constructor (pool: AttributePool)
      ensures Valid() && Entries() == [] && this.pool == pool && chain == []
    {
      this.pool := pool;
      rootAttribute := null;
      chain := [];
    }

    /** The attribute found is the map's entry; none is found when the map has none. */
    method FindAttribute(name: string) returns (a: Attribute?)
      requires Valid()
      ensures (a != null) == (IndexOf(Entries(), name) < |Entries()|)
      ensures a != null ==> a == chain[IndexOf(Entries(), name)] && Lookup(Entries(), name).value == a.value
    {
      a := rootAttribute;
      ghost var i := 0;
      while a != null
        invariant i <= |chain| && a == At(i)
        invariant forall j | 0 <= j < i :: chain[j].name != name
        decreases |chain| - i
      {
        if a.name == name {
          IndexIsUnique(Entries(), name, i);
          return;
        }
        a := a.next;
        i := i + 1;
      }
      AbsentIndex(Entries(), name);
    }

    /** The attribute of this name, linked behind the last one when there is none. */
    method FindOrCreateAttribute(name: string) returns (a: Attribute, ghost i: nat)
      requires Valid()
      modifies this, chain, pool
      ensures Valid() && i < |chain| && a == chain[i] && a.name == name
      ensures i == IndexOf(old(Entries()), name) && Entries() == PutIfAbsent(old(Entries()), name, "")
      ensures chain == if i < |old(chain)| then old(chain) else old(chain) + [a]
      ensures i == |old(chain)| ==> fresh(a)
      ensures pool.nUntracked == old(pool.nUntracked)
      ensures pool.currentAllocs - |chain| == old(pool.currentAllocs - |chain|)
    {
      hide IndexOf, Entries, NamesDiffer;
      ghost var before := Entries();
      assert forall j | 0 <= j < |chain| :: before[j].0 == chain[j].name;
      var last: Attribute? := null;
      var attrib := rootAttribute;
      i := 0;
      while attrib != null
        invariant i <= |chain| && attrib == At(i) && last == if i == 0 then null else chain[i - 1]
        invariant forall j | 0 <= j < i :: chain[j].name != name
        decreases |chain| - i
      {
        if attrib.name == name {
          IndexIsUnique(Entries(), name, i);
          return attrib, i;
        }
        last := attrib;
        attrib := attrib.next;
        i := i + 1;
      }
      AbsentIndex(Entries(), name);
      a := pool.CreateAttribute(name);
      Link(last, a);
    }

    /** A new attribute goes behind the last one, or becomes the first. */
    method Link(last: Attribute?, a: Attribute)
      requires Valid() && a !in chain && a.next == null
      requires last == if chain == [] then null else chain[|chain| - 1]
      requires forall j | 0 <= j < |chain| :: chain[j].name != a.name
      modifies this, chain
      ensures Valid() && chain == old(chain) + [a] && a.value == old(a.value)
      ensures Entries() == old(Entries()) + [(a.name, a.value)]
    {
      DistinctChain(chain);
      ghost var before := Entries();
      if last != null {
        last.next := a;
      } else {
        rootAttribute := a;
      }
      chain := chain + [a];
      assert Entries() == before + [(a.name, a.value)];
    }

    static lemma DistinctChain(c: seq<Attribute>)
      requires NamesDiffer(c)
      ensures forall i, j | 0 <= i < j < |c| :: c[i] != c[j]
    {
    }

    static lemma RemoveDiffers(c: seq<Attribute>, i: nat)
      requires NamesDiffer(c) && i < |c|
      ensures NamesDiffer(RemoveAt(c, i))
    {
      hide RemoveAt;
    }

    method SetAttribute(name: string, value: string)
      requires Valid()
      modifies this, chain, pool
      ensures Valid() && Entries() == Put(old(Entries()), name, value)
      ensures forall k | 0 <= k < |chain| :: (k < |old(chain)| && chain[k] == old(chain)[k]) || fresh(chain[k])
      ensures pool.nUntracked == old(pool.nUntracked)
      ensures pool.currentAllocs - |chain| == old(pool.currentAllocs - |chain|)
    {
      hide Entries, NamesDiffer;
      ghost var before := Entries();
      ghost var i;
      var a;
      a, i := FindOrCreateAttribute(name);
      DistinctChain(chain);
      a.value := value;
      assert Entries() == Put(before, name, value);
    }

    /** The link around the attribute closes and its memory is given back. */
    method DeleteAttribute(name: string)
      requires Valid()
      modifies this, chain, pool
      ensures Valid() && Entries() == Drop(old(Entries()), name)
      ensures var i := IndexOf(old(Entries()), name);
              chain == if i < |old(chain)| then RemoveAt(old(chain), i) else old(chain)
      ensures pool.nUntracked == old(pool.nUntracked)
      ensures pool.currentAllocs - |chain| == old(pool.currentAllocs - |chain|)
    {
      var prev: Attribute? := null;
      var a := rootAttribute;
      ghost var i := 0;
      hide IndexOf, Entries, NamesDiffer, RemoveAt, Valid, At, Drop;
      Step(0);
      while a != null
        invariant Valid() && chain == old(chain) && Entries() == old(Entries())
        invariant pool.nUntracked == old(pool.nUntracked) && pool.currentAllocs == old(pool.currentAllocs)
        invariant i <= |chain| && a == At(i) && prev == if i == 0 then null else chain[i - 1]
        invariant forall j | 0 <= j < i :: chain[j].name != name
        decreases |chain| - i
      {
        Step(i);
        if name == a.name {
          DropIs(Entries(), name, i);
          IndexIsUnique(Entries(), name, i);
          Bypass(prev, a, i);
          pool.Free(a);
          return;
        }
        prev := a;
        a := a.next;
        i := i + 1;
      }
      Step(i);
      AbsentIndex(Entries(), name);
      DropNothing(Entries(), name);
    }

    static lemma DropIs(s: seq<(string, string)>, k: string, i: nat)
      requires i < |s| && s[i].0 == k && forall j | 0 <= j < i :: s[j].0 != k
      ensures Drop(s, k) == RemoveAt(s, i)
    {
      IndexIsUnique(s, k, i);
    }

    static lemma DropNothing(s: seq<(string, string)>, k: string)
      requires IndexOf(s, k) == |s|
      ensures Drop(s, k) == s
    {
    }

    /** What precedes an attribute is linked to what follows it. */
    method Bypass(prev: Attribute?, a: Attribute, ghost i: nat)
      requires Valid() && i < |chain| && a == chain[i] && prev == if i == 0 then null else chain[i - 1]
      modifies this, chain
      ensures Valid() && chain == RemoveAt(old(chain), i) && Entries() == RemoveAt(old(Entries()), i)
    {
      hide Entries, RemoveAt, NamesDiffer;
      DistinctChain(chain);
      RemoveDiffers(chain, i);
      ghost var was, before := chain, Entries();
      if prev != null {
        prev.next := a.next;
      } else {
        rootAttribute := a.next;
      }
      chain := RemoveAt(was, i);
      assert Entries() == RemoveAt(before, i);
    }

    /** The parser's way to add an attribute: a repeated name is an error and frees the new attribute,
        any other goes behind the one read before it. */
    method AddParsed(last: Attribute?, name: string, value: string) returns (a: Attribute?)
      requires Valid() && last == if chain == [] then null else chain[|chain| - 1]
      modifies this, chain, pool
      ensures Valid() && (a == null) == (Lookup(old(Entries()), name).Some?)
      ensures a == null ==> chain == old(chain) && Entries() == old(Entries())
      ensures a != null ==> chain == old(chain) + [a] && fresh(a) && Entries() == Put(old(Entries()), name, value)
      ensures pool.nUntracked == old(pool.nUntracked)
      ensures pool.currentAllocs - |chain| == old(pool.currentAllocs - |chain|)
    {
      hide IndexOf, Entries, NamesDiffer, Valid, At;
      ghost var before := Entries();
      assert forall j | 0 <= j < |chain| :: before[j].0 == chain[j].name;
      var attrib := pool.CreateAttribute(name);
      attrib.value := value;
      var found := FindAttribute(name);
      if found != null {
        pool.Free(attrib);
        return null;
      }
      Link(last, attrib);
      a := attrib;
    }

    /** `ShallowClone` copies the attributes one by one into a new element's list. */
    method CopyFrom(other: AttributeList)
      requires Valid() && other.Valid() && Entries() == [] && chain == [] && other != this
      modifies this, pool
      ensures Valid() && Entries() == other.Entries() == old(other.Entries())
      ensures other.Valid() && other.chain == old(other.chain) && forall k | 0 <= k < |chain| :: fresh(chain[k])
      ensures pool.nUntracked == old(pool.nUntracked)
      ensures pool.currentAllocs == old(pool.currentAllocs) + |other.chain|
    {
      hide IndexOf, Put, PutAll, Distinct, Entries, NamesDiffer, Valid, At;
      ghost var from := other.Entries();
      DistinctEntries(other);
      var a := other.rootAttribute;
      ghost var i := 0;
      assert from[0..] == from && [] + from == from;
      PutAllCopies([], from);
      other.Step(0);
      while a != null
        invariant i <= |other.chain| && a == other.At(i)
        invariant Valid() && other.Valid() && other.Entries() == from && other.chain == old(other.chain)
        invariant forall k | 0 <= k < |chain| :: fresh(chain[k])
        invariant PutAll(Entries(), from[i..]) == PutAll([], from)
        invariant pool.nUntracked == old(pool.nUntracked) && pool.currentAllocs == old(pool.currentAllocs) + |chain|
        decreases |other.chain| - i
      {
        other.Step(i);
        PutAllStep(Entries(), from, i);
        a := CopyEntry(other, a, i);
        i := i + 1;
      }
      other.Step(i);
      assert from[i..] == [];
      PutAllNone(Entries());
    }

    /** One turn of that loop: the entry is set here, and the next one found there. */
    method CopyEntry(other: AttributeList, a: Attribute, ghost i: nat) returns (next: Attribute?)
      requires Valid() && other.Valid() && other != this && (forall k | 0 <= k < |chain| :: chain[k] !in other.chain)
      requires i < |other.chain| && a == other.At(i)
      modifies this, chain, pool
      ensures Valid() && var e := other.Entries()[i]; Entries() == Put(old(Entries()), e.0, e.1)
      ensures forall k | 0 <= k < |chain| :: (k < |old(chain)| && chain[k] == old(chain)[k]) || fresh(chain[k])
      ensures other.Valid() && other.chain == old(other.chain) && other.Entries() == old(other.Entries())
      ensures next == other.At(i + 1)
      ensures pool.nUntracked == old(pool.nUntracked)
      ensures pool.currentAllocs - |chain| == old(pool.currentAllocs - |chain|)
    {
      hide IndexOf, Put, Distinct, Entries, NamesDiffer, Valid, At;
      other.Step(i);
      SetAttribute(a.name, a.value);
      other.Step(i);
      next := a.next;
    }

    /** Following the links visits the chain. */
    lemma Step(i: nat)
      requires Valid()
      ensures At(i) == (if i < |chain| then chain[i] else null) && rootAttribute == At(0)
      ensures i < |chain| ==> chain[i].next == At(i + 1)
    {
    }

    static lemma DistinctEntries(l: AttributeList)
      requires l.Valid()
      ensures Distinct(l.Entries())
    {
    }

    static lemma PutAllStep(s: seq<(string, string)>, from: seq<(string, string)>, i: nat)
      requires i < |from|
      ensures PutAll(s, from[i..]) == PutAll(Put(s, from[i].0, from[i].1), from[i + 1..])
    {
      assert from[i..][1..] == from[i + 1..];
    }

    static lemma PutAllNone(s: seq<(string, string)>)
      ensures PutAll(s, []) == s
    {
    }
  }
}
