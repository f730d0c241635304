/** Insertion-ordered maps as sequences of entries: what the attribute list and `ordered_map` are proved
    against, and what that specification means as a map and as an order. */
module Entries {
  import opened Chars
  import opened Seqs

  /** Where the key is, or the length. */
  function IndexOf<K(==), V>(s: seq<(K, V)>, k: K): (i: nat)
    ensures i <= |s| && (i < |s| ==> s[i].0 == k) && forall j | 0 <= j < i :: s[j].0 != k
  {
    if s == [] || s[0].0 == k then 0 else 1 + IndexOf(s[1..], k)
  }

  predicate Distinct<K(==), V>(s: seq<(K, V)>) {
    forall i, j | 0 <= i < j < |s| :: s[i].0 != s[j].0
  }

  function Lookup<K(==), V>(s: seq<(K, V)>, k: K): Option<V> {
    var i := IndexOf(s, k);
    if i < |s| then Some(s[i].1) else None
  }

  /** Setting a key keeps its place; a new key goes to the end. */
  function Put<K(==), V>(s: seq<(K, V)>, k: K, v: V): seq<(K, V)> {
    var i := IndexOf(s, k);
    if i < |s| then s[i := (k, v)] else s + [(k, v)]
  }

  /** Like `Put`, but an existing entry stays as it is. */
  function PutIfAbsent<K(==), V>(s: seq<(K, V)>, k: K, v: V): seq<(K, V)> {
    if IndexOf(s, k) < |s| then s else s + [(k, v)]
  }

  function Drop<K(==), V>(s: seq<(K, V)>, k: K): seq<(K, V)> {
    var i := IndexOf(s, k);
    if i < |s| then RemoveAt(s, i) else s
  }

  lemma IndexIsUnique<K, V>(s: seq<(K, V)>, k: K, i: nat)
    requires i < |s| && s[i].0 == k && forall j | 0 <= j < i :: s[j].0 != k
    ensures IndexOf(s, k) == i
  {
    var at := IndexOf(s, k);
    assert at < |s| ==> s[at].0 == k;
    assert !(i < at);
  }

  lemma AbsentIndex<K, V>(s: seq<(K, V)>, k: K)
    requires forall j | 0 <= j < |s| :: s[j].0 != k
    ensures IndexOf(s, k) == |s|
  {
  }

  // ----- As a map and as an order -----

  function ToMap<K, V>(s: seq<(K, V)>): map<K, V> {
    if s == [] then map[] else ToMap(s[1..])[s[0].0 := s[0].1]
  }

  function Keys<K, V>(s: seq<(K, V)>): (r: seq<K>)
    ensures |r| == |s| && forall i | 0 <= i < |s| :: r[i] == s[i].0
  {
    if s == [] then [] else [s[0].0] + Keys(s[1..])
  }

  /** The map's value at a key is that of its first entry. */
  lemma {:induction false} LookupInMap<K, V>(s: seq<(K, V)>, k: K)
    ensures Lookup(s, k) == if k in ToMap(s) then Some(ToMap(s)[k]) else None
  {
    if s != [] && s[0].0 != k {
      LookupInMap(s[1..], k);
    }
  }

  /** A map is what its lookups are. */
  lemma LookupsAreMap<K(!new), V>(s: seq<(K, V)>, m: map<K, V>)
    requires forall x :: Lookup(s, x) == if x in m then Some(m[x]) else None
    ensures ToMap(s) == m
  {
    hide IndexOf, ToMap;
    forall x ensures x in ToMap(s) <==> x in m {
      LookupInMap(s, x);
    }
    forall x | x in m ensures ToMap(s)[x] == m[x] {
      LookupInMap(s, x);
    }
  }

  /** Setting is the map update; the order of the keys changes only by a new last key. */
  lemma PutIsUpdate<K(!new), V>(s: seq<(K, V)>, k: K, v: V)
    requires Distinct(s)
    ensures Distinct(Put(s, k, v)) && ToMap(Put(s, k, v)) == ToMap(s)[k := v]
    ensures Keys(Put(s, k, v)) == if k in Keys(s) then Keys(s) else Keys(s) + [k]
  {
    hide IndexOf, ToMap, Lookup;
    var r := Put(s, k, v);
    KeysHold(s, k);
    if IndexOf(s, k) < |s| {
      assert Keys(r) == Keys(s);
    } else {
      assert Keys(r) == Keys(s) + [k];
    }
    var m := ToMap(s)[k := v];
    forall x ensures Lookup(r, x) == if x in m then Some(m[x]) else None {
      PutThenLookup(s, k, v, x);
      LookupInMap(s, x);
    }
    LookupsAreMap(r, m);
  }

  lemma KeysHold<K, V>(s: seq<(K, V)>, k: K)
    ensures k in Keys(s) <==> IndexOf(s, k) < |s|
  {
    var i := IndexOf(s, k);
    if i < |s| {
      assert Keys(s)[i] == k;
    }
  }

  lemma PutThenLookup<K, V>(s: seq<(K, V)>, k: K, v: V, x: K)
    ensures Lookup(Put(s, k, v), x) == if x == k then Some(v) else Lookup(s, x)
  {
    var r := Put(s, k, v);
    var i := IndexOf(s, x);
    if x == k {
      IndexIsUnique(r, k, i);
    } else if i < |s| {
      IndexIsUnique(r, x, i);
    } else {
      AbsentIndex(r, x);
    }
  }

  /** Deleting removes the key from the map; the other keys keep their order. */
  lemma DropIsRemove<K(!new), V>(s: seq<(K, V)>, k: K)
    requires Distinct(s)
    ensures Distinct(Drop(s, k)) && ToMap(Drop(s, k)) == ToMap(s) - {k}
    ensures Keys(Drop(s, k)) == Remaining(Keys(s), k)
  {
    hide IndexOf, ToMap, Lookup, Keys, Remaining;
    var m := ToMap(s) - {k};
    forall x ensures Lookup(Drop(s, k), x) == if x in m then Some(m[x]) else None {
      DropThenLookup(s, k, x);
      LookupInMap(s, x);
    }
    LookupsAreMap(Drop(s, k), m);
    DropKeys(s, k);
  }

  lemma DropThenLookup<K, V>(s: seq<(K, V)>, k: K, x: K)
    requires Distinct(s)
    ensures Lookup(Drop(s, k), x) == if x == k then None else Lookup(s, x)
  {
    var r := Drop(s, k);
    var at := IndexOf(s, k);
    var i := IndexOf(s, x);
    if x == k || i == |s| {
      AbsentIndex(r, x);
    } else {
      IndexIsUnique(r, x, if i < at then i else i - 1);
    }
  }

  /** The elements other than `k`, in order. */
  function Remaining<K(==)>(s: seq<K>, k: K): seq<K> {
    if s == [] then [] else (if s[0] == k then [] else [s[0]]) + Remaining(s[1..], k)
  }

  lemma {:induction false} DropKeys<K, V>(s: seq<(K, V)>, k: K)
    requires Distinct(s)
    ensures Keys(Drop(s, k)) == Remaining(Keys(s), k)
  {
    hide Keys, IndexOf;
    if s == [] {
      EmptyKeys<K, V>();
    } else {
      KeysStep(s);
      if s[0].0 == k {
        IndexIsUnique(s, k, 0);
        assert Drop(s, k) == s[1..];
        AbsentRemains(Keys(s[1..]), k);
      } else {
        DropKeys(s[1..], k);
        DropStep(s, k);
        KeysStep(Drop(s, k));
      }
    }
  }

  lemma EmptyKeys<K, V>()
    ensures Keys<K, V>([]) == []
  {
  }

  lemma KeysStep<K, V>(s: seq<(K, V)>)
    requires s != []
    ensures Keys(s) == [s[0].0] + Keys(s[1..]) && Keys(s)[0] == s[0].0 && Keys(s)[1..] == Keys(s[1..])
  {
  }

  lemma DropStep<K, V>(s: seq<(K, V)>, k: K)
    requires s != [] && s[0].0 != k
    ensures var r := Drop(s, k); r != [] && r[0] == s[0] && r[1..] == Drop(s[1..], k)
  {
    assert IndexOf(s, k) == 1 + IndexOf(s[1..], k);
    hide IndexOf;
    var i, rest := IndexOf(s[1..], k), s[1..];
    assert i < |rest| ==> RemoveAt(s, i + 1) == [s[0]] + RemoveAt(rest, i);
    assert s == [s[0]] + rest;
  }

  lemma {:induction false} AbsentRemains<K>(s: seq<K>, k: K)
    requires k !in s
    ensures Remaining(s, k) == s
  {
    if s != [] {
      AbsentRemains(s[1..], k);
    }
  }

  // ----- Ranges -----

  /** Erasing a range keeps the keys distinct and removes exactly its keys from the map. */
  lemma {:induction false} RangeIsRemove<K(!new), V>(s: seq<(K, V)>, first: nat, last: nat)
    requires Distinct(s) && first <= last <= |s|
    ensures Distinct(s[..first] + s[last..])
    ensures ToMap(s[..first] + s[last..]) == ToMap(s) - Elements(Keys(s)[first..last])
    ensures Keys(s[..first] + s[last..]) == Keys(s)[..first] + Keys(s)[last..]
    decreases last - first
  {
    hide ToMap, Keys, Distinct, Elements, Drop;
    RangeKeys(s, first, last);
    KeysSlice(s, first, last);
    if first == last {
      assert s[..first] + s[last..] == s && s[first..last] == [];
      NoKeys<K, V>();
    } else {
      var k := s[first].0;
      DropFirst(s, first, last);
      DropIsRemove(s, k);
      KeysSlice(Drop(s, k), first, last - 1);
      RangeIsRemove(Drop(s, k), first, last - 1);
    }
  }

  lemma RangeKeys<K, V>(s: seq<(K, V)>, first: nat, last: nat)
    requires first <= last <= |s|
    ensures Keys(s[..first] + s[last..]) == Keys(s)[..first] + Keys(s)[last..]
  {
    hide Keys;
    KeysTake(s, first);
    KeysFrom(s, last);
    KeysConcat(s[..first], s[last..]);
  }

  lemma KeysSlice<K, V>(s: seq<(K, V)>, i: nat, j: nat)
    requires i <= j <= |s|
    ensures Keys(s[i..j]) == Keys(s)[i..j]
  {
    hide Keys;
    forall n | 0 <= n < j - i ensures Keys(s[i..j])[n] == Keys(s)[i..j][n] {
      assert s[i..j][n] == s[i + n];
    }
  }

  lemma KeysTake<K, V>(s: seq<(K, V)>, n: nat)
    requires n <= |s|
    ensures Keys(s[..n]) == Keys(s)[..n]
  {
    hide Keys;
  }

  lemma KeysFrom<K, V>(s: seq<(K, V)>, n: nat)
    requires n <= |s|
    ensures Keys(s[n..]) == Keys(s)[n..]
  {
    hide Keys;
  }

  lemma KeysConcat<K, V>(a: seq<(K, V)>, b: seq<(K, V)>)
    ensures Keys(a + b) == Keys(a) + Keys(b)
  {
    hide Keys;
    forall n | 0 <= n < |a + b| ensures Keys(a + b)[n] == (Keys(a) + Keys(b))[n] {
      assert (a + b)[n] == if n < |a| then a[n] else b[n - |a|];
    }
  }

  lemma NoKeys<K, V>()
    ensures Elements(Keys<K, V>([])) == {}
  {
  }

  /** The range is its first entry and the range that is left when that is dropped. */
  lemma DropFirst<K, V>(s: seq<(K, V)>, first: nat, last: nat)
    requires Distinct(s) && first < last <= |s|
    ensures var k, d := s[first].0, Drop(s, s[first].0);
            && |d| == |s| - 1 && d[..first] + d[last - 1..] == s[..first] + s[last..]
            && Elements(Keys(s[first..last])) == {k} + Elements(Keys(d[first..last - 1]))
  {
    hide Keys, IndexOf;
    var k := s[first].0;
    IndexIsUnique(s, k, first);
    var d, range := Drop(s, k), s[first..last];
    assert d == s[..first] + s[first + 1..];
    assert d[first..last - 1] == range[1..];
    KeysStep(range);
    assert Elements([k] + Keys(range[1..])) == {k} + Elements(Keys(range[1..]));
  }

  // ----- Runs -----

  datatype Edit<K, V> =
    | SetKey(key: K, value: V) | AddKey(key: K, value: V) | DeleteKey(key: K) | DeleteRange(first: nat, last: nat)

  /** What is meant by a range of `n` entries; an edit of any other range has no meaning, and is none. */
  predicate IsRange(first: nat, last: nat, n: nat) {
    first <= last <= n
  }

  function Edited<K(==), V>(s: seq<(K, V)>, e: Edit<K, V>): seq<(K, V)> {
    match e
    case SetKey(k, v) => Put(s, k, v)
    case AddKey(k, v) => PutIfAbsent(s, k, v)
    case DeleteKey(k) => Drop(s, k)
    case DeleteRange(first, last) => if IsRange(first, last, |s|) then s[..first] + s[last..] else s
  }

  function Run<K(==), V>(s: seq<(K, V)>, edits: seq<Edit<K, V>>): seq<(K, V)>
    decreases edits
  {
    if edits == [] then s else Run(Edited(s, edits[0]), edits[1..])
  }

  /** The specification: a map, and beside it the order of its keys. */
  datatype Ordered<K, V> = Ordered(m: map<K, V>, order: seq<K>)

  /** A key that comes in is last, a deleted one leaves, and a deleted range takes its keys from the map. */
  function OrderedEdit<K(==), V>(o: Ordered<K, V>, e: Edit<K, V>): Ordered<K, V> {
    match e
    case SetKey(k, v) => Ordered(o.m[k := v], if k in o.order then o.order else o.order + [k])
    case AddKey(k, v) => if k in o.m then o else Ordered(o.m[k := v], o.order + [k])
    case DeleteKey(k) => Ordered(o.m - {k}, Remaining(o.order, k))
    case DeleteRange(first, last) =>
      if IsRange(first, last, |o.order|) then
        Ordered(o.m - Elements(o.order[first..last]), o.order[..first] + o.order[last..])
      else o
  }

  function OrderedRun<K(==), V>(o: Ordered<K, V>, edits: seq<Edit<K, V>>): Ordered<K, V>
    decreases edits
  {
    if edits == [] then o else OrderedRun(OrderedEdit(o, edits[0]), edits[1..])
  }

  function Seen<K, V>(s: seq<(K, V)>): Ordered<K, V> {
    Ordered(ToMap(s), Keys(s))
  }

  /** Any mix of edits keeps the keys distinct and is, at once, the run on a map and on the order of its keys. */
  lemma {:induction false} RunRefinesOrderedMap<K(!new), V>(s: seq<(K, V)>, edits: seq<Edit<K, V>>)
    requires Distinct(s)
    ensures Distinct(Run(s, edits)) && Seen(Run(s, edits)) == OrderedRun(Seen(s), edits)
    decreases edits
  {
    hide ToMap, Keys, Elements, Distinct, Put, PutIfAbsent, Drop, Remaining;
    if edits != [] {
      EditRefines(s, edits[0]);
      RunRefinesOrderedMap(Edited(s, edits[0]), edits[1..]);
    }
  }

  lemma EditRefines<K(!new), V>(s: seq<(K, V)>, e: Edit<K, V>)
    requires Distinct(s)
    ensures Distinct(Edited(s, e)) && Seen(Edited(s, e)) == OrderedEdit(Seen(s), e)
  {
    hide ToMap, Keys, Elements, Distinct, Put, PutIfAbsent, Drop, Remaining;
    match e {
      case SetKey(k, v) => PutIsUpdate(s, k, v);
      case AddKey(k, v) => AddIsUpdate(s, k, v);
      case DeleteKey(k) => DropIsRemove(s, k);
      case DeleteRange(first, last) =>
        if IsRange(first, last, |s|) { RangeIsRemove(s, first, last); }
    }
  }

  /** Adding leaves a key that is there alone. */
  lemma AddIsUpdate<K(!new), V>(s: seq<(K, V)>, k: K, v: V)
    requires Distinct(s)
    ensures var r := PutIfAbsent(s, k, v);
            && Distinct(r) && ToMap(r) == (if k in ToMap(s) then ToMap(s) else ToMap(s)[k := v])
            && Keys(r) == if k in ToMap(s) then Keys(s) else Keys(s) + [k]
  {
    hide ToMap, Keys;
    KeysHold(s, k);
    LookupInMap(s, k);
    if IndexOf(s, k) == |s| {
      PutIsUpdate(s, k, v);
    }
  }

  // ----- Copying -----

  /** Setting the entries of `from` one after another. */
  function PutAll<K(==), V>(s: seq<(K, V)>, from: seq<(K, V)>): seq<(K, V)>
    decreases from
  {
    if from == [] then s else PutAll(Put(s, from[0].0, from[0].1), from[1..])
  }

  /** Entries with new and distinct keys are copied in order. */
  lemma {:induction false} PutAllCopies<K, V>(s: seq<(K, V)>, from: seq<(K, V)>)
    requires Distinct(s + from)
    ensures PutAll(s, from) == s + from
    decreases from
  {
    if from == [] {
      assert s + from == s;
    } else {
      var k := from[0].0;
      assert (s + from)[|s|] == from[0];
      forall j | 0 <= j < |s| ensures s[j].0 != k {
        assert (s + from)[j] == s[j];
      }
      AbsentIndex(s, k);
      assert (s + [from[0]]) + from[1..] == s + from;
      PutAllCopies(s + [from[0]], from[1..]);
    }
  }
}
