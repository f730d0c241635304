/** `ordered_map`: a vector of entries that behaves as an insertion-ordered map. */
module OrderedMaps {
  import opened Chars
  import opened Seqs
  import opened Entries

  class OrderedMap<K(==), V> {
    var entries: seq<(K, V)>

    constructor ()
      ensures entries == []
    {
      entries := [];
    }

    /** The range constructor is the vector's: it keeps repeated keys. */
    constructor FromRange(items: seq<(K, V)>)
      ensures entries == items
    {
      entries := items;
    }

    method Find(key: K) returns (pos: nat)
      ensures pos == IndexOf(entries, key)
    {
      pos := 0;
      while pos < |entries|
        invariant pos <= |entries| && forall j | 0 <= j < pos :: entries[j].0 != key
      {
        if entries[pos].0 == key {
          IndexIsUnique(entries, key, pos);
          return;
        }
        pos := pos + 1;
      }
      AbsentIndex(entries, key);
    }

    method Count(key: K) returns (n: nat)
      ensures n == if Lookup(entries, key).Some? then 1 else 0
    {
      var i := 0;
      while i < |entries|
        invariant i <= |entries| && forall j | 0 <= j < i :: entries[j].0 != key
      {
        if entries[i].0 == key {
          IndexIsUnique(entries, key, i);
          return 1;
        }
        i := i + 1;
      }
      AbsentIndex(entries, key);
      n := 0;
    }

    /** `None` stands for the exception. */
    method At(key: K) returns (r: Option<V>)
      ensures r == Lookup(entries, key)
    {
      var i := 0;
      while i < |entries|
        invariant i <= |entries| && forall j | 0 <= j < i :: entries[j].0 != key
      {
        if entries[i].0 == key {
          IndexIsUnique(entries, key, i);
          return Some(entries[i].1);
        }
        i := i + 1;
      }
      AbsentIndex(entries, key);
      r := None;
    }

    method Emplace(key: K, t: V) returns (pos: nat, inserted: bool)
      modifies this
      ensures entries == PutIfAbsent(old(entries), key, t)
      ensures pos == IndexOf(old(entries), key) && inserted == (pos == |old(entries)|)
      ensures pos < |entries| && entries[pos].0 == key
    {
      pos := 0;
      while pos < |entries|
        invariant pos <= |entries| && entries == old(entries) && forall j | 0 <= j < pos :: entries[j].0 != key
      {
        if entries[pos].0 == key {
          IndexIsUnique(entries, key, pos);
          return pos, false;
        }
        pos := pos + 1;
      }
      AbsentIndex(entries, key);
      entries := entries + [(key, t)];
      inserted := true;
    }

    /** `m[key]` is the place of the key's value, made with `zero` when it is new. */
    method Subscript(key: K, zero: V) returns (pos: nat)
      modifies this
      ensures entries == PutIfAbsent(old(entries), key, zero) && pos == IndexOf(old(entries), key)
      ensures pos < |entries| && entries[pos].0 == key
    {
      var inserted;
      pos, inserted := Emplace(key, zero);
    }

    /** `m[key] = value`. */
    method Assign(key: K, value: V, zero: V)
      modifies this
      ensures entries == Put(old(entries), key, value)
    {
      var pos := Subscript(key, zero);
      entries := entries[pos := (entries[pos].0, value)];
    }

    method Insert(value: (K, V)) returns (pos: nat, inserted: bool)
      modifies this
      ensures entries == PutIfAbsent(old(entries), value.0, value.1)
      ensures pos == IndexOf(old(entries), value.0) && inserted == (pos == |old(entries)|)
    {
      pos, inserted := Emplace(value.0, value.1);
    }

    method InsertRange(items: seq<(K, V)>)
      modifies this
      ensures entries == Run(old(entries), Additions(items))
    {
      var i := 0;
      assert items[0..] == items;
      while i < |items|
        invariant 0 <= i <= |items| && Run(entries, Additions(items[i..])) == Run(old(entries), Additions(items))
      {
        assert items[i..][1..] == items[i + 1..];
        var pos, inserted := Insert(items[i]);
        i := i + 1;
      }
      assert items[i..] == [];
    }

    /** The entries behind the key move one place to the front, then the last one goes. */
    method EraseKey(key: K) returns (n: nat)
      modifies this
      ensures entries == Drop(old(entries), key)
      ensures n == if Lookup(old(entries), key).Some? then 1 else 0
    {
      hide RemoveAt;
      ghost var s := entries;
      var i := 0;
      while i < |entries|
        invariant i <= |entries| && entries == s && forall j | 0 <= j < i :: entries[j].0 != key
      {
        if entries[i].0 == key {
          IndexIsUnique(entries, key, i);
          ghost var at := i;
          while i + 1 < |entries|
            invariant at <= i < |entries| == |s|
            invariant forall j | 0 <= j < at :: entries[j] == s[j]
            invariant forall j | at <= j < i :: entries[j] == s[j + 1]
            invariant forall j | i < j < |s| :: entries[j] == s[j]
          {
            entries := entries[i := entries[i + 1]];
            i := i + 1;
          }
          entries := entries[..|entries| - 1];
          assert entries == RemoveAt(s, at);
          return 1;
        }
        i := i + 1;
      }
      AbsentIndex(entries, key);
      n := 0;
    }

    /** What follows the range is copied over it, then the vector is cut to its new length. */
    method EraseRange(first: nat, last: nat) returns (pos: nat)
      requires first <= last <= |entries|
      modifies this
      ensures entries == old(entries[..first] + entries[last..]) && pos == first
    {
      if first == last {
        return first;
      }
      ghost var s := entries;
      var affected := last - first;
      var it := first;
      while it + affected != |entries|
        invariant first <= it && it + affected <= |entries| == |s|
        invariant forall j | 0 <= j < first :: entries[j] == s[j]
        invariant forall j | first <= j < it :: entries[j] == s[j + affected]
        invariant forall j | it <= j < |s| :: entries[j] == s[j]
      {
        entries := entries[it := entries[it + affected]];
        it := it + 1;
      }
      entries := entries[..|entries| - affected];
      assert entries == s[..first] + s[last..];
      pos := first;
    }

    method EraseAt(at: nat) returns (pos: nat)
      requires at < |entries|
      modifies this
      ensures entries == RemoveAt(old(entries), at) && pos == at
    {
      pos := EraseRange(at, at + 1);
    }
  }

  function Additions<K, V>(items: seq<(K, V)>): seq<Edit<K, V>> {
    if items == [] then [] else [AddKey(items[0].0, items[0].1)] + Additions(items[1..])
  }
}
