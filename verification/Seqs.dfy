/** Sequences without repetitions, and taking one element out. */
module Seqs {

  predicate NoRepeats<T(==)>(s: seq<T>) {
    forall i, j | 0 <= i < j < |s| :: s[i] != s[j]
  }

  lemma AppendDistinct<T>(s: seq<T>, x: T)
    requires NoRepeats(s) && x !in s
    ensures NoRepeats(s + [x])
  {
  }

  function Elements<T>(s: seq<T>): set<T> {
    set x | x in s
  }

  lemma NoElements<T>(s: seq<T>)
    ensures Elements(s) == {} ==> s == []
  {
    if s != [] {
      assert s[0] in Elements(s);
    }
  }

  lemma {:induction false} SizeOfElements<T>(s: seq<T>)
    requires NoRepeats(s)
    ensures |Elements(s)| == |s|
  {
    if s == [] {
      assert Elements(s) == {};
    } else {
      var n := |s| - 1;
      SizeOfElements(s[..n]);
      assert s[n] !in s[..n];
      assert Elements(s) == Elements(s[..n]) + {s[n]};
    }
  }

  function RemoveAt<T>(s: seq<T>, i: nat): (r: seq<T>)
    requires i < |s|
    ensures |r| == |s| - 1
    ensures forall j | 0 <= j < i :: r[j] == s[j]
    ensures forall j | i <= j < |r| :: r[j] == s[j + 1]
  {
    s[..i] + s[i + 1..]
  }

  function InsertAt<T>(s: seq<T>, i: nat, x: T): (r: seq<T>)
    requires i <= |s|
    ensures |r| == |s| + 1 && r[i] == x
    ensures forall j | 0 <= j < i :: r[j] == s[j]
    ensures forall j | i < j < |r| :: r[j] == s[j - 1]
  {
    s[..i] + [x] + s[i..]
  }

  /** Where the element is first, or the length. */
  function Position<T(==)>(s: seq<T>, x: T): (i: nat)
    ensures i <= |s| && (i < |s| ==> s[i] == x) && (i == |s| <==> x !in s)
    ensures forall j | 0 <= j < i :: s[j] != x
  {
    if s == [] || s[0] == x then 0 else 1 + Position(s[1..], x)
  }

  /** The sequence without `x`. */
  function Without<T(==)>(s: seq<T>, x: T): seq<T> {
    if x in s then RemoveAt(s, Position(s, x)) else s
  }

  lemma WithoutMembers<T>(s: seq<T>, x: T)
    requires NoRepeats(s)
    ensures NoRepeats(Without(s, x)) && x !in Without(s, x)
    ensures forall y | y in s && y != x :: y in Without(s, x)
    ensures forall y | y in Without(s, x) :: y in s
  {
    hide RemoveAt, Position;
    var r := Without(s, x);
    var i := Position(s, x);
    forall y | y != x && y in s ensures y in r {
      var j := Position(s, y);
      assert r[if j < i then j else j - 1] == y;
    }
  }

  /** When `x` is the last element once `c` is gone. */
  lemma LastWithout<T>(s: seq<T>, x: T, c: T)
    requires NoRepeats(s) && x in s && x != c
    ensures x in Without(s, c)
    ensures var i, r := Position(s, x), Without(s, c);
            Position(r, x) + 1 == |r| <==> i + 1 == |s| || (i + 2 == |s| && s[i + 1] == c)
  {
    hide Position, RemoveAt;
    var i, j, r := Position(s, x), Position(s, c), Without(s, c);
    if c in s {
      var k := if i < j then i else i - 1;
      assert r[k] == x;
      WithoutMembers(s, c);
      PositionIs(r, x, k);
    }
  }

  lemma PositionIs<T>(s: seq<T>, x: T, i: nat)
    requires NoRepeats(s) && i < |s| && s[i] == x
    ensures Position(s, x) == i
  {
    var at := Position(s, x);
    assert x in s;
    assert at < |s| && s[at] == x;
  }

  lemma InsertMembers<T>(s: seq<T>, i: nat, x: T)
    requires NoRepeats(s) && i <= |s| && x !in s
    ensures NoRepeats(InsertAt(s, i, x))
    ensures x in InsertAt(s, i, x) && forall y | y in s :: y in InsertAt(s, i, x)
    ensures forall y | y in InsertAt(s, i, x) :: y in s || y == x
  {
    hide InsertAt;
    var r := InsertAt(s, i, x);
    forall y | y in s ensures y in r {
      var j := Position(s, y);
      assert r[if j < i then j else j + 1] == y;
    }
    assert r[i] == x;
  }

  /** Putting an element in and taking it out again. */
  lemma WithoutInserted<T>(s: seq<T>, i: nat, x: T)
    requires i <= |s| && x !in s
    ensures Without(InsertAt(s, i, x), x) == s
  {
    var r := InsertAt(s, i, x);
    assert forall j | 0 <= j < i :: r[j] == s[j];
    assert r[i] == x;
    var at := Position(r, x);
    assert x in r && at == i;
    assert RemoveAt(r, i) == s;
  }
}
