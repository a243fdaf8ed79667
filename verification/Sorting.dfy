// The library sort the builders call, on a two-part integer key.
module Sorting {
  import opened Options

  type Key = (int, int)

  predicate KeyLess(a: Key, b: Key) {
    a.0 < b.0 || (a.0 == b.0 && a.1 < b.1)
  }

  ghost predicate Sorted<T(!new)>(s: seq<T>, key: T -> Key) {
    forall i, j :: 0 <= i < j < |s| ==> !KeyLess(key(s[j]), key(s[i]))
  }

  // The end of the elements whose key is not greater than x's.
  function Position<T(!new)>(x: T, s: seq<T>, key: T -> Key): (k: nat)
    requires Sorted(s, key)
    ensures k <= |s|
    ensures forall i :: 0 <= i < k ==> !KeyLess(key(x), key(s[i]))
    ensures forall i :: k <= i < |s| ==> KeyLess(key(x), key(s[i]))
  {
    if |s| == 0 then 0
    else if KeyLess(key(x), key(s[|s| - 1])) then Position(x, s[..|s| - 1], key)
    else |s|
  }

  // Places x after every element whose key is not greater, so equal keys keep their order.
  function Place<T(!new)>(x: T, s: seq<T>, key: T -> Key): (r: seq<T>)
    requires Sorted(s, key)
    ensures Sorted(r, key) && multiset(r) == multiset(s) + multiset{x}
  {
    var k := Position(x, s, key);
    assert s == s[..k] + s[k..];
    s[..k] + [x] + s[k..]
  }

  function Sort<T(!new)>(s: seq<T>, key: T -> Key): (r: seq<T>)
    ensures Sorted(r, key) && multiset(r) == multiset(s) && |r| == |s|
  {
    if |s| == 0 then []
    else
      assert s == s[..|s| - 1] + [s[|s| - 1]];
      var r := Place(s[|s| - 1], Sort(s[..|s| - 1], key), key);
      assert |r| == |multiset(r)|;
      r
  }

  // The elements of a set in some order, as iterating a Go map yields its keys.
  method Elements<T(==)>(s: set<T>) returns (r: seq<T>)
    ensures multiset(r) == multiset(s)
    ensures forall x :: x in r <==> x in s
  {
    r := [];
    var rest := s;
    while rest != {}
      invariant rest <= s && multiset(r) == multiset(s - rest)
      decreases |rest|
    {
      var x :| x in rest;
      assert s - (rest - {x}) == (s - rest) + {x};
      r := r + [x];
      rest := rest - {x};
    }
    assert s - rest == s;
    assert forall x :: x in r <==> x in multiset(r);
  }

  // A sequence with the elements of a set, each once, has no repeats.
  lemma {:induction false} NoRepeats<T>(r: seq<T>, s: set<T>)
    requires multiset(r) == multiset(s)
    ensures forall i, j :: 0 <= i < j < |r| ==> r[i] != r[j]
    ensures forall x :: x in r <==> x in s
  {
    forall i, j | 0 <= i < j < |r| ensures r[i] != r[j] {
      assert r == r[..j] + [r[j]] + r[j + 1..];
      assert r[..j] == r[..i] + [r[i]] + r[i + 1..j];
      assert multiset(r)[r[j]] == multiset(s)[r[j]] <= 1;
    }
    assert forall x :: x in r <==> x in multiset(r);
  }

  lemma {:induction false} OnceEach<T>(s: seq<T>)
    requires forall i, j :: 0 <= i < j < |s| ==> s[i] != s[j]
    ensures forall x :: multiset(s)[x] <= 1
  {
    if |s| > 0 {
      var front := s[..|s| - 1];
      OnceEach(front);
      assert s == front + [s[|s| - 1]];
      assert s[|s| - 1] !in front;
    }
  }

  // Rearranging a sequence without repeats makes none.
  lemma SameApart<T>(r: seq<T>, s: seq<T>)
    requires multiset(r) == multiset(s) && forall i, j :: 0 <= i < j < |s| ==> s[i] != s[j]
    ensures forall i, j :: 0 <= i < j < |r| ==> r[i] != r[j]
  {
    OnceEach(s);
    forall i, j | 0 <= i < j < |r| ensures r[i] != r[j] {
      assert r == r[..j] + [r[j]] + r[j + 1..];
      assert r[..j] == r[..i] + [r[i]] + r[i + 1..j];
      assert multiset(r)[r[j]] <= 1;
    }
  }

  lemma SameElements<T>(s: seq<T>, t: seq<T>)
    requires multiset(s) == multiset(t)
    ensures forall x :: x in s <==> x in t
  {
    assert forall x :: x in s <==> x in multiset(s);
    assert forall x :: x in t <==> x in multiset(t);
  }

  lemma Subset<T>(s: set<T>, t: set<T>)
    requires s <= t
    ensures |s| <= |t|
  {
    assert t == s + (t - s);
  }

  // ---------------------------------------------------------------- stability

  // The last element of a kind.
  ghost function LastWhere<T>(s: seq<T>, kind: T -> bool): Option<T> {
    if |s| == 0 then None
    else if kind(s[|s| - 1]) then Some(s[|s| - 1])
    else LastWhere(s[..|s| - 1], kind)
  }

  lemma {:induction false} LastAppend<T>(s: seq<T>, t: seq<T>, kind: T -> bool)
    ensures LastWhere(s + t, kind) == if LastWhere(t, kind).Some? then LastWhere(t, kind) else LastWhere(s, kind)
  {
    if |t| == 0 {
      assert s + t == s;
    } else {
      LastAppend(s, t[..|t| - 1], kind);
      assert (s + t)[..|s + t| - 1] == s + t[..|t| - 1];
    }
  }

  lemma {:induction false} LastNone<T>(s: seq<T>, kind: T -> bool)
    requires forall i :: 0 <= i < |s| ==> !kind(s[i])
    ensures LastWhere(s, kind) == None
  {
    if |s| > 0 {
      LastNone(s[..|s| - 1], kind);
    }
  }

  // Placing an element after those with its key makes it the last of its kind.
  lemma PlacedLast<T(!new)>(x: T, s: seq<T>, key: T -> Key, kind: T -> bool)
    requires Sorted(s, key) && forall y, z :: kind(y) && kind(z) ==> key(y) == key(z)
    ensures LastWhere(Place(x, s, key), kind) == if kind(x) then Some(x) else LastWhere(s, kind)
  {
    var at := Position(x, s, key);
    var front, back := s[..at], s[at..];
    assert s == front + back;
    LastAppend(front, back, kind);
    LastAppend(front + [x], back, kind);
    LastAppend(front, [x], kind);
    if kind(x) {
      LastNone(back, kind);
    }
  }

  // Sorting is stable: of a kind whose elements all have one key, the last stays the last.
  lemma {:induction false} SortKeepsLast<T(!new)>(s: seq<T>, key: T -> Key, kind: T -> bool)
    requires forall y, z :: kind(y) && kind(z) ==> key(y) == key(z)
    ensures LastWhere(Sort(s, key), kind) == LastWhere(s, kind)
  {
    if |s| > 0 {
      SortKeepsLast(s[..|s| - 1], key, kind);
      PlacedLast(s[|s| - 1], Sort(s[..|s| - 1], key), key, kind);
    }
  }
}
