// The sorted slices the managed tables keep: binary search, splice in, splice out, and collapsing
// equal neighbours of a sorted slice.
module PackedLists {
  import opened Sorting

  ghost predicate Strict<T(!new)>(s: seq<T>, key: T -> Key) {
    forall i, j :: 0 <= i < j < |s| ==> KeyLess(key(s[i]), key(s[j]))
  }

  // The first place whose element is not below k.
  ghost predicate Lower<T(!new)>(s: seq<T>, key: T -> Key, k: Key, at: nat) {
    && at <= |s|
    && (forall i :: 0 <= i < at ==> KeyLess(key(s[i]), k))
    && (forall i :: at <= i < |s| ==> !KeyLess(key(s[i]), k))
  }

  method Search<T(!new)>(s: seq<T>, key: T -> Key, k: Key) returns (at: nat)
    requires Strict(s, key)
    ensures Lower(s, key, k, at)
  {
    at := 0;
    var high: nat := |s|;
    while at < high
      invariant at <= high <= |s|
      invariant forall i :: 0 <= i < at ==> KeyLess(key(s[i]), k)
      invariant forall i :: high <= i < |s| ==> !KeyLess(key(s[i]), k)
    {
      var mid := (at + high) / 2;
      if !KeyLess(key(s[mid]), k) {
        high := mid;
      } else {
        at := mid + 1;
      }
    }
  }

  // An element with a key of its own is present exactly when it is where the search stops.
  lemma Present<T(!new)>(s: seq<T>, key: T -> Key, x: T, at: nat)
    requires Strict(s, key) && Lower(s, key, key(x), at)
    requires forall i :: 0 <= i < |s| && key(s[i]) == key(x) ==> s[i] == x
    ensures x in s <==> at < |s| && s[at] == x
  {
    if x in s {
      var i :| 0 <= i < |s| && s[i] == x;
      assert at <= i;
      NotLater(s, key, x, at, i);
    }
  }

  lemma NotLater<T(!new)>(s: seq<T>, key: T -> Key, x: T, at: nat, i: nat)
    requires Strict(s, key) && Lower(s, key, key(x), at) && at <= i < |s| && s[i] == x
    ensures i == at
  {
    assert !KeyLess(key(s[at]), key(x));
  }

  lemma SplicedIn<T(!new)>(s: seq<T>, key: T -> Key, x: T, at: nat)
    requires Strict(s, key) && Lower(s, key, key(x), at) && forall i :: 0 <= i < |s| ==> key(s[i]) != key(x)
    ensures Strict(s[..at] + [x] + s[at..], key)
    ensures forall y :: y in s[..at] + [x] + s[at..] <==> y in s || y == x
  {
    assert s == s[..at] + s[at..];
  }

  lemma SplicedOut<T(!new)>(s: seq<T>, key: T -> Key, x: T, at: nat)
    requires Strict(s, key) && at < |s| && s[at] == x
    ensures Strict(s[..at] + s[at + 1..], key)
    ensures forall y :: y in s[..at] + s[at + 1..] <==> y in s && y != x
  {
    assert s == s[..at] + [s[at]] + s[at + 1..];
    assert forall i :: 0 <= i < |s| && i != at ==> key(s[i]) != key(x);
  }

  // Collapses equal neighbours of a sorted slice.
  method DedupSorted<T(==, !new)>(s: seq<T>, key: T -> Key) returns (r: seq<T>)
    requires Sorted(s, key) && forall x, y :: x in s && y in s && key(x) == key(y) ==> x == y
    ensures Strict(r, key) && forall y :: y in r <==> y in s
  {
    r := [];
    for i := 0 to |s|
      invariant Strict(r, key)
      invariant forall y :: y in r <==> y in s[..i]
      invariant if i == 0 then r == [] else |r| > 0 && r[|r| - 1] == s[i - 1]
    {
      assert s[..i + 1] == s[..i] + [s[i]];
      if i == 0 || s[i] != r[|r| - 1] {
        if i > 0 {
          assert s[i - 1] in s && s[i] in s;
          assert KeyLess(key(s[i - 1]), key(s[i]));
          assert forall j :: 0 <= j < |r| - 1 ==> KeyLess(key(r[j]), key(r[|r| - 1]));
        }
        r := r + [s[i]];
      }
    }
    assert s[..|s|] == s;
  }
}
