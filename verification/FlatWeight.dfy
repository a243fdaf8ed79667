// How large flatart's arenas can grow: each build node pays for its values, its arena entry and the
// reference to it, and what lies below a path pays the sum.
module FlatWeight {
  import opened Octets
  import opened Bitsets
  import opened FlatBuild

  // The cost of everything below a path, among the first n nodes.
  ghost function Weight(t: Trie, path: seq<nat>, n: nat): nat
    requires n <= |t.pool| == |t.paths|
  {
    if n == 0 then 0 else Weight(t, path, n - 1) + if path <= t.paths[n - 1] then Cost(t.pool[n - 1]) else 0
  }

  // At the path or below it at octets less than o.
  ghost predicate Within(path: seq<nat>, o: nat, below: seq<nat>) {
    path <= below && (|below| > |path| ==> below[|path|] < o)
  }

  ghost function WeightTo(t: Trie, path: seq<nat>, o: nat, n: nat): nat
    requires n <= |t.pool| == |t.paths|
  {
    if n == 0 then 0 else WeightTo(t, path, o, n - 1) + if Within(path, o, t.paths[n - 1]) then Cost(t.pool[n - 1]) else 0
  }

  lemma WithinNext(path: seq<nat>, o: nat, below: seq<nat>)
    ensures Within(path, o + 1, below) <==> Within(path, o, below) || path + [o] <= below
    ensures path + [o] <= below ==> !Within(path, o, below)
  {
    if path + [o] <= below {
      assert below[|path|] == (path + [o])[|path|];
    }
  }

  lemma {:induction false} WeightNext(t: Trie, path: seq<nat>, o: nat, n: nat)
    requires n <= |t.pool| == |t.paths|
    ensures WeightTo(t, path, o + 1, n) == WeightTo(t, path, o, n) + Weight(t, path + [o], n)
  {
    if n > 0 {
      WeightNext(t, path, o, n - 1);
      WithinNext(path, o, t.paths[n - 1]);
    }
  }

  lemma {:induction false} WeightOwn(t: Trie, i: nat, o: nat, n: nat)
    requires i < n <= |t.pool| == |t.paths|
    ensures WeightTo(t, t.paths[i], o, n) >= Cost(t.pool[i]) && Weight(t, t.paths[i], n) >= Cost(t.pool[i])
  {
    if i < n - 1 {
      WeightOwn(t, i, o, n - 1);
    }
  }

  lemma {:induction false} WeightAll(t: Trie, path: seq<nat>, n: nat)
    requires n <= |t.pool| == |t.paths| && forall j :: 0 <= j < |t.paths| ==> IsKey(t.paths[j])
    ensures WeightTo(t, path, 256, n) == Weight(t, path, n)
  {
    if n > 0 {
      WeightAll(t, path, n - 1);
      assert IsKey(t.paths[n - 1]);
    }
  }

  // The references a node reserves are paid for by the children that are still to come.
  lemma {:induction false} KidsWeigh(d: nat, t: Trie, i: nat, kids: seq<bool>, o: nat)
    requires Inv(d, t) && i < |t.pool| == |t.paths| && o <= 256 == |kids|
    requires forall q :: 0 <= q < 256 ==> (kids[q] <==> q in t.pool[i].children)
    ensures WeightTo(t, t.paths[i], o, |t.pool|) + Count(kids) <= Weight(t, t.paths[i], |t.pool|) + Rank(kids, o)
    decreases 256 - o
  {
    hide Inv, Rank, Count, Weight, WeightTo;
    if o == 256 {
      AllWeighed(d, t, i);
      RankAll(kids);
    } else {
      KidsWeigh(d, t, i, kids, o + 1);
      RankStep(kids, o);
      WeightNext(t, t.paths[i], o, |t.pool|);
      if kids[o] {
        KidWeighs(d, t, i, o);
      }
    }
  }

  lemma AllWeighed(d: nat, t: Trie, i: nat)
    requires Inv(d, t) && i < |t.pool| == |t.paths|
    ensures WeightTo(t, t.paths[i], 256, |t.pool|) == Weight(t, t.paths[i], |t.pool|)
  {
    WeightAll(t, t.paths[i], |t.pool|);
  }

  lemma KidWeighs(d: nat, t: Trie, i: nat, o: nat)
    requires Inv(d, t) && i < |t.pool| == |t.paths| && o in t.pool[i].children
    ensures Weight(t, t.paths[i] + [o], |t.pool|) > 0
  {
    assert NodeOk(t, i);
    WeightOwn(t, t.pool[i].children[o], 0, |t.pool|);
  }

  // ---------------------------------------------------------------- the root

  ghost function RootWeight(t: Trie, k: nat, n: nat): nat
    requires n <= |t.pool| == |t.paths|
  {
    if n == 0 then 0 else RootWeight(t, k, n - 1) + if RootKey(t.paths[n - 1]) < k then Cost(t.pool[n - 1]) else 0
  }

  // The root key a node lies below.
  function RootKey(path: seq<nat>): nat {
    if |path| < 2 then 0 else 256 * path[0] + path[1]
  }

  lemma {:induction false} RootNext(d: nat, t: Trie, k: nat, n: nat)
    requires Inv(d, t) && n <= |t.pool| == |t.paths| && k < 65536
    ensures RootWeight(t, k + 1, n) == RootWeight(t, k, n) + Weight(t, RootPath(k), n)
  {
    if n > 0 {
      RootNext(d, t, k, n - 1);
      RootKeyIs(d, t, k, n - 1);
    }
  }

  lemma RootKeyIs(d: nat, t: Trie, k: nat, j: nat)
    requires Inv(d, t) && j < |t.pool| == |t.paths| && k < 65536
    ensures RootPath(k) <= t.paths[j] <==> RootKey(t.paths[j]) == k
  {
    assert |t.paths[j]| >= 2 && IsKey(t.paths[j]);
  }

  lemma {:induction false} RootNone(t: Trie, n: nat)
    requires n <= |t.pool| == |t.paths|
    ensures RootWeight(t, 0, n) == 0
  {
    if n > 0 {
      RootNone(t, n - 1);
    }
  }

  lemma {:induction false} RootWithin(t: Trie, k: nat, n: nat)
    requires n <= |t.pool| == |t.paths|
    ensures RootWeight(t, k, n) <= TotalCost(t.pool[..n])
  {
    if n > 0 {
      RootWithin(t, k, n - 1);
      assert t.pool[..n][..n - 1] == t.pool[..n - 1];
    }
  }
}
