// flatart's pass before compiling: each build node's count of prefixes at or below it and, where there
// is just one, which it is; the compiler turns such a subtree into a single leaf.
module FlatSummary {
  import opened Prefixes
  import opened Octets
  import opened PathKeys
  import opened FlatIndex
  import opened FlatBuild

  // The prefixes stored below a node: how many, and which one when there is just one.
  datatype Summary = Summary(count: nat, only: Prefix, ref: nat)

  ghost predicate OnlyBelow(stored: map<Pos, nat>, path: seq<nat>, x: Pos) {
    x in stored && path <= x.path && forall y <- stored :: path <= y.path ==> y == x
  }

  ghost predicate OnlyIs(d: nat, stored: map<Pos, nat>, path: seq<nat>, x: Pos, only: Prefix, ref: nat) {
    OnlyBelow(stored, path, x) && 1 <= x.idx < 512 && |x.path| < d && only == PosPrefix(d, x) && ref == stored[x]
  }

  ghost function StoredBelow(stored: map<Pos, nat>, path: seq<nat>): set<Pos> {
    set x | x in stored && path <= x.path
  }

  ghost predicate SummaryOk(d: nat, t: Trie, i: nat, s: Summary)
    requires i < |t.paths|
  {
    && s.count == |StoredBelow(t.stored, t.paths[i])|
    && (s.count == 0 ==> Nothing(t.stored, t.paths[i]))
    && (s.count == 1 ==> exists x :: OnlyIs(d, t.stored, t.paths[i], x, s.only, s.ref))
  }

  ghost predicate SumsOk(d: nat, t: Trie, sums: map<nat, Summary>) {
    forall i <- sums :: i < |t.paths| && SummaryOk(d, t, i, sums[i])
  }

  // Every node at or below i has been summarised.
  ghost predicate Summarised(t: Trie, sums: map<nat, Summary>, i: nat)
    requires i < |t.paths|
  {
    forall j :: 0 <= j < |t.paths| && t.paths[i] <= t.paths[j] ==> j in sums
  }

  // A subtree with no prefix of its own at the node and only empty children is empty.
  lemma EmptyNode(d: nat, t: Trie, i: nat, sums: map<nat, Summary>)
    requires Inv(d, t) && SumsOk(d, t, sums) && i < |t.pool| && |t.pool[i].pfx| == 0
    requires forall o <- t.pool[i].children :: t.pool[i].children[o] in sums && sums[t.pool[i].children[o]].count == 0
    ensures Nothing(t.stored, t.paths[i])
  {
    assert NodeOk(t, i);
    forall y <- t.stored ensures !(t.paths[i] <= y.path) {
      if t.paths[i] <= y.path {
        ChildHolds(d, t, i, sums, y);
      }
    }
  }

  // A prefix stored below a node is the node's own or lies below a child that is not empty.
  lemma ChildHolds(d: nat, t: Trie, i: nat, sums: map<nat, Summary>, y: Pos)
    requires Inv(d, t) && SumsOk(d, t, sums) && i < |t.pool| && y in t.stored && t.paths[i] <= y.path
    requires forall o <- t.pool[i].children :: t.pool[i].children[o] in sums
    ensures |y.path| == |t.paths[i]| ==> y == Pos(t.paths[i], y.idx) && y.idx in t.pool[i].pfx
    ensures |y.path| != |t.paths[i]| ==>
              && y.path[|t.paths[i]|] in t.pool[i].children
              && sums[t.pool[i].children[y.path[|t.paths[i]|]]].count > 0
              && t.paths[i] + [y.path[|t.paths[i]|]] <= y.path
  {
    assert NodeOk(t, i) && IsKey(y.path);
    hide Inv, Reached;
    if |y.path| == |t.paths[i]| {
      assert y == Pos(t.paths[i], y.idx);
    } else {
      DeepHolds(d, t, i, sums, y);
    }
  }

  lemma DeepHolds(d: nat, t: Trie, i: nat, sums: map<nat, Summary>, y: Pos)
    requires i < |t.pool| == |t.paths| && NodeOk(t, i) && SumsOk(d, t, sums) && IsKey(y.path)
    requires y in t.stored && t.paths[i] <= y.path && |y.path| > |t.paths[i]|
    requires forall o <- t.pool[i].children :: t.pool[i].children[o] in sums
    ensures y.path[|t.paths[i]|] in t.pool[i].children
    ensures sums[t.pool[i].children[y.path[|t.paths[i]|]]].count > 0
    ensures t.paths[i] + [y.path[|t.paths[i]|]] <= y.path
  {
    hide Lists, OnlyIs;
    var o := y.path[|t.paths[i]|];
    assert t.paths[i] + [o] <= y.path && o < 256;
    assert o in t.pool[i].children;
    assert SummaryOk(d, t, t.pool[i].children[o], sums[t.pool[i].children[o]]);
  }

  lemma OwnOnly(d: nat, t: Trie, i: nat, sums: map<nat, Summary>, idx: nat)
    requires Inv(d, t) && SumsOk(d, t, sums) && i < |t.pool| && t.pool[i].pfx.Keys == {idx}
    requires forall o <- t.pool[i].children :: t.pool[i].children[o] in sums && sums[t.pool[i].children[o]].count == 0
    ensures 2 <= idx < 512
    ensures OnlyIs(d, t.stored, t.paths[i], Pos(t.paths[i], idx),
                   Prefix(WithOctet(d, PathKey(d, t.paths[i]), |t.paths[i]|, IdxOctet(idx)), 8 * |t.paths[i]| + IdxLen(idx)),
                   t.pool[i].pfx[idx])
  {
    assert NodeOk(t, i);
    var x := Pos(t.paths[i], idx);
    assert idx in t.pool[i].pfx && x in t.stored;
    forall y <- t.stored | t.paths[i] <= y.path ensures y == x {
      ChildHolds(d, t, i, sums, y);
    }
    PlantOctet(d, t.paths[i], IdxOctet(idx));
  }

  lemma ChildOnly(d: nat, t: Trie, i: nat, sums: map<nat, Summary>, q: nat)
    requires Inv(d, t) && SumsOk(d, t, sums) && i < |t.pool| && |t.pool[i].pfx| == 0 && q in t.pool[i].children
    requires forall o <- t.pool[i].children :: t.pool[i].children[o] in sums
    requires sums[t.pool[i].children[q]].count == 1
    requires forall o <- t.pool[i].children :: o != q ==> sums[t.pool[i].children[o]].count == 0
    ensures exists x :: OnlyIs(d, t.stored, t.paths[i], x, sums[t.pool[i].children[q]].only, sums[t.pool[i].children[q]].ref)
  {
    assert NodeOk(t, i);
    var c := t.pool[i].children[q];
    assert SummaryOk(d, t, c, sums[c]);
    var x :| OnlyIs(d, t.stored, t.paths[c], x, sums[c].only, sums[c].ref);
    assert t.paths[i] <= t.paths[i] + [q] <= x.path;
    forall y <- t.stored | t.paths[i] <= y.path ensures y == x {
      ChildHolds(d, t, i, sums, y);
    }
    assert OnlyIs(d, t.stored, t.paths[i], x, sums[c].only, sums[c].ref);
  }

  lemma SingletonKeys(m: map<nat, nat>, idx: nat)
    requires |m| == 1 && idx in m
    ensures m.Keys == {idx}
  {
    assert |m.Keys - {idx}| == 0;
  }

  // ---------------------------------------------------------------- counting

  // The prefixes at the node and below its children at octets below n.
  ghost function StoredTo(stored: map<Pos, nat>, path: seq<nat>, n: nat): set<Pos> {
    set x | x in stored && path <= x.path && (|x.path| > |path| ==> x.path[|path|] < n)
  }

  lemma OwnCount(d: nat, t: Trie, i: nat)
    requires Inv(d, t) && i < |t.pool|
    ensures i < |t.paths|
    ensures |StoredTo(t.stored, t.paths[i], 0)| == |t.pool[i].pfx|
  {
    assert NodeOk(t, i);
    hide Inv;
    var own := set idx | idx in t.pool[i].pfx :: Pos(t.paths[i], idx);
    SameSize(t.paths[i], t.pool[i].pfx.Keys, own);
    forall x ensures x in StoredTo(t.stored, t.paths[i], 0) <==> x in own {
      if x in t.stored && t.paths[i] <= x.path && |x.path| <= |t.paths[i]| {
        assert x == Pos(t.paths[i], x.idx);
      }
    }
    assert StoredTo(t.stored, t.paths[i], 0) == own;
  }

  lemma {:induction false} SameSize(path: seq<nat>, idxs: set<nat>, own: set<Pos>)
    requires own == set idx | idx in idxs :: Pos(path, idx)
    ensures |own| == |idxs|
  {
    if idxs != {} {
      var idx :| idx in idxs;
      SameSize(path, idxs - {idx}, own - {Pos(path, idx)});
    }
  }

  lemma ChildCount(t: Trie, i: nat, o: nat)
    requires i < |t.paths|
    ensures |StoredTo(t.stored, t.paths[i], o + 1)| == |StoredTo(t.stored, t.paths[i], o)| + |StoredBelow(t.stored, t.paths[i] + [o])|
  {
    var path := t.paths[i];
    var all, before, child := StoredTo(t.stored, path, o + 1), StoredTo(t.stored, path, o), StoredBelow(t.stored, path + [o]);
    forall x ensures x in child <==> x in t.stored && path <= x.path && |x.path| > |path| && x.path[|path|] == o {
      if x in child {
        assert x.path[|path|] == (path + [o])[|path|];
      }
    }
    assert all == before + child && before !! child;
  }

  lemma CountStep(d: nat, t: Trie, i: nat, sums: map<nat, Summary>, o: nat)
    requires Inv(d, t) && i < |t.pool| && SumsOk(d, t, sums) && o < 256
    requires o in t.pool[i].children ==> t.pool[i].children[o] in sums
    ensures i < |t.paths|
    ensures |StoredTo(t.stored, t.paths[i], o + 1)| ==
              |StoredTo(t.stored, t.paths[i], o)| + if o in t.pool[i].children then sums[t.pool[i].children[o]].count else 0
  {
    assert NodeOk(t, i) && |t.paths| == |t.pool|;
    hide Inv, StoredTo, Lists;
    ChildCount(t, i, o);
    if o in t.pool[i].children {
      assert SummaryOk(d, t, t.pool[i].children[o], sums[t.pool[i].children[o]]);
    } else {
      assert StoredBelow(t.stored, t.paths[i] + [o]) == {};
    }
  }

  lemma AllCounted(d: nat, t: Trie, i: nat)
    requires Inv(d, t) && i < |t.paths|
    ensures StoredTo(t.stored, t.paths[i], 256) == StoredBelow(t.stored, t.paths[i])
  {
  }

  // Counts and sole prefixes of a node and everything below it, children first.
  method Summarize(d: nat, pool: seq<BNode>, i: nat, byteIndex: nat, pathKey: nat, sums: map<nat, Summary>,
                   ghost t: Trie) returns (r: map<nat, Summary>)
    requires Inv(d, t) && pool == t.pool && i < |pool| && SumsOk(d, t, sums)
    requires byteIndex == |t.paths[i]| && pathKey == PathKey(d, t.paths[i])
    ensures SumsOk(d, t, r) && sums.Keys <= r.Keys && Summarised(t, r, i)
    decreases |pool| - i
  {
    hide Inv, SummaryOk, SumsOk, Summarised, PathKey, WithOctet;
    r := sums;
    var bn := pool[i];
    KidsBelow(d, t, i);
    for o := 0 to 256
      invariant SumsOk(d, t, r) && sums.Keys <= r.Keys
      invariant forall q <- bn.children :: q < o ==> Summarised(t, r, bn.children[q])
    {
      if o in bn.children {
        PlantOctet(d, t.paths[i], o);
        ghost var before := r;
        r := Summarize(d, pool, bn.children[o], byteIndex + 1, WithOctet(d, pathKey, byteIndex, o), r, t);
        SummarisedGrows(t, before, r);
      }
    }
    ChildrenSummarised(d, t, i, r);
    ghost var before := r;
    var s := Total(d, bn, byteIndex, pathKey, i, r, t);
    r := r[i := s];
    SummarisedGrows(t, before, r);
    SumsGrow(d, t, before, i, s);
    SelfSummarised(d, t, i, r);
  }

  lemma KidsBelow(d: nat, t: Trie, i: nat)
    requires Inv(d, t) && i < |t.pool|
    ensures |t.paths| == |t.pool| && |t.paths[i]| < d
    ensures forall o <- t.pool[i].children :: o < 256 && i < t.pool[i].children[o] < |t.pool|
                                              && t.paths[t.pool[i].children[o]] == t.paths[i] + [o]
  {
    assert NodeOk(t, i);
  }

  lemma SummarisedGrows(t: Trie, r: map<nat, Summary>, r': map<nat, Summary>)
    requires r.Keys <= r'.Keys
    ensures forall j :: 0 <= j < |t.paths| && Summarised(t, r, j) ==> Summarised(t, r', j)
  {
  }

  lemma SumsGrow(d: nat, t: Trie, r: map<nat, Summary>, i: nat, s: Summary)
    requires SumsOk(d, t, r) && i < |t.paths| && SummaryOk(d, t, i, s)
    ensures SumsOk(d, t, r[i := s])
  {
  }

  lemma SelfSummarised(d: nat, t: Trie, i: nat, r: map<nat, Summary>)
    requires Inv(d, t) && i < |t.pool| && i in r
    requires forall q <- t.pool[i].children :: q < 256 ==> t.pool[i].children[q] < |t.paths| && Summarised(t, r, t.pool[i].children[q])
    ensures Summarised(t, r, i)
  {
    forall j | 0 <= j < |t.paths| && t.paths[i] <= t.paths[j] ensures j in r {
      if j != i {
        assert t.paths[j] != t.paths[i];
        var o := t.paths[j][|t.paths[i]|];
        assert t.paths[i] + [o] <= t.paths[j];
        ChildOnPath(d, t, i, o, j);
        assert NodeOk(t, i);
        assert Summarised(t, r, t.pool[i].children[o]);
      }
    }
  }

  lemma ChildrenSummarised(d: nat, t: Trie, i: nat, sums: map<nat, Summary>)
    requires Inv(d, t) && i < |t.pool|
    requires forall q <- t.pool[i].children :: q < 256 ==> t.pool[i].children[q] < |t.paths| && Summarised(t, sums, t.pool[i].children[q])
    ensures forall q <- t.pool[i].children :: t.pool[i].children[q] in sums
  {
    assert NodeOk(t, i);
    forall q <- t.pool[i].children ensures t.pool[i].children[q] in sums {
      var c := t.pool[i].children[q];
      assert t.paths[c] <= t.paths[c];
    }
  }

  method OwnSummary(d: nat, bn: BNode, byteIndex: nat, pathKey: nat, ghost i: nat, sums: map<nat, Summary>, ghost t: Trie)
    returns (s: Summary)
    requires Inv(d, t) && i < |t.pool| && bn == t.pool[i] && SumsOk(d, t, sums) && |bn.pfx| == 1
    requires byteIndex == |t.paths[i]| && pathKey == PathKey(d, t.paths[i])
    requires forall o <- bn.children :: bn.children[o] in sums && sums[bn.children[o]].count == 0
    requires |StoredBelow(t.stored, t.paths[i])| == 1
    ensures SummaryOk(d, t, i, s)
  {
    assert |t.paths| == |t.pool| && |t.paths[i]| < d;
    hide Inv, OnlyIs, Nothing, PathKey, WithOctet;
    var idx :| idx in bn.pfx;
    SingletonKeys(bn.pfx, idx);
    OwnOnly(d, t, i, sums, idx);
    s := Summary(1, Prefix(WithOctet(d, pathKey, byteIndex, IdxOctet(idx)), 8 * byteIndex + IdxLen(idx)), bn.pfx[idx]);
    assert OnlyIs(d, t.stored, t.paths[i], Pos(t.paths[i], idx), s.only, s.ref);
  }

  // Adds the children's counts to the node's own; when they contribute exactly one prefix,
  // one is the child that holds it.
  method AddCounts(children: map<nat, nat>, sums: map<nat, Summary>, own: nat, ghost d: nat, ghost t: Trie,
                   ghost i: nat) returns (total: nat, one: nat)
    requires forall o <- children :: o < 256 && children[o] in sums
    requires Inv(d, t) && i < |t.pool| && children == t.pool[i].children && own == |t.pool[i].pfx| && SumsOk(d, t, sums)
    ensures i < |t.paths| && total == |StoredBelow(t.stored, t.paths[i])|
    ensures total >= own
    ensures total == own ==> forall q <- children :: sums[children[q]].count == 0
    ensures total == own + 1 ==> one in children && sums[children[one]].count == 1
    ensures total == own + 1 ==> forall q <- children :: q != one ==> sums[children[q]].count == 0
  {
    hide Inv, NodeOk, SumsOk, StoredBelow, StoredTo;
    OwnCount(d, t, i);
    AllCounted(d, t, i);
    total, one := own, 256;
    for o := 0 to 256
      invariant total >= own && total == |StoredTo(t.stored, t.paths[i], o)|
      invariant total == own ==> forall q <- children :: q < o ==> sums[children[q]].count == 0
      invariant total == own + 1 ==> one in children && sums[children[one]].count == 1
      invariant total == own + 1 ==> forall q <- children :: q < o && q != one ==> sums[children[q]].count == 0
    {
      CountStep(d, t, i, sums, o);
      if o in children {
        if sums[children[o]].count == 1 && total == own {
          one := o;
        }
        total := total + sums[children[o]].count;
      }
    }
  }

  // The node's own total over already summarised children.
  method Total(d: nat, bn: BNode, byteIndex: nat, pathKey: nat, ghost i: nat, sums: map<nat, Summary>, ghost t: Trie)
    returns (s: Summary)
    requires Inv(d, t) && i < |t.pool| && bn == t.pool[i] && SumsOk(d, t, sums)
    requires byteIndex == |t.paths[i]| && pathKey == PathKey(d, t.paths[i])
    requires forall o <- bn.children :: bn.children[o] in sums
    ensures SummaryOk(d, t, i, s)
  {
    assert |t.paths| == |t.pool|;
    assert forall o <- bn.children :: o < 256 by { assert NodeOk(t, i); }
    hide Inv, OnlyIs, Nothing, PathKey, WithOctet, SumsOk;
    var total, one := AddCounts(bn.children, sums, |bn.pfx|, d, t, i);
    if total != 1 {
      s := Summary(total, Prefix(0, 0), 0);
      if total == 0 {
        EmptyNode(d, t, i, sums);
      }
    } else if |bn.pfx| == 1 {
      s := OwnSummary(d, bn, byteIndex, pathKey, i, sums, t);
    } else {
      ChildOnly(d, t, i, sums, one);
      s := Summary(1, sums[bn.children[one]].only, sums[bn.children[one]].ref);
    }
  }
}
