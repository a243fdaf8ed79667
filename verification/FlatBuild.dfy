// flatart's build-time trie: prefixes no longer than the 16-bit root by packed key, longer ones
// in stride nodes reached from their root key.  Nodes live in a pool and name their children by
// pool index.
module FlatBuild {
  import opened Bits
  import opened Prefixes
  import opened Octets
  import opened FlatIndex
  import opened FlatWalk

  const ROOT_BITS := 16

  datatype BNode = BNode(pfx: map<nat, nat>, children: map<nat, nat>)

  datatype Trie = Trie(pool: seq<BNode>, subtrees: map<nat, nat>, paths: seq<seq<nat>>, stored: map<Pos, nat>)

  function RootPath(key: nat): (r: seq<nat>)
    requires key < 65536
    ensures |r| == 2 && r[0] < 256 && r[1] < 256
  {
    [key / 256, key % 256]
  }

  ghost predicate Nothing(stored: map<Pos, nat>, path: seq<nat>) {
    forall y <- stored :: !(path <= y.path)
  }

  ghost predicate NodeOk(t: Trie, i: nat)
    requires i < |t.pool| == |t.paths|
  {
    && Lists(t.pool[i].pfx, t.stored, t.paths[i])
    && (forall o <- t.pool[i].children :: o < 256 && i < t.pool[i].children[o] < |t.pool|
                                          && t.paths[t.pool[i].children[o]] == t.paths[i] + [o])
    && (forall o: nat | o < 256 && o !in t.pool[i].children :: Nothing(t.stored, t.paths[i] + [o]))
  }

  // A node is reached from its root key or from its parent.
  ghost predicate Reached(t: Trie, j: nat)
    requires j < |t.pool| == |t.paths|
  {
    if |t.paths[j]| == 2 then
      exists k <- t.subtrees :: k < 65536 && t.subtrees[k] == j && t.paths[j] == RootPath(k)
    else
      exists i :: 0 <= i < |t.pool| && IsChild(t, i, j)
  }

  ghost predicate IsChild(t: Trie, i: nat, j: nat)
    requires i < |t.pool| == |t.paths| && j < |t.pool|
  {
    |t.paths[j]| > 0 && var o := t.paths[j][|t.paths[j]| - 1];
    t.paths[j] == t.paths[i] + [o] && o in t.pool[i].children && t.pool[i].children[o] == j
  }

  ghost predicate Sized(d: nat, t: Trie) {
    && |t.paths| == |t.pool|
    && (forall i :: 0 <= i < |t.pool| ==> 2 <= |t.paths[i]| < d && IsKey(t.paths[i]))
    && (forall i, j :: 0 <= i < |t.pool| && 0 <= j < |t.pool| && i != j ==> t.paths[i] != t.paths[j])
    && (forall k <- t.subtrees :: k < 65536 && t.subtrees[k] < |t.pool| && t.paths[t.subtrees[k]] == RootPath(k))
    && (forall x <- t.stored :: 2 <= |x.path| < d && IsKey(x.path) && 2 <= x.idx < 512 && t.stored[x] > 0)
  }

  ghost predicate Inv(d: nat, t: Trie) {
    && Sized(d, t)
    && (forall i :: 0 <= i < |t.pool| ==> NodeOk(t, i) && Reached(t, i))
    && (forall k: nat | k < 65536 && k !in t.subtrees :: Nothing(t.stored, RootPath(k)))
  }

  // ---------------------------------------------------------------- edits

  // Every node above an existing node has the child that leads down to it.
  lemma {:induction false} ChildOnPath(d: nat, t: Trie, i: nat, o: nat, j: nat)
    requires Inv(d, t) && i < |t.pool| && j < |t.pool| && t.paths[i] + [o] <= t.paths[j]
    ensures o in t.pool[i].children
    decreases |t.paths[j]|
  {
    assert Reached(t, j);
    var n :| 0 <= n < |t.pool| && IsChild(t, n, j);
    if |t.paths[n]| == |t.paths[i]| {
      assert t.paths[n] == t.paths[j][..|t.paths[i]|] == t.paths[i];
    } else {
      assert t.paths[n] == t.paths[j][..|t.paths[n]|];
      ChildOnPath(d, t, i, o, n);
    }
  }

  lemma {:induction false} RootOnPath(d: nat, t: Trie, k: nat, j: nat)
    requires Inv(d, t) && j < |t.pool| && k < 65536 && RootPath(k) <= t.paths[j]
    ensures k in t.subtrees
    decreases |t.paths[j]|
  {
    assert Reached(t, j);
    if |t.paths[j]| == 2 {
      var q :| q in t.subtrees && q < 65536 && t.subtrees[q] == j && t.paths[j] == RootPath(q);
      assert RootPath(q)[0] == RootPath(k)[0] && RootPath(q)[1] == RootPath(k)[1];
    } else {
      var n :| 0 <= n < |t.pool| && IsChild(t, n, j);
      assert t.paths[n] == t.paths[j][..|t.paths[n]|];
      RootOnPath(d, t, k, n);
    }
  }

  const EMPTY := BNode(map[], map[])

  lemma NodeKept(t: Trie, u: Trie, j: nat)
    requires j < |t.pool| == |t.paths| <= |u.pool| == |u.paths| && NodeOk(t, j)
    requires t.paths <= u.paths && u.stored == t.stored && u.pool[j] == t.pool[j]
    ensures NodeOk(u, j)
  {
    forall o <- u.pool[j].children
      ensures o < 256 && j < u.pool[j].children[o] < |u.pool| && u.paths[u.pool[j].children[o]] == u.paths[j] + [o]
    {
      assert o in t.pool[j].children;
    }
  }

  // A new node is empty and, its parent slot having been empty, has nothing below it.
  lemma FreshNode(u: Trie, j: nat)
    requires j < |u.pool| == |u.paths| && u.pool[j] == EMPTY && Nothing(u.stored, u.paths[j])
    ensures NodeOk(u, j)
  {
    forall o: nat | o < 256 ensures Nothing(u.stored, u.paths[j] + [o]) {
      assert u.paths[j] <= u.paths[j] + [o];
    }
  }

  lemma NewSubtree(d: nat, t: Trie, k: nat, u: Trie)
    requires Inv(d, t) && d > 2 && k < 65536 && k !in t.subtrees
    requires u == Trie(t.pool + [EMPTY], t.subtrees[k := |t.pool|], t.paths + [RootPath(k)], t.stored)
    ensures Inv(d, u)
  {
    NewSubtreeSized(d, t, k, u);
    forall j | 0 <= j < |u.pool| ensures NodeOk(u, j) && Reached(u, j) {
      hide NodeOk, Reached;
      if j < |t.pool| {
        NodeKept(t, u, j);
        ReachedGrows(t, u, j);
      } else {
        FreshNode(u, j);
        SubtreeReached(u, k, j);
      }
    }
    hide NodeOk, Reached, Nothing, Sized;
    assert forall q: nat | q < 65536 && q !in u.subtrees :: q !in t.subtrees && Nothing(t.stored, RootPath(q));
  }

  lemma NewSubtreeSized(d: nat, t: Trie, k: nat, u: Trie)
    requires Inv(d, t) && d > 2 && k < 65536 && k !in t.subtrees
    requires u == Trie(t.pool + [EMPTY], t.subtrees[k := |t.pool|], t.paths + [RootPath(k)], t.stored)
    ensures Sized(d, u)
  {
    forall j | 0 <= j < |t.pool| ensures t.paths[j] != RootPath(k) {
      if t.paths[j] == RootPath(k) {
        RootOnPath(d, t, k, j);
      }
    }
    hide NodeOk, Reached, Nothing;
  }

  lemma SubtreeReached(u: Trie, k: nat, j: nat)
    requires j < |u.pool| == |u.paths| && k < 65536 && k in u.subtrees && u.subtrees[k] == j
    requires u.paths[j] == RootPath(k)
    ensures Reached(u, j)
  {
  }

  lemma ChildReached(u: Trie, i: nat, j: nat)
    requires j < |u.pool| == |u.paths| && i < |u.pool| && IsChild(u, i, j) && |u.paths[j]| != 2
    ensures Reached(u, j)
  {
  }

  ghost predicate ChildrenStay(t: Trie, u: Trie) {
    && |t.pool| <= |u.pool|
    && forall i, o :: 0 <= i < |t.pool| && o in t.pool[i].children ==>
         o in u.pool[i].children && u.pool[i].children[o] == t.pool[i].children[o]
  }

  lemma ReachedGrows(t: Trie, u: Trie, j: nat)
    requires j < |t.pool| == |t.paths| <= |u.pool| == |u.paths| && Reached(t, j) && t.paths <= u.paths
    requires forall k <- t.subtrees :: k in u.subtrees && u.subtrees[k] == t.subtrees[k]
    requires ChildrenStay(t, u)
    ensures Reached(u, j)
  {
    if |t.paths[j]| == 2 {
      var k :| k in t.subtrees && k < 65536 && t.subtrees[k] == j && t.paths[j] == RootPath(k);
      assert k in u.subtrees;
    } else {
      var i :| 0 <= i < |t.pool| && IsChild(t, i, j);
      assert IsChild(u, i, j);
    }
  }

  lemma NewChild(d: nat, t: Trie, i: nat, o: nat, u: Trie)
    requires Inv(d, t) && i < |t.pool| && o < 256 && o !in t.pool[i].children && |t.paths[i]| + 1 < d
    requires u == t.(pool := t.pool[i := t.pool[i].(children := t.pool[i].children[o := |t.pool|])] + [EMPTY],
                     paths := t.paths + [t.paths[i] + [o]])
    ensures Inv(d, u)
  {
    hide NodeOk, Reached, Nothing;
    NewChildSized(d, t, i, o, u);
    NewChildNodes(d, t, i, o, u);
    SameStored(d, t, u);
  }

  lemma NewChildNodes(d: nat, t: Trie, i: nat, o: nat, u: Trie)
    requires Inv(d, t) && i < |t.pool| && o < 256 && o !in t.pool[i].children && Sized(d, u)
    requires u == t.(pool := t.pool[i := t.pool[i].(children := t.pool[i].children[o := |t.pool|])] + [EMPTY],
                     paths := t.paths + [t.paths[i] + [o]])
    ensures forall j :: 0 <= j < |u.pool| ==> NodeOk(u, j) && Reached(u, j)
  {
    hide *;
    NodesOf(d, t);
    AppendKept(t.pool, i, t.pool[i].(children := t.pool[i].children[o := |t.pool|]), EMPTY);
    ChildAdded(t, i, o, u);
    NodesStay(t, u, i);
    ChildReached(u, i, |t.pool|);
    FreshNode(u, |t.pool|);
  }

  lemma NodesOf(d: nat, t: Trie)
    requires Inv(d, t)
    ensures |t.paths| == |t.pool|
    ensures forall j :: 0 <= j < |t.pool| ==> NodeOk(t, j) && Reached(t, j) && |t.paths[j]| >= 2
  {
    hide NodeOk, Reached;
  }

  lemma AppendKept(pool: seq<BNode>, i: nat, v: BNode, w: BNode)
    requires i < |pool|
    ensures var r := pool[i := v] + [w];
            |r| == |pool| + 1 && r[i] == v && r[|pool|] == w && forall j :: 0 <= j < |pool| && j != i ==> r[j] == pool[j]
  {
  }

  lemma SameStored(d: nat, t: Trie, u: Trie)
    requires Inv(d, t) && Sized(d, u) && u.stored == t.stored && u.subtrees == t.subtrees
    requires forall j :: 0 <= j < |u.pool| ==> NodeOk(u, j) && Reached(u, j)
    ensures Inv(d, u)
  {
    hide NodeOk, Reached, Nothing, Sized, RootPath;
  }

  lemma NodesStay(t: Trie, u: Trie, i: nat)
    requires i < |t.pool| == |t.paths| <= |u.pool| == |u.paths| && t.paths <= u.paths && u.stored == t.stored
    requires u.subtrees == t.subtrees && ChildrenStay(t, u) && NodeOk(u, i)
    requires forall j :: 0 <= j < |t.pool| ==> NodeOk(t, j) && Reached(t, j)
    requires forall j :: 0 <= j < |t.pool| && j != i ==> u.pool[j] == t.pool[j]
    ensures forall j :: 0 <= j < |t.pool| ==> NodeOk(u, j) && Reached(u, j)
  {
    hide NodeOk, Reached, ChildrenStay;
    forall j | 0 <= j < |t.pool| ensures NodeOk(u, j) && Reached(u, j) {
      if j != i { NodeKept(t, u, j); }
      ReachedGrows(t, u, j);
    }
  }

  lemma NewChildSized(d: nat, t: Trie, i: nat, o: nat, u: Trie)
    requires Inv(d, t) && i < |t.pool| && o < 256 && o !in t.pool[i].children && |t.paths[i]| + 1 < d
    requires u == t.(pool := t.pool[i := t.pool[i].(children := t.pool[i].children[o := |t.pool|])] + [EMPTY],
                     paths := t.paths + [t.paths[i] + [o]])
    ensures Sized(d, u)
  {
    forall j | 0 <= j < |t.pool| ensures t.paths[j] != t.paths[i] + [o] {
      if t.paths[j] == t.paths[i] + [o] {
        ChildOnPath(d, t, i, o, j);
      }
    }
    hide NodeOk, Reached, Nothing;
  }

  lemma ChildAdded(t: Trie, i: nat, o: nat, u: Trie)
    requires i < |t.pool| == |t.paths| && NodeOk(t, i) && o < 256 && o !in t.pool[i].children && |t.paths[i]| >= 2
    requires u == t.(pool := t.pool[i := t.pool[i].(children := t.pool[i].children[o := |t.pool|])] + [EMPTY],
                     paths := t.paths + [t.paths[i] + [o]])
    ensures NodeOk(u, i) && ChildrenStay(t, u) && IsChild(u, i, |t.pool|)
    ensures Nothing(u.stored, u.paths[|t.pool|]) && u.pool[|t.pool|] == EMPTY && |u.paths[|t.pool|]| != 2
  {
  }

  lemma PutPfx(d: nat, t: Trie, i: nat, idx: nat, ref: nat, u: Trie)
    requires Inv(d, t) && i < |t.pool| && 2 <= idx < 512 && ref > 0
    requires u == t.(pool := t.pool[i := t.pool[i].(pfx := t.pool[i].pfx[idx := ref])],
                     stored := t.stored[Pos(t.paths[i], idx) := ref])
    ensures Inv(d, u)
  {
    assert Sized(d, u);
    forall j | 0 <= j < |u.pool| ensures NodeOk(u, j) && Reached(u, j) {
      NodeStored(d, t, i, idx, ref, u, j);
    }
    forall k: nat | k < 65536 && k !in u.subtrees ensures Nothing(u.stored, RootPath(k)) {
      hide NodeOk, Reached, Sized, RootPath;
      assert Nothing(t.stored, RootPath(k));
      if RootPath(k) <= t.paths[i] {
        RootOnPath(d, t, k, i);
      }
    }
  }

  lemma NodeStored(d: nat, t: Trie, i: nat, idx: nat, ref: nat, u: Trie, j: nat)
    requires Inv(d, t) && i < |t.pool| && 2 <= idx < 512 && ref > 0 && j < |t.pool|
    requires u == t.(pool := t.pool[i := t.pool[i].(pfx := t.pool[i].pfx[idx := ref])],
                     stored := t.stored[Pos(t.paths[i], idx) := ref])
    ensures NodeOk(u, j) && Reached(u, j)
  {
    var x := Pos(t.paths[i], idx);
    assert |t.paths| == |t.pool| && NodeOk(t, j) && Reached(t, j) by { NodesOf(d, t); }
    assert j != i ==> t.paths[j] != t.paths[i];
    hide Inv, Lists, Reached, Sized, Nothing;
    assert u.pool[j].children == t.pool[j].children;
    assert Reached(u, j) by { ReachedGrows(t, u, j); }
    assert Lists(u.pool[j].pfx, u.stored, u.paths[j]) by {
      ListsStored(t.pool[j].pfx, t.stored, t.paths[j], x, ref);
    }
    forall o: nat | o < 256 && o !in t.pool[j].children ensures Nothing(u.stored, t.paths[j] + [o]) {
      NothingStored(d, t, i, x, ref, j, o);
    }
  }

  lemma NothingStored(d: nat, t: Trie, i: nat, x: Pos, ref: nat, j: nat, o: nat)
    requires Inv(d, t) && i < |t.pool| == |t.paths| && x.path == t.paths[i] && j < |t.pool| && NodeOk(t, j)
    requires o < 256 && o !in t.pool[j].children
    ensures Nothing(t.stored[x := ref], t.paths[j] + [o])
  {
    assert Nothing(t.stored, t.paths[j] + [o]);
    hide Inv, NodeOk;
    if t.paths[j] + [o] <= x.path {
      ChildOnPath(d, t, j, o, i);
    }
  }

  lemma ListsStored(pfx: map<nat, nat>, m: map<Pos, nat>, path: seq<nat>, x: Pos, ref: nat)
    requires Lists(pfx, m, path) && 2 <= x.idx < 512
    ensures x.path == path ==> Lists(pfx[x.idx := ref], m[x := ref], path)
    ensures x.path != path ==> Lists(pfx, m[x := ref], path)
  {
  }

  // ---------------------------------------------------------------- what a prefix pays for

  // The node's prefixes, its inherited default, its entry and its parent's reference to it.
  function Cost(bn: BNode): nat {
    |bn.pfx| + 3
  }

  ghost function TotalCost(pool: seq<BNode>): nat {
    if |pool| == 0 then 0 else TotalCost(pool[..|pool| - 1]) + Cost(pool[|pool| - 1])
  }

  lemma TotalAppend(pool: seq<BNode>, bn: BNode)
    ensures TotalCost(pool + [bn]) == TotalCost(pool) + Cost(bn)
  {
    assert (pool + [bn])[..|pool|] == pool;
  }

  lemma {:induction false} TotalUpdate(pool: seq<BNode>, i: nat, bn: BNode)
    requires i < |pool|
    ensures TotalCost(pool[i := bn]) == TotalCost(pool) + Cost(bn) - Cost(pool[i])
  {
    var front := pool[..|pool| - 1];
    if i == |pool| - 1 {
      assert pool[i := bn][..i] == front;
    } else {
      TotalUpdate(front, i, bn);
      assert pool[i := bn][..|pool| - 1] == front[i := bn];
    }
  }

  lemma OneMore<K>(m: map<K, nat>, k: K, v: nat)
    ensures |m[k := v]| <= |m| + 1
  {
    assert m[k := v].Keys == m.Keys + {k};
    assert |m[k := v]| == |m[k := v].Keys|;
  }

  // The most that many insertions add: a prefix's own value, and a node at each stride below the root.
  function Paid(is4: bool, count: nat): nat {
    if is4 then 7 * count else 43 * count
  }

  // ---------------------------------------------------------------- the builder

  // A prefix no longer than the root, in the root's own 16-bit space.
  function Short(w: nat, p: Prefix): Prefix
    requires w >= ROOT_BITS
  {
    Trim(w, ROOT_BITS, p)
  }

  ghost function LongOnes(m: map<Prefix, nat>): map<Prefix, nat> {
    map p | p in m && p.len > ROOT_BITS :: m[p]
  }

  lemma LongOnesShort(m: map<Prefix, nat>, p: Prefix, ref: nat)
    requires p.len <= ROOT_BITS
    ensures LongOnes(m[p := ref]) == LongOnes(m)
  {
  }

  lemma LongOnesLong(m: map<Prefix, nat>, p: Prefix, ref: nat)
    requires p.len > ROOT_BITS
    ensures LongOnes(m[p := ref]) == LongOnes(m)[p := ref]
  {
  }

  lemma LongRootHolds(w: nat, m: map<Prefix, nat>, root: map<Prefix, nat>, p: Prefix, ref: nat)
    requires w >= ROOT_BITS && p.len > ROOT_BITS && RootHolds(w, m, root)
    ensures RootHolds(w, m[p := ref], root)
  {
    var m' := m[p := ref];
    forall q <- root ensures exists p' <- m' :: p'.len <= ROOT_BITS && Short(w, p') == q {
      var p' :| p' in m && p'.len <= ROOT_BITS && Short(w, p') == q;
      assert p' in m';
    }
  }

  ghost predicate RootHolds(w: nat, m: map<Prefix, nat>, root: map<Prefix, nat>)
    requires w >= ROOT_BITS
  {
    && (forall p <- m :: p.len <= ROOT_BITS ==> Short(w, p) in root && root[Short(w, p)] == m[p])
    && (forall q <- root :: exists p <- m :: p.len <= ROOT_BITS && Short(w, p) == q)
  }

  // A short prefix keeps its validity, its length and its coverage in the root's space.
  lemma RootCovers(w: nat, p: Prefix, a: nat)
    requires w >= ROOT_BITS && p.len <= ROOT_BITS
    ensures Covers(ROOT_BITS, Short(w, p), Shr(a, w - ROOT_BITS)) <==> Covers(w, p, a)
  {
    TrimCovers(w, ROOT_BITS, p, a);
  }

  lemma RootKeyFits(w: nat, a: nat)
    requires w >= ROOT_BITS && a < Pow2(w)
    ensures Shr(a, w - ROOT_BITS) < 65536
  {
    TopFits(w, ROOT_BITS, a);
    Pow2Small();
    Pow2Large();
  }

  lemma RootInjective(w: nat, p: Prefix, q: Prefix)
    requires w >= ROOT_BITS && Valid(w, p) && Valid(w, q) && p.len <= ROOT_BITS && Short(w, p) == Short(w, q)
    ensures p == q
  {
    hide Shr;
    RootCovers(w, p, q.key);
    RootCovers(w, q, q.key);
    SameLengthSame(w, p, q, q.key);
  }

  class Family {
    const is4: bool
    var rootPfx: map<Prefix, nat>
    var subtrees: map<nat, nat>
    var pool: seq<BNode>
    var count: nat
    ghost var paths: seq<seq<nat>>
    ghost var stored: map<Pos, nat>
    ghost var catalog: map<Prefix, nat>

    ghost function Now(): Trie
      reads this
    {
      Trie(pool, subtrees, paths, stored)
    }

    // catalog maps every prefix inserted to its last reference.
    ghost predicate Valid()
      reads this
    {
      && Inv(Strides(is4), Now())
      && AllValid(Width(is4), catalog.Keys) && (forall p <- catalog :: catalog[p] > 0)
      && (count == 0 ==> catalog == map[]) && |rootPfx| + TotalCost(pool) <= Paid(is4, count)
      && RootHolds(Width(is4), catalog, rootPfx)
      && Encodes(Ceil, Strides(is4), LongOnes(catalog), stored)
    }

    constructor (is4: bool)
      ensures Valid() && this.is4 == is4 && catalog == map[] && count == 0
    {
      this.is4 := is4;
      rootPfx, subtrees, pool, count := map[], map[], [], 0;
      paths, stored, catalog := [], map[], map[];
    }

    // The stride node for a root key, created if absent.
    method Subtree(k: nat) returns (bn: nat)
      requires Inv(Strides(is4), Now()) && k < 65536
      modifies this`subtrees, this`pool, this`paths
      ensures Inv(Strides(is4), Now()) && bn < |pool| == |paths| && paths[bn] == RootPath(k)
      ensures TotalCost(pool) <= old(TotalCost(pool)) + 3
    {
      if k in subtrees {
        return subtrees[k];
      }
      ghost var before := Now();
      bn := |pool|;
      TotalAppend(pool, EMPTY);
      pool := pool + [EMPTY];
      subtrees := subtrees[k := bn];
      paths := paths + [RootPath(k)];
      NewSubtree(Strides(is4), before, k, Now());
    }

    method Child(bn: nat, octet: nat) returns (child: nat)
      requires Inv(Strides(is4), Now()) && bn < |pool| && octet < 256 && |paths[bn]| + 1 < Strides(is4)
      modifies this`pool, this`paths
      ensures Inv(Strides(is4), Now()) && child < |pool| == |paths| && paths[child] == old(paths)[bn] + [octet]
      ensures TotalCost(pool) <= old(TotalCost(pool)) + 3
    {
      assert NodeOk(Now(), bn);
      if octet in pool[bn].children {
        return pool[bn].children[octet];
      }
      ghost var before := Now();
      child := |pool|;
      TotalUpdate(pool, bn, pool[bn].(children := pool[bn].children[octet := child]));
      TotalAppend(pool[bn := pool[bn].(children := pool[bn].children[octet := child])], EMPTY);
      pool := pool[bn := pool[bn].(children := pool[bn].children[octet := child])] + [EMPTY];
      paths := paths + [paths[bn] + [octet]];
      NewChild(Strides(is4), before, bn, octet, Now());
    }

    // Zero names no reference and is refused; the last reference given for a prefix stands.
    method Insert(p: Prefix, ref: nat) returns (ok: bool)
      requires Valid() && Prefixes.Valid(Width(is4), p)
      modifies this
      ensures Valid() && ok == (ref != 0)
      ensures catalog == if ok then old(catalog)[p := ref] else old(catalog)
      ensures count == old(count) + if ok then 1 else 0
    {
      hide Inv, Encodes, PosOf, RootHolds, LongOnes, Shr;
      if ref == 0 {
        return false;
      }
      count := count + 1;
      var rootKey := Shr(p.key, Width(is4) - ROOT_BITS);
      RootKeyFits(Width(is4), p.key);
      if p.len <= ROOT_BITS {
        ShortStored(Width(is4), catalog, rootPfx, p, ref);
        OneMore(rootPfx, Prefix(rootKey, p.len), ref);
        rootPfx := rootPfx[Prefix(rootKey, p.len) := ref];
        catalog := catalog[p := ref];
        LongOnesShort(old(catalog), p, ref);
        return true;
      }
      InsertLong(rootKey, p, ref);
      LongRootHolds(Width(is4), catalog, rootPfx, p, ref);
      ghost var before := catalog;
      catalog := catalog[p := ref];
      LongOnesLong(before, p, ref);
      return true;
    }

    method InsertLong(rootKey: nat, p: Prefix, ref: nat)
      requires Inv(Strides(is4), Now()) && Encodes(Ceil, Strides(is4), LongOnes(catalog), stored)
      requires Prefixes.Valid(Width(is4), p) && ROOT_BITS < p.len <= Width(is4) && ref > 0
      requires rootKey == Shr(p.key, Width(is4) - ROOT_BITS) < 65536
      modifies this`subtrees, this`pool, this`paths, this`stored
      ensures Inv(Strides(is4), Now()) && Encodes(Ceil, Strides(is4), LongOnes(catalog)[p := ref], stored)
      ensures TotalCost(pool) + Paid(is4, count) <= old(TotalCost(pool)) + Paid(is4, count + 1)
    {
      hide PosOf, Encodes, Prefixes.Valid, OctetAt, PfxToIdx, Inv, Shr, LongOnes, Pow2;
      ghost var x := PosOf(Ceil, Strides(is4), p);
      var depth := (p.len - ROOT_BITS - 1) / 8;
      var remain := p.len - ROOT_BITS - 8 * depth;
      LongPos(is4, p, x, depth, remain);
      EncodedStep(Ceil, Strides(is4), LongOnes(catalog), stored, p, ref);
      var bn := Descend(rootKey, p.key, depth, x.path);
      StorePfx(bn, PfxToIdx(OctetAt(Strides(is4), p.key, 2 + depth), remain), ref);
    }

    // Follows the key's octets below the root, creating the nodes that are missing.
    method Descend(rootKey: nat, key: nat, depth: nat, ghost path: seq<nat>) returns (bn: nat)
      requires Inv(Strides(is4), Now()) && rootKey < 65536 && |path| == 2 + depth < Strides(is4)
      requires path[..2] == RootPath(rootKey)
      requires forall i :: 0 <= i < |path| ==> path[i] == OctetAt(Strides(is4), key, i)
      modifies this`subtrees, this`pool, this`paths
      ensures Inv(Strides(is4), Now()) && bn < |pool| == |paths| && paths[bn] == path
      ensures TotalCost(pool) <= old(TotalCost(pool)) + 3 * (1 + depth)
    {
      hide OctetAt, Inv;
      bn := Subtree(rootKey);
      for d := 0 to depth
        invariant Inv(Strides(is4), Now()) && TotalCost(pool) <= old(TotalCost(pool)) + 3 * (1 + d)
        invariant bn < |pool| == |paths| && paths[bn] == path[..2 + d]
      {
        bn := Child(bn, OctetAt(Strides(is4), key, 2 + d));
        assert path[..2 + d] + [path[2 + d]] == path[..2 + (d + 1)];
      }
      assert path[..2 + depth] == path;
    }

    method StorePfx(bn: nat, idx: nat, ref: nat)
      requires Inv(Strides(is4), Now()) && bn < |pool| && 2 <= idx < 512 && ref > 0
      modifies this`pool, this`stored
      ensures Inv(Strides(is4), Now()) && stored == old(stored)[Pos(paths[bn], idx) := ref]
      ensures TotalCost(pool) <= old(TotalCost(pool)) + 1
    {
      ghost var before := Now();
      TotalUpdate(pool, bn, pool[bn].(pfx := pool[bn].pfx[idx := ref]));
      OneMore(pool[bn].pfx, idx, ref);
      pool := pool[bn := pool[bn].(pfx := pool[bn].pfx[idx := ref])];
      stored := stored[Pos(paths[bn], idx) := ref];
      PutPfx(Strides(is4), before, bn, idx, ref, Now());
    }
  }

  lemma LongPos(is4: bool, p: Prefix, x: Pos, depth: nat, remain: nat)
    requires Valid(Width(is4), p) && p.len > ROOT_BITS && x == PosOf(Ceil, Strides(is4), p)
    requires depth == (p.len - ROOT_BITS - 1) / 8 && remain == p.len - ROOT_BITS - 8 * depth
    ensures |x.path| == 2 + depth < Strides(is4) && 1 <= remain <= 8
    ensures Shr(p.key, Width(is4) - ROOT_BITS) < 65536
    ensures x.path[..2] == RootPath(Shr(p.key, Width(is4) - ROOT_BITS))
    ensures x.idx == PfxToIdx(OctetAt(Strides(is4), p.key, 2 + depth), remain) && 2 <= x.idx < 512
    ensures forall i :: 0 <= i < 2 + depth ==> x.path[i] == OctetAt(Strides(is4), p.key, i)
  {
    RootKeyFits(Width(is4), p.key);
    RootOctets(is4, p.key);
    assert 1 <= remain <= 8 && 2 + depth == (p.len - 1) / 8;
    assert PfxToIdx(OctetAt(Strides(is4), p.key, 2 + depth), remain) >= StridePow(remain) >= 2;
  }

  // The root key is the first two octets.
  lemma RootOctets(is4: bool, key: nat)
    requires key < Pow2(Width(is4))
    ensures Shr(key, Width(is4) - ROOT_BITS) < 65536
    ensures KeyOctets(Strides(is4), key)[..2] == RootPath(Shr(key, Width(is4) - ROOT_BITS))
  {
    var d := Strides(is4);
    RootKeyFits(Width(is4), key);
    LeadingZero(Width(is4), key);
    Leading(d, key, 0);
    Leading(d, key, 1);
    assert 8 * (d - 0) == Width(is4) && 8 * (d - 1 - 1) == Width(is4) - ROOT_BITS && d - 0 - 1 == d - 1;
  }

  lemma ShortStored(w: nat, m: map<Prefix, nat>, root: map<Prefix, nat>, p: Prefix, ref: nat)
    requires w >= ROOT_BITS && AllValid(w, m.Keys) && Valid(w, p) && p.len <= ROOT_BITS && RootHolds(w, m, root)
    ensures RootHolds(w, m[p := ref], root[Short(w, p) := ref])
  {
    var m', root' := m[p := ref], root[Short(w, p) := ref];
    forall q <- m' | q.len <= ROOT_BITS ensures Short(w, q) in root' && root'[Short(w, q)] == m'[q] {
      if q != p && Short(w, q) == Short(w, p) {
        RootInjective(w, p, q);
      }
    }
    forall s <- root' ensures exists q <- m' :: q.len <= ROOT_BITS && Short(w, q) == s {
      if s == Short(w, p) {
        assert p in m';
      } else {
        var q :| q in m && q.len <= ROOT_BITS && Short(w, q) == s;
        assert q in m';
      }
    }
  }
}
