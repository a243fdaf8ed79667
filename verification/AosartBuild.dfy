// aosart's build tree: a mutable path-compressed stride-8 ART.  A child slot holds a node, a
// fringe (a prefix that fills the slot exactly) or a leaf (one longer prefix whose remaining
// strides are elided); inserting below a fringe or a leaf splits it.
module AosartBuild {
  import opened Prefixes
  import opened Octets
  import opened Bitsets

  // The top two bits of a 32-bit reference are its tag.
  const TAG := 0x4000_0000
  const REF_NODE := 0
  const REF_LEAF := 1
  const REF_FRINGE := 2

  function Ref(tag: nat, payload: nat): nat {
    tag * TAG + payload
  }

  function TagOf(ref: nat): nat {
    ref / TAG
  }

  function Payload(ref: nat): (r: nat)
    ensures r < TAG
  {
    ref % TAG
  }

  datatype BuildNode = BuildNode(pfx: Sparse<nat>, kids: Sparse<nat>)

  datatype Leaf = Leaf(key: nat, len: nat, id: nat)

  // What the invariant relates: the arenas, the octets leading to each node, and the stored
  // prefixes as stride positions.
  datatype Shape = Shape(nodes: seq<BuildNode>, leaves: seq<Leaf>, paths: seq<seq<nat>>, stored: map<Pos, nat>)

  ghost predicate NoneUnder(stored: map<Pos, nat>, path: seq<nat>) {
    forall y <- stored :: !(path <= y.path)
  }

  ghost predicate OnlyUnder(stored: map<Pos, nat>, path: seq<nat>, x: Pos) {
    x in stored && path <= x.path && forall y <- stored :: path <= y.path ==> y == x
  }

  function LeafPrefix(lf: Leaf): Prefix {
    Prefix(lf.key, lf.len)
  }

  ghost predicate LeafOk(d: nat, lf: Leaf, x: Pos) {
    Valid(8 * d, LeafPrefix(lf)) && PosOf(Floor, d, LeafPrefix(lf)) == x
  }

  ghost predicate Sized(d: nat, s: Shape) {
    && |s.paths| == |s.nodes| && |s.nodes| > 0 && s.paths[0] == []
    && (forall i :: 0 <= i < |s.nodes| ==> s.nodes[i].pfx.Wf(256) && s.nodes[i].kids.Wf(256))
    && (forall i :: 0 <= i < |s.nodes| ==> |s.paths[i]| < d && IsKey(s.paths[i]))
    && (forall i, j :: 0 <= i < |s.nodes| && 0 <= j < |s.nodes| && i != j ==> s.paths[i] != s.paths[j])
  }

  ghost predicate NodeSlot(d: nat, s: Shape, i: nat, o: nat)
    requires Sized(d, s) && i < |s.nodes|
  {
    s.nodes[i].kids.Has(o) && TagOf(s.nodes[i].kids.At(o)) == REF_NODE
  }

  // What one child slot says about the prefixes below it.  A fringe or a leaf left in a slot
  // is the only prefix below that slot.
  ghost predicate SlotOk(d: nat, s: Shape, i: nat, o: nat)
    requires Sized(d, s) && i < |s.nodes|
  {
    var below := s.paths[i] + [o];
    if !s.nodes[i].kids.Has(o) then NoneUnder(s.stored, below)
    else
      var ref := s.nodes[i].kids.At(o);
      if TagOf(ref) == REF_NODE then
        i < Payload(ref) < |s.nodes| && s.paths[Payload(ref)] == below
      else if TagOf(ref) == REF_FRINGE then
        OnlyUnder(s.stored, below, Pos(below, 1)) && s.stored[Pos(below, 1)] == Payload(ref)
      else
        && TagOf(ref) == REF_LEAF && Payload(ref) < |s.leaves|
        && var lf := s.leaves[Payload(ref)];
        && exists x :: LeafOk(d, lf, x) && x != Pos(below, 1)
                       && OnlyUnder(s.stored, below, x) && s.stored[x] == lf.id
  }

  // A node's own bitset holds exactly the prefixes stored at its path.
  ghost predicate OwnOk(d: nat, s: Shape, i: nat)
    requires Sized(d, s) && i < |s.nodes|
  {
    forall idx :: 0 <= idx < 256 ==>
      && (s.nodes[i].pfx.Has(idx) <==> Pos(s.paths[i], idx) in s.stored)
      && (s.nodes[i].pfx.Has(idx) ==> s.nodes[i].pfx.At(idx) == s.stored[Pos(s.paths[i], idx)])
  }

  // Every proper ancestor of a node exists and leads to it through a node slot.
  ghost predicate Linked(d: nat, s: Shape)
    requires Sized(d, s)
  {
    forall j, k :: 0 <= j < |s.nodes| && 0 <= k < |s.paths[j]| ==>
      exists i :: 0 <= i < |s.nodes| && s.paths[i] == s.paths[j][..k] && NodeSlot(d, s, i, s.paths[j][k])
  }

  ghost predicate Inv(d: nat, s: Shape) {
    && Sized(d, s)
    && Linked(d, s)
    && (forall i, o :: 0 <= i < |s.nodes| && 0 <= o < 256 ==> SlotOk(d, s, i, o))
    && (forall i :: 0 <= i < |s.nodes| ==> OwnOk(d, s, i))
    && (forall x <- s.stored :: IsKey(x.path) && 1 <= x.idx < 256 && 0 < s.stored[x] < TAG)
  }

  // ---------------------------------------------------------------- consequences of linking

  // A slot on the way to an existing node is a node slot.
  lemma SlotOnPath(d: nat, s: Shape, i: nat, o: nat, j: nat)
    requires Sized(d, s) && Linked(d, s) && i < |s.nodes| && j < |s.nodes| && s.paths[i] + [o] <= s.paths[j]
    ensures NodeSlot(d, s, i, o)
  {
    var k := |s.paths[i]|;
    var n :| 0 <= n < |s.nodes| && s.paths[n] == s.paths[j][..k] && NodeSlot(d, s, n, s.paths[j][k]);
    assert s.paths[j][..k] == s.paths[i];
    assert s.paths[j][k] == o;
  }

  // Two slots above one stored position, one of them not a node, are the same slot unless the
  // other is a node slot.
  lemma SlotAbove(d: nat, s: Shape, i: nat, o: nat, j: nat, q: nat, path: seq<nat>)
    requires Sized(d, s) && Linked(d, s) && i < |s.nodes| && j < |s.nodes|
    requires s.paths[i] + [o] <= path && s.paths[j] + [q] <= path
    requires !NodeSlot(d, s, i, o)
    ensures (i == j && o == q) || NodeSlot(d, s, j, q)
  {
    var m, n := |s.paths[i]|, |s.paths[j]|;
    if n < m {
      assert s.paths[j] + [q] <= s.paths[i];
      SlotOnPath(d, s, j, q, i);
    } else if m < n {
      assert s.paths[i] + [o] <= s.paths[j];
      SlotOnPath(d, s, i, o, j);
    } else {
      assert s.paths[i] == path[..m] && s.paths[j] == path[..m];
      assert o == path[m] && q == path[m];
    }
  }

  // ---------------------------------------------------------------- framing

  ghost predicate SameUnder(a: map<Pos, nat>, b: map<Pos, nat>, path: seq<nat>) {
    forall y: Pos | path <= y.path :: (y in a <==> y in b) && (y in a ==> a[y] == b[y])
  }

  ghost predicate SameAt(a: map<Pos, nat>, b: map<Pos, nat>, path: seq<nat>) {
    forall idx :: (Pos(path, idx) in a <==> Pos(path, idx) in b)
                  && (Pos(path, idx) in a ==> a[Pos(path, idx)] == b[Pos(path, idx)])
  }

  ghost predicate SameKid(d: nat, s: Shape, t: Shape, j: nat, q: nat)
    requires Sized(d, s) && Sized(d, t) && j < |s.nodes| && j < |t.nodes|
  {
    && (s.nodes[j].kids.Has(q) <==> t.nodes[j].kids.Has(q))
    && (s.nodes[j].kids.Has(q) ==> s.nodes[j].kids.At(q) == t.nodes[j].kids.At(q))
  }

  // A slot is undisturbed when its reference, its leaf and the prefixes below it are.
  lemma SlotKept(d: nat, s: Shape, t: Shape, j: nat, q: nat)
    requires Sized(d, s) && Sized(d, t) && s.paths <= t.paths && j < |s.nodes| && SlotOk(d, s, j, q)
    requires SameKid(d, s, t, j, q)
    requires NodeSlot(d, s, j, q) || SameUnder(s.stored, t.stored, s.paths[j] + [q])
    requires s.nodes[j].kids.Has(q) && TagOf(s.nodes[j].kids.At(q)) == REF_LEAF ==>
               && Payload(s.nodes[j].kids.At(q)) < |t.leaves|
               && s.leaves[Payload(s.nodes[j].kids.At(q))] == t.leaves[Payload(s.nodes[j].kids.At(q))]
    ensures SlotOk(d, t, j, q)
  {
    hide LeafOk;
  }

  lemma OwnKept(d: nat, s: Shape, t: Shape, j: nat)
    requires Sized(d, s) && Sized(d, t) && s.paths <= t.paths && j < |s.nodes| && OwnOk(d, s, j)
    requires s.nodes[j].pfx == t.nodes[j].pfx
    requires SameAt(s.stored, t.stored, s.paths[j])
    ensures OwnOk(d, t, j)
  {
  }

  lemma LinkedKept(d: nat, s: Shape, t: Shape)
    requires Sized(d, s) && Linked(d, s) && Sized(d, t) && t.paths == s.paths
    requires forall j, q :: 0 <= j < |s.nodes| && 0 <= q < 256 && NodeSlot(d, s, j, q) ==> NodeSlot(d, t, j, q)
    ensures Linked(d, t)
  {
    forall j, k | 0 <= j < |t.nodes| && 0 <= k < |t.paths[j]|
      ensures exists n :: 0 <= n < |t.nodes| && t.paths[n] == t.paths[j][..k] && NodeSlot(d, t, n, t.paths[j][k])
    {
      var n :| 0 <= n < |s.nodes| && s.paths[n] == s.paths[j][..k] && NodeSlot(d, s, n, s.paths[j][k]);
      assert NodeSlot(d, t, n, t.paths[j][k]);
    }
  }

  // ---------------------------------------------------------------- the three edits

  // Storing a prefix in a node's own bitset.
  lemma OwnStored(d: nat, s: Shape, i: nat, idx: nat, id: nat, t: Shape)
    requires Inv(d, s) && i < |s.nodes| && 1 <= idx < 256 && 0 < id < TAG
    requires t == s.(nodes := s.nodes[i := s.nodes[i].(pfx := s.nodes[i].pfx.Put(idx, id))],
                     stored := s.stored[Pos(s.paths[i], idx) := id])
    ensures Inv(d, t)
  {
    var x := Pos(s.paths[i], idx);
    assert Sized(d, t);
    LinkedKept(d, s, t);
    forall j, o | 0 <= j < |t.nodes| && 0 <= o < 256 ensures SlotOk(d, t, j, o) {
      assert SlotOk(d, s, j, o);
      if s.paths[j] + [o] <= x.path {
        SlotOnPath(d, s, j, o, i);
      }
      SlotKept(d, s, t, j, o);
    }
    forall j | 0 <= j < |t.nodes| ensures OwnOk(d, t, j) {
      assert OwnOk(d, s, j);
      if j == i {
        forall q | 0 <= q < 256
          ensures t.nodes[j].pfx.Has(q) <==> Pos(t.paths[j], q) in t.stored
          ensures t.nodes[j].pfx.Has(q) ==> t.nodes[j].pfx.At(q) == t.stored[Pos(t.paths[j], q)]
        {
          PutReads(s.nodes[i].pfx, idx, id, q);
        }
      } else {
        OwnKept(d, s, t, j);
      }
    }
  }

  // An edit below one non-node slot leaves every other slot and every node's own set alone.
  lemma OthersKept(d: nat, s: Shape, i: nat, o: nat, x: Pos, t: Shape)
    requires Inv(d, s) && Sized(d, t) && s.paths <= t.paths && i < |s.nodes| && o < 256
    requires !NodeSlot(d, s, i, o) && s.paths[i] + [o] <= x.path
    requires forall y: Pos | y != x :: (y in s.stored <==> y in t.stored) && (y in s.stored ==> s.stored[y] == t.stored[y])
    requires forall j :: 0 <= j < |s.nodes| ==> s.nodes[j].pfx == t.nodes[j].pfx
    requires forall j, q :: 0 <= j < |s.nodes| && 0 <= q < 256 && (j != i || q != o) ==> SameKid(d, s, t, j, q)
    requires |s.leaves| <= |t.leaves|
    requires forall l :: 0 <= l < |s.leaves| && s.leaves[l] != t.leaves[l] ==> LeafOk(d, s.leaves[l], x)
    ensures forall j, q :: 0 <= j < |s.nodes| && 0 <= q < 256 && (j != i || q != o) ==> SlotOk(d, t, j, q)
    ensures forall j :: 0 <= j < |s.nodes| ==> OwnOk(d, t, j)
  {
    hide LeafOk;
    forall j, q | 0 <= j < |s.nodes| && 0 <= q < 256 && (j != i || q != o) ensures SlotOk(d, t, j, q) {
      assert SlotOk(d, s, j, q) && SameKid(d, s, t, j, q);
      if s.paths[j] + [q] <= x.path {
        SlotAbove(d, s, i, o, j, q, x.path);
      } else if s.nodes[j].kids.Has(q) && TagOf(s.nodes[j].kids.At(q)) == REF_LEAF {
        LeafElsewhere(d, s, t, j, q, x);
      }
      SlotKept(d, s, t, j, q);
    }
    forall j | 0 <= j < |s.nodes| ensures OwnOk(d, t, j) {
      assert OwnOk(d, s, j);
      if s.paths[j] == x.path {
        SlotOnPath(d, s, i, o, j);
      }
      OwnKept(d, s, t, j);
    }
  }

  lemma LeafElsewhere(d: nat, s: Shape, t: Shape, j: nat, q: nat, x: Pos)
    requires Sized(d, s) && j < |s.nodes| && SlotOk(d, s, j, q) && !(s.paths[j] + [q] <= x.path)
    requires s.nodes[j].kids.Has(q) && TagOf(s.nodes[j].kids.At(q)) == REF_LEAF
    requires |s.leaves| <= |t.leaves|
    requires forall l :: 0 <= l < |s.leaves| && s.leaves[l] != t.leaves[l] ==> LeafOk(d, s.leaves[l], x)
    ensures s.leaves[Payload(s.nodes[j].kids.At(q))] == t.leaves[Payload(s.nodes[j].kids.At(q))]
  {
  }

  lemma NodesStay(d: nat, s: Shape, t: Shape, i: nat, o: nat)
    requires Sized(d, s) && Sized(d, t) && |s.nodes| <= |t.nodes| && i < |s.nodes|
    requires !NodeSlot(d, s, i, o)
    requires forall j, q :: 0 <= j < |s.nodes| && 0 <= q < 256 && (j != i || q != o) ==> SameKid(d, s, t, j, q)
    ensures forall j, q :: 0 <= j < |s.nodes| && 0 <= q < 256 && NodeSlot(d, s, j, q) ==> NodeSlot(d, t, j, q)
  {
    forall j, q | 0 <= j < |s.nodes| && 0 <= q < 256 && NodeSlot(d, s, j, q) ensures NodeSlot(d, t, j, q) {
      assert SameKid(d, s, t, j, q);
    }
  }

  // Filling a slot with a fringe or a new leaf for x, when nothing else lies below it.
  lemma SlotFilled(d: nat, s: Shape, i: nat, o: nat, ref: nat, leaves: seq<Leaf>, x: Pos, id: nat, t: Shape)
    requires Inv(d, s) && i < |s.nodes| && o < 256 && !NodeSlot(d, s, i, o)
    requires NoneUnder(s.stored, s.paths[i] + [o]) || OnlyUnder(s.stored, s.paths[i] + [o], x)
    requires s.paths[i] + [o] <= x.path && IsKey(x.path) && 1 <= x.idx < 256
    requires s.leaves <= leaves && TagOf(ref) != REF_NODE && 0 < id < TAG
    requires t == Shape(s.nodes[i := s.nodes[i].(kids := s.nodes[i].kids.Put(o, ref))], leaves, s.paths,
                        s.stored[x := id])
    requires if TagOf(ref) == REF_FRINGE then x == Pos(s.paths[i] + [o], 1) && Payload(ref) == id
             else TagOf(ref) == REF_LEAF && Payload(ref) < |leaves| && leaves[Payload(ref)].id == id
                  && LeafOk(d, leaves[Payload(ref)], x) && x != Pos(s.paths[i] + [o], 1)
    ensures Inv(d, t)
  {
    hide LeafOk;
    forall j, q | 0 <= j < |s.nodes| && 0 <= q < 256
      ensures j != i || q != o ==> SameKid(d, s, t, j, q)
    {
      PutReads(s.nodes[i].kids, o, ref, q);
    }
    PutReads(s.nodes[i].kids, o, ref, o);
    assert Sized(d, t);
    NodesStay(d, s, t, i, o);
    LinkedKept(d, s, t);
    OthersKept(d, s, i, o, x, t);
    assert OnlyUnder(t.stored, s.paths[i] + [o], x);
    assert SlotOk(d, t, i, o);
  }

  // Overwriting the id of the leaf a slot holds.
  lemma LeafRenamed(d: nat, s: Shape, i: nat, o: nat, x: Pos, id: nat, t: Shape)
    requires Inv(d, s) && i < |s.nodes| && o < 256 && s.nodes[i].kids.Has(o) && 0 < id < TAG
    requires TagOf(s.nodes[i].kids.At(o)) == REF_LEAF && Payload(s.nodes[i].kids.At(o)) < |s.leaves|
    requires LeafOk(d, s.leaves[Payload(s.nodes[i].kids.At(o))], x)
    requires t == s.(leaves := s.leaves[Payload(s.nodes[i].kids.At(o)) :=
                       s.leaves[Payload(s.nodes[i].kids.At(o))].(id := id)], stored := s.stored[x := id])
    ensures Inv(d, t)
  {
    var below := s.paths[i] + [o];
    var l := Payload(s.nodes[i].kids.At(o));
    assert SlotOk(d, s, i, o);
    assert x in s.stored && below <= x.path && x != Pos(below, 1);
    assert LeafOk(d, t.leaves[l], x);
    hide LeafOk;
    assert Sized(d, t);
    LinkedKept(d, s, t);
    OthersKept(d, s, i, o, x, t);
    assert OnlyUnder(t.stored, below, x);
    assert SlotOk(d, t, i, o);
  }

  function NewNode(): (n: BuildNode)
    ensures n.pfx.Wf(256) && n.kids.Wf(256) && (forall k :: !n.pfx.Has(k) && !n.kids.Has(k))
  {
    BuildNode(Empty(256), Empty(256))
  }

  // Splitting a fringe or a leaf: the slot now leads to an empty node and the split prefix is
  // out of the tree until the caller puts it back below.
  lemma SlotSplit(d: nat, s: Shape, i: nat, o: nat, y: Pos, t: Shape)
    requires Inv(d, s) && i < |s.nodes| && o < 256 && !NodeSlot(d, s, i, o)
    requires OnlyUnder(s.stored, s.paths[i] + [o], y) && |s.paths[i]| + 1 < d && |s.nodes| < TAG
    requires t == Shape(
      s.nodes[i := s.nodes[i].(kids := s.nodes[i].kids.Put(o, Ref(REF_NODE, |s.nodes|)))] + [NewNode()],
      s.leaves, s.paths + [s.paths[i] + [o]], s.stored - {y})
    ensures Inv(d, t)
  {
    hide LeafOk;
    var below, c := s.paths[i] + [o], |s.nodes|;
    var ref := Ref(REF_NODE, c);
    PutReads(s.nodes[i].kids, o, ref, o);
    SplitSized(d, s, i, o, t);
    forall j, q | 0 <= j < |s.nodes| && 0 <= q < 256
      ensures j != i || q != o ==> SameKid(d, s, t, j, q)
    {
      PutReads(s.nodes[i].kids, o, ref, q);
    }
    OthersKept(d, s, i, o, y, t);
    NodesStay(d, s, t, i, o);
    SplitLinked(d, s, i, o, t);
    assert SlotOk(d, t, i, o);
    forall q | 0 <= q < 256 ensures SlotOk(d, t, c, q) {
      assert below <= below + [q];
    }
  }

  lemma SplitSized(d: nat, s: Shape, i: nat, o: nat, t: Shape)
    requires Inv(d, s) && i < |s.nodes| && o < 256 && !NodeSlot(d, s, i, o) && |s.paths[i]| + 1 < d
    requires |t.nodes| == |s.nodes| + 1 && t.paths == s.paths + [s.paths[i] + [o]]
    requires forall j :: 0 <= j < |t.nodes| ==> t.nodes[j].pfx.Wf(256) && t.nodes[j].kids.Wf(256)
    ensures Sized(d, t)
  {
    forall j | 0 <= j < |s.nodes| ensures s.paths[j] != s.paths[i] + [o] {
      if s.paths[j] == s.paths[i] + [o] {
        SlotOnPath(d, s, i, o, j);
      }
    }
  }

  lemma SplitLinked(d: nat, s: Shape, i: nat, o: nat, t: Shape)
    requires Inv(d, s) && Sized(d, t) && i < |s.nodes| && o < 256
    requires |t.nodes| == |s.nodes| + 1 && t.paths == s.paths + [s.paths[i] + [o]] && NodeSlot(d, t, i, o)
    requires forall j, q :: 0 <= j < |s.nodes| && 0 <= q < 256 && NodeSlot(d, s, j, q) ==> NodeSlot(d, t, j, q)
    ensures Linked(d, t)
  {
    forall j, k | 0 <= j < |t.nodes| && 0 <= k < |t.paths[j]|
      ensures exists n :: 0 <= n < |t.nodes| && t.paths[n] == t.paths[j][..k] && NodeSlot(d, t, n, t.paths[j][k])
    {
      if j == |s.nodes| && k == |s.paths[i]| {
        assert t.paths[i] == t.paths[j][..k] && t.paths[j][k] == o;
      } else {
        var j' := if j == |s.nodes| then i else j;
        assert t.paths[j][..k] == s.paths[j'][..k];
        var n :| 0 <= n < |s.nodes| && s.paths[n] == s.paths[j'][..k] && NodeSlot(d, s, n, s.paths[j'][k]);
        assert NodeSlot(d, t, n, t.paths[j][k]);
      }
    }
  }

  // ---------------------------------------------------------------- the tree

  lemma FloorPos(d: nat, p: Prefix, x: Pos)
    requires p.len <= 8 * d && x == PosOf(Floor, d, p)
    ensures IsKey(x.path) && 1 <= x.idx < 256 && |x.path| == p.len / 8
    ensures x.path == KeyOctets(d, p.key)[..p.len / 8]
    ensures p.len % 8 == 0 ==> x.idx == 1
    ensures p.len % 8 != 0 ==> x.idx == PfxToIdx(OctetAt(d, p.key, p.len / 8), p.len % 8)
  {
  }

  // Something longer than a full slot can only start above the last stride.
  lemma LongerBelow(d: nat, p: Prefix, path: seq<nat>)
    requires p.len <= 8 * d && path <= PosOf(Floor, d, p).path && PosOf(Floor, d, p) != Pos(path, 1)
    ensures |path| < d
  {
    FloorPos(d, p, PosOf(Floor, d, p));
  }

  lemma BelowPath(d: nat, p: Prefix, x: Pos, path: seq<nat>, octet: nat)
    requires p.len <= 8 * d && x == PosOf(Floor, d, p) && path <= x.path && |path| < |x.path|
    requires octet == OctetAt(d, p.key, |path|)
    ensures path + [octet] == x.path[..|path| + 1] && path + [octet] <= x.path
    ensures p.len % 8 == 0 && |path| == p.len / 8 - 1 <==> x == Pos(path + [octet], 1)
  {
    FloorPos(d, p, x);
    assert x.path[|path|] == octet;
    if p.len % 8 != 0 {
      var o, rest := OctetAt(d, p.key, p.len / 8), p.len % 8;
      assert PfxToIdx(o, rest) >= StridePow(rest) > 1;
    }
  }

  // The leaf lf in slot o of node n stands for position y, the only prefix below the slot.
  ghost predicate LeafAt(d: nat, s: Shape, n: nat, o: nat, lf: Leaf, y: Pos)
    requires n < |s.paths|
  {
    && LeafOk(d, lf, y) && y != Pos(s.paths[n] + [o], 1)
    && OnlyUnder(s.stored, s.paths[n] + [o], y) && s.stored[y] == lf.id
  }

  lemma NodeFits(d: nat, s: Shape, n: nat)
    requires Inv(d, s) && n < |s.nodes|
    ensures |s.paths| == |s.nodes| && s.nodes[n].pfx.Wf(256) && s.nodes[n].kids.Wf(256)
    ensures |s.paths[n]| < d && IsKey(s.paths[n])
  {
  }

  // What the slot on the way to a prefix holds.
  lemma InsertStep(d: nat, s: Shape, n: nat, p: Prefix, x: Pos)
    requires Inv(d, s) && n < |s.nodes| == |s.paths| && p.len <= 8 * d && x == PosOf(Floor, d, p)
    requires s.paths[n] <= x.path && |s.paths[n]| < p.len / 8 && |s.paths[n]| < d
    ensures s.nodes[n].kids.Wf(256) && IsKey(s.paths[n]) && IsKey(x.path) && 1 <= x.idx < 256
    ensures var octet := OctetAt(d, p.key, |s.paths[n]|);
            var below := s.paths[n] + [octet];
            && below <= x.path
            && (p.len % 8 == 0 && |s.paths[n]| == p.len / 8 - 1 <==> x == Pos(below, 1))
            && (if !s.nodes[n].kids.Has(octet) then NoneUnder(s.stored, below) && !NodeSlot(d, s, n, octet)
                else
                  var ref := s.nodes[n].kids.At(octet);
                  if TagOf(ref) == REF_NODE then
                    Payload(ref) < |s.nodes| && s.paths[Payload(ref)] == below && |below| < d
                  else if TagOf(ref) == REF_FRINGE then
                    OnlyUnder(s.stored, below, Pos(below, 1)) && (x != Pos(below, 1) ==> |below| < d)
                    && !NodeSlot(d, s, n, octet)
                  else
                    && TagOf(ref) == REF_LEAF && Payload(ref) < |s.leaves| && |below| < d && !NodeSlot(d, s, n, octet)
                    && LeafStands(d, s, n, octet, p, x))
  {
    var octet := OctetAt(d, p.key, |s.paths[n]|);
    var below := s.paths[n] + [octet];
    FloorPos(d, p, x);
    BelowPath(d, p, x, s.paths[n], octet);
    assert SlotOk(d, s, n, octet);
    if x != Pos(below, 1) {
      LongerBelow(d, p, below);
    }
    if s.nodes[n].kids.Has(octet) && TagOf(s.nodes[n].kids.At(octet)) == REF_LEAF {
      LeafSlot(d, s, n, octet, p, x);
    }
  }

  ghost predicate LeafStands(d: nat, s: Shape, n: nat, o: nat, p: Prefix, x: Pos)
    requires Sized(d, s) && n < |s.nodes| && s.nodes[n].kids.Has(o) && Payload(s.nodes[n].kids.At(o)) < |s.leaves|
  {
    var lf := s.leaves[Payload(s.nodes[n].kids.At(o))];
    && 0 < lf.id < TAG && (LeafPrefix(lf) == p && Valid(8 * d, p) ==> LeafOk(d, lf, x))
    && exists y :: LeafAt(d, s, n, o, lf, y)
  }

  // The position the leaf in a slot stands for.
  lemma LeafOf(d: nat, s: Shape, n: nat, o: nat, p: Prefix, x: Pos) returns (y: Pos)
    requires Inv(d, s) && n < |s.nodes| && s.nodes[n].kids.Has(o) && Payload(s.nodes[n].kids.At(o)) < |s.leaves|
    requires LeafStands(d, s, n, o, p, x)
    ensures var lf := s.leaves[Payload(s.nodes[n].kids.At(o))];
            && 0 < lf.id < TAG && LeafOk(d, lf, y) && OnlyUnder(s.stored, s.paths[n] + [o], y) && s.stored[y] == lf.id
            && (LeafPrefix(lf) == p && Valid(8 * d, p) ==> LeafOk(d, lf, x))
  {
    hide LeafOk, OnlyUnder;
    y :| LeafAt(d, s, n, o, s.leaves[Payload(s.nodes[n].kids.At(o))], y);
  }

  lemma OwnLeaf(d: nat, lf: Leaf, x: Pos)
    requires Valid(8 * d, LeafPrefix(lf)) && lf.len <= 8 * d && x == PosOf(Floor, d, LeafPrefix(lf))
    ensures LeafOk(d, lf, x)
  {
    hide PosOf, Valid;
  }

  lemma LeafSlot(d: nat, s: Shape, n: nat, o: nat, p: Prefix, x: Pos)
    requires Inv(d, s) && n < |s.nodes| && SlotOk(d, s, n, o) && s.nodes[n].kids.Has(o)
    requires TagOf(s.nodes[n].kids.At(o)) == REF_LEAF && p.len <= 8 * d && x == PosOf(Floor, d, p)
    ensures |s.paths[n] + [o]| < d && LeafStands(d, s, n, o, p, x)
  {
    var lf := s.leaves[Payload(s.nodes[n].kids.At(o))];
    var y :| LeafOk(d, lf, y) && y != Pos(s.paths[n] + [o], 1)
             && OnlyUnder(s.stored, s.paths[n] + [o], y) && s.stored[y] == lf.id;
    assert LeafAt(d, s, n, o, lf, y);
    LongerBelow(d, LeafPrefix(lf), s.paths[n] + [o]);
  }

  lemma PutBack(m: map<Pos, nat>, y: Pos)
    requires y in m
    ensures (m - {y})[y := m[y]] == m
  {
  }

  class BuildTree {
    const depth: nat
    var nodes: seq<BuildNode>
    var leaves: seq<Leaf>
    ghost var paths: seq<seq<nat>>
    ghost var stored: map<Pos, nat>

    ghost function Now(): Shape
      reads this
    {
      Shape(nodes, leaves, paths, stored)
    }

    ghost predicate Valid()
      reads this
    {
      depth > 0 && Inv(depth, Now())
    }

    constructor (depth: nat)
      requires depth > 0
      ensures Valid() && this.depth == depth && stored == map[] && |nodes| == 1 && leaves == []
    {
      this.depth := depth;
      nodes := [NewNode()];
      leaves := [];
      paths := [[]];
      stored := map[];
    }

    // Makes idx one of the node's own prefixes, or renames the one already there.
    method SetPfx(node: nat, idx: nat, id: nat)
      requires Valid() && node < |nodes| && 1 <= idx < 256 && 0 < id < TAG
      modifies this
      ensures Valid() && paths == old(paths) && leaves == old(leaves) && |nodes| == old(|nodes|)
      ensures stored == old(stored)[Pos(paths[node], idx) := id]
    {
      ghost var before := Now();
      nodes := nodes[node := nodes[node].(pfx := nodes[node].pfx.Put(idx, id))];
      stored := stored[Pos(paths[node], idx) := id];
      OwnStored(depth, before, node, idx, id, Now());
    }

    // Replaces the only prefix y below a slot by an empty child node.
    method Split(node: nat, octet: nat, ghost y: Pos) returns (child: nat)
      requires Valid() && node < |nodes| < TAG && octet < 256 && !NodeSlot(depth, Now(), node, octet)
      requires OnlyUnder(stored, paths[node] + [octet], y) && |paths[node]| + 1 < depth
      modifies this
      ensures Valid() && leaves == old(leaves) && stored == old(stored) - {y}
      ensures child == old(|nodes|) && |nodes| == child + 1 && paths == old(paths) + [old(paths)[node] + [octet]]
      ensures nodes[child] == NewNode()
    {
      ghost var before := Now();
      child := |nodes|;
      nodes := nodes[node := nodes[node].(kids := nodes[node].kids.Put(octet, Ref(REF_NODE, child)))] + [NewNode()];
      paths := paths + [paths[node] + [octet]];
      stored := stored - {y};
      SlotSplit(depth, before, node, octet, y, Now());
    }

    // Stores a fringe in a slot that is empty or holds the same fringe.
    method SetFringe(node: nat, octet: nat, id: nat)
      requires Valid() && node < |nodes| && octet < 256 && 0 < id < TAG && !NodeSlot(depth, Now(), node, octet)
      requires IsKey(paths[node])
      requires NoneUnder(stored, paths[node] + [octet])
            || OnlyUnder(stored, paths[node] + [octet], Pos(paths[node] + [octet], 1))
      modifies this
      ensures Valid() && paths == old(paths) && leaves == old(leaves) && |nodes| == old(|nodes|)
      ensures stored == old(stored)[Pos(paths[node] + [octet], 1) := id]
    {
      ghost var before, x := Now(), Pos(paths[node] + [octet], 1);
      nodes := nodes[node := nodes[node].(kids := nodes[node].kids.Put(octet, Ref(REF_FRINGE, id)))];
      stored := stored[x := id];
      SlotFilled(depth, before, node, octet, Ref(REF_FRINGE, id), leaves, x, id, Now());
    }

    // Stores a longer prefix in an empty slot, eliding its remaining strides.
    method AddLeaf(node: nat, octet: nat, lf: Leaf, ghost x: Pos)
      requires Valid() && node < |nodes| && octet < 256 && 0 < lf.id < TAG && |leaves| < TAG
      requires !NodeSlot(depth, Now(), node, octet) && NoneUnder(stored, paths[node] + [octet])
      requires LeafOk(depth, lf, x) && paths[node] + [octet] <= x.path && x != Pos(paths[node] + [octet], 1)
      modifies this
      ensures Valid() && paths == old(paths) && leaves == old(leaves) + [lf] && |nodes| == old(|nodes|)
      ensures stored == old(stored)[x := lf.id]
    {
      ghost var before := Now();
      var ref := Ref(REF_LEAF, |leaves|);
      nodes := nodes[node := nodes[node].(kids := nodes[node].kids.Put(octet, ref))];
      leaves := leaves + [lf];
      stored := stored[x := lf.id];
      FloorPos(depth, LeafPrefix(lf), x);
      SlotFilled(depth, before, node, octet, ref, leaves, x, lf.id, Now());
    }

    method RenameLeaf(node: nat, octet: nat, id: nat, ghost x: Pos)
      requires Valid() && node < |nodes| && octet < 256 && 0 < id < TAG && nodes[node].kids.Has(octet)
      requires TagOf(nodes[node].kids.At(octet)) == REF_LEAF && Payload(nodes[node].kids.At(octet)) < |leaves|
      requires LeafOk(depth, leaves[Payload(nodes[node].kids.At(octet))], x)
      modifies this
      ensures Valid() && paths == old(paths) && |leaves| == old(|leaves|) && nodes == old(nodes)
      ensures stored == old(stored)[x := id]
    {
      ghost var before := Now();
      var at := Payload(nodes[node].kids.At(octet));
      leaves := leaves[at := leaves[at].(id := id)];
      stored := stored[x := id];
      LeafRenamed(depth, before, node, octet, x, id, Now());
    }

    // Replaces a fringe by a child node whose index 1 carries the fringe's id.
    method SplitFringe(node: nat, octet: nat) returns (child: nat)
      requires Valid() && node < |nodes| < TAG && octet < 256 && nodes[node].kids.Has(octet)
      requires TagOf(nodes[node].kids.At(octet)) == REF_FRINGE && |paths[node]| + 1 < depth
      modifies this
      ensures Valid() && leaves == old(leaves) && stored == old(stored)
      ensures child == old(|nodes|) && |nodes| == child + 1 && paths == old(paths) + [old(paths)[node] + [octet]]
    {
      var id := Payload(nodes[node].kids.At(octet));
      ghost var y := Pos(paths[node] + [octet], 1);
      assert SlotOk(depth, Now(), node, octet);
      assert 0 < stored[y] < TAG;
      child := Split(node, octet, y);
      SetPfx(child, 1, id);
    }

    // Replaces a leaf by a child node and places the leaf's prefix again below it.
    method SplitLeaf(node: nat, level: nat, octet: nat, existing: Leaf, ghost y: Pos) returns (child: nat)
      requires Valid() && node < |nodes| == |paths| && level == |paths[node]| && level + 1 < depth && octet < 256
      requires |nodes| + (depth - level) < TAG && |leaves| + (depth - level) < TAG && 0 < existing.id < TAG
      requires !NodeSlot(depth, Now(), node, octet) && LeafOk(depth, existing, y)
      requires OnlyUnder(stored, paths[node] + [octet], y) && stored[y] == existing.id
      modifies this
      ensures Valid() && old(paths) <= paths && stored == old(stored)
      ensures child == old(|nodes|) && child < |nodes| == |paths| <= old(|nodes|) + 1
      ensures paths[child] == old(paths)[node] + [octet] && |leaves| <= old(|leaves|) + 1
      decreases depth - level, 0
    {
      ghost var below := paths[node] + [octet];
      assert y in stored && below <= y.path;
      assert Prefixes.Valid(8 * depth, LeafPrefix(existing)) && PosOf(Floor, depth, LeafPrefix(existing)) == y;
      hide Inv, Sized, PosOf, OnlyUnder, NodeSlot, LeafOk, Prefixes.Valid, NewNode;
      child := Split(node, octet, y);
      assert child < |paths| == |nodes| by { NodeFits(depth, Now(), child); }
      assert paths[child] == below;
      PutBack(old(stored), y);
      Insert(child, level + 1, existing.key, existing.len, existing.id);
      NodeFits(depth, Now(), child);
    }

    // Adds a prefix to the subtree of a node on its path.  SplitLeaf uses it too, to put the leaf it
    // displaced one level down.
    method Insert(start: nat, from: nat, key: nat, len: nat, id: nat)
      requires Valid() && Prefixes.Valid(8 * depth, Prefix(key, len)) && 0 < id < TAG
      requires start < |nodes| && from == |paths[start]| && paths[start] <= PosOf(Floor, depth, Prefix(key, len)).path
      requires |nodes| + (depth - from) < TAG && |leaves| + (depth - from) < TAG
      modifies this
      ensures Valid() && old(paths) <= paths
      ensures stored == old(stored)[PosOf(Floor, depth, Prefix(key, len)) := id]
      ensures |nodes| <= old(|nodes|) + (depth - from) && |leaves| <= old(|leaves|) + (depth - from)
      ensures old(nodes[start].kids) == NewNode().kids ==> |nodes| == old(|nodes|) && |leaves| <= old(|leaves|) + 1
      decreases depth - from, 1
    {
      hide Inv, Sized, PosOf, LeafOk, OnlyUnder, NoneUnder, NodeSlot, PfxToIdx, Prefixes.Valid;
      hide TagOf, Payload, OctetAt, Sparse.At, Sparse.Has, Rank, LeafStands;
      LengthFits(8 * depth, Prefix(key, len));
      ghost var x := PosOf(Floor, depth, Prefix(key, len));
      FloorPos(depth, Prefix(key, len), x);
      var last, remainder := len / 8, len % 8;
      var node: nat, level: nat := start, from;
      NodeFits(depth, Now(), start);
      OwnLeaf(depth, Leaf(key, len, id), x);
      while true
        invariant Valid() && stored == old(stored) && old(paths) <= paths && |leaves| <= old(|leaves|) + (level - from)
        invariant node < |nodes| == |paths| && level == |paths[node]| < depth && paths[node] <= x.path
        invariant from <= level && |nodes| <= old(|nodes|) + (level - from)
        invariant old(nodes[start].kids) == NewNode().kids ==>
                    level == from && node == start && nodes == old(nodes) && leaves == old(leaves)
        decreases last - level
      {
        if level == last {
          assert paths[node] == x.path;
          SetPfx(node, if remainder == 0 then 1 else PfxToIdx(OctetAt(depth, key, level), remainder), id);
          return;
        }
        var octet := OctetAt(depth, key, level);
        var fringePosition := remainder == 0 && level == last - 1;
        InsertStep(depth, Now(), node, Prefix(key, len), x);

        if !nodes[node].kids.Has(octet) {
          if fringePosition {
            SetFringe(node, octet, id);
          } else {
            AddLeaf(node, octet, Leaf(key, len, id), x);
          }
          return;
        }
        var ref := nodes[node].kids.At(octet);
        if TagOf(ref) == REF_NODE {
          node := Payload(ref);
        } else if TagOf(ref) == REF_FRINGE {
          if fringePosition {
            // same prefix, new value
            SetFringe(node, octet, id);
            return;
          }
          // something longer branches below
          node := SplitFringe(node, octet);
        } else {
          var existing := leaves[Payload(ref)];
          ghost var y := LeafOf(depth, Now(), node, octet, Prefix(key, len), x);
          if existing.key == key && existing.len == len {
            RenameLeaf(node, octet, id, x);
            return;
          }
          node := SplitLeaf(node, level, octet, existing, y);
        }
        level := level + 1;
      }
    }
  }
}
