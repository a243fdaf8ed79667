// aosart's frozen form: one array of nodes whose bitsets carry precomputed word ranks into two
// shared item runs, and the queries over it.
module AosartTree {
  import opened Bits
  import opened Prefixes
  import opened Octets
  import opened Bitsets
  import opened ArtSearch
  import opened AosartBuild

  datatype Node = Node(pfx: seq<bool>, pfxRank: seq<nat>, pfxBase: nat,
                       kids: seq<bool>, kidRank: seq<nat>, kidBase: nat)

  datatype Tree = Tree(nodes: seq<Node>, pfxItems: seq<nat>, kidItems: seq<nat>, leaves: seq<Leaf>, depth: nat)

  // A node's bitset and the slice of the shared run it owns are the compressed array it came from.
  ghost predicate Slice(bits: seq<bool>, ranks: seq<nat>, base: nat, run: seq<nat>, source: Sparse<nat>) {
    && source.Wf(256) && bits == source.bits && Running(bits, ranks)
    && base + |source.items| <= |run| && run[base..base + |source.items|] == source.items
  }

  ghost predicate Frozen(t: Tree, nodes: seq<BuildNode>) {
    && |t.nodes| == |nodes|
    && forall i :: 0 <= i < |nodes| ==>
        && Slice(t.nodes[i].pfx, t.nodes[i].pfxRank, t.nodes[i].pfxBase, t.pfxItems, nodes[i].pfx)
        && Slice(t.nodes[i].kids, t.nodes[i].kidRank, t.nodes[i].kidBase, t.kidItems, nodes[i].kids)
  }

  // The frozen tree t holds exactly the prefixes of the build tree s.
  ghost predicate Holds(t: Tree, s: Shape) {
    && t.depth > 0 && Inv(t.depth, s) && t.leaves == s.leaves
    && (if t.nodes == [] then s.stored == map[] else Frozen(t, s.nodes))
  }

  // The position of bit i's item within its node's run.
  function IndexOf(bits: seq<bool>, ranks: seq<nat>, i: nat): nat
    requires i < |bits| == 64 * |ranks|
  {
    ranks[i / 64] + BelowInWord(bits, i)
  }

  lemma SliceReads(bits: seq<bool>, ranks: seq<nat>, base: nat, run: seq<nat>, source: Sparse<nat>, i: nat)
    requires Slice(bits, ranks, base, run, source) && i < 256
    ensures bits[i] <==> source.Has(i)
    ensures bits[i] ==> base + IndexOf(bits, ranks, i) < |run| && run[base + IndexOf(bits, ranks, i)] == source.At(i)
  {
    WordRank(bits, ranks, i);
    if bits[i] {
      RankBelowCount(bits, i);
      assert run[base..base + |source.items|][Rank(bits, i)] == run[base + Rank(bits, i)];
    }
  }

  method Freeze(b: BuildTree) returns (t: Tree)
    requires b.Valid()
    ensures t.depth == b.depth && Holds(t, b.Now())
  {
    var nodes: seq<Node> := [];
    var pfxItems, kidItems := [], [];
    for i := 0 to |b.nodes|
      invariant |nodes| == i
      invariant forall j :: 0 <= j < i ==>
        && Slice(nodes[j].pfx, nodes[j].pfxRank, nodes[j].pfxBase, pfxItems, b.nodes[j].pfx)
        && Slice(nodes[j].kids, nodes[j].kidRank, nodes[j].kidBase, kidItems, b.nodes[j].kids)
      invariant pfxItems == [] && kidItems == [] ==>
        forall j :: 0 <= j < i ==> b.nodes[j].pfx.items == [] && b.nodes[j].kids.items == []
    {
      var source := b.nodes[i];
      var pfxRank := RunningRanks(source.pfx.bits);
      var kidRank := RunningRanks(source.kids.bits);
      ghost var oldPfx, oldKids := pfxItems, kidItems;
      nodes := nodes + [Node(source.pfx.bits, pfxRank, |pfxItems|, source.kids.bits, kidRank, |kidItems|)];
      pfxItems := pfxItems + source.pfx.items;
      kidItems := kidItems + source.kids.items;
      forall j | 0 <= j < i
        ensures Slice(nodes[j].pfx, nodes[j].pfxRank, nodes[j].pfxBase, pfxItems, b.nodes[j].pfx)
        ensures Slice(nodes[j].kids, nodes[j].kidRank, nodes[j].kidBase, kidItems, b.nodes[j].kids)
      {
        SliceGrows(nodes[j].pfx, nodes[j].pfxRank, nodes[j].pfxBase, oldPfx, source.pfx.items, b.nodes[j].pfx);
        SliceGrows(nodes[j].kids, nodes[j].kidRank, nodes[j].kidBase, oldKids, source.kids.items, b.nodes[j].kids);
      }
    }
    if pfxItems == [] && kidItems == [] {
      EmptyTree(b.depth, b.Now());
      nodes := [];
    }
    t := Tree(nodes, pfxItems, kidItems, b.leaves, b.depth);
  }

  lemma SliceGrows(bits: seq<bool>, ranks: seq<nat>, base: nat, run: seq<nat>, more: seq<nat>, source: Sparse<nat>)
    requires Slice(bits, ranks, base, run, source)
    ensures Slice(bits, ranks, base, run + more, source)
  {
    assert (run + more)[base..base + |source.items|] == run[base..base + |source.items|];
  }

  lemma NoItemsNoBits(s: Sparse<nat>, i: nat)
    requires s.Wf(256) && s.items == []
    ensures !s.Has(i)
  {
    if s.Has(i) {
      RankBelowCount(s.bits, i);
    }
  }

  lemma EmptyTree(d: nat, s: Shape)
    requires Inv(d, s) && s.nodes[0].pfx.items == [] && s.nodes[0].kids.items == []
    ensures s.stored == map[]
  {
    if x :| x in s.stored {
      if x.path == [] {
        assert OwnOk(d, s, 0);
        NoItemsNoBits(s.nodes[0].pfx, x.idx);
      } else {
        assert SlotOk(d, s, 0, x.path[0]);
        assert [] + [x.path[0]] <= x.path;
        NoItemsNoBits(s.nodes[0].kids, x.path[0]);
      }
    }
  }

  // ---------------------------------------------------------------- longest match

  // The stored prefixes that belong to the first d strides of a descent.
  ghost function Above(stored: map<Pos, nat>, d: nat): map<Pos, nat> {
    map x | x in stored && |x.path| < d :: stored[x]
  }

  // A stored prefix of the node's stride that covers the key is a set bit on the octet's path.
  lemma OwnCovers(d: nat, s: Shape, a: seq<nat>, n: nat, y: Pos)
    requires Inv(d, s) && n < |s.nodes| == |s.paths| && IsKey(a) && s.paths[n] <= a && |s.paths[n]| < |a|
    requires y in s.stored && |y.path| == |s.paths[n]| && PosCovers(y, a)
    ensures a[|y.path|] < 256 && s.nodes[n].pfx.Wf(256)
    ensures y == Pos(s.paths[n], y.idx) && y.idx < 256 && s.nodes[n].pfx.bits[y.idx] && Anc(y.idx, a[|y.path|])
  {
    assert y.path == a[..|y.path|] == s.paths[n];
    assert OwnOk(d, s, n);
  }

  // A set bit of the node's stride is a stored prefix.
  lemma OwnBit(d: nat, s: Shape, n: nat, idx: nat)
    requires Inv(d, s) && n < |s.nodes| == |s.paths| && idx < 256
    ensures s.nodes[n].pfx.Wf(256)
    ensures s.nodes[n].pfx.bits[idx] ==>
              Pos(s.paths[n], idx) in s.stored && s.stored[Pos(s.paths[n], idx)] == s.nodes[n].pfx.At(idx)
  {
    assert OwnOk(d, s, n);
  }

  // One level of the descent: the node's own best prefix beats everything above it.
  lemma OwnLevel(d: nat, s: Shape, a: seq<nat>, n: nat, best: nat)
    requires Inv(d, s) && n < |s.nodes| && IsKey(a) && s.paths[n] <= a && |s.paths[n]| < |a|
    requires PosAnswers(Above(s.stored, |s.paths[n]|), a, best)
    ensures var idx := LpmTop(s.nodes[n].pfx.bits, a[|s.paths[n]|]);
            PosAnswers(Above(s.stored, |s.paths[n]| + 1), a, if idx >= 0 then s.nodes[n].pfx.At(idx) else best)
  {
    var k := |s.paths[n]|;
    var lower, upper := Above(s.stored, k), Above(s.stored, k + 1);
    NodeFits(d, s, n);
    var idx := LpmTop(s.nodes[n].pfx.bits, a[k]);
    assert IsTop(s.nodes[n].pfx.bits, a[k], idx);
    if idx >= 0 {
      OwnBit(d, s, n, idx);
      OwnTops(d, s, a, n, idx);
    } else {
      hide Inv, PosAnswers, PosCovers, Anc;
      forall y <- upper | PosCovers(y, a) ensures y in lower {
        if y !in lower {
          OwnCovers(d, s, a, n, y);
        }
      }
      SameCovering(lower, upper, a, best);
    }
  }

  lemma OwnTops(d: nat, s: Shape, a: seq<nat>, n: nat, idx: nat)
    requires Inv(d, s) && n < |s.nodes| == |s.paths| && IsKey(a) && s.paths[n] <= a && |s.paths[n]| < |a|
    requires Pos(s.paths[n], idx) in s.stored && a[|s.paths[n]|] < 256 && s.nodes[n].pfx.Wf(256)
    requires IsTop(s.nodes[n].pfx.bits, a[|s.paths[n]|], idx)
    ensures PosAnswers(Above(s.stored, |s.paths[n]| + 1), a, s.stored[Pos(s.paths[n], idx)])
  {
    var upper, x := Above(s.stored, |s.paths[n]| + 1), Pos(s.paths[n], idx);
    assert PosCovers(x, a) && x in upper;
    hide Inv, PosCovers, Anc;
    forall y <- upper.Keys | PosCovers(y, a) ensures PosLen(y) <= PosLen(x) {
      if |y.path| == |s.paths[n]| {
        OwnCovers(d, s, a, n, y);
      }
    }
    assert PosLongest(upper.Keys, a, x);
  }

  lemma SameCovering(lower: map<Pos, nat>, upper: map<Pos, nat>, a: seq<nat>, best: nat)
    requires PosAnswers(lower, a, best)
    requires forall y <- lower :: y in upper && upper[y] == lower[y]
    requires forall y <- upper | PosCovers(y, a) :: y in lower
    ensures PosAnswers(upper, a, best)
  {
    if p :| p in lower.Keys && PosCovers(p, a) {
      var q :| q in lower.Keys && PosLongest(lower.Keys, a, q) && lower[q] == best;
      assert PosLongest(upper.Keys, a, q);
    }
  }

  // A fringe or a covering leaf below the slot wins outright.
  lemma SlotWins(d: nat, s: Shape, a: seq<nat>, n: nat, x: Pos)
    requires Inv(d, s) && n < |s.nodes| && s.paths[n] <= a && |s.paths[n]| < |a|
    requires OnlyUnder(s.stored, s.paths[n] + [a[|s.paths[n]|]], x) && PosCovers(x, a)
    ensures PosAnswers(s.stored, a, s.stored[x])
  {
    var below := s.paths[n] + [a[|s.paths[n]|]];
    forall y <- s.stored.Keys | PosCovers(y, a) ensures PosLen(y) <= PosLen(x) {
      if |y.path| > |s.paths[n]| {
        assert below <= y.path;
      }
    }
    assert PosLongest(s.stored.Keys, a, x);
  }

  lemma SlotBelow(path: seq<nat>, a: seq<nat>, longer: seq<nat>)
    requires path <= a && longer <= a && |path| < |longer|
    ensures path + [a[|path|]] <= longer
  {
  }

  // With nothing covering below the slot, the best above it is the answer.
  lemma SlotEnds(d: nat, s: Shape, a: seq<nat>, n: nat, best: nat)
    requires Inv(d, s) && n < |s.nodes| && s.paths[n] <= a && |s.paths[n]| < |a|
    requires PosAnswers(Above(s.stored, |s.paths[n]| + 1), a, best)
    requires forall y <- s.stored :: s.paths[n] + [a[|s.paths[n]|]] <= y.path ==> !PosCovers(y, a)
    ensures PosAnswers(s.stored, a, best)
  {
    var k := |s.paths[n]|;
    hide Inv, PosAnswers, Anc, IdxLen;
    forall y <- s.stored | PosCovers(y, a) ensures y in Above(s.stored, k + 1) {
      if |y.path| > k {
        SlotBelow(s.paths[n], a, y.path);
      }
    }
    SameCovering(Above(s.stored, k + 1), s.stored, a, best);
  }

  // The leaf test masks both keys to the leaf's length.
  predicate LeafCovers(d: nat, lf: Leaf, key: nat) {
    Covers(8 * d, LeafPrefix(lf), key)
  }

  // The id a node's own prefixes give an octet, or the best so far.
  function OwnBest(n: BuildNode, octet: nat, best: nat): nat
    requires n.pfx.Wf(256) && octet < 256
  {
    var idx := LpmTop(n.pfx.bits, octet);
    if idx >= 0 then n.pfx.At(idx) else best
  }

  // What each kind of child slot does to the answer of a descent.
  lemma LookupStep(d: nat, s: Shape, key: nat, n: nat, best: nat)
    requires d > 0 && Inv(d, s) && n < |s.nodes| && key < Pow2(8 * d)
    requires s.paths[n] == KeyOctets(d, key)[..|s.paths[n]|]
    requires PosAnswers(Above(s.stored, |s.paths[n]|), KeyOctets(d, key), best)
    ensures |s.paths[n]| < d
    ensures var octet, best1 := OctetAt(d, key, |s.paths[n]|), OwnBest(s.nodes[n], OctetAt(d, key, |s.paths[n]|), best);
            var a := KeyOctets(d, key);
            && (LpmTop(s.nodes[n].pfx.bits, octet) >= 0 ==> best1 > 0)
            && if !s.nodes[n].kids.Has(octet) then PosAnswers(s.stored, a, best1)
               else
                 var ref := s.nodes[n].kids.At(octet);
                 if TagOf(ref) == REF_NODE then
                   && Payload(ref) < |s.nodes| && s.paths[Payload(ref)] == a[..|s.paths[n]| + 1]
                   && PosAnswers(Above(s.stored, |s.paths[n]| + 1), a, best1)
                 else if TagOf(ref) == REF_FRINGE then PosAnswers(s.stored, a, Payload(ref)) && Payload(ref) > 0
                 else
                   && Payload(ref) < |s.leaves| && s.leaves[Payload(ref)].id > 0
                   && PosAnswers(s.stored, a,
                        if LeafCovers(d, s.leaves[Payload(ref)], key) then s.leaves[Payload(ref)].id else best1)
  {
    var a, k := KeyOctets(d, key), |s.paths[n]|;
    var octet, below := a[k], s.paths[n] + [a[k]];
    var best1 := OwnBest(s.nodes[n], octet, best);
    OwnLevel(d, s, a, n, best);
    assert SlotOk(d, s, n, octet) && OwnOk(d, s, n);
    assert a[..k] + [octet] == a[..k + 1];
    if !s.nodes[n].kids.Has(octet) {
      SlotEnds(d, s, a, n, best1);
    } else {
      var ref := s.nodes[n].kids.At(octet);
      if TagOf(ref) == REF_FRINGE {
        SlotWins(d, s, a, n, Pos(below, 1));
      } else if TagOf(ref) == REF_LEAF {
        LeafStep(d, s, key, n, s.leaves[Payload(ref)], best1);
      }
    }
  }

  lemma LeafStep(d: nat, s: Shape, key: nat, n: nat, lf: Leaf, best: nat)
    requires d > 0 && Inv(d, s) && n < |s.nodes| && key < Pow2(8 * d)
    requires s.paths[n] == KeyOctets(d, key)[..|s.paths[n]|]
    requires PosAnswers(Above(s.stored, |s.paths[n]| + 1), KeyOctets(d, key), best)
    requires exists x :: LeafOk(d, lf, x) && OnlyUnder(s.stored, s.paths[n] + [OctetAt(d, key, |s.paths[n]|)], x)
                         && s.stored[x] == lf.id
    ensures PosAnswers(s.stored, KeyOctets(d, key), if LeafCovers(d, lf, key) then lf.id else best)
  {
    var a := KeyOctets(d, key);
    var x :| LeafOk(d, lf, x) && OnlyUnder(s.stored, s.paths[n] + [OctetAt(d, key, |s.paths[n]|)], x)
             && s.stored[x] == lf.id;
    PosCoversIsCovers(Floor, d, LeafPrefix(lf), key);
    if LeafCovers(d, lf, key) {
      SlotWins(d, s, a, n, x);
    } else {
      SlotEnds(d, s, a, n, best);
    }
  }

  // The tagged child at an octet, found through the precomputed rank.
  function KidRef(t: Tree, n: nat, octet: nat): (r: nat)
    requires n < |t.nodes| && octet < |t.nodes[n].kids| == 64 * |t.nodes[n].kidRank|
    requires t.nodes[n].kidBase + IndexOf(t.nodes[n].kids, t.nodes[n].kidRank, octet) < |t.kidItems|
  {
    t.kidItems[t.nodes[n].kidBase + IndexOf(t.nodes[n].kids, t.nodes[n].kidRank, octet)]
  }

  function PfxItem(t: Tree, n: nat, idx: nat): (r: nat)
    requires n < |t.nodes| && idx < |t.nodes[n].pfx| == 64 * |t.nodes[n].pfxRank|
    requires t.nodes[n].pfxBase + IndexOf(t.nodes[n].pfx, t.nodes[n].pfxRank, idx) < |t.pfxItems|
  {
    t.pfxItems[t.nodes[n].pfxBase + IndexOf(t.nodes[n].pfx, t.nodes[n].pfxRank, idx)]
  }

  // Reading a frozen node is reading the build node it came from.
  lemma FrozenReads(t: Tree, s: Shape, n: nat, i: nat)
    requires Holds(t, s) && n < |t.nodes| && i < 256
    ensures |t.nodes| == |s.nodes| == |s.paths| && s.nodes[n].pfx.Wf(256) && s.nodes[n].kids.Wf(256)
    ensures t.nodes[n].pfx == s.nodes[n].pfx.bits
    ensures |t.nodes[n].kids| == 256 == 64 * |t.nodes[n].kidRank|
    ensures |t.nodes[n].pfx| == 256 == 64 * |t.nodes[n].pfxRank|
    ensures t.nodes[n].kids[i] <==> s.nodes[n].kids.Has(i)
    ensures t.nodes[n].pfx[i] <==> s.nodes[n].pfx.Has(i)
    ensures t.nodes[n].kids[i] ==>
              && t.nodes[n].kidBase + IndexOf(t.nodes[n].kids, t.nodes[n].kidRank, i) < |t.kidItems|
              && KidRef(t, n, i) == s.nodes[n].kids.At(i)
    ensures t.nodes[n].pfx[i] ==>
              && t.nodes[n].pfxBase + IndexOf(t.nodes[n].pfx, t.nodes[n].pfxRank, i) < |t.pfxItems|
              && PfxItem(t, n, i) == s.nodes[n].pfx.At(i)
  {
    SliceReads(t.nodes[n].kids, t.nodes[n].kidRank, t.nodes[n].kidBase, t.kidItems, s.nodes[n].kids, i);
    SliceReads(t.nodes[n].pfx, t.nodes[n].pfxRank, t.nodes[n].pfxBase, t.pfxItems, s.nodes[n].pfx, i);
  }

  method Lookup(t: Tree, key: nat, ghost s: Shape) returns (best: nat, found: bool)
    requires Holds(t, s) && key < Pow2(8 * t.depth)
    ensures PosAnswers(s.stored, KeyOctets(t.depth, key), best)
    ensures found <==> best != 0
  {
    ghost var a := KeyOctets(t.depth, key);
    if |t.nodes| == 0 {
      return 0, false;
    }
    var n: nat := 0;
    best, found := 0, false;
    var depth: nat := 0;
    FrozenReads(t, s, 0, 0);
    hide Inv, PosAnswers, PosOf, KidRef, PfxItem, LeafCovers, Above;
    assert PosAnswers(Above(s.stored, 0), a, 0) by { EmptyAbove(s.stored, a); }
    while depth < t.depth
      invariant depth <= t.depth
      invariant depth < t.depth ==> n < |t.nodes| && n < |s.paths| && s.paths[n] == a[..depth]
      invariant depth < t.depth ==> PosAnswers(Above(s.stored, depth), a, best)
      invariant depth == t.depth ==> PosAnswers(s.stored, a, best)
      invariant found <==> best != 0
    {
      var octet := OctetAt(t.depth, key, depth);
      FrozenReads(t, s, n, octet);
      LookupStep(t.depth, s, key, n, best);
      var idx := LpmTop(t.nodes[n].pfx, octet);
      if idx >= 0 {
        FrozenReads(t, s, n, idx);
        best, found := PfxItem(t, n, idx), true;
      }
      if !t.nodes[n].kids[octet] {
        return;
      }
      var ref := KidRef(t, n, octet);
      if TagOf(ref) == REF_NODE {
        n := Payload(ref);
        PathFits(t.depth, s, n);
      } else if TagOf(ref) == REF_FRINGE {
        return Payload(ref), true;
      } else {
        var lf := t.leaves[Payload(ref)];
        if LeafCovers(t.depth, lf, key) {
          return lf.id, true;
        }
        return;
      }
      depth := depth + 1;
    }
  }

  lemma EmptyAbove(stored: map<Pos, nat>, a: seq<nat>)
    ensures PosAnswers(Above(stored, 0), a, 0)
  {
  }

  lemma PathFits(d: nat, s: Shape, n: nat)
    requires Inv(d, s) && n < |s.nodes|
    ensures n < |s.paths| && |s.paths[n]| < d
  {
  }

  // ---------------------------------------------------------------- exact match

  // What each kind of child slot says about one prefix that lies below it.
  lemma ExactStep(d: nat, s: Shape, p: Prefix, n: nat)
    requires d > 0 && Inv(d, s) && n < |s.nodes| && Prefixes.Valid(8 * d, p)
    requires s.paths[n] <= PosOf(Floor, d, p).path && |s.paths[n]| < p.len / 8
    ensures |s.paths[n]| < d
    ensures var x, octet := PosOf(Floor, d, p), OctetAt(d, p.key, |s.paths[n]|);
            if !s.nodes[n].kids.Has(octet) then x !in s.stored
            else
              var ref := s.nodes[n].kids.At(octet);
              if TagOf(ref) == REF_NODE then
                Payload(ref) < |s.nodes| && s.paths[Payload(ref)] == x.path[..|s.paths[n]| + 1]
              else if TagOf(ref) == REF_FRINGE then
                && (x in s.stored <==> p.len % 8 == 0 && |s.paths[n]| == p.len / 8 - 1)
                && (x in s.stored ==> s.stored[x] == Payload(ref))
              else
                && Payload(ref) < |s.leaves|
                && (x in s.stored <==> LeafPrefix(s.leaves[Payload(ref)]) == p)
                && (x in s.stored ==> s.stored[x] == s.leaves[Payload(ref)].id)
  {
    var x, octet := PosOf(Floor, d, p), OctetAt(d, p.key, |s.paths[n]|);
    FloorPos(d, p, x);
    BelowPath(d, p, x, s.paths[n], octet);
    assert SlotOk(d, s, n, octet);
    if s.nodes[n].kids.Has(octet) && TagOf(s.nodes[n].kids.At(octet)) == REF_LEAF {
      var lf := s.leaves[Payload(s.nodes[n].kids.At(octet))];
      var y :| LeafOk(d, lf, y) && OnlyUnder(s.stored, s.paths[n] + [octet], y) && s.stored[y] == lf.id;
      if x in s.stored {
        PosInjective(Floor, d, p, LeafPrefix(lf));
      }
    }
  }

  method Exact(t: Tree, p: Prefix, ghost s: Shape) returns (id: nat, found: bool)
    requires Holds(t, s) && Prefixes.Valid(8 * t.depth, p)
    ensures found <==> PosOf(Floor, t.depth, p) in s.stored
    ensures found ==> id == s.stored[PosOf(Floor, t.depth, p)]
  {
    ghost var x := PosOf(Floor, t.depth, p);
    FloorPos(t.depth, p, x);
    if |t.nodes| == 0 {
      return 0, false;
    }
    var n: nat := 0;
    var depth, remainder := p.len / 8, p.len % 8;
    var level: nat := 0;
    FrozenReads(t, s, 0, 0);
    while level < depth
      invariant level <= depth && n < |t.nodes| == |s.paths| && s.paths[n] == x.path[..level]
    {
      hide Inv, PosOf, KidRef;
      var octet := OctetAt(t.depth, p.key, level);
      FrozenReads(t, s, n, octet);
      ExactStep(t.depth, s, p, n);
      if !t.nodes[n].kids[octet] {
        return 0, false;
      }
      var ref := KidRef(t, n, octet);
      if TagOf(ref) == REF_NODE {
        n := Payload(ref);
      } else if TagOf(ref) == REF_FRINGE {
        if remainder == 0 && level == depth - 1 {
          return Payload(ref), true;
        }
        return 0, false;
      } else {
        var lf := t.leaves[Payload(ref)];
        if lf.len == p.len && lf.key == p.key {
          return lf.id, true;
        }
        return 0, false;
      }
      level := level + 1;
    }
    var idx := if remainder != 0 then PfxToIdx(OctetAt(t.depth, p.key, depth), remainder) else 1;
    assert x == Pos(s.paths[n], idx);
    FrozenReads(t, s, n, idx);
    assert OwnOk(t.depth, s, n);
    if !t.nodes[n].pfx[idx] {
      return 0, false;
    }
    return PfxItem(t, n, idx), true;
  }
}
