// Longest match in artlpm's trie: one pass down, the last covering prefix seen being the longest, from
// the root or from a slot of the IPv4 front table.
module ArtLookup {
  import opened Bits
  import opened Bitsets
  import opened Prefixes
  import opened Octets
  import opened Options
  import opened PathKeys
  import opened ArtSearch
  import opened ArtTrie

  // ---------------------------------------------------------------- the answer below a node

  // x is stored at or below the node, covers the key and is no longer than cap.
  ghost predicate Hits<V>(d: nat, n: Node<V>, path: seq<nat>, a: seq<nat>, x: Pos)
    requires Wf(d, n, path)
  {
    Under(path, x) && PosCovers(x, a) && Find(d, n, path, x).Some?
  }

  ghost predicate LongestHit<V>(d: nat, n: Node<V>, path: seq<nat>, a: seq<nat>, x: Pos)
    requires Wf(d, n, path)
  {
    Hits(d, n, path, a, x) && forall y :: Hits(d, n, path, a, y) ==> PosLen(y) <= PosLen(x)
  }

  // r is the longest match below the node, or what was best above it when there is none.
  ghost predicate IsBest<V>(d: nat, n: Node<V>, path: seq<nat>, a: seq<nat>, best: Option<V>, r: Option<V>)
    requires Wf(d, n, path)
  {
    if exists x :: Hits(d, n, path, a, x)
    then exists x :: LongestHit(d, n, path, a, x) && r == Find(d, n, path, x)
    else r == best
  }

  ghost predicate SlotHits<V>(d: nat, s: Slot<V>, path: seq<nat>, a: seq<nat>, x: Pos)
    requires SlotFits(d, s, path)
  {
    Under(path, x) && PosCovers(x, a) && FindIn(d, s, path, x).Some?
  }

  ghost predicate SlotLongest<V>(d: nat, s: Slot<V>, path: seq<nat>, a: seq<nat>, x: Pos)
    requires SlotFits(d, s, path)
  {
    SlotHits(d, s, path, a, x) && forall y :: SlotHits(d, s, path, a, y) ==> PosLen(y) <= PosLen(x)
  }

  ghost predicate SlotBest<V>(d: nat, s: Slot<V>, path: seq<nat>, a: seq<nat>, best: Option<V>, r: Option<V>)
    requires SlotFits(d, s, path)
  {
    if exists x :: SlotHits(d, s, path, a, x)
    then exists x :: SlotLongest(d, s, path, a, x) && r == FindIn(d, s, path, x)
    else r == best
  }

  // The node's own best prefix for an octet, or the best so far.
  function OwnBest<V>(n: Node<V>, o: nat, best: Option<V>): Option<V>
    requires n.pfx.Wf(512) && o < 256
  {
    var idx := LpmTop(n.pfx.bits, o);
    if idx >= 0 then Some(n.pfx.At(idx)) else best
  }

  // A stored prefix of the node's stride that covers the key is a set bit on the octet's path.
  lemma OwnHit<V>(d: nat, n: Node<V>, path: seq<nat>, a: seq<nat>, x: Pos)
    requires Wf(d, n, path) && |a| == d && IsKey(a) && path <= a && x.path == path
    ensures Hits(d, n, path, a, x) <==> n.pfx.Has(x.idx) && Anc(x.idx, a[|path|])
  {
    if n.pfx.Has(x.idx) {
      assert Canonical(Ceil, d, Pos(path, x.idx));
    }
  }

  // A deeper hit is a hit in the key's slot, and longer than the node's own.
  lemma DeepHit<V>(d: nat, n: Node<V>, path: seq<nat>, a: seq<nat>, x: Pos, o: nat)
    requires Wf(d, n, path) && |a| == d && IsKey(a) && path <= a && o == a[|path|] && |path| < d
    requires SlotFits(d, SlotAt(n, o), path + [o])
    ensures |x.path| > |path| ==> (Hits(d, n, path, a, x) <==> SlotHits(d, SlotAt(n, o), path + [o], a, x))
    ensures Under(path + [o], x) ==> |x.path| > |path|
  {
    if |x.path| > |path| {
      if PosCovers(x, a) && Under(path, x) {
        assert x.path[|path|] == a[|path|] == o;
        assert Under(path + [o], x);
      }
      if Under(path + [o], x) {
        FindBySlot(d, n, path, o, x);
      }
    }
  }

  // One level: the node's own best, and then whatever its slot adds.
  lemma BestStep<V>(d: nat, n: Node<V>, path: seq<nat>, a: seq<nat>, o: nat, best: Option<V>, r: Option<V>)
    requires Wf(d, n, path) && |a| == d && IsKey(a) && path <= a && |path| < d && o == a[|path|] && o < 256
    requires n.pfx.Wf(512) && SlotFits(d, SlotAt(n, o), path + [o])
    requires SlotBest(d, SlotAt(n, o), path + [o], a, OwnBest(n, o, best), r)
    ensures IsBest(d, n, path, a, best, r)
  {
    forall x: Pos ensures
        (|x.path| > |path| ==> (Hits(d, n, path, a, x) <==> SlotHits(d, SlotAt(n, o), path + [o], a, x)))
        && (Under(path + [o], x) ==> |x.path| > |path|) {
      DeepHit(d, n, path, a, x, o);
    }
    forall x: Pos | x.path == path ensures Hits(d, n, path, a, x) <==> n.pfx.Has(x.idx) && Anc(x.idx, o) {
      OwnHit(d, n, path, a, x);
    }
    if x :| SlotLongest(d, SlotAt(n, o), path + [o], a, x) && r == FindIn(d, SlotAt(n, o), path + [o], x) {
      DeepWins(d, n, path, a, o, x);
      FindBySlot(d, n, path, o, x);
    } else {
      OwnWins(d, n, path, a, o, best);
    }
  }

  lemma DeepWins<V>(d: nat, n: Node<V>, path: seq<nat>, a: seq<nat>, o: nat, x: Pos)
    requires Wf(d, n, path) && SlotFits(d, SlotAt(n, o), path + [o]) && SlotLongest(d, SlotAt(n, o), path + [o], a, x)
    requires forall y: Pos :: |y.path| > |path| ==> (Hits(d, n, path, a, y) <==> SlotHits(d, SlotAt(n, o), path + [o], a, y))
    requires Under(path + [o], x) ==> |x.path| > |path|
    ensures LongestHit(d, n, path, a, x)
  {
    hide PosCovers, Find, FindIn, Wf, SlotFits;
    forall y | Hits(d, n, path, a, y) ensures PosLen(y) <= PosLen(x) {
    }
  }

  lemma OwnWins<V>(d: nat, n: Node<V>, path: seq<nat>, a: seq<nat>, o: nat, best: Option<V>)
    requires Wf(d, n, path) && o < 256 && n.pfx.Wf(512)
    requires forall x: Pos :: |x.path| > |path| ==> !Hits(d, n, path, a, x)
    requires forall x: Pos | x.path == path :: Hits(d, n, path, a, x) <==> n.pfx.Has(x.idx) && Anc(x.idx, o)
    ensures IsBest(d, n, path, a, best, OwnBest(n, o, best))
  {
    var idx := LpmTop(n.pfx.bits, o);
    hide PosCovers, Anc, Wf;
    assert IsTop(n.pfx.bits, o, idx);
    if idx >= 0 {
      var x := Pos(path, idx);
      FindOwn(d, n, path, x);
      forall y | Hits(d, n, path, a, y) ensures PosLen(y) <= PosLen(x) {
        assert y.path == path;
      }
      assert LongestHit(d, n, path, a, x);
    } else {
      forall y ensures !Hits(d, n, path, a, y) {
        if |y.path| <= |path| && Under(path, y) {
          assert y.path == path;
        }
      }
    }
  }

  // ---------------------------------------------------------------- descending

  // Whatever is best from here is best from where the descent began.
  ghost predicate Carries<V(!new)>(d: nat, n: Node<V>, path: seq<nat>, best: Option<V>,
                                   n0: Node<V>, path0: seq<nat>, best0: Option<V>, a: seq<nat>)
    requires Wf(d, n, path) && Wf(d, n0, path0)
  {
    forall r :: IsBest(d, n, path, a, best, r) ==> IsBest(d, n0, path0, a, best0, r)
  }

  // The end of a descent: an empty slot, or a leaf that covers the key or does not.
  lemma BestEnds<V>(d: nat, n: Node<V>, path: seq<nat>, key: nat, o: nat, best: Option<V>)
    requires Wf(d, n, path) && key < Pow2(8 * d) && path <= KeyOctets(d, key) && |path| < d && o == OctetAt(d, key, |path|)
    requires n.pfx.Wf(512)
    ensures SlotAt(n, o) == Nothing ==> IsBest(d, n, path, KeyOctets(d, key), best, OwnBest(n, o, best))
    ensures SlotAt(n, o).Tail? ==>
              IsBest(d, n, path, KeyOctets(d, key), best,
                     if Covers(8 * d, SlotAt(n, o).lf.prefix, key) then Some(SlotAt(n, o).lf.val) else OwnBest(n, o, best))
  {
    var a := KeyOctets(d, key);
    WfBySlots(d, n, path);
    assert SlotFits(d, SlotAt(n, o), path + [o]);
    if SlotAt(n, o) == Nothing {
      BestStep(d, n, path, a, o, best, OwnBest(n, o, best));
    } else if SlotAt(n, o).Tail? {
      var lf := SlotAt(n, o).lf;
      var x := PosOf(Ceil, d, lf.prefix);
      PosCoversIsCovers(Ceil, d, lf.prefix, key);
      var r := if Covers(8 * d, lf.prefix, key) then Some(lf.val) else OwnBest(n, o, best);
      hide PosOf, Covers, PosCovers, KeyOctets;
      TailBest(d, lf, path + [o], a, OwnBest(n, o, best), x);
      BestStep(d, n, path, a, o, best, r);
    }
  }

  lemma TailBest<V>(d: nat, lf: Leaf<V>, path: seq<nat>, a: seq<nat>, best: Option<V>, x: Pos)
    requires LeafFits(d, lf, path) && x == PosOf(Ceil, d, lf.prefix)
    ensures SlotBest(d, Tail(lf), path, a, best, if PosCovers(x, a) then Some(lf.val) else best)
  {
    hide PosOf, PosCovers;
    if PosCovers(x, a) {
      assert SlotHits(d, Tail(lf), path, a, x);
      assert SlotLongest(d, Tail(lf), path, a, x);
    }
  }

  // Going down to a child carries the node's own best along.
  lemma BestDescends<V(!new)>(d: nat, n: Node<V>, path: seq<nat>, key: nat, o: nat, best: Option<V>, c: Node<V>)
    requires Wf(d, n, path) && path <= KeyOctets(d, key) && |path| < d && o == OctetAt(d, key, |path|)
    requires n.pfx.Wf(512) && SlotAt(n, o) == Kid(c)
    ensures Wf(d, c, path + [o]) && |path| + 1 < d && path + [o] == KeyOctets(d, key)[..|path| + 1]
    ensures Carries(d, c, path + [o], OwnBest(n, o, best), n, path, best, KeyOctets(d, key))
  {
    var a := KeyOctets(d, key);
    WfBySlots(d, n, path);
    assert SlotFits(d, SlotAt(n, o), path + [o]);
    forall r | IsBest(d, c, path + [o], a, OwnBest(n, o, best), r) ensures IsBest(d, n, path, a, best, r) {
      KidBest(d, c, path + [o], a, OwnBest(n, o, best), r);
      BestStep(d, n, path, a, o, best, r);
    }
  }

  lemma KidBest<V>(d: nat, c: Node<V>, path: seq<nat>, a: seq<nat>, best: Option<V>, r: Option<V>)
    requires SlotFits(d, Kid(c), path) && IsBest(d, c, path, a, best, r)
    ensures SlotBest(d, Kid(c), path, a, best, r)
  {
    forall x ensures SlotHits(d, Kid(c), path, a, x) <==> Hits(d, c, path, a, x) {
    }
    if x :| LongestHit(d, c, path, a, x) && r == Find(d, c, path, x) {
      assert SlotLongest(d, Kid(c), path, a, x);
    }
  }

  // The descent proper; best0 is what the strides above have found.
  method Descend<V(!new)>(d: nat, n0: Node<V>, k0: nat, key: nat, best0: Option<V>, ghost path0: seq<nat>)
    returns (best: Option<V>)
    requires Wf(d, n0, path0) && |path0| == k0 && path0 <= KeyOctets(d, key) && key < Pow2(8 * d)
    ensures IsBest(d, n0, path0, KeyOctets(d, key), best0, best)
  {
    var n, k := n0, k0;
    best := best0;
    ghost var a, path := KeyOctets(d, key), path0;
    WfBounds(d, n, path);
    hide Wf, IsBest, SlotAt, OwnBest, KeyOctets, Covers, OctetAt;
    while true
      invariant Wf(d, n, path) && |path| == k < d && path <= a
      invariant Carries(d, n, path, best, n0, path0, best0, a)
      decreases d - k
    {
      var o := OctetAt(d, key, k);
      SlotReads(d, n, path, o);
      BestEnds(d, n, path, key, o, best);
      ghost var before := best;
      best := OwnBest(n, o, best);
      if n.leaf.Has(o) {
        var lf := n.leaf.At(o);
        if Covers(8 * d, lf.prefix, key) {
          return Some(lf.val);
        }
        return;
      }
      if k == d - 1 || !n.child.Has(o) {
        return;
      }
      BestDescends(d, n, path, key, o, before, n.child.At(o));
      CarriesOn(d, n.child.At(o), path + [o], best, n, path, before, n0, path0, best0, a);
      n, k, path := n.child.At(o), k + 1, path + [o];
    }
  }

  lemma CarriesOn<V(!new)>(d: nat, c: Node<V>, below: seq<nat>, best1: Option<V>, n: Node<V>, path: seq<nat>, best: Option<V>,
                           n0: Node<V>, path0: seq<nat>, best0: Option<V>, a: seq<nat>)
    requires Wf(d, c, below) && Wf(d, n, path) && Wf(d, n0, path0)
    requires Carries(d, c, below, best1, n, path, best, a) && Carries(d, n, path, best, n0, path0, best0, a)
    ensures Carries(d, c, below, best1, n0, path0, best0, a)
  {
  }

  lemma WfBounds<V>(d: nat, n: Node<V>, path: seq<nat>)
    requires Wf(d, n, path)
    ensures |path| < d && IsKey(path) && Sized(n)
  {
  }

  // Reading a slot of a node; a node at the last stride has no child.
  lemma SlotReads<V>(d: nat, n: Node<V>, path: seq<nat>, o: nat)
    requires Wf(d, n, path) && o < 256
    ensures Sized(n)
    ensures n.leaf.Has(o) ==> SlotAt(n, o) == Tail(n.leaf.At(o))
    ensures !n.leaf.Has(o) ==> SlotAt(n, o) == if n.child.Has(o) then Kid(n.child.At(o)) else Nothing
    ensures |path| == d - 1 ==> !n.child.Has(o)
  {
    if n.child.Has(o) {
      assert Wf(d, n.child.At(o), path + [o]);
    }
  }

  // ---------------------------------------------------------------- exact match

  method Get<V>(d: nat, n0: Node<V>, p: Prefix) returns (r: Option<V>)
    requires d > 0 && Wf(d, n0, []) && Valid(8 * d, p)
    ensures r == Find(d, n0, [], PosOf(Ceil, d, p))
  {
    CeilPos(d, p);
    ghost var x := PosOf(Ceil, d, p);
    var n, depth := n0, Depth(Ceil, p.len);
    ghost var path: seq<nat> := [];
    var k: nat := 0;
    while k < depth
      invariant k <= depth && |path| == k && path <= x.path && Wf(d, n, path)
      invariant Find(d, n0, [], x) == Find(d, n, path, x)
    {
      var o := OctetAt(d, p.key, k);
      NextOctet(d, p, path, o);
      SlotKinds(d, n, path, o);
      NothingThere(d, n, path, o, x);
      hide PosOf, Wf, Find, Valid, Canonical;
      if n.leaf.Has(o) {
        var lf := n.leaf.At(o);
        LeafFind(d, n, path, o, x);
        if lf.prefix == p {
          return Some(lf.val);
        }
        LeafDiffers(d, lf.prefix, p);
        return None;
      }
      if !n.child.Has(o) {
        return None;
      }
      KidFind(d, n, path, o, x);
      n, k, path := n.child.At(o), k + 1, path + [o];
    }
    var idx := if p.len == 0 then 1 else PfxToIdx(OctetAt(d, p.key, depth), p.len - 8 * depth);
    assert idx == x.idx && path == x.path;
    hide PosOf;
    FindOwn(d, n, path, x);
    r := if n.pfx.Has(idx) then Some(n.pfx.At(idx)) else None;
  }

  lemma LeafFind<V>(d: nat, n: Node<V>, path: seq<nat>, o: nat, x: Pos)
    requires Wf(d, n, path) && o < 256 && n.leaf.Has(o) && Under(path + [o], x)
    ensures Find(d, n, path, x) == if PosOf(Ceil, d, n.leaf.At(o).prefix) == x then Some(n.leaf.At(o).val) else None
  {
    FindBySlot(d, n, path, o, x);
  }
}
