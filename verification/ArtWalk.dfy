// artlpm's enumeration: a node's own prefixes, then its leaves, then its children, each prefix rebuilt
// from the octets of the path.
module ArtWalk {
  import opened Prefixes
  import opened Octets
  import opened Options
  import opened Listing
  import opened PathKeys
  import opened ArtTrie
  import opened ArtMap

  // How far the walk of a node has come: its own indices, leaves and children below these.
  ghost predicate Done<V>(n: Node<V>, path: seq<nat>, own: nat, tails: nat, kids: nat, x: Pos)
    requires Sized(n)
  {
    if |x.path| <= |path| then x.idx < own
    else if n.leaf.Has(x.path[|path|]) then x.path[|path|] < tails
    else x.path[|path|] < kids
  }

  ghost predicate Found<V>(d: nat, n: Node<V>, path: seq<nat>, p: Prefix)
    requires Wf(d, n, path)
  {
    Valid(8 * d, p) && Under(path, PosOf(Ceil, d, p)) && Find(d, n, path, PosOf(Ceil, d, p)).Some?
  }

  ghost predicate Holds<V>(d: nat, n: Node<V>, path: seq<nat>, e: Entry<V>)
    requires Wf(d, n, path)
  {
    Found(d, n, path, e.prefix) && Find(d, n, path, PosOf(Ceil, d, e.prefix)) == Some(e.val)
  }

  ghost predicate FoundDone<V>(d: nat, n: Node<V>, path: seq<nat>, own: nat, tails: nat, kids: nat, p: Prefix)
    requires Wf(d, n, path) && Sized(n)
  {
    Found(d, n, path, p) && Done(n, path, own, tails, kids, PosOf(Ceil, d, p))
  }

  // out lists exactly what is stored and done, each prefix once, with its value.
  ghost predicate Lists<V>(d: nat, n: Node<V>, path: seq<nat>, own: nat, tails: nat, kids: nat, out: seq<Entry<V>>)
    requires Wf(d, n, path) && Sized(n)
  {
    && Distinct(out) && (forall e <- out :: Holds(d, n, path, e))
    && forall p :: Has(out, p) <==> FoundDone(d, n, path, own, tails, kids, p)
  }

  // Everything stored below a node, each prefix once.
  ghost predicate Complete<V>(d: nat, n: Node<V>, path: seq<nat>, out: seq<Entry<V>>)
    requires Wf(d, n, path)
  {
    && Distinct(out) && (forall e <- out :: Holds(d, n, path, e))
    && forall p :: Has(out, p) <==> Found(d, n, path, p)
  }

  // A step of the walk adds exactly what becomes done by it.
  lemma ListsMore<V>(d: nat, n: Node<V>, path: seq<nat>, own: nat, tails: nat, kids: nat,
                     own1: nat, tails1: nat, kids1: nat, out: seq<Entry<V>>, more: seq<Entry<V>>)
    requires Wf(d, n, path) && Sized(n) && Lists(d, n, path, own, tails, kids, out)
    requires Distinct(more) && forall e <- more :: Holds(d, n, path, e)
    requires forall p :: Has(more, p) ==> !FoundDone(d, n, path, own, tails, kids, p)
    requires forall p :: FoundDone(d, n, path, own1, tails1, kids1, p) <==>
                           FoundDone(d, n, path, own, tails, kids, p) || Has(more, p)
    ensures Lists(d, n, path, own1, tails1, kids1, out + more)
  {
    hide Holds, FoundDone, Wf, Sized, Has, Distinct;
    DistinctAppend(out, more);
    forall p ensures Has(out + more, p) <==> FoundDone(d, n, path, own1, tails1, kids1, p) {
      HasAppend(out, more, p);
    }
  }

  // A set bit of the node's own bitmap is the prefix rebuilt from the path and the index.
  lemma OwnStep<V>(d: nat, n: Node<V>, path: seq<nat>, i: nat, out: seq<Entry<V>>)
    requires d > 0 && Wf(d, n, path) && Sized(n) && i < 512 && Lists(d, n, path, i, 0, 0, out)
    ensures n.pfx.Has(i) ==>
              && 1 <= i && |path| < d
              && Lists(d, n, path, i + 1, 0, 0, out + [Entry(PosPrefix(d, Pos(path, i)), n.pfx.At(i))])
    ensures !n.pfx.Has(i) ==> Lists(d, n, path, i + 1, 0, 0, out)
  {
    var x := Pos(path, i);
    if n.pfx.Has(i) {
      PosRoundTrip(Ceil, d, x);
      var e := Entry(PosPrefix(d, x), n.pfx.At(i));
      FindOwn(d, n, path, x);
      OnlyOne(e, e.prefix);
      forall p ensures (FoundDone(d, n, path, i + 1, 0, 0, p) <==> FoundDone(d, n, path, i, 0, 0, p) || Has([e], p))
                    && (Has([e], p) ==> !FoundDone(d, n, path, i, 0, 0, p)) {
        OnlyOne(e, p);
        OwnDone(d, n, path, i, p, e.prefix);
      }
      hide Holds, FoundDone, Has, Wf, PosPrefix, PosOf;
      assert Holds(d, n, path, e) by { OwnHolds(d, n, path, i, e); }
      ListsMore(d, n, path, i, 0, 0, i + 1, 0, 0, out, [e]);
    } else {
      forall p ensures FoundDone(d, n, path, i + 1, 0, 0, p) <==> FoundDone(d, n, path, i, 0, 0, p) {
        OwnUnset(d, n, path, i, p);
      }
    }
  }

  lemma OwnHolds<V>(d: nat, n: Node<V>, path: seq<nat>, i: nat, e: Entry<V>)
    requires Wf(d, n, path) && Sized(n) && n.pfx.Has(i) && e.val == n.pfx.At(i) && Valid(8 * d, e.prefix)
    requires PosOf(Ceil, d, e.prefix) == Pos(path, i)
    ensures Holds(d, n, path, e)
  {
  }

  lemma OwnDone<V>(d: nat, n: Node<V>, path: seq<nat>, i: nat, p: Prefix, q: Prefix)
    requires d > 0 && Wf(d, n, path) && Sized(n) && n.pfx.Has(i) && Valid(8 * d, q) && PosOf(Ceil, d, q) == Pos(path, i)
    ensures FoundDone(d, n, path, i + 1, 0, 0, p) <==> FoundDone(d, n, path, i, 0, 0, p) || p == q
    ensures !FoundDone(d, n, path, i, 0, 0, q)
  {
    if Found(d, n, path, p) && |PosOf(Ceil, d, p).path| <= |path| && PosOf(Ceil, d, p).idx == i {
      PosInjective(Ceil, d, p, q);
    }
  }

  lemma OwnUnset<V>(d: nat, n: Node<V>, path: seq<nat>, i: nat, p: Prefix)
    requires Wf(d, n, path) && Sized(n) && !n.pfx.Has(i)
    ensures FoundDone(d, n, path, i + 1, 0, 0, p) <==> FoundDone(d, n, path, i, 0, 0, p)
  {
  }

  lemma TailStep<V>(d: nat, n: Node<V>, path: seq<nat>, o: nat, out: seq<Entry<V>>)
    requires d > 0 && Wf(d, n, path) && Sized(n) && o < 256 && Lists(d, n, path, 512, o, 0, out)
    ensures n.leaf.Has(o) ==>
              Lists(d, n, path, 512, o + 1, 0, out + [Entry(n.leaf.At(o).prefix, n.leaf.At(o).val)])
    ensures !n.leaf.Has(o) ==> Lists(d, n, path, 512, o + 1, 0, out)
  {
    if n.leaf.Has(o) {
      var lf := n.leaf.At(o);
      var e := Entry(lf.prefix, lf.val);
      SlotKinds(d, n, path, o);
      OnlyOne(e, e.prefix);
      forall p ensures (FoundDone(d, n, path, 512, o + 1, 0, p) <==> FoundDone(d, n, path, 512, o, 0, p) || Has([e], p))
                    && (Has([e], p) ==> !FoundDone(d, n, path, 512, o, 0, p)) {
        OnlyOne(e, p);
        TailDone(d, n, path, o, p);
      }
      TailHolds(d, n, path, o);
      hide Holds, FoundDone, Has, Wf, PosOf;
      ListsMore(d, n, path, 512, o, 0, 512, o + 1, 0, out, [e]);
    }
  }

  lemma TailHolds<V>(d: nat, n: Node<V>, path: seq<nat>, o: nat)
    requires Wf(d, n, path) && Sized(n) && o < 256 && n.leaf.Has(o)
    ensures Holds(d, n, path, Entry(n.leaf.At(o).prefix, n.leaf.At(o).val))
  {
    var lf := n.leaf.At(o);
    assert LeafFits(d, lf, path + [o]);
    assert PosOf(Ceil, d, lf.prefix).path[|path|] == (path + [o])[|path|];
  }

  lemma TailDone<V>(d: nat, n: Node<V>, path: seq<nat>, o: nat, p: Prefix)
    requires d > 0 && Wf(d, n, path) && Sized(n) && o < 256 && n.leaf.Has(o)
    ensures FoundDone(d, n, path, 512, o + 1, 0, p) <==> FoundDone(d, n, path, 512, o, 0, p) || p == n.leaf.At(o).prefix
    ensures !FoundDone(d, n, path, 512, o, 0, n.leaf.At(o).prefix)
  {
    var lf := n.leaf.At(o);
    TailHolds(d, n, path, o);
    assert PosOf(Ceil, d, lf.prefix).path[|path|] == (path + [o])[|path|];
    if Found(d, n, path, p) && |PosOf(Ceil, d, p).path| > |path| && PosOf(Ceil, d, p).path[|path|] == o {
      PosInjective(Ceil, d, p, lf.prefix);
    }
  }

  // A child's list continues its parent's.
  lemma KidStep<V>(d: nat, n: Node<V>, path: seq<nat>, o: nat, out: seq<Entry<V>>, more: seq<Entry<V>>)
    requires d > 0 && Wf(d, n, path) && Sized(n) && o < 256 && n.child.Has(o) && Lists(d, n, path, 512, 256, o, out)
    requires Wf(d, n.child.At(o), path + [o]) && Complete(d, n.child.At(o), path + [o], more)
    ensures Lists(d, n, path, 512, 256, o + 1, out + more)
  {
    var c, below := n.child.At(o), path + [o];
    forall p ensures (FoundDone(d, n, path, 512, 256, o + 1, p) <==> FoundDone(d, n, path, 512, 256, o, p) || Found(d, c, below, p))
                  && (Found(d, c, below, p) ==> !FoundDone(d, n, path, 512, 256, o, p)) {
      KidDone(d, n, path, o, p);
    }
    forall e | e in more ensures Holds(d, n, path, e) {
      KidHolds(d, n, path, o, e);
    }
    hide Holds, FoundDone, Found, Wf, PosOf, Has;
    ListsMore(d, n, path, 512, 256, o, 512, 256, o + 1, out, more);
  }

  lemma KidHolds<V>(d: nat, n: Node<V>, path: seq<nat>, o: nat, e: Entry<V>)
    requires Wf(d, n, path) && Sized(n) && o < 256 && n.child.Has(o) && Wf(d, n.child.At(o), path + [o])
    requires Holds(d, n.child.At(o), path + [o], e)
    ensures Holds(d, n, path, e)
  {
    KidFind(d, n, path, o, PosOf(Ceil, d, e.prefix));
  }

  lemma KidDone<V>(d: nat, n: Node<V>, path: seq<nat>, o: nat, p: Prefix)
    requires Wf(d, n, path) && Sized(n) && o < 256 && n.child.Has(o) && Wf(d, n.child.At(o), path + [o])
    ensures FoundDone(d, n, path, 512, 256, o + 1, p) <==>
              FoundDone(d, n, path, 512, 256, o, p) || Found(d, n.child.At(o), path + [o], p)
    ensures Found(d, n.child.At(o), path + [o], p) ==> !FoundDone(d, n, path, 512, 256, o, p)
  {
    if Valid(8 * d, p) {
      var x := PosOf(Ceil, d, p);
      UnderSlot(path, x, o);
      if Under(path + [o], x) {
        KidFind(d, n, path, o, x);
      }
    }
  }

  lemma UnderSlot(path: seq<nat>, x: Pos, o: nat)
    ensures Under(path + [o], x) <==> Under(path, x) && |x.path| > |path| && x.path[|path|] == o
  {
    if Under(path + [o], x) {
      assert x.path[|path|] == (path + [o])[|path|];
    }
  }

  lemma KidSkip<V>(d: nat, n: Node<V>, path: seq<nat>, o: nat, out: seq<Entry<V>>)
    requires Wf(d, n, path) && Sized(n) && o < 256 && !n.child.Has(o) && Lists(d, n, path, 512, 256, o, out)
    ensures Lists(d, n, path, 512, 256, o + 1, out)
  {
    forall p ensures FoundDone(d, n, path, 512, 256, o + 1, p) <==> FoundDone(d, n, path, 512, 256, o, p) {
    }
  }

  lemma NothingYet<V>(d: nat, n: Node<V>, path: seq<nat>)
    requires Wf(d, n, path) && Sized(n)
    ensures Lists(d, n, path, 0, 0, 0, [])
  {
  }

  lemma AllDone<V>(d: nat, n: Node<V>, path: seq<nat>, out: seq<Entry<V>>)
    requires d > 0 && Wf(d, n, path) && Sized(n) && Lists(d, n, path, 512, 256, 256, out)
    ensures Complete(d, n, path, out)
  {
    forall p ensures Found(d, n, path, p) <==> FoundDone(d, n, path, 512, 256, 256, p) {
      if Found(d, n, path, p) {
        FindCanonical(d, n, path, PosOf(Ceil, d, p));
      }
    }
  }

  method Walk<V>(d: nat, n: Node<V>, path: seq<nat>) returns (out: seq<Entry<V>>)
    requires d > 0 && Wf(d, n, path)
    ensures Complete(d, n, path, out)
    decreases d - |path|
  {
    out := [];
    assert Sized(n);
    NothingYet(d, n, path);
    hide Wf, Lists, PosPrefix;
    for i := 0 to 512
      invariant Lists(d, n, path, i, 0, 0, out)
    {
      OwnStep(d, n, path, i, out);
      if n.pfx.Has(i) {
        out := out + [Entry(PosPrefix(d, Pos(path, i)), n.pfx.At(i))];
      }
    }
    for o := 0 to 256
      invariant Lists(d, n, path, 512, o, 0, out)
    {
      TailStep(d, n, path, o, out);
      if n.leaf.Has(o) {
        out := out + [Entry(n.leaf.At(o).prefix, n.leaf.At(o).val)];
      }
    }
    for o := 0 to 256
      invariant Lists(d, n, path, 512, 256, o, out)
    {
      if n.child.Has(o) {
        SlotKinds(d, n, path, o);
        var more := Walk(d, n.child.At(o), path + [o]);
        KidStep(d, n, path, o, out, more);
        out := out + more;
      } else {
        KidSkip(d, n, path, o, out);
      }
    }
    AllDone(d, n, path, out);
  }

  // The listing of a whole trie is the map it stores.
  lemma CompleteIsMap<V>(d: nat, n: Node<V>, m: map<Prefix, V>, out: seq<Entry<V>>)
    requires Stores(d, n, m) && Complete(d, n, [], out)
    ensures ListsMap(out, m)
  {
    forall e | e in out ensures e.prefix in m && m[e.prefix] == e.val {
      assert Holds(d, n, [], e);
      assert Stored(d, n, e.prefix) == Some(e.val);
    }
    forall p | p in m ensures Has(out, p) {
      assert Valid(8 * d, p);
      assert Stored(d, n, p) == Some(m[p]);
      assert Found(d, n, [], p);
    }
  }
}
