// artlpm's trie as a finite map: what a trie stores, and what its lookups mean for the map.
module ArtMap {
  import opened Bits
  import opened Prefixes
  import opened Octets
  import opened Options
  import opened PathKeys
  import opened ArtTrie
  import opened ArtLookup

  ghost predicate Stores<V>(d: nat, n: Node<V>, m: map<Prefix, V>) {
    && d > 0 && Wf(d, n, []) && AllValid(8 * d, m.Keys)
    && forall p | Valid(8 * d, p) :: Stored(d, n, p) == if p in m then Some(m[p]) else None
  }

  ghost function Stored<V>(d: nat, n: Node<V>, p: Prefix): Option<V>
    requires Wf(d, n, []) && Valid(8 * d, p)
  {
    Find(d, n, [], PosOf(Ceil, d, p))
  }

  lemma StoresChanged<V>(d: nat, n: Node<V>, r: Node<V>, m: map<Prefix, V>, p: Prefix, ov: Option<V>)
    requires Stores(d, n, m) && Valid(8 * d, p) && Changed(d, n, r, [], PosOf(Ceil, d, p), ov)
    ensures Stores(d, r, if ov.Some? then m[p := ov.value] else m - {p})
  {
    assert forall q | Valid(8 * d, q) :: q.len <= 8 * d;
    hide PosOf, Valid, Wf, Find;
    var m' := if ov.Some? then m[p := ov.value] else m - {p};
    forall q | Valid(8 * d, q) ensures Stored(d, r, q) == if q in m' then Some(m'[q]) else None {
      assert Under([], PosOf(Ceil, d, q));
      if q != p {
        LeafDiffers(d, q, p);
      }
    }
  }

  // What a trie holds is held at canonical positions.
  lemma {:induction false} FindCanonical<V>(d: nat, n: Node<V>, path: seq<nat>, x: Pos)
    requires d > 0 && Wf(d, n, path) && Under(path, x) && Find(d, n, path, x).Some?
    ensures Canonical(Ceil, d, x)
    decreases d - |path|
  {
    if |x.path| == |path| {
      assert x == Pos(path, x.idx) && n.pfx.Has(x.idx);
    } else {
      var o := x.path[|path|];
      assert Under(path + [o], x);
      WfBySlots(d, n, path);
      if o < 256 {
        assert SlotFits(d, SlotAt(n, o), path + [o]);
        match SlotAt(n, o)
        case Nothing =>
        case Tail(lf) => CeilPos(d, lf.prefix);
        case Kid(c) => FindCanonical(d, c, path + [o], x);
      }
    }
  }

  // Every hit is a covering member of the map, and every covering member is a hit.
  lemma HitIsMember<V>(d: nat, n: Node<V>, m: map<Prefix, V>, key: nat, x: Pos) returns (p: Prefix)
    requires Stores(d, n, m) && key < Pow2(8 * d) && Hits(d, n, [], KeyOctets(d, key), x)
    ensures p in m && p.len <= 8 * d && Valid(8 * d, p) && PosOf(Ceil, d, p) == x && Covers(8 * d, p, key)
    ensures Find(d, n, [], x) == Some(m[p]) && PosLen(x) == p.len
  {
    FindCanonical(d, n, [], x);
    PosRoundTrip(Ceil, d, x);
    p := PosPrefix(d, x);
    PosCoversIsCovers(Ceil, d, p, key);
    assert Stored(d, n, p) == Find(d, n, [], x);
  }

  lemma MemberIsHit<V>(d: nat, n: Node<V>, m: map<Prefix, V>, key: nat, p: Prefix)
    requires Stores(d, n, m) && key < Pow2(8 * d) && p in m && Covers(8 * d, p, key)
    ensures Valid(8 * d, p) && p.len <= 8 * d && PosLen(PosOf(Ceil, d, p)) == p.len
    ensures Hits(d, n, [], KeyOctets(d, key), PosOf(Ceil, d, p))
  {
    PosCoversIsCovers(Ceil, d, p, key);
    assert Stored(d, n, p) == Some(m[p]);
  }

  lemma BestIsLongest<V>(d: nat, n: Node<V>, m: map<Prefix, V>, key: nat, r: Option<V>)
    requires Stores(d, n, m) && key < Pow2(8 * d) && IsBest(d, n, [], KeyOctets(d, key), None, r)
    ensures Matches(8 * d, m, key, r)
  {
    var a := KeyOctets(d, key);
    if x :| LongestHit(d, n, [], a, x) && r == Find(d, n, [], x) {
      var p := HitIsMember(d, n, m, key, x);
      hide PosOf, Wf, Find, Valid, Covers, KeyOctets, PosCovers;
      forall q | q in m.Keys && Covers(8 * d, q, key) ensures q.len <= p.len {
        MemberIsHit(d, n, m, key, q);
      }
      assert Longest(8 * d, m.Keys, key, p);
    } else {
      hide PosOf, Wf, Find, Valid, Covers, KeyOctets, PosCovers;
      forall q | q in m.Keys ensures !Covers(8 * d, q, key) {
        if Covers(8 * d, q, key) {
          MemberIsHit(d, n, m, key, q);
        }
      }
    }
  }
}
