// artlpm.Table: two tries, their sizes and the IPv4 front table, kept in step with a finite map from
// prefixes to values through any run of insertions and deletions.
module ArtTable {
  import opened Bits
  import opened Prefixes
  import opened Requests
  import opened Octets
  import opened Options
  import opened ArtTrie
  import opened ArtLookup
  import opened ArtMap
  import ArtPrefix
  import ArtWalk
  import Listing

  const FRONT := 65536

  // ---------------------------------------------------------------- the front table

  // The node two octets down, the best match above it, and whether a leaf is in the way.
  datatype FrontEntry<V> = FrontEntry(node: Option<Node<V>>, best: Option<V>, slow: bool)

  ghost predicate FrontRight<V(!new)>(root: Node<V>, top: nat, e: FrontEntry<V>)
    requires Wf(4, root, [])
  {
    !e.slow ==> forall key: nat | key < Pow2(32) && Shr(key, 16) == top :: FrontAnswers(root, key, e)
  }

  ghost predicate FrontAnswers<V(!new)>(root: Node<V>, key: nat, e: FrontEntry<V>)
    requires Wf(4, root, [])
  {
    var a := KeyOctets(4, key);
    match e.node
    case None => IsBest(4, root, [], a, None, e.best)
    case Some(n) => Wf(4, n, a[..2]) && Carries(4, n, a[..2], e.best, root, [], None, a)
  }

  ghost predicate FrontOk<V(!new)>(root: Node<V>, front: seq<FrontEntry<V>>)
    requires Wf(4, root, [])
  {
    |front| == FRONT && forall top :: 0 <= top < FRONT ==> FrontRight(root, top, front[top])
  }

  // The first two octets of a key are the two of its top sixteen bits.
  lemma TopOctets(key: nat)
    requires key < Pow2(32)
    ensures Shr(key, 16) < FRONT
    ensures OctetAt(4, key, 0) == Shr(key, 16) / 256 && OctetAt(4, key, 1) == Shr(key, 16) % 256
  {
    Pow2Small();
    Pow2Large();
    TopFits(32, 16, key);
    ShiftShift(key, 16, 8);
    assert Shr(key, 24) == Shr(key, 16) / 256;
  }

  method FrontFor<V(!new)>(root: Node<V>, top: nat) returns (e: FrontEntry<V>)
    requires Wf(4, root, []) && top < FRONT
    ensures FrontRight(root, top, e)
  {
    var o0, o1 := top / 256, top % 256;
    SlotReads(4, root, [], o0);
    if root.leaf.Has(o0) {
      return FrontEntry(None, None, true);
    }
    var best := OwnBest(root, o0, None);
    if !root.child.Has(o0) {
      e := FrontEntry(None, best, false);
      forall key: nat | key < Pow2(32) && Shr(key, 16) == top ensures FrontAnswers(root, key, e) {
        EndsFirst(root, key, o0);
      }
      return;
    }
    var n := root.child.At(o0);
    SlotKinds(4, root, [], o0);
    assert [] + [o0] == [o0];
    SlotReads(4, n, [o0], o1);
    if n.leaf.Has(o1) {
      return FrontEntry(None, None, true);
    }
    var deeper := OwnBest(n, o1, best);
    e := FrontEntry(if n.child.Has(o1) then Some(n.child.At(o1)) else None, deeper, false);
    hide Wf, OwnBest, SlotAt, FrontAnswers;
    forall key: nat | key < Pow2(32) && Shr(key, 16) == top ensures FrontAnswers(root, key, e) {
      EndsSecond(root, n, key, o0, o1);
    }
  }

  lemma EndsFirst<V(!new)>(root: Node<V>, key: nat, o0: nat)
    requires Wf(4, root, []) && key < Pow2(32) && o0 == Shr(key, 16) / 256 && o0 < 256 && Sized(root)
    requires SlotAt(root, o0) == Nothing
    ensures FrontAnswers(root, key, FrontEntry(None, OwnBest(root, o0, None), false))
  {
    TopOctets(key);
    hide Wf, SlotAt, OwnBest, KeyOctets, OctetAt;
    BestEnds(4, root, [], key, o0, None);
  }

  lemma EndsSecond<V(!new)>(root: Node<V>, n: Node<V>, key: nat, o0: nat, o1: nat)
    requires Wf(4, root, []) && key < Pow2(32) && o0 == Shr(key, 16) / 256 < 256 && o1 == Shr(key, 16) % 256
    requires Sized(root) && SlotAt(root, o0) == Kid(n) && Sized(n) && !n.leaf.Has(o1)
    ensures FrontAnswers(root, key, FrontEntry(if n.child.Has(o1) then Some(n.child.At(o1)) else None,
                                               OwnBest(n, o1, OwnBest(root, o0, None)), false))
  {
    hide Wf, SlotAt, OwnBest, KeyOctets, OctetAt, IsBest, Shr, Pow2;
    var a, best := KeyOctets(4, key), OwnBest(root, o0, None);
    FirstOctets(key, o0, o1);
    BestDescends(4, root, [], key, o0, None, n);
    SlotReads(4, n, [o0], o1);
    if n.child.Has(o1) {
      var c := n.child.At(o1);
      BestDescends(4, n, [o0], key, o1, best, c);
      CarriesOn(4, c, [o0, o1], OwnBest(n, o1, best), n, [o0], best, root, [], None, a);
    } else {
      BestEnds(4, n, [o0], key, o1, best);
    }
  }

  lemma FirstOctets(key: nat, o0: nat, o1: nat)
    requires key < Pow2(32) && o0 == Shr(key, 16) / 256 && o1 == Shr(key, 16) % 256
    ensures KeyOctets(4, key)[0] == o0 && KeyOctets(4, key)[1] == o1 && KeyOctets(4, key)[..1] == [o0]
    ensures KeyOctets(4, key)[..2] == [o0, o1] && [] + [o0] == [o0] && [o0] + [o1] == [o0, o1]
  {
    TopOctets(key);
    hide OctetAt, Shr, Pow2;
  }

  method NewFront<V(!new)>(root: Node<V>) returns (front: seq<FrontEntry<V>>)
    requires Wf(4, root, [])
    ensures FrontOk(root, front)
  {
    front := [];
    hide Wf, FrontRight;
    for top := 0 to FRONT
      invariant |front| == top && forall t :: 0 <= t < top ==> FrontRight(root, t, front[t])
    {
      var e := FrontFor(root, top);
      front := front + [e];
    }
  }

  // ---------------------------------------------------------------- the table

  ghost predicate Tracks<V>(d: nat, n: Node<V>, size: nat, m: map<Prefix, V>) {
    Stores(d, n, m) && size == |m|
  }

  // A front table is only ever kept for the present root.
  ghost predicate FrontKept<V(!new)>(root: Node<V>, front: seq<FrontEntry<V>>, frontOK: bool) {
    frontOK ==> Wf(4, root, []) && FrontOk(root, front)
  }

  class Table<V(!new)> {
    var root4: Node<V>
    var root6: Node<V>
    var size4: nat
    var size6: nat
    var front: seq<FrontEntry<V>>
    var frontOK: bool
    ghost var catalog4: map<Prefix, V>
    ghost var catalog6: map<Prefix, V>

    ghost predicate Valid()
      reads this
    {
      && Tracks(4, root4, size4, catalog4) && Tracks(16, root6, size6, catalog6)
      && FrontKept(root4, front, frontOK)
    }

    // Both families as one catalogue.
    ghost function Catalog(is4: bool): map<Prefix, V>
      reads this
    {
      if is4 then catalog4 else catalog6
    }

    constructor ()
      ensures Valid() && Catalog(true) == map[] && Catalog(false) == map[]
    {
      root4, root6 := NewNode(), NewNode();
      size4, size6, front, frontOK := 0, 0, [], false;
      catalog4, catalog6 := map[], map[];
      new;
      EmptyStores<V>(4);
      EmptyStores<V>(16);
    }

    method Insert(raw: Raw, v: V) returns (added: bool)
      requires Valid() && InFamily(raw)
      modifies this
      ensures Valid()
      ensures Decompose(raw).None? ==> catalog4 == old(catalog4) && catalog6 == old(catalog6)
      ensures Decompose(raw).Some? ==> var n := Decompose(raw).value;
                && catalog4 == (if n.is4 then old(catalog4)[n.prefix := v] else old(catalog4))
                && catalog6 == if n.is4 then old(catalog6) else old(catalog6)[n.prefix := v]
      ensures Decompose(raw).Some? ==> !frontOK
      ensures added == (Decompose(raw).Some? && Decompose(raw).value.prefix !in old(Catalog(Decompose(raw).value.is4)))
    {
      hide Decompose, Tracks, ValidNetwork, FrontKept, Prefixes.Valid, Pow2, InFamily;
      DecomposeIsCanonical(raw);
      var d := Decompose(raw);
      if d.None? {
        return false;
      }
      DropFront();
      NoFront(root4, front);
      ValidIn(d.value);
      if d.value.is4 {
        added := Insert4(d.value.prefix, v);
      } else {
        added := Insert6(d.value.prefix, v);
      }
    }

    method Insert4(p: Prefix, v: V) returns (added: bool)
      requires Valid() && !frontOK && Prefixes.Valid(32, p)
      modifies this`root4, this`catalog4, this`size4
      ensures Valid() && added == (p !in old(catalog4)) && catalog4 == old(catalog4)[p := v]
    {
      hide Tracks, Prefixes.Valid, FrontKept, Pow2;
      var r, size;
      r, size, added := InsertInto(4, root4, size4, catalog4, p, v);
      root4, size4, catalog4 := r, size, catalog4[p := v];
      NoFront(root4, front);
    }

    method Insert6(p: Prefix, v: V) returns (added: bool)
      requires Valid() && !frontOK && Prefixes.Valid(128, p)
      modifies this`root6, this`catalog6, this`size6
      ensures Valid() && added == (p !in old(catalog6)) && catalog6 == old(catalog6)[p := v]
    {
      hide Tracks, Prefixes.Valid, FrontKept, Pow2;
      var r, size;
      r, size, added := InsertInto(16, root6, size6, catalog6, p, v);
      root6, size6, catalog6 := r, size, catalog6[p := v];
      NoFront(root4, front);
    }

    method Delete(raw: Raw) returns (found: bool)
      requires Valid() && InFamily(raw)
      modifies this
      ensures Valid()
      ensures Decompose(raw).None? ==> catalog4 == old(catalog4) && catalog6 == old(catalog6)
      ensures Decompose(raw).Some? ==> var n := Decompose(raw).value;
                && catalog4 == (if n.is4 then old(catalog4) - {n.prefix} else old(catalog4))
                && catalog6 == if n.is4 then old(catalog6) else old(catalog6) - {n.prefix}
      ensures Decompose(raw).Some? ==> !frontOK
      ensures found == (Decompose(raw).Some? && Decompose(raw).value.prefix in old(Catalog(Decompose(raw).value.is4)))
    {
      hide Decompose, Tracks, ValidNetwork, FrontKept, Prefixes.Valid, Pow2, InFamily;
      DecomposeIsCanonical(raw);
      var d := Decompose(raw);
      if d.None? {
        return false;
      }
      DropFront();
      NoFront(root4, front);
      ValidIn(d.value);
      if d.value.is4 {
        found := Delete4(d.value.prefix);
      } else {
        found := Delete6(d.value.prefix);
      }
    }

    method Delete4(p: Prefix) returns (found: bool)
      requires Valid() && !frontOK && Prefixes.Valid(32, p)
      modifies this`root4, this`catalog4, this`size4
      ensures Valid() && found == (p in old(catalog4)) && catalog4 == old(catalog4) - {p}
    {
      hide Tracks, Prefixes.Valid, FrontKept, Pow2;
      var r, size;
      r, size, found := DeleteFrom(4, root4, size4, catalog4, p);
      root4, size4, catalog4 := r, size, catalog4 - {p};
      NoFront(root4, front);
    }

    method Delete6(p: Prefix) returns (found: bool)
      requires Valid() && !frontOK && Prefixes.Valid(128, p)
      modifies this`root6, this`catalog6, this`size6
      ensures Valid() && found == (p in old(catalog6)) && catalog6 == old(catalog6) - {p}
    {
      hide Tracks, Prefixes.Valid, FrontKept, Pow2;
      var r, size;
      r, size, found := DeleteFrom(16, root6, size6, catalog6, p);
      root6, size6, catalog6 := r, size, catalog6 - {p};
      NoFront(root4, front);
    }

    method DropFront()
      modifies this`front, this`frontOK
      ensures !frontOK
    {
      if frontOK {
        front, frontOK := [], false;
      }
    }

    method BuildFront()
      requires Valid()
      modifies this`front, this`frontOK
      ensures Valid() && frontOK
    {
      hide Tracks, Stores, Wf, FrontKept, FrontOk;
      TracksWf(4, root4, size4, catalog4);
      var built := NewFront(root4);
      FrontStands(root4, built);
      front, frontOK := built, true;
    }

    method Get(raw: Raw) returns (r: Option<V>)
      requires Valid() && InFamily(raw)
      ensures r.Some? <==> Decompose(raw).Some? && Decompose(raw).value.prefix in Catalog(Decompose(raw).value.is4)
      ensures r.Some? ==> r.value == Catalog(Decompose(raw).value.is4)[Decompose(raw).value.prefix]
    {
      hide Decompose, Prefixes.Valid, FrontOk, Wf, InFamily, ValidNetwork, Pow2;
      DecomposeIsCanonical(raw);
      var d := Decompose(raw);
      if d.None? {
        return None;
      }
      ValidIn(d.value);
      if d.value.is4 {
        r := ArtLookup.Get(4, root4, d.value.prefix);
        assert r == Stored(4, root4, d.value.prefix);
      } else {
        r := ArtLookup.Get(16, root6, d.value.prefix);
        assert r == Stored(16, root6, d.value.prefix);
      }
    }

    // The longest stored prefix that contains the query.
    method LookupPrefix(raw: Raw) returns (r: Option<V>)
      requires Valid() && InFamily(raw)
      ensures Decompose(raw).None? ==> r == None
      ensures Decompose(raw).Some? ==>
                var n := Decompose(raw).value;
                ArtPrefix.Contains(FamilyWidth(n.is4), Catalog(n.is4), n.prefix, r)
    {
      hide Decompose, Prefixes.Valid, FrontKept, Wf, InFamily, ValidNetwork, Pow2, ArtPrefix.Contains, ArtPrefix.BestWithin;
      DecomposeIsCanonical(raw);
      var d := Decompose(raw);
      if d.None? {
        return None;
      }
      var p := d.value.prefix;
      ValidIn(d.value);
      if d.value.is4 {
        r := ArtPrefix.LookupPrefix(4, root4, p);
        ArtPrefix.BestIsContaining(4, root4, catalog4, p, r);
      } else {
        r := ArtPrefix.LookupPrefix(16, root6, p);
        ArtPrefix.BestIsContaining(16, root6, catalog6, p, r);
      }
    }

    // Every stored prefix once, IPv4 first.
    method All() returns (v4: seq<Listing.Entry<V>>, v6: seq<Listing.Entry<V>>)
      requires Valid()
      ensures Listing.ListsMap(v4, catalog4) && Listing.ListsMap(v6, catalog6)
    {
      hide FrontKept, Wf, ArtWalk.Complete, Listing.ListsMap;
      v4 := ArtWalk.Walk(4, root4, []);
      ArtWalk.CompleteIsMap(4, root4, catalog4, v4);
      v6 := ArtWalk.Walk(16, root6, []);
      ArtWalk.CompleteIsMap(16, root6, catalog6, v6);
    }

    // Through the front table when there is one and the slot holds no leaf, else from the root.
    method Lookup4(key: nat) returns (r: Option<V>)
      requires Valid() && key < Pow2(32)
      ensures Matches(32, catalog4, key, r)
    {
      ghost var a := KeyOctets(4, key);
      TopOctets(key);
      hide Wf, IsBest, KeyOctets, Shr, Carries, Pow2;
      if frontOK {
        var e := front[Shr(key, 16)];
        assert FrontRight(root4, Shr(key, 16), e);
        if !e.slow {
          assert FrontAnswers(root4, key, e);
          if e.node.None? {
            r := e.best;
          } else {
            r := Descend(4, e.node.value, 2, key, e.best, a[..2]);
            CarriedBest(4, e.node.value, a[..2], e.best, root4, [], None, a, r);
          }
          BestIsLongest(4, root4, catalog4, key, r);
          return;
        }
      }
      r := Descend(4, root4, 0, key, None, []);
      BestIsLongest(4, root4, catalog4, key, r);
    }

    // The address comes as sixteen octets, so the descent reads them as they are.
    method Lookup6(key: nat) returns (r: Option<V>)
      requires Valid() && key < Pow2(128)
      ensures Matches(128, catalog6, key, r)
    {
      hide Wf, IsBest, KeyOctets, Pow2, FrontOk, Matches;
      r := Descend(16, root6, 0, key, None, []);
      BestIsLongest(16, root6, catalog6, key, r);
    }
  }

  lemma CarriedBest<V(!new)>(d: nat, n: Node<V>, path: seq<nat>, best: Option<V>, n0: Node<V>, path0: seq<nat>,
                             best0: Option<V>, a: seq<nat>, r: Option<V>)
    requires Wf(d, n, path) && Wf(d, n0, path0) && Carries(d, n, path, best, n0, path0, best0, a)
    requires IsBest(d, n, path, a, best, r)
    ensures IsBest(d, n0, path0, a, best0, r)
  {
  }

  lemma FrontStands<V(!new)>(root: Node<V>, front: seq<FrontEntry<V>>)
    requires Wf(4, root, []) && FrontOk(root, front)
    ensures FrontKept(root, front, true)
  {
  }

  lemma NoFront<V(!new)>(root: Node<V>, front: seq<FrontEntry<V>>)
    ensures FrontKept(root, front, false)
  {
  }

  lemma TracksWf<V>(d: nat, n: Node<V>, size: nat, m: map<Prefix, V>)
    requires Tracks(d, n, size, m)
    ensures Stores(d, n, m) && Wf(d, n, [])
  {
  }

  lemma EmptyStores<V>(d: nat)
    requires d > 0
    ensures Stores<V>(d, NewNode(), map[])
  {
    NewIsEmpty<V>(d, []);
  }

  lemma CountPut<V>(m: map<Prefix, V>, p: Prefix, v: V)
    ensures |m[p := v]| == |m| + if p in m then 0 else 1
  {
    if p in m {
      assert m[p := v].Keys == m.Keys;
    } else {
      assert m[p := v].Keys == m.Keys + {p};
    }
  }

  lemma CountDrop<V>(m: map<Prefix, V>, p: Prefix)
    ensures |m - {p}| == |m| - if p in m then 1 else 0
    ensures p in m ==> |m| > 0
  {
    assert (m - {p}).Keys == m.Keys - {p};
    if p !in m {
      assert m - {p} == m;
    }
  }

  method InsertInto<V>(d: nat, n: Node<V>, size: nat, ghost m: map<Prefix, V>, p: Prefix, v: V)
    returns (r: Node<V>, grown: nat, added: bool)
    requires Tracks(d, n, size, m) && Prefixes.Valid(8 * d, p)
    ensures Tracks(d, r, grown, m[p := v]) && added == (p !in m)
  {
    hide Wf, PosOf, Find, Prefixes.Valid, Changed;
    r, added := ArtTrie.Insert(d, n, 0, p, v, []);
    StoresChanged(d, n, r, m, p, Some(v));
    CountPut(m, p, v);
    assert Stored(d, n, p) == if p in m then Some(m[p]) else None;
    grown := if added then size + 1 else size;
  }

  method DeleteFrom<V>(d: nat, n: Node<V>, size: nat, ghost m: map<Prefix, V>, p: Prefix)
    returns (r: Node<V>, left: nat, found: bool)
    requires Tracks(d, n, size, m) && Prefixes.Valid(8 * d, p)
    ensures Tracks(d, r, left, m - {p}) && found == (p in m)
  {
    hide Wf, PosOf, Find, Prefixes.Valid, Changed;
    r, found := ArtTrie.Delete(d, n, 0, p, []);
    assert Stored(d, n, p) == if p in m then Some(m[p]) else None;
    CountDrop(m, p);
    left := if found then size - 1 else size;
    if found {
      StoresChanged(d, n, r, m, p, None);
    } else {
      assert m - {p} == m;
    }
  }
}
