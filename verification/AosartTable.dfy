// aosart.Table: packed slices the writer owns, and a published pair of a compiled index and a values
// vector; a batch that adds and removes nothing republishes the values alone.
module AosartTable {
  import opened Bits
  import opened Options
  import opened Prefixes
  import opened Requests
  import opened Octets
  import opened Words
  import opened PackedKeys
  import opened PackedStore
  import StoreReset
  import opened AosartBuild
  import opened AosartTree
  import AosartIndex

  // As many prefixes as the 30-bit references are sure to have room for.
  const CAPACITY := 0x400_0000

  // ---------------------------------------------------------------- the index of the stored keys

  // Route ids follow the order of the keys, from base + 1.
  ghost predicate Numbers(ps: seq<Prefix>, base: nat, ids: map<Prefix, nat>) {
    && (forall i :: 0 <= i < |ps| ==> ps[i] in ids && ids[ps[i]] == base + i + 1)
    && (forall p :: p in ids ==> p in ps)
  }

  ghost function Prefixes4(keys: seq<nat>): seq<Prefix> {
    seq(|keys|, i requires 0 <= i < |keys| => Unpack4(keys[i]))
  }

  ghost function Prefixes6(keys: seq<Entry6>): seq<Prefix> {
    seq(|keys|, i requires 0 <= i < |keys| => Prefix6(keys[i]))
  }

  // A tree that answers for the numbered prefixes.
  ghost predicate TreeFor(d: nat, t: Tree, ps: seq<Prefix>, base: nat, ids: map<Prefix, nat>, s: Shape) {
    d > 0 && t.depth == d && Holds(t, s) && Encodes(Floor, d, ids, s.stored) && Numbers(ps, base, ids)
  }

  ghost predicate Answering(d: nat, t: Tree, ps: seq<Prefix>, base: nat) {
    exists ids, s :: TreeFor(d, t, ps, base, ids, s)
  }

  // What a full rebuild publishes for these keys.
  ghost predicate Published(x: AosartIndex.Index, keys4: seq<nat>, keys6: seq<Entry6>) {
    Answering(4, x.v4, Prefixes4(keys4), 0) && Answering(16, x.v6, Prefixes6(keys6), |keys4|)
  }

  lemma NumbersStep(ps: seq<Prefix>, base: nat, ids: map<Prefix, nat>, p: Prefix)
    requires Numbers(ps, base, ids) && p !in ps
    ensures Numbers(ps + [p], base, ids[p := base + |ps| + 1])
  {
    var ps', ids' := ps + [p], ids[p := base + |ps| + 1];
    forall i | 0 <= i < |ps'| ensures ps'[i] in ids' && ids'[ps'[i]] == base + i + 1 {
      if i < |ps| {
        assert ps[i] in ps;
      }
    }
  }

  // A kept key's prefix differs from every earlier one.
  lemma New4(keys: seq<nat>, i: nat)
    requires Kept4(keys) && i < |keys|
    ensures Unpack4(keys[i]) !in Prefixes4(keys[..i]) && Valid(32, Unpack4(keys[i]))
    ensures Prefixes4(keys[..i + 1]) == Prefixes4(keys[..i]) + [Unpack4(keys[i])]
  {
    assert keys[i] in keys;
    forall j | 0 <= j < i ensures Unpack4(keys[j]) != Unpack4(keys[i]) {
      StrictOnce(keys, Key4, j, i);
    }
  }

  lemma New6(keys: seq<Entry6>, i: nat)
    requires Kept6(keys) && i < |keys|
    ensures Prefix6(keys[i]) !in Prefixes6(keys[..i]) && Valid(128, Prefix6(keys[i]))
    ensures Prefixes6(keys[..i + 1]) == Prefixes6(keys[..i]) + [Prefix6(keys[i])]
  {
    assert keys[i] in keys;
    forall j | 0 <= j < i ensures Prefix6(keys[j]) != Prefix6(keys[i]) {
      StrictOnce(keys, Key6, j, i);
      assert keys[j] in keys;
      KeyDiffers(keys[i], keys[j]);
    }
  }

  lemma KeyDiffers(a: Entry6, b: Entry6)
    requires a.low < WORD && b.low < WORD && a != b
    ensures Prefix6(a) != Prefix6(b)
  {
    if Prefix6(a) == Prefix6(b) {
      EntryIs(a, Prefix6(a));
      EntryIs(b, Prefix6(a));
    }
  }

  method AddAll4(b: AosartIndex.Builder, keys: seq<nat>)
    requires b.Valid() && Kept4(keys) && |keys| < CAPACITY
    requires b.nextID == 0 && b.catalog4 == map[]
    modifies b`nextID, b`catalog4, b.v4
    ensures b.Valid() && b.nextID == |keys| && Numbers(Prefixes4(keys), 0, b.catalog4)
  {
    hide Kept4, Prefixes.Valid, Encodes, Inv, Unpack4, Numbers, Prefixes4, BuildTree.Valid;
    NoneAdded4(keys);
    for i := 0 to |keys|
      invariant b.Valid() && b.nextID == i && Numbers(Prefixes4(keys[..i]), 0, b.catalog4)
    {
      New4(keys, i);
      NumbersStep(Prefixes4(keys[..i]), 0, b.catalog4, Unpack4(keys[i]));
      Counted4(keys, i);
      var id := b.AddKey4(Unpack4(keys[i]));
    }
    assert keys[..|keys|] == keys;
  }

  method AddAll6(b: AosartIndex.Builder, keys: seq<Entry6>, base: nat)
    requires b.Valid() && Kept6(keys) && base + |keys| < CAPACITY
    requires b.nextID == base && b.catalog6 == map[]
    modifies b`nextID, b`catalog6, b.v6
    ensures b.Valid() && Numbers(Prefixes6(keys), base, b.catalog6)
  {
    hide Kept6, Prefixes.Valid, Encodes, Inv, Prefix6, Numbers, Prefixes6, BuildTree.Valid;
    NoneAdded6(keys, base);
    for i := 0 to |keys|
      invariant b.Valid() && b.nextID == base + i && Numbers(Prefixes6(keys[..i]), base, b.catalog6)
    {
      New6(keys, i);
      NumbersStep(Prefixes6(keys[..i]), base, b.catalog6, Prefix6(keys[i]));
      Counted6(keys, i);
      var id := b.AddKey6(Prefix6(keys[i]));
    }
    assert keys[..|keys|] == keys;
  }

  // Compiles the index of the stored keys; ids follow their order, IPv4 first.
  method Index(keys4: seq<nat>, keys6: seq<Entry6>) returns (x: AosartIndex.Index)
    requires Kept4(keys4) && Kept6(keys6) && |keys4| + |keys6| < CAPACITY
    ensures Published(x, keys4, keys6)
  {
    var b := new AosartIndex.Builder();
    hide Kept4, Kept6, Prefixes.Valid, Encodes, Inv, Numbers, Prefixes4, Prefixes6, Holds;
    AddAll4(b, keys4);
    AddAll6(b, keys6, |keys4|);
    x := b.Build();
    assert TreeFor(4, x.v4, Prefixes4(keys4), 0, b.catalog4, b.v4.Now());
    assert TreeFor(16, x.v6, Prefixes6(keys6), |keys4|, b.catalog6, b.v6.Now());
  }

  lemma NoneAdded4(keys: seq<nat>)
    ensures Numbers(Prefixes4(keys[..0]), 0, map[])
  {
  }

  lemma NoneAdded6(keys: seq<Entry6>, base: nat)
    ensures Numbers(Prefixes6(keys[..0]), base, map[])
  {
  }

  lemma Counted4(keys: seq<nat>, i: nat)
    requires i <= |keys|
    ensures |Prefixes4(keys[..i])| == i
  {
  }

  lemma Counted6(keys: seq<Entry6>, i: nat)
    requires i <= |keys|
    ensures |Prefixes6(keys[..i])| == i
  {
  }

  lemma KeepsKeys<V>(s: Store<V>, c: map<Network, V>)
    requires Keeps(s, c)
    ensures Kept4(s.keys4) && Kept6(s.keys6) && |s.keys4| == |s.vals4| && |s.keys6| == |s.vals6|
  {
  }

  lemma EmptyKeeps<V>()
    ensures Keeps<V>(Store([], [], [], []), map[])
  {
  }

  // ---------------------------------------------------------------- the steps of a batch

  datatype Located = Located(slot: nat, exists_: bool)

  // Where each mutation's prefix is in the slices as they stand, and whether any mutation adds or removes
  // one; it stops at a bad prefix.
  ghost predicate LocatedAt<V>(s: Store<V>, c: map<Network, V>, m: Mutation<V>, l: Located) {
    && Decompose(m.prefix).Some? && var n := Decompose(m.prefix).value;
       ValidNetwork(n) && l.exists_ == (n in c) && (l.exists_ ==> SlotOf(s.keys4, s.keys6, n, l.slot))
  }

  method LocateAll<V>(s: Store<V>, ms: seq<Mutation<V>>, ghost c: map<Network, V>)
    returns (bad: bool, structural: bool, found: seq<Located>)
    requires Keeps(s, c) && forall m <- ms :: InFamily(m.prefix)
    ensures bad == !(forall m <- ms :: Decompose(m.prefix).Some?)
    ensures !bad ==> |found| == |ms| && forall i :: 0 <= i < |ms| ==> LocatedAt(s, c, ms[i], found[i])
    ensures !bad ==> (structural <==> exists m <- ms :: Structural(c, Decompose(m.prefix).value, m))
  {
    bad, structural, found := false, false, [];
    hide Keeps, Decompose, InFamily, ValidNetwork, SlotOf;
    for i := 0 to |ms|
      invariant |found| == i && forall j :: 0 <= j < i ==> LocatedAt(s, c, ms[j], found[j])
      invariant structural <==> exists j :: 0 <= j < i && Structural(c, Decompose(ms[j].prefix).value, ms[j])
    {
      assert ms[i] in ms;
      DecomposeIsCanonical(ms[i].prefix);
      var d := Decompose(ms[i].prefix);
      if d.None? {
        bad := true;
        return;
      }
      var slot, exists_ := Locate(s, d.value, c);
      if exists_ == ms[i].delete {
        structural := true;
      }
      found := found + [Located(slot, exists_)];
    }
    forall m | m in ms ensures Decompose(m.prefix).Some? {
      var j :| 0 <= j < |ms| && ms[j] == m;
      assert LocatedAt(s, c, ms[j], found[j]);
    }
    if structural {
      ghost var j :| 0 <= j < |ms| && Structural(c, Decompose(ms[j].prefix).value, ms[j]);
      assert ms[j] in ms;
    }
  }

  // The structural path: each mutation searched for again and spliced.
  method ApplyAll<V>(s0: Store<V>, ms: seq<Mutation<V>>, ghost c: map<Network, V>) returns (s: Store<V>)
    requires Keeps(s0, c) && forall m <- ms :: InFamily(m.prefix) && Decompose(m.prefix).Some?
    ensures Keeps(s, Fold(c, ms)) && |s.keys4| + |s.keys6| <= |s0.keys4| + |s0.keys6| + |ms|
  {
    s := s0;
    hide Keeps, Decompose, InFamily, ValidNetwork, Apply;
    assert forall i :: 0 <= i < |ms| ==> ms[i] in ms;
    for i := 0 to |ms|
      invariant Keeps(s, Fold(c, ms[..i])) && |s.keys4| + |s.keys6| <= |s0.keys4| + |s0.keys6| + i
    {
      FoldStep(c, ms, i);
      DecomposeIsCanonical(ms[i].prefix);
      s := ApplyOne(s, Decompose(ms[i].prefix).value, ms[i], Fold(c, ms[..i]));
    }
    assert ms[..|ms|] == ms;
  }

  // The value-only path: the slots found before stay right, and absent prefixes are skipped.
  method PatchAll<V>(s0: Store<V>, values0: seq<V>, ms: seq<Mutation<V>>, found: seq<Located>, ghost c: map<Network, V>,
                     zero: V) returns (s: Store<V>, values: seq<V>)
    requires Keeps(s0, c) && values0 == Vector(zero, s0) && |found| == |ms|
    requires forall m <- ms :: Decompose(m.prefix).Some?
    requires forall i :: 0 <= i < |ms| ==> LocatedAt(s0, c, ms[i], found[i])
    requires forall m <- ms :: !Structural(c, Decompose(m.prefix).value, m)
    ensures Keeps(s, Fold(c, ms)) && s.keys4 == s0.keys4 && s.keys6 == s0.keys6 && values == Vector(zero, s)
  {
    s, values := s0, values0;
    hide Keeps, Decompose, ValidNetwork, SlotOf, Apply, Structural, Patched, Vector;
    assert forall i :: 0 <= i < |ms| ==> ms[i] in ms;
    for i := 0 to |ms|
      invariant Keeps(s, Fold(c, ms[..i])) && s.keys4 == s0.keys4 && s.keys6 == s0.keys6 && values == Vector(zero, s)
      invariant Fold(c, ms[..i]).Keys == c.Keys
    {
      FoldStep(c, ms, i);
      ghost var now, n := Fold(c, ms[..i]), Decompose(ms[i].prefix).value;
      assert LocatedAt(s0, c, ms[i], found[i]);
      SameDomain(c, now, n, ms[i]);
      DomainKept(now, n, ms[i]);
      if found[i].exists_ {
        PatchKeeps(s, now, n, found[i].slot, ms[i].value, zero);
        s := Patched(s, found[i].slot, ms[i].value);
        values := values[found[i].slot := ms[i].value];
      }
    }
    assert ms[..|ms|] == ms;
  }

  // Whether a mutation is structural depends on the domain alone.
  lemma SameDomain<V>(c: map<Network, V>, c': map<Network, V>, n: Network, m: Mutation<V>)
    requires c.Keys == c'.Keys && !Structural(c, n, m)
    ensures !Structural(c', n, m) && (n in c <==> n in c')
  {
    assert n in c <==> n in c.Keys;
    assert n in c' <==> n in c'.Keys;
  }

  method DeleteOne<V>(s: Store<V>, n: Network, m: Mutation<V>, ghost c: map<Network, V>) returns (r: Store<V>)
    requires Keeps(s, c) && ValidNetwork(n) && m.delete && n in c
    ensures Keeps(r, c - {n}) && |r.keys4| + |r.keys6| <= |s.keys4| + |s.keys6|
  {
    ValidIn(n);
    hide Keeps, Prefixes.Valid;
    if n.is4 {
      r := Remove4(s, n.prefix, m, c);
    } else {
      r := Remove6(s, n.prefix, m, c);
    }
  }

  // ---------------------------------------------------------------- lookups

  // The values of the numbered prefixes of a family sit at their ids.
  ghost predicate Aligned<V>(ps: seq<Prefix>, base: nat, m: map<Prefix, V>, values: seq<V>) {
    && (forall p :: p in ps <==> p in m) && base + |ps| < |values|
    && forall i :: 0 <= i < |ps| ==> values[base + i + 1] == m[ps[i]]
  }

  // The id the index answers with selects the value.
  method LookupValue<V>(d: nat, t: Tree, key: nat, values: seq<V>, ghost ps: seq<Prefix>, ghost base: nat,
                        ghost m: map<Prefix, V>) returns (r: Option<V>)
    requires Answering(d, t, ps, base) && key < Pow2(8 * d) && Aligned(ps, base, m, values)
    ensures Matches(8 * d, m, key, r)
  {
    ghost var ids, s :| TreeFor(d, t, ps, base, ids, s);
    hide Encodes, Numbers, Answers, PosAnswers, Matches, Aligned, Holds;
    var id, found := AosartTree.Lookup(t, key, s);
    PosAnswersIsAnswers(Floor, d, ids, s.stored, key, id);
    ValueOf(8 * d, ps, base, ids, m, values, key, id);
    r := if found then Some(values[id]) else None;
  }

  // The value at the answering id is the value of the longest match.
  lemma ValueOf<V>(w: nat, ps: seq<Prefix>, base: nat, ids: map<Prefix, nat>, m: map<Prefix, V>, values: seq<V>, key: nat,
                   id: nat)
    requires Numbers(ps, base, ids) && Answers(w, ids, key, id) && Aligned(ps, base, m, values)
    ensures id < |values| && Matches(w, m, key, if id != 0 then Some(values[id]) else None)
  {
    hide Covers;
    forall p ensures p in ids <==> p in m {
    }
    assert ids.Keys == m.Keys;
    if exists p <- ids.Keys :: Covers(w, p, key) {
      var p :| p in ids.Keys && Longest(w, ids.Keys, key, p) && ids[p] == id;
      var i :| 0 <= i < |ps| && ps[i] == p;
      assert values[base + i + 1] == m[ps[i]];
      assert Longest(w, m.Keys, key, p) && m[p] == values[id];
    }
  }

  lemma Values4<V>(s: Store<V>, c: map<Network, V>, zero: V)
    requires Keeps(s, c)
    ensures Aligned(Prefixes4(s.keys4), 0, Family(c, true), Vector(zero, s))
  {
    var ps, m, values := Prefixes4(s.keys4), Family(c, true), Vector(zero, s);
    forall p ensures p in ps <==> p in m {
      FamilyHas(c, true, p);
      if p in m {
        assert Named(s.keys4, Name4, Network(true, p));
        var i :| 0 <= i < |s.keys4| && Name4(s.keys4[i]) == Network(true, p);
        assert ps[i] == p;
      }
      if p in ps {
        var i :| 0 <= i < |ps| && ps[i] == p;
        assert Name4(s.keys4[i]) in c;
      }
    }
    forall i | 0 <= i < |ps| ensures ps[i] in m && values[i + 1] == m[ps[i]] {
      FamilyHas(c, true, ps[i]);
      assert Name4(s.keys4[i]) in c && c[Name4(s.keys4[i])] == s.vals4[i];
    }
  }

  lemma Values6<V>(s: Store<V>, c: map<Network, V>, zero: V)
    requires Keeps(s, c)
    ensures Aligned(Prefixes6(s.keys6), |s.keys4|, Family(c, false), Vector(zero, s))
  {
    var ps, m, values := Prefixes6(s.keys6), Family(c, false), Vector(zero, s);
    forall p ensures p in ps <==> p in m {
      FamilyHas(c, false, p);
      if p in m {
        assert Named(s.keys6, Name6, Network(false, p));
        var i :| 0 <= i < |s.keys6| && Name6(s.keys6[i]) == Network(false, p);
        assert ps[i] == p;
      }
      if p in ps {
        var i :| 0 <= i < |ps| && ps[i] == p;
        assert Name6(s.keys6[i]) in c;
      }
    }
    forall i | 0 <= i < |ps| ensures ps[i] in m && values[|s.keys4| + i + 1] == m[ps[i]] {
      FamilyHas(c, false, ps[i]);
      assert Name6(s.keys6[i]) in c && c[Name6(s.keys6[i])] == s.vals6[i];
    }
  }

  // ---------------------------------------------------------------- the table

  class Table<V(!new)> {
    const zero: V
    var store: Store<V>
    var index: AosartIndex.Index
    var values: seq<V>
    ghost var catalog: map<Network, V>

    // The slices hold the catalogue and what is published is what a rebuild of them would publish.
    ghost predicate Valid()
      reads this
    {
      Keeps(store, catalog) && Published(index, store.keys4, store.keys6) && values == Vector(zero, store)
    }

    constructor (zero: V)
      ensures Valid() && catalog == map[] && this.zero == zero
    {
      this.zero := zero;
      catalog := map[];
      var empty: Store<V> := Store([], [], [], []);
      store := empty;
      var x := Index([], []);
      index := x;
      values := Vector(zero, empty);
      new;
      EmptyKeeps<V>();
    }

    // Recompiles the index and lays out the values, IPv4 first.
    method Rebuild()
      requires Keeps(store, catalog) && |store.keys4| + |store.keys6| < CAPACITY
      modifies this`index, this`values
      ensures Valid()
    {
      hide Keeps, Published;
      KeepsKeys(store, catalog);
      index := Index(store.keys4, store.keys6);
      values := [zero] + store.vals4 + store.vals6;
    }

    // All or nothing: a bad prefix leaves the table as it was.
    method ApplyBatch(ms: seq<Mutation<V>>) returns (ok: bool)
      requires Valid() && (forall m <- ms :: InFamily(m.prefix))
      requires |store.keys4| + |store.keys6| + |ms| < CAPACITY
      modifies this
      ensures Valid() && ok == (forall m <- ms :: Decompose(m.prefix).Some?)
      ensures if ok then catalog == Fold(old(catalog), ms) else unchanged(this)
      ensures ok ==>
        forall i | 0 <= i < |ms| && (forall j :: i < j < |ms| ==> Decompose(ms[j].prefix) != Decompose(ms[i].prefix)) ::
          var n := Decompose(ms[i].prefix).value;
          if ms[i].delete then n !in catalog else n in catalog && catalog[n] == ms[i].value
      ensures ok ==>
        forall n: Network | (forall i :: 0 <= i < |ms| ==> Decompose(ms[i].prefix) != Some(n)) ::
          (n in catalog <==> n in old(catalog)) && (n in catalog ==> catalog[n] == old(catalog)[n])
    {
      hide Keeps, Published, Decompose, InFamily, ValidNetwork;
      var bad, structural, found := LocateAll(store, ms, catalog);
      if bad {
        return false;
      }
      ok := true;
      FoldMeans(catalog, ms);
      if structural {
        store := ApplyAll(store, ms, catalog);
        catalog := Fold(catalog, ms);
        Rebuild();
        return;
      }
      store, values := PatchAll(store, values, ms, found, catalog, zero);
      catalog := Fold(catalog, ms);
    }

    method Delete(raw: Raw) returns (deleted: bool)
      requires Valid() && InFamily(raw) && |store.keys4| + |store.keys6| < CAPACITY
      modifies this
      ensures Valid() && deleted == (Decompose(raw).Some? && Decompose(raw).value in old(catalog))
      ensures catalog == if deleted then old(catalog) - {Decompose(raw).value} else old(catalog)
    {
      hide Keeps, Published, Decompose, InFamily, ValidNetwork;
      DecomposeIsCanonical(raw);
      var d := Decompose(raw);
      if d.None? {
        return false;
      }
      var _, there := Locate(store, d.value, catalog);
      if !there {
        return false;
      }
      var m := Mutation(raw, zero, true);
      store := DeleteOne(store, d.value, m, catalog);
      catalog := Apply(catalog, d.value, m);
      Rebuild();
      deleted := true;
    }

    method Reset(entries: seq<Entry<V>>) returns (ok: bool)
      requires Valid() && Sound(entries) && |entries| < CAPACITY
      modifies this
      ensures Valid() && ok == (forall e <- entries :: Decompose(e.prefix).Some?)
      ensures if ok then catalog == CatalogOf(entries, Decompose) else unchanged(this)
      ensures ok ==>
        forall i | 0 <= i < |entries|
                   && (forall j :: i < j < |entries| ==> Decompose(entries[j].prefix) != Decompose(entries[i].prefix)) ::
          var n := Decompose(entries[i].prefix).value; n in catalog && catalog[n] == entries[i].value
      ensures ok ==> forall n <- catalog :: exists i :: 0 <= i < |entries| && Decompose(entries[i].prefix) == Some(n)
    {
      hide Keeps, Published, Decompose, Sound;
      var s := StoreReset.Repack(entries);
      if s.None? {
        return false;
      }
      CatalogMeans(entries, Decompose);
      store := s.value;
      catalog := CatalogOf(entries, Decompose);
      Rebuild();
      ok := true;
    }

    method Lookup4(key: nat) returns (r: Option<V>)
      requires Valid() && key < Pow2(32)
      ensures Matches(32, Family(catalog, true), key, r)
    {
      hide Keeps, Matches, Answering, Pow2, Vector, Prefixes4, Prefixes6, Family, Aligned;
      Values4(store, catalog, zero);
      r := LookupValue(4, index.v4, key, values, Prefixes4(store.keys4), 0, Family(catalog, true));
    }

    method Lookup6(hi: nat, lo: nat) returns (r: Option<V>)
      requires Valid() && hi < WORD && lo < WORD
      ensures Matches(128, Family(catalog, false), Wide(hi, lo), r)
    {
      hide Keeps, Matches, Answering, Pow2, Vector, Prefixes4, Prefixes6, Family, Aligned, Wide;
      Values6(store, catalog, zero);
      WideFits(hi, lo);
      r := LookupValue(16, index.v6, Wide(hi, lo), values, Prefixes6(store.keys6), |store.keys4|, Family(catalog, false));
    }
  }

  lemma WideFits(hi: nat, lo: nat)
    requires hi < WORD && lo < WORD
    ensures Wide(hi, lo) < Pow2(128)
  {
    Pow2Word();
    assert Wide(hi, lo) < WORD * WORD;
  }
}
