// aosart's Builder and Index: both families, route ids in insertion order, and the end-to-end
// statement that the frozen index answers the catalogue of the prefixes added.
module AosartIndex {
  import opened Bits
  import opened Prefixes
  import opened Octets
  import opened AosartBuild
  import opened AosartTree

  datatype Result = Ok(id: nat) | BadPrefix | TooManyRoutes

  // The additions 30-bit references have room for: one takes up to sixteen nodes and leaves.
  const ROUTES := 0x3ff_ffff

  // What n additions can have grown a family's tree to.
  ghost predicate Grown(d: nat, nodes: nat, leaves: nat, n: nat) {
    nodes <= 1 + d * n && leaves <= d * n
  }

  lemma RootPath(d: nat, s: Shape)
    requires Inv(d, s)
    ensures |s.nodes| > 0 && |s.paths| > 0 && s.paths[0] == []
  {
  }

  class Builder {
    const v4: BuildTree
    const v6: BuildTree
    var prefixes: seq<Network>
    var nextID: nat
    var ids: map<Network, nat>
    ghost var catalog4: map<Prefix, nat>
    ghost var catalog6: map<Prefix, nat>

    ghost predicate Valid()
      reads this, v4, v6
    {
      && v4 != v6 && v4.depth == 4 && v6.depth == 16 && v4.Valid() && v6.Valid()
      && Grown(4, |v4.nodes|, |v4.leaves|, nextID) && Grown(16, |v6.nodes|, |v6.leaves|, nextID)
      && Encodes(Floor, 4, catalog4, v4.stored) && Encodes(Floor, 16, catalog6, v6.stored)
    }

    // The prefix-to-id table a family's lookups must answer.
    ghost function Catalog(is4: bool): map<Prefix, nat>
      reads this
    {
      if is4 then catalog4 else catalog6
    }

    constructor ()
      ensures Valid() && fresh(v4) && fresh(v6)
      ensures catalog4 == map[] && catalog6 == map[] && nextID == 0 && ids == map[] && prefixes == []
    {
      v4 := new BuildTree(4);
      v6 := new BuildTree(16);
      prefixes, nextID, ids := [], 0, map[];
      catalog4, catalog6 := map[], map[];
    }

    // Records a masked prefix under the next id, replacing the id an equal prefix had.
    method AddKey4(p: Prefix) returns (id: nat)
      requires Valid() && Prefixes.Valid(32, p) && nextID < ROUTES
      modifies this`nextID, this`catalog4, v4
      ensures Valid() && id == nextID == old(nextID) + 1
      ensures catalog4 == old(catalog4)[p := id]
    {
      hide Encodes, Inv, PosOf, Prefixes.Valid;
      RootPath(4, v4.Now());
      nextID := nextID + 1;
      id := nextID;
      EncodedStep(Floor, 4, catalog4, v4.stored, p, id);
      catalog4 := catalog4[p := id];
      v4.Insert(0, 0, p.key, p.len, id);
    }

    method AddKey6(p: Prefix) returns (id: nat)
      requires Valid() && Prefixes.Valid(128, p) && nextID < ROUTES
      modifies this`nextID, this`catalog6, v6
      ensures Valid() && id == nextID == old(nextID) + 1
      ensures catalog6 == old(catalog6)[p := id]
    {
      hide Encodes, Inv, PosOf, Prefixes.Valid;
      RootPath(16, v6.Now());
      nextID := nextID + 1;
      id := nextID;
      EncodedStep(Floor, 16, catalog6, v6.stored, p, id);
      catalog6 := catalog6[p := id];
      v6.Insert(0, 0, p.key, p.len, id);
    }

    // Ids recorded by Add and the catalogue agree.
    ghost predicate Deduplicated()
      reads this
    {
      && |prefixes| == nextID
      && (forall n <- ids :: n.prefix in Catalog(n.is4) && Catalog(n.is4)[n.prefix] == ids[n])
      && (forall p <- catalog4 :: Network(true, p) in ids)
      && (forall p <- catalog6 :: Network(false, p) in ids)
      && (forall n <- ids :: 1 <= ids[n] <= nextID && prefixes[ids[n] - 1] == n)
    }

    // Adds a prefix once: a prefix already added keeps its id.
    method Add(n: Network) returns (r: Result)
      requires Valid() && Deduplicated() && ValidNetwork(n)
      requires n in ids || nextID < ROUTES || nextID >= TAG - 2
      modifies this, v4, v6
      ensures Valid() && Deduplicated()
      ensures n in old(ids) ==> r == Ok(old(ids)[n]) && catalog4 == old(catalog4) && catalog6 == old(catalog6)
      ensures n !in old(ids) && old(nextID) >= TAG - 2 ==>
                r == TooManyRoutes && catalog4 == old(catalog4) && catalog6 == old(catalog6)
      ensures n !in old(ids) && old(nextID) < TAG - 2 ==>
                && r == Ok(old(nextID) + 1)
                && Catalog(n.is4) == old(Catalog(n.is4))[n.prefix := old(nextID) + 1]
                && Catalog(!n.is4) == old(Catalog(!n.is4))
    {
      hide Encodes, Inv, Prefixes.Valid, BuildTree.Valid, AllValid, Grown;
      if n in ids {
        return Ok(ids[n]);
      }
      if nextID >= TAG - 2 {
        return TooManyRoutes;
      }
      var id;
      if n.is4 { id := AddKey4(n.prefix); } else { id := AddKey6(n.prefix); }
      ids := ids[n := id];
      prefixes := prefixes + [n];
      return Ok(id);
    }

    // Compiles both families; the trees are left as they were.
    method Build() returns (x: Index)
      requires Valid()
      ensures x.v4.depth == 4 && x.v6.depth == 16
      ensures Holds(x.v4, v4.Now()) && Holds(x.v6, v6.Now())
    {
      var a := Freeze(v4);
      var b := Freeze(v6);
      x := Index(a, b);
    }
  }

  datatype Index = Index(v4: Tree, v6: Tree)

  // After any sequence of additions the index gives the id of the longest prefix added that
  // covers the address, and 0 exactly when none does.
  method LookupIndex(b: Builder, is4: bool, key: nat) returns (id: nat, found: bool)
    requires b.Valid() && key < Pow2(FamilyWidth(is4))
    ensures Answers(FamilyWidth(is4), b.Catalog(is4), key, id)
    ensures found <==> exists p <- b.Catalog(is4).Keys :: Covers(FamilyWidth(is4), p, key)
  {
    var x := b.Build();
    if is4 {
      id, found := Lookup(x.v4, key, b.v4.Now());
      PosAnswersIsAnswers(Floor, 4, b.catalog4, b.v4.stored, key, id);
      AnswerPositive(32, b.catalog4, 4, b.v4.Now(), key, id);
    } else {
      id, found := Lookup(x.v6, key, b.v6.Now());
      PosAnswersIsAnswers(Floor, 16, b.catalog6, b.v6.stored, key, id);
      AnswerPositive(128, b.catalog6, 16, b.v6.Now(), key, id);
    }
  }

  lemma AnswerPositive(w: nat, m: map<Prefix, nat>, d: nat, s: Shape, key: nat, id: nat)
    requires w == 8 * d && Encodes(Floor, d, m, s.stored) && Inv(d, s) && Answers(w, m, key, id)
    ensures id != 0 <==> exists p <- m.Keys :: Covers(w, p, key)
  {
    hide PosOf, Covers, Prefixes.Valid, Pow2;
    if exists p <- m.Keys :: Covers(w, p, key) {
      var p :| p in m.Keys && Longest(w, m.Keys, key, p) && m[p] == id;
      assert s.stored[PosOf(Floor, d, p)] == id;
    }
  }

  // An exact query gives the last id added for the prefix, and nothing for any other prefix.
  method ExactIndex(b: Builder, n: Network) returns (id: nat, found: bool)
    requires b.Valid() && ValidNetwork(n)
    ensures found <==> n.prefix in b.Catalog(n.is4)
    ensures found ==> id == b.Catalog(n.is4)[n.prefix]
  {
    var x := b.Build();
    if n.is4 {
      id, found := Exact(x.v4, n.prefix, b.v4.Now());
      EncodedDrop(Floor, 4, b.catalog4, b.v4.stored, n.prefix);
    } else {
      id, found := Exact(x.v6, n.prefix, b.v6.Now());
      EncodedDrop(Floor, 16, b.catalog6, b.v6.stored, n.prefix);
    }
  }
}
