// compiledfib: immutable generations of a compiled index, payload pages and a prefix-to-id map, and the
// writer that publishes them.  Every method is one atomic step of the protocol in FibProtocol.
module CompiledFib {
  import opened Bits
  import opened Prefixes
  import opened Sorting
  import opened RoutePages
  import opened FibProtocol
  import opened Catalogs
  import Blocks4
  import BlockLpm

  datatype Generation<V> = Generation(index: BlockLpm.Index, payloads: Pages<V>, routes: map<Network, nat>, number: nat)

  // The index answers the routes.
  ghost predicate Indexed(ix: BlockLpm.Index, routes: map<Network, nat>) {
    exists rs: seq<BlockLpm.Route> :: BlockLpm.Answering(ix, rs) && Tabled(rs, routes)
  }

  // The compiler's input is the table with nothing twice.
  ghost predicate Tabled(rs: seq<BlockLpm.Route>, routes: map<Network, nat>) {
    BlockLpm.TableOf(rs) == routes && |BlockLpm.Entries(rs, false)| == |Family(routes, false)|
  }

  // Route ids are dense enough for the pages and never shared.
  ghost predicate Numbering(routes: map<Network, nat>) {
    && (forall n <- routes :: 0 < routes[n] <= |routes|)
    && (forall n, m :: n in routes && m in routes && routes[n] == routes[m] ==> n == m)
  }

  // The pages hold the catalogue's values under its route ids.
  ghost predicate Pays<V>(p: Pages<V>, routes: map<Network, nat>, catalog: map<Network, V>)
    reads p.Frame()
  {
    p.Shaped() && forall n <- catalog :: n in routes && p.Live(routes[n]) && p.Get(routes[n]) == catalog[n]
  }

  // The generation stands for the catalogue.
  ghost predicate Stands<V>(g: Generation<V>, catalog: map<Network, V>)
    reads g.payloads.Frame()
  {
    && Indexed(g.index, g.routes) && Numbering(g.routes) && g.routes.Keys == catalog.Keys
    && (forall n <- catalog :: ValidNetwork(n)) && Pays(g.payloads, g.routes, catalog)
  }

  // ---------------------------------------------------------------- building a generation

  function NetworkKey(n: Network): Key {
    ((if n.is4 then 0 else Pow2(128)) + n.prefix.key, n.prefix.len)
  }

  // Numbers the sorted prefixes from 1 and compiles them; refused exactly when their value indices
  // would reach the tag bit.
  method BuildGeneration<V>(catalog: map<Network, V>, number: nat, zero: V) returns (g: Generation<V>, err: bool)
    requires forall n <- catalog :: ValidNetwork(n)
    ensures err <==> |catalog| >= Blocks4.NEXT
    ensures g.number == number && fresh(g.payloads.Frame())
    ensures !err ==> Stands(g, catalog)
  {
    hide ValidNetwork, Sorted, Sort, BlockLpm.Answering, Tabled, BlockLpm.ValidRoutes, Pays, Valued, Numbering, Family;
    var keys := Elements(catalog.Keys);
    var prefixes := Sort(keys, NetworkKey);
    NoRepeats(prefixes, catalog.Keys);
    CountOf(prefixes, catalog.Keys);
    var routes, values, indexed := Number(catalog, prefixes);
    var index, full := BlockLpm.New(indexed);
    var payloads := NewPages(values, |prefixes|, zero, routes, catalog);
    g, err := Generation(index, payloads, routes, number), full;
    if !full {
      assert BlockLpm.Answering(index, indexed) && Tabled(indexed, routes);
    }
  }

  method NewPages<V>(values: map<nat, V>, maxID: nat, zero: V, ghost routes: map<Network, nat>, ghost catalog: map<Network, V>)
    returns (p: Pages<V>)
    requires Valued(catalog, routes, values, maxID) && routes.Keys == catalog.Keys
    ensures fresh(p.Frame()) && Pays(p, routes, catalog)
  {
    p := RoutePages.New(values, maxID, zero);
  }

  lemma CountOf(prefixes: seq<Network>, keys: set<Network>)
    requires multiset(prefixes) == multiset(keys)
    ensures |prefixes| == |keys|
  {
    assert |multiset(prefixes)| == |multiset(keys)|;
  }

  method Number<V>(catalog: map<Network, V>, prefixes: seq<Network>)
    returns (routes: map<Network, nat>, values: map<nat, V>, indexed: seq<BlockLpm.Route>)
    requires (forall n :: n in prefixes <==> n in catalog) && forall n <- catalog :: ValidNetwork(n)
    requires forall i, j :: 0 <= i < j < |prefixes| ==> prefixes[i] != prefixes[j]
    requires |prefixes| == |catalog.Keys|
    ensures routes.Keys == catalog.Keys && Numbering(routes) && |indexed| == |catalog|
    ensures Valued(catalog, routes, values, |prefixes|)
    ensures Tabled(indexed, routes) && BlockLpm.ValidRoutes(indexed)
  {
    hide ValidNetwork, NumberedTo;
    routes, values, indexed := map[], map[], [];
    NothingNumbered(catalog, prefixes);
    for i := 0 to |prefixes|
      invariant NumberedTo(catalog, prefixes, i, routes, values, indexed)
    {
      var n := prefixes[i];
      NumberedStep(catalog, prefixes, i, routes, values, indexed);
      routes := routes[n := i + 1];
      values := values[i + 1 := catalog[n]];
      indexed := indexed + [BlockLpm.Route(n, i + 1)];
    }
    AllNumbered(catalog, prefixes, routes, values, indexed);
  }

  // The first i prefixes numbered.
  ghost predicate NumberedTo<V>(catalog: map<Network, V>, prefixes: seq<Network>, i: nat, routes: map<Network, nat>,
                                values: map<nat, V>, indexed: seq<BlockLpm.Route>)
    requires i <= |prefixes|
  {
    && Listed(prefixes[..i], indexed) && Placed(prefixes[..i], routes)
    && Valued(catalog, routes, values, i) && Tabled(indexed, routes)
  }

  lemma NothingNumbered<V>(catalog: map<Network, V>, prefixes: seq<Network>)
    ensures NumberedTo(catalog, prefixes, 0, map[], map[], [])
  {
    NothingTabled();
  }

  lemma NumberedStep<V>(catalog: map<Network, V>, prefixes: seq<Network>, i: nat, routes: map<Network, nat>,
                        values: map<nat, V>, indexed: seq<BlockLpm.Route>)
    requires i < |prefixes| && NumberedTo(catalog, prefixes, i, routes, values, indexed)
    requires forall i, j :: 0 <= i < j < |prefixes| ==> prefixes[i] != prefixes[j]
    requires forall n :: n in prefixes <==> n in catalog
    ensures prefixes[i] in catalog
    ensures NumberedTo(catalog, prefixes, i + 1, routes[prefixes[i] := i + 1],
                       values[i + 1 := catalog[prefixes[i]]], indexed + [BlockLpm.Route(prefixes[i], i + 1)])
  {
    hide Placed, Valued, Tabled;
    var n := prefixes[i];
    assert n in prefixes;
    PlacedStep(prefixes, i, routes);
    ValuedStep(catalog, routes, values, i, n);
    TabledStep(indexed, routes, n, i + 1);
  }

  lemma AllNumbered<V>(catalog: map<Network, V>, prefixes: seq<Network>, routes: map<Network, nat>,
                       values: map<nat, V>, indexed: seq<BlockLpm.Route>)
    requires NumberedTo(catalog, prefixes, |prefixes|, routes, values, indexed)
    requires (forall n :: n in prefixes <==> n in catalog) && forall n <- catalog :: ValidNetwork(n)
    requires |prefixes| == |catalog.Keys|
    ensures routes.Keys == catalog.Keys && Numbering(routes) && |indexed| == |catalog|
    ensures Valued(catalog, routes, values, |prefixes|)
    ensures Tabled(indexed, routes) && BlockLpm.ValidRoutes(indexed)
  {
    hide ValidNetwork, Placed, Valued, Tabled, Numbering, BlockLpm.ValidRoutes;
    assert prefixes[..|prefixes|] == prefixes;
    PlacedAll(prefixes, routes, catalog.Keys);
    PlacedNumbering(prefixes, routes);
    ListedRoutes(prefixes, indexed);
  }

  // The values so far, by route id.
  ghost predicate Valued<V>(catalog: map<Network, V>, routes: map<Network, nat>, values: map<nat, V>, i: nat) {
    && (forall n <- routes :: n in catalog && routes[n] in values && values[routes[n]] == catalog[n])
    && (forall id <- values :: 0 < id <= i)
  }

  lemma ValuedStep<V>(catalog: map<Network, V>, routes: map<Network, nat>, values: map<nat, V>, i: nat, n: Network)
    requires Valued(catalog, routes, values, i) && n in catalog && n !in routes && forall m <- routes :: routes[m] <= i
    ensures Valued(catalog, routes[n := i + 1], values[i + 1 := catalog[n]], i + 1)
  {
  }

  // routes gives each listed prefix its position, counted from 1.
  ghost predicate Placed(prefixes: seq<Network>, routes: map<Network, nat>) {
    && (forall n <- routes :: 0 < routes[n] <= |prefixes| && prefixes[routes[n] - 1] == n)
    && (forall j :: 0 <= j < |prefixes| ==> prefixes[j] in routes)
  }

  lemma PlacedStep(prefixes: seq<Network>, i: nat, routes: map<Network, nat>)
    requires i < |prefixes| && Placed(prefixes[..i], routes)
    requires forall i, j :: 0 <= i < j < |prefixes| ==> prefixes[i] != prefixes[j]
    ensures Placed(prefixes[..i + 1], routes[prefixes[i] := i + 1])
    ensures prefixes[i] !in routes && forall n <- routes :: routes[n] <= i
  {
    assert forall n <- routes :: prefixes[routes[n] - 1] == n && routes[n] - 1 < i;
  }

  lemma PlacedAll(prefixes: seq<Network>, routes: map<Network, nat>, keys: set<Network>)
    requires Placed(prefixes, routes) && (forall n :: n in prefixes <==> n in keys)
    ensures routes.Keys == keys
  {
    forall n ensures n in routes <==> n in keys {
      if n in keys {
        var j :| 0 <= j < |prefixes| && prefixes[j] == n;
      }
    }
  }

  lemma PlacedNumbering(prefixes: seq<Network>, routes: map<Network, nat>)
    requires Placed(prefixes, routes) && |prefixes| == |routes|
    ensures Numbering(routes)
  {
  }

  ghost predicate Listed(prefixes: seq<Network>, indexed: seq<BlockLpm.Route>) {
    |indexed| == |prefixes| && forall j :: 0 <= j < |prefixes| ==> indexed[j] == BlockLpm.Route(prefixes[j], j + 1)
  }

  lemma NothingTabled()
    ensures Tabled([], map[])
  {
    assert Family<nat>(map[], false) == map[];
  }

  lemma TabledStep(rs: seq<BlockLpm.Route>, routes: map<Network, nat>, n: Network, id: nat)
    requires Tabled(rs, routes) && n !in routes
    ensures Tabled(rs + [BlockLpm.Route(n, id)], routes[n := id])
  {
    assert (rs + [BlockLpm.Route(n, id)])[..|rs|] == rs;
    hide Family;
    FamilyCount(routes, n, id);
  }

  lemma FamilyCount(routes: map<Network, nat>, n: Network, id: nat)
    requires n !in routes
    ensures |Family(routes[n := id], false)| == |Family(routes, false)| + if n.is4 then 0 else 1
  {
    hide Family;
    var before, after := Family(routes, false), Family(routes[n := id], false);
    forall p: Prefix ensures p in after.Keys <==> p in before.Keys || (!n.is4 && p == n.prefix) {
      FamilyHas(routes, false, p);
      FamilyHas(routes[n := id], false, p);
    }
    FamilyHas(routes, false, n.prefix);
    assert after.Keys == if n.is4 then before.Keys else before.Keys + {n.prefix};
    assert n.is4 || n.prefix !in before.Keys;
  }

  lemma ListedRoutes(prefixes: seq<Network>, indexed: seq<BlockLpm.Route>)
    requires Listed(prefixes, indexed) && forall n <- prefixes :: ValidNetwork(n)
    ensures BlockLpm.ValidRoutes(indexed)
  {
    hide ValidNetwork;
    forall j | 0 <= j < |indexed| ensures ValidNetwork(indexed[j].network) {
      assert prefixes[j] in prefixes;
    }
  }

  // ---------------------------------------------------------------- payload-only publications

  // updates holds exactly the put values, by route id.
  ghost predicate Updating<V>(routes: map<Network, nat>, mm: map<Network, Mutation<V>>, updates: map<nat, V>) {
    && (forall n <- mm :: mm[n].Put? ==> n in routes && routes[n] in updates && updates[routes[n]] == mm[n].value)
    && (forall id <- updates :: exists n <- mm :: mm[n].Put? && n in routes && routes[n] == id)
  }

  // The new values by route id.
  method Updates<V>(routes: map<Network, nat>, mm: map<Network, Mutation<V>>) returns (updates: map<nat, V>)
    requires Numbering(routes) && forall n <- mm :: mm[n].Put? ==> n in routes
    ensures Updating(routes, mm, updates)
  {
    updates := map[];
    var order := Elements(mm.Keys);
    for i := 0 to |order|
      invariant forall j :: 0 <= j < i ==> order[j] in mm
      invariant forall j :: 0 <= j < i && mm[order[j]].Put? ==>
                  routes[order[j]] in updates && updates[routes[order[j]]] == mm[order[j]].value
      invariant forall id <- updates :: exists n <- mm :: mm[n].Put? && n in routes && routes[n] == id
    {
      var n := order[i];
      assert n in order;
      if mm[n].Put? {
        updates := updates[routes[n] := mm[n].value];
      }
    }
  }

  // A route without a mutation keeps its payload.
  lemma Untouched<V>(routes: map<Network, nat>, mm: map<Network, Mutation<V>>, updates: map<nat, V>, n: Network)
    requires Numbering(routes) && n in routes && n !in mm && Updating(routes, mm, updates)
    ensures routes[n] !in updates
  {
    assert forall m <- mm :: mm[m].Put? ==> routes[m] != routes[n];
  }

  // Without a structural change every put replaces a value.
  lemma OnlyPuts<V>(catalog: map<Network, V>, mm: map<Network, Mutation<V>>)
    requires !Adds(catalog.Keys, mm)
    ensures ApplyMap(catalog, mm).Keys == catalog.Keys && forall n <- mm :: mm[n].Put? ==> n in catalog
  {
    AddsIsStructural(catalog, mm);
    forall n <- mm ensures mm[n].Put? ==> n in catalog {
      assert !Changes(catalog.Keys, mm, n);
    }
  }

  // Sharing the index and writing the changed values gives the generation a rebuild would denote.
  method Repay<V>(current: Generation<V>, catalog: map<Network, V>, mm: map<Network, Mutation<V>>, zero: V)
    returns (next: Generation<V>)
    requires Stands(current, catalog) && !Adds(catalog.Keys, mm)
    ensures Stands(next, ApplyMap(catalog, mm)) && next.number == current.number + 1
    ensures next.index == current.index && next.routes == current.routes
  {
    hide ValidNetwork, Indexed, Numbering, Updating;
    OnlyPuts(catalog, mm);
    ghost var after := ApplyMap(catalog, mm);
    var updates := Updates(current.routes, mm);
    var payloads := PayOff(current.payloads, updates, current.routes, zero, catalog, mm, after);
    next := Generation(current.index, payloads, current.routes, current.number + 1);
    hide ValidNetwork, Indexed, Pays, Numbering, Updating, ApplyMap;
  }

  // Pages with nothing to write are shared whole.
  method PayOff<V>(p: Pages<V>, updates: map<nat, V>, routes: map<Network, nat>, zero: V,
                   ghost catalog: map<Network, V>, ghost mm: map<Network, Mutation<V>>, ghost after: map<Network, V>)
    returns (payloads: Pages<V>)
    requires Pays(p, routes, catalog) && Numbering(routes) && routes.Keys == catalog.Keys
    requires Updating(routes, mm, updates) && after == ApplyMap(catalog, mm) && after.Keys == catalog.Keys
    ensures Pays(payloads, routes, after)
  {
    hide *;
    payloads := p;
    if |updates| != 0 {
      payloads := Repaid(p, updates, routes, zero, catalog, mm, after);
    } else {
      NothingPaid(p, updates, routes, catalog, mm, after);
    }
  }

  lemma NothingPaid<V>(p: Pages<V>, updates: map<nat, V>, routes: map<Network, nat>, catalog: map<Network, V>,
                       mm: map<Network, Mutation<V>>, after: map<Network, V>)
    requires Pays(p, routes, catalog) && |updates| == 0 && after == ApplyMap(catalog, mm) && after.Keys == catalog.Keys
    requires Updating(routes, mm, updates)
    ensures Pays(p, routes, after)
  {
    assert forall n <- mm :: !mm[n].Put?;
  }

  lemma UpdatesFit<V>(routes: map<Network, nat>, mm: map<Network, Mutation<V>>, updates: map<nat, V>)
    requires Numbering(routes) && Updating(routes, mm, updates)
    ensures forall id <- updates :: id <= |routes|
  {
  }

  lemma RouteFits(routes: map<Network, nat>, n: Network)
    requires Numbering(routes) && n in routes
    ensures routes[n] <= |routes|
  {
  }

  // A mutated prefix that is still there was put, so its new value is among the updates.
  lemma PutUpdated<V>(catalog: map<Network, V>, routes: map<Network, nat>, mm: map<Network, Mutation<V>>,
                      updates: map<nat, V>, after: map<Network, V>, n: Network)
    requires after == ApplyMap(catalog, mm) && n in after && n in mm && Updating(routes, mm, updates)
    ensures n in routes && routes[n] in updates && updates[routes[n]] == after[n]
  {
  }

  lemma PaysNext<V>(p: Pages<V>, next: Pages<V>, updates: map<nat, V>, routes: map<Network, nat>,
                    catalog: map<Network, V>, mm: map<Network, Mutation<V>>, after: map<Network, V>)
    requires Pays(p, routes, catalog) && Numbering(routes) && routes.Keys == catalog.Keys
    requires Updating(routes, mm, updates) && after == ApplyMap(catalog, mm) && after.Keys == catalog.Keys
    requires next.Shaped() && forall id <- updates :: next.Live(id) && next.Get(id) == updates[id]
    requires forall id: nat | id <= |routes| && id !in updates && p.Live(id) :: next.Live(id) && next.Get(id) == p.Get(id)
    ensures Pays(next, routes, after)
  {
    hide Numbering, Updating, ApplyMap;
    forall n <- after ensures n in routes && next.Live(routes[n]) && next.Get(routes[n]) == after[n] {
      RouteFits(routes, n);
      if n in mm {
        PutUpdated(catalog, routes, mm, updates, after, n);
      } else {
        Untouched(routes, mm, updates, n);
        Unmutated(catalog, mm, n);
      }
    }
  }

  lemma Unmutated<V>(catalog: map<Network, V>, mm: map<Network, Mutation<V>>, n: Network)
    requires n !in mm && n in ApplyMap(catalog, mm)
    ensures n in catalog && ApplyMap(catalog, mm)[n] == catalog[n]
  {
  }

  method Repaid<V>(p: Pages<V>, updates: map<nat, V>, routes: map<Network, nat>, zero: V,
                   ghost catalog: map<Network, V>, ghost mm: map<Network, Mutation<V>>, ghost after: map<Network, V>)
    returns (next: Pages<V>)
    requires Pays(p, routes, catalog) && Numbering(routes) && routes.Keys == catalog.Keys
    requires Updating(routes, mm, updates) && after == ApplyMap(catalog, mm) && after.Keys == catalog.Keys
    ensures Pays(next, routes, after)
  {
    hide Numbering, Updating, ApplyMap;
    UpdatesFit(routes, mm, updates);
    next := RoutePages.With(p, updates, |routes|, zero);
    PaysNext(p, next, updates, routes, catalog, mm, after);
  }

  // ---------------------------------------------------------------- the next generation

  lemma AfterValid<V>(catalog: map<Network, V>, mm: map<Network, Mutation<V>>)
    requires (forall n <- catalog :: ValidNetwork(n)) && forall n <- mm :: ValidNetwork(n)
    ensures forall n <- ApplyMap(catalog, mm) :: ValidNetwork(n)
  {
    hide ValidNetwork;
    forall n <- ApplyMap(catalog, mm) ensures ValidNetwork(n) {
      assert Stays(catalog, mm, n);
    }
  }

  // What a publication stores: the mutations applied, by a rebuild when a prefix comes or goes and by
  // payload pages otherwise.  Only a rebuild can fail.
  method Prepare<V>(current: Generation<V>, catalog: map<Network, V>, mm: map<Network, Mutation<V>>, zero: V)
    returns (structural: bool, err: bool, next: Generation<V>, nextCatalog: map<Network, V>)
    requires Stands(current, catalog) && Keyed(mm) && forall n <- mm :: ValidNetwork(n)
    ensures nextCatalog == ApplyMap(catalog, mm)
    ensures structural <==> nextCatalog.Keys != catalog.Keys
    ensures err <==> structural && |nextCatalog| >= Blocks4.NEXT
    ensures !err ==> Stands(next, nextCatalog) && next.number == current.number + 1
  {
    hide ValidNetwork, Adds, ApplyMap, Keyed, Indexed, Numbering;
    AddsIsStructural(catalog, mm);
    AfterValid(catalog, mm);
    structural := IsStructural(current.routes.Keys, mm);
    nextCatalog := NextCatalog(catalog, mm);
    if structural {
      next, err := BuildGeneration(nextCatalog, current.number + 1, zero);
    } else {
      err := false;
      next := Repay(current, catalog, mm, zero);
    }
  }

  // Coalescing a batch and preparing its generation.
  method Digest<V>(current: Generation<V>, catalog: map<Network, V>, batch: seq<Request<V>>, zero: V)
    returns (structural: bool, err: bool, next: Generation<V>, nextCatalog: map<Network, V>)
    requires Stands(current, catalog) && forall n <- Coalesce(AllOf(batch)) :: ValidNetwork(n)
    ensures nextCatalog == Fold(catalog, batch)
    ensures structural <==> nextCatalog.Keys != catalog.Keys
    ensures err <==> structural && |nextCatalog| >= Blocks4.NEXT
    ensures !err ==> Stands(next, nextCatalog) && next.number == current.number + 1
    ensures Stands(current, catalog)
  {
    BatchApplies(catalog, batch);
    hide ValidNetwork, ApplyMap, Keyed, Indexed, Numbering, Fold, Coalesce, AllOf;
    var mm := CoalesceBatch(batch);
    structural, err, next, nextCatalog := Prepare(current, catalog, mm, zero);
  }
}
