// Coalescing a batch of mutations: the last one for each prefix wins, and applying the coalesced map
// in any order is applying every mutation in turn.
module Catalogs {
  import opened Prefixes
  import opened Sorting
  import opened FibProtocol

  // All the mutations of a batch, in order.
  function AllOf<V>(batch: seq<Request<V>>): seq<Mutation<V>> {
    if |batch| == 0 then [] else AllOf(batch[..|batch| - 1]) + batch[|batch| - 1].mutations
  }

  lemma {:induction false} ApplyAllAppend<V>(c: map<Network, V>, a: seq<Mutation<V>>, b: seq<Mutation<V>>)
    ensures ApplyAll(c, a + b) == ApplyAll(ApplyAll(c, a), b)
  {
    if |b| == 0 {
      assert a + b == a;
    } else {
      ApplyAllAppend(c, a, b[..|b| - 1]);
      assert (a + b)[..|a + b| - 1] == a + b[..|b| - 1];
    }
  }

  lemma {:induction false} FoldIsApplyAll<V>(c: map<Network, V>, batch: seq<Request<V>>)
    ensures Fold(c, batch) == ApplyAll(c, AllOf(batch))
  {
    if |batch| > 0 {
      FoldIsApplyAll(c, batch[..|batch| - 1]);
      ApplyAllAppend(c, AllOf(batch[..|batch| - 1]), batch[|batch| - 1].mutations);
    }
  }

  // The last mutation of each prefix.
  function Coalesce<V>(ms: seq<Mutation<V>>): map<Network, Mutation<V>> {
    if |ms| == 0 then map[] else Coalesce(ms[..|ms| - 1])[ms[|ms| - 1].network := ms[|ms| - 1]]
  }

  ghost predicate Keyed<V>(mm: map<Network, Mutation<V>>) {
    forall n <- mm :: mm[n].network == n
  }

  predicate Stays<V>(c: map<Network, V>, mm: map<Network, Mutation<V>>, n: Network) {
    if n in mm then mm[n].Put? else n in c
  }

  // The catalogue with one mutation per prefix applied.
  function ApplyMap<V>(c: map<Network, V>, mm: map<Network, Mutation<V>>): (r: map<Network, V>)
    ensures forall n :: n in r <==> Stays(c, mm, n)
    ensures forall n :: n in r ==> Stays(c, mm, n) && r[n] == if n in mm then mm[n].value else c[n]
  {
    map n | n in c.Keys + mm.Keys && Stays(c, mm, n) :: if n in mm then mm[n].value else c[n]
  }

  lemma {:induction false} CoalesceApplies<V>(c: map<Network, V>, ms: seq<Mutation<V>>)
    ensures Keyed(Coalesce(ms)) && ApplyMap(c, Coalesce(ms)) == ApplyAll(c, ms)
  {
    if |ms| > 0 {
      CoalesceApplies(c, ms[..|ms| - 1]);
      ApplyMapStep(c, Coalesce(ms[..|ms| - 1]), ms[|ms| - 1]);
    }
  }

  lemma ApplyMapStep<V>(c: map<Network, V>, mm: map<Network, Mutation<V>>, m: Mutation<V>)
    ensures ApplyMap(c, mm[m.network := m]) == Apply(ApplyMap(c, mm), m)
  {
    var a, b := ApplyMap(c, mm[m.network := m]), Apply(ApplyMap(c, mm), m);
    assert a.Keys == b.Keys;
  }

  // Some mutation adds a missing prefix or deletes a present one.
  ghost predicate Adds<V>(c: set<Network>, mm: map<Network, Mutation<V>>) {
    exists n <- mm :: Changes(c, mm, n)
  }

  predicate Changes<V>(c: set<Network>, mm: map<Network, Mutation<V>>, n: Network)
    requires n in mm
  {
    n in c <==> mm[n].Delete?
  }

  // That is exactly when the set of prefixes changes.
  lemma AddsIsStructural<V>(c: map<Network, V>, mm: map<Network, Mutation<V>>)
    ensures Adds(c.Keys, mm) <==> ApplyMap(c, mm).Keys != c.Keys
  {
    var r := ApplyMap(c, mm);
    if n :| n in mm && Changes(c.Keys, mm, n) {
      assert n in r.Keys <==> n !in c.Keys;
    } else {
      forall n ensures n in r.Keys <==> n in c.Keys {
        assert n in r <==> Stays(c, mm, n);
        if n in mm { assert !Changes(c.Keys, mm, n); }
      }
      assert r.Keys == c.Keys;
    }
  }

  // The coalescing loop of a publication.
  method CoalesceBatch<V>(batch: seq<Request<V>>) returns (mm: map<Network, Mutation<V>>)
    ensures mm == Coalesce(AllOf(batch)) && Keyed(mm)
  {
    mm := map[];
    for i := 0 to |batch|
      invariant mm == Coalesce(AllOf(batch[..i]))
    {
      assert batch[..i + 1][..i] == batch[..i];
      mm := CoalesceRequest(mm, AllOf(batch[..i]), batch[i].mutations);
    }
    assert batch[..|batch|] == batch;
    CoalesceApplies<V>(map[], AllOf(batch));
  }

  method CoalesceRequest<V>(mm0: map<Network, Mutation<V>>, ghost before: seq<Mutation<V>>, ms: seq<Mutation<V>>)
    returns (mm: map<Network, Mutation<V>>)
    requires mm0 == Coalesce(before)
    ensures mm == Coalesce(before + ms)
  {
    mm := mm0;
    assert before + ms[..0] == before;
    hide Coalesce;
    for j := 0 to |ms|
      invariant mm == Coalesce(before + ms[..j])
    {
      mm := mm[ms[j].network := ms[j]];
      CoalesceOne(before + ms[..j], ms[j]);
      assert before + ms[..j] + [ms[j]] == before + ms[..j + 1];
    }
    assert ms[..|ms|] == ms;
  }

  lemma CoalesceOne<V>(ms: seq<Mutation<V>>, m: Mutation<V>)
    ensures Coalesce(ms + [m]) == Coalesce(ms)[m.network := m]
  {
    assert (ms + [m])[..|ms|] == ms;
  }

  method IsStructural<V>(routes: set<Network>, mm: map<Network, Mutation<V>>) returns (structural: bool)
    ensures structural <==> Adds(routes, mm)
  {
    var order := Elements(mm.Keys);
    for i := 0 to |order|
      invariant forall j :: 0 <= j < i ==> order[j] in mm && !Changes(routes, mm, order[j])
    {
      assert order[i] in order;
      if (order[i] in routes) == mm[order[i]].Delete? {
        assert Changes(routes, mm, order[i]);
        return true;
      }
    }
    return false;
  }

  // A clone of the catalogue with the mutations applied, in whatever order the map yields them.
  method NextCatalog<V>(c: map<Network, V>, mm: map<Network, Mutation<V>>) returns (next: map<Network, V>)
    requires Keyed(mm)
    ensures next == ApplyMap(c, mm)
  {
    next := c;
    var order := Elements(mm.Keys);
    ghost var done: map<Network, Mutation<V>> := map[];
    assert next == ApplyMap(c, done);
    for i := 0 to |order|
      invariant next == ApplyMap(c, done)
      invariant done.Keys == set n | n in order[..i]
      invariant forall n <- done :: n in mm && done[n] == mm[n]
    {
      var n := order[i];
      assert n in order;
      if mm[n].Delete? {
        next := next - {n};
      } else {
        next := next[n := mm[n].value];
      }
      ApplyMapStep(c, done, mm[n]);
      done := done[n := mm[n]];
    }
    assert done.Keys == mm.Keys;
    assert done == mm;
  }

  // The coalesced batch applied at once is the batch folded request by request.
  lemma BatchApplies<V>(c: map<Network, V>, batch: seq<Request<V>>)
    ensures Keyed(Coalesce(AllOf(batch))) && ApplyMap(c, Coalesce(AllOf(batch))) == Fold(c, batch)
  {
    CoalesceApplies(c, AllOf(batch));
    FoldIsApplyAll(c, batch);
  }

  // A batch's mutations: x of request j decides its network when no later one of the batch names it, and a
  // network the batch does not name is as it was.
  lemma BatchMeans<V>(c: map<Network, V>, batch: seq<Request<V>>)
    ensures forall j, x | 0 <= j < |batch| && 0 <= x < |batch[j].mutations|
                          && (forall y :: x < y < |batch[j].mutations| ==>
                                batch[j].mutations[y].network != batch[j].mutations[x].network)
                          && (forall i, y | j < i < |batch| && 0 <= y < |batch[i].mutations| ::
                                batch[i].mutations[y].network != batch[j].mutations[x].network) ::
              var m, after := batch[j].mutations[x], Fold(c, batch);
              if m.Delete? then m.network !in after else m.network in after && after[m.network] == m.value
    ensures forall n: Network | (forall j, x | 0 <= j < |batch| && 0 <= x < |batch[j].mutations| ::
                                   batch[j].mutations[x].network != n) ::
              (n in Fold(c, batch) <==> n in c) && (n in c ==> Fold(c, batch)[n] == c[n])
  {
    var replies := Replies(batch, 0, Published);
    assert batch[0..0 + |batch|] == batch && [] + replies == replies;
    FoldPublishedBatch(c, batch, [], batch, 0, Published);
    FoldPublishedMeans(c, batch, replies);
    hide Fold, FoldPublished;
  }

  lemma {:induction false} CoalesceKeys<V>(ms: seq<Mutation<V>>)
    requires forall m <- ms :: ValidNetwork(m.network)
    ensures forall n <- Coalesce(ms) :: ValidNetwork(n)
  {
    hide ValidNetwork;
    if |ms| > 0 {
      CoalesceKeys(ms[..|ms| - 1]);
    }
  }

  lemma {:induction false} CleanMutations<V>(batch: seq<Request<V>>)
    requires forall r <- batch :: Clean(r)
    ensures forall m <- AllOf(batch) :: ValidNetwork(m.network)
  {
    hide ValidNetwork;
    if |batch| > 0 {
      CleanMutations(batch[..|batch| - 1]);
      assert Clean(batch[|batch| - 1]);
    }
  }
}
