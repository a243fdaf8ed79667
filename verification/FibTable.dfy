// compiledfib.Table: the submitters' side, the writer's side and the readers' side, each method one
// atomic step of FibProtocol on the state the fields stand for.
module FibTable {
  import opened Bits
  import opened Options
  import opened Prefixes
  import opened FibProtocol
  import opened Catalogs
  import opened CompiledFib
  import Blocks4
  import BlockLpm

  class Table<V> {
    const limits: Limits
    const zero: V
    var current: Generation<V>
    var catalog: map<Network, V>
    var closed: bool
    var holder: Option<Request<V>>
    var queue: seq<Request<V>>
    var phase: Phase<V>
    var payloadPublications: nat
    var structuralPublications: nat
    ghost const initial: map<Network, V>
    ghost var accepted: seq<Request<V>>
    ghost var replies: seq<Result>
    ghost var refusals: seq<Result>

    ghost function View(): State<V>
      reads this
    {
      State(closed, holder, queue, phase, catalog, current.number, payloadPublications, structuralPublications,
            accepted, replies, refusals)
    }

    ghost predicate Valid()
      reads this, current.payloads.Frame()
    {
      && limits.maxBatch > 0 && limits.capacity == Blocks4.NEXT
      && Inv(limits, initial, View()) && Stands(current, catalog) && Normalised(View())
    }

    // The first generation, and a writer with nothing to do.
    constructor (entries: map<Network, V>, limits: Limits, zero: V, first: Generation<V>)
      requires limits.maxBatch > 0 && limits.capacity == Blocks4.NEXT
      requires Stands(first, entries) && first.number == 1
      ensures Valid() && View() == Initial(entries) && this.limits == limits && initial == entries
    {
      hide Inv, Normalised, Indexed, Numbering, ValidNetwork;
      InitialHolds(limits, entries);
      this.limits, this.zero := limits, zero;
      current, catalog := first, entries;
      closed, holder, queue, phase := false, None, [], Idle;
      payloadPublications, structuralPublications := 0, 0;
      initial := entries;
      accepted, replies, refusals := [], [], [];
      new;
      hide Pays;
    }

    // ---------------------------------------------------------------- submitters

    // Refuses a batch with a bad prefix before taking the lock.
    method RefuseBad(id: nat) returns (r: Result)
      requires Valid() && FibProtocol.Fresh(View(), id)
      modifies this`refusals
      ensures Valid() && View() == Exec(limits, old(View()), Step.RefuseBad(id))
      ensures r == Result(id, current.number, BadIP) && refusals == old(refusals) + [r]
    {
      hide Inv, Fold, ValidNetwork, Indexed, Numbering;
      StepKeeps(limits, initial, View(), Step.RefuseBad(id));
      r := Result(id, current.number, BadIP);
      refusals := refusals + [r];
    }

    // Takes the lock when it is free: an open table keeps it for the request, a closed one answers.
    method Enter(id: nat, mutations: seq<Mutation<V>>) returns (refused: bool, r: Result)
      requires Valid() && FibProtocol.Fresh(View(), id) && holder.None?
      requires forall m <- mutations :: ValidNetwork(m.network)
      modifies this`refusals, this`holder
      ensures Valid() && refused == closed && r == Result(id, current.number, Closed)
      ensures if refused then refusals == old(refusals) + [r] else holder == Some(Request(id, mutations))
      ensures View() == Exec(limits, old(View()), if closed then RefuseClosed(id) else Lock(Request(id, mutations)))
    {
      hide Inv, Fold, ValidNetwork, Indexed, Numbering;
      r := Result(id, current.number, Closed);
      if closed {
        StepKeeps(limits, initial, View(), RefuseClosed(id));
        refusals := refusals + [r];
        return true, r;
      }
      StepKeeps(limits, initial, View(), Lock(Request(id, mutations)));
      holder := Some(Request(id, mutations));
      return false, r;
    }

    // Sends once the queue has room and gives the lock back.
    method Enqueue()
      requires Valid() && holder.Some? && |queue| < limits.queueSize
      modifies this`queue, this`holder, this`accepted
      ensures Valid() && View() == Exec(limits, old(View()), Send)
      ensures holder.None? && queue == old(queue) + [old(holder).value] && accepted == old(accepted) + [old(holder).value]
    {
      hide Inv, Fold, ValidNetwork, Indexed, Numbering;
      StepKeeps(limits, initial, View(), Send);
      queue, accepted, holder := queue + [holder.value], accepted + [holder.value], None;
    }

    // Flips the flag and closes the stop channel, under the lock.
    method CloseOnce()
      requires Valid() && holder.None? && !closed
      modifies this`closed
      ensures Valid() && View() == Exec(limits, old(View()), Close) && closed
    {
      hide Inv, Fold, ValidNetwork, Indexed, Numbering;
      StepKeeps(limits, initial, View(), Close);
      closed := true;
    }

    // ---------------------------------------------------------------- the writer

    method TakeFirst()
      requires Valid() && (phase.Idle? || phase.Draining?) && |queue| > 0
      modifies this`queue, this`phase
      ensures Valid() && View() == Exec(limits, old(View()), Take)
      ensures phase == Collecting([old(queue)[0]], old(phase).Draining?) && queue == old(queue)[1..]
    {
      hide Inv, Fold, ValidNetwork, Indexed, Numbering;
      StepKeeps(limits, initial, View(), Take);
      phase, queue := Collecting([queue[0]], phase.Draining?), queue[1..];
    }

    method TakeMore()
      requires Valid() && phase.Collecting? && |phase.batch| < limits.maxBatch && |queue| > 0
      modifies this`queue, this`phase
      ensures Valid() && View() == Exec(limits, old(View()), More)
      ensures phase == Collecting(old(phase).batch + [old(queue)[0]], old(phase).stopping) && queue == old(queue)[1..]
    {
      hide Inv, Fold, ValidNetwork, Indexed, Numbering;
      StepKeeps(limits, initial, View(), More);
      phase, queue := phase.(batch := phase.batch + [queue[0]]), queue[1..];
    }

    method SeeStop()
      requires Valid() && phase.Idle? && closed
      modifies this`phase
      ensures Valid() && View() == Exec(limits, old(View()), Stop) && phase.Draining?
    {
      hide Inv, Fold, ValidNetwork, Indexed, Numbering;
      StepKeeps(limits, initial, View(), Stop);
      phase := Draining;
    }

    method Leave()
      requires Valid() && phase.Draining? && |queue| == 0
      modifies this`phase
      ensures Valid() && View() == Exec(limits, old(View()), Exit) && phase.Exited?
    {
      hide Inv, Fold, ValidNetwork, Indexed, Numbering;
      StepKeeps(limits, initial, View(), Exit);
      phase := Exited;
    }

    // Coalesces the batch and stores the next generation: a rebuild when a prefix comes or goes, the
    // changed payload pages over the shared index otherwise.  Readers of the old generation keep it.
    // folded is the catalogue with the batch's mutations in order (BatchMeans says which it has); every
    // request of the batch is told whether it was published and under which number.
    method PublishBatch() returns (results: seq<Result>, ghost folded: map<Network, V>)
      requires Valid() && phase.Collecting?
      modifies this`current, this`catalog, this`phase, this`payloadPublications, this`structuralPublications, this`replies
      ensures Valid() && View() == Exec(limits, old(View()), Publish)
      ensures replies == old(replies) + results
      ensures Stands(old(current), old(catalog))
      ensures folded == Fold(old(catalog), old(phase).batch)
      ensures if folded.Keys != old(catalog).Keys && |folded| >= Blocks4.NEXT
              then current == old(current) && catalog == old(catalog)
              else current.number == old(current.number) + 1 && catalog == folded
      ensures |results| == |old(phase).batch|
      ensures forall i :: 0 <= i < |results| ==>
                results[i] == Result(old(phase).batch[i].id, current.number,
                                     if current.number == old(current.number) then TableFull else Published)
      ensures structuralPublications == old(structuralPublications)
                + if current.number != old(current.number) && catalog.Keys != old(catalog).Keys then 1 else 0
      ensures payloadPublications == old(payloadPublications)
                + if current.number != old(current.number) && catalog.Keys == old(catalog).Keys then 1 else 0
    {
      hide Inv, Fold, ValidNetwork, Coalesce, AllOf, Replies, Fresh, Normalised, Stands, Exec;
      BatchNetworks(limits, initial, View());
      var structural, err, next, nextCatalog := Digest(current, catalog, phase.batch, zero);
      folded := nextCatalog;
      if err {
        results := AnswerFull(structural, nextCatalog);
      } else {
        results := Swap(structural, next, nextCatalog);
      }
    }

    // Stores the next generation and tells the batch its number.
    method Swap(structural: bool, next: Generation<V>, nextCatalog: map<Network, V>) returns (results: seq<Result>)
      requires Valid() && phase.Collecting? && nextCatalog == Fold(catalog, phase.batch)
      requires structural <==> nextCatalog.Keys != catalog.Keys
      requires !(structural && |nextCatalog| >= Blocks4.NEXT)
      requires Stands(next, nextCatalog) && next.number == current.number + 1
      modifies this`current, this`catalog, this`phase, this`payloadPublications, this`structuralPublications, this`replies
      ensures Valid() && View() == Exec(limits, old(View()), Publish) && replies == old(replies) + results
      ensures current == next && catalog == nextCatalog && Stands(old(current), old(catalog))
      ensures Told(results, old(phase).batch, next.number, Published)
      ensures structuralPublications == old(structuralPublications) + if structural then 1 else 0
      ensures payloadPublications == old(payloadPublications) + if structural then 0 else 1
    {
      hide Inv, Fold, ValidNetwork, Indexed, Numbering, Replies, Fresh, Normalised, Fails, Structural;
      hide Exec, Initial, Run, InOrder, Apart, Stands;
      Stored(limits, initial, View(), structural, false, nextCatalog);
      results := Replies(phase.batch, next.number, Published);
      Install(structural, next, nextCatalog, results);
    }

    method Install(structural: bool, next: Generation<V>, nextCatalog: map<Network, V>, results: seq<Result>)
      requires Stands(next, nextCatalog) && Stands(current, catalog) && phase.Collecting?
      modifies this`current, this`catalog, this`phase, this`payloadPublications, this`structuralPublications, this`replies
      ensures current == next && catalog == nextCatalog && Stands(current, catalog) && Stands(old(current), old(catalog))
      ensures phase == if old(phase).stopping then Draining else Idle
      ensures structuralPublications == old(structuralPublications) + if structural then 1 else 0
      ensures payloadPublications == old(payloadPublications) + if structural then 0 else 1
      ensures replies == old(replies) + results
    {
      hide ValidNetwork, Indexed, Numbering;
      current, catalog := next, nextCatalog;
      structuralPublications := structuralPublications + if structural then 1 else 0;
      payloadPublications := payloadPublications + if structural then 0 else 1;
      phase, replies := if phase.stopping then Draining else Idle, replies + results;
    }

    // Keeps the old generation when the rebuild failed.
    method AnswerFull(structural: bool, ghost nextCatalog: map<Network, V>) returns (results: seq<Result>)
      requires Valid() && phase.Collecting? && nextCatalog == Fold(catalog, phase.batch)
      requires structural && nextCatalog.Keys != catalog.Keys && |nextCatalog| >= Blocks4.NEXT
      modifies this`phase, this`replies
      ensures Valid() && View() == Exec(limits, old(View()), Publish) && replies == old(replies) + results
      ensures Told(results, old(phase).batch, current.number, TableFull) && Stands(old(current), old(catalog))
    {
      hide Inv, Fold, ValidNetwork, Indexed, Numbering, Replies, Fresh, Normalised, Fails, Structural;
      Stored(limits, initial, View(), structural, true, nextCatalog);
      hide Exec;
      results := Replies(phase.batch, current.number, TableFull);
      phase, replies := if phase.stopping then Draining else Idle, replies + results;
    }

    // ---------------------------------------------------------------- readers

    // One load of the current generation, then the longest match in it and its payload.
    method Lookup(is4: bool, key: nat) returns (value: V, found: bool)
      requires Valid() && key < Pow2(FamilyWidth(is4))
      requires is4 || |Family(catalog, false)| <= BlockLpm.MAX_ROUTES6
      ensures found <==> exists p <- Family(catalog, is4).Keys :: Covers(FamilyWidth(is4), p, key)
      ensures found ==> exists p <- Family(catalog, is4).Keys ::
                Longest(FamilyWidth(is4), Family(catalog, is4).Keys, key, p) && Family(catalog, is4)[p] == value
      ensures !found ==> value == zero
    {
      hide Inv, Numbering, Covers, BlockLpm.Answering, BlockLpm.TableOf, BlockLpm.Entries, ValidNetwork, Family, Answers;
      var g := current;
      ghost var rs :| BlockLpm.Answering(g.index, rs) && Tabled(rs, g.routes);
      hide Indexed;
      FamiliesMatch(g, catalog, false);
      var id;
      id, found := BlockLpm.Lookup(g.index, is4, key, rs);
      ghost var p := Winner(g, catalog, is4, key, id);
      if !found {
        return zero, false;
      }
      value := g.payloads.Get(id);
      assert Longest(FamilyWidth(is4), Family(catalog, is4).Keys, key, p);
      assert p in Family(catalog, is4).Keys && Family(catalog, is4)[p] == value;
    }
  }

  // Compiles the first generation of a catalogue and starts its table.
  method New<V>(entries: map<Network, V>, limits: Limits, zero: V) returns (t: Table?<V>, err: bool)
    requires limits.maxBatch > 0 && limits.capacity == Blocks4.NEXT && forall n <- entries :: ValidNetwork(n)
    ensures err <==> |entries| >= Blocks4.NEXT
    ensures !err ==> t != null && fresh(t) && t.Valid() && t.View() == Initial(entries) && t.initial == entries
  {
    hide Inv, ValidNetwork, Indexed, Numbering, Normalised;
    var first;
    first, err := BuildGeneration(entries, 1, zero);
    t := null;
    if !err {
      t := new Table(entries, limits, zero, first);
    }
  }

  lemma InitialHolds<V>(l: Limits, entries: map<Network, V>)
    ensures Inv(l, entries, Initial(entries)) && Normalised(Initial(entries))
  {
    hide Clean, ApplyAll;
    var s := Initial(entries);
    assert InOrder(s) && Apart(s) && Stopping(s) && Denotes(entries, s) && Bounded(l, s);
  }

  lemma BatchNetworks<V>(l: Limits, init: map<Network, V>, s: State<V>)
    requires Inv(l, init, s) && Normalised(s)
    ensures forall n <- Coalesce(AllOf(Batch(s.phase))) :: ValidNetwork(n)
  {
    forall r <- Batch(s.phase) ensures Clean(r) {
      BatchAccepted(s, r);
    }
    CleanMutations(Batch(s.phase));
    CoalesceKeys(AllOf(Batch(s.phase)));
  }

  // Every request of the batch is told the same.
  ghost predicate Told<V>(results: seq<Result>, batch: seq<Request<V>>, number: nat, outcome: Outcome) {
    |results| == |batch| && forall i :: 0 <= i < |batch| ==> results[i] == Result(batch[i].id, number, outcome)
  }

  // The protocol's publication in the terms the writer computes it: the state after a batch is published, or
  // refused with err.
  function After<V>(s: State<V>, structural: bool, err: bool, next: map<Network, V>): State<V>
    requires s.phase.Collecting?
  {
    var rest := if s.phase.stopping then Draining else Idle;
    if err then s.(phase := rest, replies := s.replies + Replies(s.phase.batch, s.number, TableFull))
    else s.(phase := rest, replies := s.replies + Replies(s.phase.batch, s.number + 1, Published),
            catalog := next, number := s.number + 1,
            payloads := s.payloads + (if structural then 0 else 1),
            structurals := s.structurals + (if structural then 1 else 0))
  }

  lemma Stored<V>(l: Limits, init: map<Network, V>, s: State<V>, structural: bool, err: bool, next: map<Network, V>)
    requires l.maxBatch > 0 && Inv(l, init, s) && Normalised(s)
    requires s.phase.Collecting? && next == Fold(s.catalog, s.phase.batch)
    requires structural <==> next.Keys != s.catalog.Keys
    requires err <==> structural && |next| >= l.capacity
    ensures Inv(l, init, Exec(l, s, Publish)) && Normalised(Exec(l, s, Publish))
    ensures Exec(l, s, Publish) == After(s, structural, err, next)
  {
    StepKeeps(l, init, s, Publish);
    hide Fold, Replies, Inv, Clean;
  }

  // The two catalogues of a generation agree on which prefixes there are.
  lemma FamiliesMatch<V>(g: Generation<V>, catalog: map<Network, V>, is4: bool)
    requires Stands(g, catalog)
    ensures Family(g.routes, is4).Keys == Family(catalog, is4).Keys
    ensures forall p <- Family(g.routes, is4) ::
              && Network(is4, p) in catalog && Family(catalog, is4)[p] == catalog[Network(is4, p)]
              && Family(g.routes, is4)[p] == g.routes[Network(is4, p)] > 0
  {
    hide Indexed, Pays, ValidNetwork, Family;
    forall q ensures q in Family(g.routes, is4) <==> q in Family(catalog, is4) {
      FamilyHas(g.routes, is4, q);
      FamilyHas(catalog, is4, q);
    }
    forall p <- Family(g.routes, is4)
      ensures Network(is4, p) in catalog && Family(catalog, is4)[p] == catalog[Network(is4, p)]
      ensures Family(g.routes, is4)[p] == g.routes[Network(is4, p)] > 0
    {
      FamilyHas(g.routes, is4, p);
      FamilyHas(catalog, is4, p);
    }
  }

  // The longest covering route of an answer.
  lemma Picked(w: nat, fr: map<Prefix, nat>, key: nat, id: nat) returns (p: Prefix)
    requires Answers(w, fr, key, id) && forall q <- fr :: fr[q] > 0
    ensures id != 0 <==> exists q <- fr.Keys :: Covers(w, q, key)
    ensures id != 0 ==> p in fr && Longest(w, fr.Keys, key, p) && fr[p] == id
  {
    hide Covers;
    p := Prefix(0, 0);
    if exists q <- fr.Keys :: Covers(w, q, key) {
      p :| p in fr.Keys && Longest(w, fr.Keys, key, p) && fr[p] == id;
    }
  }

  // The route behind an answer.
  lemma Winner<V>(g: Generation<V>, catalog: map<Network, V>, is4: bool, key: nat, id: nat) returns (p: Prefix)
    requires Stands(g, catalog) && Answers(FamilyWidth(is4), Family(g.routes, is4), key, id)
    ensures id != 0 <==> exists q <- Family(catalog, is4).Keys :: Covers(FamilyWidth(is4), q, key)
    ensures id != 0 ==> Wins(g, catalog, is4, key, id, p)
  {
    FamiliesMatch(g, catalog, is4);
    var fr, fc := Family(g.routes, is4), Family(catalog, is4);
    p := Picked(FamilyWidth(is4), fr, key, id);
    hide Covers, Family, ValidNetwork, Indexed, Numbering, Answers, Longest;
    if id != 0 {
      PaysFor(g, catalog, is4, p);
    }
  }

  lemma PaysFor<V>(g: Generation<V>, catalog: map<Network, V>, is4: bool, p: Prefix)
    requires Stands(g, catalog) && Network(is4, p) in catalog
    ensures Network(is4, p) in g.routes && g.payloads.Shaped() && g.payloads.Live(g.routes[Network(is4, p)])
    ensures g.payloads.Get(g.routes[Network(is4, p)]) == catalog[Network(is4, p)]
  {
  }

  ghost predicate Wins<V>(g: Generation<V>, catalog: map<Network, V>, is4: bool, key: nat, id: nat, p: Prefix)
    reads g.payloads.Frame()
  {
    && Longest(FamilyWidth(is4), Family(catalog, is4).Keys, key, p) && p in Family(catalog, is4)
    && g.payloads.Shaped() && g.payloads.Live(id) && g.payloads.Get(id) == Family(catalog, is4)[p]
  }
}
