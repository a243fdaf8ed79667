// compiledfib's writer protocol as a state machine over its atomic steps: submitters behind one lock,
// a bounded queue, a writer that coalesces a batch and publishes one generation, and a close that
// drains.  A run is any sequence of steps; a step that is not enabled does nothing.
module FibProtocol {
  import opened Options
  import opened Prefixes

  datatype Mutation<V> = Put(network: Network, value: V) | Delete(network: Network)

  datatype Request<V> = Request(id: nat, mutations: seq<Mutation<V>>)

  datatype Outcome = BadIP | Closed | Published | TableFull

  // generation is the number current when the result was made.
  datatype Result = Result(id: nat, generation: nat, outcome: Outcome)

  datatype Phase<V> = Idle | Collecting(batch: seq<Request<V>>, stopping: bool) | Draining | Exited

  datatype Limits = Limits(queueSize: nat, maxBatch: nat, capacity: nat)

  // holder is the submitter that owns the lock and waits for room in the queue.  accepted lists every
  // request ever enqueued, replies what those were told, refusals what the others were told.
  datatype State<V> = State(
    closed: bool, holder: Option<Request<V>>, queue: seq<Request<V>>, phase: Phase<V>,
    catalog: map<Network, V>, number: nat, payloads: nat, structurals: nat,
    accepted: seq<Request<V>>, replies: seq<Result>, refusals: seq<Result>)

  // ---------------------------------------------------------------- what mutations mean

  function Apply<V>(c: map<Network, V>, m: Mutation<V>): map<Network, V> {
    if m.Delete? then c - {m.network} else c[m.network := m.value]
  }

  function ApplyAll<V>(c: map<Network, V>, ms: seq<Mutation<V>>): map<Network, V> {
    if |ms| == 0 then c else Apply(ApplyAll(c, ms[..|ms| - 1]), ms[|ms| - 1])
  }

  // The requests' mutations in order.
  function Fold<V>(c: map<Network, V>, rs: seq<Request<V>>): map<Network, V> {
    if |rs| == 0 then c else ApplyAll(Fold(c, rs[..|rs| - 1]), rs[|rs| - 1].mutations)
  }

  // The requests whose reply says they were published, folded in queue order.
  function FoldPublished<V>(c: map<Network, V>, rs: seq<Request<V>>, replies: seq<Result>): map<Network, V>
    requires |replies| <= |rs|
  {
    if |replies| == 0 then c
    else
      var n := |replies| - 1;
      var before := FoldPublished(c, rs, replies[..n]);
      if replies[n].outcome.Published? then ApplyAll(before, rs[n].mutations) else before
  }

  // Of several mutations the last naming a network decides it; a network none names is as it was.
  lemma {:induction false} ApplyAllMeans<V>(c: map<Network, V>, ms: seq<Mutation<V>>)
    ensures forall x | 0 <= x < |ms| && (forall y :: x < y < |ms| ==> ms[y].network != ms[x].network) ::
              if ms[x].Delete? then ms[x].network !in ApplyAll(c, ms)
              else ms[x].network in ApplyAll(c, ms) && ApplyAll(c, ms)[ms[x].network] == ms[x].value
    ensures forall n: Network | (forall x :: 0 <= x < |ms| ==> ms[x].network != n) ::
              (n in ApplyAll(c, ms) <==> n in c) && (n in c ==> ApplyAll(c, ms)[n] == c[n])
  {
    if |ms| > 0 {
      var front, k := ms[..|ms| - 1], |ms| - 1;
      ApplyAllMeans(c, front);
      var before := ApplyAll(c, front);
      forall x | 0 <= x < |ms| && (forall y :: x < y < |ms| ==> ms[y].network != ms[x].network)
        ensures if ms[x].Delete? then ms[x].network !in Apply(before, ms[k])
                else ms[x].network in Apply(before, ms[k]) && Apply(before, ms[k])[ms[x].network] == ms[x].value
      {
        if x < k {
          assert front[x] == ms[x] && forall y :: x < y < k ==> front[y].network != front[x].network;
        }
      }
      forall n: Network | (forall x :: 0 <= x < |ms| ==> ms[x].network != n)
        ensures (n in Apply(before, ms[k]) <==> n in c) && (n in c ==> Apply(before, ms[k])[n] == c[n])
      {
        assert forall x :: 0 <= x < k ==> front[x] == ms[x];
      }
    }
  }

  lemma {:induction false} FoldUnnamed<V>(c: map<Network, V>, rs: seq<Request<V>>, replies: seq<Result>, n: Network)
    requires |replies| <= |rs|
    requires forall j, x | 0 <= j < |replies| && replies[j].outcome.Published? && 0 <= x < |rs[j].mutations| ::
               rs[j].mutations[x].network != n
    ensures n in FoldPublished(c, rs, replies) <==> n in c
    ensures n in c ==> FoldPublished(c, rs, replies)[n] == c[n]
  {
    if |replies| > 0 {
      var k := |replies| - 1;
      var front := replies[..k];
      assert forall j :: 0 <= j < k ==> front[j] == replies[j];
      FoldUnnamed(c, rs, front, n);
      if replies[k].outcome.Published? {
        ApplyAllMeans(FoldPublished(c, rs, front), rs[k].mutations);
      }
    }
  }

  lemma {:induction false} FoldDecided<V>(c: map<Network, V>, rs: seq<Request<V>>, replies: seq<Result>, j: nat, x: nat)
    requires |replies| <= |rs| && j < |replies| && replies[j].outcome.Published? && x < |rs[j].mutations|
    requires forall y :: x < y < |rs[j].mutations| ==> rs[j].mutations[y].network != rs[j].mutations[x].network
    requires forall i, y | j < i < |replies| && replies[i].outcome.Published? && 0 <= y < |rs[i].mutations| ::
               rs[i].mutations[y].network != rs[j].mutations[x].network
    ensures var m, after := rs[j].mutations[x], FoldPublished(c, rs, replies);
            if m.Delete? then m.network !in after else m.network in after && after[m.network] == m.value
  {
    var k := |replies| - 1;
    var front := replies[..k];
    if replies[k].outcome.Published? {
      ApplyAllMeans(FoldPublished(c, rs, front), rs[k].mutations);
    }
    hide ApplyAll;
    if j < k {
      assert forall i :: 0 <= i < k ==> front[i] == replies[i];
      FoldDecided(c, rs, front, j, x);
    }
  }

  // The published mutations of a queue: mutation x of request j decides its network when no later published
  // one, in the request or in a later one, names it; a network none names is as it was.
  lemma FoldPublishedMeans<V>(c: map<Network, V>, rs: seq<Request<V>>, replies: seq<Result>)
    requires |replies| <= |rs|
    ensures forall j, x | 0 <= j < |replies| && replies[j].outcome.Published? && 0 <= x < |rs[j].mutations|
                          && (forall y :: x < y < |rs[j].mutations| ==>
                                rs[j].mutations[y].network != rs[j].mutations[x].network)
                          && (forall i, y | j < i < |replies| && replies[i].outcome.Published? && 0 <= y < |rs[i].mutations| ::
                                rs[i].mutations[y].network != rs[j].mutations[x].network) ::
              var m, after := rs[j].mutations[x], FoldPublished(c, rs, replies);
              if m.Delete? then m.network !in after else m.network in after && after[m.network] == m.value
    ensures forall n: Network | (forall j, x | 0 <= j < |replies| && replies[j].outcome.Published?
                                               && 0 <= x < |rs[j].mutations| :: rs[j].mutations[x].network != n) ::
              (n in FoldPublished(c, rs, replies) <==> n in c)
              && (n in c ==> FoldPublished(c, rs, replies)[n] == c[n])
  {
    hide FoldPublished;
    forall j, x | 0 <= j < |replies| && replies[j].outcome.Published? && 0 <= x < |rs[j].mutations|
                  && (forall y :: x < y < |rs[j].mutations| ==>
                        rs[j].mutations[y].network != rs[j].mutations[x].network)
                  && (forall i, y | j < i < |replies| && replies[i].outcome.Published? && 0 <= y < |rs[i].mutations| ::
                        rs[i].mutations[y].network != rs[j].mutations[x].network)
      ensures var m, after := rs[j].mutations[x], FoldPublished(c, rs, replies);
              if m.Delete? then m.network !in after else m.network in after && after[m.network] == m.value
    {
      FoldDecided(c, rs, replies, j, x);
    }
    forall n: Network | (forall j, x | 0 <= j < |replies| && replies[j].outcome.Published?
                                       && 0 <= x < |rs[j].mutations| :: rs[j].mutations[x].network != n)
      ensures (n in FoldPublished(c, rs, replies) <==> n in c)
              && (n in c ==> FoldPublished(c, rs, replies)[n] == c[n])
    {
      FoldUnnamed(c, rs, replies, n);
    }
  }

  // ---------------------------------------------------------------- steps

  datatype Step<V> =
    | RefuseBad(id: nat)          // a prefix did not normalise
    | RefuseClosed(id: nat)       // the lock was free and the table closed
    | Lock(request: Request<V>)   // the lock was free and the table open
    | Send                        // the queue had room; the lock is released
    | Close
    | Take                        // the writer receives the first request of a batch
    | More                        // and another
    | Publish
    | Stop                        // the writer sees the stop channel closed
    | Exit                        // nothing left to drain

  function Batch<V>(p: Phase<V>): seq<Request<V>> {
    if p.Collecting? then p.batch else []
  }

  ghost predicate Fresh<V>(s: State<V>, id: nat) {
    && (forall r <- s.accepted :: r.id != id) && (forall r <- s.refusals :: r.id != id)
    && (s.holder.Some? ==> s.holder.value.id != id)
  }

  ghost predicate Enabled<V>(l: Limits, s: State<V>, step: Step<V>) {
    match step
    case RefuseBad(id) => Fresh(s, id)
    case RefuseClosed(id) => Fresh(s, id) && s.holder.None? && s.closed
    case Lock(r) => Fresh(s, r.id) && s.holder.None? && !s.closed
    case Send => s.holder.Some? && |s.queue| < l.queueSize
    case Close => s.holder.None? && !s.closed
    case Take => (s.phase.Idle? || s.phase.Draining?) && |s.queue| > 0
    case More => s.phase.Collecting? && |s.phase.batch| < l.maxBatch && |s.queue| > 0
    case Publish => s.phase.Collecting?
    case Stop => s.phase.Idle? && s.closed
    case Exit => s.phase.Draining? && |s.queue| == 0
  }

  // Whether publishing the batch adds or removes a prefix.
  ghost predicate Structural<V>(s: State<V>) {
    Fold(s.catalog, Batch(s.phase)).Keys != s.catalog.Keys
  }

  // A rebuild fails when the value indices would reach their tag bit.
  ghost predicate Fails<V>(l: Limits, s: State<V>) {
    Structural(s) && |Fold(s.catalog, Batch(s.phase))| >= l.capacity
  }

  function Replies<V>(batch: seq<Request<V>>, generation: nat, outcome: Outcome): (r: seq<Result>)
    ensures |r| == |batch|
    ensures forall i :: 0 <= i < |batch| ==> r[i] == Result(batch[i].id, generation, outcome)
  {
    seq(|batch|, i requires 0 <= i < |batch| => Result(batch[i].id, generation, outcome))
  }

  ghost function AfterPublish<V>(l: Limits, s: State<V>): State<V>
    requires s.phase.Collecting?
  {
    var batch := s.phase.batch;
    var rest := if s.phase.stopping then Draining else Idle;
    if Fails(l, s) then s.(phase := rest, replies := s.replies + Replies(batch, s.number, TableFull))
    else s.(phase := rest, catalog := Fold(s.catalog, batch), number := s.number + 1,
            payloads := s.payloads + (if Structural(s) then 0 else 1),
            structurals := s.structurals + (if Structural(s) then 1 else 0),
            replies := s.replies + Replies(batch, s.number + 1, Published))
  }

  ghost function Exec<V>(l: Limits, s: State<V>, step: Step<V>): State<V> {
    if !Enabled(l, s, step) then s
    else match step
      case RefuseBad(id) => s.(refusals := s.refusals + [Result(id, s.number, BadIP)])
      case RefuseClosed(id) => s.(refusals := s.refusals + [Result(id, s.number, Closed)])
      case Lock(r) => s.(holder := Some(r))
      case Send => s.(holder := None, queue := s.queue + [s.holder.value], accepted := s.accepted + [s.holder.value])
      case Close => s.(closed := true)
      case Take => s.(phase := Collecting([s.queue[0]], s.phase.Draining?), queue := s.queue[1..])
      case More => s.(phase := s.phase.(batch := s.phase.batch + [s.queue[0]]), queue := s.queue[1..])
      case Publish => AfterPublish(l, s)
      case Stop => s.(phase := Draining)
      case Exit => s.(phase := Exited)
  }

  ghost function Run<V>(l: Limits, s: State<V>, steps: seq<Step<V>>): State<V> {
    if |steps| == 0 then s else Exec(l, Run(l, s, steps[..|steps| - 1]), steps[|steps| - 1])
  }

  function Initial<V>(catalog: map<Network, V>): State<V> {
    State(false, None, [], Idle, catalog, 1, 0, 0, [], [], [])
  }

  // ---------------------------------------------------------------- the invariant

  // Accepted requests are answered in queue order; the rest are in the writer's hands or queued.
  ghost predicate InOrder<V>(s: State<V>) {
    && |s.replies| <= |s.accepted|
    && (forall j :: 0 <= j < |s.replies| ==> s.replies[j].id == s.accepted[j].id)
    && s.accepted[|s.replies|..] == Batch(s.phase) + s.queue
  }

  // No two requests, accepted, refused or waiting, share an id.
  ghost predicate Apart<V>(s: State<V>) {
    && (forall i, j :: 0 <= i < |s.accepted| && 0 <= j < |s.accepted| && i != j ==> s.accepted[i].id != s.accepted[j].id)
    && (forall i, j :: 0 <= i < |s.refusals| && 0 <= j < |s.refusals| && i != j ==> s.refusals[i].id != s.refusals[j].id)
    && (forall a <- s.accepted, r <- s.refusals :: a.id != r.id)
    && (s.holder.Some? ==> (forall a <- s.accepted :: a.id != s.holder.value.id)
                           && (forall r <- s.refusals :: r.id != s.holder.value.id))
  }

  // Once closed nobody holds the lock, and the writer stops only after the close.
  ghost predicate Stopping<V>(s: State<V>) {
    && (s.closed ==> s.holder.None?)
    && (s.phase.Draining? || s.phase.Exited? || (s.phase.Collecting? && s.phase.stopping) ==> s.closed)
    && (s.phase.Exited? ==> s.queue == [])
  }

  ghost predicate Denotes<V>(init: map<Network, V>, s: State<V>) {
    && |s.replies| <= |s.accepted|
    && s.catalog == FoldPublished(init, s.accepted, s.replies)
    && s.number == 1 + s.payloads + s.structurals
  }

  ghost predicate Bounded<V>(l: Limits, s: State<V>) {
    |s.queue| <= l.queueSize && (s.phase.Collecting? ==> 0 < |s.phase.batch| <= l.maxBatch)
  }

  ghost predicate Inv<V>(l: Limits, init: map<Network, V>, s: State<V>) {
    InOrder(s) && Apart(s) && Stopping(s) && Denotes(init, s) && Bounded(l, s)
  }

  lemma {:induction false} FoldPublishedPrefix<V>(c: map<Network, V>, rs: seq<Request<V>>, more: seq<Request<V>>, replies: seq<Result>)
    requires |replies| <= |rs|
    ensures FoldPublished(c, rs + more, replies) == FoldPublished(c, rs, replies)
  {
    if |replies| > 0 {
      FoldPublishedPrefix(c, rs, more, replies[..|replies| - 1]);
    }
  }

  // A whole batch with one outcome.
  lemma {:induction false} FoldPublishedBatch<V>(c: map<Network, V>, rs: seq<Request<V>>, replies: seq<Result>,
                                                 batch: seq<Request<V>>, generation: nat, outcome: Outcome)
    requires |replies| + |batch| <= |rs| && rs[|replies|..|replies| + |batch|] == batch
    ensures FoldPublished(c, rs, replies + Replies(batch, generation, outcome)) ==
              if outcome.Published? then Fold(FoldPublished(c, rs, replies), batch) else FoldPublished(c, rs, replies)
  {
    var all := replies + Replies(batch, generation, outcome);
    if |batch| == 0 {
      assert all == replies;
    } else {
      var n := |batch| - 1;
      FoldPublishedBatch(c, rs, replies, batch[..n], generation, outcome);
      assert all[..|all| - 1] == replies + Replies(batch[..n], generation, outcome);
      assert rs[|replies| + n] == rs[|replies|..|replies| + |batch|][n];
    }
  }

  // ---------------------------------------------------------------- every step keeps it

  lemma OrderSent<V>(s: State<V>, t: State<V>, r: Request<V>)
    requires InOrder(s) && t.accepted == s.accepted + [r] && t.queue == s.queue + [r]
    requires t.replies == s.replies && Batch(t.phase) == Batch(s.phase)
    ensures InOrder(t)
  {
    assert t.accepted[|t.replies|..] == s.accepted[|s.replies|..] + [r];
  }

  lemma OrderTaken<V>(s: State<V>, t: State<V>)
    requires InOrder(s) && |s.queue| > 0 && t.accepted == s.accepted && t.replies == s.replies
    requires t.queue == s.queue[1..] && Batch(t.phase) == Batch(s.phase) + [s.queue[0]]
    ensures InOrder(t)
  {
    assert s.queue == [s.queue[0]] + s.queue[1..];
  }

  lemma OrderAnswered<V>(s: State<V>, t: State<V>, batch: seq<Request<V>>, generation: nat, outcome: Outcome)
    requires InOrder(s) && batch == Batch(s.phase) && t.accepted == s.accepted && t.queue == s.queue
    requires t.replies == s.replies + Replies(batch, generation, outcome) && Batch(t.phase) == []
    ensures InOrder(t)
  {
    var n := |s.replies|;
    assert s.accepted[n..][..|batch|] == batch;
    forall j | 0 <= j < |t.replies| ensures t.replies[j].id == t.accepted[j].id {
      if j >= n {
        assert s.accepted[n..][j - n] == s.accepted[j];
      }
    }
    assert t.accepted[|t.replies|..] == s.accepted[n..][|batch|..];
  }

  lemma OrderKept<V>(l: Limits, s: State<V>, step: Step<V>)
    requires InOrder(s)
    ensures InOrder(Exec(l, s, step))
  {
    hide Fold, Fresh, Structural, Fails;
    var t := Exec(l, s, step);
    if Enabled(l, s, step) {
      match step
      case Send => hide InOrder; OrderSent(s, t, s.holder.value);
      case Take => hide InOrder; OrderTaken(s, t);
      case More => hide InOrder; OrderTaken(s, t);
      case Publish =>
        hide InOrder;
        OrderAnswered(s, t, s.phase.batch, if Fails(l, s) then s.number else s.number + 1,
                      if Fails(l, s) then TableFull else Published);
      case _ =>
    }
  }

  lemma ApartKept<V>(l: Limits, s: State<V>, step: Step<V>)
    requires Apart(s)
    ensures Apart(Exec(l, s, step))
  {
  }

  lemma StoppingKept<V>(l: Limits, s: State<V>, step: Step<V>)
    requires Stopping(s)
    ensures Stopping(Exec(l, s, step))
  {
  }

  lemma DenotesPublished<V>(l: Limits, init: map<Network, V>, s: State<V>)
    requires InOrder(s) && Denotes(init, s) && s.phase.Collecting?
    ensures InOrder(AfterPublish(l, s)) && Denotes(init, AfterPublish(l, s))
  {
    var batch, t := s.phase.batch, AfterPublish(l, s);
    var generation, outcome := if Fails(l, s) then s.number else s.number + 1, if Fails(l, s) then TableFull else Published;
    hide Fails, Structural;
    assert s.accepted[|s.replies|..][..|batch|] == batch;
    assert s.accepted[|s.replies|..|s.replies| + |batch|] == s.accepted[|s.replies|..][..|batch|];
    OrderAnswered(s, t, batch, generation, outcome);
    FoldPublishedBatch(init, s.accepted, s.replies, batch, generation, outcome);
  }

  lemma DenotesKept<V>(l: Limits, init: map<Network, V>, s: State<V>, step: Step<V>)
    requires InOrder(s) && Denotes(init, s)
    ensures Denotes(init, Exec(l, s, step))
  {
    hide Fold, FoldPublished, Fresh, InOrder, AfterPublish;
    if Enabled(l, s, step) {
      match step
      case Send => FoldPublishedPrefix(init, s.accepted, [s.holder.value], s.replies);
      case Publish => DenotesPublished(l, init, s);
      case _ =>
    }
  }

  lemma BoundedKept<V>(l: Limits, s: State<V>, step: Step<V>)
    requires Bounded(l, s) && l.maxBatch > 0
    ensures Bounded(l, Exec(l, s, step))
  {
  }

  lemma StepKeeps<V>(l: Limits, init: map<Network, V>, s: State<V>, step: Step<V>)
    requires l.maxBatch > 0 && Inv(l, init, s)
    ensures Inv(l, init, Exec(l, s, step))
  {
    hide InOrder, Apart, Stopping, Denotes, Bounded, Exec;
    OrderKept(l, s, step);
    ApartKept(l, s, step);
    StoppingKept(l, s, step);
    DenotesKept(l, init, s, step);
    BoundedKept(l, s, step);
  }

  // Over every run, however submitters, closers and the writer interleave.
  lemma {:induction false} RunKeeps<V>(l: Limits, init: map<Network, V>, steps: seq<Step<V>>)
    requires l.maxBatch > 0
    ensures Inv(l, init, Run(l, Initial(init), steps))
  {
    if |steps| > 0 {
      RunKeeps(l, init, steps[..|steps| - 1]);
      StepKeeps(l, init, Run(l, Initial(init), steps[..|steps| - 1]), steps[|steps| - 1]);
    }
  }

  // Submit only ever accepts normalised prefixes.
  ghost predicate Normalised<V>(s: State<V>) {
    && (forall r <- s.accepted :: Clean(r)) && (s.holder.Some? ==> Clean(s.holder.value))
  }

  ghost predicate Clean<V>(r: Request<V>) {
    forall m <- r.mutations :: ValidNetwork(m.network)
  }

  // The batch is part of what was accepted.
  lemma BatchAccepted<V>(s: State<V>, r: Request<V>)
    requires InOrder(s) && r in Batch(s.phase)
    ensures r in s.accepted
  {
    assert r in s.accepted[|s.replies|..];
  }

  // ---------------------------------------------------------------- what a run guarantees

  // Every result a submitter ever received.
  function Results<V>(s: State<V>): seq<Result> {
    s.replies + s.refusals
  }

  ghost predicate Answered<V>(s: State<V>, id: nat) {
    exists x :: 0 <= x < |Results(s)| && Results(s)[x].id == id
  }

  // No request is told twice, and an accepted one is told exactly when its turn in the queue has come.
  lemma OneResultEach<V>(l: Limits, init: map<Network, V>, steps: seq<Step<V>>)
    requires l.maxBatch > 0
    ensures var s := Run(l, Initial(init), steps);
            && (forall x, y :: 0 <= x < |Results(s)| && 0 <= y < |Results(s)| && x != y ==> Results(s)[x].id != Results(s)[y].id)
            && (forall j :: 0 <= j < |s.accepted| ==> (Answered(s, s.accepted[j].id) <==> j < |s.replies|))
  {
    RunKeeps(l, init, steps);
    hide Run;
    ResultsApart(Run(l, Initial(init), steps));
  }

  lemma ResultsApart<V>(s: State<V>)
    requires InOrder(s) && Apart(s)
    ensures forall x, y :: 0 <= x < |Results(s)| && 0 <= y < |Results(s)| && x != y ==> Results(s)[x].id != Results(s)[y].id
    ensures forall j :: 0 <= j < |s.accepted| ==> (Answered(s, s.accepted[j].id) <==> j < |s.replies|)
  {
    var n := |s.replies|;
    forall x, y | 0 <= x < |Results(s)| && 0 <= y < |Results(s)| && x != y ensures Results(s)[x].id != Results(s)[y].id {
      SlotId(s, x);
      SlotId(s, y);
      if x < n && y >= n { AcceptedApart(s, x, y - n); }
      if y < n && x >= n { AcceptedApart(s, y, x - n); }
    }
    forall j | 0 <= j < |s.accepted| ensures Answered(s, s.accepted[j].id) <==> j < n {
      if j < n {
        SlotId(s, j);
      } else {
        forall x | 0 <= x < |Results(s)| ensures Results(s)[x].id != s.accepted[j].id {
          SlotId(s, x);
          if x >= n { AcceptedApart(s, j, x - n); }
        }
      }
    }
  }

  lemma SlotId<V>(s: State<V>, x: nat)
    requires InOrder(s) && x < |Results(s)|
    ensures Results(s)[x].id == if x < |s.replies| then s.accepted[x].id else s.refusals[x - |s.replies|].id
  {
  }

  lemma AcceptedApart<V>(s: State<V>, i: nat, j: nat)
    requires Apart(s) && i < |s.accepted| && j < |s.refusals|
    ensures s.accepted[i].id != s.refusals[j].id
  {
    assert s.accepted[i] in s.accepted && s.refusals[j] in s.refusals;
  }

  // When the writer has exited, which is when Close returns, nothing accepted is unanswered and
  // nobody is still waiting to be accepted.
  lemma NonePendingAfterClose<V>(l: Limits, init: map<Network, V>, steps: seq<Step<V>>)
    requires l.maxBatch > 0 && Run(l, Initial(init), steps).phase.Exited?
    ensures var s := Run(l, Initial(init), steps);
            s.closed && s.holder.None? && s.queue == [] && |s.replies| == |s.accepted|
  {
    RunKeeps(l, init, steps);
    var s := Run(l, Initial(init), steps);
    assert s.accepted[|s.replies|..] == [];
  }

  // And nothing is accepted or published afterwards.
  lemma {:induction false} QuietAfterClose<V>(l: Limits, s: State<V>, more: seq<Step<V>>)
    requires s.phase.Exited? && s.closed && s.holder.None?
    ensures var t := Run(l, s, more);
            t.phase.Exited? && t.closed && t.holder.None? && t.accepted == s.accepted && t.replies == s.replies
            && t.catalog == s.catalog && t.number == s.number
  {
    if |more| > 0 {
      QuietAfterClose(l, s, more[..|more| - 1]);
    }
  }

  // The published catalogue is the initial one with the published requests folded in queue order,
  // and the generation has risen by one for each publication.
  lemma PublishedDenotesFold<V>(l: Limits, init: map<Network, V>, steps: seq<Step<V>>)
    requires l.maxBatch > 0
    ensures var s := Run(l, Initial(init), steps);
            && |s.replies| <= |s.accepted| && s.catalog == FoldPublished(init, s.accepted, s.replies)
            && s.number == 1 + s.payloads + s.structurals
  {
    RunKeeps(l, init, steps);
  }

  // Replies never name a generation before an earlier reply's, nor one not yet published.
  ghost predicate Numbered<V>(s: State<V>) {
    && (forall i, j :: 0 <= i < j < |s.replies| ==> s.replies[i].generation <= s.replies[j].generation)
    && (forall i :: 0 <= i < |s.replies| ==> s.replies[i].generation <= s.number)
  }

  lemma {:induction false} GenerationsRise<V>(l: Limits, init: map<Network, V>, steps: seq<Step<V>>)
    ensures Numbered(Run(l, Initial(init), steps))
  {
    if |steps| > 0 {
      GenerationsRise(l, init, steps[..|steps| - 1]);
      NumberedKept(l, Run(l, Initial(init), steps[..|steps| - 1]), steps[|steps| - 1]);
    }
  }

  lemma NumberedKept<V>(l: Limits, s: State<V>, step: Step<V>)
    requires Numbered(s)
    ensures Numbered(Exec(l, s, step))
    ensures s.number <= Exec(l, s, step).number <= s.number + 1
    ensures Exec(l, s, step).number == s.number + 1 <==>
              step.Publish? && Enabled(l, s, step) && !Fails(l, s)
  {
    hide Fold, Fresh, Structural, Fails;
  }

  // ---------------------------------------------------------------- what a result's number names

  // What one step adds: requests and results at the end, published results under the new number and failed ones
  // under the unchanged one.
  lemma StepGrows<V>(l: Limits, s: State<V>, step: Step<V>)
    ensures var t := Exec(l, s, step);
            && s.accepted <= t.accepted && s.replies <= t.replies && s.number <= t.number
            && forall j :: |s.replies| <= j < |t.replies| ==>
                 && t.replies[j].generation == t.number
                 && t.number == if t.replies[j].outcome.Published? then s.number + 1 else s.number
  {
    hide Fold, Fresh, Structural, Fails;
  }

  // From any state of a run on, failed results alone may still carry its number.
  lemma {:induction false} RunGrows<V>(l: Limits, init: map<Network, V>, steps: seq<Step<V>>, t: nat)
    requires t <= |steps|
    ensures var u, s := Run(l, Initial(init), steps[..t]), Run(l, Initial(init), steps);
            && u.accepted <= s.accepted && u.replies <= s.replies && u.number <= s.number
            && forall j :: |u.replies| <= j < |s.replies| ==>
                 && u.number <= s.replies[j].generation
                 && (s.replies[j].generation == u.number ==> !s.replies[j].outcome.Published?)
  {
    if t < |steps| {
      var front := steps[..|steps| - 1];
      assert front[..t] == steps[..t];
      RunGrows(l, init, front, t);
      StepGrows(l, Run(l, Initial(init), front), steps[|steps| - 1]);
    } else {
      assert steps[..t] == steps;
    }
  }

  lemma {:induction false} FoldUnpublished<V>(c: map<Network, V>, rs: seq<Request<V>>, replies: seq<Result>, k: nat)
    requires k <= |replies| <= |rs| && forall j :: k <= j < |replies| ==> !replies[j].outcome.Published?
    ensures FoldPublished(c, rs, replies) == FoldPublished(c, rs, replies[..k])
  {
    if k < |replies| {
      var front := replies[..|replies| - 1];
      FoldUnpublished(c, rs, front, k);
      assert front[..k] == replies[..k];
    } else {
      assert replies[..k] == replies;
    }
  }

  // The catalogue of a generation, seen from any later state of the run: the published requests whose results
  // carry its number or an earlier one, folded in queue order.
  lemma GenerationDenotes<V>(l: Limits, init: map<Network, V>, steps: seq<Step<V>>, t: nat, k: nat)
    requires l.maxBatch > 0 && t <= |steps| && k <= |Run(l, Initial(init), steps).replies|
    requires forall i :: 0 <= i < |Run(l, Initial(init), steps).replies| ==>
               (i < k <==> Run(l, Initial(init), steps).replies[i].generation <= Run(l, Initial(init), steps[..t]).number)
    ensures var u, s := Run(l, Initial(init), steps[..t]), Run(l, Initial(init), steps);
            |s.replies| <= |s.accepted| && u.catalog == FoldPublished(init, s.accepted, s.replies[..k])
  {
    var u, s := Run(l, Initial(init), steps[..t]), Run(l, Initial(init), steps);
    RunKeeps(l, init, steps);
    RunKeeps(l, init, steps[..t]);
    GenerationsRise(l, init, steps[..t]);
    RunGrows(l, init, steps, t);
    hide Run, FoldPublished, InOrder, Apart, Stopping, Bounded;
    var n := |u.replies|;
    assert forall i :: 0 <= i < n ==> s.replies[i] == u.replies[i];
    assert n > 0 ==> u.replies[n - 1].generation <= u.number;
    assert s.replies[..k][..n] == u.replies;
    FoldUnpublished(init, s.accepted, s.replies[..k], n);
    assert s.accepted == u.accepted + s.accepted[|u.accepted|..];
    FoldPublishedPrefix(init, u.accepted, s.accepted[|u.accepted|..], u.replies);
  }

  // Where ascending results pass a number.
  lemma {:induction false} PassesAt(replies: seq<Result>, g: nat) returns (k: nat)
    requires forall i, j :: 0 <= i < j < |replies| ==> replies[i].generation <= replies[j].generation
    ensures k <= |replies| && forall i :: 0 <= i < |replies| ==> (i < k <==> replies[i].generation <= g)
  {
    if |replies| == 0 {
      k := 0;
    } else if replies[|replies| - 1].generation <= g {
      k := |replies|;
    } else {
      k := PassesAt(replies[..|replies| - 1], g);
    }
  }

  // A result given out in a run names a generation the run has had.
  lemma {:induction false} ReplyWas<V>(l: Limits, init: map<Network, V>, steps: seq<Step<V>>, j: nat) returns (t: nat)
    requires j < |Run(l, Initial(init), steps).replies|
    ensures t <= |steps|
    ensures Run(l, Initial(init), steps[..t]).number == Run(l, Initial(init), steps).replies[j].generation
  {
    var front := steps[..|steps| - 1];
    var s := Run(l, Initial(init), front);
    StepGrows(l, s, steps[|steps| - 1]);
    if j < |s.replies| {
      t := ReplyWas(l, init, front, j);
      assert front[..t] == steps[..t];
    } else {
      t := |steps|;
      assert steps[..t] == steps;
    }
  }

  // Over every run a result numbered g names a generation the table has had, and the catalogue of that
  // generation is the initial one with the published requests up to and including the result's whole batch
  // folded in: those whose results carry numbers up to g.
  lemma ReplyDenotes<V>(l: Limits, init: map<Network, V>, steps: seq<Step<V>>, j: nat) returns (t: nat, k: nat)
    requires l.maxBatch > 0 && j < |Run(l, Initial(init), steps).replies|
    ensures var s := Run(l, Initial(init), steps);
            && t <= |steps| && Run(l, Initial(init), steps[..t]).number == s.replies[j].generation
            && j < k <= |s.replies| <= |s.accepted|
            && (forall i :: 0 <= i < |s.replies| ==> (i < k <==> s.replies[i].generation <= s.replies[j].generation))
            && Run(l, Initial(init), steps[..t]).catalog == FoldPublished(init, s.accepted, s.replies[..k])
  {
    t := ReplyWas(l, init, steps, j);
    var s := Run(l, Initial(init), steps);
    GenerationsRise(l, init, steps);
    k := PassesAt(s.replies, s.replies[j].generation);
    GenerationDenotes(l, init, steps, t, k);
  }

  // A publication that changes the set of prefixes is counted as structural, any other as one of payloads.
  lemma CountersTell<V>(l: Limits, s: State<V>, step: Step<V>)
    ensures var t := Exec(l, s, step);
            && t.structurals == s.structurals + (if t.number != s.number && t.catalog.Keys != s.catalog.Keys then 1 else 0)
            && t.payloads == s.payloads + (if t.number != s.number && t.catalog.Keys == s.catalog.Keys then 1 else 0)
            && (t.number == s.number ==> t.catalog == s.catalog)
  {
    hide Fold, Fresh;
  }

  // What is accepted is what was submitted: every request in the queue's history, or waiting to enter it, is one
  // that took the lock, and every refusal answers a submission that was refused for that reason.
  lemma {:induction false} AcceptedSubmitted<V>(l: Limits, init: map<Network, V>, steps: seq<Step<V>>)
    ensures var s := Run(l, Initial(init), steps);
            && (forall r <- s.accepted :: Lock(r) in steps)
            && (s.holder.Some? ==> Lock(s.holder.value) in steps)
            && (forall r <- s.refusals :: (r.outcome.BadIP? && Step<V>.RefuseBad(r.id) in steps)
                                          || (r.outcome.Closed? && Step<V>.RefuseClosed(r.id) in steps))
  {
    if |steps| > 0 {
      var front, step := steps[..|steps| - 1], steps[|steps| - 1];
      AcceptedSubmitted(l, init, front);
      assert steps == front + [step];
      SubmittedKept(l, Run(l, Initial(init), front), step, front);
    }
  }

  lemma SubmittedKept<V>(l: Limits, s: State<V>, step: Step<V>, front: seq<Step<V>>)
    requires forall r <- s.accepted :: Lock(r) in front
    requires s.holder.Some? ==> Lock(s.holder.value) in front
    requires forall r <- s.refusals :: (r.outcome.BadIP? && Step<V>.RefuseBad(r.id) in front)
                                       || (r.outcome.Closed? && Step<V>.RefuseClosed(r.id) in front)
    ensures var t, steps := Exec(l, s, step), front + [step];
            && (forall r <- t.accepted :: Lock(r) in steps)
            && (t.holder.Some? ==> Lock(t.holder.value) in steps)
            && (forall r <- t.refusals :: (r.outcome.BadIP? && Step<V>.RefuseBad(r.id) in steps)
                                          || (r.outcome.Closed? && Step<V>.RefuseClosed(r.id) in steps))
  {
    hide Fold, Fresh, Structural, Fails;
    assert step in front + [step];
  }

  // ---------------------------------------------------------------- closing ends

  predicate WriterStep<V>(step: Step<V>) {
    step.Take? || step.More? || step.Publish? || step.Stop? || step.Exit?
  }

  function Remaining<V>(s: State<V>): nat {
    3 * |s.queue| + (match s.phase case Exited => 0 case Draining => 1 case Idle => 2 case Collecting(_, _) => 3)
  }

  // After a close the writer always has a step to take until it exits, every one of its steps brings
  // the exit nearer, and no other step puts it off.
  lemma CloseEnds<V>(l: Limits, init: map<Network, V>, s: State<V>, step: Step<V>)
    requires Inv(l, init, s) && s.closed && l.maxBatch > 0
    ensures !s.phase.Exited? ==> exists w: Step<V> :: WriterStep(w) && Enabled(l, s, w)
    ensures WriterStep(step) && Enabled(l, s, step) ==> Remaining(Exec(l, s, step)) < Remaining(s)
    ensures !WriterStep(step) ==> Remaining(Exec(l, s, step)) == Remaining(s) && Exec(l, s, step).closed
  {
    hide Fold, Fresh, Structural, Fails, FoldPublished;
    if !s.phase.Exited? {
      var w: Step<V> := match s.phase
        case Idle => Stop
        case Draining => if |s.queue| == 0 then Exit else Take
        case Collecting(_, _) => Publish;
      assert WriterStep(w) && Enabled(l, s, w);
    }
  }

  // A submitter waiting for room is never stuck: the writer can free a place.
  lemma RoomComes<V>(l: Limits, init: map<Network, V>, s: State<V>)
    requires Inv(l, init, s) && l.queueSize > 0 && l.maxBatch > 0 && s.holder.Some? && !Enabled(l, s, Send)
    ensures Enabled(l, s, Take) || Enabled(l, s, Publish)
  {
  }
}
