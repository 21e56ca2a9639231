/** Membership over whole runs: selection, health polls, registration, discovery and eviction, each as one
  * atomic step over registry, index and the URLs discovery owns.
  */
module Membership {
  import opened Sequences
  import opened Hashing
  import opened FlatIndex
  import opened Workers

  datatype System = System(workers: Registry, nextId: nat, index: Flat, byUrl: map<string, WorkerId>)

  datatype Step =
    | Select(worker: WorkerId, chain: seq<Hash>, probed: Flat, now: nat)
    | Poll(worker: WorkerId, up: bool)
    | Register(url: string, pool: Pool)
    | Reconcile(desired: set<string>, issued: seq<string>)
    | Evict(now: nat, ttl: nat, gone: set<Hash>)

  function GoneIds(byUrl: map<string, WorkerId>, desired: set<string>): set<WorkerId> {
    set u | u in byUrl && u !in desired :: byUrl[u]
  }

  /** Register `issued` one after the other, each with the next id and unhealthy. */
  function EnrollWorkers(workers: Registry, nextId: nat, issued: seq<string>): Registry {
    if issued == [] then workers
    else
      var n := |issued| - 1;
      EnrollWorkers(workers, nextId, issued[..n])[nextId + n := WorkerState(Worker(nextId + n, issued[n], Both), false)]
  }

  function EnrollUrls(byUrl: map<string, WorkerId>, nextId: nat, issued: seq<string>): map<string, WorkerId> {
    if issued == [] then byUrl
    else
      var n := |issued| - 1;
      EnrollUrls(byUrl, nextId, issued[..n])[issued[n] := nextId + n]
  }

  lemma {:induction false} EnrolledWorkersAt(workers: Registry, nextId: nat, issued: seq<string>)
    ensures var r := EnrollWorkers(workers, nextId, issued);
            && (forall id: WorkerId :: id in r <==> id in workers || nextId <= id < nextId + |issued|)
            && (forall id: WorkerId | nextId <= id < nextId + |issued| ::
                  r[id] == WorkerState(Worker(id, issued[id - nextId], Both), false))
            && (forall id | id in workers && !(nextId <= id < nextId + |issued|) :: r[id] == workers[id])
  {
    if issued != [] {
      EnrolledWorkersAt(workers, nextId, issued[..|issued| - 1]);
    }
  }

  lemma {:induction false} EnrolledUrlsAt(byUrl: map<string, WorkerId>, nextId: nat, issued: seq<string>)
    requires Distinct(issued)
    ensures var r := EnrollUrls(byUrl, nextId, issued);
            && (forall u :: u in r <==> u in byUrl || u in issued)
            && (forall i | 0 <= i < |issued| :: issued[i] in r && r[issued[i]] == nextId + i)
            && (forall u | u in byUrl && u !in issued :: r[u] == byUrl[u])
  {
    if issued != [] {
      var n := |issued| - 1;
      EnrolledUrlsAt(byUrl, nextId, issued[..n]);
      assert issued == issued[..n] + [issued[n]];
    }
  }

  /** `issued` lists, in the order ids were drawn, the desired URLs not yet known. */
  ghost predicate Issues(byUrl: map<string, WorkerId>, desired: set<string>, issued: seq<string>) {
    Distinct(issued) && forall u :: u in issued <==> u in desired && u !in byUrl
  }

  function Kept(byUrl: map<string, WorkerId>, desired: set<string>): map<string, WorkerId> {
    map u | u in byUrl && u in desired :: byUrl[u]
  }

  ghost predicate Enabled(s: System, step: Step) {
    match step
    case Select(w, _, probed, _) => IsHealthy(s.workers, w) && SameHolders(s.index, probed)
    case Reconcile(desired, issued) => Issues(s.byUrl, desired, issued)
    case _ => true
  }

  /** A down flip purges; a poll that changes nothing, or finds the worker gone, does nothing more. */
  function Apply(s: System, step: Step): System {
    match step
    case Select(w, chain, probed, now) => s.(index := Record(probed, w, chain, now))
    case Poll(id, up) =>
      if id !in s.workers || s.workers[id].healthy == up then s
      else
        var s' := s.(workers := s.workers[id := s.workers[id].(healthy := up)]);
        if up then s' else s'.(index := Purge(s.index, {id}))
    case Register(url, pool) =>
      s.(workers := s.workers[s.nextId := WorkerState(Worker(s.nextId, url, pool), false)], nextId := s.nextId + 1)
    case Reconcile(desired, issued) =>
      System(EnrollWorkers(s.workers - GoneIds(s.byUrl, desired), s.nextId, issued),
             s.nextId + |issued|,
             Purge(s.index, GoneIds(s.byUrl, desired)),
             EnrollUrls(Kept(s.byUrl, desired), s.nextId, issued))
    case Evict(now, ttl, gone) => s.(index := Expire(s.index, now, ttl) - gone)
  }

  /** Only registered and healthy workers are credited with cache. */
  ghost predicate CreditedAreHealthy(s: System) {
    forall w, h | Holds(s.index, w, h) :: IsHealthy(s.workers, w)
  }

  /** Discovered URLs and registered ids correspond one to one. */
  ghost predicate UrlsMatchIds(s: System) {
    && (forall u, v | u in s.byUrl && v in s.byUrl && s.byUrl[u] == s.byUrl[v] :: u == v)
    && (forall u | u in s.byUrl :: s.byUrl[u] in s.workers && s.workers[s.byUrl[u]].worker.url == u)
  }

  ghost predicate Good(s: System) {
    ValidRegistry(s.workers, s.nextId) && CreditedAreHealthy(s) && UrlsMatchIds(s)
  }

  /** Where the router starts: the configured workers, nothing credited and nothing discovered. */
  function Start(configs: seq<WorkerConfig>): System {
    System(Configured(configs), |configs|, map[], map[])
  }

  lemma StartIsGood(configs: seq<WorkerConfig>)
    ensures Good(Start(configs))
  {
  }

  /** A registration adds one unhealthy worker of the given description, under the next id. */
  lemma RegisteredIsNew(s: System, url: string, pool: Pool)
    requires ValidRegistry(s.workers, s.nextId)
    ensures var s' := Apply(s, Register(url, pool));
            && s.nextId !in s.workers && s'.nextId == s.nextId + 1
            && s'.workers.Keys == s.workers.Keys + {s.nextId}
            && s'.workers[s.nextId] == WorkerState(Worker(s.nextId, url, pool), false)
            && (forall id | id in s.workers :: s'.workers[id] == s.workers[id])
            && s'.index == s.index && s'.byUrl == s.byUrl
  {
  }

  /** A poll mirrors the probe for a registered worker; a flip to down takes that worker's credit and nothing
    * else is changed.
    */
  lemma PolledIs(s: System, id: WorkerId, up: bool)
    ensures var s' := Apply(s, Poll(id, up));
            && s'.workers.Keys == s.workers.Keys && s'.nextId == s.nextId && s'.byUrl == s.byUrl
            && (id in s.workers ==> s'.workers[id] == s.workers[id].(healthy := up))
            && (forall v | v in s.workers && v != id :: s'.workers[v] == s.workers[v])
            && (forall w, h :: Holds(s'.index, w, h) <==> Holds(s.index, w, h) && !(w == id && IsHealthy(s.workers, id) && !up))
  {
    PurgeAt(s.index, {id});
  }

  lemma SelectKeepsGood(s: System, step: Step)
    requires step.Select? && Good(s) && Enabled(s, step)
    ensures Good(Apply(s, step))
  {
    RecordAt(step.probed, step.worker, step.chain, step.now);
    forall w, h | Holds(Apply(s, step).index, w, h) ensures IsHealthy(s.workers, w) {
      if w != step.worker {
        assert Holds(s.index, w, h);
      }
    }
  }

  lemma PollKeepsGood(s: System, step: Step)
    requires step.Poll? && Good(s)
    ensures Good(Apply(s, step))
  {
    PurgeAt(s.index, {step.worker});
  }

  /** Reconciliation read off, workers first: gone ids leave the registry, every other id keeps its entry,
    * and the ids just drawn are there.
    */
  lemma ReconciledWorkers(s: System, step: Step)
    requires step.Reconcile? && Enabled(s, step) && ValidRegistry(s.workers, s.nextId)
    ensures var s', gone := Apply(s, step), GoneIds(s.byUrl, step.desired);
            && (forall id: WorkerId :: id in s'.workers <==> (id in s.workers && id !in gone) || s.nextId <= id < s'.nextId)
            && (forall id | id in s.workers && id !in gone :: s'.workers[id] == s.workers[id])
  {
    EnrolledWorkersAt(s.workers - GoneIds(s.byUrl, step.desired), s.nextId, step.issued);
  }

  lemma ReconciledIds(s: System, step: Step)
    requires step.Reconcile? && Enabled(s, step)
    ensures var s' := Apply(s, step);
            && s'.byUrl.Keys == step.desired
            && (forall u | u in step.desired && u in s.byUrl :: s'.byUrl[u] == s.byUrl[u])
            && (forall u | u in step.desired && u !in s.byUrl ::
                  s.nextId <= s'.byUrl[u] < s'.nextId && step.issued[s'.byUrl[u] - s.nextId] == u)
  {
    EnrolledUrlsAt(Kept(s.byUrl, step.desired), s.nextId, step.issued);
    forall u | u in step.desired && u !in s.byUrl
      ensures var id := Apply(s, step).byUrl[u]; s.nextId <= id < Apply(s, step).nextId && step.issued[id - s.nextId] == u
    {
      assert u in step.issued;
      var i :| 0 <= i < |step.issued| && step.issued[i] == u;
    }
  }

  /** The URLs become exactly the desired ones; known ones keep their ids and new ones get new, unhealthy
    * workers of their own.
    */
  lemma ReconciledUrls(s: System, step: Step)
    requires step.Reconcile? && Enabled(s, step)
    ensures var s' := Apply(s, step);
            && s'.byUrl.Keys == step.desired
            && (forall u | u in step.desired && u in s.byUrl :: s'.byUrl[u] == s.byUrl[u])
            && (forall u | u in step.desired && u !in s.byUrl ::
                  && s.nextId <= s'.byUrl[u] < s'.nextId && s'.byUrl[u] in s'.workers
                  && s'.workers[s'.byUrl[u]] == WorkerState(Worker(s'.byUrl[u], u, Both), false))
  {
    ReconciledIds(s, step);
    EnrolledWorkersAt(s.workers - GoneIds(s.byUrl, step.desired), s.nextId, step.issued);
  }

  lemma ReconcileKeepsRegistry(s: System, step: Step)
    requires step.Reconcile? && Enabled(s, step) && ValidRegistry(s.workers, s.nextId)
    ensures ValidRegistry(Apply(s, step).workers, Apply(s, step).nextId)
  {
    EnrolledWorkersAt(s.workers - GoneIds(s.byUrl, step.desired), s.nextId, step.issued);
  }

  lemma ReconcileKeepsCredit(s: System, step: Step)
    requires step.Reconcile? && Enabled(s, step) && ValidRegistry(s.workers, s.nextId) && CreditedAreHealthy(s)
    ensures CreditedAreHealthy(Apply(s, step))
  {
    ReconciledWorkers(s, step);
    PurgeAt(s.index, GoneIds(s.byUrl, step.desired));
    forall w, h | Holds(Apply(s, step).index, w, h) ensures IsHealthy(Apply(s, step).workers, w) {
      assert Holds(s.index, w, h);
    }
  }

  lemma ReconcileKeepsUrls(s: System, step: Step)
    requires step.Reconcile? && Enabled(s, step) && ValidRegistry(s.workers, s.nextId) && UrlsMatchIds(s)
    ensures UrlsMatchIds(Apply(s, step))
  {
    ReconciledWorkers(s, step);
    ReconciledUrls(s, step);
    var s' := Apply(s, step);
    forall u | u in s'.byUrl ensures s'.byUrl[u] in s'.workers && s'.workers[s'.byUrl[u]].worker.url == u {
      if u in s.byUrl {
        assert s.byUrl[u] !in GoneIds(s.byUrl, step.desired);
      }
    }
    forall u, v | u in s'.byUrl && v in s'.byUrl && s'.byUrl[u] == s'.byUrl[v] ensures u == v {
      assert s'.workers[s'.byUrl[u]].worker.url == u && s'.workers[s'.byUrl[v]].worker.url == v;
    }
  }

  lemma StepKeepsGood(s: System, step: Step)
    requires Good(s) && Enabled(s, step)
    ensures Good(Apply(s, step))
  {
    match step
    case Select(_, _, _, _) => SelectKeepsGood(s, step);
    case Poll(_, _) => PollKeepsGood(s, step);
    case Reconcile(_, _) =>
      ReconcileKeepsRegistry(s, step);
      ReconcileKeepsCredit(s, step);
      ReconcileKeepsUrls(s, step);
    case Register(_, _) =>
    case Evict(now, ttl, gone) =>
      assert forall w, h | Holds(Apply(s, step).index, w, h) :: Holds(s.index, w, h);
  }

  // ---------------------------------------------------------------------------------------------
  // Runs
  // ---------------------------------------------------------------------------------------------

  ghost predicate Taken(before: System, step: Step, after: System) {
    Enabled(before, step) && after == Apply(before, step)
  }

  /** The states of a run; each step must have been enabled where it was taken. */
  ghost predicate Run(states: seq<System>, steps: seq<Step>) {
    && |states| == |steps| + 1
    && forall i | 0 <= i < |steps| :: Taken(states[i], steps[i], states[i + 1])
  }

  /** In every state of every run from a good one, nobody but a registered, healthy worker is credited. */
  lemma {:induction false} GoodAlways(states: seq<System>, steps: seq<Step>, i: nat)
    requires Run(states, steps) && Good(states[0]) && i <= |steps|
    ensures Good(states[i])
  {
    if i > 0 {
      GoodAlways(states, steps, i - 1);
      assert Taken(states[i - 1], steps[i - 1], states[i - 1 + 1]);
      StepKeepsGood(states[i - 1], steps[i - 1]);
    }
  }

  /** So in every run of the router from its configuration. */
  lemma GoodFromStart(configs: seq<WorkerConfig>, states: seq<System>, steps: seq<Step>, i: nat)
    requires Run(states, steps) && states[0] == Start(configs) && i <= |steps|
    ensures Good(states[i])
  {
    StartIsGood(configs);
    GoodAlways(states, steps, i);
  }

  /** An id that is no longer (or was never) registered below the allocator is never issued again. */
  lemma {:induction false} IdsNeverReturn(states: seq<System>, steps: seq<Step>, i: nat, j: nat, id: WorkerId)
    requires Run(states, steps) && i <= j <= |steps|
    requires id < states[i].nextId && id !in states[i].workers
    ensures id < states[j].nextId && id !in states[j].workers
    decreases j
  {
    if i < j {
      IdsNeverReturn(states, steps, i, j - 1, id);
      assert Taken(states[j - 1], steps[j - 1], states[j - 1 + 1]);
      OldIdStaysOut(states[j - 1], steps[j - 1], id);
    }
  }

  lemma OldIdStaysOut(s: System, step: Step, id: WorkerId)
    requires Enabled(s, step) && id < s.nextId && id !in s.workers
    ensures id < Apply(s, step).nextId && id !in Apply(s, step).workers
  {
    if step.Reconcile? {
      EnrolledWorkersAt(s.workers - GoneIds(s.byUrl, step.desired), s.nextId, step.issued);
    }
  }

  /** A worker that is down, gone or not yet registered at some point is credited nothing from then on
    * until a request is routed to it: a restarted or replacement worker starts from zero.
    */
  lemma {:induction false} NoCreditUntilRouted(states: seq<System>, steps: seq<Step>, i: nat, j: nat, w: WorkerId, chain: seq<Hash>)
    requires Run(states, steps) && Good(states[0]) && i <= j <= |steps|
    requires !IsHealthy(states[i].workers, w)
    requires forall k | i <= k < j && steps[k].Select? :: steps[k].worker != w
    ensures forall h :: !Holds(states[j].index, w, h)
    ensures Walk(states[j].index, w, chain) == 0
    decreases j
  {
    if i < j {
      NoCreditUntilRouted(states, steps, i, j - 1, w, chain);
      var s, step := states[j - 1], steps[j - 1];
      assert Taken(s, step, states[j - 1 + 1]);
      OnlySelectionCredits(s, step, w);
    } else {
      GoodAlways(states, steps, i);
    }
  }

  lemma OnlySelectionCredits(s: System, step: Step, w: WorkerId)
    requires Enabled(s, step) && (step.Select? ==> step.worker != w)
    ensures forall h | Holds(Apply(s, step).index, w, h) :: Holds(s.index, w, h)
  {
    match step
    case Select(v, chain, probed, now) => RecordAt(probed, v, chain, now);
    case Poll(id, _) => PurgeAt(s.index, {id});
    case Reconcile(desired, _) => PurgeAt(s.index, GoneIds(s.byUrl, desired));
    case Register(_, _) =>
    case Evict(_, _, _) =>
  }

  ghost predicate Unowned(s: System, id: WorkerId) {
    id in s.workers && forall u | u in s.byUrl :: s.byUrl[u] != id
  }

  /** Workers that discovery does not own, the configured ones among them, stay registered and stay not
    * owned through every step.
    */
  lemma {:induction false} UnownedStay(states: seq<System>, steps: seq<Step>, i: nat, j: nat, id: WorkerId)
    requires Run(states, steps) && Good(states[0]) && i <= j <= |steps| && Unowned(states[i], id)
    ensures Unowned(states[j], id) && states[j].workers[id].worker == states[i].workers[id].worker
    decreases j
  {
    if i < j {
      UnownedStay(states, steps, i, j - 1, id);
      UnownedAt(states, steps, j - 1, id);
    }
  }

  lemma UnownedAt(states: seq<System>, steps: seq<Step>, k: nat, id: WorkerId)
    requires Run(states, steps) && Good(states[0]) && k < |steps| && Unowned(states[k], id)
    ensures Unowned(states[k + 1], id) && states[k + 1].workers[id].worker == states[k].workers[id].worker
  {
    assert Taken(states[k], steps[k], states[k + 1]);
    GoodAlways(states, steps, k);
    UnownedStep(states[k], steps[k], id);
  }

  lemma UnownedStep(s: System, step: Step, id: WorkerId)
    requires Enabled(s, step) && ValidRegistry(s.workers, s.nextId) && Unowned(s, id)
    ensures Unowned(Apply(s, step), id) && Apply(s, step).workers[id].worker == s.workers[id].worker
  {
    if step.Reconcile? {
      ReconciledWorkers(s, step);
      ReconciledUrls(s, step);
      assert id !in GoneIds(s.byUrl, step.desired);
    }
  }

  ghost predicate SameCredit(m: Flat, m': Flat, w: WorkerId) {
    forall h :: Holds(m, w, h) <==> Holds(m', w, h)
  }

  /** `u` is still served by the same worker, credited as before. */
  ghost predicate Survived(s: System, s': System, u: string) {
    && u in s.byUrl && u in s'.byUrl && s'.byUrl[u] == s.byUrl[u]
    && SameCredit(s.index, s'.index, s.byUrl[u])
  }

  lemma SurvivedTwice(a: System, b: System, c: System, u: string)
    requires Survived(a, b, u) && Survived(b, c, u)
    ensures Survived(a, c, u)
  {
    var w := a.byUrl[u];
    forall h ensures Holds(a.index, w, h) <==> Holds(c.index, w, h) {
      assert Holds(a.index, w, h) <==> Holds(b.index, w, h);
    }
  }

  lemma SurvivorStep(s: System, step: Step, u: string)
    requires Enabled(s, step) && UrlsMatchIds(s) && u in s.byUrl
    requires step.Reconcile? ==> u in step.desired
    ensures u in Apply(s, step).byUrl && Apply(s, step).byUrl[u] == s.byUrl[u]
    ensures step.Reconcile? ==> Survived(s, Apply(s, step), u)
  {
    if step.Reconcile? {
      ReconciledUrls(s, step);
      PurgeAt(s.index, GoneIds(s.byUrl, step.desired));
      assert s.byUrl[u] !in GoneIds(s.byUrl, step.desired);
    }
  }

  lemma SurvivorAt(states: seq<System>, steps: seq<Step>, k: nat, u: string)
    requires Run(states, steps) && Good(states[0]) && k < |steps| && u in states[k].byUrl
    requires steps[k].Reconcile? ==> u in steps[k].desired
    ensures u in states[k + 1].byUrl && states[k + 1].byUrl[u] == states[k].byUrl[u]
    ensures steps[k].Reconcile? ==> Survived(states[k], states[k + 1], u)
  {
    assert Taken(states[k], steps[k], states[k + 1]);
    assert UrlsMatchIds(states[k]) by {
      GoodAlways(states, steps, k);
    }
    SurvivorStep(states[k], steps[k], u);
  }

  /** A URL that every reconciliation still wants keeps its id through the whole run. */
  lemma {:induction false} SurvivorsKeepIds(states: seq<System>, steps: seq<Step>, i: nat, j: nat, u: string)
    requires Run(states, steps) && Good(states[0]) && i <= j <= |steps| && u in states[i].byUrl
    requires forall k | i <= k < j && steps[k].Reconcile? :: u in steps[k].desired
    ensures u in states[j].byUrl && states[j].byUrl[u] == states[i].byUrl[u]
    decreases j
  {
    if i < j {
      SurvivorsKeepIds(states, steps, i, j - 1, u);
      SurvivorAt(states, steps, j - 1, u);
    }
  }

  /** Reconciliations that still want a URL leave its worker, and that worker's credit, as they were. */
  lemma {:induction false} SurvivorsKeepCredit(states: seq<System>, steps: seq<Step>, i: nat, j: nat, u: string)
    requires Run(states, steps) && Good(states[0]) && i <= j <= |steps| && u in states[i].byUrl
    requires forall k | i <= k < j :: steps[k].Reconcile? && u in steps[k].desired
    ensures Survived(states[i], states[j], u)
    decreases j
  {
    if i < j {
      SurvivorsKeepCredit(states, steps, i, j - 1, u);
      SurvivorAt(states, steps, j - 1, u);
      SurvivedTwice(states[i], states[j - 1], states[j], u);
    }
  }

  /** `u` is still served by the worker it had at the start of the run. */
  ghost predicate Survives(states: seq<System>, k: nat, u: string)
    requires k < |states| && u in states[0].byUrl
  {
    u in states[k].byUrl && states[k].byUrl[u] == states[0].byUrl[u]
  }

  /** Over any run, a discovered worker keeps its id exactly as long as every reconciliation wants its URL,
    * and otherwise is gone for good, credited nothing.
    */
  lemma {:induction false} SurvivesIff(states: seq<System>, steps: seq<Step>, k: nat, u: string)
    requires Run(states, steps) && Good(states[0]) && k <= |steps| && u in states[0].byUrl
    ensures Survives(states, k, u) <==> forall j | 0 <= j < k && steps[j].Reconcile? :: u in steps[j].desired
    ensures !Survives(states, k, u) ==>
              && states[0].byUrl[u] !in states[k].workers
              && forall h :: !Holds(states[k].index, states[0].byUrl[u], h)
    ensures states[0].byUrl[u] < states[k].nextId
    decreases k
  {
    GoodAlways(states, steps, k);
    if k > 0 {
      SurvivesIff(states, steps, k - 1, u);
      GoodAlways(states, steps, k - 1);
      assert Taken(states[k - 1], steps[k - 1], states[k - 1 + 1]);
      OneStepOn(states[k - 1], steps[k - 1], states[k], u, states[0].byUrl[u]);
    }
  }

  lemma OneStepOn(s: System, step: Step, s': System, u: string, id: WorkerId)
    requires Taken(s, step, s') && Good(s) && Good(s') && id < s.nextId
    requires !(u in s.byUrl && s.byUrl[u] == id) ==> id !in s.workers
    ensures id < s'.nextId
    ensures u in s'.byUrl && s'.byUrl[u] == id
            <==> u in s.byUrl && s.byUrl[u] == id && (step.Reconcile? ==> u in step.desired)
    ensures !(u in s'.byUrl && s'.byUrl[u] == id) ==> id !in s'.workers && forall h :: !Holds(s'.index, id, h)
  {
    if u in s.byUrl && s.byUrl[u] == id {
      if step.Reconcile? {
        ReconciledIds(s, step);
        ReconciledWorkers(s, step);
        assert u !in step.desired ==> id in GoneIds(s.byUrl, step.desired);
      }
    } else {
      OldIdStaysOut(s, step, id);
    }
    assert forall h :: Holds(s'.index, id, h) ==> IsHealthy(s'.workers, id);
  }

  /** Why the steps must be atomic: selection reads the healthy workers before it records. Recording a
    * prompt keeps the invariant exactly when its worker is still registered and healthy at that moment.
    */
  lemma LateRecordBreaksCredit(s: System, w: WorkerId, chain: seq<Hash>, now: nat)
    requires Good(s) && chain != []
    ensures CreditedAreHealthy(s.(index := Record(s.index, w, chain, now))) <==> IsHealthy(s.workers, w)
  {
    RecordAt(s.index, w, chain, now);
    var s' := s.(index := Record(s.index, w, chain, now));
    assert chain[0] in chain;
    assert Holds(s'.index, w, chain[0]);
    forall v, h | Holds(s'.index, v, h) && v != w ensures IsHealthy(s.workers, v) {
      assert Holds(s.index, v, h);
    }
  }
}
