/** The request router: candidate filtering, the two policies, and the recording of what it dispatched. */
module Router {
  import opened Wrappers
  import opened Sequences
  import opened Hashing
  import opened FlatIndex
  import opened PrefixIndex
  import opened Workers
  import opened Inflight
  import opened Selection
  import opened Prompts
  import RoundRobin
  import Membership

  datatype Policy = RoundRobinPolicy | CacheAware | Disaggregated

  datatype RouteDecision = RouteDecision(worker: Worker, matchedPrefixLen: nat, promptBlocks: nat, score: real)

  datatype RouterError = NoHealthyWorkers | NoHealthyWorkersInPool(pool: Pool) | DisaggregatedRequiresTwoPhase

  type Routed = Result<RouteDecision, RouterError>

  /** A single request spans both phases, so workers labelled for both are preferred when there are any. */
  ghost function ChatCandidates(r: Registry): set<Worker> {
    var both := PoolCandidates(r, Both);
    if both != {} then both else HealthySet(r)
  }

  ghost function PoolCandidates(r: Registry, pool: Pool): set<Worker> {
    set w | w in HealthySet(r) && w.pool == pool
  }

  /** Who is asked: a healthy worker, and one for both phases unless no healthy worker is. */
  lemma ChatCandidatesIff(r: Registry, w: Worker)
    ensures w in ChatCandidates(r) <==>
              && (exists id :: id in r && r[id] == WorkerState(w, true))
              && (w.pool == Both || forall id | id in r && r[id].healthy :: r[id].worker.pool != Both)
  {
    HealthyIff(r, w);
    if exists id :: id in r && r[id].healthy && r[id].worker.pool == Both {
      var id :| id in r && r[id].healthy && r[id].worker.pool == Both;
      assert r[id].worker in PoolCandidates(r, Both);
    } else {
      assert PoolCandidates(r, Both) == {};
    }
  }

  lemma PoolCandidatesIff(r: Registry, pool: Pool, w: Worker)
    ensures w in PoolCandidates(r, pool) <==> (exists id :: id in r && r[id] == WorkerState(w, true)) && w.pool == pool
  {
    HealthyIff(r, w);
  }

  /** A configured worker, once healthy, is a candidate of the pool it was configured for and of no other. */
  lemma ConfiguredPool(configs: seq<WorkerConfig>, r: Registry, i: WorkerId, pool: Pool)
    requires i < |configs| && i in r && r[i] == Configured(configs)[i].(healthy := true)
    ensures r[i].worker in PoolCandidates(r, pool) <==> configs[i].pool == pool
  {
    var w := r[i].worker;
    assert r[i] == WorkerState(w, true);
    PoolCandidatesIff(r, pool, w);
  }

  /** The worker is registered and healthy under its own id. */
  predicate Up(r: Registry, w: Worker) {
    w.id in r && r[w.id] == WorkerState(w, true)
  }

  predicate AnyUp(r: Registry, pool: Pool) {
    exists id | id in r :: r[id].healthy && r[id].worker.pool == pool
  }

  lemma CandidateIsUp(r: Registry, nextId: nat, w: Worker)
    requires ValidRegistry(r, nextId) && w in HealthySet(r)
    ensures Up(r, w)
  {
    HealthyIff(r, w);
  }

  lemma PoolCandidateIs(r: Registry, nextId: nat, pool: Pool, w: Worker)
    requires ValidRegistry(r, nextId) && w in PoolCandidates(r, pool)
    ensures Up(r, w) && w.pool == pool
  {
    CandidatesAreHealthy(r, pool);
    CandidateIsUp(r, nextId, w);
  }

  lemma ListingEmpty(list: seq<Worker>, s: set<Worker>)
    requires Listing(list, s)
    ensures list == [] <==> s == {}
  {
    if list != [] {
      assert list[0] in s;
    }
  }

  lemma InPool(healthy: seq<Worker>, list: seq<Worker>, r: Registry, pool: Pool)
    requires Listing(healthy, HealthySet(r))
    requires forall w :: w in list <==> w in healthy && w.pool == pool
    requires forall i, j | 0 <= i < j < |list| :: list[i].id < list[j].id
    ensures Listing(list, PoolCandidates(r, pool))
  {
  }

  lemma ChatCandidateIs(r: Registry, nextId: nat, w: Worker)
    requires ValidRegistry(r, nextId) && w in ChatCandidates(r)
    ensures Up(r, w) && (AnyUp(r, Both) ==> w.pool == Both)
  {
    CandidatesAreHealthy(r, Both);
    CandidateIsUp(r, nextId, w);
    ChatCandidatesIff(r, w);
  }

  ghost function Ids(workers: set<Worker>): set<WorkerId> {
    set w | w in workers :: w.id
  }

  /** A cache-aware dispatch: the strict maximum on the index as it was before scoring began wins, and
    * only its chain is recorded.
    */
  ghost predicate CacheAwareDispatch(m: Flat, m': Flat, counts: seq<Counter>, weights: Weights,
                                     candidates: set<Worker>, chain: seq<Hash>, d: RouteDecision)
  {
    && d.worker in candidates
    && ProbedThenRecorded(m, m', candidates, chain, d.worker.id)
    && Routes(m, m', counts, weights, Ids(candidates), chain, d.worker.id)
    && d.matchedPrefixLen == Walk(m, d.worker.id, chain)
    && d.promptBlocks == |chain|
    && d.score == Score(weights, d.matchedPrefixLen, CountOf(counts, d.worker.id))
  }

  /** The index after the first `n` of the candidates have been scored, each match touching as it goes. */
  function Probed(m: Flat, candidates: seq<Worker>, chain: seq<Hash>, clock: nat -> nat, n: nat): Flat
    requires n <= |candidates|
  {
    if n == 0 then m
    else Match(Probed(m, candidates, chain, clock, n - 1), candidates[n - 1].id, chain, clock(n - 1))
  }

  /** All candidates are scored in the order of their ids, and then the chosen one's chain is recorded. */
  ghost predicate ProbedThenRecorded(m: Flat, m': Flat, candidates: set<Worker>, chain: seq<Hash>, w: WorkerId) {
    exists list: seq<Worker>, clock: nat -> nat ::
      && Listing(list, candidates)
      && m' == FlatIndex.Record(Probed(m, list, chain, clock, |list|), w, chain, clock(|list|))
  }

  /** The block is in what the `k`-th candidate matches. */
  predicate Covers(m: Flat, candidates: seq<Worker>, chain: seq<Hash>, k: nat, h: Hash)
    requires k < |candidates|
  {
    h in chain[..Walk(m, candidates[k].id, chain)]
  }

  /** Of the first `n` candidates the `k`-th is the last whose match the block is in. */
  predicate LastCover(m: Flat, candidates: seq<Worker>, chain: seq<Hash>, k: nat, n: nat, h: Hash)
    requires n <= |candidates|
  {
    k < n && Covers(m, candidates, chain, k, h) && forall j | k < j < n :: !Covers(m, candidates, chain, j, h)
  }

  predicate Uncovered(m: Flat, candidates: seq<Worker>, chain: seq<Hash>, n: nat, h: Hash)
    requires n <= |candidates|
  {
    forall j | 0 <= j < n :: !Covers(m, candidates, chain, j, h)
  }

  /** What scoring leaves behind: holders as they were, and on every block that some candidate matches the time
    * at which the last such candidate was scored; other blocks are as they were.
    */
  lemma {:induction false} ProbedAt(m: Flat, candidates: seq<Worker>, chain: seq<Hash>, clock: nat -> nat, n: nat, h: Hash)
    requires n <= |candidates|
    ensures var r := Probed(m, candidates, chain, clock, n);
            && SameHolders(m, r)
            && (h in m && Uncovered(m, candidates, chain, n, h) ==> r[h] == m[h])
            && (forall k: nat | LastCover(m, candidates, chain, k, n, h) :: h in r && r[h].touched == clock(k))
    decreases n
  {
    if n > 0 {
      ProbedAt(m, candidates, chain, clock, n - 1, h);
      OneProbe(m, Probed(m, candidates, chain, clock, n - 1), candidates[n - 1].id, chain, clock(n - 1), h);
      assert Uncovered(m, candidates, chain, n, h) ==>
        Uncovered(m, candidates, chain, n - 1, h) && !Covers(m, candidates, chain, n - 1, h);
      forall k: nat | LastCover(m, candidates, chain, k, n, h)
        ensures k == n - 1 || (LastCover(m, candidates, chain, k, n - 1, h) && !Covers(m, candidates, chain, n - 1, h))
      {
      }
    }
  }

  lemma OneProbe(m: Flat, before: Flat, w: WorkerId, chain: seq<Hash>, now: nat, h: Hash)
    requires SameHolders(m, before)
    ensures var after := Match(before, w, chain, now);
            && SameHolders(m, after)
            && (h in chain[..Walk(m, w, chain)] ==> h in after && after[h].touched == now)
            && (h in m && h !in chain[..Walk(m, w, chain)] ==> after[h] == before[h])
  {
    SameHoldersSameWalk(m, before, w, chain);
    TouchAt(before, chain[..Walk(m, w, chain)], now);
    WalkIsLargest(m, w, chain, Walk(m, w, chain));
  }

  /** A round-robin dispatch of the `c`-th decision. */
  ghost predicate RoundRobinDispatch(m: Flat, m': Flat, c: nat, candidates: set<Worker>, chain: seq<Hash>, d: RouteDecision)
  {
    && (exists list, now, later ::
          && Listing(list, candidates) && list != []
          && d.worker == list[RoundRobin.Pick(c, U64, |list|)]
          && m' == FlatIndex.Record(Match(m, d.worker.id, chain, now), d.worker.id, chain, later))
    && d.matchedPrefixLen == Walk(m, d.worker.id, chain)
    && d.promptBlocks == |chain|
    && d.score == 0.0
  }

  datatype Scored = Scored(worker: Worker, matched: nat, candidate: Candidate)

  class Router {
    const registry: WorkerRegistry
    const index: PrefixIndex
    const inflight: InflightTracker
    const policy: Policy
    const blockSize: nat
    const weights: Weights
    var nextWorker: Counter

    ghost predicate Valid()
      reads this, registry, index, index.shards
    {
      registry.Valid() && index.Valid()
    }

    constructor (registry: WorkerRegistry, policy: Policy, workers: nat, promptBlockChars: nat, weights: Weights)
      requires registry.Valid()
      ensures Valid() && index.flat == map[] && inflight.counts == Zeros(workers) && nextWorker == 0
      ensures this.registry == registry && this.policy == policy && this.weights == weights
      ensures blockSize == if promptBlockChars == 0 then 1 else promptBlockChars
      ensures fresh(index) && fresh(index.shards) && fresh(inflight) && index.shards.Length == 64
    {
      this.registry := registry;
      this.policy := policy;
      this.blockSize := Clamp(promptBlockChars);
      this.weights := weights;
      this.nextWorker := 0;
      this.index := new PrefixIndex(NUM_SHARDS);
      this.inflight := new InflightTracker.WithCapacity(workers);
    }

    /** `clock` gives the successive readings of the clock. */
    method SelectForChat(hash: Hasher, messages: seq<Message>, clock: nat -> nat) returns (result: Routed)
      requires Valid()
      modifies this`nextWorker, index, index.shards
      ensures Valid()
      ensures result.Err? ==> index.flat == old(index.flat) && nextWorker == old(nextWorker)
      ensures result == Err(NoHealthyWorkers) <==> HealthySet(registry.workers) == {}
      ensures result == Err(DisaggregatedRequiresTwoPhase) <==> HealthySet(registry.workers) != {} && policy == Disaggregated
      ensures result.Err? ==> result.error in {NoHealthyWorkers, DisaggregatedRequiresTwoPhase}
      ensures result.Ok? ==> Up(registry.workers, result.value.worker)
      ensures result.Ok? && AnyUp(registry.workers, Both) ==> result.value.worker.pool == Both
      ensures var chain := Chain(hash, Canonical(messages), blockSize);
              result.Ok? && policy == CacheAware ==>
                && CacheAwareDispatch(old(index.flat), index.flat, inflight.counts, weights, ChatCandidates(registry.workers), chain, result.value)
                && nextWorker == old(nextWorker)
      ensures var chain := Chain(hash, Canonical(messages), blockSize);
              result.Ok? && policy == RoundRobinPolicy ==>
                && RoundRobinDispatch(old(index.flat), index.flat, old(nextWorker), ChatCandidates(registry.workers), chain, result.value)
                && nextWorker == Inc(old(nextWorker))
    {
      var prompt := CanonicalPrompt(messages);
      var chain := ChainHash(hash, prompt, blockSize);
      var healthy := registry.HealthyWorkers();
      ListingEmpty(healthy, HealthySet(registry.workers));
      if |healthy| == 0 {
        return Err(NoHealthyWorkers);
      }
      var candidates := PreferBoth(healthy);
      match policy
      case RoundRobinPolicy =>
        var decision := DispatchRoundRobin(candidates, chain, clock);
        ChatCandidateIs(registry.workers, registry.nextId, decision.worker);
        result := Ok(decision);
      case CacheAware =>
        var decision := DispatchCacheAware(candidates, chain, clock, ChatCandidates(registry.workers));
        ChatCandidateIs(registry.workers, registry.nextId, decision.worker);
        result := Ok(decision);
      case Disaggregated =>
        result := Err(DisaggregatedRequiresTwoPhase);
    }

    /** One phase of the disaggregated flow; always cache-aware. */
    method SelectInPool(pool: Pool, chain: seq<Hash>, clock: nat -> nat) returns (result: Routed)
      requires Valid()
      modifies index, index.shards
      ensures Valid()
      ensures result.Err? <==> PoolCandidates(registry.workers, pool) == {}
      ensures result.Ok? ==> Up(registry.workers, result.value.worker) && result.value.worker.pool == pool
      ensures result.Err? ==> result.error == NoHealthyWorkersInPool(pool) && index.flat == old(index.flat)
      ensures result.Ok? ==>
                CacheAwareDispatch(old(index.flat), index.flat, inflight.counts, weights, PoolCandidates(registry.workers, pool), chain, result.value)
    {
      var healthy := registry.HealthyWorkers();
      var candidates := FilterPool(healthy, pool);
      InPool(healthy, candidates, registry.workers, pool);
      ListingEmpty(candidates, PoolCandidates(registry.workers, pool));
      if |candidates| == 0 {
        return Err(NoHealthyWorkersInPool(pool));
      }
      var decision := DispatchCacheAware(candidates, chain, clock, PoolCandidates(registry.workers, pool));
      PoolCandidateIs(registry.workers, registry.nextId, pool, decision.worker);
      result := Ok(decision);
    }

    method PreferBoth(healthy: seq<Worker>) returns (candidates: seq<Worker>)
      requires healthy != [] && Listing(healthy, HealthySet(registry.workers))
      ensures candidates != [] && Listing(candidates, ChatCandidates(registry.workers))
    {
      candidates := FilterPool(healthy, Both);
      assert forall w :: w in candidates <==> w in PoolCandidates(registry.workers, Both);
      if |candidates| == 0 {
        candidates := healthy;
      } else {
        assert candidates[0] in PoolCandidates(registry.workers, Both);
      }
    }

    method DispatchRoundRobin(candidates: seq<Worker>, chain: seq<Hash>, clock: nat -> nat) returns (d: RouteDecision)
      requires Valid() && candidates != [] && Listing(candidates, ChatCandidates(registry.workers))
      modifies this`nextWorker, index, index.shards
      ensures Valid()
      ensures RoundRobinDispatch(old(index.flat), index.flat, old(nextWorker), ChatCandidates(registry.workers), chain, d)
      ensures nextWorker == Inc(old(nextWorker))
    {
      var position := nextWorker % |candidates|;
      DivUnique(nextWorker, U64, 0, nextWorker);
      nextWorker := Inc(nextWorker);
      var worker := candidates[position];
      var matched := index.LongestMatch(worker.id, chain, clock(0));
      index.Record(worker.id, chain, clock(1));
      d := RouteDecision(worker, matched, |chain|, 0.0);
    }

    method DispatchCacheAware(candidates: seq<Worker>, chain: seq<Hash>, clock: nat -> nat, ghost among: set<Worker>)
      returns (d: RouteDecision)
      requires Valid() && candidates != [] && Listing(candidates, among)
      modifies index, index.shards
      ensures Valid()
      ensures CacheAwareDispatch(old(index.flat), index.flat, inflight.counts, weights, among, chain, d)
    {
      ghost var m := index.flat;
      var best := PickBest(candidates, chain, clock);
      ghost var probed := index.flat;
      index.Record(best.worker.id, chain, clock(|candidates|));
      d := RouteDecision(best.worker, best.matched, |chain|, best.candidate.score);
      assert Ids((set w | w in candidates)) == Ids(among);
      assert SameHolders(m, probed) && index.flat == FlatIndex.Record(probed, best.worker.id, chain, clock(|candidates|));
      assert ProbedThenRecorded(m, index.flat, among, chain, best.worker.id);
    }

    /** Scores every candidate, touching the index as it goes, and keeps the greatest. */
    method PickBest(candidates: seq<Worker>, chain: seq<Hash>, clock: nat -> nat) returns (best: Scored)
      requires Valid() && candidates != []
      requires forall i, j | 0 <= i < j < |candidates| :: candidates[i].id < candidates[j].id
      modifies index, index.shards
      ensures Valid()
      ensures SameHolders(old(index.flat), index.flat)
      ensures index.flat == Probed(old(index.flat), candidates, chain, clock, |candidates|)
      ensures best.worker in candidates
      ensures best.matched == Walk(old(index.flat), best.worker.id, chain)
      ensures best.candidate == CandidateOf(old(index.flat), inflight.counts, weights, chain, best.worker.id)
      ensures Wins(old(index.flat), inflight.counts, weights, Ids((set w | w in candidates)), chain, best.worker.id)
    {
      ghost var m := index.flat;
      best := ScoreWorker(candidates[0], chain, clock(0));
      assert index.flat == Match(Probed(m, candidates, chain, clock, 0), candidates[0].id, chain, clock(0));
      for i := 1 to |candidates|
        invariant Valid() && SameHolders(m, index.flat)
        invariant index.flat == Probed(m, candidates, chain, clock, i)
        invariant Leads(m, candidates, chain, i, best)
      {
        SameHoldersSameWalk(m, index.flat, candidates[i].id, chain);
        var next := ScoreWorker(candidates[i], chain, clock(i));
        KeepGreatest(m, candidates, chain, i, best, next);
        if Compare(best.candidate, next.candidate) != Greater {
          best := next;
        }
      }
      LeaderWins(m, candidates, chain, best);
    }

    /** `best` beats every other one of the first `n` candidates. */
    ghost predicate Leads(m: Flat, candidates: seq<Worker>, chain: seq<Hash>, n: nat, best: Scored)
      requires n <= |candidates|
      reads inflight
    {
      && best.worker in candidates[..n]
      && best == ScoredOf(m, chain, best.worker)
      && forall k | 0 <= k < n && candidates[k] != best.worker ::
           Compare(best.candidate, ScoredOf(m, chain, candidates[k]).candidate) == Greater
    }

    ghost function ScoredOf(m: Flat, chain: seq<Hash>, worker: Worker): Scored
      reads inflight
    {
      Scored(worker, Walk(m, worker.id, chain), CandidateOf(m, inflight.counts, weights, chain, worker.id))
    }

    method ScoreWorker(worker: Worker, chain: seq<Hash>, now: nat) returns (s: Scored)
      requires Valid()
      modifies index, index.shards
      ensures Valid() && SameHolders(old(index.flat), index.flat)
      ensures index.flat == Match(old(index.flat), worker.id, chain, now)
      ensures s == ScoredOf(old(index.flat), chain, worker)
    {
      ghost var m := index.flat;
      var matched := index.LongestMatch(worker.id, chain, now);
      TouchAt(m, chain[..Walk(m, worker.id, chain)], now);
      var count := inflight.Count(worker.id);
      s := Scored(worker, matched, Candidate(Score(weights, matched, count), count, worker.id));
    }

    lemma KeepGreatest(m: Flat, candidates: seq<Worker>, chain: seq<Hash>, i: nat, best: Scored, next: Scored)
      requires 1 <= i < |candidates|
      requires forall i, j | 0 <= i < j < |candidates| :: candidates[i].id < candidates[j].id
      requires Leads(m, candidates, chain, i, best) && next == ScoredOf(m, chain, candidates[i])
      ensures Leads(m, candidates, chain, i + 1, if Compare(best.candidate, next.candidate) != Greater then next else best)
    {
      assert candidates[..i + 1] == candidates[..i] + [candidates[i]];
      CompareIsTotalOrder(next.candidate, best.candidate, best.candidate);
      forall k | 0 <= k < i {
        CompareIsTotalOrder(next.candidate, best.candidate, ScoredOf(m, chain, candidates[k]).candidate);
      }
    }

    lemma LeaderWins(m: Flat, candidates: seq<Worker>, chain: seq<Hash>, best: Scored)
      requires Leads(m, candidates, chain, |candidates|, best)
      ensures best.worker in candidates
      ensures Wins(m, inflight.counts, weights, Ids((set w | w in candidates)), chain, best.worker.id)
    {
      forall v | v in Ids((set w | w in candidates)) && v != best.worker.id
        ensures Compare(best.candidate, CandidateOf(m, inflight.counts, weights, chain, v)) == Greater
      {
        var k :| 0 <= k < |candidates| && candidates[k].id == v;
      }
    }
  }

  method FilterPool(workers: seq<Worker>, pool: Pool) returns (r: seq<Worker>)
    requires forall i, j | 0 <= i < j < |workers| :: workers[i].id < workers[j].id
    ensures forall w :: w in r <==> w in workers && w.pool == pool
    ensures forall i, j | 0 <= i < j < |r| :: r[i].id < r[j].id
  {
    r := [];
    for i := 0 to |workers|
      invariant forall w :: w in r <==> w in workers[..i] && w.pool == pool
      invariant forall a, b | 0 <= a < b < |r| :: r[a].id < r[b].id
    {
      assert workers[..i + 1] == workers[..i] + [workers[i]];
      assert forall a | 0 <= a < |r| :: r[a] in r;
      if workers[i].pool == pool {
        r := r + [workers[i]];
      }
    }
    assert workers[..|workers|] == workers;
  }

  // ---------------------------------------------------------------------------------------------
  // Dispatches as membership steps
  // ---------------------------------------------------------------------------------------------

  /** The dispatch is one selection step of a membership run. */
  ghost predicate IsSelection(s: Membership.System, m': Flat, chain: seq<Hash>, d: RouteDecision) {
    exists probed, now ::
      Membership.Taken(s, Membership.Select(d.worker.id, chain, probed, now), s.(index := m'))
  }

  /** Candidates come from the healthy workers, so whatever runs of the membership steps keep, routing keeps. */
  lemma CacheAwareIsSelection(s: Membership.System, m': Flat, counts: seq<Counter>, weights: Weights,
                              candidates: set<Worker>, chain: seq<Hash>, d: RouteDecision)
    requires ValidRegistry(s.workers, s.nextId) && candidates <= HealthySet(s.workers)
    requires CacheAwareDispatch(s.index, m', counts, weights, candidates, chain, d)
    ensures IsSelection(s, m', chain, d)
  {
    var probed, now :| SameHolders(s.index, probed) && m' == FlatIndex.Record(probed, d.worker.id, chain, now);
    HealthyById(s.workers, s.nextId, d.worker);
    SelectionTaken(s, d.worker.id, chain, probed, now);
  }

  lemma HealthyById(r: Registry, nextId: nat, w: Worker)
    requires ValidRegistry(r, nextId) && w in HealthySet(r)
    ensures IsHealthy(r, w.id)
  {
  }

  lemma SelectionTaken(s: Membership.System, w: WorkerId, chain: seq<Hash>, probed: Flat, now: nat)
    requires IsHealthy(s.workers, w) && SameHolders(s.index, probed)
    ensures Membership.Taken(s, Membership.Select(w, chain, probed, now), s.(index := FlatIndex.Record(probed, w, chain, now)))
  {
  }

  /** Who is chosen, in plain figures: no other candidate has more to offer, by what it matches and what it is
    * busy with, and ties go to the less busy and then to the lower id.
    */
  lemma ChosenOutranks(m: Flat, m': Flat, counts: seq<Counter>, weights: Weights, candidates: set<Worker>,
                       chain: seq<Hash>, d: RouteDecision, other: Worker)
    requires CacheAwareDispatch(m, m', counts, weights, candidates, chain, d)
    requires other in candidates && other.id != d.worker.id
    ensures Outranks(weights, d.matchedPrefixLen, CountOf(counts, d.worker.id), d.worker.id,
                     Walk(m, other.id, chain), CountOf(counts, other.id), other.id)
  {
    assert other.id in Ids(candidates);
    WinnerOutranks(m, counts, weights, Ids(candidates), chain, d.worker.id, other.id);
  }

  lemma RoundRobinIsSelection(s: Membership.System, m': Flat, c: nat, candidates: set<Worker>, chain: seq<Hash>, d: RouteDecision)
    requires ValidRegistry(s.workers, s.nextId) && candidates <= HealthySet(s.workers)
    requires RoundRobinDispatch(s.index, m', c, candidates, chain, d)
    ensures IsSelection(s, m', chain, d)
  {
    var list, now, later :|
      && Listing(list, candidates) && list != []
      && d.worker == list[RoundRobin.Pick(c, U64, |list|)]
      && m' == FlatIndex.Record(Match(s.index, d.worker.id, chain, now), d.worker.id, chain, later);
    var probed := Match(s.index, d.worker.id, chain, now);
    TouchAt(s.index, chain[..Walk(s.index, d.worker.id, chain)], now);
    assert d.worker in list;
    HealthyById(s.workers, s.nextId, d.worker);
    SelectionTaken(s, d.worker.id, chain, probed, later);
  }

  lemma CandidatesAreHealthy(r: Registry, pool: Pool)
    ensures ChatCandidates(r) <= HealthySet(r) && PoolCandidates(r, pool) <= HealthySet(r)
  {
  }

  // ---------------------------------------------------------------------------------------------
  // Round robin over runs
  // ---------------------------------------------------------------------------------------------

  /** Consecutive round-robin decisions among the same candidates, whatever they are asked. */
  ghost predicate RoundRobinRun(indexes: seq<Flat>, nexts: seq<Counter>, chains: seq<seq<Hash>>,
                                decisions: seq<RouteDecision>, candidates: set<Worker>)
  {
    && |indexes| == |nexts| == |decisions| + 1 && |chains| == |decisions|
    && forall k | 0 <= k < |decisions| :: DecidedAt(indexes, nexts, chains, decisions, candidates, k)
  }

  ghost predicate DecidedAt(indexes: seq<Flat>, nexts: seq<Counter>, chains: seq<seq<Hash>>,
                            decisions: seq<RouteDecision>, candidates: set<Worker>, k: nat)
    requires k < |decisions| == |chains| && |indexes| == |nexts| == |decisions| + 1
  {
    Decided(indexes[k], indexes[k + 1], nexts[k], nexts[k + 1], chains[k], decisions[k], candidates)
  }

  ghost predicate Decided(m: Flat, m': Flat, next: Counter, next': Counter, chain: seq<Hash>, d: RouteDecision,
                          candidates: set<Worker>)
  {
    RoundRobinDispatch(m, m', next, candidates, chain, d) && next' == Inc(next)
  }

  function Given(decisions: seq<RouteDecision>, w: Worker): nat {
    if decisions == [] then 0
    else Given(decisions[..|decisions| - 1], w) + if decisions[|decisions| - 1].worker == w then 1 else 0
  }

  lemma {:induction false} CounterReads(indexes: seq<Flat>, nexts: seq<Counter>, chains: seq<seq<Hash>>,
                                        decisions: seq<RouteDecision>, candidates: set<Worker>, n: nat)
    requires RoundRobinRun(indexes, nexts, chains, decisions, candidates) && n <= |decisions|
    ensures nexts[n] == (nexts[0] + n) % U64
    decreases n
  {
    if n == 0 {
      DivUnique(nexts[0], U64, 0, nexts[0]);
    } else {
      CounterReads(indexes, nexts, chains, decisions, candidates, n - 1);
      assert DecidedAt(indexes, nexts, chains, decisions, candidates, n - 1);
      NextPick(nexts[0] + n - 1, 1);
    }
  }

  lemma PickedAt(indexes: seq<Flat>, nexts: seq<Counter>, chains: seq<seq<Hash>>, decisions: seq<RouteDecision>,
                 candidates: set<Worker>, list: seq<Worker>, k: nat, i: nat)
    requires RoundRobinRun(indexes, nexts, chains, decisions, candidates) && k < |decisions|
    requires Listing(list, candidates) && i < |list|
    ensures decisions[k].worker == list[i] <==> RoundRobin.Pick(nexts[0] + k, U64, |list|) == i
  {
    CounterReads(indexes, nexts, chains, decisions, candidates, k);
    assert DecidedAt(indexes, nexts, chains, decisions, candidates, k);
    NextPick(nexts[0] + k, |list|);
    PickedFrom(indexes[k], indexes[k + 1], nexts[k], chains[k], decisions[k], candidates, list);
  }

  /** What a worker is given is how often its position is hit. */
  lemma {:induction false} GivenIsHits(indexes: seq<Flat>, nexts: seq<Counter>, chains: seq<seq<Hash>>,
                                       decisions: seq<RouteDecision>, candidates: set<Worker>, list: seq<Worker>, n: nat, i: nat)
    requires RoundRobinRun(indexes, nexts, chains, decisions, candidates) && n <= |decisions|
    requires Listing(list, candidates) && i < |list|
    ensures Given(decisions[..n], list[i]) == RoundRobin.Hits(nexts[0], n, U64, |list|, i)
    decreases n
  {
    if n > 0 {
      GivenIsHits(indexes, nexts, chains, decisions, candidates, list, n - 1, i);
      PickedAt(indexes, nexts, chains, decisions, candidates, list, n - 1, i);
      assert decisions[..n][..n - 1] == decisions[..n - 1];
      assert nexts[0] + (n - 1) == nexts[0] + n - 1;
    }
  }

  /** The counter after `c` increments from zero, and the position it picks. */
  lemma NextPick(c: nat, n: nat)
    requires n >= 1
    ensures Inc(c % U64) == (c + 1) % U64
    ensures RoundRobin.Pick(c % U64, U64, n) == RoundRobin.Pick(c, U64, n)
  {
    var q, r := c / U64, c % U64;
    assert c == q * U64 + r;
    DivUnique(r, U64, 0, r);
    if r == U64 - 1 {
      DivUnique(c + 1, U64, q + 1, 0);
    } else {
      DivUnique(c + 1, U64, q, r + 1);
    }
  }

  lemma PickedFrom(m: Flat, m': Flat, next: Counter, chain: seq<Hash>, d: RouteDecision, candidates: set<Worker>, list: seq<Worker>)
    requires RoundRobinDispatch(m, m', next, candidates, chain, d) && Listing(list, candidates) && list != []
    ensures d.worker == list[RoundRobin.Pick(next, U64, |list|)]
    ensures forall i | 0 <= i < |list| :: d.worker == list[i] <==> i == RoundRobin.Pick(next, U64, |list|)
  {
    var other, now, later :|
      && Listing(other, candidates) && other != []
      && d.worker == other[RoundRobin.Pick(next, U64, |other|)]
      && m' == FlatIndex.Record(Match(m, d.worker.id, chain, now), d.worker.id, chain, later);
    ListingUnique(other, list, candidates);
  }

  /** Strictly cyclic: as long as the counter does not wrap, as many consecutive decisions as there are
    * candidates give each exactly one request, and over any number of decisions no two candidates are
    * given numbers more than one apart.
    */
  lemma RoundRobinIsFair(indexes: seq<Flat>, nexts: seq<Counter>, chains: seq<seq<Hash>>,
                         decisions: seq<RouteDecision>, candidates: set<Worker>, v: Worker, w: Worker)
    requires RoundRobinRun(indexes, nexts, chains, decisions, candidates) && v in candidates && w in candidates
    requires nexts[0] + |decisions| <= U64
    ensures |decisions| == |candidates| ==> Given(decisions, w) == 1
    ensures Given(decisions, v) <= Given(decisions, w) + 1
  {
    if decisions != [] {
      assert DecidedAt(indexes, nexts, chains, decisions, candidates, 0);
      var list, now, later :|
        && Listing(list, candidates) && list != []
        && decisions[0].worker == list[RoundRobin.Pick(nexts[0], U64, |list|)]
        && indexes[1] == FlatIndex.Record(Match(indexes[0], decisions[0].worker.id, chains[0], now), decisions[0].worker.id, chains[0], later);
      assert v in list && w in list;
      var i :| 0 <= i < |list| && list[i] == v;
      var j :| 0 <= j < |list| && list[j] == w;
      ListingSize(list, candidates);
      DivUnique(nexts[0], U64, 0, nexts[0]);
      GivenIsHits(indexes, nexts, chains, decisions, candidates, list, |decisions|, i);
      GivenIsHits(indexes, nexts, chains, decisions, candidates, list, |decisions|, j);
      assert decisions[..|decisions|] == decisions;
      RoundRobin.SharesWithinOne(nexts[0], |decisions|, U64, |list|, i);
      RoundRobin.SharesWithinOne(nexts[0], |decisions|, U64, |list|, j);
      if |decisions| == |list| {
        RoundRobin.RoundHitsOnce(nexts[0], U64, |list|, j);
      }
    }
  }

  lemma ListingSize(list: seq<Worker>, s: set<Worker>)
    requires Listing(list, s)
    ensures |list| == |s|
  {
    DistinctSize(list);
    assert (set w | w in list) == s;
  }
}
