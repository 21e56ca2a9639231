/** Cache-aware selection: the candidate order, what winning means, and what follows from it over runs. */
module Selection {
  import opened Wrappers
  import opened Hashing
  import opened FlatIndex
  import Inflight

  datatype Ordering = Less | Equal | Greater

  datatype Candidate = Candidate(score: real, inFlight: nat, id: WorkerId)

  function CompareNat(a: nat, b: nat): Ordering {
    if a < b then Less else if a == b then Equal else Greater
  }

  /** Higher score, then fewer in flight, then lower id. */
  function Compare(a: Candidate, b: Candidate): Ordering {
    if a.score < b.score then Less
    else if a.score > b.score then Greater
    else if CompareNat(b.inFlight, a.inFlight) != Equal then CompareNat(b.inFlight, a.inFlight)
    else CompareNat(b.id, a.id)
  }

  /** `Compare` is a strict total order: only a candidate itself is its equal. */
  lemma CompareIsTotalOrder(a: Candidate, b: Candidate, c: Candidate)
    ensures Compare(a, b) == Equal <==> a == b
    ensures Compare(a, b) == Greater <==> Compare(b, a) == Less
    ensures Compare(a, b) == Greater && Compare(b, c) == Greater ==> Compare(a, c) == Greater
  {
  }

  /** A score as the hardware has it; `None` compares equal to everything. */
  type LooseScore = Option<real>

  function LooseCompare(a: LooseScore, inFlightA: nat, idA: WorkerId, b: LooseScore, inFlightB: nat, idB: WorkerId): Ordering {
    if a.Some? && b.Some? then Compare(Candidate(a.value, inFlightA, idA), Candidate(b.value, inFlightB, idB))
    else Compare(Candidate(0.0, inFlightA, idA), Candidate(0.0, inFlightB, idB))
  }

  /** Finite scores are what makes the order an order: between two candidates of which the busier scores more,
    * one without a score and a load in between closes a cycle.
    */
  lemma NoScoreNoOrder(low: real, high: real, a: WorkerId, b: WorkerId, c: WorkerId, load: nat)
    requires low < high
    ensures LooseCompare(Some(low), load, a, None, load + 1, b) == Greater
    ensures LooseCompare(None, load + 1, b, Some(high), load + 2, c) == Greater
    ensures LooseCompare(Some(high), load + 2, c, Some(low), load, a) == Greater
  {
  }

  /** The knobs of the score. */
  datatype Weights = Weights(cache: real, load: real)

  function Score(weights: Weights, matched: nat, inFlight: nat): real {
    matched as real * weights.cache - inFlight as real * weights.load
  }

  function CandidateOf(m: Flat, counts: seq<Inflight.Counter>, weights: Weights, chain: seq<Hash>, id: WorkerId): Candidate {
    var inFlight := Inflight.CountOf(counts, id);
    Candidate(Score(weights, Walk(m, id, chain), inFlight), inFlight, id)
  }

  /** `w` is a candidate and beats every other one, all judged on the same index and counts. */
  ghost predicate Wins(m: Flat, counts: seq<Inflight.Counter>, weights: Weights, ids: set<WorkerId>, chain: seq<Hash>, w: WorkerId) {
    && w in ids
    && forall v | v in ids && v != w ::
         Compare(CandidateOf(m, counts, weights, chain, w), CandidateOf(m, counts, weights, chain, v)) == Greater
  }

  /** What a score is: nothing for nothing, the cache weight more for every block matched and the load weight
    * less for every request in flight.
    */
  lemma ScoreLaw(weights: Weights, matched: nat, inFlight: nat)
    ensures Score(weights, 0, 0) == 0.0
    ensures Score(weights, matched + 1, inFlight) == Score(weights, matched, inFlight) + weights.cache
    ensures Score(weights, matched, inFlight + 1) == Score(weights, matched, inFlight) - weights.load
  {
  }

  /** Worker `w`, with `kw` blocks matched and `qw` requests in flight, goes before `v` with `kv` and `qv`: what
    * it has more in cache is worth more than what it has more in load, or worth the same and it is less
    * loaded, or equally loaded and has the lower id.
    */
  predicate Outranks(weights: Weights, kw: nat, qw: nat, w: WorkerId, kv: nat, qv: nat, v: WorkerId) {
    var gain, price := (kw as real - kv as real) * weights.cache, (qw as real - qv as real) * weights.load;
    gain > price || (gain == price && (qw < qv || (qw == qv && w < v)))
  }

  lemma OutranksIff(weights: Weights, kw: nat, qw: nat, w: WorkerId, kv: nat, qv: nat, v: WorkerId)
    ensures Compare(Candidate(Score(weights, kw, qw), qw, w), Candidate(Score(weights, kv, qv), qv, v)) == Greater
            <==> Outranks(weights, kw, qw, w, kv, qv, v)
  {
    ScoreDifference(weights, kw, qw, kv, qv);
  }

  lemma ScoreDifference(weights: Weights, kw: nat, qw: nat, kv: nat, qv: nat)
    ensures Score(weights, kw, qw) - Score(weights, kv, qv)
            == (kw as real - kv as real) * weights.cache - (qw as real - qv as real) * weights.load
  {
  }

  /** Winning in terms of matches, loads and ids: being a candidate that outranks every other. */
  lemma WinsIff(m: Flat, counts: seq<Inflight.Counter>, weights: Weights, ids: set<WorkerId>, chain: seq<Hash>, w: WorkerId)
    ensures Wins(m, counts, weights, ids, chain, w) <==>
              && w in ids
              && forall v | v in ids && v != w ::
                   Outranks(weights, Walk(m, w, chain), Inflight.CountOf(counts, w), w,
                            Walk(m, v, chain), Inflight.CountOf(counts, v), v)
  {
    forall v ensures
      Compare(CandidateOf(m, counts, weights, chain, w), CandidateOf(m, counts, weights, chain, v)) == Greater
      <==> Outranks(weights, Walk(m, w, chain), Inflight.CountOf(counts, w), w,
                    Walk(m, v, chain), Inflight.CountOf(counts, v), v)
    {
      OutranksIff(weights, Walk(m, w, chain), Inflight.CountOf(counts, w), w,
                  Walk(m, v, chain), Inflight.CountOf(counts, v), v);
    }
  }

  lemma WinnerOutranks(m: Flat, counts: seq<Inflight.Counter>, weights: Weights, ids: set<WorkerId>, chain: seq<Hash>,
                       w: WorkerId, v: WorkerId)
    requires Wins(m, counts, weights, ids, chain, w) && v in ids && v != w
    ensures Outranks(weights, Walk(m, w, chain), Inflight.CountOf(counts, w), w,
                     Walk(m, v, chain), Inflight.CountOf(counts, v), v)
  {
    OutranksIff(weights, Walk(m, w, chain), Inflight.CountOf(counts, w), w,
                Walk(m, v, chain), Inflight.CountOf(counts, v), v);
  }

  lemma WinnerUnique(m: Flat, counts: seq<Inflight.Counter>, weights: Weights, ids: set<WorkerId>, chain: seq<Hash>,
                     v: WorkerId, w: WorkerId)
    requires Wins(m, counts, weights, ids, chain, v) && Wins(m, counts, weights, ids, chain, w)
    ensures v == w
  {
    CompareIsTotalOrder(CandidateOf(m, counts, weights, chain, v), CandidateOf(m, counts, weights, chain, w),
                        CandidateOf(m, counts, weights, chain, w));
  }

  lemma WinnerSeesHoldersOnly(m: Flat, m': Flat, counts: seq<Inflight.Counter>, weights: Weights, ids: set<WorkerId>,
                              chain: seq<Hash>, w: WorkerId)
    requires SameHolders(m, m') && Wins(m, counts, weights, ids, chain, w)
    ensures Wins(m', counts, weights, ids, chain, w)
  {
    forall v ensures Walk(m, v, chain) == Walk(m', v, chain) {
      SameHoldersSameWalk(m, m', v, chain);
    }
  }

  // ---------------------------------------------------------------------------------------------
  // Affinity is stable
  // ---------------------------------------------------------------------------------------------

  /** One cache-aware request: probes touch the index, the winner's chain is recorded. */
  ghost predicate Routes(m: Flat, m': Flat, counts: seq<Inflight.Counter>, weights: Weights, ids: set<WorkerId>,
                         chain: seq<Hash>, w: WorkerId)
  {
    && Wins(m, counts, weights, ids, chain, w)
    && exists probed, now :: SameHolders(m, probed) && m' == Record(probed, w, chain, now)
  }

  /** The winner of a request wins its repeat, now with a full match. */
  lemma WinnerWinsAgain(m: Flat, m': Flat, counts: seq<Inflight.Counter>, weights: Weights, ids: set<WorkerId>,
                        chain: seq<Hash>, w: WorkerId)
    requires weights.cache >= 0.0 && Routes(m, m', counts, weights, ids, chain, w)
    ensures Walk(m', w, chain) == |chain|
    ensures Wins(m', counts, weights, ids, chain, w)
  {
    var probed, now :| SameHolders(m, probed) && m' == Record(probed, w, chain, now);
    WalkAfterRecord(probed, w, chain, now, w, chain);
    SameHoldersSameWalk(m, probed, w, chain);
    MoreMatchedScoresMore(weights, Walk(m, w, chain), |chain|, Inflight.CountOf(counts, w));
    forall v | v in ids && v != w
      ensures Compare(CandidateOf(m', counts, weights, chain, w), CandidateOf(m', counts, weights, chain, v)) == Greater
    {
      WalkAfterRecord(probed, w, chain, now, v, chain);
      SameHoldersSameWalk(m, probed, v, chain);
    }
  }

  lemma MoreMatchedScoresMore(weights: Weights, fewer: nat, more: nat, inFlight: nat)
    requires weights.cache >= 0.0 && fewer <= more
    ensures Score(weights, fewer, inFlight) <= Score(weights, more, inFlight)
  {
    assert (more as real - fewer as real) * weights.cache >= 0.0;
  }

  /** Any number of repeats of one prompt, with health and load unchanged, stay where the first one went
    * and match in full from the second on.
    */
  lemma {:induction false} RepeatsStay(states: seq<Flat>, winners: seq<WorkerId>, counts: seq<Inflight.Counter>,
                                       weights: Weights, ids: set<WorkerId>, chain: seq<Hash>, i: nat)
    requires weights.cache >= 0.0
    requires |states| == |winners| + 1 && i < |winners|
    requires forall j | 0 <= j < |winners| :: Routes(states[j], states[j + 1], counts, weights, ids, chain, winners[j])
    ensures winners[i] == winners[0]
    ensures i > 0 ==> Walk(states[i], winners[0], chain) == |chain|
    ensures Wins(states[i], counts, weights, ids, chain, winners[0])
    decreases i
  {
    assert Routes(states[i], states[i + 1], counts, weights, ids, chain, winners[i]);
    if i > 0 {
      assert Routes(states[i - 1], states[i - 1 + 1], counts, weights, ids, chain, winners[i - 1]);
      RepeatsStay(states, winners, counts, weights, ids, chain, i - 1);
      WinnerWinsAgain(states[i - 1], states[i], counts, weights, ids, chain, winners[i - 1]);
      WinnerUnique(states[i], counts, weights, ids, chain, winners[i], winners[0]);
    }
  }

  /** The sign condition is exact: configuration does not forbid a negative cache weight, and with one
    * the second request of two idle workers already moves.
    */
  lemma StickyIffNonNegative(weights: Weights, h: Hash, now: nat)
    ensures Wins(map[], [], weights, {0, 1}, [h], 0)
    ensures Wins(Record(map[], 0, [h], now), [], weights, {0, 1}, [h], 0) <==> weights.cache >= 0.0
  {
    var m := Record(map[], 0, [h], now);
    WalkAfterRecord(map[], 0, [h], now, 1, [h]);
    assert Walk(map[], 0, [h]) == 0 && Walk(map[], 1, [h]) == 0;
    assert Score(weights, 0, 0) == 0.0 && Score(weights, 1, 0) == weights.cache;
    assert CandidateOf(m, [], weights, [h], 0) == Candidate(weights.cache, 0, 0);
    assert CandidateOf(m, [], weights, [h], 1) == Candidate(0.0, 0, 1);
    assert 1 in {0, 1} && 1 != 0;
  }

  // ---------------------------------------------------------------------------------------------
  // Affinity is bounded
  // ---------------------------------------------------------------------------------------------

  /** The load price of `qa` requests over `qb` is within what `blocks` cached blocks and `extra` more
    * requests are worth.
    */
  predicate Within(weights: Weights, blocks: nat, extra: nat, qa: nat, qb: nat) {
    weights.load * (qa as real - qb as real) <= weights.cache * blocks as real + weights.load * extra as real
  }

  /** How much busier than any other candidate the winner may be. */
  lemma WinnerNotTooBusy(m: Flat, counts: seq<Inflight.Counter>, weights: Weights, ids: set<WorkerId>, chain: seq<Hash>,
                         w: WorkerId, v: WorkerId, blocks: nat)
    requires weights.cache >= 0.0 && |chain| <= blocks
    requires Wins(m, counts, weights, ids, chain, w) && v in ids
    ensures Within(weights, blocks, 0, Inflight.CountOf(counts, w), Inflight.CountOf(counts, v))
  {
    var kw, kv := Walk(m, w, chain), Walk(m, v, chain);
    var qw, qv := Inflight.CountOf(counts, w), Inflight.CountOf(counts, v);
    assert Score(weights, kw, qw) >= Score(weights, kv, qv);
    ScoreGap(weights, kw, qw, kv, qv, blocks);
  }

  lemma ScoreGap(weights: Weights, kw: nat, qw: nat, kv: nat, qv: nat, blocks: nat)
    requires weights.cache >= 0.0 && kw <= blocks
    requires Score(weights, kw, qw) >= Score(weights, kv, qv)
    ensures weights.load * (qw as real - qv as real) <= weights.cache * blocks as real
  {
    assert weights.cache * (kw as real - kv as real) >= weights.load * (qw as real - qv as real);
    assert weights.cache * (blocks as real - (kw as real - kv as real)) >= 0.0;
  }

  /** No releases: every dispatch adds one to its winner's count. */
  ghost predicate Dispatches(counts: seq<seq<Inflight.Counter>>, states: seq<Flat>, chains: seq<seq<Hash>>,
                             winners: seq<WorkerId>, weights: Weights, ids: set<WorkerId>, blocks: nat)
  {
    && |counts| == |winners| + 1 && |states| == |winners| && |chains| == |winners| && |winners| < Inflight.U64
    && (forall v | v in ids :: v < |counts[0]| && counts[0][v] == 0)
    && (forall i | 0 <= i < |winners| ::
          && |chains[i]| <= blocks
          && Wins(states[i], counts[i], weights, ids, chains[i], winners[i])
          && counts[i + 1] == Inflight.Apply(counts[i], Inflight.Acquire(winners[i])))
  }

  lemma {:induction false} CountsStayBelow(counts: seq<seq<Inflight.Counter>>, states: seq<Flat>, chains: seq<seq<Hash>>,
                                           winners: seq<WorkerId>, weights: Weights, ids: set<WorkerId>, blocks: nat, i: nat)
    requires Dispatches(counts, states, chains, winners, weights, ids, blocks) && i <= |winners|
    ensures forall v | v in ids :: v < |counts[i]| && counts[i][v] <= i
    decreases i
  {
    if i > 0 {
      CountsStayBelow(counts, states, chains, winners, weights, ids, blocks, i - 1);
    }
  }

  /** Any two candidates are within what the cache can pay for plus one request. */
  ghost predicate Balanced(counts: seq<Inflight.Counter>, weights: Weights, ids: set<WorkerId>, blocks: nat) {
    forall a, b | a in ids && b in ids :: Within(weights, blocks, 1, Inflight.CountOf(counts, a), Inflight.CountOf(counts, b))
  }

  lemma DispatchKeepsBalanced(m: Flat, counts: seq<Inflight.Counter>, weights: Weights, ids: set<WorkerId>,
                              chain: seq<Hash>, w: WorkerId, blocks: nat)
    requires weights.cache >= 0.0 && weights.load >= 0.0 && |chain| <= blocks
    requires Wins(m, counts, weights, ids, chain, w) && Balanced(counts, weights, ids, blocks)
    requires w < |counts| && counts[w] + 1 < Inflight.U64
    ensures Balanced(Inflight.Apply(counts, Inflight.Acquire(w)), weights, ids, blocks)
  {
    var counts' := Inflight.Apply(counts, Inflight.Acquire(w));
    forall a, b | a in ids && b in ids
      ensures Within(weights, blocks, 1, Inflight.CountOf(counts', a), Inflight.CountOf(counts', b))
    {
      var qa, qb := Inflight.CountOf(counts, a), Inflight.CountOf(counts, b);
      WinnerNotTooBusy(m, counts, weights, ids, chain, w, b, blocks);
      if a == w && b != w {
        OneMoreWithin(weights, blocks, qa, qb);
      } else if b == w && a != w {
        OneFewerWithin(weights, blocks, qa, qb);
      }
    }
  }

  /** From idle and without releases, whatever the prompts and whatever the index says, the load of the
    * candidates never spreads further than that.
    */
  lemma {:induction false} LoadStaysBalanced(counts: seq<seq<Inflight.Counter>>, states: seq<Flat>, chains: seq<seq<Hash>>,
                                             winners: seq<WorkerId>, weights: Weights, ids: set<WorkerId>, blocks: nat, i: nat)
    requires Dispatches(counts, states, chains, winners, weights, ids, blocks)
    requires weights.cache >= 0.0 && weights.load >= 0.0 && i <= |winners|
    ensures Balanced(counts[i], weights, ids, blocks)
    decreases i
  {
    if i == 0 {
      SpreadAtStart(weights, blocks);
    } else {
      CountsStayBelow(counts, states, chains, winners, weights, ids, blocks, i - 1);
      LoadStaysBalanced(counts, states, chains, winners, weights, ids, blocks, i - 1);
      DispatchKeepsBalanced(states[i - 1], counts[i - 1], weights, ids, chains[i - 1], winners[i - 1], blocks);
    }
  }

  /** Balance in plain figures: the load price of the difference between any two candidates is at most what the
    * blocks of a prompt are worth in cache and one request more.
    */
  lemma BalancedIs(counts: seq<Inflight.Counter>, weights: Weights, ids: set<WorkerId>, blocks: nat, a: WorkerId, b: WorkerId)
    requires Balanced(counts, weights, ids, blocks) && a in ids && b in ids
    ensures weights.load * (Inflight.CountOf(counts, a) as real - Inflight.CountOf(counts, b) as real)
            <= weights.cache * blocks as real + weights.load
  {
    assert Within(weights, blocks, 1, Inflight.CountOf(counts, a), Inflight.CountOf(counts, b));
  }

  lemma SpreadAtStart(weights: Weights, blocks: nat)
    requires weights.cache >= 0.0 && weights.load >= 0.0
    ensures Within(weights, blocks, 1, 0, 0)
  {
    assert weights.cache * blocks as real >= 0.0;
  }

  lemma OneMoreWithin(weights: Weights, blocks: nat, qa: nat, qb: nat)
    requires Within(weights, blocks, 0, qa, qb)
    ensures Within(weights, blocks, 1, qa + 1, qb)
  {
    var d := qa as real - qb as real;
    assert weights.load * (d + 1.0) == weights.load * d + weights.load;
  }

  lemma OneFewerWithin(weights: Weights, blocks: nat, qa: nat, qb: nat)
    requires weights.load >= 0.0 && Within(weights, blocks, 1, qa, qb)
    ensures Within(weights, blocks, 1, qa, qb + 1)
  {
    var d := qa as real - qb as real;
    assert weights.load * (d - 1.0) == weights.load * d - weights.load;
  }
}
