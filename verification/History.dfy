/** Sequential runs of the prefix index: what it says against the plain list of everything sent.
  *
  * A run is a list of operations, each with the clock reading it took; an eviction also carries the
  * LRU victims it happened to choose. `Legal` says that the clock never goes back and that every
  * choice of victims is one the sweep can make.
  */
module History {
  import opened Sequences
  import opened Hashing
  import opened FlatIndex

  datatype Op =
    | RecordOp(worker: WorkerId, chain: seq<Hash>, now: nat)
    | MatchOp(worker: WorkerId, chain: seq<Hash>, now: nat)
    | PurgeOp(worker: WorkerId)
    | EvictOp(now: nat, ttl: nat, maxEntries: nat, gone: set<Hash>)

  function Apply(m: Flat, op: Op): Flat {
    match op
    case RecordOp(w, chain, now) => Record(m, w, chain, now)
    case MatchOp(w, chain, now) => Match(m, w, chain, now)
    case PurgeOp(w) => Purge(m, {w})
    case EvictOp(now, ttl, _, gone) => Expire(m, now, ttl) - gone
  }

  function State(ops: seq<Op>): Flat {
    if ops == [] then map[] else Apply(State(ops[..|ops| - 1]), ops[|ops| - 1])
  }

  function Clock(ops: seq<Op>): nat {
    if ops == [] then 0
    else
      match ops[|ops| - 1]
      case PurgeOp(_) => Clock(ops[..|ops| - 1])
      case RecordOp(_, _, now) => now
      case MatchOp(_, _, now) => now
      case EvictOp(now, _, _, _) => now
  }

  ghost predicate Legal(ops: seq<Op>) {
    ops != [] ==>
      var init, op := ops[..|ops| - 1], ops[|ops| - 1];
      && Legal(init)
      && Clock(init) <= Clock(ops)
      && (op.EvictOp? ==> LruVictims(Expire(State(init), op.now, op.ttl), op.gone, op.maxEntries))
  }

  /** The chains recorded for `w` since its last purge. */
  function Live(ops: seq<Op>, w: WorkerId): set<seq<Hash>> {
    if ops == [] then {}
    else
      var before := Live(ops[..|ops| - 1], w);
      match ops[|ops| - 1]
      case RecordOp(v, chain, _) => if v == w then before + {chain} else before
      case PurgeOp(v) => if v == w then {} else before
      case _ => before
  }

  /** Every chain the run was ever given. */
  function Seen(ops: seq<Op>): set<seq<Hash>> {
    if ops == [] then {}
    else
      var before := Seen(ops[..|ops| - 1]);
      match ops[|ops| - 1]
      case RecordOp(_, chain, _) => before + {chain}
      case MatchOp(_, chain, _) => before + {chain}
      case _ => before
  }

  /** The `i`-th operation recorded `chain` for `w`, and none since purged it. */
  predicate RecordedUnpurged(ops: seq<Op>, w: WorkerId, chain: seq<Hash>, i: nat) {
    && i < |ops| && ops[i].RecordOp? && ops[i].worker == w && ops[i].chain == chain
    && forall j | i < j < |ops| :: ops[j] != PurgeOp(w)
  }

  lemma {:induction false} LiveIff(ops: seq<Op>, w: WorkerId, chain: seq<Hash>)
    ensures chain in Live(ops, w) <==> exists i :: RecordedUnpurged(ops, w, chain, i)
  {
    if ops != [] {
      var n, init := |ops| - 1, ops[..|ops| - 1];
      LiveIff(init, w, chain);
      forall i: nat | i < n
        ensures RecordedUnpurged(ops, w, chain, i) <==> RecordedUnpurged(init, w, chain, i) && ops[n] != PurgeOp(w)
      {
        assert forall j | i < j < n :: init[j] == ops[j];
      }
      assert RecordedUnpurged(ops, w, chain, n) <==> ops[n].RecordOp? && ops[n].worker == w && ops[n].chain == chain;
    }
  }

  predicate Given(ops: seq<Op>, chain: seq<Hash>, i: nat) {
    i < |ops| && (ops[i].RecordOp? || ops[i].MatchOp?) && ops[i].chain == chain
  }

  lemma {:induction false} SeenIff(ops: seq<Op>, chain: seq<Hash>)
    ensures chain in Seen(ops) <==> exists i :: Given(ops, chain, i)
  {
    if ops != [] {
      var n, init := |ops| - 1, ops[..|ops| - 1];
      SeenIff(init, chain);
      assert forall i: nat | i < n :: Given(ops, chain, i) <==> Given(init, chain, i);
      assert Given(ops, chain, n) <==> !ops[n].PurgeOp? && !ops[n].EvictOp? && ops[n].chain == chain;
    }
  }

  predicate InOrder(a: Op, b: Op) {
    a.PurgeOp? || b.PurgeOp? || a.now <= b.now
  }

  ghost predicate LegalChoice(ops: seq<Op>, j: nat)
    requires j < |ops|
  {
    ops[j].EvictOp? ==> LruVictims(Expire(State(ops[..j]), ops[j].now, ops[j].ttl), ops[j].gone, ops[j].maxEntries)
  }

  /** A run is legal exactly when its clock readings never go back and each of its sweeps chose as a sweep may;
    * nothing else is asked of it.
    */
  lemma {:induction false} LegalIff(ops: seq<Op>)
    ensures Legal(ops) <==>
              && (forall i, j | 0 <= i < j < |ops| :: InOrder(ops[i], ops[j]))
              && (forall j | 0 <= j < |ops| :: LegalChoice(ops, j))
    ensures Legal(ops) ==> forall i | 0 <= i < |ops| && !ops[i].PurgeOp? :: ops[i].now <= Clock(ops)
    ensures Clock(ops) == 0 || exists i :: 0 <= i < |ops| && !ops[i].PurgeOp? && ops[i].now == Clock(ops)
  {
    if ops != [] {
      var n, init := |ops| - 1, ops[..|ops| - 1];
      LegalIff(init);
      forall j: nat | j < n ensures LegalChoice(ops, j) <==> LegalChoice(init, j) {
        assert init[..j] == ops[..j];
      }
      assert forall i | 0 <= i < n :: init[i] == ops[i];
      assert Legal(ops) <==> Legal(init) && Clock(init) <= Clock(ops) && LegalChoice(ops, n);
    }
  }

  ghost predicate NoEviction(ops: seq<Op>) {
    forall op | op in ops :: !op.EvictOp?
  }

  /** `k` is the best common-prefix length of `chain` with a member of `chains`, zero if none. */
  ghost predicate IsBest(chains: set<seq<Hash>>, chain: seq<Hash>, k: nat) {
    && (forall d | d in chains :: Common(d, chain) <= k)
    && (k == 0 || exists d | d in chains :: Common(d, chain) == k)
  }

  // ---------------------------------------------------------------------------------------------
  // Belief against history
  // ---------------------------------------------------------------------------------------------

  /** Nothing is credited to a worker that was not sent to it since its last purge. */
  lemma {:induction false} CreditIsSound(ops: seq<Op>, w: WorkerId, h: Hash)
    requires Holds(State(ops), w, h)
    ensures exists d :: d in Live(ops, w) && h in d
  {
    if ops != [] {
      var init, op := ops[..|ops| - 1], ops[|ops| - 1];
      var m := State(init);
      match op
      case RecordOp(v, chain, now) =>
        RecordAt(m, v, chain, now);
        if v == w && h in chain {
          assert chain in Live(ops, w);
        } else {
          CreditIsSound(init, w, h);
        }
      case MatchOp(v, chain, now) =>
        TouchAt(m, chain[..Walk(m, v, chain)], now);
        CreditIsSound(init, w, h);
      case PurgeOp(v) =>
        PurgeAt(m, {v});
        CreditIsSound(init, w, h);
      case EvictOp(_, _, _, _) =>
        CreditIsSound(init, w, h);
    }
  }

  /** Without evictions everything sent since the last purge is credited. */
  lemma {:induction false} CreditIsComplete(ops: seq<Op>, w: WorkerId, d: seq<Hash>, h: Hash)
    requires NoEviction(ops) && d in Live(ops, w) && h in d
    ensures Holds(State(ops), w, h)
  {
    var init, op := ops[..|ops| - 1], ops[|ops| - 1];
    var m := State(init);
    assert op in ops && NoEviction(init);
    match op
    case RecordOp(v, chain, now) =>
      RecordAt(m, v, chain, now);
      if d in Live(init, w) {
        CreditIsComplete(init, w, d, h);
      }
    case MatchOp(v, chain, now) =>
      TouchAt(m, chain[..Walk(m, v, chain)], now);
      CreditIsComplete(init, w, d, h);
    case PurgeOp(v) =>
      PurgeAt(m, {v});
      CreditIsComplete(init, w, d, h);
  }

  /** With any evictions at all, holes included, a match never exceeds the best prefix shared with
    * something sent to the worker since its last purge.
    */
  lemma BeliefNeverExceedsHistory(ops: seq<Op>, w: WorkerId, chain: seq<Hash>)
    requires Coherent(Live(ops, w) + {chain})
    ensures var k := Walk(State(ops), w, chain);
            k == 0 || exists d :: d in Live(ops, w) && k <= Common(d, chain)
  {
    var m, k := State(ops), Walk(State(ops), w, chain);
    if k > 0 {
      WalkIsLargest(m, w, chain, k);
      CreditIsSound(ops, w, chain[k - 1]);
      var d :| d in Live(ops, w) && chain[k - 1] in d;
      SharedHashBoundsCommon(Live(ops, w) + {chain}, d, chain, k - 1);
    }
  }

  lemma SharedHashBoundsCommon(chains: set<seq<Hash>>, d: seq<Hash>, c: seq<Hash>, i: nat)
    requires Coherent(chains) && d in chains && c in chains && i < |c| && c[i] in d
    ensures i + 1 <= Common(d, c)
  {
    var j :| 0 <= j < |d| && d[j] == c[i];
    CommonIsLargest(d, c, i + 1);
  }

  /** Without evictions a match is exactly that best prefix. */
  lemma BeliefIsHistory(ops: seq<Op>, w: WorkerId, chain: seq<Hash>)
    requires NoEviction(ops) && Coherent(Live(ops, w) + {chain})
    ensures IsBest(Live(ops, w), chain, Walk(State(ops), w, chain))
  {
    var m, k := State(ops), Walk(State(ops), w, chain);
    forall d | d in Live(ops, w) ensures Common(d, chain) <= k {
      var n := Common(d, chain);
      forall i | 0 <= i < n ensures Holds(m, w, chain[i]) {
        assert chain[i] == chain[..n][i] == d[..n][i] == d[i];
        CreditIsComplete(ops, w, d, chain[i]);
      }
      WalkIsLargest(m, w, chain, n);
    }
    BeliefNeverExceedsHistory(ops, w, chain);
  }

  /** The `j`-th operation leaves `w` the credit it has for `h`: it neither purges `w`, nor finds the block
    * expired, nor sweeps it.
    */
  ghost predicate Spares(ops: seq<Op>, j: nat, w: WorkerId, h: Hash)
    requires j < |ops|
  {
    && ops[j] != PurgeOp(w)
    && (ops[j].EvictOp? ==>
          h in State(ops[..j]) && Fresh(State(ops[..j])[h], ops[j].now, ops[j].ttl) && h !in ops[j].gone)
  }

  /** The `i`-th operation recorded `h` for `w`, and none since took it away. */
  ghost predicate RecordedSince(ops: seq<Op>, w: WorkerId, h: Hash, i: nat) {
    && i < |ops| && ops[i].RecordOp? && ops[i].worker == w && h in ops[i].chain
    && forall j | i < j < |ops| :: Spares(ops, j, w, h)
  }

  ghost predicate StillRecorded(ops: seq<Op>, w: WorkerId, h: Hash) {
    exists i :: RecordedSince(ops, w, h, i)
  }

  lemma SparedBefore(ops: seq<Op>, w: WorkerId, h: Hash, i: nat)
    requires ops != [] && i < |ops| - 1
    ensures RecordedSince(ops, w, h, i) <==> RecordedSince(ops[..|ops| - 1], w, h, i) && Spares(ops, |ops| - 1, w, h)
  {
    var init := ops[..|ops| - 1];
    forall j: nat | j < |init| ensures Spares(ops, j, w, h) <==> Spares(init, j, w, h) {
      assert init[..j] == ops[..j];
    }
  }

  /** What the last operation does to the credit of `w` for `h`. */
  lemma CreditStep(ops: seq<Op>, w: WorkerId, h: Hash)
    requires ops != []
    ensures var n := |ops| - 1;
            Holds(State(ops), w, h) <==>
              || (ops[n].RecordOp? && ops[n].worker == w && h in ops[n].chain)
              || (Holds(State(ops[..n]), w, h) && Spares(ops, n, w, h))
  {
    var m := State(ops[..|ops| - 1]);
    match ops[|ops| - 1]
    case RecordOp(v, chain, now) => RecordAt(m, v, chain, now);
    case MatchOp(v, chain, now) => TouchAt(m, chain[..Walk(m, v, chain)], now);
    case PurgeOp(v) => PurgeAt(m, {v});
    case EvictOp(_, _, _, _) =>
  }

  /** Exactly what is credited, in every run: what some recording brought and no purge, expiry or sweep since
    * took away.
    */
  lemma {:induction false} CreditIff(ops: seq<Op>, w: WorkerId, h: Hash)
    ensures Holds(State(ops), w, h) <==> StillRecorded(ops, w, h)
  {
    if ops != [] {
      var n := |ops| - 1;
      CreditIff(ops[..n], w, h);
      CreditStep(ops, w, h);
      forall i: nat | i < n
        ensures RecordedSince(ops, w, h, i) <==> RecordedSince(ops[..n], w, h, i) && Spares(ops, n, w, h)
      {
        SparedBefore(ops, w, h, i);
      }
      assert RecordedSince(ops, w, h, n) <==> ops[n].RecordOp? && ops[n].worker == w && h in ops[n].chain;
    }
  }

  /** With evictions, a match equals that best prefix exactly when each of its blocks was recorded for the
    * worker by an operation since which no purge, expiry or sweep took it.
    */
  lemma BeliefIsHistoryIff(ops: seq<Op>, w: WorkerId, chain: seq<Hash>, best: nat)
    requires Coherent(Live(ops, w) + {chain}) && IsBest(Live(ops, w), chain, best)
    ensures best <= |chain| && Walk(State(ops), w, chain) <= best
    ensures Walk(State(ops), w, chain) == best <==> forall k | 0 <= k < best :: StillRecorded(ops, w, chain[k])
  {
    BeliefAtMostBest(ops, w, chain, best);
    WalkIsLargest(State(ops), w, chain, best);
    forall k | 0 <= k < best ensures Holds(State(ops), w, chain[k]) <==> StillRecorded(ops, w, chain[k]) {
      CreditIff(ops, w, chain[k]);
    }
  }

  lemma BeliefAtMostBest(ops: seq<Op>, w: WorkerId, chain: seq<Hash>, best: nat)
    requires Coherent(Live(ops, w) + {chain}) && IsBest(Live(ops, w), chain, best)
    ensures best <= |chain| && Walk(State(ops), w, chain) <= best
  {
    BeliefNeverExceedsHistory(ops, w, chain);
  }

  /** The same in terms of prompts: the match is the largest number of leading blocks shared with a
    * prompt sent to the worker since its last purge.
    */
  lemma BeliefCountsSharedBlocks(hash: Hasher, size: nat, ops: seq<Op>, w: WorkerId, sent: set<string>, p: string)
    requires size >= 1 && CollisionFree(hash, size, sent + {p})
    requires NoEviction(ops) && Live(ops, w) == ChainsOf(hash, size, sent)
    ensures var k := Walk(State(ops), w, Chain(hash, p, size));
            && (forall q | q in sent :: Common(Blocks(q, size), Blocks(p, size)) <= k)
            && (k == 0 || exists q | q in sent :: Common(Blocks(q, size), Blocks(p, size)) == k)
  {
    var chain := Chain(hash, p, size);
    CollisionFreeIsCoherent(hash, size, sent + {p});
    assert ChainsOf(hash, size, sent + {p}) == ChainsOf(hash, size, sent) + {chain};
    BeliefIsHistory(ops, w, chain);
    forall q | q in sent
      ensures Chain(hash, q, size) in Live(ops, w)
      ensures Common(Chain(hash, q, size), chain) == Common(Blocks(q, size), Blocks(p, size))
    {
      ChainArithmetic(hash, size, sent + {p}, q, p);
    }
  }

  // ---------------------------------------------------------------------------------------------
  // Ages along a chain
  // ---------------------------------------------------------------------------------------------

  /** In every chain of the family a block's ancestors, when present, are at least as recent. */
  ghost predicate AgesOrdered(m: Flat, chains: set<seq<Hash>>) {
    forall c, i, j | c in chains && 0 <= i <= j < |c| && c[i] in m && c[j] in m ::
      m[c[i]].touched >= m[c[j]].touched
  }

  ghost predicate NotAfter(m: Flat, now: nat) {
    forall h | h in m :: m[h].touched <= now
  }

  /** Every worker's blocks are closed under ancestors. */
  ghost predicate Closed(m: Flat, chains: set<seq<Hash>>) {
    forall c, i, j, w | c in chains && 0 <= i <= j < |c| && Holds(m, w, c[j]) :: Holds(m, w, c[i])
  }

  /** A prefix of a chain of a coherent family contains the ancestors of each of its members. */
  lemma PrefixHasAncestors(chains: set<seq<Hash>>, d: seq<Hash>, n: nat)
    requires Coherent(chains) && d in chains && n <= |d|
    ensures forall c, i, j | c in chains && 0 <= i <= j < |c| && c[j] in d[..n] :: c[i] in d[..n]
  {
    forall c, i, j | c in chains && 0 <= i <= j < |c| && c[j] in d[..n] ensures c[i] in d[..n] {
      var k :| 0 <= k < n && d[k] == c[j];
      assert c[i] == c[..j + 1][i] == d[..k + 1][i] == d[..n][i];
    }
  }

  lemma RecordKeepsAges(m: Flat, chains: set<seq<Hash>>, w: WorkerId, d: seq<Hash>, now: nat)
    requires Coherent(chains) && d in chains && AgesOrdered(m, chains) && NotAfter(m, now)
    ensures AgesOrdered(Record(m, w, d, now), chains)
  {
    RecordAt(m, w, d, now);
    PrefixHasAncestors(chains, d, |d|);
    assert d[..|d|] == d;
  }

  lemma MatchKeepsAges(m: Flat, chains: set<seq<Hash>>, w: WorkerId, d: seq<Hash>, now: nat)
    requires Coherent(chains) && d in chains && AgesOrdered(m, chains) && NotAfter(m, now)
    ensures AgesOrdered(Match(m, w, d, now), chains)
  {
    var n := Walk(m, w, d);
    TouchAt(m, d[..n], now);
    PrefixHasAncestors(chains, d, n);
  }

  /** In every reachable state ages are ordered along every chain, whatever was purged or evicted. */
  lemma {:induction false} AgesOrderedAlways(ops: seq<Op>, chains: set<seq<Hash>>)
    requires Legal(ops) && Coherent(chains) && Seen(ops) <= chains
    ensures AgesOrdered(State(ops), chains)
    ensures NotAfter(State(ops), Clock(ops))
  {
    if ops != [] {
      var init, op := ops[..|ops| - 1], ops[|ops| - 1];
      var m := State(init);
      assert Seen(init) <= Seen(ops);
      AgesOrderedAlways(init, chains);
      match op
      case RecordOp(w, d, now) =>
        assert d in Seen(ops);
        RecordAt(m, w, d, now);
        RecordKeepsAges(m, chains, w, d, now);
      case MatchOp(w, d, now) =>
        assert d in Seen(ops);
        TouchAt(m, d[..Walk(m, w, d)], now);
        MatchKeepsAges(m, chains, w, d, now);
      case PurgeOp(_) =>
      case EvictOp(_, _, _, _) =>
    }
  }

  /** What that means for the two passes of an eviction, for any block and any ancestor of it. Expiry
    * never takes an ancestor and leaves its descendant; the sweep does so only on equal ages.
    */
  lemma EvictionCutsFromTheEnd(ops: seq<Op>, chains: set<seq<Hash>>, c: seq<Hash>, i: nat, j: nat,
                               now: nat, ttl: nat, maxEntries: nat, gone: set<Hash>)
    requires Legal(ops) && Coherent(chains) && Seen(ops) <= chains
    requires c in chains && i <= j < |c| && c[i] in State(ops) && c[j] in State(ops)
    requires LruVictims(Expire(State(ops), now, ttl), gone, maxEntries)
    ensures var m, e := State(ops), Expire(State(ops), now, ttl);
            && (c[j] in e ==> c[i] in e)
            && (c[i] in gone && c[j] in e && c[j] !in gone ==> m[c[i]].touched == m[c[j]].touched)
  {
    AgesOrderedAlways(ops, chains);
  }

  /** In runs whose sweeps removed nothing, every worker's blocks are closed under ancestors. */
  lemma {:induction false} ClosedWithoutSweep(ops: seq<Op>, chains: set<seq<Hash>>)
    requires Legal(ops) && Coherent(chains) && Seen(ops) <= chains
    requires forall op | op in ops && op.EvictOp? :: op.gone == {}
    ensures Closed(State(ops), chains)
  {
    if ops != [] {
      var init, op := ops[..|ops| - 1], ops[|ops| - 1];
      var m := State(init);
      assert Seen(init) <= Seen(ops) && op in ops;
      ClosedWithoutSweep(init, chains);
      match op
      case RecordOp(v, d, now) =>
        assert d in Seen(ops);
        RecordKeepsClosed(m, chains, v, d, now);
      case MatchOp(v, d, now) =>
        TouchAt(m, d[..Walk(m, v, d)], now);
        assert forall w, h :: Holds(State(ops), w, h) <==> Holds(m, w, h);
      case PurgeOp(v) =>
        PurgeAt(m, {v});
      case EvictOp(now, ttl, _, _) =>
        AgesOrderedAlways(init, chains);
        assert State(ops) == Expire(m, now, ttl);
        ExpireKeepsClosed(m, chains, now, ttl);
    }
  }

  lemma RecordKeepsClosed(m: Flat, chains: set<seq<Hash>>, v: WorkerId, d: seq<Hash>, now: nat)
    requires Coherent(chains) && d in chains && Closed(m, chains)
    ensures Closed(Record(m, v, d, now), chains)
  {
    PrefixHasAncestors(chains, d, |d|);
    assert d[..|d|] == d;
    HoldersAfterRecord(m, v, d, now);
  }

  lemma HoldersAfterRecord(m: Flat, v: WorkerId, d: seq<Hash>, now: nat)
    ensures forall w, h :: Holds(Record(m, v, d, now), w, h) <==> Holds(m, w, h) || (w == v && h in d)
  {
    RecordAt(m, v, d, now);
  }

  lemma ExpireKeepsClosed(m: Flat, chains: set<seq<Hash>>, now: nat, ttl: nat)
    requires AgesOrdered(m, chains) && Closed(m, chains)
    ensures Closed(Expire(m, now, ttl), chains)
  {
    forall c, i, j, w | c in chains && 0 <= i <= j < |c| && Holds(Expire(m, now, ttl), w, c[j])
      ensures Holds(Expire(m, now, ttl), w, c[i])
    {
      assert Holds(m, w, c[j]) && Holds(m, w, c[i]);
      assert m[c[i]].touched >= m[c[j]].touched;
    }
  }

  /** Where blocks are closed under ancestors, walking forward to the first miss and scanning
    * backward for the last hit give the same count.
    */
  lemma ForwardIsBackward(m: Flat, chains: set<seq<Hash>>, w: WorkerId, c: seq<Hash>, k: nat)
    requires Closed(m, chains) && c in chains && k <= |c|
    ensures Walk(m, w, c) == k <==> (k > 0 ==> Holds(m, w, c[k - 1])) && forall j | k <= j < |c| :: !Holds(m, w, c[j])
  {
    var n := Walk(m, w, c);
    WalkIsLargest(m, w, c, n);
    if n < |c| {
      WalkIsLargest(m, w, c, n + 1);
      assert !Holds(m, w, c[n]);
    }
    assert forall j | n <= j < |c| :: !Holds(m, w, c[j]);
    assert n > 0 ==> Holds(m, w, c[n - 1]);
    assert k < n ==> Holds(m, w, c[k]);
  }

  /** The sweep takes a block and leaves an equally old descendant of it that `w` holds. */
  ghost predicate CutsTie(e: Flat, gone: set<Hash>, w: WorkerId, c: seq<Hash>, i: nat, j: nat) {
    && i <= j < |c| && Holds(e, w, c[j]) && c[i] in e
    && e[c[i]].touched == e[c[j]].touched
    && c[i] in gone && c[j] !in gone
  }

  function Older(e: Flat, t: nat): set<Hash> {
    set h | h in e && e[h].touched < t
  }

  function NotNewer(e: Flat, t: nat): set<Hash> {
    set h | h in e && e[h].touched <= t
  }

  /** A block that `w` holds is as old as an ancestor of it, and the cap falls among the blocks of that age. */
  ghost predicate TieAtCap(e: Flat, maxEntries: nat, w: WorkerId, c: seq<Hash>, i: nat, j: nat) {
    && i <= j < |c| && Holds(e, w, c[j]) && c[i] in e && c[i] != c[j]
    && e[c[i]].touched == e[c[j]].touched
    && |Older(e, e[c[j]].touched)| < |e| - maxEntries < |NotNewer(e, e[c[j]].touched)|
  }

  /** Whether a sweep can leave a hole is known before it runs: every choice it may make leaves the blocks
    * closed under ancestors exactly when the cap does not fall among equally old blocks of which one is the
    * ancestor of another that a worker holds.
    */
  lemma SweepLeavesClosedIff(ops: seq<Op>, chains: set<seq<Hash>>, now: nat, ttl: nat, maxEntries: nat)
    requires Legal(ops) && Coherent(chains) && Seen(ops) <= chains
    requires Closed(Expire(State(ops), now, ttl), chains)
    ensures var e := Expire(State(ops), now, ttl);
            (forall gone | LruVictims(e, gone, maxEntries) :: Closed(e - gone, chains))
            <==> forall w, c, i, j | c in chains :: !TieAtCap(e, maxEntries, w, c, i, j)
  {
    var e := Expire(State(ops), now, ttl);
    AgesOrderedAlways(ops, chains);
    assert AgesOrdered(e, chains);
    forall w, c, i, j | c in chains && TieAtCap(e, maxEntries, w, c, i, j)
      ensures exists gone :: LruVictims(e, gone, maxEntries) && !Closed(e - gone, chains)
    {
      TieCanBeCut(e, chains, maxEntries, w, c, i, j);
    }
    forall gone | LruVictims(e, gone, maxEntries) && !Closed(e - gone, chains)
      ensures exists w, c, i, j :: c in chains && TieAtCap(e, maxEntries, w, c, i, j)
    {
      HoleNeedsTie(e, chains, gone, maxEntries);
    }
  }

  lemma {:induction false} SubsetOfSize<T>(s: set<T>, n: nat) returns (r: set<T>)
    requires n <= |s|
    ensures r <= s && |r| == n
  {
    if n == 0 {
      r := {};
    } else {
      var x :| x in s;
      r := SubsetOfSize(s - {x}, n - 1);
      r := r + {x};
    }
  }

  /** A choice that takes the ancestor and leaves the block. */
  lemma TieCanBeCut(e: Flat, chains: set<seq<Hash>>, maxEntries: nat, w: WorkerId, c: seq<Hash>, i: nat, j: nat)
    requires c in chains && TieAtCap(e, maxEntries, w, c, i, j)
    ensures exists gone :: LruVictims(e, gone, maxEntries) && !Closed(e - gone, chains)
  {
    var t, overflow := e[c[j]].touched, |e| - maxEntries;
    var tied := NotNewer(e, t) - Older(e, t) - {c[i], c[j]};
    TiedSize(NotNewer(e, t), Older(e, t), c[i], c[j]);
    var some := SubsetOfSize(tied, overflow - |Older(e, t)| - 1);
    var gone := Older(e, t) + some + {c[i]};
    assert Older(e, t) !! some && c[i] !in Older(e, t) + some;
    assert |gone| == overflow;
    assert LruVictims(e, gone, maxEntries);
    CutTieIsHole(e, chains, gone, w, c, i, j);
  }

  lemma TiedSize(most: set<Hash>, older: set<Hash>, a: Hash, b: Hash)
    requires older <= most && a in most && b in most && a !in older && b !in older && a != b
    ensures |most - older - {a, b}| == |most| - |older| - 2
  {
    assert most == older + (most - older - {a, b}) + {a, b};
  }

  lemma HoleNeedsTie(e: Flat, chains: set<seq<Hash>>, gone: set<Hash>, maxEntries: nat)
    requires Closed(e, chains) && AgesOrdered(e, chains) && LruVictims(e, gone, maxEntries) && !Closed(e - gone, chains)
    ensures exists w, c, i, j :: c in chains && TieAtCap(e, maxEntries, w, c, i, j)
  {
    HoleIsCutTie(e, chains, gone, maxEntries);
    var w, c, i, j :| c in chains && CutsTie(e, gone, w, c, i, j);
    VictimsAround(e, gone, maxEntries, c[i], c[j]);
    assert TieAtCap(e, maxEntries, w, c, i, j);
  }

  /** Of two equally old blocks one is taken and one is left only if the cap falls among their age. */
  lemma VictimsAround(e: Flat, gone: set<Hash>, maxEntries: nat, taken: Hash, left: Hash)
    requires LruVictims(e, gone, maxEntries) && taken in gone && left in e && left !in gone
    requires e[taken].touched == e[left].touched
    ensures |Older(e, e[left].touched)| < |e| - maxEntries < |NotNewer(e, e[left].touched)|
  {
    var t := e[left].touched;
    SubsetSize(Older(e, t), gone - {taken});
    SubsetSize(gone, NotNewer(e, t) - {left});
  }

  lemma CutTieIsHole(e: Flat, chains: set<seq<Hash>>, gone: set<Hash>, w: WorkerId, c: seq<Hash>, i: nat, j: nat)
    requires c in chains && CutsTie(e, gone, w, c, i, j)
    ensures !Closed(e - gone, chains)
  {
    assert Holds(e - gone, w, c[j]) && !Holds(e - gone, w, c[i]);
  }

  lemma HoleIsCutTie(e: Flat, chains: set<seq<Hash>>, gone: set<Hash>, maxEntries: nat)
    requires Closed(e, chains) && AgesOrdered(e, chains) && LruVictims(e, gone, maxEntries) && !Closed(e - gone, chains)
    ensures exists w, c, i, j :: c in chains && CutsTie(e, gone, w, c, i, j)
  {
    var c, i, j, w :| c in chains && 0 <= i <= j < |c| && Holds(e - gone, w, c[j]) && !Holds(e - gone, w, c[i]);
    assert Holds(e, w, c[j]) && Holds(e, w, c[i]);
    assert c[i] in gone && c[j] !in gone;
    assert e[c[i]].touched >= e[c[j]].touched && e[c[i]].touched <= e[c[j]].touched;
    assert CutsTie(e, gone, w, c, i, j);
  }

  /** The sweep really can leave a hole: blocks recorded together share one age, so it may take a
    * chain's head and keep its tail, and the tail is then worth nothing to a match.
    */
  lemma SweepCanOrphanATail(w: WorkerId, a: Hash, b: Hash, now: nat, ttl: nat)
    requires a != b
    ensures var m := Record(map[], w, [a, b], now);
            && LruVictims(Expire(m, now, ttl), {a}, 1)
            && Holds(Expire(m, now, ttl) - {a}, w, b)
            && Walk(Expire(m, now, ttl) - {a}, w, [a, b]) == 0
            && !Closed(Expire(m, now, ttl) - {a}, {[a, b]})
  {
    var m := Record(map[], w, [a, b], now);
    RecordAt(map[], w, [a, b], now);
    assert m.Keys == {a, b} && m[a] == Entry([w], now) && m[b] == Entry([w], now);
    assert Expire(m, now, ttl) == m;
    var left := m - {a};
    assert |m| == |m.Keys| == 2;
    assert [a, b] in {[a, b]} && Holds(left, w, [a, b][1]) && !Holds(left, w, [a, b][0]);
  }
}
