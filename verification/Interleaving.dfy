/** Concurrent use of the prefix index, one step per shard lock taken.
  *
  * A thread is in the middle of one call; an action lets one thread start a call, take its next shard
  * lock, or return. `started` logs the recordings that have begun and influences nothing.
  */
module Interleaving {
  import opened Sequences
  import opened Hashing
  import opened FlatIndex
  import opened PrefixIndex
  import History

  type Thread = nat

  datatype Call =
    | Idle
    | Recording(worker: WorkerId, chain: seq<Hash>, pos: nat, now: nat)
    | Reading(worker: WorkerId, chain: seq<Hash>, pos: nat)
    | Touching(worker: WorkerId, chain: seq<Hash>, matched: nat, pos: nat, now: nat)
    | Purging(worker: WorkerId, shard: nat)
    | Expiring(now: nat, ttl: nat, shard: nat)
    | Sweeping(victims: seq<Hash>)

  datatype System = System(
    m: Flat,
    calls: map<Thread, Call>,
    started: set<(WorkerId, seq<Hash>)>)

  datatype Action =
    | StartRecord(t: Thread, worker: WorkerId, chain: seq<Hash>, now: nat)
    | WriteBlock(t: Thread)
    | FinishRecord(t: Thread)
    | StartMatch(t: Thread, worker: WorkerId, chain: seq<Hash>)
    | ReadBlock(t: Thread, now: nat)
    | TouchBlock(t: Thread)
    | FinishMatch(t: Thread)
    | StartPurge(t: Thread, worker: WorkerId)
    | PurgeShard(t: Thread)
    | StartEvict(t: Thread, now: nat, ttl: nat)
    | ExpireShard(t: Thread)
    | ChooseVictims(t: Thread, victims: seq<Hash>)
    | SweepOne(t: Thread)

  const Initial := System(map[], map[], {})

  function CallOf(s: System, t: Thread): Call {
    if t in s.calls then s.calls[t] else Idle
  }

  /** A purge or an expiry of one shard leaves the other shards alone. */
  function OnShard(m: Flat, change: Flat, shard: nat, shardCount: nat): Flat
    requires shardCount >= 1
  {
    map h | h in m && (Slot(h, shardCount) == shard ==> h in change) ::
      if Slot(h, shardCount) == shard then change[h] else m[h]
  }

  /** Whether the call a thread is in the middle of can take the action next. The list of victims is
    * whatever the sweep's read passes yielded, so any list is allowed.
    */
  predicate Enabled(s: System, a: Action, shardCount: nat) {
    var c := CallOf(s, a.t);
    match a
    case StartRecord(_, _, _, _) => c.Idle?
    case WriteBlock(_) => c.Recording? && c.pos < |c.chain|
    case FinishRecord(_) => c.Recording? && c.pos == |c.chain|
    case StartMatch(_, _, _) => c.Idle?
    case ReadBlock(_, _) => c.Reading?
    case TouchBlock(_) => c.Touching? && c.pos < c.matched <= |c.chain|
    case FinishMatch(_) => c.Touching? && c.pos == c.matched
    case StartPurge(_, _) => c.Idle?
    case PurgeShard(_) => c.Purging? && c.shard < shardCount
    case StartEvict(_, _, _) => c.Idle?
    case ExpireShard(_) => c.Expiring? && c.shard < shardCount
    case ChooseVictims(_, _) => c.Expiring? && c.shard == shardCount
    case SweepOne(_) => c.Sweeping? && c.victims != []
  }

  function Apply(s: System, a: Action, shardCount: nat): System
    requires shardCount >= 1 && Enabled(s, a, shardCount)
  {
    var c := CallOf(s, a.t);
    match a
    case StartRecord(t, w, chain, now) =>
      s.(calls := s.calls[t := Recording(w, chain, 0, now)], started := s.started + {(w, chain)})
    case WriteBlock(t) =>
      var h := c.chain[c.pos];
      s.(m := s.m[h := RecordEntry(s.m, c.worker, h, c.now)],
         calls := s.calls[t := Recording(c.worker, c.chain, c.pos + 1, c.now)])
    case FinishRecord(t) =>
      s.(calls := s.calls[t := Idle])
    case StartMatch(t, w, chain) =>
      s.(calls := s.calls[t := Reading(w, chain, 0)])
    case ReadBlock(t, now) =>
      if c.pos < |c.chain| && Holds(s.m, c.worker, c.chain[c.pos])
      then s.(calls := s.calls[t := Reading(c.worker, c.chain, c.pos + 1)])
      else s.(calls := s.calls[t := Touching(c.worker, c.chain, c.pos, 0, now)])
    case TouchBlock(t) =>
      s.(m := Touch(s.m, [c.chain[c.pos]], c.now),
         calls := s.calls[t := Touching(c.worker, c.chain, c.matched, c.pos + 1, c.now)])
    case FinishMatch(t) => s.(calls := s.calls[t := Idle])
    case StartPurge(t, w) => s.(calls := s.calls[t := Purging(w, 0)])
    case PurgeShard(t) =>
      s.(m := OnShard(s.m, Purge(s.m, {c.worker}), c.shard, shardCount),
         calls := s.calls[t := if c.shard + 1 < shardCount then Purging(c.worker, c.shard + 1) else Idle])
    case StartEvict(t, now, ttl) => s.(calls := s.calls[t := Expiring(now, ttl, 0)])
    case ExpireShard(t) =>
      s.(m := OnShard(s.m, Expire(s.m, c.now, c.ttl), c.shard, shardCount),
         calls := s.calls[t := Expiring(c.now, c.ttl, c.shard + 1)])
    case ChooseVictims(t, victims) => s.(calls := s.calls[t := if victims == [] then Idle else Sweeping(victims)])
    case SweepOne(t) =>
      s.(m := s.m - {c.victims[0]},
         calls := s.calls[t := if |c.victims| == 1 then Idle else Sweeping(c.victims[1..])])
  }

  /** Whether a thread can take an action depends on nothing but its own call: no interleaving is left out. */
  lemma EnabledIsLocal(s: System, s': System, a: Action, shardCount: nat)
    requires CallOf(s, a.t) == CallOf(s', a.t)
    ensures Enabled(s, a, shardCount) <==> Enabled(s', a, shardCount)
  {
  }

  /** A thread between calls can start any. */
  lemma IdleCanStart(s: System, t: Thread, w: WorkerId, chain: seq<Hash>, now: nat, ttl: nat, shardCount: nat)
    requires CallOf(s, t).Idle?
    ensures Enabled(s, StartRecord(t, w, chain, now), shardCount) && Enabled(s, StartMatch(t, w, chain), shardCount)
    ensures Enabled(s, StartPurge(t, w), shardCount) && Enabled(s, StartEvict(t, now, ttl), shardCount)
  {
  }

  /** A thread can always go on: nothing ever waits for another thread. */
  lemma NobodyWaits(s: System, t: Thread, shardCount: nat)
    requires shardCount >= 1 && Underway(CallOf(s, t), shardCount)
    ensures exists a: Action :: a.t == t && Enabled(s, a, shardCount) && Underway(CallOf(Apply(s, a, shardCount), t), shardCount)
  {
    var c := CallOf(s, t);
    var a :=
      match c
      case Idle => StartPurge(t, 0)
      case Recording(_, chain, pos, _) => if pos < |chain| then WriteBlock(t) else FinishRecord(t)
      case Reading(_, _, _) => ReadBlock(t, 0)
      case Touching(_, _, matched, pos, _) => if pos < matched then TouchBlock(t) else FinishMatch(t)
      case Purging(_, _) => PurgeShard(t)
      case Expiring(_, _, shard) => if shard < shardCount then ExpireShard(t) else ChooseVictims(t, [])
      case Sweeping(_) => SweepOne(t);
    assert a.t == t && Enabled(s, a, shardCount);
  }

  /** The positions a call can be at. */
  predicate Underway(c: Call, shardCount: nat) {
    match c
    case Idle => true
    case Recording(_, chain, pos, _) => pos <= |chain|
    case Reading(_, chain, pos) => pos <= |chain|
    case Touching(_, chain, matched, pos, _) => pos <= matched <= |chain|
    case Purging(_, shard) => shard < shardCount
    case Expiring(_, _, shard) => shard <= shardCount
    case Sweeping(victims) => victims != []
  }

  lemma {:induction false} UnderwayAlways(actions: seq<Action>, shardCount: nat, t: Thread)
    requires shardCount >= 1 && Possible(actions, shardCount)
    ensures Underway(CallOf(Run(actions, shardCount), t), shardCount)
  {
    if actions != [] {
      UnderwayAlways(actions[..|actions| - 1], shardCount, t);
    }
  }

  /** A run of `actions` from the empty index, each possible when it was taken. */
  ghost predicate Possible(actions: seq<Action>, shardCount: nat)
    requires shardCount >= 1
    decreases |actions|, 0
  {
    actions != [] ==>
      var init := actions[..|actions| - 1];
      Possible(init, shardCount) && Enabled(Run(init, shardCount), actions[|actions| - 1], shardCount)
  }

  ghost function Run(actions: seq<Action>, shardCount: nat): System
    requires shardCount >= 1 && Possible(actions, shardCount)
    decreases |actions|, 1
  {
    if actions == [] then Initial
    else Apply(Run(actions[..|actions| - 1], shardCount), actions[|actions| - 1], shardCount)
  }

  // ---------------------------------------------------------------------------------------------
  // Upper bound: every credited block was sent
  // ---------------------------------------------------------------------------------------------

  ghost predicate Sent(s: System, w: WorkerId, h: Hash) {
    exists c :: (w, c) in s.started && h in c
  }

  ghost predicate CallSent(s: System, c: Call) {
    match c
    case Recording(w, chain, pos, _) => (w, chain) in s.started && pos <= |chain|
    case Reading(w, chain, pos) => pos <= |chain| && forall i | 0 <= i < pos :: Sent(s, w, chain[i])
    case Touching(w, chain, matched, pos, _) =>
      pos <= matched <= |chain| && forall i | 0 <= i < matched :: Sent(s, w, chain[i])
    case _ => true
  }

  ghost predicate SoundState(s: System) {
    && (forall w, h | Holds(s.m, w, h) :: Sent(s, w, h))
    && (forall t | t in s.calls :: CallSent(s, s.calls[t]))
  }

  /** The `i`-th action begins a recording for `w`. */
  predicate Begins(actions: seq<Action>, i: nat, w: WorkerId) {
    i < |actions| && actions[i].StartRecord? && actions[i].worker == w
  }

  /** The log holds exactly the recordings begun. */
  lemma {:induction false} StartedIff(actions: seq<Action>, shardCount: nat, w: WorkerId, d: seq<Hash>)
    requires shardCount >= 1 && Possible(actions, shardCount)
    ensures (w, d) in Run(actions, shardCount).started <==> exists i: nat :: Begins(actions, i, w) && actions[i].chain == d
  {
    if actions != [] {
      var init, n := actions[..|actions| - 1], |actions| - 1;
      StartedIff(init, shardCount, w, d);
      StartedStep(Run(init, shardCount), actions[n], shardCount, w, d);
      assert forall i: nat | i < n :: Begins(actions, i, w) <==> Begins(init, i, w);
      if Begins(actions, n, w) && actions[n].chain == d {
        assert Begins(actions, n, w);
      }
    }
  }

  lemma StartedStep(s: System, a: Action, shardCount: nat, w: WorkerId, d: seq<Hash>)
    requires shardCount >= 1 && Enabled(s, a, shardCount)
    ensures (w, d) in Apply(s, a, shardCount).started
            <==> (w, d) in s.started || (a.StartRecord? && a.worker == w && a.chain == d)
  {
  }

  /** Steps other than writes credit nobody with anything new. */
  lemma OnlyWritesCredit(s: System, a: Action, shardCount: nat, w: WorkerId, h: Hash)
    requires shardCount >= 1 && Enabled(s, a, shardCount)
    requires Holds(Apply(s, a, shardCount).m, w, h)
    ensures Holds(s.m, w, h)
            || (a.WriteBlock? && var c := CallOf(s, a.t); w == c.worker && h == c.chain[c.pos])
  {
    var c := CallOf(s, a.t);
    if a.TouchBlock? {
      TouchAt(s.m, [c.chain[c.pos]], c.now);
    } else if a.PurgeShard? {
      PurgeAt(s.m, {c.worker});
    }
  }

  lemma StepKeepsSound(s: System, a: Action, shardCount: nat)
    requires shardCount >= 1 && Enabled(s, a, shardCount) && SoundState(s)
    ensures SoundState(Apply(s, a, shardCount))
  {
    var s', c := Apply(s, a, shardCount), CallOf(s, a.t);
    SentOnlyGrows(s, s');
    forall w: WorkerId, h: Hash | Holds(s'.m, w, h) ensures Sent(s', w, h) {
      OnlyWritesCredit(s, a, shardCount, w, h);
      if !Holds(s.m, w, h) {
        assert (w, c.chain) in s.started;
      }
    }
    forall t | t in s'.calls ensures CallSent(s', s'.calls[t]) {
      if t == a.t {
        OwnCallStaysSent(s, a, shardCount);
      } else {
        assert s'.calls[t] == s.calls[t] && CallSent(s, s.calls[t]);
      }
    }
  }

  lemma SentOnlyGrows(s: System, s': System)
    requires s.started <= s'.started
    ensures forall w: WorkerId, h: Hash | Sent(s, w, h) :: Sent(s', w, h)
  {
    forall w: WorkerId, h: Hash | Sent(s, w, h) ensures Sent(s', w, h) {
      var c :| (w, c) in s.started && h in c;
      assert (w, c) in s'.started;
    }
  }

  lemma OwnCallStaysSent(s: System, a: Action, shardCount: nat)
    requires shardCount >= 1 && Enabled(s, a, shardCount) && SoundState(s)
    ensures var s' := Apply(s, a, shardCount); CallSent(s', s'.calls[a.t])
  {
    var s', c := Apply(s, a, shardCount), CallOf(s, a.t);
    SentOnlyGrows(s, s');
    if !c.Idle? {
      assert CallSent(s, c);
    }
  }

  lemma {:induction false} SoundAlways(actions: seq<Action>, shardCount: nat)
    requires shardCount >= 1 && Possible(actions, shardCount)
    ensures SoundState(Run(actions, shardCount))
  {
    if actions != [] {
      SoundAlways(actions[..|actions| - 1], shardCount);
      StepKeepsSound(Run(actions[..|actions| - 1], shardCount), actions[|actions| - 1], shardCount);
    }
  }

  // ---------------------------------------------------------------------------------------------
  // Lower bound: nothing is forgotten unless it is taken away
  // ---------------------------------------------------------------------------------------------

  /** Of the blocks of `chain`, `w` has lost none from `m` to `m'`. */
  ghost predicate Keeps(m: Flat, m': Flat, w: WorkerId, chain: seq<Hash>) {
    forall h | h in chain && Holds(m, w, h) :: Holds(m', w, h)
  }

  /** From position `b` on no step took a block of `chain` away from `w`. Evictions and purges may have
    * happened, as long as they took nothing of this.
    */
  ghost predicate KeptSince(actions: seq<Action>, shardCount: nat, b: nat, w: WorkerId, chain: seq<Hash>)
    requires shardCount >= 1 && Possible(actions, shardCount)
  {
    |actions| > b ==>
      var init := actions[..|actions| - 1];
      && KeptSince(init, shardCount, b, w, chain)
      && Keeps(Run(init, shardCount).m, Run(actions, shardCount).m, w, chain)
  }

  lemma {:induction false} PrefixPossible(actions: seq<Action>, shardCount: nat, k: nat)
    requires shardCount >= 1 && Possible(actions, shardCount) && k <= |actions|
    ensures Possible(actions[..k], shardCount)
  {
    if k < |actions| {
      PrefixPossible(actions[..|actions| - 1], shardCount, k);
      assert actions[..|actions| - 1][..k] == actions[..k];
    } else {
      assert actions[..k] == actions;
    }
  }

  /** The index after the first `k` actions. */
  ghost function IndexAt(actions: seq<Action>, shardCount: nat, k: nat): Flat
    requires shardCount >= 1 && Possible(actions, shardCount) && k <= |actions|
  {
    PrefixPossible(actions, shardCount, k);
    Run(actions[..k], shardCount).m
  }

  ghost predicate KeptAt(actions: seq<Action>, shardCount: nat, k: nat, w: WorkerId, chain: seq<Hash>)
    requires shardCount >= 1 && Possible(actions, shardCount) && k < |actions|
  {
    Keeps(IndexAt(actions, shardCount, k), IndexAt(actions, shardCount, k + 1), w, chain)
  }

  /** Keeping since a position is keeping in every single step from there on. */
  lemma {:induction false} KeptSinceIff(actions: seq<Action>, shardCount: nat, b: nat, w: WorkerId, chain: seq<Hash>)
    requires shardCount >= 1 && Possible(actions, shardCount)
    ensures KeptSince(actions, shardCount, b, w, chain) <==>
              forall k: nat | b <= k < |actions| :: KeptAt(actions, shardCount, k, w, chain)
  {
    if |actions| > b {
      var init, n := actions[..|actions| - 1], |actions| - 1;
      KeptSinceIff(init, shardCount, b, w, chain);
      forall k: nat | k < n ensures KeptAt(actions, shardCount, k, w, chain) <==> KeptAt(init, shardCount, k, w, chain) {
        assert init[..k] == actions[..k] && init[..k + 1] == actions[..k + 1];
      }
      assert actions[..n + 1] == actions;
      assert KeptAt(actions, shardCount, n, w, chain) <==> Keeps(Run(init, shardCount).m, Run(actions, shardCount).m, w, chain);
    }
  }

  lemma {:induction false} PrefixKept(actions: seq<Action>, shardCount: nat, a: nat, b: nat, k: nat, w: WorkerId, chain: seq<Hash>)
    requires shardCount >= 1 && Possible(actions, shardCount) && k <= |actions|
    requires a <= b && KeptSince(actions, shardCount, a, w, chain)
    ensures Possible(actions[..k], shardCount) && KeptSince(actions[..k], shardCount, b, w, chain)
  {
    if k < |actions| {
      var init := actions[..|actions| - 1];
      PrefixKept(init, shardCount, a, b, k, w, chain);
      assert init[..k] == actions[..k];
    } else {
      assert actions[..k] == actions;
      if |actions| > b {
        var init := actions[..|actions| - 1];
        PrefixKept(init, shardCount, a, b, |init|, w, chain);
        assert init[..|init|] == init;
      }
    }
  }

  lemma {:induction false} KeptFrom(actions: seq<Action>, shardCount: nat, b: nat, w: WorkerId, chain: seq<Hash>)
    requires shardCount >= 1 && Possible(actions, shardCount) && b <= |actions|
    requires KeptSince(actions, shardCount, b, w, chain)
    ensures Possible(actions[..b], shardCount)
    ensures Keeps(Run(actions[..b], shardCount).m, Run(actions, shardCount).m, w, chain)
  {
    if b < |actions| {
      var init := actions[..|actions| - 1];
      KeptFrom(init, shardCount, b, w, chain);
      assert init[..b] == actions[..b];
    } else {
      assert actions[..b] == actions;
    }
  }

  /** `w` holds those of `hashes` that occur in `chain`. */
  ghost predicate HoldsShared(m: Flat, w: WorkerId, hashes: seq<Hash>, chain: seq<Hash>) {
    forall h | h in hashes && h in chain :: Holds(m, w, h)
  }

  lemma KeptBoundsWalk(m: Flat, m': Flat, w: WorkerId, d: seq<Hash>, chain: seq<Hash>)
    requires HoldsShared(m, w, d, chain) && Keeps(m, m', w, chain)
    ensures Common(d, chain) <= Walk(m', w, chain)
  {
    var n := Common(d, chain);
    forall i | 0 <= i < n ensures Holds(m', w, chain[i]) {
      CommonAgrees(d, chain, i);
      assert d[i] in d && chain[i] in chain;
    }
    WalkIsLargest(m', w, chain, n);
  }

  /** A recording of `d` for `w` still under way, what it has written of `chain` still there. */
  ghost predicate RecordedSoFar(s: System, r: Thread, w: WorkerId, d: seq<Hash>, chain: seq<Hash>) {
    var c := CallOf(s, r);
    && c.Recording? && c.worker == w && c.chain == d && c.pos <= |d|
    && HoldsShared(s.m, w, d[..c.pos], chain)
  }

  lemma RecordingGoesOn(s: System, a: Action, shardCount: nat, r: Thread, w: WorkerId, d: seq<Hash>, chain: seq<Hash>)
    requires shardCount >= 1 && Enabled(s, a, shardCount) && RecordedSoFar(s, r, w, d, chain) && a != FinishRecord(r)
    requires Keeps(s.m, Apply(s, a, shardCount).m, w, chain)
    ensures RecordedSoFar(Apply(s, a, shardCount), r, w, d, chain)
  {
    var s', pos := Apply(s, a, shardCount), CallOf(s, r).pos;
    SharedKept(s.m, s'.m, w, d[..pos], chain);
    if a == WriteBlock(r) {
      assert d[..pos + 1] == d[..pos] + [d[pos]];
      assert Holds(s'.m, w, d[pos]);
    } else {
      assert CallOf(s', r) == CallOf(s, r);
    }
  }

  lemma SharedKept(m: Flat, m': Flat, w: WorkerId, hashes: seq<Hash>, chain: seq<Hash>)
    requires HoldsShared(m, w, hashes, chain) && Keeps(m, m', w, chain)
    ensures HoldsShared(m', w, hashes, chain)
  {
  }

  lemma {:induction false} RecordingInProgress(actions: seq<Action>, shardCount: nat, b: nat, r: Thread, w: WorkerId,
                                               d: seq<Hash>, now: nat, chain: seq<Hash>)
    requires shardCount >= 1 && Possible(actions, shardCount) && b < |actions|
    requires actions[b] == StartRecord(r, w, d, now)
    requires forall i | b < i < |actions| :: actions[i] != FinishRecord(r)
    requires KeptSince(actions, shardCount, b, w, chain)
    ensures RecordedSoFar(Run(actions, shardCount), r, w, d, chain)
  {
    var init := actions[..|actions| - 1];
    if b < |init| {
      assert init[b] == actions[b];
      assert forall i | b < i < |init| :: init[i] == actions[i];
      RecordingInProgress(init, shardCount, b, r, w, d, now, chain);
      assert actions[|actions| - 1] != FinishRecord(r);
      RecordingGoesOn(Run(init, shardCount), actions[|actions| - 1], shardCount, r, w, d, chain);
    } else {
      assert init == actions[..b];
    }
  }

  /** When the recording returns, `w` holds all of what it recorded that occurs in `chain`. */
  lemma RecordingDone(actions: seq<Action>, shardCount: nat, b: nat, r: Thread, w: WorkerId, d: seq<Hash>, now: nat,
                      chain: seq<Hash>)
    requires shardCount >= 1 && Possible(actions, shardCount) && b < |actions| - 1
    requires actions[b] == StartRecord(r, w, d, now) && actions[|actions| - 1] == FinishRecord(r)
    requires forall i | b < i < |actions| - 1 :: actions[i] != FinishRecord(r)
    requires KeptSince(actions, shardCount, b, w, chain)
    ensures HoldsShared(Run(actions, shardCount).m, w, d, chain)
  {
    var init := actions[..|actions| - 1];
    assert init[b] == actions[b];
    assert forall i | b < i < |init| :: init[i] == actions[i];
    RecordingInProgress(init, shardCount, b, r, w, d, now, chain);
    assert d[..|d|] == d;
  }

  // ---------------------------------------------------------------------------------------------
  // The match as its caller sees it
  // ---------------------------------------------------------------------------------------------

  /** A match under way: its arguments as given, and once its read pass is over a result that is no less
    * than the walk on the index `m` it began with.
    */
  ghost predicate MatchedSoFar(s: System, t: Thread, w: WorkerId, chain: seq<Hash>, m: Flat) {
    match CallOf(s, t)
    case Reading(v, c, _) => v == w && c == chain
    case Touching(v, c, matched, _, _) => v == w && c == chain && Walk(m, w, chain) <= matched
    case _ => false
  }

  lemma MatchGoesOn(s: System, a: Action, shardCount: nat, t: Thread, w: WorkerId, chain: seq<Hash>, m: Flat)
    requires shardCount >= 1 && Enabled(s, a, shardCount) && a != FinishMatch(t)
    requires MatchedSoFar(s, t, w, chain, m) && Keeps(m, s.m, w, chain)
    ensures MatchedSoFar(Apply(s, a, shardCount), t, w, chain, m)
  {
    var c, s' := CallOf(s, t), Apply(s, a, shardCount);
    if a.t == t && a.ReadBlock? && CallOf(s', t).Touching? {
      MissBoundsWalk(m, s.m, w, chain, c.pos);
    } else if a.t != t {
      assert CallOf(s', t) == c;
    }
  }

  lemma MissBoundsWalk(m: Flat, m': Flat, w: WorkerId, chain: seq<Hash>, pos: nat)
    requires Keeps(m, m', w, chain)
    requires pos >= |chain| || !Holds(m', w, chain[pos])
    ensures Walk(m, w, chain) <= pos
  {
    if pos < |chain| {
      assert chain[pos] in chain;
      WalkIsLargest(m, w, chain, pos + 1);
    }
  }

  /** From its start to its return a match keeps its arguments, and what it will return covers the index it
    * began with as long as nothing it asks about is taken away meanwhile.
    */
  lemma {:induction false} MatchInProgress(actions: seq<Action>, shardCount: nat, b: nat, t: Thread, w: WorkerId, chain: seq<Hash>)
    requires shardCount >= 1 && Possible(actions, shardCount) && b < |actions|
    requires actions[b] == StartMatch(t, w, chain)
    requires forall i | b < i < |actions| :: actions[i] != FinishMatch(t)
    ensures Possible(actions[..b], shardCount)
    ensures var c := CallOf(Run(actions, shardCount), t); (c.Reading? || c.Touching?) && c.worker == w && c.chain == chain
    ensures KeptSince(actions, shardCount, b, w, chain) ==>
              MatchedSoFar(Run(actions, shardCount), t, w, chain, Run(actions[..b], shardCount).m)
  {
    var init := actions[..|actions| - 1];
    if b < |init| {
      assert init[b] == actions[b];
      assert forall i | b < i < |init| :: init[i] == actions[i];
      MatchInProgress(init, shardCount, b, t, w, chain);
      assert init[..b] == actions[..b];
      assert actions[|actions| - 1] != FinishMatch(t);
      if KeptSince(actions, shardCount, b, w, chain) {
        KeptFrom(init, shardCount, b, w, chain);
        MatchGoesOn(Run(init, shardCount), actions[|actions| - 1], shardCount, t, w, chain, Run(actions[..b], shardCount).m);
      }
    } else {
      assert init == actions[..b];
    }
  }

  /** What a concurrent match returns. In every interleaving with recordings, matches, purges and
    * evictions it is at most the best prefix shared with a prompt whose recording for that worker had
    * begun by then. And it is at least what the index held when it began, if of the blocks asked about
    * none was taken from that worker meanwhile.
    */
  lemma ConcurrentMatchBounds(actions: seq<Action>, shardCount: nat, b: nat, t: Thread, w: WorkerId,
                              chain: seq<Hash>, chains: set<seq<Hash>>)
    requires shardCount >= 1 && Possible(actions, shardCount) && b < |actions|
    requires actions[b] == StartMatch(t, w, chain)
    requires forall i | b < i < |actions| :: actions[i] != FinishMatch(t)
    requires CallOf(Run(actions, shardCount), t).Touching?
    requires Coherent(chains) && chain in chains
    requires forall i | 0 <= i < |actions| && actions[i].StartRecord? :: actions[i].chain in chains
    ensures Possible(actions[..b], shardCount)
    ensures var k := CallOf(Run(actions, shardCount), t).matched;
            && (k == 0 || exists i: nat :: Begins(actions, i, w) && k <= Common(actions[i].chain, chain))
            && (KeptSince(actions, shardCount, b, w, chain) ==> Walk(Run(actions[..b], shardCount).m, w, chain) <= k)
  {
    var s := Run(actions, shardCount);
    var k := CallOf(s, t).matched;
    MatchInProgress(actions, shardCount, b, t, w, chain);
    SoundAlways(actions, shardCount);
    assert CallSent(s, s.calls[t]);
    if k > 0 {
      assert Sent(s, w, chain[k - 1]);
      var d :| (w, d) in s.started && chain[k - 1] in d;
      StartedIff(actions, shardCount, w, d);
      var i: nat :| Begins(actions, i, w) && actions[i].chain == d;
      History.SharedHashBoundsCommon(chains, d, chain, k - 1);
    }
  }

  lemma LaterKept(actions: seq<Action>, shardCount: nat, a: nat, b: nat, w: WorkerId, chain: seq<Hash>)
    requires shardCount >= 1 && Possible(actions, shardCount)
    requires a <= b && KeptSince(actions, shardCount, a, w, chain)
    ensures KeptSince(actions, shardCount, b, w, chain)
  {
    PrefixKept(actions, shardCount, a, b, |actions|, w, chain);
    assert actions[..|actions|] == actions;
  }

  lemma KeptLater(actions: seq<Action>, shardCount: nat, a: nat, b: nat, w: WorkerId, chain: seq<Hash>)
    requires shardCount >= 1 && Possible(actions, shardCount) && a <= b <= |actions|
    requires KeptSince(actions, shardCount, a, w, chain)
    ensures Possible(actions[..b], shardCount)
    ensures Keeps(Run(actions[..b], shardCount).m, Run(actions, shardCount).m, w, chain)
  {
    LaterKept(actions, shardCount, a, b, w, chain);
    KeptFrom(actions, shardCount, b, w, chain);
  }

  lemma RecordedBy(actions: seq<Action>, shardCount: nat, a: nat, n: nat, r: Thread, d: seq<Hash>, now: nat,
                   w: WorkerId, chain: seq<Hash>)
    requires shardCount >= 1 && Possible(actions, shardCount) && a + 1 < n <= |actions|
    requires actions[a] == StartRecord(r, w, d, now) && actions[n - 1] == FinishRecord(r)
    requires forall i | a < i < n - 1 :: actions[i] != FinishRecord(r)
    requires KeptSince(actions, shardCount, a, w, chain)
    ensures Possible(actions[..n], shardCount) && HoldsShared(Run(actions[..n], shardCount).m, w, d, chain)
  {
    PrefixKept(actions, shardCount, a, a, n, w, chain);
    RecordingDone(actions[..n], shardCount, a, r, w, d, now, chain);
  }

  /** What a finished recording leaves is still matched later. */
  lemma RecordingCovers(actions: seq<Action>, shardCount: nat, a: nat, e: nat, r: Thread, d: seq<Hash>, now: nat,
                        w: WorkerId, chain: seq<Hash>)
    requires shardCount >= 1 && Possible(actions, shardCount) && a < e < |actions|
    requires actions[a] == StartRecord(r, w, d, now) && actions[e] == FinishRecord(r)
    requires forall i | a < i < e :: actions[i] != FinishRecord(r)
    requires KeptSince(actions, shardCount, a, w, chain)
    ensures Common(d, chain) <= Walk(Run(actions, shardCount).m, w, chain)
  {
    var n := e + 1;
    RecordedBy(actions, shardCount, a, n, r, d, now, w, chain);
    KeptLater(actions, shardCount, a, n, w, chain);
    var before, after := Run(actions[..n], shardCount).m, Run(actions, shardCount).m;
    KeptBoundsWalk(before, after, w, d, chain);
  }

  /** The lower bound in terms of what was recorded: a recording that returned before the match began
    * counts in full, if since it started none of the blocks asked about was taken from that worker. What
    * was evicted or purged before, and whatever else is evicted or purged meanwhile, makes no difference;
    * nor does anything depend on collisions.
    */
  lemma CompletedRecordingCounts(actions: seq<Action>, shardCount: nat, a: nat, e: nat, r: Thread, d: seq<Hash>, now: nat,
                                 b: nat, t: Thread, w: WorkerId, chain: seq<Hash>)
    requires shardCount >= 1 && Possible(actions, shardCount) && a < e < b < |actions|
    requires actions[a] == StartRecord(r, w, d, now) && actions[e] == FinishRecord(r)
    requires forall i | a < i < e :: actions[i] != FinishRecord(r)
    requires actions[b] == StartMatch(t, w, chain)
    requires forall i | b < i < |actions| :: actions[i] != FinishMatch(t)
    requires CallOf(Run(actions, shardCount), t).Touching?
    requires KeptSince(actions, shardCount, a, w, chain)
    ensures Common(d, chain) <= CallOf(Run(actions, shardCount), t).matched
  {
    PrefixKept(actions, shardCount, a, a, b, w, chain);
    RecordingCovers(actions[..b], shardCount, a, e, r, d, now, w, chain);
    LaterKept(actions, shardCount, a, b, w, chain);
    MatchInProgress(actions, shardCount, b, t, w, chain);
  }

  // ---------------------------------------------------------------------------------------------
  // The purge as its caller sees it
  // ---------------------------------------------------------------------------------------------

  /** From position `b` on no thread writes a block for `w`. */
  ghost predicate NoWritesFor(actions: seq<Action>, shardCount: nat, b: nat, w: WorkerId)
    requires shardCount >= 1 && Possible(actions, shardCount)
  {
    |actions| > b ==>
      var init, a := actions[..|actions| - 1], actions[|actions| - 1];
      && NoWritesFor(init, shardCount, b, w)
      && (a.WriteBlock? ==> CallOf(Run(init, shardCount), a.t).worker != w)
  }

  ghost predicate Cleared(m: Flat, w: WorkerId, shards: nat, shardCount: nat)
    requires shardCount >= 1
  {
    forall h | Slot(h, shardCount) < shards :: !Holds(m, w, h)
  }

  /** How far `t`'s purge of `w` has come, and what is already gone. */
  ghost predicate PurgedSoFar(s: System, t: Thread, w: WorkerId, shardCount: nat)
    requires shardCount >= 1
  {
    match CallOf(s, t)
    case Idle => Cleared(s.m, w, shardCount, shardCount)
    case Purging(v, shard) => v == w && shard < shardCount && Cleared(s.m, w, shard, shardCount)
    case _ => false
  }

  lemma PurgeGoesOn(s: System, a: Action, shardCount: nat, t: Thread, w: WorkerId)
    requires shardCount >= 1 && Enabled(s, a, shardCount) && PurgedSoFar(s, t, w, shardCount)
    requires a.t == t ==> a.PurgeShard?
    requires a.WriteBlock? ==> CallOf(s, a.t).worker != w
    ensures PurgedSoFar(Apply(s, a, shardCount), t, w, shardCount)
  {
    NoNewCredit(s, a, shardCount, w);
    if a.t == t {
      PurgeAt(s.m, {w});
    }
  }

  /** A purge that is not raced by a recording for the same worker leaves that worker no credit when
    * it returns, whatever the other threads do meanwhile.
    */
  lemma {:induction false} ConcurrentPurgeClears(actions: seq<Action>, shardCount: nat, b: nat, t: Thread, w: WorkerId)
    requires shardCount >= 1 && Possible(actions, shardCount) && b < |actions|
    requires actions[b] == StartPurge(t, w)
    requires forall i | b < i < |actions| && actions[i].t == t :: actions[i].PurgeShard?
    requires NoWritesFor(actions, shardCount, b, w)
    ensures PurgedSoFar(Run(actions, shardCount), t, w, shardCount)
  {
    var init, a := actions[..|actions| - 1], actions[|actions| - 1];
    if b < |init| {
      assert init[b] == actions[b];
      assert forall i | b < i < |init| :: init[i] == actions[i];
      ConcurrentPurgeClears(init, shardCount, b, t, w);
      PurgeGoesOn(Run(init, shardCount), a, shardCount, t, w);
    }
  }

  lemma NoNewCredit(s: System, a: Action, shardCount: nat, w: WorkerId)
    requires shardCount >= 1 && Enabled(s, a, shardCount)
    requires a.WriteBlock? ==> CallOf(s, a.t).worker != w
    ensures forall h | Holds(Apply(s, a, shardCount).m, w, h) :: Holds(s.m, w, h)
  {
    forall h | Holds(Apply(s, a, shardCount).m, w, h) ensures Holds(s.m, w, h) {
      OnlyWritesCredit(s, a, shardCount, w, h);
    }
  }

  // ---------------------------------------------------------------------------------------------
  // What does not survive concurrency
  // ---------------------------------------------------------------------------------------------

  lemma OneMore(actions: seq<Action>, a: Action, shardCount: nat)
    requires shardCount >= 1 && Possible(actions, shardCount) && Enabled(Run(actions, shardCount), a, shardCount)
    ensures Possible(actions + [a], shardCount)
    ensures Run(actions + [a], shardCount) == Apply(Run(actions, shardCount), a, shardCount)
  {
    assert (actions + [a])[..|actions|] == actions;
  }

  /** Two threads recording one prompt: the clock is read before the loop and written over whatever is
    * there, so the head of the chain can end up older than its tail, and an expiry can then take the
    * head alone. Sequentially neither can happen (`History.AgesOrderedAlways`).
    */
  lemma RacingRecordsReverseAges(w: WorkerId, a: Hash, b: Hash, shardCount: nat)
    requires shardCount >= 1 && a != b
    ensures var actions := [StartRecord(0, w, [a, b], 1), StartRecord(1, w, [a, b], 2),
                            WriteBlock(1), WriteBlock(0), WriteBlock(0), WriteBlock(1)];
            && Possible(actions, shardCount)
            && !History.AgesOrdered(Run(actions, shardCount).m, {[a, b]})
            && a !in Expire(Run(actions, shardCount).m, 2, 0)
            && b in Expire(Run(actions, shardCount).m, 2, 0)
  {
    var c := [a, b];
    OneMore([], StartRecord(0, w, c, 1), shardCount);
    var r1 := [StartRecord(0, w, c, 1)];
    assert [] + [StartRecord(0, w, c, 1)] == r1;
    OneMore(r1, StartRecord(1, w, c, 2), shardCount);
    var r2 := r1 + [StartRecord(1, w, c, 2)];
    OneMore(r2, WriteBlock(1), shardCount);
    var r3 := r2 + [WriteBlock(1)];
    OneMore(r3, WriteBlock(0), shardCount);
    var r4 := r3 + [WriteBlock(0)];
    OneMore(r4, WriteBlock(0), shardCount);
    var r5 := r4 + [WriteBlock(0)];
    OneMore(r5, WriteBlock(1), shardCount);
    var r6 := r5 + [WriteBlock(1)];
    assert r6 == [StartRecord(0, w, c, 1), StartRecord(1, w, c, 2), WriteBlock(1), WriteBlock(0), WriteBlock(0), WriteBlock(1)];
    var m := Run(r6, shardCount).m;
    assert m[a].touched == 1 && m[b].touched == 2;
    assert c in {c} && c[0] in m && c[1] in m;
  }
}
