/** The per-lock steps of `Interleaving` add up: a call that nobody interrupts has exactly the effect the
  * flat index gives the whole operation, and every sequential history is one of the interleavings.
  */
module Atomicity {
  import opened Sequences
  import opened Hashing
  import opened FlatIndex
  import opened PrefixIndex
  import opened Interleaving
  import History

  // ---------------------------------------------------------------------------------------------
  // Running one thread's call to its end
  // ---------------------------------------------------------------------------------------------

  ghost function WriteOut(s: System, t: Thread, shardCount: nat): System
    requires shardCount >= 1 && CallOf(s, t).Recording? && CallOf(s, t).pos <= |CallOf(s, t).chain|
    decreases |CallOf(s, t).chain| - CallOf(s, t).pos
  {
    if CallOf(s, t).pos == |CallOf(s, t).chain| then Apply(s, FinishRecord(t), shardCount)
    else WriteOut(Apply(s, WriteBlock(t), shardCount), t, shardCount)
  }

  ghost function ReadOut(s: System, t: Thread, now: nat, shardCount: nat): System
    requires shardCount >= 1 && CallOf(s, t).Reading? && CallOf(s, t).pos <= |CallOf(s, t).chain|
    decreases |CallOf(s, t).chain| - CallOf(s, t).pos
  {
    var s' := Apply(s, ReadBlock(t, now), shardCount);
    if CallOf(s', t).Touching? then s' else ReadOut(s', t, now, shardCount)
  }

  ghost function TouchOut(s: System, t: Thread, shardCount: nat): System
    requires shardCount >= 1 && CallOf(s, t).Touching?
    requires CallOf(s, t).pos <= CallOf(s, t).matched <= |CallOf(s, t).chain|
    decreases CallOf(s, t).matched - CallOf(s, t).pos
  {
    if CallOf(s, t).pos == CallOf(s, t).matched then Apply(s, FinishMatch(t), shardCount)
    else TouchOut(Apply(s, TouchBlock(t), shardCount), t, shardCount)
  }

  ghost function PurgeOut(s: System, t: Thread, shardCount: nat): System
    requires shardCount >= 1 && CallOf(s, t).Purging? && CallOf(s, t).shard < shardCount
    decreases shardCount - CallOf(s, t).shard
  {
    var s' := Apply(s, PurgeShard(t), shardCount);
    if CallOf(s', t).Idle? then s' else PurgeOut(s', t, shardCount)
  }

  ghost function ExpireOut(s: System, t: Thread, shardCount: nat): System
    requires shardCount >= 1 && CallOf(s, t).Expiring? && CallOf(s, t).shard <= shardCount
    decreases shardCount - CallOf(s, t).shard
  {
    if CallOf(s, t).shard == shardCount then s
    else ExpireOut(Apply(s, ExpireShard(t), shardCount), t, shardCount)
  }

  ghost function SweepOut(s: System, t: Thread, shardCount: nat): System
    requires shardCount >= 1 && CallOf(s, t).Sweeping? && CallOf(s, t).victims != []
    decreases |CallOf(s, t).victims|
  {
    var s' := Apply(s, SweepOne(t), shardCount);
    if CallOf(s', t).Idle? then s' else SweepOut(s', t, shardCount)
  }

  // ---------------------------------------------------------------------------------------------
  // Their effects
  // ---------------------------------------------------------------------------------------------

  lemma {:induction false} RestIsRecord(s: System, t: Thread, shardCount: nat)
    requires shardCount >= 1 && CallOf(s, t).Recording? && CallOf(s, t).pos <= |CallOf(s, t).chain|
    ensures var c := CallOf(s, t);
            && WriteOut(s, t, shardCount).m == Record(s.m, c.worker, c.chain[c.pos..], c.now)
            && CallOf(WriteOut(s, t, shardCount), t).Idle?
    decreases |CallOf(s, t).chain| - CallOf(s, t).pos
  {
    var c := CallOf(s, t);
    if c.pos < |c.chain| {
      RestIsRecord(Apply(s, WriteBlock(t), shardCount), t, shardCount);
      assert c.chain[c.pos..][1..] == c.chain[c.pos + 1..];
    }
  }

  lemma {:induction false} RestIsWalk(s: System, t: Thread, now: nat, shardCount: nat)
    requires shardCount >= 1 && CallOf(s, t).Reading? && CallOf(s, t).pos <= |CallOf(s, t).chain|
    ensures var c := CallOf(s, t);
            && ReadOut(s, t, now, shardCount).m == s.m
            && CallOf(ReadOut(s, t, now, shardCount), t)
               == Touching(c.worker, c.chain, c.pos + Walk(s.m, c.worker, c.chain[c.pos..]), 0, now)
    decreases |CallOf(s, t).chain| - CallOf(s, t).pos
  {
    var c := CallOf(s, t);
    if c.pos < |c.chain| && Holds(s.m, c.worker, c.chain[c.pos]) {
      RestIsWalk(Apply(s, ReadBlock(t, now), shardCount), t, now, shardCount);
      assert c.chain[c.pos..][1..] == c.chain[c.pos + 1..];
    }
  }

  lemma {:induction false} RestIsTouch(s: System, t: Thread, shardCount: nat)
    requires shardCount >= 1 && CallOf(s, t).Touching?
    requires CallOf(s, t).pos <= CallOf(s, t).matched <= |CallOf(s, t).chain|
    ensures var c := CallOf(s, t);
            && TouchOut(s, t, shardCount).m == Touch(s.m, c.chain[c.pos..c.matched], c.now)
            && CallOf(TouchOut(s, t, shardCount), t).Idle?
    decreases CallOf(s, t).matched - CallOf(s, t).pos
  {
    var c := CallOf(s, t);
    if c.pos < c.matched {
      var s' := Apply(s, TouchBlock(t), shardCount);
      RestIsTouch(s', t, shardCount);
      TouchSplit(s.m, c.chain[c.pos..c.matched], c.now);
      assert c.chain[c.pos..c.matched][1..] == c.chain[c.pos + 1..c.matched];
    }
  }

  lemma TouchSplit(m: Flat, hashes: seq<Hash>, now: nat)
    requires hashes != []
    ensures Touch(m, hashes, now) == Touch(Touch(m, [hashes[0]], now), hashes[1..], now)
  {
    assert [hashes[0]][1..] == [];
  }

  lemma {:induction false} RestIsPurge(s: System, t: Thread, shardCount: nat)
    requires shardCount >= 1 && CallOf(s, t).Purging? && CallOf(s, t).shard < shardCount && WellFormed(s.m)
    requires Cleared(s.m, CallOf(s, t).worker, CallOf(s, t).shard, shardCount)
    ensures PurgeOut(s, t, shardCount).m == Purge(s.m, {CallOf(s, t).worker})
    ensures CallOf(PurgeOut(s, t, shardCount), t).Idle?
    decreases shardCount - CallOf(s, t).shard
  {
    var c, s' := CallOf(s, t), Apply(s, PurgeShard(t), shardCount);
    PurgedShard(s.m, c.worker, c.shard, shardCount);
    if c.shard + 1 < shardCount {
      RestIsPurge(s', t, shardCount);
    } else {
      AlreadyPurged(s'.m, c.worker, shardCount);
    }
  }

  /** One shard's purge brings the whole purge nearer and changes nothing of its outcome. */
  lemma PurgedShard(m: Flat, w: WorkerId, shard: nat, shardCount: nat)
    requires shardCount >= 1 && WellFormed(m) && Cleared(m, w, shard, shardCount)
    ensures var m' := OnShard(m, Purge(m, {w}), shard, shardCount);
            WellFormed(m') && Cleared(m', w, shard + 1, shardCount) && Purge(m', {w}) == Purge(m, {w})
  {
    var p, m' := Purge(m, {w}), OnShard(m, Purge(m, {w}), shard, shardCount);
    PurgeKeepsWellFormed(m, {w});
    EachOldOrPurged(m, p, shard, shardCount);
    PurgeAt(m, {w});
    forall h | Slot(h, shardCount) < shard + 1 ensures !Holds(m', w, h) {
      assert Slot(h, shardCount) < shard ==> !Holds(m, w, h);
    }
    PurgedTwice(m, w, m');
  }

  lemma EachOldOrPurged(m: Flat, p: Flat, shard: nat, shardCount: nat)
    requires shardCount >= 1 && p.Keys <= m.Keys
    ensures var m' := OnShard(m, p, shard, shardCount);
            && m'.Keys <= m.Keys
            && (forall h | h in m' :: (h in p && m'[h] == p[h]) || m'[h] == m[h])
            && (forall h | h in m && h !in m' :: h !in p)
            && (forall h | h in m' && Slot(h, shardCount) == shard :: h in p && m'[h] == p[h])
  {
  }

  lemma PurgedTwice(m: Flat, w: WorkerId, m': Flat)
    requires m'.Keys <= m.Keys
    requires forall h | h in m' :: (h in Purge(m, {w}) && m'[h] == Purge(m, {w})[h]) || m'[h] == m[h]
    requires forall h | h in m && h !in m' :: h !in Purge(m, {w})
    ensures Purge(m', {w}) == Purge(m, {w})
  {
    var p, p' := Purge(m, {w}), Purge(m', {w});
    forall h | h in m'
      ensures h in p' <==> h in p
      ensures h in p ==> p'[h] == p[h]
    {
      WithoutAbsent(Without(m[h].workers, {w}), {w});
    }
    assert p'.Keys == p.Keys;
  }

  lemma AlreadyPurged(m: Flat, w: WorkerId, shardCount: nat)
    requires shardCount >= 1 && WellFormed(m) && Cleared(m, w, shardCount, shardCount)
    ensures Purge(m, {w}) == m
  {
    forall h | h in m ensures Without(m[h].workers, {w}) == m[h].workers {
      assert Slot(h, shardCount) < shardCount && !Holds(m, w, h);
      WithoutAbsent(m[h].workers, {w});
    }
  }

  /** Every entry of the shards below `shards` is fresh. */
  ghost predicate Swept(m: Flat, now: nat, ttl: nat, shards: nat, shardCount: nat)
    requires shardCount >= 1
  {
    forall h | h in m && Slot(h, shardCount) < shards :: Fresh(m[h], now, ttl)
  }

  lemma {:induction false} RestIsExpire(s: System, t: Thread, shardCount: nat)
    requires shardCount >= 1 && CallOf(s, t).Expiring? && CallOf(s, t).shard <= shardCount
    requires var c := CallOf(s, t); Swept(s.m, c.now, c.ttl, c.shard, shardCount)
    ensures var c := CallOf(s, t);
            && ExpireOut(s, t, shardCount).m == Expire(s.m, c.now, c.ttl)
            && CallOf(ExpireOut(s, t, shardCount), t) == Expiring(c.now, c.ttl, shardCount)
    decreases shardCount - CallOf(s, t).shard
  {
    var c := CallOf(s, t);
    if c.shard < shardCount {
      ExpiredShard(s.m, c.now, c.ttl, c.shard, shardCount);
      RestIsExpire(Apply(s, ExpireShard(t), shardCount), t, shardCount);
    } else {
      forall h | h in s.m ensures Fresh(s.m[h], c.now, c.ttl) {
        assert Slot(h, shardCount) < shardCount;
      }
    }
  }

  lemma ExpiredShard(m: Flat, now: nat, ttl: nat, shard: nat, shardCount: nat)
    requires shardCount >= 1 && Swept(m, now, ttl, shard, shardCount)
    ensures var m' := OnShard(m, Expire(m, now, ttl), shard, shardCount);
            Swept(m', now, ttl, shard + 1, shardCount) && Expire(m', now, ttl) == Expire(m, now, ttl)
  {
  }

  lemma {:induction false} RestIsSweep(s: System, t: Thread, shardCount: nat)
    requires shardCount >= 1 && CallOf(s, t).Sweeping? && CallOf(s, t).victims != []
    ensures SweepOut(s, t, shardCount).m == s.m - (set h | h in CallOf(s, t).victims)
    ensures CallOf(SweepOut(s, t, shardCount), t).Idle?
    decreases |CallOf(s, t).victims|
  {
    var v := CallOf(s, t).victims;
    if |v| > 1 {
      RestIsSweep(Apply(s, SweepOne(t), shardCount), t, shardCount);
      assert (set h | h in v) == {v[0]} + set h | h in v[1..];
    } else {
      assert v == [v[0]];
    }
  }

  // ---------------------------------------------------------------------------------------------
  // Whole calls
  // ---------------------------------------------------------------------------------------------

  lemma UninterruptedRecord(s: System, t: Thread, w: WorkerId, chain: seq<Hash>, now: nat, shardCount: nat)
    requires shardCount >= 1 && CallOf(s, t).Idle?
    ensures WriteOut(Apply(s, StartRecord(t, w, chain, now), shardCount), t, shardCount).m == Record(s.m, w, chain, now)
  {
    RestIsRecord(Apply(s, StartRecord(t, w, chain, now), shardCount), t, shardCount);
    assert chain[0..] == chain;
  }

  lemma UninterruptedMatch(s: System, t: Thread, w: WorkerId, chain: seq<Hash>, now: nat, shardCount: nat)
    requires shardCount >= 1 && CallOf(s, t).Idle?
    ensures var read := ReadOut(Apply(s, StartMatch(t, w, chain), shardCount), t, now, shardCount);
            && CallOf(read, t) == Touching(w, chain, Walk(s.m, w, chain), 0, now)
            && TouchOut(read, t, shardCount).m == Match(s.m, w, chain, now)
  {
    RestIsWalk(Apply(s, StartMatch(t, w, chain), shardCount), t, now, shardCount);
    assert chain[0..] == chain;
    RestIsTouch(ReadOut(Apply(s, StartMatch(t, w, chain), shardCount), t, now, shardCount), t, shardCount);
    assert chain[0..Walk(s.m, w, chain)] == chain[..Walk(s.m, w, chain)];
  }

  lemma UninterruptedPurge(s: System, t: Thread, w: WorkerId, shardCount: nat)
    requires shardCount >= 1 && CallOf(s, t).Idle? && WellFormed(s.m)
    ensures PurgeOut(Apply(s, StartPurge(t, w), shardCount), t, shardCount).m == Purge(s.m, {w})
  {
    RestIsPurge(Apply(s, StartPurge(t, w), shardCount), t, shardCount);
  }

  /** The expiry pass and then the sweep of whatever victims were listed. */
  lemma UninterruptedEvict(s: System, t: Thread, now: nat, ttl: nat, victims: seq<Hash>, shardCount: nat)
    requires shardCount >= 1 && CallOf(s, t).Idle?
    ensures var expired := ExpireOut(Apply(s, StartEvict(t, now, ttl), shardCount), t, shardCount);
            && Enabled(expired, ChooseVictims(t, victims), shardCount)
            && (victims != [] ==>
                  SweepOut(Apply(expired, ChooseVictims(t, victims), shardCount), t, shardCount).m
                  == Expire(s.m, now, ttl) - set h | h in victims)
  {
    RestIsExpire(Apply(s, StartEvict(t, now, ttl), shardCount), t, shardCount);
    var expired := ExpireOut(Apply(s, StartEvict(t, now, ttl), shardCount), t, shardCount);
    if victims != [] {
      RestIsSweep(Apply(expired, ChooseVictims(t, victims), shardCount), t, shardCount);
    }
  }

  // ---------------------------------------------------------------------------------------------
  // Sequential histories among the interleavings
  // ---------------------------------------------------------------------------------------------

  lemma StepKeepsWellFormed(s: System, a: Action, shardCount: nat)
    requires shardCount >= 1 && Enabled(s, a, shardCount) && WellFormed(s.m)
    ensures WellFormed(Apply(s, a, shardCount).m)
  {
    var c := CallOf(s, a.t);
    match a
    case WriteBlock(_) => RecordKeepsWellFormed(s.m, c.worker, [c.chain[c.pos]], c.now);
    case TouchBlock(_) => TouchKeepsWellFormed(s.m, [c.chain[c.pos]], c.now);
    case PurgeShard(_) => PurgeKeepsWellFormed(s.m, {c.worker});
    case _ =>
  }

  /** In every state of every interleaving each entry has workers, and no worker twice. */
  lemma {:induction false} WellFormedAlways(actions: seq<Action>, shardCount: nat)
    requires shardCount >= 1 && Possible(actions, shardCount)
    ensures WellFormed(Run(actions, shardCount).m)
  {
    if actions != [] {
      WellFormedAlways(actions[..|actions| - 1], shardCount);
      StepKeepsWellFormed(Run(actions[..|actions| - 1], shardCount), actions[|actions| - 1], shardCount);
    }
  }

  /** `longer` is a possible run that goes on from `actions` and ends in `s`. */
  ghost predicate Reaches(actions: seq<Action>, longer: seq<Action>, s: System, shardCount: nat)
    requires shardCount >= 1
  {
    actions <= longer && Possible(longer, shardCount) && Run(longer, shardCount) == s
  }

  lemma Step(actions: seq<Action>, a: Action, shardCount: nat) returns (longer: seq<Action>)
    requires shardCount >= 1 && Possible(actions, shardCount) && Enabled(Run(actions, shardCount), a, shardCount)
    ensures Reaches(actions, longer, Apply(Run(actions, shardCount), a, shardCount), shardCount)
  {
    OneMore(actions, a, shardCount);
    longer := actions + [a];
  }

  lemma {:induction false} WriteOutRuns(actions: seq<Action>, t: Thread, shardCount: nat) returns (longer: seq<Action>)
    requires shardCount >= 1 && Possible(actions, shardCount)
    requires var c := CallOf(Run(actions, shardCount), t); c.Recording? && c.pos <= |c.chain|
    ensures Reaches(actions, longer, WriteOut(Run(actions, shardCount), t, shardCount), shardCount)
    decreases var c := CallOf(Run(actions, shardCount), t); |c.chain| - c.pos
  {
    var c := CallOf(Run(actions, shardCount), t);
    if c.pos == |c.chain| {
      longer := Step(actions, FinishRecord(t), shardCount);
    } else {
      longer := Step(actions, WriteBlock(t), shardCount);
      longer := WriteOutRuns(longer, t, shardCount);
    }
  }

  lemma {:induction false} ReadOutRuns(actions: seq<Action>, t: Thread, now: nat, shardCount: nat) returns (longer: seq<Action>)
    requires shardCount >= 1 && Possible(actions, shardCount)
    requires var c := CallOf(Run(actions, shardCount), t); c.Reading? && c.pos <= |c.chain|
    ensures Reaches(actions, longer, ReadOut(Run(actions, shardCount), t, now, shardCount), shardCount)
    decreases var c := CallOf(Run(actions, shardCount), t); |c.chain| - c.pos
  {
    longer := Step(actions, ReadBlock(t, now), shardCount);
    if !CallOf(Run(longer, shardCount), t).Touching? {
      longer := ReadOutRuns(longer, t, now, shardCount);
    }
  }

  lemma {:induction false} TouchOutRuns(actions: seq<Action>, t: Thread, shardCount: nat) returns (longer: seq<Action>)
    requires shardCount >= 1 && Possible(actions, shardCount)
    requires var c := CallOf(Run(actions, shardCount), t); c.Touching? && c.pos <= c.matched <= |c.chain|
    ensures Reaches(actions, longer, TouchOut(Run(actions, shardCount), t, shardCount), shardCount)
    decreases var c := CallOf(Run(actions, shardCount), t); c.matched - c.pos
  {
    var c := CallOf(Run(actions, shardCount), t);
    if c.pos == c.matched {
      longer := Step(actions, FinishMatch(t), shardCount);
    } else {
      longer := Step(actions, TouchBlock(t), shardCount);
      longer := TouchOutRuns(longer, t, shardCount);
    }
  }

  lemma {:induction false} PurgeOutRuns(actions: seq<Action>, t: Thread, shardCount: nat) returns (longer: seq<Action>)
    requires shardCount >= 1 && Possible(actions, shardCount)
    requires var c := CallOf(Run(actions, shardCount), t); c.Purging? && c.shard < shardCount
    ensures Reaches(actions, longer, PurgeOut(Run(actions, shardCount), t, shardCount), shardCount)
    decreases shardCount - CallOf(Run(actions, shardCount), t).shard
  {
    longer := Step(actions, PurgeShard(t), shardCount);
    if !CallOf(Run(longer, shardCount), t).Idle? {
      longer := PurgeOutRuns(longer, t, shardCount);
    }
  }

  lemma {:induction false} ExpireOutRuns(actions: seq<Action>, t: Thread, shardCount: nat) returns (longer: seq<Action>)
    requires shardCount >= 1 && Possible(actions, shardCount)
    requires var c := CallOf(Run(actions, shardCount), t); c.Expiring? && c.shard <= shardCount
    ensures Reaches(actions, longer, ExpireOut(Run(actions, shardCount), t, shardCount), shardCount)
    decreases shardCount - CallOf(Run(actions, shardCount), t).shard
  {
    if CallOf(Run(actions, shardCount), t).shard == shardCount {
      longer := actions;
    } else {
      longer := Step(actions, ExpireShard(t), shardCount);
      longer := ExpireOutRuns(longer, t, shardCount);
    }
  }

  lemma {:induction false} SweepOutRuns(actions: seq<Action>, t: Thread, shardCount: nat) returns (longer: seq<Action>)
    requires shardCount >= 1 && Possible(actions, shardCount)
    requires var c := CallOf(Run(actions, shardCount), t); c.Sweeping? && c.victims != []
    ensures Reaches(actions, longer, SweepOut(Run(actions, shardCount), t, shardCount), shardCount)
    decreases |CallOf(Run(actions, shardCount), t).victims|
  {
    longer := Step(actions, SweepOne(t), shardCount);
    if !CallOf(Run(longer, shardCount), t).Idle? {
      longer := SweepOutRuns(longer, t, shardCount);
    }
  }

  lemma RecordRuns(actions: seq<Action>, t: Thread, w: WorkerId, chain: seq<Hash>, now: nat, shardCount: nat)
    returns (longer: seq<Action>)
    requires shardCount >= 1 && Possible(actions, shardCount) && CallOf(Run(actions, shardCount), t).Idle?
    ensures Possible(longer, shardCount) && CallOf(Run(longer, shardCount), t).Idle?
    ensures Run(longer, shardCount).m == Record(Run(actions, shardCount).m, w, chain, now)
  {
    longer := Step(actions, StartRecord(t, w, chain, now), shardCount);
    UninterruptedRecord(Run(actions, shardCount), t, w, chain, now, shardCount);
    RestIsRecord(Run(longer, shardCount), t, shardCount);
    longer := WriteOutRuns(longer, t, shardCount);
  }

  lemma MatchRuns(actions: seq<Action>, t: Thread, w: WorkerId, chain: seq<Hash>, now: nat, shardCount: nat)
    returns (longer: seq<Action>)
    requires shardCount >= 1 && Possible(actions, shardCount) && CallOf(Run(actions, shardCount), t).Idle?
    ensures Possible(longer, shardCount) && CallOf(Run(longer, shardCount), t).Idle?
    ensures Run(longer, shardCount).m == Match(Run(actions, shardCount).m, w, chain, now)
  {
    longer := Step(actions, StartMatch(t, w, chain), shardCount);
    UninterruptedMatch(Run(actions, shardCount), t, w, chain, now, shardCount);
    longer := ReadOutRuns(longer, t, now, shardCount);
    RestIsTouch(Run(longer, shardCount), t, shardCount);
    longer := TouchOutRuns(longer, t, shardCount);
  }

  lemma PurgeRuns(actions: seq<Action>, t: Thread, w: WorkerId, shardCount: nat) returns (longer: seq<Action>)
    requires shardCount >= 1 && Possible(actions, shardCount) && CallOf(Run(actions, shardCount), t).Idle?
    ensures Possible(longer, shardCount) && CallOf(Run(longer, shardCount), t).Idle?
    ensures Run(longer, shardCount).m == Purge(Run(actions, shardCount).m, {w})
  {
    WellFormedAlways(actions, shardCount);
    longer := Step(actions, StartPurge(t, w), shardCount);
    RestIsPurge(Run(longer, shardCount), t, shardCount);
    longer := PurgeOutRuns(longer, t, shardCount);
  }

  lemma EvictRuns(actions: seq<Action>, t: Thread, now: nat, ttl: nat, victims: seq<Hash>, shardCount: nat)
    returns (longer: seq<Action>)
    requires shardCount >= 1 && Possible(actions, shardCount) && CallOf(Run(actions, shardCount), t).Idle?
    ensures Possible(longer, shardCount) && CallOf(Run(longer, shardCount), t).Idle?
    ensures Run(longer, shardCount).m == Expire(Run(actions, shardCount).m, now, ttl) - set h | h in victims
  {
    longer := Step(actions, StartEvict(t, now, ttl), shardCount);
    RestIsExpire(Run(longer, shardCount), t, shardCount);
    longer := ExpireOutRuns(longer, t, shardCount);
    longer := Step(longer, ChooseVictims(t, victims), shardCount);
    if victims != [] {
      RestIsSweep(Run(longer, shardCount), t, shardCount);
      longer := SweepOutRuns(longer, t, shardCount);
    }
  }

  lemma {:induction false} ListOf(s: set<Hash>) returns (list: seq<Hash>)
    ensures forall h :: h in list <==> h in s
  {
    if s == {} {
      list := [];
    } else {
      var x :| x in s;
      var rest := ListOf(s - {x});
      list := [x] + rest;
    }
  }

  /** Whatever is said of all interleavings is said of every sequential history: one thread making the calls
    * one after the other ends with the very index the history does.
    */
  lemma {:induction false} HistoryIsAnInterleaving(ops: seq<History.Op>, t: Thread, shardCount: nat) returns (actions: seq<Action>)
    requires shardCount >= 1
    ensures Possible(actions, shardCount) && CallOf(Run(actions, shardCount), t).Idle?
    ensures Run(actions, shardCount).m == History.State(ops)
  {
    if ops == [] {
      actions := [];
    } else {
      actions := HistoryIsAnInterleaving(ops[..|ops| - 1], t, shardCount);
      match ops[|ops| - 1]
      case RecordOp(w, chain, now) => actions := RecordRuns(actions, t, w, chain, now, shardCount);
      case MatchOp(w, chain, now) => actions := MatchRuns(actions, t, w, chain, now, shardCount);
      case PurgeOp(w) => actions := PurgeRuns(actions, t, w, shardCount);
      case EvictOp(now, ttl, _, gone) =>
        var victims := ListOf(gone);
        assert (set h | h in victims) == gone;
        actions := EvictRuns(actions, t, now, ttl, victims, shardCount);
    }
  }
}
