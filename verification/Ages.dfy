/** Times under concurrency: exactly when a step sets an entry's time back, and a discipline under which
  * everything proved about ages in sequential runs holds of interleavings too.
  */
module Ages {
  import opened Hashing
  import opened FlatIndex
  import opened Interleaving
  import History

  // ---------------------------------------------------------------------------------------------
  // One step
  // ---------------------------------------------------------------------------------------------

  predicate Writing(c: Call) {
    c.Recording? || c.Touching?
  }

  /** The step sets the time of the block its call has come to. */
  predicate Sets(a: Action) {
    a.WriteBlock? || a.TouchBlock?
  }

  function Block(s: System, a: Action, shardCount: nat): Hash
    requires Enabled(s, a, shardCount) && Sets(a)
  {
    CallOf(s, a.t).chain[CallOf(s, a.t).pos]
  }

  function Stamp(s: System, a: Action, shardCount: nat): nat
    requires Enabled(s, a, shardCount) && Sets(a)
  {
    CallOf(s, a.t).now
  }

  /** What a step does to times: a write or touch sets its block's to its call's reading, and no step
    * changes any other.
    */
  lemma TimesAfter(s: System, a: Action, shardCount: nat, h: Hash)
    requires shardCount >= 1 && Enabled(s, a, shardCount) && h in Apply(s, a, shardCount).m
    ensures h !in s.m ==> a.WriteBlock? && Block(s, a, shardCount) == h
    ensures Apply(s, a, shardCount).m[h].touched
            == if Sets(a) && Block(s, a, shardCount) == h then Stamp(s, a, shardCount) else s.m[h].touched
  {
    if a.TouchBlock? {
      TouchAt(s.m, [CallOf(s, a.t).chain[CallOf(s, a.t).pos]], CallOf(s, a.t).now);
    }
  }

  /** A step sets an entry's time back exactly when it writes or touches that entry with a reading older
    * than the entry.
    */
  lemma TimeGoesBackIff(s: System, a: Action, shardCount: nat, h: Hash)
    requires shardCount >= 1 && Enabled(s, a, shardCount) && h in s.m && h in Apply(s, a, shardCount).m
    ensures Apply(s, a, shardCount).m[h].touched < s.m[h].touched
            <==> Sets(a) && Block(s, a, shardCount) == h && Stamp(s, a, shardCount) < s.m[h].touched
  {
    TimesAfter(s, a, shardCount, h);
  }

  ghost predicate NotBack(m: Flat, m': Flat) {
    forall h | h in m && h in m' :: m[h].touched <= m'[h].touched
  }

  /** The step's reading is not older than the entry it overwrites, if there is one. */
  predicate Timely(s: System, a: Action, shardCount: nat)
    requires Enabled(s, a, shardCount)
  {
    Sets(a) && Block(s, a, shardCount) in s.m ==> s.m[Block(s, a, shardCount)].touched <= Stamp(s, a, shardCount)
  }

  ghost predicate NeverBack(actions: seq<Action>, shardCount: nat)
    requires shardCount >= 1 && Possible(actions, shardCount)
  {
    actions != [] ==>
      var init := actions[..|actions| - 1];
      NeverBack(init, shardCount) && NotBack(Run(init, shardCount).m, Run(actions, shardCount).m)
  }

  ghost predicate AlwaysTimely(actions: seq<Action>, shardCount: nat)
    requires shardCount >= 1 && Possible(actions, shardCount)
  {
    actions != [] ==>
      var init := actions[..|actions| - 1];
      AlwaysTimely(init, shardCount) && Timely(Run(init, shardCount), actions[|actions| - 1], shardCount)
  }

  lemma StepNotBackIff(s: System, a: Action, shardCount: nat)
    requires shardCount >= 1 && Enabled(s, a, shardCount)
    ensures NotBack(s.m, Apply(s, a, shardCount).m) <==> Timely(s, a, shardCount)
  {
    var s' := Apply(s, a, shardCount);
    forall h | h in s.m && h in s'.m
      ensures s'.m[h].touched < s.m[h].touched
              <==> Sets(a) && Block(s, a, shardCount) == h && Stamp(s, a, shardCount) < s.m[h].touched
    {
      TimeGoesBackIff(s, a, shardCount, h);
    }
    if Sets(a) {
      StillThere(s, a, shardCount);
    }
  }

  lemma StillThere(s: System, a: Action, shardCount: nat)
    requires shardCount >= 1 && Enabled(s, a, shardCount) && Sets(a)
    ensures forall h | h in s.m :: h in Apply(s, a, shardCount).m
  {
    if a.TouchBlock? {
      TouchAt(s.m, [CallOf(s, a.t).chain[CallOf(s, a.t).pos]], CallOf(s, a.t).now);
    }
  }

  /** In a run no entry's time ever goes back exactly when no write or touch came with a reading older than
    * the entry it overwrote. The time then is that of the entry's last write or match.
    */
  lemma {:induction false} TimesNeverGoBackIff(actions: seq<Action>, shardCount: nat)
    requires shardCount >= 1 && Possible(actions, shardCount)
    ensures NeverBack(actions, shardCount) <==> AlwaysTimely(actions, shardCount)
  {
    if actions != [] {
      var init := actions[..|actions| - 1];
      TimesNeverGoBackIff(init, shardCount);
      StepNotBackIff(Run(init, shardCount), actions[|actions| - 1], shardCount);
    }
  }

  // ---------------------------------------------------------------------------------------------
  // A discipline that suffices
  // ---------------------------------------------------------------------------------------------

  /** The chains share no block. */
  ghost predicate Apart(c: seq<Hash>, d: seq<Hash>) {
    forall h | h in c :: h !in d
  }

  /** The step takes the clock reading its call will write with. */
  predicate Begins(s: System, a: Action) {
    || a.StartRecord?
    || (a.ReadBlock? && var c := CallOf(s, a.t);
          c.Reading? && (c.pos >= |c.chain| || !Holds(s.m, c.worker, c.chain[c.pos])))
  }

  function ChainOf(s: System, a: Action): seq<Hash>
    requires Begins(s, a)
  {
    if a.StartRecord? then a.chain else CallOf(s, a.t).chain
  }

  /** The latest reading any call began to write with. */
  ghost function Clock(actions: seq<Action>, shardCount: nat): nat
    requires shardCount >= 1 && Possible(actions, shardCount)
  {
    if actions == [] then 0
    else
      var init, a := actions[..|actions| - 1], actions[|actions| - 1];
      if Begins(Run(init, shardCount), a) then a.now else Clock(init, shardCount)
  }

  /** No other call is writing a block of `chain`. */
  ghost predicate Alone(s: System, t: Thread, chain: seq<Hash>) {
    forall u | u in s.calls && u != t && Writing(s.calls[u]) :: Apart(s.calls[u].chain, chain)
  }

  /** The clock does not go back, and no two calls write a common block at the same time. */
  ghost predicate Disciplined(actions: seq<Action>, shardCount: nat, chains: set<seq<Hash>>)
    requires shardCount >= 1 && Possible(actions, shardCount)
  {
    actions != [] ==>
      var init, a := actions[..|actions| - 1], actions[|actions| - 1];
      var s := Run(init, shardCount);
      && Disciplined(init, shardCount, chains)
      && (a.StartRecord? || a.StartMatch? ==> a.chain in chains)
      && (Begins(s, a) ==> Clock(init, shardCount) <= a.now && Alone(s, a.t, ChainOf(s, a)))
  }

  /** What the call has written is as old as its reading, and no chain that shares a block with its own has
    * anything younger.
    */
  ghost predicate CallOrdered(m: Flat, c: Call, chains: set<seq<Hash>>, clock: nat) {
    && (Writing(c) || c.Reading? ==> c.chain in chains && c.pos <= |c.chain|)
    && (Writing(c) ==>
          && c.now <= clock
          && (forall k | 0 <= k < c.pos && c.chain[k] in m :: m[c.chain[k]].touched == c.now)
          && KinNotAfter(m, chains, c.chain, c.now))
  }

  ghost predicate Kin(chains: set<seq<Hash>>, c: seq<Hash>, h: Hash) {
    exists d :: d in chains && h in d && !Apart(c, d)
  }

  ghost predicate KinNotAfter(m: Flat, chains: set<seq<Hash>>, c: seq<Hash>, now: nat) {
    forall h | h in m && Kin(chains, c, h) :: m[h].touched <= now
  }

  ghost predicate OrderedState(s: System, chains: set<seq<Hash>>, clock: nat) {
    && History.AgesOrdered(s.m, chains)
    && History.NotAfter(s.m, clock)
    && (forall t | t in s.calls :: CallOrdered(s.m, s.calls[t], chains, clock))
    && (forall t, u | t in s.calls && u in s.calls && t != u && Writing(s.calls[t]) && Writing(s.calls[u]) ::
          Apart(s.calls[t].chain, s.calls[u].chain))
  }

  /** Chains of a coherent family that share a block share their first; so being kin to two chains makes
    * those two kin.
    */
  lemma KinOfBoth(chains: set<seq<Hash>>, c: seq<Hash>, d: seq<Hash>, h: Hash)
    requires Coherent(chains) && c in chains && d in chains && h in c && Kin(chains, d, h)
    ensures !Apart(c, d)
  {
    var e :| e in chains && h in e && !Apart(d, e);
    var g :| g in d && g in e;
    SharedHead(chains, c, e, h);
    SharedHead(chains, d, e, g);
    assert c[0] in c && d[0] in d;
  }

  lemma SharedHead(chains: set<seq<Hash>>, c: seq<Hash>, d: seq<Hash>, h: Hash)
    requires Coherent(chains) && c in chains && d in chains && h in c && h in d
    ensures c[0] == d[0]
  {
    var i :| 0 <= i < |c| && c[i] == h;
    var j :| 0 <= j < |d| && d[j] == h;
    assert c[0] == c[..i + 1][0] == d[..j + 1][0] == d[0];
  }

  /** A write or touch in an ordered state leaves the ages ordered. */
  lemma SetKeepsAges(s: System, a: Action, shardCount: nat, chains: set<seq<Hash>>, clock: nat)
    requires shardCount >= 1 && Enabled(s, a, shardCount) && Sets(a)
    requires Coherent(chains) && OrderedState(s, chains, clock)
    ensures History.AgesOrdered(Apply(s, a, shardCount).m, chains)
  {
    var m, m', call := s.m, Apply(s, a, shardCount).m, CallOf(s, a.t);
    var b := call.chain[call.pos];
    assert CallOrdered(m, call, chains, clock);
    forall c, i, j | c in chains && 0 <= i <= j < |c| && c[i] in m' && c[j] in m'
      ensures m'[c[i]].touched >= m'[c[j]].touched
    {
      TimesAfter(s, a, shardCount, c[i]);
      TimesAfter(s, a, shardCount, c[j]);
      if c[i] == b {
        assert c[j] in c && b in c && b in call.chain;
        assert Kin(chains, call.chain, c[j]);
      } else if c[j] == b {
        AncestorWritten(chains, call.chain, c, call.pos, i, j);
      }
    }
  }

  lemma AncestorWritten(chains: set<seq<Hash>>, d: seq<Hash>, c: seq<Hash>, pos: nat, i: nat, j: nat)
    requires Coherent(chains) && d in chains && c in chains && pos < |d| && i <= j < |c|
    requires c[j] == d[pos] && c[i] != d[pos]
    ensures i < pos && c[i] == d[i]
  {
    assert j == pos && c[..j + 1] == d[..pos + 1];
    assert c[i] == c[..j + 1][i] == d[..pos + 1][i] == d[i];
  }

  /** What a write or touch does to the order kept for another call: nothing, since they are apart. */
  lemma SetKeepsOther(s: System, a: Action, shardCount: nat, chains: set<seq<Hash>>, clock: nat, u: Thread)
    requires shardCount >= 1 && Enabled(s, a, shardCount) && Sets(a)
    requires Coherent(chains) && OrderedState(s, chains, clock) && u in s.calls && u != a.t
    ensures CallOrdered(Apply(s, a, shardCount).m, s.calls[u], chains, clock)
  {
    var m, m', call, other := s.m, Apply(s, a, shardCount).m, CallOf(s, a.t), s.calls[u];
    var b := call.chain[call.pos];
    assert CallOrdered(m, call, chains, clock) && CallOrdered(m, other, chains, clock);
    if Writing(other) {
      assert b in call.chain && Apart(call.chain, other.chain);
      forall h | h in m' && (h in other.chain || Kin(chains, other.chain, h))
        ensures h in m && m'[h].touched == m[h].touched
      {
        TimesAfter(s, a, shardCount, h);
        if h == b {
          KinOfBoth(chains, call.chain, other.chain, b);
        }
      }
      assert forall k | 0 <= k < other.pos :: other.chain[k] in other.chain;
    }
  }

  lemma SetKeepsOwn(s: System, a: Action, shardCount: nat, chains: set<seq<Hash>>, clock: nat)
    requires shardCount >= 1 && Enabled(s, a, shardCount) && Sets(a)
    requires Coherent(chains) && OrderedState(s, chains, clock)
    ensures var s' := Apply(s, a, shardCount);
            CallOrdered(s'.m, s'.calls[a.t], chains, clock) && History.NotAfter(s'.m, clock)
  {
    var s', call := Apply(s, a, shardCount), CallOf(s, a.t);
    assert CallOrdered(s.m, call, chains, clock);
    forall h | h in s'.m
      ensures h == call.chain[call.pos] ==> s'.m[h].touched == call.now
      ensures h != call.chain[call.pos] ==> h in s.m && s'.m[h].touched == s.m[h].touched
    {
      TimesAfter(s, a, shardCount, h);
    }
  }

  lemma SetKeepsOrder(s: System, a: Action, shardCount: nat, chains: set<seq<Hash>>, clock: nat)
    requires shardCount >= 1 && Enabled(s, a, shardCount) && Sets(a)
    requires Coherent(chains) && OrderedState(s, chains, clock)
    ensures OrderedState(Apply(s, a, shardCount), chains, clock)
  {
    var s' := Apply(s, a, shardCount);
    SetKeepsAges(s, a, shardCount, chains, clock);
    SetKeepsOwn(s, a, shardCount, chains, clock);
    forall u | u in s'.calls ensures CallOrdered(s'.m, s'.calls[u], chains, clock) {
      if u != a.t {
        SetKeepsOther(s, a, shardCount, chains, clock, u);
      }
    }
    assert Writing(CallOf(s, a.t)) && s'.calls[a.t].chain == CallOf(s, a.t).chain;
  }

  /** Entries may go, but none comes or changes its time. */
  ghost predicate Fewer(m: Flat, m': Flat) {
    forall h | h in m' :: h in m && m'[h].touched == m[h].touched
  }

  lemma FewerKeepsCall(m: Flat, m': Flat, c: Call, chains: set<seq<Hash>>, clock: nat, clock': nat)
    requires Fewer(m, m') && CallOrdered(m, c, chains, clock) && clock <= clock'
    ensures CallOrdered(m', c, chains, clock')
  {
  }

  lemma OtherKeepsOrder(s: System, a: Action, shardCount: nat, chains: set<seq<Hash>>, clock: nat, clock': nat)
    requires shardCount >= 1 && Enabled(s, a, shardCount) && !Sets(a)
    requires OrderedState(s, chains, clock) && clock <= clock'
    requires a.StartRecord? || a.StartMatch? ==> a.chain in chains
    requires Begins(s, a) ==> clock' == a.now && Alone(s, a.t, ChainOf(s, a))
    ensures OrderedState(Apply(s, a, shardCount), chains, clock')
  {
    var s' := Apply(s, a, shardCount);
    forall h | h in s'.m ensures h in s.m && s'.m[h].touched == s.m[h].touched {
      TimesAfter(s, a, shardCount, h);
    }
    forall u | u in s'.calls && u != a.t ensures CallOrdered(s'.m, s'.calls[u], chains, clock') {
      FewerKeepsCall(s.m, s'.m, s.calls[u], chains, clock, clock');
    }
    OtherKeepsOwn(s, a, shardCount, chains, clock, clock');
    forall t, u | t in s'.calls && u in s'.calls && t != u && Writing(s'.calls[t]) && Writing(s'.calls[u])
      ensures Apart(s'.calls[t].chain, s'.calls[u].chain)
    {
      WritersApart(s, a, shardCount, chains, clock, t, u);
    }
  }

  lemma OtherKeepsOwn(s: System, a: Action, shardCount: nat, chains: set<seq<Hash>>, clock: nat, clock': nat)
    requires shardCount >= 1 && Enabled(s, a, shardCount) && !Sets(a)
    requires OrderedState(s, chains, clock) && clock <= clock'
    requires a.StartRecord? || a.StartMatch? ==> a.chain in chains
    requires Begins(s, a) ==> clock' == a.now
    requires Fewer(s.m, Apply(s, a, shardCount).m)
    ensures var s' := Apply(s, a, shardCount); CallOrdered(s'.m, s'.calls[a.t], chains, clock')
  {
    var s', c := Apply(s, a, shardCount), CallOf(s, a.t);
    if !c.Idle? {
      assert CallOrdered(s.m, c, chains, clock);
    }
    if Begins(s, a) {
      assert History.NotAfter(s'.m, a.now);
    }
  }

  lemma WritersApart(s: System, a: Action, shardCount: nat, chains: set<seq<Hash>>, clock: nat, t: Thread, u: Thread)
    requires shardCount >= 1 && Enabled(s, a, shardCount) && !Sets(a) && OrderedState(s, chains, clock)
    requires Begins(s, a) ==> Alone(s, a.t, ChainOf(s, a))
    requires var s' := Apply(s, a, shardCount);
             t in s'.calls && u in s'.calls && t != u && Writing(s'.calls[t]) && Writing(s'.calls[u])
    ensures var s' := Apply(s, a, shardCount); Apart(s'.calls[t].chain, s'.calls[u].chain)
  {
    var s' := Apply(s, a, shardCount);
    if t == a.t {
      assert Begins(s, a) && s'.calls[t].chain == ChainOf(s, a) && s'.calls[u] == s.calls[u];
    } else if u == a.t {
      assert Begins(s, a) && s'.calls[u].chain == ChainOf(s, a) && s'.calls[t] == s.calls[t];
    } else {
      assert s'.calls[t] == s.calls[t] && s'.calls[u] == s.calls[u];
    }
  }

  lemma {:induction false} OrderedAlways(actions: seq<Action>, shardCount: nat, chains: set<seq<Hash>>)
    requires shardCount >= 1 && Possible(actions, shardCount)
    requires Coherent(chains) && Disciplined(actions, shardCount, chains)
    ensures OrderedState(Run(actions, shardCount), chains, Clock(actions, shardCount))
  {
    if actions != [] {
      var init, a := actions[..|actions| - 1], actions[|actions| - 1];
      OrderedAlways(init, shardCount, chains);
      if Sets(a) {
        SetKeepsOrder(Run(init, shardCount), a, shardCount, chains, Clock(init, shardCount));
      } else {
        OtherKeepsOrder(Run(init, shardCount), a, shardCount, chains, Clock(init, shardCount), Clock(actions, shardCount));
      }
    }
  }

  lemma OrderedIsTimely(s: System, a: Action, shardCount: nat, chains: set<seq<Hash>>, clock: nat)
    requires shardCount >= 1 && Enabled(s, a, shardCount) && OrderedState(s, chains, clock)
    ensures Timely(s, a, shardCount)
  {
    if Sets(a) {
      var c := CallOf(s, a.t);
      assert CallOrdered(s.m, c, chains, clock);
      var b := c.chain[c.pos];
      assert b in c.chain && Kin(chains, c.chain, b);
    }
  }

  /** In interleavings whose clock does not go back and in which no two calls write a common block at the
    * same time, ages are ordered along every chain, exactly as in sequential runs, and no entry's time ever
    * goes back. Any number of calls on other chains, purges and evictions may run meanwhile.
    */
  lemma {:induction false} AgesOrderedWithoutOverlap(actions: seq<Action>, shardCount: nat, chains: set<seq<Hash>>)
    requires shardCount >= 1 && Possible(actions, shardCount)
    requires Coherent(chains) && Disciplined(actions, shardCount, chains)
    ensures History.AgesOrdered(Run(actions, shardCount).m, chains)
    ensures NeverBack(actions, shardCount)
  {
    OrderedAlways(actions, shardCount, chains);
    if actions != [] {
      var init := actions[..|actions| - 1];
      AgesOrderedWithoutOverlap(init, shardCount, chains);
      OrderedAlways(init, shardCount, chains);
      OrderedIsTimely(Run(init, shardCount), actions[|actions| - 1], shardCount, chains, Clock(init, shardCount));
      StepNotBackIff(Run(init, shardCount), actions[|actions| - 1], shardCount);
    }
  }
}
