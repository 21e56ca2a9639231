/** A service of one pod that is replaced over and over, as a run of the discovery loop. */
module Churn {
  import opened Sequences
  import opened FlatIndex
  import opened Workers
  import opened Membership
  import opened Slots
  import opened Discovery

  /** Every event replaces the one URL of the one slice by another. */
  ghost predicate Replacements(events: seq<Event>, name: string, urls: seq<string>) {
    && |events| == |urls|
    && (forall k | 0 <= k < |urls| :: events[k] == ApplySlice(name, {urls[k]}))
    && (forall k | 0 < k < |urls| :: urls[k] != urls[k - 1])
  }

  lemma {:induction false} OneAdvertised(events: seq<Event>, name: string, urls: seq<string>, n: nat)
    requires Replacements(events, name, urls) && 1 <= n <= |events|
    ensures Slices(events[..n]) == map[name := {urls[n - 1]}]
    ensures Advertised(Slices(events[..n])) == {urls[n - 1]}
  {
    if n > 1 {
      OneAdvertised(events, name, urls, n - 1);
    } else {
      assert Slices(events[..0]) == map[];
    }
    assert events[..n][..n - 1] == events[..n - 1];
    assert Slices(events[..n]) == Slices(events[..n - 1])[name := {urls[n - 1]}];
    var slices: SliceMap := map[name := {urls[n - 1]}];
    assert Slices(events[..n]) == slices;
    assert urls[n - 1] in slices[name];
  }

  lemma OneIssued(known: map<string, WorkerId>, u: string, issued: seq<string>)
    requires Issues(known, {u}, issued) && u !in known
    ensures issued == [u]
  {
    assert u in issued;
    DistinctSize(issued);
    assert (set x | x in issued) == {u};
    assert issued[0] in issued;
  }

  lemma OneEnrolled(s: System, step: Step, s': System, u: string)
    requires step.Reconcile? && step.desired == {u} && Taken(s, step, s') && u !in s.byUrl
    ensures s'.nextId == s.nextId + 1 && s'.byUrl == map[u := s.nextId] && step.issued == [u]
  {
    OneIssued(s.byUrl, u, step.issued);
    ReconciledIds(s, step);
  }

  lemma {:induction false} OneLive(states: seq<System>, steps: seq<Step>, events: seq<Event>, name: string, urls: seq<string>, n: nat)
    requires WatchRun(states, steps, events) && Replacements(events, name, urls) && 1 <= n <= |events|
    requires states[0].byUrl == map[]
    ensures urls[n - 1] !in states[n - 1].byUrl
    ensures states[n].nextId == states[0].nextId + n
    ensures states[n].byUrl == map[urls[n - 1] := states[0].nextId + n - 1]
  {
    if n > 1 {
      OneLive(states, steps, events, name, urls, n - 1);
    }
    OneAdvertised(events, name, urls, n);
    assert steps[n - 1].desired == Advertised(Slices(events[..n - 1 + 1]));
    assert Taken(states[n - 1], steps[n - 1], states[n - 1 + 1]);
    OneEnrolled(states[n - 1], steps[n - 1], states[n], urls[n - 1]);
  }

  lemma OneChange(before: System, after: System, u: string, slots: nat)
    requires u !in before.byUrl && after.byUrl.Keys == {u}
    ensures NextSlots(before, after, slots) == if slots < 17 then 17 else slots
  {
    assert u in after.byUrl && |after.byUrl.Keys| == 1;
  }

  lemma {:induction false} SlotsWhileReplacing(states: seq<System>, steps: seq<Step>, events: seq<Event>, name: string,
                                               urls: seq<string>, n: nat, slots: nat)
    requires WatchRun(states, steps, events) && Replacements(events, name, urls) && 1 <= n <= |events|
    requires states[0].byUrl == map[]
    ensures SlotsAfter(states, n, slots) == if slots < 17 then 17 else slots
  {
    if n > 1 {
      SlotsWhileReplacing(states, steps, events, name, urls, n - 1, slots);
    }
    OneLive(states, steps, events, name, urls, n);
    OneChange(states[n - 1], states[n], urls[n - 1], SlotsAfter(states, n - 1, slots));
  }

  /** Ids grow with every replacement while the vector grows by live workers. So after `n` replacements the
    * one live worker has a slot exactly while configured workers and replacements together number at most
    * seventeen. From then on its requests are counted nowhere (`Inflight.AcquireExactIffSlot`).
    */
  lemma ChurnOutgrowsSlots(configs: seq<WorkerConfig>, states: seq<System>, steps: seq<Step>, events: seq<Event>,
                           name: string, urls: seq<string>, n: nat)
    requires WatchRun(states, steps, events) && states[0] == Start(configs)
    requires Replacements(events, name, urls) && 1 <= n <= |events|
    ensures states[n].byUrl == map[urls[n - 1] := |configs| + n - 1]
    ensures HasSlot(|configs| + n - 1, SlotsAfter(states, n, |configs|)) <==> |configs| + n <= 17
  {
    OneLive(states, steps, events, name, urls, n);
    SlotsWhileReplacing(states, steps, events, name, urls, n, |configs|);
  }
}
