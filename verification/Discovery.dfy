/** Worker discovery and the health poller: the loops that change registry, index and in-flight slots, and
  * what one watch stream keeps.
  */
module Discovery {
  import opened Sequences
  import opened Hashing
  import opened FlatIndex
  import opened PrefixIndex
  import opened Workers
  import opened Inflight
  import opened Membership
  import opened Slots

  /** Registrations owned by discovery, keyed by URL. */
  class DiscoveredWorkers {
    var byUrl: map<string, WorkerId>

    constructor ()
      ensures byUrl == map[]
    {
      byUrl := map[];
    }
  }

  ghost function SystemOf(registry: WorkerRegistry, index: PrefixIndex, discovered: DiscoveredWorkers): System
    reads registry, index, discovered
  {
    System(registry.workers, registry.nextId, index.flat, discovered.byUrl)
  }

  /** Reconcile registry and index against the desired URLs: one step of `Membership`, whatever order the
    * sets are walked in.
    */
  method ReconcileWorkers(registry: WorkerRegistry, index: PrefixIndex, discovered: DiscoveredWorkers, desired: set<string>)
    returns (removed: nat, added: nat, ghost issued: seq<string>)
    requires registry.Valid() && index.Valid()
    modifies registry, index, index.shards, discovered
    ensures registry.Valid() && index.Valid()
    ensures Taken(old(SystemOf(registry, index, discovered)), Reconcile(desired, issued), SystemOf(registry, index, discovered))
    ensures removed == |old(discovered.byUrl).Keys - desired|
    ensures added == |desired - old(discovered.byUrl).Keys|
  {
    ghost var s := SystemOf(registry, index, discovered);
    removed := DropGone(registry, index, discovered, desired);
    added, issued := EnrollNew(registry, discovered, desired);
    assert desired - Kept(s.byUrl, desired).Keys == desired - s.byUrl.Keys;
    assert Enabled(s, Reconcile(desired, issued));
  }

  method DropGone(registry: WorkerRegistry, index: PrefixIndex, discovered: DiscoveredWorkers, desired: set<string>)
    returns (removed: nat)
    requires registry.Valid() && index.Valid()
    modifies registry`workers, index, index.shards, discovered
    ensures registry.Valid() && index.Valid()
    ensures discovered.byUrl == Kept(old(discovered.byUrl), desired)
    ensures registry.workers == old(registry.workers) - GoneIds(old(discovered.byUrl), desired)
    ensures index.flat == Purge(old(index.flat), GoneIds(old(discovered.byUrl), desired))
    ensures removed == |old(discovered.byUrl).Keys - desired|
  {
    var gone := discovered.byUrl.Keys - desired;
    removed := |gone|;
    ghost var before, m, workers := discovered.byUrl, index.flat, registry.workers;
    NoneDropped(before, desired, workers, m);
    while gone != {}
      invariant registry.Valid() && index.Valid()
      invariant gone <= before.Keys - desired
      invariant discovered.byUrl == before - Dropped(before, desired, gone)
      invariant registry.workers == workers - IdsOf(before, Dropped(before, desired, gone))
      invariant index.flat == Purge(m, IdsOf(before, Dropped(before, desired, gone)))
      decreases gone
    {
      var url :| url in gone;
      DropMore(before, desired, workers, m, gone, url);
      DropOne(registry, index, discovered, url);
      gone := gone - {url};
    }
    AllDropped(before, desired);
  }

  /** The URLs already dropped while those in `gone` are still to go. */
  ghost function Dropped(byUrl: map<string, WorkerId>, desired: set<string>, gone: set<string>): set<string> {
    byUrl.Keys - desired - gone
  }

  lemma NoneDropped(byUrl: map<string, WorkerId>, desired: set<string>, workers: Registry, m: Flat)
    requires WellFormed(m)
    ensures var done := Dropped(byUrl, desired, byUrl.Keys - desired);
            byUrl - done == byUrl && workers - IdsOf(byUrl, done) == workers && Purge(m, IdsOf(byUrl, done)) == m
  {
    assert IdsOf(byUrl, Dropped(byUrl, desired, byUrl.Keys - desired)) == {};
    PurgeNobody(m);
  }

  lemma DropMore(byUrl: map<string, WorkerId>, desired: set<string>, workers: Registry, m: Flat, gone: set<string>, url: string)
    requires url in gone && gone <= byUrl.Keys - desired
    ensures url in byUrl - Dropped(byUrl, desired, gone)
    ensures var done, done' := Dropped(byUrl, desired, gone), Dropped(byUrl, desired, gone - {url});
            && (byUrl - done) - {url} == byUrl - done'
            && (workers - IdsOf(byUrl, done)) - {byUrl[url]} == workers - IdsOf(byUrl, done')
            && Purge(Purge(m, IdsOf(byUrl, done)), {byUrl[url]}) == Purge(m, IdsOf(byUrl, done'))
  {
    var done, done' := Dropped(byUrl, desired, gone), Dropped(byUrl, desired, gone - {url});
    assert done' == done + {url};
    assert IdsOf(byUrl, done') == IdsOf(byUrl, done) + {byUrl[url]};
    PurgeTwice(m, IdsOf(byUrl, done), {byUrl[url]});
  }

  lemma AllDropped(byUrl: map<string, WorkerId>, desired: set<string>)
    ensures IdsOf(byUrl, Dropped(byUrl, desired, {})) == GoneIds(byUrl, desired)
    ensures byUrl - Dropped(byUrl, desired, {}) == Kept(byUrl, desired)
  {
  }

  ghost function IdsOf(byUrl: map<string, WorkerId>, urls: set<string>): set<WorkerId> {
    set u | u in urls && u in byUrl :: byUrl[u]
  }

  /** One turn of the removal loop. */
  method DropOne(registry: WorkerRegistry, index: PrefixIndex, discovered: DiscoveredWorkers, url: string)
    requires registry.Valid() && index.Valid() && url in discovered.byUrl
    modifies registry`workers, index, index.shards, discovered
    ensures registry.Valid() && index.Valid()
    ensures discovered.byUrl == old(discovered.byUrl) - {url}
    ensures registry.workers == old(registry.workers) - {old(discovered.byUrl)[url]}
    ensures index.flat == Purge(old(index.flat), {old(discovered.byUrl)[url]})
  {
    var id := discovered.byUrl[url];
    discovered.byUrl := discovered.byUrl - {url};
    index.RemoveWorker(id);
    var _ := registry.RemoveWorker(id);
  }

  method EnrollNew(registry: WorkerRegistry, discovered: DiscoveredWorkers, desired: set<string>)
    returns (added: nat, ghost issued: seq<string>)
    requires registry.Valid()
    modifies registry, discovered
    ensures registry.Valid()
    ensures Issues(old(discovered.byUrl), desired, issued)
    ensures registry.workers == EnrollWorkers(old(registry.workers), old(registry.nextId), issued)
    ensures registry.nextId == old(registry.nextId) + |issued|
    ensures discovered.byUrl == EnrollUrls(old(discovered.byUrl), old(registry.nextId), issued)
    ensures added == |desired - old(discovered.byUrl).Keys|
  {
    added := 0;
    issued := [];
    var todo := desired;
    ghost var byUrl, workers, nextId := discovered.byUrl, registry.workers, registry.nextId;
    NothingIssued(byUrl, desired);
    while todo != {}
      invariant registry.Valid()
      invariant todo <= desired && Issues(byUrl, desired - todo, issued) && added == |issued|
      invariant registry.workers == EnrollWorkers(workers, nextId, issued)
      invariant registry.nextId == nextId + |issued|
      invariant discovered.byUrl == EnrollUrls(byUrl, nextId, issued)
      decreases todo
    {
      var url :| url in todo;
      IssueMore(byUrl, nextId, desired, todo, issued, url);
      if url !in discovered.byUrl {
        var id := EnrollOne(registry, discovered, url);
        EnrollMore(workers, byUrl, nextId, issued, url);
        issued := issued + [url];
        added := added + 1;
      }
      todo := todo - {url};
    }
    IssuedCount(byUrl, desired, issued);
  }

  lemma NothingIssued(byUrl: map<string, WorkerId>, desired: set<string>)
    ensures Issues(byUrl, desired - desired, [])
  {
  }

  lemma IssueMore(byUrl: map<string, WorkerId>, nextId: nat, desired: set<string>, todo: set<string>,
                  issued: seq<string>, url: string)
    requires Issues(byUrl, desired - todo, issued) && url in todo && todo <= desired
    ensures url in EnrollUrls(byUrl, nextId, issued) <==> url in byUrl
    ensures Issues(byUrl, desired - (todo - {url}), if url in byUrl then issued else issued + [url])
  {
    EnrolledUrlsAt(byUrl, nextId, issued);
    assert url !in issued;
  }

  lemma EnrollMore(workers: Registry, byUrl: map<string, WorkerId>, nextId: nat, issued: seq<string>, url: string)
    ensures var id := nextId + |issued|;
            && EnrollWorkers(workers, nextId, issued + [url])
               == EnrollWorkers(workers, nextId, issued)[id := WorkerState(Worker(id, url, Both), false)]
            && EnrollUrls(byUrl, nextId, issued + [url]) == EnrollUrls(byUrl, nextId, issued)[url := id]
  {
    assert (issued + [url])[..|issued|] == issued;
  }

  lemma IssuedCount(byUrl: map<string, WorkerId>, desired: set<string>, issued: seq<string>)
    requires Issues(byUrl, desired - {}, issued)
    ensures Issues(byUrl, desired, issued)
    ensures |issued| == |desired - byUrl.Keys|
  {
    DistinctSize(issued);
    assert (set u | u in issued) == desired - byUrl.Keys;
  }

  /** One turn of the registration loop. */
  method EnrollOne(registry: WorkerRegistry, discovered: DiscoveredWorkers, url: string) returns (id: WorkerId)
    requires registry.Valid()
    modifies registry, discovered
    ensures registry.Valid()
    ensures id == old(registry.nextId) && registry.nextId == id + 1
    ensures registry.workers == old(registry.workers)[id := WorkerState(Worker(id, url, Both), false)]
    ensures discovered.byUrl == old(discovered.byUrl)[url := id]
  {
    id := registry.RegisterWorker(url, Both);
    discovered.byUrl := discovered.byUrl[url := id];
  }

  lemma PurgeNobody(m: Flat)
    requires WellFormed(m)
    ensures Purge(m, {}) == m
  {
    forall h | h in m ensures Without(m[h].workers, {}) == m[h].workers {
      WithoutAbsent(m[h].workers, {});
    }
  }

  // ---------------------------------------------------------------------------------------------
  // One watch stream
  // ---------------------------------------------------------------------------------------------

  datatype Event =
    | InitApply(name: string, urls: set<string>)
    | ApplySlice(name: string, urls: set<string>)
    | Delete(name: string)
    | Init
    | InitDone

  type SliceMap = map<string, set<string>>

  function Track(slices: SliceMap, event: Event): SliceMap {
    match event
    case InitApply(name, urls) => slices[name := urls]
    case ApplySlice(name, urls) => slices[name := urls]
    case Delete(name) => slices - {name}
    case Init => slices
    case InitDone => slices
  }

  function Advertised(slices: SliceMap): set<string> {
    set name, u | name in slices && u in slices[name] :: u
  }

  function Slices(events: seq<Event>): SliceMap {
    if events == [] then map[] else Track(Slices(events[..|events| - 1]), events[|events| - 1])
  }

  /** A membership run with one reconciliation per event, each against the union of the slices so far. */
  ghost predicate WatchRun(states: seq<System>, steps: seq<Step>, events: seq<Event>) {
    && Run(states, steps) && |steps| == |events|
    && forall k | 0 <= k < |events| :: steps[k].Reconcile? && steps[k].desired == Advertised(Slices(events[..k + 1]))
  }

  lemma LongerRun(states: seq<System>, steps: seq<Step>, events: seq<Event>, before: seq<Event>, after: System, step: Step)
    requires WatchRun(states, steps, before) && |events| == |before| + 1 && before == events[..|before|]
    requires Taken(states[|steps|], step, after)
    requires step.Reconcile? && step.desired == Advertised(Slices(events))
    ensures WatchRun(states + [after], steps + [step], events)
  {
    var states', steps' := states + [after], steps + [step];
    forall i | 0 <= i < |steps'| ensures Taken(states'[i], steps'[i], states'[i + 1]) {
      assert i < |steps| ==> Taken(states[i], steps[i], states[i + 1]);
    }
    forall k | 0 <= k < |events| ensures steps'[k].Reconcile? && steps'[k].desired == Advertised(Slices(events[..k + 1])) {
      if k < |before| {
        assert events[..k + 1] == before[..k + 1];
      } else {
        assert events[..k + 1] == events;
      }
    }
  }

  /** The run so far, from `start` to `now`, and the slots it leaves. */
  ghost predicate Watched(states: seq<System>, steps: seq<Step>, events: seq<Event>, start: System, now: System,
                          slots: nat, slotsNow: nat)
  {
    && WatchRun(states, steps, events)
    && states[0] == start && states[|events|] == now
    && slotsNow == SlotsAfter(states, |events|, slots)
  }

  lemma WatchedFurther(states: seq<System>, steps: seq<Step>, events: seq<Event>, start: System, now: System,
                       slots: nat, slotsNow: nat, event: Event, after: System, step: Step)
    requires Watched(states, steps, events, start, now, slots, slotsNow)
    requires Taken(now, step, after) && step.Reconcile? && step.desired == Advertised(Slices(events + [event]))
    ensures Watched(states + [after], steps + [step], events + [event], start, after, slots, NextSlots(now, after, slotsNow))
  {
    assert (events + [event])[..|events|] == events;
    LongerRun(states, steps, events + [event], events, after, step);
    assert (states + [after])[|events|] == now;
    SlotsOfPrefix(states, [after], |events|, slots);
  }

  /** The event loop. It is a membership run, so everything proved about those runs holds of it; after
    * every event discovery owns exactly the URLs that some tracked slice advertises; and the in-flight
    * vector has grown by the rule of `Slots`, no count changing.
    */
  method WatchOnce(registry: WorkerRegistry, index: PrefixIndex, discovered: DiscoveredWorkers, inflight: InflightTracker,
                   events: seq<Event>)
    requires registry.Valid() && index.Valid()
    modifies registry, index, index.shards, discovered, inflight
    ensures registry.Valid() && index.Valid()
    ensures events != [] ==> discovered.byUrl.Keys == Advertised(Slices(events))
    ensures exists states, steps ::
              Watched(states, steps, events, old(SystemOf(registry, index, discovered)), SystemOf(registry, index, discovered),
                      |old(inflight.counts)|, |inflight.counts|)
    ensures forall w: WorkerId :: CountOf(inflight.counts, w) == CountOf(old(inflight.counts), w)
  {
    var slices: SliceMap := map[];
    ghost var start, slots := SystemOf(registry, index, discovered), |inflight.counts|;
    ghost var states, steps := [start], [];
    for i := 0 to |events|
      invariant registry.Valid() && index.Valid()
      invariant slices == Slices(events[..i])
      invariant i > 0 ==> discovered.byUrl.Keys == Advertised(slices)
      invariant Watched(states, steps, events[..i], start, SystemOf(registry, index, discovered), slots, |inflight.counts|)
      invariant forall w: WorkerId :: CountOf(inflight.counts, w) == CountOf(old(inflight.counts), w)
    {
      assert events[..i + 1] == events[..i] + [events[i]];
      slices := Track(slices, events[i]);
      ghost var before, count := SystemOf(registry, index, discovered), |inflight.counts|;
      ghost var step := HandleDesired(registry, index, discovered, inflight, Advertised(slices));
      ghost var after := SystemOf(registry, index, discovered);
      WatchedFurther(states, steps, events[..i], start, before, slots, count, events[i], after, step);
      states := states + [after];
      steps := steps + [step];
    }
    assert events[..|events|] == events;
  }

  /** The body of the event loop once the slices are updated. */
  method HandleDesired(registry: WorkerRegistry, index: PrefixIndex, discovered: DiscoveredWorkers, inflight: InflightTracker,
                       desired: set<string>)
    returns (ghost step: Step)
    requires registry.Valid() && index.Valid()
    modifies registry, index, index.shards, discovered, inflight
    ensures registry.Valid() && index.Valid()
    ensures step.Reconcile? && step.desired == desired
    ensures Taken(old(SystemOf(registry, index, discovered)), step, SystemOf(registry, index, discovered))
    ensures discovered.byUrl.Keys == desired
    ensures |inflight.counts|
            == NextSlots(old(SystemOf(registry, index, discovered)), SystemOf(registry, index, discovered), |old(inflight.counts)|)
    ensures forall w: WorkerId :: CountOf(inflight.counts, w) == CountOf(old(inflight.counts), w)
  {
    ghost var before := SystemOf(registry, index, discovered);
    var removed, added;
    ghost var issued;
    removed, added, issued := ReconcileWorkers(registry, index, discovered, desired);
    step := Reconcile(desired, issued);
    UrlsBecomeDesired(before, step, SystemOf(registry, index, discovered));
    ChangedIff(before.byUrl.Keys, desired);
    MakeRoom(inflight, |discovered.byUrl|, removed + added > 0);
  }

  lemma ChangedIff(known: set<string>, desired: set<string>)
    ensures |known - desired| + |desired - known| > 0 <==> desired != known
  {
    if desired != known {
      assert known - desired != {} || desired - known != {};
    }
  }

  /** After a change the vector grows by the number of live discovered workers; no count changes. */
  method MakeRoom(inflight: InflightTracker, live: nat, changed: bool)
    modifies inflight
    ensures inflight.counts == if changed then Inflight.Apply(old(inflight.counts), Grow(live + 16)) else old(inflight.counts)
    ensures forall w: WorkerId :: CountOf(inflight.counts, w) == CountOf(old(inflight.counts), w)
  {
    if changed {
      inflight.EnsureCapacity(live + 16);
    }
  }

  lemma UrlsBecomeDesired(before: System, step: Step, after: System)
    requires step.Reconcile? && Taken(before, step, after)
    ensures after.byUrl.Keys == step.desired
  {
    ReconciledUrls(before, step);
  }

  /** An event for one slice never removes a URL that another tracked slice advertises. */
  lemma OtherSlicesKeepUrls(slices: SliceMap, event: Event, name: string, u: string)
    requires name in slices && u in slices[name]
    requires event.Init? || event.InitDone? || event.name != name
    ensures u in Advertised(Track(slices, event))
  {
    assert name in Track(slices, event) && Track(slices, event)[name] == slices[name];
  }

  predicate Tracked(events: seq<Event>, name: string, u: string) {
    name in Slices(events) && u in Slices(events)[name]
  }

  predicate Names(event: Event, name: string) {
    !event.Init? && !event.InitDone? && event.name == name
  }

  /** `events[i]` is the last to name the slice, and lists the URL for it. */
  predicate LastWord(events: seq<Event>, name: string, u: string, i: nat) {
    && i < |events| && Names(events[i], name) && !events[i].Delete? && u in events[i].urls
    && forall j | i < j < |events| :: !Names(events[j], name)
  }

  predicate Unnamed(events: seq<Event>, name: string) {
    forall i | 0 <= i < |events| :: !Names(events[i], name)
  }

  /** What a slice is taken to advertise is what the last event that named it said, relists or not. */
  lemma {:induction false} TrackedIsLastWord(events: seq<Event>, name: string, u: string)
    ensures Tracked(events, name, u) <==> exists i :: LastWord(events, name, u, i)
  {
    if events != [] {
      var init, last := events[..|events| - 1], events[|events| - 1];
      TrackedIsLastWord(init, name, u);
      if Names(last, name) {
        assert Tracked(events, name, u) ==> LastWord(events, name, u, |init|);
      } else {
        assert Tracked(events, name, u) <==> Tracked(init, name, u);
        forall i: nat ensures LastWord(events, name, u, i) <==> LastWord(init, name, u, i) {
          LastWordStep(events, name, u, i);
        }
      }
    }
  }

  /** What the slices advertise together: exactly what the last word on some slice lists. */
  lemma AdvertisedIff(events: seq<Event>, u: string)
    ensures u in Advertised(Slices(events)) <==> exists name, i :: LastWord(events, name, u, i)
  {
    forall name: string ensures Tracked(events, name, u) <==> exists i :: LastWord(events, name, u, i) {
      TrackedIsLastWord(events, name, u);
    }
    if u in Advertised(Slices(events)) {
      var name :| name in Slices(events) && u in Slices(events)[name];
      assert Tracked(events, name, u);
      var i :| LastWord(events, name, u, i);
    } else {
      forall name: string, i: nat ensures !LastWord(events, name, u, i) {
        assert !Tracked(events, name, u);
      }
    }
  }

  lemma LastWordStep(events: seq<Event>, name: string, u: string, i: nat)
    requires events != [] && !Names(events[|events| - 1], name)
    ensures LastWord(events, name, u, i) <==> LastWord(events[..|events| - 1], name, u, i)
  {
    var init := events[..|events| - 1];
    if LastWord(init, name, u, i) {
      assert forall j | i < j < |init| :: events[j] == init[j];
    }
  }

  /** The slice map is not cleared when the watcher lists again. So a URL stays advertised by its slice
    * exactly until that slice is named again without it: a slice that vanished while the watch was down
    * stays, however long the new listing goes on, and nothing but its own name can take it out.
    */
  lemma {:induction false} VanishedSliceStays(events: seq<Event>, more: seq<Event>, name: string, u: string)
    requires Tracked(events, name, u)
    ensures Tracked(events + more, name, u) <==> Unnamed(more, name) || exists i :: LastWord(more, name, u, i)
  {
    if more == [] {
      assert events + more == events;
    } else {
      var init, last := more[..|more| - 1], more[|more| - 1];
      VanishedSliceStays(events, init, name, u);
      assert (events + more)[..|events + more| - 1] == events + init;
      if Names(last, name) {
        assert Tracked(events + more, name, u) ==> LastWord(more, name, u, |init|);
      } else {
        assert Unnamed(more, name) <==> Unnamed(init, name);
        forall i: nat ensures LastWord(more, name, u, i) <==> LastWord(init, name, u, i) {
          LastWordStep(more, name, u, i);
        }
      }
    }
  }

  /** How many of the steps are reconciliations. */
  function Reconciles(steps: seq<Step>): nat {
    if steps == [] then 0
    else Reconciles(steps[..|steps| - 1]) + if steps[|steps| - 1].Reconcile? then 1 else 0
  }

  /** The `k`-th step reconciles for the next event. */
  ghost predicate ForNextEvent(steps: seq<Step>, events: seq<Event>, k: nat)
    requires k < |steps|
  {
    var n := Reconciles(steps[..k]);
    n < |events| && steps[k].Reconcile? && steps[k].desired == Advertised(Slices(events[..n + 1]))
  }

  /** A run during one watch stream: one reconciliation per event, and between them any number of requests,
    * polls, registrations and evictions.
    */
  ghost predicate StreamRun(states: seq<System>, steps: seq<Step>, events: seq<Event>) {
    && Run(states, steps)
    && forall k | 0 <= k < |steps| && steps[k].Reconcile? :: ForNextEvent(steps, events, k)
  }

  /** The event loop's own run is one with nothing in between. */
  lemma WatchIsStream(states: seq<System>, steps: seq<Step>, events: seq<Event>)
    requires WatchRun(states, steps, events)
    ensures StreamRun(states, steps, events)
    ensures forall k | 0 <= k <= |steps| :: Reconciles(steps[..k]) == k
  {
    forall k | 0 <= k <= |steps| ensures Reconciles(steps[..k]) == k {
      AllReconcile(steps, k);
    }
  }

  lemma {:induction false} AllReconcile(steps: seq<Step>, k: nat)
    requires k <= |steps| && forall i | 0 <= i < |steps| :: steps[i].Reconcile?
    ensures Reconciles(steps[..k]) == k
  {
    if k > 0 {
      AllReconcile(steps, k - 1);
      assert steps[..k][..k - 1] == steps[..k - 1];
    }
  }

  /** The first `k` steps have handled the first events, one each. */
  lemma {:induction false} HandledSoFar(states: seq<System>, steps: seq<Step>, events: seq<Event>, k: nat, u: string)
    requires StreamRun(states, steps, events) && k <= |steps|
    ensures Reconciles(steps[..k]) <= |events|
    ensures (forall j | 0 <= j < k && steps[j].Reconcile? :: u in steps[j].desired)
            <==> forall n | 1 <= n <= Reconciles(steps[..k]) :: u in Advertised(Slices(events[..n]))
  {
    if k > 0 {
      HandledSoFar(states, steps, events, k - 1, u);
      assert steps[..k][..k - 1] == steps[..k - 1];
      assert steps[k - 1].Reconcile? ==> ForNextEvent(steps, events, k - 1);
    }
  }

  /** A worker discovered before the stream keeps its id exactly as long as some tracked slice advertises it
    * after every event, whatever requests, polls, registrations and evictions come in between; otherwise it
    * is gone for good, credited nothing. That an event for one slice never removes another's workers holds
    * exactly as far as the other slice has been seen by this stream.
    */
  lemma SurvivesStreamIff(states: seq<System>, steps: seq<Step>, events: seq<Event>, u: string, k: nat)
    requires StreamRun(states, steps, events) && Good(states[0]) && u in states[0].byUrl && k <= |steps|
    ensures Reconciles(steps[..k]) <= |events|
    ensures Survives(states, k, u)
            <==> forall n | 1 <= n <= Reconciles(steps[..k]) :: u in Advertised(Slices(events[..n]))
    ensures !Survives(states, k, u) ==>
              && states[0].byUrl[u] !in states[k].workers
              && forall h :: !Holds(states[k].index, states[0].byUrl[u], h)
  {
    HandledSoFar(states, steps, events, k, u);
    SurvivesIff(states, steps, k, u);
  }

  /** Events alone take nothing from a worker that survives them. */
  lemma EventsKeepCredit(states: seq<System>, steps: seq<Step>, events: seq<Event>, u: string, k: nat)
    requires WatchRun(states, steps, events) && Good(states[0]) && u in states[0].byUrl && k <= |events|
    requires Survives(states, k, u)
    ensures SameCredit(states[0].index, states[k].index, states[0].byUrl[u])
  {
    SurvivesIff(states, steps, k, u);
    SurvivorsKeepCredit(states, steps, 0, k, u);
  }

  /** Slices are forgotten when the watch itself is restarted, while the discovered workers are not. A new
    * watch opens with `Init`, before any slice is known, so every worker discovered earlier is dropped for
    * good: its URL may come back, but under a new id and with no credit.
    */
  lemma RestartForgetsWorkers(states: seq<System>, steps: seq<Step>, events: seq<Event>, u: string, k: nat, chain: seq<Hash>)
    requires StreamRun(states, steps, events) && Good(states[0])
    requires events != [] && events[0] == Init
    requires u in states[0].byUrl && k <= |steps| && Reconciles(steps[..k]) >= 1
    ensures states[0].byUrl[u] !in states[k].workers
    ensures Walk(states[k].index, states[0].byUrl[u], chain) == 0
    ensures u in states[k].byUrl ==> states[k].byUrl[u] != states[0].byUrl[u]
  {
    NothingAdvertised(events);
    SurvivesStreamIff(states, steps, events, u, k);
    assert u !in Advertised(Slices(events[..1]));
    assert !Survives(states, k, u);
  }

  lemma NothingAdvertised(events: seq<Event>)
    requires events != [] && events[0] == Init
    ensures Advertised(Slices(events[..1])) == {}
  {
    assert events[..1] == [Init] && [Init][..0] == [];
    assert Slices([Init]) == map[];
  }

  // ---------------------------------------------------------------------------------------------
  // Health
  // ---------------------------------------------------------------------------------------------

  ghost function SystemWith(registry: WorkerRegistry, index: PrefixIndex, byUrl: map<string, WorkerId>): System
    reads registry, index
  {
    System(registry.workers, registry.nextId, index.flat, byUrl)
  }

  /** The poller's reaction to one probe result. */
  method HandleProbe(registry: WorkerRegistry, index: PrefixIndex, id: WorkerId, up: bool, ghost byUrl: map<string, WorkerId>)
    requires registry.Valid() && index.Valid()
    modifies registry`workers, index, index.shards
    ensures registry.Valid() && index.Valid()
    ensures SystemWith(registry, index, byUrl) == Membership.Apply(old(SystemWith(registry, index, byUrl)), Poll(id, up))
  {
    var changed := registry.SetHealthy(id, up);
    if changed {
      if !up {
        index.RemoveWorker(id);
      }
    } else {
      assert registry.workers == old(registry.workers);
    }
  }

  /** One round over all workers. Afterwards health mirrors the probes, a worker found down is credited
    * nothing, and a worker found up has lost nothing.
    */
  method PollRound(registry: WorkerRegistry, index: PrefixIndex, probe: WorkerId -> bool, ghost byUrl: map<string, WorkerId>)
    requires registry.Valid() && index.Valid() && Good(SystemWith(registry, index, byUrl))
    modifies registry`workers, index, index.shards
    ensures registry.Valid() && index.Valid() && Good(SystemWith(registry, index, byUrl))
    ensures registry.workers.Keys == old(registry.workers).Keys
    ensures forall id | id in registry.workers :: registry.workers[id].healthy == probe(id)
    ensures forall w, h :: Holds(index.flat, w, h) <==> Holds(old(index.flat), w, h) && probe(w)
  {
    var all := registry.AllWorkers();
    ghost var s := SystemWith(registry, index, byUrl);
    for i := 0 to |all|
      invariant registry.Valid() && index.Valid() && Good(SystemWith(registry, index, byUrl))
      invariant Polled(s, SystemWith(registry, index, byUrl), all[..i], probe)
    {
      PollMore(s, SystemWith(registry, index, byUrl), all, i, probe);
      HandleProbe(registry, index, all[i].id, probe(all[i].id), byUrl);
    }
    assert all[..|all|] == all;
    AllPolled(s, SystemWith(registry, index, byUrl), all, probe);
  }

  /** The effect of having probed `done`. */
  ghost predicate Polled(before: System, after: System, done: seq<Worker>, probe: WorkerId -> bool) {
    && after.workers.Keys == before.workers.Keys
    && (forall w | w in done :: w.id in after.workers && after.workers[w.id].healthy == probe(w.id))
    && (forall w, h | Holds(after.index, w, h) :: Holds(before.index, w, h))
    && (forall w, h | Holds(before.index, w, h) && probe(w) :: Holds(after.index, w, h))
  }

  lemma PollMore(before: System, after: System, all: seq<Worker>, i: nat, probe: WorkerId -> bool)
    requires Listing(all, AllSet(before.workers)) && ValidRegistry(before.workers, before.nextId) && i < |all|
    requires Good(after) && Polled(before, after, all[..i], probe)
    ensures var next := Membership.Apply(after, Poll(all[i].id, probe(all[i].id)));
            Good(next) && Polled(before, next, all[..i + 1], probe)
  {
    var id := all[i].id;
    assert all[i] in all && all[i] in AllSet(before.workers);
    assert all[..i + 1] == all[..i] + [all[i]];
    StepKeepsGood(after, Poll(id, probe(id)));
    PolledOne(after, id, probe(id));
  }

  /** One probe sets that worker's health and takes credit from it alone, and only when it is down. */
  lemma PolledOne(s: System, id: WorkerId, up: bool)
    requires Good(s) && id in s.workers
    ensures var next := Membership.Apply(s, Poll(id, up));
            && next.workers == s.workers[id := s.workers[id].(healthy := up)]
            && (forall w, h | Holds(next.index, w, h) :: Holds(s.index, w, h))
            && (forall w, h | Holds(s.index, w, h) && (w != id || up) :: Holds(next.index, w, h))
  {
    PurgeAt(s.index, {id});
  }

  lemma AllPolled(before: System, after: System, all: seq<Worker>, probe: WorkerId -> bool)
    requires Listing(all, AllSet(before.workers)) && ValidRegistry(before.workers, before.nextId)
    requires Good(after) && Polled(before, after, all, probe)
    ensures forall id | id in after.workers :: after.workers[id].healthy == probe(id)
    ensures forall w, h :: Holds(after.index, w, h) <==> Holds(before.index, w, h) && probe(w)
  {
    forall id | id in after.workers ensures after.workers[id].healthy == probe(id) {
      var w := before.workers[id].worker;
      assert w in AllSet(before.workers) && w in all;
    }
    forall w, h ensures Holds(after.index, w, h) <==> Holds(before.index, w, h) && probe(w) {
      if Holds(after.index, w, h) {
        assert IsHealthy(after.workers, w);
      }
    }
  }
}
