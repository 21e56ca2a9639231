/** Workers and the registry of their health. */
module Workers {
  import opened Wrappers
  import opened Sequences
  import opened FlatIndex

  datatype Pool = Prefill | Decode | Both

  datatype Worker = Worker(id: WorkerId, url: string, pool: Pool)

  datatype WorkerState = WorkerState(worker: Worker, healthy: bool)

  datatype WorkerConfig = WorkerConfig(url: string, pool: Pool)

  type Registry = map<WorkerId, WorkerState>

  /** Entries are filed under their own id, and ids come from below the allocator. */
  ghost predicate ValidRegistry(r: Registry, nextId: nat) {
    forall id | id in r :: id < nextId && r[id].worker.id == id
  }

  predicate IsHealthy(r: Registry, id: WorkerId) {
    id in r && r[id].healthy
  }

  /** `list` holds exactly the members of `s`, by increasing id. */
  ghost predicate Listing(list: seq<Worker>, s: set<Worker>) {
    && (forall w :: w in list <==> w in s)
    && (forall i, j | 0 <= i < j < |list| :: list[i].id < list[j].id)
  }

  ghost function HealthySet(r: Registry): set<Worker> {
    set id | id in r && r[id].healthy :: r[id].worker
  }

  ghost function AllSet(r: Registry): set<Worker> {
    set id | id in r :: r[id].worker
  }

  lemma HealthyIff(r: Registry, w: Worker)
    ensures w in HealthySet(r) <==> exists id :: id in r && r[id] == WorkerState(w, true)
    ensures w in AllSet(r) <==> exists id :: id in r && r[id].worker == w
  {
    if w in HealthySet(r) {
      var id :| id in r && r[id].healthy && r[id].worker == w;
      assert r[id] == WorkerState(w, true);
    }
  }

  /** The workers of the configuration: their position as id, and unhealthy until the poller says otherwise. */
  function Configured(configs: seq<WorkerConfig>): (r: Registry)
    ensures ValidRegistry(r, |configs|)
    ensures forall i: WorkerId :: i in r <==> i < |configs|
    ensures forall i: WorkerId | i < |configs| ::
              !IsHealthy(r, i) && r[i].worker.url == configs[i].url && r[i].worker.pool == configs[i].pool
  {
    map i: WorkerId | 0 <= i < |configs| :: WorkerState(Worker(i, configs[i].url, configs[i].pool), false)
  }

  class WorkerRegistry {
    var workers: Registry
    var nextId: nat

    ghost predicate Valid()
      reads this
    {
      ValidRegistry(workers, nextId)
    }

    constructor FromConfig(configs: seq<WorkerConfig>)
      ensures Valid() && workers == Configured(configs) && nextId == |configs|
    {
      workers := map i: WorkerId | 0 <= i < |configs| :: WorkerState(Worker(i, configs[i].url, configs[i].pool), false);
      nextId := |configs|;
    }

    method RegisterWorker(url: string, pool: Pool) returns (id: WorkerId)
      requires Valid()
      modifies this
      ensures Valid()
      ensures id == old(nextId) && nextId == id + 1 && id !in old(workers)
      ensures workers == old(workers)[id := WorkerState(Worker(id, url, pool), false)]
    {
      id := nextId;
      nextId := nextId + 1;
      workers := workers[id := WorkerState(Worker(id, url, pool), false)];
    }

    method RemoveWorker(id: WorkerId) returns (removed: Option<Worker>)
      requires Valid()
      modifies this`workers
      ensures Valid()
      ensures workers == old(workers) - {id}
      ensures removed == if id in old(workers) then Some(old(workers)[id].worker) else None
    {
      removed := if id in workers then Some(workers[id].worker) else None;
      workers := workers - {id};
    }

    method SetHealthy(id: WorkerId, healthy: bool) returns (changed: bool)
      requires Valid()
      modifies this`workers
      ensures Valid()
      ensures changed <==> id in old(workers) && old(workers)[id].healthy != healthy
      ensures workers == if id in old(workers) then old(workers)[id := old(workers)[id].(healthy := healthy)] else old(workers)
    {
      if id in workers {
        changed := workers[id].healthy != healthy;
        workers := workers[id := workers[id].(healthy := healthy)];
      } else {
        changed := false;
      }
    }

    method AllWorkers() returns (list: seq<Worker>)
      requires Valid()
      ensures Listing(list, AllSet(workers))
    {
      list := Snapshot(false);
    }

    method HealthyWorkers() returns (list: seq<Worker>)
      requires Valid()
      ensures Listing(list, HealthySet(workers))
    {
      list := Snapshot(true);
    }

    /** Collect from the map in whatever order it yields, then sort by id. */
    method Snapshot(healthyOnly: bool) returns (list: seq<Worker>)
      requires Valid()
      ensures Listing(list, if healthyOnly then HealthySet(workers) else AllSet(workers))
    {
      var unsorted: seq<Worker> := [];
      var ids := workers.Keys;
      while ids != {}
        invariant ids <= workers.Keys
        invariant forall w: Worker :: w in unsorted <==> w.id !in ids && Listed(w, healthyOnly)
        invariant Distinct(unsorted)
        decreases ids
      {
        var id :| id in ids;
        if workers[id].healthy || !healthyOnly {
          unsorted := unsorted + [workers[id].worker];
        }
        ids := ids - {id};
      }
      list := SortByKey(unsorted, (w: Worker) => w.id);
      SortedById(unsorted, list);
      forall w: Worker ensures w in (if healthyOnly then HealthySet(workers) else AllSet(workers)) <==> Listed(w, healthyOnly) {
      }
    }

    predicate Listed(w: Worker, healthyOnly: bool)
      reads this
    {
      w.id in workers && workers[w.id].worker == w && (healthyOnly ==> workers[w.id].healthy)
    }
  }

  lemma SortedById(unsorted: seq<Worker>, list: seq<Worker>)
    requires Distinct(unsorted) && multiset(list) == multiset(unsorted)
    requires forall v, w | v in unsorted && w in unsorted && v.id == w.id :: v == w
    requires forall i, j | 0 <= i < j < |list| :: list[i].id <= list[j].id
    ensures forall w :: w in list <==> w in unsorted
    ensures forall i, j | 0 <= i < j < |list| :: list[i].id < list[j].id
  {
    DistinctMultiplicity(unsorted);
    SingleMultiplicity(list);
    assert forall w :: w in list <==> w in multiset(list);
    assert forall w :: w in unsorted <==> w in multiset(unsorted);
    assert forall i, j | 0 <= i < j < |list| :: list[i] in unsorted && list[j] in unsorted && list[i] != list[j];
  }

  /** A set of workers with distinct ids has only one listing, so round robin is deterministic. */
  lemma {:induction false} ListingUnique(a: seq<Worker>, b: seq<Worker>, s: set<Worker>)
    requires Listing(a, s) && Listing(b, s)
    ensures a == b
    decreases |a|
  {
    BothEmpty(a, b);
    if a != [] {
      SameHead(a, b, s);
      assert forall w :: w in a[1..] <==> w in s - {a[0]};
      assert forall w :: w in b[1..] <==> w in s - {a[0]};
      ListingUnique(a[1..], b[1..], s - {a[0]});
      assert a == [a[0]] + a[1..] && b == [b[0]] + b[1..];
    }
  }

  lemma BothEmpty(a: seq<Worker>, b: seq<Worker>)
    requires forall w :: w in a <==> w in b
    ensures a == [] <==> b == []
  {
    if a != [] {
      assert a[0] in b;
    }
    if b != [] {
      assert b[0] in a;
    }
  }

  lemma SameHead(a: seq<Worker>, b: seq<Worker>, s: set<Worker>)
    requires Listing(a, s) && Listing(b, s) && a != [] && b != []
    ensures a[0] == b[0]
  {
    assert a[0] in b && b[0] in a;
    var i :| 0 <= i < |b| && b[i] == a[0];
    var j :| 0 <= j < |a| && a[j] == b[0];
    assert b[0].id <= a[0].id && a[0].id <= b[0].id;
  }
}
