/** In-flight accounting: a vector of 64-bit counters indexed by worker id. */
module Inflight {
  import opened FlatIndex

  const U64 := 0x1_0000_0000_0000_0000

  type Counter = c: int | 0 <= c < U64

  datatype Op = Acquire(worker: WorkerId) | Release(worker: WorkerId) | Grow(workers: nat)

  /** A worker without a slot counts as idle. */
  function CountOf(counts: seq<Counter>, w: WorkerId): Counter {
    if w < |counts| then counts[w] else 0
  }

  function Zeros(n: nat): seq<Counter> {
    seq(n, _ => 0)
  }

  /** Wrapping 64-bit arithmetic. */
  function Inc(c: Counter): Counter {
    if c == U64 - 1 then 0 else c + 1
  }

  function Dec(c: Counter): Counter {
    if c == 0 then U64 - 1 else c - 1
  }

  /** Counters wrap, and a worker without a slot is skipped in silence. */
  function Apply(counts: seq<Counter>, op: Op): seq<Counter> {
    match op
    case Acquire(w) => if w < |counts| then counts[w := Inc(counts[w])] else counts
    case Release(w) => if w < |counts| then counts[w := Dec(counts[w])] else counts
    case Grow(n) => if |counts| < n then counts + Zeros(n - |counts|) else counts
  }

  /** Counters count modulo 2^64, down as up. */
  lemma CountersWrap(c: Counter)
    ensures Inc(c) == (c + 1) % U64 && Dec(Inc(c)) == c && Inc(Dec(c)) == c
  {
  }

  /** What each operation does to the vector, slot by slot. */
  lemma OpAt(counts: seq<Counter>, op: Op)
    ensures var r := Apply(counts, op);
            && |r| == (if op.Grow? && op.workers > |counts| then op.workers else |counts|)
            && (forall i | 0 <= i < |counts| && (op.Grow? || op.worker != i) :: r[i] == counts[i])
            && (forall i | |counts| <= i < |r| :: r[i] == 0)
            && (!op.Grow? && op.worker < |counts| ==>
                  r[op.worker] == (counts[op.worker] + if op.Acquire? then 1 else U64 - 1) % U64)
  {
  }

  function Sum(counts: seq<Counter>): nat {
    if counts == [] then 0 else Sum(counts[..|counts| - 1]) + counts[|counts| - 1]
  }

  class InflightTracker {
    var counts: seq<Counter>

    constructor WithCapacity(workers: nat)
      ensures counts == Zeros(workers)
    {
      counts := seq(workers, _ => 0);
    }

    method EnsureCapacity(workers: nat)
      modifies this
      ensures counts == Apply(old(counts), Grow(workers))
    {
      if |counts| < workers {
        counts := counts + seq(workers - |counts|, _ => 0);
      }
    }

    method Count(worker: WorkerId) returns (n: Counter)
      ensures n == CountOf(counts, worker)
    {
      if worker < |counts| {
        n := counts[worker];
      } else {
        n := 0;
      }
    }

    method Total() returns (n: Counter)
      ensures n == Sum(counts) % U64
    {
      n := 0;
      for i := 0 to |counts|
        invariant n == Sum(counts[..i]) % U64
      {
        assert counts[..i + 1][..i] == counts[..i];
        n := (n + counts[i]) % U64;
      }
      assert counts[..|counts|] == counts;
    }

    method Increment(worker: WorkerId)
      modifies this
      ensures counts == Apply(old(counts), Acquire(worker))
    {
      if worker < |counts| {
        counts := counts[worker := Inc(counts[worker])];
      }
    }

    method Decrement(worker: WorkerId)
      modifies this
      ensures counts == Apply(old(counts), Release(worker))
    {
      if worker < |counts| {
        counts := counts[worker := Dec(counts[worker])];
      }
    }
  }

  /** A request's hold on its worker: taken on construction, given back by `Drop` exactly once. */
  class InflightGuard {
    const tracker: InflightTracker
    const worker: WorkerId

    constructor Acquire(tracker: InflightTracker, worker: WorkerId)
      modifies tracker
      ensures this.tracker == tracker && this.worker == worker
      ensures tracker.counts == Apply(old(tracker.counts), Op.Acquire(worker))
    {
      this.tracker := tracker;
      this.worker := worker;
      new;
      tracker.Increment(worker);
    }

    method Drop()
      modifies tracker
      ensures tracker.counts == Apply(old(tracker.counts), Release(worker))
    {
      tracker.Decrement(worker);
    }
  }

  // ---------------------------------------------------------------------------------------------
  // Runs
  // ---------------------------------------------------------------------------------------------

  function Counts(ops: seq<Op>, capacity: nat): seq<Counter> {
    if ops == [] then Zeros(capacity) else Apply(Counts(ops[..|ops| - 1], capacity), ops[|ops| - 1])
  }

  /** The guards alive after `ops`, by worker. */
  function Live(ops: seq<Op>): multiset<WorkerId> {
    if ops == [] then multiset{}
    else
      var before := Live(ops[..|ops| - 1]);
      match ops[|ops| - 1]
      case Acquire(w) => before + multiset{w}
      case Release(w) => before - multiset{w}
      case Grow(_) => before
  }

  /** Only a live guard can be dropped. Fewer than 2^64 operations keep the counters from wrapping. */
  ghost predicate Possible(ops: seq<Op>) {
    ops != [] ==>
      var init, op := ops[..|ops| - 1], ops[|ops| - 1];
      Possible(init) && |ops| < U64 && (op.Release? ==> op.worker in Live(init))
  }

  ghost predicate Exact(counts: seq<Counter>, live: multiset<WorkerId>) {
    forall w: WorkerId :: CountOf(counts, w) == live[w]
  }

  /** Every acquire in the run finds a slot for its worker. */
  ghost predicate Slotted(ops: seq<Op>, capacity: nat) {
    ops != [] ==>
      var init, op := ops[..|ops| - 1], ops[|ops| - 1];
      Slotted(init, capacity) && (op.Acquire? ==> op.worker < |Counts(init, capacity)|)
  }

  ghost predicate ExactThroughout(ops: seq<Op>, capacity: nat) {
    && Exact(Counts(ops, capacity), Live(ops))
    && (ops != [] ==> ExactThroughout(ops[..|ops| - 1], capacity))
  }

  lemma {:induction false} LiveAtMost(ops: seq<Op>, w: WorkerId)
    ensures Live(ops)[w] <= |ops|
  {
    if ops != [] {
      LiveAtMost(ops[..|ops| - 1], w);
    }
  }

  /** The exact condition for one acquire: accounting stays exact precisely when the slot exists. */
  lemma AcquireExactIffSlot(counts: seq<Counter>, live: multiset<WorkerId>, w: WorkerId)
    requires Exact(counts, live) && live[w] + 1 < U64
    ensures Exact(Apply(counts, Acquire(w)), live + multiset{w}) <==> w < |counts|
  {
    var counts', live' := Apply(counts, Acquire(w)), live + multiset{w};
    assert CountOf(counts, w) == live[w];
    if w < |counts| {
      forall v: WorkerId ensures CountOf(counts', v) == live'[v] {
        assert CountOf(counts, v) == live[v];
      }
    } else {
      assert CountOf(counts', w) != live'[w];
    }
  }

  lemma OtherStepsStayExact(counts: seq<Counter>, live: multiset<WorkerId>, op: Op)
    requires Exact(counts, live)
    requires (op.Release? && op.worker in live) || op.Grow?
    ensures Exact(Apply(counts, op), if op.Release? then live - multiset{op.worker} else live)
    ensures op.Release? ==> CountOf(counts, op.worker) >= 1
    ensures op.Grow? ==> forall w: WorkerId :: CountOf(Apply(counts, op), w) == CountOf(counts, w)
  {
    forall w: WorkerId
      ensures CountOf(Apply(counts, op), w) == (if op.Release? then live - multiset{op.worker} else live)[w]
    {
      assert CountOf(counts, w) == live[w];
    }
    if op.Release? {
      assert CountOf(counts, op.worker) == live[op.worker];
    }
  }

  /** Over any run the counts equal the live guards at every point exactly when every acquire found its
    * worker's slot. Growing changes no count, and no decrement meets a zero.
    */
  lemma {:induction false} ExactIffSlotted(ops: seq<Op>, capacity: nat)
    requires Possible(ops)
    ensures ExactThroughout(ops, capacity) <==> Slotted(ops, capacity)
  {
    if ops == [] {
      forall w: WorkerId ensures CountOf(Counts(ops, capacity), w) == Live(ops)[w] {
      }
    } else {
      var init, op := ops[..|ops| - 1], ops[|ops| - 1];
      ExactIffSlotted(init, capacity);
      if ExactThroughout(init, capacity) {
        if op.Acquire? {
          LiveAtMost(init, op.worker);
          AcquireExactIffSlot(Counts(init, capacity), Live(init), op.worker);
        } else {
          OtherStepsStayExact(Counts(init, capacity), Live(init), op);
        }
      }
    }
  }

  /** In slotted runs the gauge equals the number of live guards. */
  lemma {:induction false} TotalIsLive(ops: seq<Op>, capacity: nat)
    requires Possible(ops) && Slotted(ops, capacity)
    ensures Sum(Counts(ops, capacity)) == |Live(ops)|
  {
    if ops == [] {
      SumOfZeros(capacity);
    } else {
      var init, op := ops[..|ops| - 1], ops[|ops| - 1];
      TotalIsLive(init, capacity);
      ExactIffSlotted(init, capacity);
      if !op.Grow? {
        LiveAtMost(init, op.worker);
      }
      StepMovesTotal(Counts(init, capacity), Live(init), op);
    }
  }

  lemma StepMovesTotal(counts: seq<Counter>, live: multiset<WorkerId>, op: Op)
    requires Exact(counts, live)
    requires op.Acquire? ==> op.worker < |counts| && live[op.worker] + 1 < U64
    requires op.Release? ==> op.worker in live
    ensures Sum(Apply(counts, op)) == Sum(counts) + (match op case Acquire(_) => 1 case Release(_) => -1 case Grow(_) => 0)
  {
    if op.Grow? {
      if |counts| < op.workers {
        SumGrow(counts, op.workers - |counts|);
      }
    } else {
      assert CountOf(counts, op.worker) == live[op.worker];
      SumUpdate(counts, op.worker, if op.Acquire? then Inc(counts[op.worker]) else Dec(counts[op.worker]));
    }
  }

  lemma {:induction false} SumOfZeros(n: nat)
    ensures Sum(Zeros(n)) == 0
  {
    if n > 0 {
      SumOfZeros(n - 1);
      assert Zeros(n)[..n - 1] == Zeros(n - 1);
    }
  }

  lemma {:induction false} SumGrow(counts: seq<Counter>, n: nat)
    ensures Sum(counts + Zeros(n)) == Sum(counts)
  {
    if n == 0 {
      assert counts + Zeros(0) == counts;
    } else {
      SumGrow(counts, n - 1);
      assert (counts + Zeros(n))[..|counts| + n - 1] == counts + Zeros(n - 1);
    }
  }

  lemma {:induction false} SumUpdate(counts: seq<Counter>, i: nat, c: Counter)
    requires i < |counts|
    ensures Sum(counts[i := c]) == Sum(counts) - counts[i] + c
    decreases |counts|
  {
    var n := |counts| - 1;
    if i < n {
      SumUpdate(counts[..n], i, c);
      assert counts[i := c][..n] == counts[..n][i := c];
    } else {
      assert counts[i := c][..n] == counts[..n];
    }
  }

  /** What happens without the slot: a guard taken before the vector grew and dropped after it wraps the
    * counter, and the worker looks as loaded as a counter can say.
    */
  lemma LateSlotUnderflows(capacity: nat, w: WorkerId)
    requires capacity <= w
    ensures var ops := [Acquire(w), Grow(w + 1), Release(w)];
            && Possible(ops)
            && Live(ops) == multiset{}
            && CountOf(Counts(ops, capacity), w) == U64 - 1
  {
    var o1 := [] + [Acquire(w)];
    var o2 := o1 + [Grow(w + 1)];
    OneMore([], Acquire(w), capacity);
    OneMore(o1, Grow(w + 1), capacity);
    OneMore(o2, Release(w), capacity);
    assert o2 + [Release(w)] == [Acquire(w), Grow(w + 1), Release(w)];
  }

  lemma OneMore(ops: seq<Op>, op: Op, capacity: nat)
    requires Possible(ops) && |ops| + 1 < U64 && (op.Release? ==> op.worker in Live(ops))
    ensures Possible(ops + [op])
    ensures Counts(ops + [op], capacity) == Apply(Counts(ops, capacity), op)
    ensures Live(ops + [op]) == match op
                                case Acquire(w) => Live(ops) + multiset{w}
                                case Release(w) => Live(ops) - multiset{w}
                                case Grow(_) => Live(ops)
  {
    assert (ops + [op])[..|ops|] == ops;
  }
}
