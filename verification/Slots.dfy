/** In-flight slots over membership runs: what a reconciliation makes room for. */
module Slots {
  import opened FlatIndex
  import opened Membership

  /** How many slots there are after a reconciliation: a change makes room for the live workers, not for
    * their ids.
    */
  function NextSlots(before: System, after: System, slots: nat): (n: nat)
    ensures n >= slots
  {
    if after.byUrl.Keys != before.byUrl.Keys && slots < |after.byUrl| + 16 then |after.byUrl| + 16 else slots
  }

  /** The slots after the first `k` steps of a run. */
  function SlotsAfter(states: seq<System>, k: nat, slots: nat): nat
    requires k < |states|
  {
    if k == 0 then slots else NextSlots(states[k - 1], states[k], SlotsAfter(states, k - 1, slots))
  }

  lemma {:induction false} SlotsOfPrefix(states: seq<System>, more: seq<System>, k: nat, slots: nat)
    requires k < |states|
    ensures SlotsAfter(states + more, k, slots) == SlotsAfter(states, k, slots)
  {
    if k > 0 {
      SlotsOfPrefix(states, more, k - 1, slots);
    }
  }

  predicate HasSlot(id: WorkerId, slots: nat) {
    id < slots
  }

  /** The step made room for the id. */
  predicate MadeRoom(states: seq<System>, j: nat, id: WorkerId)
    requires 1 <= j < |states|
  {
    states[j].byUrl.Keys != states[j - 1].byUrl.Keys && id < |states[j].byUrl| + 16
  }

  /** Over a run, an id has a slot exactly when it had one at the start or some change left it below the
    * number of live discovered workers plus sixteen.
    */
  lemma {:induction false} HasSlotIff(states: seq<System>, k: nat, slots: nat, id: WorkerId)
    requires k < |states|
    ensures HasSlot(id, SlotsAfter(states, k, slots)) <==> id < slots || exists j | 1 <= j <= k :: MadeRoom(states, j, id)
  {
    if k > 0 {
      HasSlotIff(states, k - 1, slots, id);
      assert HasSlot(id, SlotsAfter(states, k, slots)) <==> HasSlot(id, SlotsAfter(states, k - 1, slots)) || MadeRoom(states, k, id);
    }
  }

  /** The exact condition for one reconciliation: the ids it draws all have slots, so that their requests are
    * counted (`Inflight.AcquireExactIffSlot`), precisely when it draws none, there were enough slots for
    * every id drawn so far, or there are within sixteen of as many live workers.
    */
  lemma NewIdsHaveSlotsIff(before: System, step: Step, after: System, slots: nat)
    requires step.Reconcile? && Taken(before, step, after)
    ensures (forall id: WorkerId | before.nextId <= id < after.nextId :: HasSlot(id, NextSlots(before, after, slots)))
            <==> step.issued == [] || after.nextId <= slots || after.nextId <= |after.byUrl| + 16
  {
    DrawnAreNew(before, step, after);
    if step.issued != [] {
      LastDrawnDecides(before.nextId, after.nextId, NextSlots(before, after, slots));
    }
  }

  lemma DrawnAreNew(before: System, step: Step, after: System)
    requires step.Reconcile? && Taken(before, step, after)
    ensures after.nextId == before.nextId + |step.issued|
    ensures step.issued != [] ==> after.byUrl.Keys != before.byUrl.Keys
  {
    ReconciledIds(before, step);
    if step.issued != [] {
      assert step.issued[0] in step.issued;
    }
  }

  lemma LastDrawnDecides(low: nat, high: nat, slots: nat)
    requires low < high
    ensures (forall id: WorkerId | low <= id < high :: HasSlot(id, slots)) <==> high <= slots
  {
    assert HasSlot(high - 1, slots) <==> high <= slots;
  }
}
