/** The prefix index as one flat map from block hash to entry, and what each operation does to it.
  * The sharded index is proved against these functions; the histories and interleavings are stated
  * over them.
  */
module FlatIndex {
  import opened Sequences
  import opened Hashing

  type WorkerId = nat

  /** `touched` is the clock reading of the last write or match. */
  datatype Entry = Entry(workers: seq<WorkerId>, touched: nat)

  type Flat = map<Hash, Entry>

  predicate Holds(m: Flat, w: WorkerId, h: Hash) {
    h in m && w in m[h].workers
  }

  ghost predicate WellFormed(m: Flat) {
    forall h | h in m :: m[h].workers != [] && Distinct(m[h].workers)
  }

  // ---------------------------------------------------------------------------------------------
  // Operations
  // ---------------------------------------------------------------------------------------------

  function RecordEntry(m: Flat, w: WorkerId, h: Hash, now: nat): Entry {
    var workers := if h in m then m[h].workers else [];
    Entry(if w in workers then workers else workers + [w], now)
  }

  function Record(m: Flat, w: WorkerId, chain: seq<Hash>, now: nat): Flat
    decreases |chain|
  {
    if chain == [] then m
    else Record(m[chain[0] := RecordEntry(m, w, chain[0], now)], w, chain[1..], now)
  }

  /** The read pass: leading hashes of `chain` recorded against `w`, up to the first miss. */
  function Walk(m: Flat, w: WorkerId, chain: seq<Hash>): (k: nat)
    ensures k <= |chain|
    decreases |chain|
  {
    if chain == [] || !Holds(m, w, chain[0]) then 0
    else 1 + Walk(m, w, chain[1..])
  }

  /** The touch pass. */
  function Touch(m: Flat, hashes: seq<Hash>, now: nat): Flat
    decreases |hashes|
  {
    if hashes == [] then m
    else Touch(if hashes[0] in m then m[hashes[0] := m[hashes[0]].(touched := now)] else m, hashes[1..], now)
  }

  function Match(m: Flat, w: WorkerId, chain: seq<Hash>, now: nat): Flat {
    Touch(m, chain[..Walk(m, w, chain)], now)
  }

  function Purge(m: Flat, gone: set<WorkerId>): Flat {
    map h | h in m && Without(m[h].workers, gone) != [] ::
      Entry(Without(m[h].workers, gone), m[h].touched)
  }

  /** `now.duration_since` saturates at zero, so an entry touched after `now` never expires. */
  predicate Fresh(e: Entry, now: nat, ttl: nat) {
    now - e.touched <= ttl
  }

  function Expire(m: Flat, now: nat, ttl: nat): Flat {
    map h | h in m && Fresh(m[h], now, ttl) :: m[h]
  }

  /** The sets the LRU sweep may remove: exactly the overflow, oldest first, ties broken freely. */
  ghost predicate LruVictims(m: Flat, gone: set<Hash>, maxEntries: nat) {
    && gone <= m.Keys
    && |gone| == (if |m| > maxEntries then |m| - maxEntries else 0)
    && forall g, k | g in gone && k in m && k !in gone :: m[g].touched <= m[k].touched
  }

  // ---------------------------------------------------------------------------------------------
  // Pointwise readings
  // ---------------------------------------------------------------------------------------------

  lemma {:induction false} RecordAt(m: Flat, w: WorkerId, chain: seq<Hash>, now: nat)
    ensures var r := Record(m, w, chain, now);
            && (forall h :: h in r <==> h in m || h in chain)
            && (forall h | h in r :: r[h] == if h in chain then RecordEntry(m, w, h, now) else m[h])
    decreases |chain|
  {
    if chain != [] {
      var m' := m[chain[0] := RecordEntry(m, w, chain[0], now)];
      RecordAt(m', w, chain[1..], now);
      assert forall h :: h in chain <==> h == chain[0] || h in chain[1..];
    }
  }

  lemma {:induction false} TouchAt(m: Flat, hashes: seq<Hash>, now: nat)
    ensures var r := Touch(m, hashes, now);
            && r.Keys == m.Keys
            && (forall h | h in m :: r[h] == if h in hashes then m[h].(touched := now) else m[h])
    decreases |hashes|
  {
    if hashes != [] {
      var m' := if hashes[0] in m then m[hashes[0] := m[hashes[0]].(touched := now)] else m;
      TouchAt(m', hashes[1..], now);
      assert forall h :: h in hashes <==> h == hashes[0] || h in hashes[1..];
    }
  }

  /** What expires, in clock readings: an entry stays, as it is, up to and including `ttl` after it was last
    * touched, and is gone from then on.
    */
  lemma ExpireAt(m: Flat, now: nat, ttl: nat)
    ensures forall h :: h in Expire(m, now, ttl) <==> h in m && now <= m[h].touched + ttl
    ensures forall h | h in Expire(m, now, ttl) :: Expire(m, now, ttl)[h] == m[h]
  {
  }

  /** A recorded block outlives its recording by exactly `ttl`. */
  lemma RecordedExpires(m: Flat, w: WorkerId, chain: seq<Hash>, t: nat, now: nat, ttl: nat, h: Hash)
    requires h in chain
    ensures h in Expire(Record(m, w, chain, t), now, ttl) <==> now <= t + ttl
  {
    RecordAt(m, w, chain, t);
  }

  /** A matched block starts anew; one beyond the match does not. */
  lemma MatchedExpires(m: Flat, w: WorkerId, chain: seq<Hash>, t: nat, now: nat, ttl: nat, h: Hash)
    requires h in m
    ensures h in Expire(Match(m, w, chain, t), now, ttl)
            <==> now <= (if h in chain[..Walk(m, w, chain)] then t else m[h].touched) + ttl
  {
    TouchAt(m, chain[..Walk(m, w, chain)], t);
  }

  /** What a match changes: the times, and only the times, of blocks reached from the front of the chain
    * through blocks the worker holds.
    */
  lemma MatchAt(m: Flat, w: WorkerId, chain: seq<Hash>, now: nat)
    ensures var r := Match(m, w, chain, now);
            && r.Keys == m.Keys
            && (forall h | h in m :: r[h].workers == m[h].workers)
            && (forall i | 0 <= i < |chain| && (forall j | 0 <= j <= i :: Holds(m, w, chain[j])) ::
                  chain[i] in r && r[chain[i]].touched == now)
            && (forall h | h in m && h !in chain[..Walk(m, w, chain)] :: r[h] == m[h])
  {
    var k := Walk(m, w, chain);
    TouchAt(m, chain[..k], now);
    forall i: nat | i < |chain| && forall j | 0 <= j <= i :: Holds(m, w, chain[j]) ensures chain[i] in chain[..k] {
      WalkIsLargest(m, w, chain, i + 1);
      assert chain[..k][i] == chain[i];
    }
    assert forall i: nat | i < |chain| && (forall j | 0 <= j <= i :: Holds(m, w, chain[j])) :: Holds(m, w, chain[i]);
  }

  /** What recording leaves in a block's entry: its worker besides those there, once, and the time. */
  lemma RecordedEntry(m: Flat, w: WorkerId, chain: seq<Hash>, now: nat, h: Hash)
    requires h in chain
    ensures var r := Record(m, w, chain, now);
            && h in r && r[h].touched == now
            && r[h].workers == (if !(h in m) then [w] else if w in m[h].workers then m[h].workers else m[h].workers + [w])
            && (forall v :: v in r[h].workers <==> v == w || Holds(m, v, h))
  {
    RecordAt(m, w, chain, now);
  }

  /** `Walk` is the largest `k` such that `w` holds the first `k` hashes. */
  lemma {:induction false} WalkIsLargest(m: Flat, w: WorkerId, chain: seq<Hash>, k: nat)
    requires k <= |chain|
    ensures k <= Walk(m, w, chain) <==> forall i | 0 <= i < k :: Holds(m, w, chain[i])
    decreases |chain|
  {
    if k > 0 {
      WalkIsLargest(m, w, chain[1..], k - 1);
      assert forall i | 0 <= i < k - 1 :: chain[1..][i] == chain[i + 1];
      assert forall i | 1 <= i < k :: chain[i] == chain[1..][i - 1];
    }
  }

  /** Who holds what, forgetting when it was touched. */
  ghost predicate SameHolders(m: Flat, m': Flat) {
    m.Keys == m'.Keys && forall h | h in m :: m[h].workers == m'[h].workers
  }

  lemma {:induction false} SameHoldersSameWalk(m: Flat, m': Flat, w: WorkerId, chain: seq<Hash>)
    requires SameHolders(m, m')
    ensures Walk(m, w, chain) == Walk(m', w, chain)
    decreases |chain|
  {
    if chain != [] {
      SameHoldersSameWalk(m, m', w, chain[1..]);
    }
  }

  /** After recording a chain its worker matches all of it, and nobody else's match changes. */
  lemma WalkAfterRecord(m: Flat, w: WorkerId, chain: seq<Hash>, now: nat, v: WorkerId, other: seq<Hash>)
    ensures Walk(Record(m, w, chain, now), w, chain) == |chain|
    ensures v != w ==> Walk(Record(m, w, chain, now), v, other) == Walk(m, v, other)
    ensures Walk(m, w, other) <= Walk(Record(m, w, chain, now), w, other)
  {
    var r := Record(m, w, chain, now);
    RecordAt(m, w, chain, now);
    WalkIsLargest(r, w, chain, |chain|);
    WalkIsLargest(m, w, other, Walk(m, w, other));
    WalkIsLargest(r, w, other, Walk(m, w, other));
    if v != w {
      SameCreditSameWalk(m, r, v, other);
    }
  }

  lemma {:induction false} SameCreditSameWalk(m: Flat, m': Flat, w: WorkerId, chain: seq<Hash>)
    requires forall h :: Holds(m, w, h) <==> Holds(m', w, h)
    ensures Walk(m, w, chain) == Walk(m', w, chain)
    decreases |chain|
  {
    if chain != [] {
      SameCreditSameWalk(m, m', w, chain[1..]);
    }
  }

  lemma PurgeTwice(m: Flat, a: set<WorkerId>, b: set<WorkerId>)
    ensures Purge(Purge(m, a), b) == Purge(m, a + b)
  {
    forall h | h in m ensures Without(Without(m[h].workers, a), b) == Without(m[h].workers, a + b) {
      WithoutTwice(m[h].workers, a, b);
    }
  }

  /** A purge takes exactly the purged workers' credit away. */
  lemma PurgeAt(m: Flat, gone: set<WorkerId>)
    ensures forall w, h :: Holds(Purge(m, gone), w, h) <==> Holds(m, w, h) && w !in gone
  {
    forall w, h ensures Holds(Purge(m, gone), w, h) <==> Holds(m, w, h) && w !in gone {
      if Holds(m, w, h) && w !in gone {
        assert w in Without(m[h].workers, gone);
      }
    }
  }

  /** The entries a purge leaves: those with another worker, at their old times and in their old order. */
  lemma PurgedEntries(m: Flat, gone: set<WorkerId>)
    ensures var p := Purge(m, gone);
            && (forall h :: h in p <==> h in m && exists w :: w in m[h].workers && w !in gone)
            && (forall h | h in p :: p[h].touched == m[h].touched && p[h].workers == Without(m[h].workers, gone))
  {
    forall h | h in m ensures Without(m[h].workers, gone) != [] <==> exists w :: w in m[h].workers && w !in gone {
      var r := Without(m[h].workers, gone);
      if r != [] {
        assert r[0] in r;
      }
    }
  }

  lemma RecordKeepsWellFormed(m: Flat, w: WorkerId, chain: seq<Hash>, now: nat)
    requires WellFormed(m)
    ensures WellFormed(Record(m, w, chain, now))
  {
    RecordAt(m, w, chain, now);
  }

  lemma TouchKeepsWellFormed(m: Flat, hashes: seq<Hash>, now: nat)
    requires WellFormed(m)
    ensures WellFormed(Touch(m, hashes, now))
  {
    TouchAt(m, hashes, now);
  }

  lemma PurgeKeepsWellFormed(m: Flat, gone: set<WorkerId>)
    requires WellFormed(m)
    ensures WellFormed(Purge(m, gone))
  {
    forall h | h in m ensures Distinct(Without(m[h].workers, gone)) {
      WithoutKeepsDistinct(m[h].workers, gone);
    }
  }
}
