/** The sharded prefix index, one map per shard, proved to behave as the flat map of `FlatIndex`.
  *
  * Nothing below depends on the shard count beyond its being positive; `MaskIsRemainder` is where
  * the power of two matters, and it matters only for which shard a hash lands in.
  */
module PrefixIndex {
  import opened Sequences
  import opened Hashing
  import opened FlatIndex

  const NUM_SHARDS := 64

  /** Bitwise conjunction of two naturals. */
  function BitAnd(a: nat, b: nat): (r: nat)
    ensures r <= a && r <= b
    decreases a
  {
    if a == 0 then 0
    else 2 * BitAnd(a / 2, b / 2) + (if a % 2 == 1 && b % 2 == 1 then 1 else 0)
  }

  function Pow2(k: nat): (p: nat)
    ensures p >= 1
  {
    if k == 0 then 1 else 2 * Pow2(k - 1)
  }

  function Slot(h: Hash, shardCount: nat): (i: nat)
    requires shardCount >= 1
    ensures i < shardCount
  {
    BitAnd(h, shardCount - 1)
  }

  /** With a power-of-two shard count the mask is the remainder, so every shard is reachable. */
  lemma {:induction false} MaskIsRemainder(h: nat, k: nat)
    ensures BitAnd(h, Pow2(k) - 1) == h % Pow2(k)
    decreases k
  {
    if k == 0 {
      MaskByZero(h);
    } else if h > 0 {
      MaskIsRemainder(h / 2, k - 1);
      assert (2 * Pow2(k - 1) - 1) / 2 == Pow2(k - 1) - 1;
      HalveRemainder(h, Pow2(k - 1));
    } else {
      DivUnique(0, Pow2(k), 0, 0);
    }
  }

  /** The shard of a hash is its remainder; with the shard count in use, its last six bits. */
  lemma SlotIsRemainder(h: Hash, k: nat)
    ensures Slot(h, Pow2(k)) == h % Pow2(k)
    ensures Slot(h, NUM_SHARDS) == h % 64
  {
    MaskIsRemainder(h, k);
    MaskIsRemainder(h, 6);
    assert Pow2(2) == 4 && Pow2(4) == 16 && Pow2(6) == 64;
  }

  lemma HalveRemainder(h: nat, p: nat)
    requires p >= 1
    ensures h % (2 * p) == 2 * ((h / 2) % p) + h % 2
  {
    var q, r := (h / 2) / p, (h / 2) % p;
    assert h / 2 == p * q + r;
    assert q * (2 * p) == 2 * (p * q);
    DivUnique(h, 2 * p, q, 2 * r + h % 2);
  }

  lemma {:induction false} MaskByZero(h: nat)
    ensures BitAnd(h, 0) == 0
  {
    if h > 0 {
      MaskByZero(h / 2);
    }
  }

  datatype EvictionStats = EvictionStats(expired: nat, lruEvicted: nat)

  datatype Row = Row(touched: nat, hash: Hash, shard: nat)

  function RowOf(m: Flat, h: Hash, shardCount: nat): Row
    requires shardCount >= 1 && h in m
  {
    Row(m[h].touched, h, Slot(h, shardCount))
  }

  /** `rows` lists every entry of `m` exactly once. */
  ghost predicate Lists(rows: seq<Row>, m: Flat, shardCount: nat)
    requires shardCount >= 1
  {
    && Distinct(rows)
    && (forall r | r in rows :: r.hash in m && r == RowOf(m, r.hash, shardCount))
    && (forall h | h in m :: RowOf(m, h, shardCount) in rows)
  }

  /** Every row names an entry that no earlier row names. */
  ghost predicate Removable(rows: seq<Row>, m: Flat, shardCount: nat)
    requires shardCount >= 1
  {
    forall i | 0 <= i < |rows| ::
      rows[i].hash in m && rows[i].shard == Slot(rows[i].hash, shardCount) && rows[i].hash !in HashesOf(rows[..i])
  }

  function HashesOf(rows: seq<Row>): set<Hash> {
    set r | r in rows :: r.hash
  }

  /** Every key lives in its masked shard and nowhere else, and `m` is the union of the shards. */
  ghost predicate Sharded(s: seq<Flat>, m: Flat) {
    && |s| >= 1
    && (forall i, h | 0 <= i < |s| && h in s[i] :: Slot(h, |s|) == i && h in m && s[i][h] == m[h])
    && (forall h | h in m :: h in s[Slot(h, |s|)])
  }

  lemma WriteShard(s: seq<Flat>, m: Flat, h: Hash, e: Entry)
    requires Sharded(s, m)
    ensures var i := Slot(h, |s|); var shard: Flat := s[i][h := e]; Sharded(s[i := shard], m[h := e])
  {
  }

  lemma DropFromShard(s: seq<Flat>, m: Flat, h: Hash)
    requires Sharded(s, m)
    ensures var i := Slot(h, |s|); Sharded(s[i := s[i] - {h}], m - {h})
  {
  }

  /** The sum `len` computes. */
  function Total(s: seq<Flat>): nat {
    if s == [] then 0 else Total(s[..|s| - 1]) + |s[|s| - 1]|
  }

  ghost function KeysBelow(m: Flat, n: nat, shardCount: nat): set<Hash>
    requires shardCount >= 1
  {
    set h | h in m && Slot(h, shardCount) < n
  }

  /** The shard sizes add up to the size of the flat map. */
  lemma ShardSizesAddUp(s: seq<Flat>, m: Flat)
    requires Sharded(s, m)
    ensures Total(s) == |m|
  {
    ShardSizesBelow(s, m, |s|);
    assert s[..|s|] == s;
    assert m.Keys == KeysBelow(m, |s|, |s|);
  }

  lemma {:induction false} ShardSizesBelow(s: seq<Flat>, m: Flat, n: nat)
    requires Sharded(s, m) && n <= |s|
    ensures Total(s[..n]) == |KeysBelow(m, n, |s|)|
  {
    if n > 0 {
      ShardSizesBelow(s, m, n - 1);
      assert s[..n][..n - 1] == s[..n - 1];
      NextShardKeys(s, m, n - 1);
    } else {
      assert KeysBelow(m, 0, |s|) == {};
    }
  }

  lemma NextShardKeys(s: seq<Flat>, m: Flat, n: nat)
    requires Sharded(s, m) && n < |s|
    ensures |KeysBelow(m, n + 1, |s|)| == |KeysBelow(m, n, |s|)| + |s[n]|
  {
    ShardKeys(s, m, n);
    SlotsSplit(m.Keys, KeysBelow(m, n + 1, |s|), KeysBelow(m, n, |s|), s[n].Keys);
  }

  lemma ShardKeys(s: seq<Flat>, m: Flat, n: nat)
    requires Sharded(s, m) && n < |s|
    ensures forall h | h in m :: h in s[n] <==> Slot(h, |s|) == n
    ensures s[n].Keys <= m.Keys
  {
  }

  lemma SlotsSplit(all: set<Hash>, after: set<Hash>, before: set<Hash>, here: set<Hash>)
    requires after <= all && before <= all && here <= all && before !! here
    requires forall h | h in all :: h in after <==> h in before || h in here
    ensures |after| == |before| + |here|
  {
    assert after == before + here;
  }

  /** Purging every shard purges the union. */
  lemma PurgeShards(s: seq<Flat>, s': seq<Flat>, m: Flat, gone: set<WorkerId>)
    requires Sharded(s, m) && |s'| == |s|
    requires forall i | 0 <= i < |s| :: s'[i] == Purge(s[i], gone)
    ensures Sharded(s', Purge(m, gone))
  {
    forall h | h in Purge(m, gone) ensures h in s'[Slot(h, |s|)] {
      var i := Slot(h, |s|);
      assert h in s[i] && s'[i] == Purge(s[i], gone);
    }
    forall i, h | 0 <= i < |s| && h in s'[i]
      ensures Slot(h, |s|) == i && h in Purge(m, gone) && s'[i][h] == Purge(m, gone)[h]
    {
      assert s'[i] == Purge(s[i], gone) && h in s[i];
    }
  }

  /** Expiring every shard expires the union. */
  lemma ExpireShards(s: seq<Flat>, s': seq<Flat>, m: Flat, now: nat, ttl: nat)
    requires Sharded(s, m) && |s'| == |s|
    requires forall i | 0 <= i < |s| :: s'[i] == Expire(s[i], now, ttl)
    ensures Sharded(s', Expire(m, now, ttl))
  {
    forall h | h in Expire(m, now, ttl) ensures h in s'[Slot(h, |s|)] {
      var i := Slot(h, |s|);
      assert h in s[i] && s'[i] == Expire(s[i], now, ttl);
    }
  }

  function AtMost(n: nat, cap: nat): (r: nat)
    ensures r <= n && r <= cap && (r == n || r == cap)
  {
    if n > cap then cap else n
  }

  class PrefixIndex {
    const shards: array<Flat>
    ghost var flat: Flat

    ghost predicate Valid()
      reads this, shards
    {
      Sharded(shards[..], flat) && WellFormed(flat)
    }

    constructor (shardCount: nat)
      requires shardCount >= 1
      ensures Valid() && fresh(shards) && shards.Length == shardCount
      ensures flat == map[]
    {
      shards := new Flat[shardCount](_ => map[]);
      flat := map[];
    }

    /** One write under one shard lock. */
    method Write(hash: Hash, entry: Entry)
      requires Valid() && entry.workers != [] && Distinct(entry.workers)
      modifies this, shards
      ensures Valid() && flat == old(flat)[hash := entry]
    {
      WriteShard(shards[..], flat, hash, entry);
      var slot := Slot(hash, shards.Length);
      shards[slot] := shards[slot][hash := entry];
      flat := flat[hash := entry];
    }

    method Record(worker: WorkerId, chain: seq<Hash>, now: nat)
      requires Valid()
      modifies this, shards
      ensures Valid()
      ensures flat == FlatIndex.Record(old(flat), worker, chain, now)
    {
      for i := 0 to |chain|
        invariant Valid()
        invariant FlatIndex.Record(flat, worker, chain[i..], now) == FlatIndex.Record(old(flat), worker, chain, now)
      {
        assert chain[i..][1..] == chain[i + 1..];
        RecordBlock(worker, chain[i], now);
      }
    }

    /** One turn of the loop in `record`. */
    method RecordBlock(worker: WorkerId, hash: Hash, now: nat)
      requires Valid()
      modifies this, shards
      ensures Valid()
      ensures flat == old(flat)[hash := RecordEntry(old(flat), worker, hash, now)]
    {
      var slot := Slot(hash, shards.Length);
      assert shards[slot] == shards[..][slot];
      var entry := if hash in shards[slot] then shards[slot][hash] else Entry([], now);
      if worker !in entry.workers {
        entry := entry.(workers := entry.workers + [worker]);
      }
      entry := entry.(touched := now);
      Write(hash, entry);
    }

    method LongestMatch(worker: WorkerId, chain: seq<Hash>, now: nat) returns (matched: nat)
      requires Valid()
      modifies this, shards
      ensures Valid()
      ensures matched == Walk(old(flat), worker, chain)
      ensures flat == Match(old(flat), worker, chain, now)
    {
      var matchedHashes := ReadPass(worker, chain);
      TouchPass(matchedHashes, now);
      matched := |matchedHashes|;
    }

    method ReadPass(worker: WorkerId, chain: seq<Hash>) returns (matchedHashes: seq<Hash>)
      requires Valid()
      ensures matchedHashes == chain[..Walk(flat, worker, chain)]
    {
      matchedHashes := [];
      for i := 0 to |chain|
        invariant matchedHashes == chain[..i]
        invariant Walk(flat, worker, chain) == i + Walk(flat, worker, chain[i..])
      {
        var hash := chain[i];
        var slot := Slot(hash, shards.Length);
        assert shards[slot] == shards[..][slot];
        if !(hash in shards[slot] && worker in shards[slot][hash].workers) {
          return;
        }
        matchedHashes := matchedHashes + [hash];
        assert chain[i..][1..] == chain[i + 1..];
      }
    }

    method TouchPass(matchedHashes: seq<Hash>, now: nat)
      requires Valid()
      modifies this, shards
      ensures Valid()
      ensures flat == Touch(old(flat), matchedHashes, now)
    {
      for j := 0 to |matchedHashes|
        invariant Valid()
        invariant Touch(flat, matchedHashes[j..], now) == Touch(old(flat), matchedHashes, now)
      {
        var hash := matchedHashes[j];
        var slot := Slot(hash, shards.Length);
        assert shards[slot] == shards[..][slot];
        assert matchedHashes[j..][1..] == matchedHashes[j + 1..];
        if hash in shards[slot] {
          Write(hash, shards[slot][hash].(touched := now));
        }
      }
    }

    method RemoveWorker(worker: WorkerId)
      requires Valid()
      modifies this, shards
      ensures Valid()
      ensures flat == Purge(old(flat), {worker})
    {
      ghost var before := shards[..];
      for i := 0 to shards.Length
        invariant flat == old(flat)
        invariant forall j | 0 <= j < shards.Length :: shards[j] == if j < i then Purge(before[j], {worker}) else before[j]
      {
        shards[i] := Purge(shards[i], {worker});
      }
      PurgeShards(before, shards[..], flat, {worker});
      PurgeKeepsWellFormed(flat, {worker});
      flat := Purge(flat, {worker});
    }

    method Len() returns (n: nat)
      requires Valid()
      ensures n == |flat|
    {
      n := 0;
      for i := 0 to shards.Length
        invariant n == Total(shards[..i])
      {
        assert shards[..i + 1][..i] == shards[..i];
        n := n + |shards[i]|;
      }
      assert shards[..shards.Length] == shards[..];
      ShardSizesAddUp(shards[..], flat);
    }

    method IsEmpty() returns (empty: bool)
      requires Valid()
      ensures empty <==> flat == map[]
    {
      var n := Len();
      empty := n == 0;
    }

    /** Expiry pass of `evict`, one shard at a time. */
    method ExpirePass(now: nat, ttl: nat) returns (expired: int)
      requires Valid()
      modifies this, shards
      ensures Valid()
      ensures flat == Expire(old(flat), now, ttl)
      ensures forall h :: h in flat <==> h in old(flat) && now <= old(flat)[h].touched + ttl
      ensures expired == |old(flat)| - |flat|
    {
      expired := 0;
      ghost var start := shards[..];
      for i := 0 to shards.Length
        invariant flat == old(flat)
        invariant forall j | 0 <= j < shards.Length :: shards[j] == if j < i then Expire(start[j], now, ttl) else start[j]
        invariant expired == Total(start[..i]) - Total(shards[..i])
      {
        ghost var done := shards[..i];
        var before := |shards[i]|;
        shards[i] := Expire(shards[i], now, ttl);
        expired := expired + (before - |shards[i]|);
        assert shards[..i + 1][..i] == done;
        assert start[..i + 1][..i] == start[..i];
      }
      ExpireShards(start, shards[..], flat, now, ttl);
      ExpireAt(flat, now, ttl);
      flat := Expire(flat, now, ttl);
      ShardSizesAddUp(start, old(flat));
      ShardSizesAddUp(shards[..], flat);
      assert shards[..shards.Length] == shards[..] && start[..shards.Length] == start;
    }

    /** Every entry, in whatever order the shard maps yield them. */
    method Collect() returns (rows: seq<Row>)
      requires Valid()
      ensures Lists(rows, flat, shards.Length)
    {
      rows := [];
      for i := 0 to shards.Length
        invariant Distinct(rows)
        invariant forall r | r in rows :: r.hash in flat && r.shard < i && r == RowOf(flat, r.hash, shards.Length)
        invariant forall h | h in flat && Slot(h, shards.Length) < i :: RowOf(flat, h, shards.Length) in rows
      {
        assert shards[i] == shards[..][i];
        var keys := shards[i].Keys;
        while keys != {}
          invariant keys <= shards[i].Keys
          invariant Distinct(rows)
          invariant forall r | r in rows :: r.hash in flat && r.shard <= i && r.hash !in keys && r == RowOf(flat, r.hash, shards.Length)
          invariant forall h | h in flat && Slot(h, shards.Length) <= i && h !in keys :: RowOf(flat, h, shards.Length) in rows
          decreases keys
        {
          var hash :| hash in keys;
          rows := rows + [Row(shards[i][hash].touched, hash, i)];
          keys := keys - {hash};
        }
      }
    }

    method Evict(ttl: nat, maxEntries: nat, now: nat) returns (stats: EvictionStats)
      requires Valid()
      modifies this, shards
      ensures Valid()
      ensures exists gone :: LruVictims(Expire(old(flat), now, ttl), gone, maxEntries)
                             && flat == Expire(old(flat), now, ttl) - gone
      ensures stats.expired == |old(flat)| - |Expire(old(flat), now, ttl)|
      ensures stats.lruEvicted == |Expire(old(flat), now, ttl)| - |flat|
      ensures |flat| == AtMost(|Expire(old(flat), now, ttl)|, maxEntries)
      ensures stats.expired == |ExpiredKeys(old(flat), now, ttl)|
      ensures forall h | h in flat :: h in old(flat) && flat[h] == old(flat)[h] && now <= flat[h].touched + ttl
    {
      var expired := ExpirePass(now, ttl);
      ExpiredCount(old(flat), now, ttl);
      ExpireAt(old(flat), now, ttl);
      var lruEvicted := SweepToCap(maxEntries);
      stats := EvictionStats(expired, lruEvicted);
    }

    /** The global LRU sweep. */
    method SweepToCap(maxEntries: nat) returns (lruEvicted: nat)
      requires Valid()
      modifies this, shards
      ensures Valid()
      ensures exists gone :: LruVictims(old(flat), gone, maxEntries) && flat == old(flat) - gone
      ensures lruEvicted == |old(flat)| - |flat|
      ensures |flat| == AtMost(|old(flat)|, maxEntries)
    {
      var total := Len();
      if total <= maxEntries {
        assert LruVictims(flat, {}, maxEntries) && flat == flat - {};
        return 0;
      }
      var overflow := total - maxEntries;
      var oldest := OldestRows(overflow);
      lruEvicted := RemoveRows(oldest, overflow);
    }

    /** The listing, sorted by age; its first `overflow` rows are a legitimate LRU choice. */
    method OldestRows(overflow: nat) returns (oldest: seq<Row>)
      requires Valid() && overflow <= |flat|
      ensures Removable(oldest, flat, shards.Length) && |oldest| == |flat|
      ensures LruVictims(flat, HashesOf(oldest[..overflow]), |flat| - overflow)
      ensures |flat - HashesOf(oldest[..overflow])| == |flat| - overflow
    {
      var rows := Collect();
      oldest := SortByKey(rows, (r: Row) => r.touched);
      SortedListing(rows, oldest, flat, shards.Length);
      ListingRemovable(oldest, flat, shards.Length);
      OldestFirst(oldest, flat, shards.Length, overflow);
    }

    /** Remove the first `overflow` rows, one shard lock at a time. */
    method RemoveRows(oldest: seq<Row>, overflow: nat) returns (removed: nat)
      requires Valid()
      requires Removable(oldest, flat, shards.Length) && overflow <= |oldest|
      modifies this, shards
      ensures Valid()
      ensures removed == overflow
      ensures flat == old(flat) - HashesOf(oldest[..overflow])
    {
      removed := 0;
      ghost var m := flat;
      for i := 0 to overflow
        invariant Valid()
        invariant flat == m - HashesOf(oldest[..i])
        invariant removed == i
      {
        HashesSnoc(oldest, i);
        var present := Delete(oldest[i].hash, oldest[i].shard);
        if present {
          removed := removed + 1;
        }
      }
    }

    /** One removal under one shard lock. */
    method Delete(hash: Hash, shard: nat) returns (present: bool)
      requires Valid() && shard == Slot(hash, shards.Length)
      modifies this, shards
      ensures Valid() && flat == old(flat) - {hash}
      ensures present <==> hash in old(flat)
    {
      DropFromShard(shards[..], flat, hash);
      assert shards[shard] == shards[..][shard];
      present := hash in shards[shard];
      shards[shard] := shards[shard] - {hash};
      flat := flat - {hash};
    }
  }

  // ---------------------------------------------------------------------------------------------
  // The eviction listing
  // ---------------------------------------------------------------------------------------------

  /** Last touched more than `ttl` ago. */
  function ExpiredKeys(m: Flat, now: nat, ttl: nat): set<Hash> {
    set h | h in m && m[h].touched + ttl < now
  }

  lemma ExpiredCount(m: Flat, now: nat, ttl: nat)
    ensures |Expire(m, now, ttl)| == |m| - |ExpiredKeys(m, now, ttl)|
  {
    ExpireAt(m, now, ttl);
    assert m.Keys == Expire(m, now, ttl).Keys + ExpiredKeys(m, now, ttl);
  }

  lemma ListingLength(rows: seq<Row>, m: Flat, shardCount: nat)
    requires shardCount >= 1 && Lists(rows, m, shardCount)
    ensures |rows| == |m|
  {
    HashesDistinct(rows, m, shardCount, |rows|);
    assert rows[..|rows|] == rows;
    assert HashesOf(rows) == m.Keys by {
      forall h | h in m ensures h in HashesOf(rows) {
        assert RowOf(m, h, shardCount) in rows;
      }
    }
  }

  lemma {:induction false} HashesDistinct(rows: seq<Row>, m: Flat, shardCount: nat, n: nat)
    requires shardCount >= 1 && Lists(rows, m, shardCount) && n <= |rows|
    ensures |HashesOf(rows[..n])| == n
    ensures HashesOf(rows[..n]) <= m.Keys
  {
    if n > 0 {
      HashesDistinct(rows, m, shardCount, n - 1);
      NextRowPresent(rows, m, shardCount, n - 1);
      assert rows[..n] == rows[..n - 1] + [rows[n - 1]];
      assert HashesOf(rows[..n]) == HashesOf(rows[..n - 1]) + {rows[n - 1].hash};
    }
  }

  lemma NextRowPresent(rows: seq<Row>, m: Flat, shardCount: nat, i: nat)
    requires shardCount >= 1 && Lists(rows, m, shardCount) && i < |rows|
    ensures rows[i].hash in m && rows[i] == RowOf(m, rows[i].hash, shardCount)
    ensures rows[i].hash !in HashesOf(rows[..i])
  {
    assert rows[i] in rows;
    forall k | 0 <= k < i ensures rows[k].hash != rows[i].hash {
      assert rows[k] in rows && rows[k] != rows[i];
    }
  }

  lemma ListingRemovable(rows: seq<Row>, m: Flat, shardCount: nat)
    requires shardCount >= 1 && Lists(rows, m, shardCount)
    ensures Removable(rows, m, shardCount)
    ensures |rows| == |m|
  {
    ListingLength(rows, m, shardCount);
    forall i | 0 <= i < |rows| ensures rows[i].hash in m && rows[i].shard == Slot(rows[i].hash, shardCount) && rows[i].hash !in HashesOf(rows[..i]) {
      NextRowPresent(rows, m, shardCount, i);
    }
  }

  lemma SortedListing(rows: seq<Row>, sorted: seq<Row>, m: Flat, shardCount: nat)
    requires shardCount >= 1 && Lists(rows, m, shardCount) && multiset(sorted) == multiset(rows)
    ensures Lists(sorted, m, shardCount)
  {
    DistinctMultiplicity(rows);
    SingleMultiplicity(sorted);
    assert forall r :: r in sorted <==> r in multiset(sorted);
    assert forall r :: r in rows <==> r in multiset(rows);
  }

  lemma HashesSnoc(rows: seq<Row>, i: nat)
    requires i < |rows|
    ensures HashesOf(rows[..i + 1]) == HashesOf(rows[..i]) + {rows[i].hash}
  {
    assert rows[..i + 1] == rows[..i] + [rows[i]];
  }

  lemma OldestFirst(oldest: seq<Row>, m: Flat, shardCount: nat, overflow: nat)
    requires shardCount >= 1 && Lists(oldest, m, shardCount) && overflow <= |oldest| && |oldest| == |m|
    requires forall i, j | 0 <= i < j < |oldest| :: oldest[i].touched <= oldest[j].touched
    ensures LruVictims(m, HashesOf(oldest[..overflow]), |m| - overflow)
    ensures |m - HashesOf(oldest[..overflow])| == |m| - overflow
  {
    var gone := HashesOf(oldest[..overflow]);
    HashesDistinct(oldest, m, shardCount, overflow);
    forall g, k | g in gone && k in m && k !in gone ensures m[g].touched <= m[k].touched {
      OlderThanSurvivors(oldest, m, shardCount, overflow, g, k);
    }
    LeftAfterRemoval(m, gone);
  }

  lemma LeftAfterRemoval(m: Flat, gone: set<Hash>)
    requires gone <= m.Keys
    ensures |m - gone| == |m| - |gone|
  {
    assert m.Keys == (m - gone).Keys + gone;
  }

  lemma OlderThanSurvivors(oldest: seq<Row>, m: Flat, shardCount: nat, overflow: nat, g: Hash, k: Hash)
    requires shardCount >= 1 && Lists(oldest, m, shardCount) && overflow <= |oldest|
    requires forall i, j | 0 <= i < j < |oldest| :: oldest[i].touched <= oldest[j].touched
    requires g in HashesOf(oldest[..overflow]) && k in m && k !in HashesOf(oldest[..overflow])
    ensures g in m && m[g].touched <= m[k].touched
  {
    var r :| r in oldest[..overflow] && r.hash == g;
    var i :| 0 <= i < overflow && oldest[i] == r;
    assert oldest[i] in oldest;
    var j :| 0 <= j < |oldest| && oldest[j] == RowOf(m, k, shardCount);
    NamedEarly(oldest, overflow);
  }

  lemma NamedEarly(rows: seq<Row>, n: nat)
    requires n <= |rows|
    ensures forall j | 0 <= j < n :: rows[j].hash in HashesOf(rows[..n])
  {
    forall j | 0 <= j < n ensures rows[j].hash in HashesOf(rows[..n]) {
      assert rows[..n][j] == rows[j];
    }
  }
}
