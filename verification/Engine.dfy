/** The mock engine's prefix cache, and the router's belief measured against it.
  *
  * The engine keys a block by a digest of the whole prompt text up to the block's end, keeps the keys
  * in an ordered dictionary of bounded size, and looks for a match from the last block backwards.
  */
module Engine {
  import opened Sequences
  import opened Hashing

  type Digest = nat
  type Digester = string -> Digest

  /** Digests of ever longer prefixes; `seen` is the text already fed to the hasher. */
  function DigestsFrom(digest: Digester, seen: string, blocks: seq<string>): (ds: seq<Digest>)
    ensures |ds| == |blocks|
    decreases |blocks|
  {
    if blocks == [] then []
    else [digest(seen + blocks[0])] + DigestsFrom(digest, seen + blocks[0], blocks[1..])
  }

  function Digests(digest: Digester, text: string, size: nat): seq<Digest>
    requires size >= 1
  {
    DigestsFrom(digest, "", Blocks(text, size))
  }

  method BlockPrefixHashes(digest: Digester, text: string, size: nat) returns (hashes: seq<Digest>)
    requires size >= 1
    ensures hashes == Digests(digest, text, size)
  {
    hashes := [];
    var hasher := "";
    var i := 0;
    while i < |text|
      invariant i <= |text| || text == ""
      invariant hashes + DigestsFrom(digest, hasher, Blocks(if i <= |text| then text[i..] else "", size)) == Digests(digest, text, size)
      decreases |text| - i
    {
      var end := if i + size <= |text| then i + size else |text|;
      var rest := text[i..];
      assert Blocks(rest, size)[0] == text[i..end];
      assert Blocks(rest, size)[1..] == Blocks(text[end..], size) by {
        if |rest| > size { assert rest[size..] == text[end..]; }
      }
      hasher := hasher + text[i..end];
      hashes := hashes + [digest(hasher)];
      i := end;
    }
  }

  // ---------------------------------------------------------------------------------------------
  // The ordered dictionary
  // ---------------------------------------------------------------------------------------------

  /** `pop` then re-insert: the key moves to the young end. */
  function Refresh(cache: seq<Digest>, h: Digest): seq<Digest> {
    Without(cache, {h}) + [h]
  }

  function RefreshAll(cache: seq<Digest>, hashes: seq<Digest>): seq<Digest>
    decreases |hashes|
  {
    if hashes == [] then cache else RefreshAll(Refresh(cache, hashes[0]), hashes[1..])
  }

  /** Keep the youngest `cap` keys. */
  function Trim(cache: seq<Digest>, cap: nat): seq<Digest> {
    if |cache| <= cap then cache else cache[|cache| - cap..]
  }

  /** The backward scan: one past the last position whose key is cached. */
  function Scan(cache: seq<Digest>, hashes: seq<Digest>): (k: nat)
    ensures k <= |hashes|
    ensures k > 0 ==> hashes[k - 1] in cache
    ensures forall j | k <= j < |hashes| :: hashes[j] !in cache
    decreases |hashes|
  {
    if hashes == [] then 0
    else if hashes[|hashes| - 1] in cache then |hashes|
    else
      var k := Scan(cache, hashes[..|hashes| - 1]);
      assert forall j | k <= j < |hashes| - 1 :: hashes[..|hashes| - 1][j] == hashes[j];
      k
  }

  class MockEngine {
    const cap: nat
    var cache: seq<Digest>

    constructor (cap: nat)
      ensures this.cap == cap && cache == []
    {
      this.cap := cap;
      cache := [];
    }

    method RecordAndMatch(hashes: seq<Digest>) returns (matched: nat)
      modifies this
      ensures matched == Scan(old(cache), hashes)
      ensures cache == Trim(RefreshAll(old(cache), hashes), cap)
    {
      matched := 0;
      var i := |hashes|;
      assert hashes[..|hashes|] == hashes;
      while i > 0
        invariant 0 <= i <= |hashes| && matched == 0
        invariant Scan(cache, hashes) == Scan(cache, hashes[..i])
        decreases i
      {
        i := i - 1;
        if hashes[i] in cache {
          matched := i + 1;
          break;
        }
        assert hashes[..i + 1][..i] == hashes[..i];
      }
      for j := 0 to |hashes|
        invariant RefreshAll(cache, hashes[j..]) == RefreshAll(old(cache), hashes)
      {
        var h := hashes[j];
        cache := Without(cache, {h});
        cache := cache + [h];
        assert hashes[j..][1..] == hashes[j + 1..];
      }
      while |cache| > cap
        invariant Trim(cache, cap) == Trim(RefreshAll(old(cache), hashes), cap)
        decreases |cache|
      {
        assert cache[1..][|cache| - 1 - cap..] == cache[|cache| - cap..];
        cache := cache[1..];
      }
    }
  }

  /** The cache after a list of requests, each given as its block keys. */
  function CacheAfter(requests: seq<seq<Digest>>, cap: nat): seq<Digest> {
    if requests == [] then []
    else Trim(RefreshAll(CacheAfter(requests[..|requests| - 1], cap), requests[|requests| - 1]), cap)
  }

  // ---------------------------------------------------------------------------------------------
  // The cache is the last `cap` distinct keys of the whole access history
  // ---------------------------------------------------------------------------------------------

  /** Distinct elements in order of last occurrence. */
  function LastAccess(history: seq<Digest>): (r: seq<Digest>)
    ensures forall x :: x in r <==> x in history
  {
    if history == [] then []
    else if history[0] in history[1..] then LastAccess(history[1..])
    else [history[0]] + LastAccess(history[1..])
  }

  lemma {:induction false} LastAccessDistinct(history: seq<Digest>)
    ensures Distinct(LastAccess(history))
  {
    if history != [] {
      LastAccessDistinct(history[1..]);
    }
  }

  function Flatten(requests: seq<seq<Digest>>): seq<Digest> {
    if requests == [] then [] else Flatten(requests[..|requests| - 1]) + requests[|requests| - 1]
  }

  lemma {:induction false} LastAccessSnoc(history: seq<Digest>, h: Digest)
    ensures LastAccess(history + [h]) == Refresh(LastAccess(history), h)
  {
    if history == [] {
      assert (history + [h])[1..] == [];
    } else {
      var x, rest := history[0], history[1..];
      LastAccessSnoc(rest, h);
      assert (history + [h])[1..] == rest + [h];
      if x !in rest {
        assert LastAccess(history)[1..] == LastAccess(rest);
      }
    }
  }

  lemma {:induction false} LastAccessAppend(history: seq<Digest>, hashes: seq<Digest>)
    ensures LastAccess(history + hashes) == RefreshAll(LastAccess(history), hashes)
    decreases |hashes|
  {
    if hashes == [] {
      assert history + hashes == history;
    } else {
      LastAccessSnoc(history, hashes[0]);
      LastAccessAppend(history + [hashes[0]], hashes[1..]);
      assert history + hashes == (history + [hashes[0]]) + hashes[1..];
    }
  }

  /** `kept` is a tail of `full`, and only a tail at least `cap` long may be a proper one. */
  ghost predicate KeepsEnough(kept: seq<Digest>, full: seq<Digest>, cap: nat) {
    && |kept| <= |full|
    && kept == full[|full| - |kept|..]
    && (kept == full || |kept| >= cap)
  }

  lemma KeepsEnoughTrims(kept: seq<Digest>, full: seq<Digest>, cap: nat)
    requires KeepsEnough(kept, full, cap)
    ensures Trim(kept, cap) == Trim(full, cap)
    ensures KeepsEnough(Trim(full, cap), full, cap)
  {
  }

  lemma {:induction false} WithoutConcat(a: seq<Digest>, b: seq<Digest>, gone: set<Digest>)
    ensures Without(a + b, gone) == Without(a, gone) + Without(b, gone)
  {
    if a == [] {
      assert a + b == b;
    } else {
      assert (a + b)[1..] == a[1..] + b;
      WithoutConcat(a[1..], b, gone);
      if a[0] !in gone {
        assert [a[0]] + (Without(a[1..], gone) + Without(b, gone)) == Without(a, gone) + Without(b, gone);
      }
    }
  }

  lemma WithoutOne(s: seq<Digest>, h: Digest)
    requires Distinct(s)
    ensures |Without(s, {h})| == if h in s then |s| - 1 else |s|
  {
    if s != [] {
      assert s[0] !in s[1..];
      if s[0] == h {
        WithoutAbsent(s[1..], {h});
      } else {
        WithoutOne(s[1..], h);
      }
    }
  }

  /** Forgetting old keys early makes no difference: a key that is used again goes to the young end
    * whether or not it was still remembered.
    */
  lemma RefreshKeepsEnough(kept: seq<Digest>, full: seq<Digest>, h: Digest, cap: nat)
    requires KeepsEnough(kept, full, cap) && Distinct(full)
    ensures KeepsEnough(Refresh(kept, h), Refresh(full, h), cap)
  {
    var dropped := full[..|full| - |kept|];
    assert full == dropped + kept;
    RefreshConcat(dropped, kept, h);
    RefreshNeverShrinks(kept, h);
  }

  lemma RefreshConcat(dropped: seq<Digest>, kept: seq<Digest>, h: Digest)
    ensures var r, k := Refresh(dropped + kept, h), Refresh(kept, h); |k| <= |r| && r[|r| - |k|..] == k
  {
    WithoutConcat(dropped, kept, {h});
    var a, b := Without(dropped, {h}), Without(kept, {h});
    assert (a + b) + [h] == a + (b + [h]);
    TailOfConcat(a, b + [h]);
  }

  lemma TailOfConcat(a: seq<Digest>, b: seq<Digest>)
    ensures (a + b)[|a + b| - |b|..] == b
  {
  }

  lemma RefreshNeverShrinks(cache: seq<Digest>, h: Digest)
    requires Distinct(cache)
    ensures |Refresh(cache, h)| >= |cache|
  {
    WithoutOne(cache, h);
  }

  lemma RefreshKeepsDistinct(cache: seq<Digest>, h: Digest)
    requires Distinct(cache)
    ensures Distinct(Refresh(cache, h))
  {
    WithoutKeepsDistinct(cache, {h});
  }

  lemma {:induction false} RefreshAllKeepsEnough(kept: seq<Digest>, full: seq<Digest>, hashes: seq<Digest>, cap: nat)
    requires KeepsEnough(kept, full, cap) && Distinct(full)
    ensures KeepsEnough(RefreshAll(kept, hashes), RefreshAll(full, hashes), cap)
    decreases |hashes|
  {
    if hashes != [] {
      RefreshKeepsEnough(kept, full, hashes[0], cap);
      RefreshKeepsDistinct(full, hashes[0]);
      RefreshAllKeepsEnough(Refresh(kept, hashes[0]), Refresh(full, hashes[0]), hashes[1..], cap);
    }
  }

  /** After any requests the cache is exactly the last `cap` distinct keys in order of last access. */
  lemma {:induction false} CacheIsRecentHistory(requests: seq<seq<Digest>>, cap: nat)
    ensures CacheAfter(requests, cap) == Trim(LastAccess(Flatten(requests)), cap)
  {
    if requests != [] {
      var init, last := requests[..|requests| - 1], requests[|requests| - 1];
      var full := LastAccess(Flatten(init));
      CacheIsRecentHistory(init, cap);
      LastAccessAppend(Flatten(init), last);
      LastAccessDistinct(Flatten(init));
      KeepsEnoughTrims(full, full, cap);
      RefreshAllKeepsEnough(CacheAfter(init, cap), full, last, cap);
      KeepsEnoughTrims(RefreshAll(CacheAfter(init, cap), last), RefreshAll(full, last), cap);
    }
  }

  /** The last use of `h` is at position `p`. */
  predicate LastUse(history: seq<Digest>, h: Digest, p: nat) {
    p < |history| && history[p] == h && h !in history[p + 1..]
  }

  /** Fewer than `cap` distinct keys have been used since `h` was. */
  ghost predicate RecentlyUsed(history: seq<Digest>, h: Digest, cap: nat) {
    exists p :: LastUse(history, h, p) && |LastAccess(history[p + 1..])| < cap
  }

  /** What was used after position `p` is the young end of what was used at all. */
  lemma {:induction false} LastAccessTail(history: seq<Digest>, p: nat) returns (older: seq<Digest>)
    requires p <= |history|
    ensures LastAccess(history) == older + LastAccess(history[p..])
  {
    if p > 0 {
      older := LastAccessTail(history[1..], p - 1);
      assert history[1..][p - 1..] == history[p..];
      if history[0] !in history[1..] {
        older := [history[0]] + older;
      }
    } else {
      older := [];
      assert history[0..] == history;
    }
  }

  lemma TrimmedIff(history: seq<Digest>, h: Digest, p: nat, cap: nat)
    requires LastUse(history, h, p)
    ensures h in Trim(LastAccess(history), cap) <==> |LastAccess(history[p + 1..])| < cap
  {
    var older := LastAccessTail(history, p);
    LastAccessDistinct(history);
    assert history[p..][1..] == history[p + 1..];
    InTail(LastAccess(history), |older|, cap);
  }

  lemma InTail(r: seq<Digest>, i: nat, cap: nat)
    requires Distinct(r) && i < |r|
    ensures r[i] in Trim(r, cap) <==> |r| - i <= cap
  {
    if |r| > cap {
      var n := |r| - cap;
      assert forall j | 0 <= j < cap :: r[n..][j] == r[n + j];
      assert i >= n ==> r[n..][i - n] == r[i];
    }
  }

  lemma {:induction false} HasLastUse(history: seq<Digest>, h: Digest) returns (p: nat)
    requires h in history
    ensures LastUse(history, h, p)
  {
    if h in history[1..] {
      p := HasLastUse(history[1..], h);
      assert history[1..][p + 1..] == history[p + 2..];
      p := p + 1;
    } else {
      p := 0;
    }
  }

  /** What is cached, read off the requests: a key used at all, since whose last use fewer than `cap` distinct
    * keys were used.
    */
  lemma CachedIff(requests: seq<seq<Digest>>, cap: nat, h: Digest)
    ensures h in CacheAfter(requests, cap) <==> RecentlyUsed(Flatten(requests), h, cap)
  {
    var history := Flatten(requests);
    CacheIsRecentHistory(requests, cap);
    forall p | LastUse(history, h, p)
      ensures h in Trim(LastAccess(history), cap) <==> |LastAccess(history[p + 1..])| < cap
    {
      TrimmedIff(history, h, p, cap);
    }
    if h in CacheAfter(requests, cap) {
      assert h in LastAccess(history);
      var p := HasLastUse(history, h);
    }
  }

  /** A prompt repeated at once matches all its blocks exactly when the cache can hold anything. */
  lemma ImmediateRepeat(requests: seq<seq<Digest>>, hashes: seq<Digest>, cap: nat)
    requires hashes != []
    ensures Scan(CacheAfter(requests + [hashes], cap), hashes) == |hashes| <==> cap >= 1
  {
    var all := requests + [hashes];
    assert all[..|all| - 1] == requests;
    RefreshAllEndsWith(CacheAfter(requests, cap), hashes);
  }

  lemma {:induction false} RefreshAllEndsWith(cache: seq<Digest>, hashes: seq<Digest>)
    requires hashes != []
    ensures var r := RefreshAll(cache, hashes); r != [] && r[|r| - 1] == hashes[|hashes| - 1]
    decreases |hashes|
  {
    if |hashes| > 1 {
      RefreshAllEndsWith(Refresh(cache, hashes[0]), hashes[1..]);
    } else {
      assert hashes[1..] == [];
    }
  }
}
