/** End-to-end consequences: the router's belief against the engine's cache, and reuse across the turns
  * of one conversation.
  */
module Reuse {
  import opened Sequences
  import opened Hashing
  import opened FlatIndex
  import opened History
  import opened Engine
  import opened Prompts

  // ---------------------------------------------------------------------------------------------
  // Engine keys and blocks
  // ---------------------------------------------------------------------------------------------

  /** No two different prompt prefixes digested for `prompts` share a digest. */
  ghost predicate DigestCollisionFree(digest: Digester, size: nat, prompts: set<string>)
    requires size >= 1
  {
    forall p, q, i, j ::
      p in prompts && q in prompts
      && 0 <= i < |Digests(digest, p, size)| && 0 <= j < |Digests(digest, q, size)|
      && Digests(digest, p, size)[i] == Digests(digest, q, size)[j]
      ==> Concat(Blocks(p, size)[..i + 1]) == Concat(Blocks(q, size)[..j + 1])
  }

  lemma {:induction false} DigestsFromAt(digest: Digester, seen: string, blocks: seq<string>, i: nat)
    requires i < |blocks|
    ensures DigestsFrom(digest, seen, blocks)[i] == digest(seen + Concat(blocks[..i + 1]))
    decreases i
  {
    assert blocks[..i + 1][1..] == blocks[1..][..i];
    if i > 0 {
      DigestsFromAt(digest, seen + blocks[0], blocks[1..], i - 1);
      assert seen + Concat(blocks[..i + 1]) == (seen + blocks[0]) + Concat(blocks[1..][..i]);
    } else {
      assert seen + Concat(blocks[..1]) == seen + blocks[0];
    }
  }

  lemma DigestsAt(digest: Digester, p: string, size: nat, i: nat)
    requires size >= 1 && i < |Blocks(p, size)|
    ensures Digests(digest, p, size)[i] == digest(Concat(Blocks(p, size)[..i + 1]))
  {
    DigestsFromAt(digest, "", Blocks(p, size), i);
    assert "" + Concat(Blocks(p, size)[..i + 1]) == Concat(Blocks(p, size)[..i + 1]);
  }

  /** The text up to the end of the `i`-th block. */
  function TextUpTo(p: string, size: nat, i: nat): string
    requires size >= 1 && i < |Blocks(p, size)|
  {
    Concat(Blocks(p, size)[..i + 1])
  }

  ghost predicate TextsApart(digest: Digester, size: nat, p: string, q: string)
    requires size >= 1
  {
    forall i: nat, j: nat | i < |Blocks(p, size)| && j < |Blocks(q, size)| ::
      digest(TextUpTo(p, size, i)) == digest(TextUpTo(q, size, j)) ==> TextUpTo(p, size, i) == TextUpTo(q, size, j)
  }

  /** It asks exactly that the digest be injective on the prompts' beginnings, and nothing more. */
  lemma DigestCollisionFreeIff(digest: Digester, size: nat, prompts: set<string>)
    requires size >= 1
    ensures DigestCollisionFree(digest, size, prompts)
            <==> forall p, q | p in prompts && q in prompts :: TextsApart(digest, size, p, q)
  {
    forall p: string, i: nat | i < |Blocks(p, size)| ensures Digests(digest, p, size)[i] == digest(TextUpTo(p, size, i)) {
      DigestsAt(digest, p, size, i);
    }
    if DigestCollisionFree(digest, size, prompts) {
      forall p, q | p in prompts && q in prompts ensures TextsApart(digest, size, p, q) {
      }
    } else {
      var p, q, i, j :|
        && p in prompts && q in prompts
        && 0 <= i < |Digests(digest, p, size)| && 0 <= j < |Digests(digest, q, size)|
        && Digests(digest, p, size)[i] == Digests(digest, q, size)[j]
        && TextUpTo(p, size, i) != TextUpTo(q, size, j);
      assert !TextsApart(digest, size, p, q);
    }
  }

  lemma PrefixWellBlocked(p: string, size: nat, k: nat)
    requires size >= 1 && k <= |Blocks(p, size)|
    ensures WellBlocked(Blocks(p, size)[..k], size)
  {
    BlocksWellBlocked(p, size);
  }

  /** One digest of a whole prefix carries as much as the whole chain of block hashes: the depth of the
    * block and every block up to it.
    */
  lemma SharedDigestSharedBlocks(digest: Digester, size: nat, prompts: set<string>, p: string, q: string, i: nat, j: nat)
    requires size >= 1 && DigestCollisionFree(digest, size, prompts) && p in prompts && q in prompts
    requires i < |Blocks(p, size)| && j < |Blocks(q, size)|
    requires Digests(digest, p, size)[i] == Digests(digest, q, size)[j]
    ensures i == j && i + 1 <= Common(Blocks(p, size), Blocks(q, size))
  {
    var a, b := Blocks(p, size)[..i + 1], Blocks(q, size)[..j + 1];
    PrefixWellBlocked(p, size, i + 1);
    PrefixWellBlocked(q, size, j + 1);
    BlocksOfConcat(a, size);
    BlocksOfConcat(b, size);
    assert a == b;
    CommonIsLargest(Blocks(p, size), Blocks(q, size), i + 1);
  }

  lemma SharedBlocksSharedDigest(digest: Digester, size: nat, p: string, q: string, i: nat)
    requires size >= 1 && i < Common(Blocks(p, size), Blocks(q, size))
    ensures Digests(digest, p, size)[i] == Digests(digest, q, size)[i]
  {
    CommonIsLargest(Blocks(p, size), Blocks(q, size), i + 1);
    DigestsAt(digest, p, size, i);
    DigestsAt(digest, q, size, i);
  }

  // ---------------------------------------------------------------------------------------------
  // Belief against truth
  // ---------------------------------------------------------------------------------------------

  /** The chains routed to `w`, in order. */
  function RoutedTo(ops: seq<Op>, w: WorkerId): seq<seq<Hash>> {
    if ops == [] then []
    else
      var before := RoutedTo(ops[..|ops| - 1], w);
      match ops[|ops| - 1]
      case RecordOp(v, chain, _) => if v == w then before + [chain] else before
      case _ => before
  }

  ghost predicate NeverPurged(ops: seq<Op>, w: WorkerId) {
    forall op | op in ops :: op != PurgeOp(w)
  }

  lemma {:induction false} RoutedIsLive(ops: seq<Op>, w: WorkerId)
    requires NeverPurged(ops, w)
    ensures Live(ops, w) == set c | c in RoutedTo(ops, w)
  {
    if ops != [] {
      var init := ops[..|ops| - 1];
      assert ops[|ops| - 1] in ops;
      assert forall op | op in init :: op in ops;
      RoutedIsLive(init, w);
    }
  }

  function ChainEach(hash: Hasher, size: nat, prompts: seq<string>): seq<seq<Hash>> {
    seq(|prompts|, i requires 0 <= i < |prompts| => Chain(hash, prompts[i], size))
  }

  function DigestEach(digest: Digester, size: nat, prompts: seq<string>): seq<seq<Digest>>
    requires size >= 1
  {
    seq(|prompts|, i requires 0 <= i < |prompts| => Digests(digest, prompts[i], size))
  }

  function SetOf(prompts: seq<string>): set<string> {
    set p | p in prompts
  }

  lemma {:induction false} FlattenMembers(requests: seq<seq<Digest>>, h: Digest)
    ensures h in Flatten(requests) <==> exists i :: 0 <= i < |requests| && h in requests[i]
  {
    if requests != [] {
      var n := |requests| - 1;
      FlattenMembers(requests[..n], h);
      assert forall i | 0 <= i < n :: requests[..n][i] == requests[i];
    }
  }

  /** What the engine matches is at most the blocks shared with some earlier request. */
  lemma EngineWithinHistory(digest: Digester, size: nat, prompts: seq<string>, p: string, cap: nat)
    requires size >= 1 && DigestCollisionFree(digest, size, SetOf(prompts) + {p})
    ensures var k := Scan(CacheAfter(DigestEach(digest, size, prompts), cap), Digests(digest, p, size));
            k == 0 || exists q :: q in prompts && k <= Common(Blocks(q, size), Blocks(p, size))
  {
    var requests := DigestEach(digest, size, prompts);
    var hashes := Digests(digest, p, size);
    var k := Scan(CacheAfter(requests, cap), hashes);
    if k > 0 {
      CacheIsRecentHistory(requests, cap);
      var h := hashes[k - 1];
      assert h in LastAccess(Flatten(requests));
      FlattenMembers(requests, h);
      var i :| 0 <= i < |requests| && h in requests[i];
      var j :| 0 <= j < |requests[i]| && requests[i][j] == h;
      var q := prompts[i];
      assert q in SetOf(prompts);
      SharedDigestSharedBlocks(digest, size, SetOf(prompts) + {p}, q, p, j, k - 1);
    }
  }

  /** While nothing has been evicted, the engine matches at least the blocks shared with any request. */
  lemma EngineCoversHistory(digest: Digester, size: nat, prompts: seq<string>, p: string, cap: nat, q: string)
    requires size >= 1 && q in prompts
    requires |LastAccess(Flatten(DigestEach(digest, size, prompts)))| <= cap
    ensures Common(Blocks(q, size), Blocks(p, size))
            <= Scan(CacheAfter(DigestEach(digest, size, prompts), cap), Digests(digest, p, size))
  {
    var requests := DigestEach(digest, size, prompts);
    var n := Common(Blocks(q, size), Blocks(p, size));
    if n > 0 {
      CacheIsRecentHistory(requests, cap);
      SharedBlocksSharedDigest(digest, size, q, p, n - 1);
      var h := Digests(digest, p, size)[n - 1];
      var i :| 0 <= i < |prompts| && prompts[i] == q;
      assert requests[i] == Digests(digest, q, size) && h in requests[i];
      FlattenMembers(requests, h);
    }
  }

  /** Of the first `k` keys the last has been used, and fewer than `cap` distinct keys have been since. */
  ghost predicate LastRecentlyUsed(requests: seq<seq<Digest>>, cap: nat, hashes: seq<Digest>, k: nat)
    requires k <= |hashes|
  {
    k == 0 || RecentlyUsed(Flatten(requests), hashes[k - 1], cap)
  }

  lemma BeliefCoversTruth(hash: Hasher, digest: Digester, size: nat, ops: seq<Op>, w: WorkerId,
                          prompts: seq<string>, p: string, cap: nat)
    requires size >= 1 && CollisionFree(hash, size, SetOf(prompts) + {p})
    requires DigestCollisionFree(digest, size, SetOf(prompts) + {p})
    requires NoEviction(ops) && NeverPurged(ops, w)
    requires RoutedTo(ops, w) == ChainEach(hash, size, prompts)
    ensures var believed := Walk(State(ops), w, Chain(hash, p, size));
            var requests := DigestEach(digest, size, prompts);
            var found := Scan(CacheAfter(requests, cap), Digests(digest, p, size));
            && found <= believed <= |Digests(digest, p, size)|
            && (|LastAccess(Flatten(requests))| <= cap ==> found == believed)
  {
    var believed := Walk(State(ops), w, Chain(hash, p, size));
    var requests := DigestEach(digest, size, prompts);
    RoutedIsLive(ops, w);
    LiveIsPromptChains(hash, size, ops, w, prompts);
    BeliefCountsSharedBlocks(hash, size, ops, w, SetOf(prompts), p);
    EngineWithinHistory(digest, size, prompts, p, cap);
    if |LastAccess(Flatten(requests))| <= cap && believed > 0 {
      var q :| q in SetOf(prompts) && Common(Blocks(q, size), Blocks(p, size)) == believed;
      EngineCoversHistory(digest, size, prompts, p, cap, q);
    }
  }

  /** A worker all of whose requests come through a router that neither evicts nor purges it: for every
    * next prompt, what the router believes is cached is never less than what the engine finds cached,
    * and the two are equal as long as the engine has evicted nothing. In general they are equal exactly
    * when the requests used fewer than `cap` distinct keys since that of the last block believed there.
    */
  lemma BeliefVersusTruth(hash: Hasher, digest: Digester, size: nat, ops: seq<Op>, w: WorkerId,
                          prompts: seq<string>, p: string, cap: nat)
    requires size >= 1 && CollisionFree(hash, size, SetOf(prompts) + {p})
    requires DigestCollisionFree(digest, size, SetOf(prompts) + {p})
    requires NoEviction(ops) && NeverPurged(ops, w)
    requires RoutedTo(ops, w) == ChainEach(hash, size, prompts)
    ensures var believed := Walk(State(ops), w, Chain(hash, p, size));
            var requests := DigestEach(digest, size, prompts);
            var found := Scan(CacheAfter(requests, cap), Digests(digest, p, size));
            && found <= believed
            && (|LastAccess(Flatten(requests))| <= cap ==> found == believed)
            && believed <= |Digests(digest, p, size)|
            && (found == believed <==> LastRecentlyUsed(requests, cap, Digests(digest, p, size), believed))
  {
    var believed, requests, hashes := Walk(State(ops), w, Chain(hash, p, size)), DigestEach(digest, size, prompts), Digests(digest, p, size);
    BeliefCoversTruth(hash, digest, size, ops, w, prompts, p, cap);
    FoundIff(requests, cap, hashes, believed);
  }

  lemma FoundIff(requests: seq<seq<Digest>>, cap: nat, hashes: seq<Digest>, k: nat)
    requires Scan(CacheAfter(requests, cap), hashes) <= k <= |hashes|
    ensures Scan(CacheAfter(requests, cap), hashes) == k <==> LastRecentlyUsed(requests, cap, hashes, k)
  {
    if k > 0 {
      CachedIff(requests, cap, hashes[k - 1]);
    }
  }

  lemma LiveIsPromptChains(hash: Hasher, size: nat, ops: seq<Op>, w: WorkerId, prompts: seq<string>)
    requires RoutedTo(ops, w) == ChainEach(hash, size, prompts)
    requires Live(ops, w) == set c | c in RoutedTo(ops, w)
    ensures Live(ops, w) == ChainsOf(hash, size, SetOf(prompts))
  {
    var chains := ChainEach(hash, size, prompts);
    forall q | q in SetOf(prompts) ensures Chain(hash, q, size) in chains {
      var i :| 0 <= i < |prompts| && prompts[i] == q;
      assert chains[i] == Chain(hash, q, size);
    }
    forall c | c in chains ensures c in ChainsOf(hash, size, SetOf(prompts)) {
      var i :| 0 <= i < |chains| && chains[i] == c;
      assert prompts[i] in SetOf(prompts);
    }
  }

  // ---------------------------------------------------------------------------------------------
  // Conversations
  // ---------------------------------------------------------------------------------------------

  /** Once a conversation was routed to `w`, every continuation of it matches at least the full blocks
    * of the earlier prompt there, while nothing is evicted. No assumption about collisions is needed.
    */
  lemma ContinuationReusesBlocks(hash: Hasher, size: nat, ops: seq<Op>, w: WorkerId,
                                 messages: seq<Message>, more: seq<Message>)
    requires size >= 1 && NoEviction(ops)
    requires Chain(hash, Canonical(messages), size) in Live(ops, w)
    ensures Walk(State(ops), w, Chain(hash, Canonical(messages + more), size)) >= |Canonical(messages)| / size
  {
    var p, q := Canonical(messages), Canonical(messages + more);
    CanonicalExtends(messages, more);
    PrefixCommon(p, q);
    ContinuedBlocks(p, q, size);
    SharedBlocksVersusSharedHashes(hash, size, p, q);
    SharedChainIsHeld(ops, w, Chain(hash, p, size), Chain(hash, q, size));
  }

  lemma ContinuedBlocks(p: string, q: string, size: nat)
    requires size >= 1 && Common(p, q) == |p|
    ensures Common(Blocks(p, size), Blocks(q, size)) >= |p| / size
  {
    CommonBlocks(p, q, size);
    FullBlocksAtMost(|p|, size);
  }

  lemma PrefixCommon(p: string, q: string)
    requires p <= q
    ensures Common(p, q) == |p|
  {
    assert p == p[..|p|] == q[..|p|];
    CommonIsLargest(p, q, |p|);
  }

  lemma SharedChainIsHeld(ops: seq<Op>, w: WorkerId, c: seq<Hash>, d: seq<Hash>)
    requires NoEviction(ops) && c in Live(ops, w)
    ensures Common(c, d) <= Walk(State(ops), w, d)
  {
    var n := Common(c, d);
    forall i | 0 <= i < n ensures Holds(State(ops), w, d[i]) {
      assert d[i] == d[..n][i] == c[..n][i] == c[i];
      CreditIsComplete(ops, w, c, d[i]);
    }
    WalkIsLargest(State(ops), w, d, n);
  }

  lemma FullBlocksAtMost(n: nat, size: nat)
    requires size >= 1
    ensures n / size <= (n + size - 1) / size
  {
    var q, r := n / size, n % size;
    assert n == q * size + r;
    if r == 0 {
      DivUnique(n + size - 1, size, q, size - 1);
    } else {
      assert (q + 1) * size == q * size + size;
      DivUnique(n + size - 1, size, q + 1, r - 1);
    }
  }
}
