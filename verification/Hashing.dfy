/** The prefix-hash chain of a prompt.
  *
  * The hasher is a parameter: any function from an optional predecessor hash and a block of
  * characters to a 64-bit value. What the chain promises rests on the hasher not colliding on the
  * pairs it is actually given, which is a hypothesis here (`CollisionFree`) and never an axiom.
  */
module Hashing {
  import opened Wrappers
  import opened Sequences

  const HASH_SPACE := 0x1_0000_0000_0000_0000

  type Hash = h: int | 0 <= h < HASH_SPACE

  type Hasher = (Option<Hash>, string) -> Hash

  /** Blocks of `size` characters; the last one may be shorter. */
  function Blocks(prompt: string, size: nat): (bs: seq<string>)
    requires size >= 1
    ensures prompt == "" <==> bs == []
  {
    if prompt == "" then []
    else if |prompt| <= size then [prompt]
    else [prompt[..size]] + Blocks(prompt[size..], size)
  }

  /** The hash each later hash is seeded with: `previous`, then the hash just produced. */
  function ChainFrom(hash: Hasher, previous: Option<Hash>, blocks: seq<string>): (c: seq<Hash>)
    ensures |c| == |blocks|
    decreases |blocks|
  {
    if blocks == [] then []
    else
      var h := hash(previous, blocks[0]);
      [h] + ChainFrom(hash, Some(h), blocks[1..])
  }

  function Clamp(blockSize: nat): (size: nat)
    ensures size == if blockSize == 0 then 1 else blockSize
  {
    if blockSize < 1 then 1 else blockSize
  }

  function Chain(hash: Hasher, prompt: string, blockSize: nat): seq<Hash> {
    ChainFrom(hash, None, Blocks(prompt, Clamp(blockSize)))
  }

  /** Read off: one hash per block, the first of its block alone and each later one of its predecessor and its
    * block; a block size of zero counts as one.
    */
  lemma ChainAt(hash: Hasher, prompt: string, blockSize: nat)
    ensures var bs, c := Blocks(prompt, if blockSize == 0 then 1 else blockSize), Chain(hash, prompt, blockSize);
            && |c| == |bs|
            && forall i | 0 <= i < |c| :: c[i] == hash(if i == 0 then None else Some(c[i - 1]), bs[i])
  {
    var bs := Blocks(prompt, Clamp(blockSize));
    forall i: nat | i < |bs|
      ensures var c := ChainFrom(hash, None, bs); c[i] == hash(if i == 0 then None else Some(c[i - 1]), bs[i])
    {
      ChainFromAt(hash, None, bs, i);
    }
  }

  method ChainHash(hash: Hasher, prompt: string, blockSize: nat) returns (chain: seq<Hash>)
    ensures chain == Chain(hash, prompt, blockSize)
  {
    var size := Clamp(blockSize);
    chain := [];
    var previous: Option<Hash> := None;
    var rest := prompt;
    while rest != ""
      invariant chain + ChainFrom(hash, previous, Blocks(rest, size)) == Chain(hash, prompt, blockSize)
      decreases |rest|
    {
      var block := if |rest| <= size then rest else rest[..size];
      var h := hash(previous, block);
      ghost var blocks := Blocks(rest, size);
      assert blocks[0] == block;
      rest := rest[|block|..];
      assert blocks[1..] == Blocks(rest, size);
      chain := chain + [h];
      previous := Some(h);
    }
  }

  // ---------------------------------------------------------------------------------------------
  // Blocks and prompts
  // ---------------------------------------------------------------------------------------------

  function Concat(blocks: seq<string>): string {
    if blocks == [] then "" else blocks[0] + Concat(blocks[1..])
  }

  /** Full blocks followed by at most one shorter, non-empty block. */
  ghost predicate WellBlocked(blocks: seq<string>, size: nat) {
    && (forall i | 0 <= i < |blocks| :: 1 <= |blocks[i]| <= size)
    && (forall i | 0 <= i < |blocks| - 1 :: |blocks[i]| == size)
  }

  lemma {:induction false} BlocksWellBlocked(prompt: string, size: nat)
    requires size >= 1
    ensures WellBlocked(Blocks(prompt, size), size)
  {
    if |prompt| > size {
      BlocksWellBlocked(prompt[size..], size);
      var bs := Blocks(prompt, size);
      assert bs[1..] == Blocks(prompt[size..], size);
      assert forall i | 1 <= i < |bs| :: bs[i] == bs[1..][i - 1];
    }
  }

  /** Splitting loses nothing. */
  lemma {:induction false} ConcatOfBlocks(prompt: string, size: nat)
    requires size >= 1
    ensures Concat(Blocks(prompt, size)) == prompt
  {
    if |prompt| > size {
      ConcatOfBlocks(prompt[size..], size);
      assert Blocks(prompt, size)[1..] == Blocks(prompt[size..], size);
    } else if prompt != "" {
      assert Blocks(prompt, size)[1..] == [];
    }
  }

  /** Splitting inverts concatenation on block lists of the right shape. */
  lemma {:induction false} BlocksOfConcat(blocks: seq<string>, size: nat)
    requires size >= 1 && WellBlocked(blocks, size)
    ensures Blocks(Concat(blocks), size) == blocks
  {
    if blocks != [] {
      var rest := blocks[1..];
      assert forall i | 0 <= i < |rest| :: rest[i] == blocks[i + 1];
      BlocksOfConcat(rest, size);
      if rest != [] {
        assert |rest[0]| >= 1 && Concat(rest) == rest[0] + Concat(rest[1..]);
        assert Concat(blocks)[..size] == blocks[0];
        assert Concat(blocks)[size..] == Concat(rest);
      } else {
        assert blocks == [blocks[0]] && Concat(blocks) == blocks[0];
      }
    }
  }

  lemma {:induction false} BlockCount(prompt: string, size: nat)
    requires size >= 1
    ensures |Blocks(prompt, size)| == (|prompt| + size - 1) / size
  {
    if |prompt| > size {
      BlockCount(prompt[size..], size);
      DivStep(|prompt| - size + size - 1, size);
    } else if prompt != "" {
      DivOne(|prompt| + size - 1, size);
    } else {
      DivZero(size - 1, size);
    }
  }

  lemma DivStep(x: nat, d: nat)
    requires d >= 1
    ensures (x + d) / d == x / d + 1
  {
    var q, r := x / d, x % d;
    assert x + d == (q + 1) * d + r;
    DivUnique(x + d, d, q + 1, r);
  }

  lemma DivUnique(x: nat, d: nat, q: nat, r: nat)
    requires d >= 1 && r < d && x == q * d + r
    ensures x / d == q && x % d == r
  {
    var q', r' := x / d, x % d;
    assert x == d * q' + r';
    assert (q' - q) * d == d * q' - q * d == r - r';
    MultipleIsFar(q' - q, d);
  }

  lemma MultipleIsFar(k: int, d: nat)
    ensures k >= 1 ==> k * d >= d
    ensures k <= -1 ==> k * d <= 0 - d
  {
  }

  lemma DivOne(x: nat, d: nat)
    requires d <= x < 2 * d
    ensures x / d == 1
  {
    DivUnique(x, d, 1, x - d);
  }

  lemma DivZero(x: nat, d: nat)
    requires x < d
    ensures x / d == 0
  {
    DivUnique(x, d, 0, x);
  }

  /** How many leading blocks two prompts share, in terms of their characters: all of them when the
    * prompts are equal, and otherwise only the blocks that the common characters fill.
    */
  lemma {:induction false} CommonBlocks(p: string, q: string, size: nat)
    requires size >= 1
    ensures Common(Blocks(p, size), Blocks(q, size)) ==
            if p == q then (|p| + size - 1) / size else Common(p, q) / size
  {
    if p == q {
      BlockCount(p, size);
      CommonIsLargest(Blocks(p, size), Blocks(p, size), |Blocks(p, size)|);
    } else if p == "" || q == "" {
      DivZero(0, size);
    } else if Blocks(p, size)[0] != Blocks(q, size)[0] {
      FirstBlocksDiffer(p, q, size);
      DivZero(Common(p, q), size);
    } else if |p| > size && |q| > size {
      CommonBlocks(p[size..], q[size..], size);
      FirstBlocksAgree(p, q, size);
      DivStep(Common(p[size..], q[size..]), size);
    } else {
      OneBlockShared(p, q, size);
      DivOne(size, size);
    }
  }

  lemma FirstBlocksDiffer(p: string, q: string, size: nat)
    requires size >= 1 && p != "" && q != "" && Blocks(p, size)[0] != Blocks(q, size)[0]
    ensures Common(Blocks(p, size), Blocks(q, size)) == 0
    ensures Common(p, q) < size
  {
    CommonIsLargest(p, q, size);
    assert |p| >= size ==> Blocks(p, size)[0] == p[..size];
    assert |q| >= size ==> Blocks(q, size)[0] == q[..size];
  }

  lemma FirstBlocksAgree(p: string, q: string, size: nat)
    requires size >= 1 && |p| > size && |q| > size && p != q && Blocks(p, size)[0] == Blocks(q, size)[0]
    ensures p[size..] != q[size..]
    ensures Common(Blocks(p, size), Blocks(q, size)) == 1 + Common(Blocks(p[size..], size), Blocks(q[size..], size))
    ensures Common(p, q) == size + Common(p[size..], q[size..])
  {
    assert p[..size] == q[..size];
    assert p == p[..size] + p[size..] && q == q[..size] + q[size..];
    CommonCons(p[..size], Blocks(p[size..], size), Blocks(q[size..], size));
    CommonDrop(p, q, size);
  }

  lemma CommonCons<T>(x: T, a: seq<T>, b: seq<T>)
    ensures Common([x] + a, [x] + b) == 1 + Common(a, b)
  {
    assert ([x] + a)[1..] == a && ([x] + b)[1..] == b;
  }

  lemma CommonDrop<T>(a: seq<T>, b: seq<T>, k: nat)
    requires k <= |a| && k <= |b| && a[..k] == b[..k]
    ensures Common(a, b) == k + Common(a[k..], b[k..])
  {
    if k > 0 {
      assert a[0] == a[..k][0] == b[..k][0] == b[0];
      assert a[1..][..k - 1] == a[..k][1..] && b[1..][..k - 1] == b[..k][1..];
      CommonDrop(a[1..], b[1..], k - 1);
      assert a[1..][k - 1..] == a[k..] && b[1..][k - 1..] == b[k..];
    } else {
      assert a[0..] == a && b[0..] == b;
    }
  }

  lemma OneBlockShared(p: string, q: string, size: nat)
    requires size >= 1 && p != "" && q != "" && p != q
    requires Blocks(p, size)[0] == Blocks(q, size)[0]
    requires |p| <= size || |q| <= size
    ensures Common(Blocks(p, size), Blocks(q, size)) == 1
    ensures Common(p, q) == size
  {
    if |p| <= size {
      assert Blocks(p, size) == [p];
      assert |q| > size && p == q[..size];
    } else {
      assert Blocks(q, size) == [q];
      assert q == p[..size];
    }
    CommonIsLargest(p, q, size);
  }

  // ---------------------------------------------------------------------------------------------
  // Chains
  // ---------------------------------------------------------------------------------------------

  /** The predecessor fed to the hasher at position `i`. */
  function Seed(chain: seq<Hash>, i: nat): Option<Hash>
    requires i <= |chain|
  {
    if i == 0 then None else Some(chain[i - 1])
  }

  lemma {:induction false} ChainFromAt(hash: Hasher, previous: Option<Hash>, blocks: seq<string>, i: nat)
    requires i < |blocks|
    ensures var c := ChainFrom(hash, previous, blocks);
            c[i] == hash(if i == 0 then previous else Some(c[i - 1]), blocks[i])
    decreases i
  {
    if i > 0 {
      ChainFromAt(hash, Some(hash(previous, blocks[0])), blocks[1..], i - 1);
    }
  }

  lemma {:induction false} ChainFromPrefix(hash: Hasher, previous: Option<Hash>, blocks: seq<string>, k: nat)
    requires k <= |blocks|
    ensures ChainFrom(hash, previous, blocks)[..k] == ChainFrom(hash, previous, blocks[..k])
    decreases k
  {
    if k > 0 {
      ChainFromPrefix(hash, Some(hash(previous, blocks[0])), blocks[1..], k - 1);
      assert blocks[1..][..k - 1] == blocks[..k][1..];
    }
  }

  /** No two different (predecessor, block) pairs met while hashing `prompts` share a hash. */
  ghost predicate CollisionFree(hash: Hasher, size: nat, prompts: set<string>)
    requires size >= 1
  {
    forall p, q, i, j ::
      p in prompts && q in prompts
      && 0 <= i < |Chain(hash, p, size)| && 0 <= j < |Chain(hash, q, size)|
      && Chain(hash, p, size)[i] == Chain(hash, q, size)[j]
      ==> Seed(Chain(hash, p, size), i) == Seed(Chain(hash, q, size), j)
          && Blocks(p, size)[i] == Blocks(q, size)[j]
  }

  /** What the hasher is given for the `i`-th block: the hash before it, if any, and the block. */
  function FedAt(hash: Hasher, size: nat, p: string, i: nat): (Option<Hash>, string)
    requires size >= 1 && i < |Blocks(p, size)|
  {
    (Seed(Chain(hash, p, size), i), Blocks(p, size)[i])
  }

  ghost predicate FedApart(hash: Hasher, size: nat, p: string, q: string)
    requires size >= 1
  {
    forall i: nat, j: nat | i < |Blocks(p, size)| && j < |Blocks(q, size)| ::
      var x, y := FedAt(hash, size, p, i), FedAt(hash, size, q, j); hash(x.0, x.1) == hash(y.0, y.1) ==> x == y
  }

  lemma FedHash(hash: Hasher, size: nat, p: string, i: nat)
    requires size >= 1 && i < |Blocks(p, size)|
    ensures var x := FedAt(hash, size, p, i); Chain(hash, p, size)[i] == hash(x.0, x.1)
  {
    ChainFromAt(hash, None, Blocks(p, size), i);
  }

  /** So it asks exactly that the hasher be injective on what it is given, and nothing more. */
  lemma CollisionFreeIff(hash: Hasher, size: nat, prompts: set<string>)
    requires size >= 1
    ensures CollisionFree(hash, size, prompts) <==> forall p, q | p in prompts && q in prompts :: FedApart(hash, size, p, q)
  {
    forall p: string, i: nat | i < |Blocks(p, size)|
      ensures var x := FedAt(hash, size, p, i); Chain(hash, p, size)[i] == hash(x.0, x.1)
    {
      FedHash(hash, size, p, i);
    }
    if CollisionFree(hash, size, prompts) {
      forall p, q | p in prompts && q in prompts ensures FedApart(hash, size, p, q) {
      }
    } else {
      var p, q, i, j :|
        && p in prompts && q in prompts
        && 0 <= i < |Chain(hash, p, size)| && 0 <= j < |Chain(hash, q, size)|
        && Chain(hash, p, size)[i] == Chain(hash, q, size)[j]
        && FedAt(hash, size, p, i) != FedAt(hash, size, q, j);
      assert !FedApart(hash, size, p, q);
    }
  }

  /** A hash that occurs in two chains of the family ends the same prefix in both. */
  ghost predicate Coherent(chains: set<seq<Hash>>) {
    forall c, d, i, j ::
      c in chains && d in chains && 0 <= i < |c| && 0 <= j < |d| && c[i] == d[j]
      ==> i == j && c[..i + 1] == d[..j + 1]
  }

  ghost function ChainsOf(hash: Hasher, size: nat, prompts: set<string>): set<seq<Hash>> {
    set p | p in prompts :: Chain(hash, p, size)
  }

  /** A collision-free hasher gives every block hash one depth and one ancestry. */
  lemma CollisionFreeIsCoherent(hash: Hasher, size: nat, prompts: set<string>)
    requires size >= 1 && CollisionFree(hash, size, prompts)
    ensures Coherent(ChainsOf(hash, size, prompts))
  {
    forall c, d, i, j | c in ChainsOf(hash, size, prompts) && d in ChainsOf(hash, size, prompts)
                        && 0 <= i < |c| && 0 <= j < |d| && c[i] == d[j]
      ensures i == j && c[..i + 1] == d[..j + 1]
    {
      var p :| p in prompts && c == Chain(hash, p, size);
      var q :| q in prompts && d == Chain(hash, q, size);
      SharedHashSharedPast(hash, size, prompts, p, q, i, j);
    }
  }

  lemma {:induction false} SharedHashSharedPast(hash: Hasher, size: nat, prompts: set<string>,
                                                p: string, q: string, i: nat, j: nat)
    requires size >= 1 && CollisionFree(hash, size, prompts) && p in prompts && q in prompts
    requires i < |Chain(hash, p, size)| && j < |Chain(hash, q, size)|
    requires Chain(hash, p, size)[i] == Chain(hash, q, size)[j]
    ensures i == j
    ensures Chain(hash, p, size)[..i + 1] == Chain(hash, q, size)[..j + 1]
    ensures Blocks(p, size)[..i + 1] == Blocks(q, size)[..j + 1]
  {
    var c, d := Chain(hash, p, size), Chain(hash, q, size);
    var bp, bq := Blocks(p, size), Blocks(q, size);
    assert Seed(c, i) == Seed(d, j) && bp[i] == bq[j];
    if i > 0 {
      SharedHashSharedPast(hash, size, prompts, p, q, i - 1, j - 1);
    }
    PrefixSnoc(c, d, i);
    PrefixSnoc(bp, bq, i);
  }

  /** The documented invariant, with its exact condition. Shared blocks always give shared hashes.
    * The converse, for one pair of prompts, holds exactly when the hasher separates the two blocks
    * at the first place where the prompts part.
    */
  lemma SharedBlocksVersusSharedHashes(hash: Hasher, size: nat, p: string, q: string)
    requires size >= 1
    ensures var bp, bq, c, d := Blocks(p, size), Blocks(q, size), Chain(hash, p, size), Chain(hash, q, size);
            var k := Common(bp, bq);
            && k <= Common(c, d)
            && (Common(c, d) == k <==>
                k == |bp| || k == |bq| || hash(Seed(c, k), bp[k]) != hash(Seed(c, k), bq[k]))
  {
    var bp, bq := Blocks(p, size), Blocks(q, size);
    ChainsAgreeOnBlocks(hash, bp, bq);
    if Common(bp, bq) < |bp| && Common(bp, bq) < |bq| {
      ChainsPart(hash, bp, bq);
    }
  }

  lemma ChainsAgreeOnBlocks(hash: Hasher, bp: seq<string>, bq: seq<string>)
    ensures Common(bp, bq) <= Common(ChainFrom(hash, None, bp), ChainFrom(hash, None, bq))
  {
    var k := Common(bp, bq);
    ChainFromPrefix(hash, None, bp, k);
    ChainFromPrefix(hash, None, bq, k);
    CommonIsLargest(ChainFrom(hash, None, bp), ChainFrom(hash, None, bq), k);
  }

  lemma ChainsPart(hash: Hasher, bp: seq<string>, bq: seq<string>)
    requires Common(bp, bq) < |bp| && Common(bp, bq) < |bq|
    ensures var c, d, k := ChainFrom(hash, None, bp), ChainFrom(hash, None, bq), Common(bp, bq);
            Common(c, d) == k <==> hash(Seed(c, k), bp[k]) != hash(Seed(c, k), bq[k])
  {
    var c, d, k := ChainFrom(hash, None, bp), ChainFrom(hash, None, bq), Common(bp, bq);
    ChainsAgreeOnBlocks(hash, bp, bq);
    CommonStopsAt(c, d, k);
    ChainFromAt(hash, None, bp, k);
    ChainFromAt(hash, None, bq, k);
  }

  /** Chain arithmetic under a collision-free hasher: the number of equal leading hashes in terms of
    * the prompts' characters, and no agreement after the first difference.
    */
  lemma ChainArithmetic(hash: Hasher, size: nat, prompts: set<string>, p: string, q: string)
    requires size >= 1 && CollisionFree(hash, size, prompts) && p in prompts && q in prompts
    ensures var c, d := Chain(hash, p, size), Chain(hash, q, size);
            && Common(c, d) == Common(Blocks(p, size), Blocks(q, size))
            && Common(c, d) == (if p == q then (|p| + size - 1) / size else Common(p, q) / size)
            && (forall i, j | Common(c, d) <= i < |c| && 0 <= j < |d| :: c[i] != d[j])
  {
    SharedHashesShareBlocks(hash, size, prompts, p, q);
    CommonBlocks(p, q, size);
    DivergenceIsFinal(hash, size, prompts, p, q);
  }

  lemma SharedHashesShareBlocks(hash: Hasher, size: nat, prompts: set<string>, p: string, q: string)
    requires size >= 1 && CollisionFree(hash, size, prompts) && p in prompts && q in prompts
    ensures Common(Chain(hash, p, size), Chain(hash, q, size)) == Common(Blocks(p, size), Blocks(q, size))
  {
    ChainsAgreeOnBlocks(hash, Blocks(p, size), Blocks(q, size));
    var k := Common(Chain(hash, p, size), Chain(hash, q, size));
    if k > 0 {
      LastSharedHash(hash, size, prompts, p, q, k);
    }
  }

  lemma LastSharedHash(hash: Hasher, size: nat, prompts: set<string>, p: string, q: string, k: nat)
    requires size >= 1 && CollisionFree(hash, size, prompts) && p in prompts && q in prompts
    requires 1 <= k <= Common(Chain(hash, p, size), Chain(hash, q, size))
    ensures k <= Common(Blocks(p, size), Blocks(q, size))
  {
    CommonAgrees(Chain(hash, p, size), Chain(hash, q, size), k - 1);
    SharedHashSharedPast(hash, size, prompts, p, q, k - 1, k - 1);
    CommonIsLargest(Blocks(p, size), Blocks(q, size), k);
  }

  lemma DivergenceIsFinal(hash: Hasher, size: nat, prompts: set<string>, p: string, q: string)
    requires size >= 1 && CollisionFree(hash, size, prompts) && p in prompts && q in prompts
    ensures var c, d := Chain(hash, p, size), Chain(hash, q, size);
            forall i, j | Common(c, d) <= i < |c| && 0 <= j < |d| :: c[i] != d[j]
  {
    var c, d := Chain(hash, p, size), Chain(hash, q, size);
    forall i, j | Common(c, d) <= i < |c| && 0 <= j < |d| ensures c[i] != d[j] {
      if c[i] == d[j] {
        SharedHashSharedPast(hash, size, prompts, p, q, i, j);
        CommonIsLargest(c, d, i + 1);
      }
    }
  }
}
