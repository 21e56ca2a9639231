/** How far any 64-bit hasher can keep the promise that prompts share leading blocks exactly when their
  * chains share leading hashes.
  */
module Collisions {
  import opened Wrappers
  import opened Sequences
  import opened Hashing

  /** The promise for all prompts at once. */
  ghost predicate KeepsPromise(hash: Hasher, size: nat)
    requires size >= 1
  {
    forall p, q :: Common(Chain(hash, p, size), Chain(hash, q, size)) == Common(Blocks(p, size), Blocks(q, size))
  }

  // ---------------------------------------------------------------------------------------------
  // Blocks of four characters outnumber the hashes
  // ---------------------------------------------------------------------------------------------

  const DIGITS := 0x2_0000

  /** The `d`-th character; the surrogates are not characters. */
  function Digit(d: nat): char
    requires d < DIGITS
  {
    if d < 0xD800 then d as char else (d + 0x800) as char
  }

  function Word(k: nat): (w: string)
    ensures |w| == 4
  {
    [Digit(k % DIGITS),
     Digit(k / DIGITS % DIGITS),
     Digit(k / DIGITS / DIGITS % DIGITS),
     Digit(k / DIGITS / DIGITS / DIGITS % DIGITS)]
  }

  lemma DigitsDiffer(a: nat, b: nat)
    requires a < DIGITS && b < DIGITS && Digit(a) == Digit(b)
    ensures a == b
  {
    assert Digit(a) as int == Digit(b) as int;
  }

  lemma WordsDiffer(j: nat, k: nat)
    requires j <= HASH_SPACE && k <= HASH_SPACE && Word(j) == Word(k)
    ensures j == k
  {
    var a, b := Word(j), Word(k);
    assert a[0] == b[0] && a[1] == b[1] && a[2] == b[2] && a[3] == b[3];
    DigitsDiffer(j % DIGITS, k % DIGITS);
    DigitsDiffer(j / DIGITS % DIGITS, k / DIGITS % DIGITS);
    DigitsDiffer(j / DIGITS / DIGITS % DIGITS, k / DIGITS / DIGITS % DIGITS);
    DigitsDiffer(j / DIGITS / DIGITS / DIGITS % DIGITS, k / DIGITS / DIGITS / DIGITS % DIGITS);
    TopDigit(j);
    TopDigit(k);
    SameNumber(j / DIGITS / DIGITS, k / DIGITS / DIGITS);
    SameNumber(j / DIGITS, k / DIGITS);
    SameNumber(j, k);
  }

  lemma SameNumber(j: nat, k: nat)
    requires j % DIGITS == k % DIGITS && j / DIGITS == k / DIGITS
    ensures j == k
  {
  }

  lemma TopDigit(k: nat)
    requires k <= HASH_SPACE
    ensures k / DIGITS / DIGITS / DIGITS % DIGITS == k / DIGITS / DIGITS / DIGITS
  {
    assert k / DIGITS / DIGITS / DIGITS < DIGITS;
  }

  function Image(f: nat -> Hash, n: nat): set<int> {
    set i: nat | i < n :: f(i) as int
  }

  lemma {:induction false} ImageSize(f: nat -> Hash, n: nat)
    requires forall i, j | 0 <= i < j < n :: f(i) != f(j)
    ensures |Image(f, n)| == n
  {
    if n > 0 {
      ImageSize(f, n - 1);
      assert Image(f, n) == Image(f, n - 1) + {f(n - 1) as int};
    }
  }

  lemma {:induction false} RangeSize(s: set<int>, n: nat)
    requires forall x | x in s :: 0 <= x < n
    ensures |s| <= n
  {
    if n > 0 {
      RangeSize(s - {n - 1}, n - 1);
      assert s <= (s - {n - 1}) + {n - 1};
      SubsetSize(s, (s - {n - 1}) + {n - 1});
    } else {
      assert forall x :: x !in s;
    }
  }

  /** Of one more hash than there are, two are equal. */
  lemma Pigeonhole(f: nat -> Hash)
    ensures exists i, j :: 0 <= i < j <= HASH_SPACE && f(i) == f(j)
  {
    RangeSize(Image(f, HASH_SPACE + 1), HASH_SPACE);
    if forall i, j | 0 <= i < j < HASH_SPACE + 1 :: f(i) != f(j) {
      ImageSize(f, HASH_SPACE + 1);
    }
  }

  /** Every hasher gives two different one-block prompts the same chain, once a block can hold four
    * characters. They share no block and all their hashes.
    */
  lemma EveryHasherCollides(hash: Hasher, size: nat)
    requires size >= 4
    ensures exists p, q ::
              && |p| == |q| == 4 && p != q
              && Chain(hash, p, size) == Chain(hash, q, size)
              && Common(Blocks(p, size), Blocks(q, size)) == 0
              && Common(Chain(hash, p, size), Chain(hash, q, size)) == 1
  {
    var f: nat -> Hash := k => hash(None, Word(k));
    Pigeonhole(f);
    var i, j :| 0 <= i < j <= HASH_SPACE && f(i) == f(j);
    var p, q := Word(i), Word(j);
    if p == q {
      WordsDiffer(i, j);
    }
    OneBlock(hash, p, size);
    OneBlock(hash, q, size);
    CommonIsLargest(Chain(hash, p, size), Chain(hash, q, size), 1);
  }

  lemma OneBlock(hash: Hasher, p: string, size: nat)
    requires size >= 1 && 1 <= |p| <= size
    ensures Blocks(p, size) == [p]
    ensures Chain(hash, p, size) == [hash(None, p)]
  {
    assert [p][1..] == [];
  }

  // ---------------------------------------------------------------------------------------------
  // Blocks of three do not
  // ---------------------------------------------------------------------------------------------

  const LETTERS := 0x11_0001

  /** The block as a numeral, each character a digit above zero. */
  function Numeral(block: string): nat {
    if block == "" then 0 else Numeral(block[1..]) * LETTERS + block[0] as int + 1
  }

  lemma {:induction false} NumeralsDiffer(a: string, b: string)
    requires Numeral(a) == Numeral(b)
    ensures a == b
  {
    if a != "" && b != "" {
      NumeralsDiffer(a[1..], b[1..]);
      assert a == [a[0]] + a[1..] && b == [b[0]] + b[1..];
    }
  }

  /** How many blocks of at most `n` characters there can be numerals for. */
  function Bound(n: nat): nat {
    if n == 0 then 1 else Bound(n - 1) * LETTERS
  }

  lemma {:induction false} NumeralBelow(block: string, n: nat)
    requires |block| <= n
    ensures Numeral(block) < Bound(n)
    decreases n
  {
    if n > 0 {
      NumeralBelow(if block == "" then "" else block[1..], n - 1);
    }
  }

  lemma NumeralFits(block: string)
    requires |block| <= 3
    ensures Numeral(block) < HASH_SPACE
  {
    NumeralBelow(block, 3);
    assert Bound(1) == LETTERS && Bound(2) == LETTERS * LETTERS;
  }

  function Code(block: string): Hash {
    if Numeral(block) < HASH_SPACE then Numeral(block) else 0
  }

  function Plain(): Hasher {
    (previous, block) => Code(block)
  }

  lemma PlainKeepsPromise(size: nat)
    requires 1 <= size <= 3
    ensures KeepsPromise(Plain(), size)
  {
    forall p, q ensures Common(Chain(Plain(), p, size), Chain(Plain(), q, size)) == Common(Blocks(p, size), Blocks(q, size)) {
      var bp, bq := Blocks(p, size), Blocks(q, size);
      var k := Common(bp, bq);
      SharedBlocksVersusSharedHashes(Plain(), size, p, q);
      if k < |bp| && k < |bq| {
        CodesDiffer(p, q, size, k);
      }
    }
  }

  lemma CodesDiffer(p: string, q: string, size: nat, k: nat)
    requires 1 <= size <= 3 && k < |Blocks(p, size)| && k < |Blocks(q, size)| && Blocks(p, size)[k] != Blocks(q, size)[k]
    ensures Code(Blocks(p, size)[k]) != Code(Blocks(q, size)[k])
  {
    var a, b := Blocks(p, size)[k], Blocks(q, size)[k];
    BlocksWellBlocked(p, size);
    BlocksWellBlocked(q, size);
    NumeralFits(a);
    NumeralFits(b);
    if Numeral(a) == Numeral(b) {
      NumeralsDiffer(a, b);
    }
  }

  /** Some 64-bit hasher keeps the promise for all prompts exactly when blocks have at most three
    * characters. The default of 512 is beyond any.
    */
  lemma PromiseIff(size: nat)
    requires size >= 1
    ensures (exists hash: Hasher :: KeepsPromise(hash, size)) <==> size <= 3
  {
    if size <= 3 {
      PlainKeepsPromise(size);
    } else {
      forall hash: Hasher ensures !KeepsPromise(hash, size) {
        EveryHasherCollides(hash, size);
      }
    }
  }
}
