/** Facts about sequences and a stand-in for the library sort that takes a key function. */
module Sequences {

  /** Number of leading positions on which `a` and `b` agree. */
  function Common<T(==)>(a: seq<T>, b: seq<T>): (n: nat)
    ensures n <= |a| && n <= |b| && a[..n] == b[..n]
    ensures n < |a| && n < |b| ==> a[n] != b[n]
  {
    if a == [] || b == [] || a[0] != b[0] then 0
    else
      var n := 1 + Common(a[1..], b[1..]);
      assert a[..n] == [a[0]] + a[1..][..n - 1];
      assert b[..n] == [b[0]] + b[1..][..n - 1];
      n
  }

  /** `Common` is the largest `k` such that the first `k` elements agree. */
  lemma CommonIsLargest<T>(a: seq<T>, b: seq<T>, k: nat)
    ensures k <= Common(a, b) <==> k <= |a| && k <= |b| && a[..k] == b[..k]
  {
    var n := Common(a, b);
    if k <= n {
      assert a[..k] == a[..n][..k];
      assert b[..k] == b[..n][..k];
    } else if k <= |a| && k <= |b| {
      assert a[..k][n] == a[n] && b[..k][n] == b[n];
    }
  }

  lemma CommonStopsAt<T>(a: seq<T>, b: seq<T>, k: nat)
    requires k <= Common(a, b) && k < |a| && k < |b|
    ensures Common(a, b) == k <==> a[k] != b[k]
    ensures k > 0 ==> a[k - 1] == b[k - 1]
  {
    var n := Common(a, b);
    assert k < n ==> a[k] == a[..n][k] && b[k] == b[..n][k];
    assert k > 0 ==> a[k - 1] == a[..n][k - 1] && b[k - 1] == b[..n][k - 1];
  }

  lemma CommonAgrees<T>(a: seq<T>, b: seq<T>, i: nat)
    requires i < Common(a, b)
    ensures a[i] == b[i]
  {
    var n := Common(a, b);
    assert a[i] == a[..n][i] && b[i] == b[..n][i];
  }

  lemma PrefixSnoc<T>(a: seq<T>, b: seq<T>, i: nat)
    requires i < |a| && i < |b| && a[..i] == b[..i] && a[i] == b[i]
    ensures a[..i + 1] == b[..i + 1]
  {
    assert a[..i + 1] == a[..i] + [a[i]] && b[..i + 1] == b[..i] + [b[i]];
  }

  ghost predicate Distinct<T>(s: seq<T>) {
    forall i, j | 0 <= i < j < |s| :: s[i] != s[j]
  }

  /** `s` without the members of `gone`, in the same order. */
  function Without<T(==,!new)>(s: seq<T>, gone: set<T>): (r: seq<T>)
    ensures forall x :: x in r <==> x in s && x !in gone
    ensures |r| <= |s|
  {
    if s == [] then []
    else if s[0] in gone then Without(s[1..], gone)
    else [s[0]] + Without(s[1..], gone)
  }

  lemma WithoutKeepsDistinct<T(!new)>(s: seq<T>, gone: set<T>)
    requires Distinct(s)
    ensures Distinct(Without(s, gone))
  {
    if s != [] {
      assert s[0] !in s[1..];
      assert Distinct(s[1..]) by {
        forall i, j | 0 <= i < j < |s[1..]| ensures s[1..][i] != s[1..][j] {
          assert s[1..][i] == s[i + 1] && s[1..][j] == s[j + 1];
        }
      }
      WithoutKeepsDistinct(s[1..], gone);
    }
  }

  lemma WithoutTwice<T(!new)>(s: seq<T>, a: set<T>, b: set<T>)
    ensures Without(Without(s, a), b) == Without(s, a + b)
  {
    if s != [] {
      WithoutTwice(s[1..], a, b);
      if s[0] !in a {
        assert Without(s, a)[1..] == Without(s[1..], a);
      }
    }
  }

  lemma WithoutAbsent<T(!new)>(s: seq<T>, gone: set<T>)
    requires forall x | x in s :: x !in gone
    ensures Without(s, gone) == s
  {
    if s != [] {
      assert forall x | x in s[1..] :: x in s;
      WithoutAbsent(s[1..], gone);
    }
  }

  /** A sort by key: some ordering by `key` of the same elements. */
  method SortByKey<T>(s: seq<T>, key: T -> int) returns (r: seq<T>)
    ensures multiset(r) == multiset(s)
    ensures forall i, j | 0 <= i < j < |r| :: key(r[i]) <= key(r[j])
  {
    r := [];
    for i := 0 to |s|
      invariant multiset(r) == multiset(s[..i])
      invariant forall a, b | 0 <= a < b < |r| :: key(r[a]) <= key(r[b])
    {
      assert s[..i + 1] == s[..i] + [s[i]];
      r := Insert(r, s[i], key);
    }
    assert s[..|s|] == s;
  }

  method Insert<T>(s: seq<T>, x: T, key: T -> int) returns (r: seq<T>)
    requires forall i, j | 0 <= i < j < |s| :: key(s[i]) <= key(s[j])
    ensures multiset(r) == multiset(s) + multiset{x}
    ensures forall i, j | 0 <= i < j < |r| :: key(r[i]) <= key(r[j])
  {
    var k := |s|;
    while k > 0 && key(s[k - 1]) > key(x)
      invariant 0 <= k <= |s|
      invariant forall i | k <= i < |s| :: key(x) < key(s[i])
    {
      k := k - 1;
    }
    InsertKeepsSorted(s, x, k, key);
    r := s[..k] + [x] + s[k..];
    assert s == s[..k] + s[k..];
  }

  lemma InsertKeepsSorted<T>(s: seq<T>, x: T, k: nat, key: T -> int)
    requires k <= |s|
    requires forall i, j | 0 <= i < j < |s| :: key(s[i]) <= key(s[j])
    requires k > 0 ==> key(s[k - 1]) <= key(x)
    requires forall i | k <= i < |s| :: key(x) < key(s[i])
    ensures var r := s[..k] + [x] + s[k..];
            forall i, j | 0 <= i < j < |r| :: key(r[i]) <= key(r[j])
  {
    var r := s[..k] + [x] + s[k..];
    forall i, j | 0 <= i < j < |r| ensures key(r[i]) <= key(r[j]) {
      assert i < k ==> r[i] == s[i] && key(s[i]) <= key(s[k - 1]);
      assert i > k ==> r[i] == s[i - 1];
      assert j < k ==> r[j] == s[j];
      assert j > k ==> r[j] == s[j - 1];
    }
  }

  /** A sequence whose elements all have multiplicity one repeats nothing. */
  lemma SingleMultiplicity<T>(s: seq<T>)
    requires forall x | x in multiset(s) :: multiset(s)[x] == 1
    ensures Distinct(s)
  {
    forall i, j | 0 <= i < j < |s| ensures s[i] != s[j] {
      var x := s[i];
      assert s == s[..i + 1] + s[i + 1..];
      assert x == s[..i + 1][i];
      assert x in multiset(s[..i + 1]);
      assert multiset(s)[x] == multiset(s[..i + 1])[x] + multiset(s[i + 1..])[x];
      assert x !in multiset(s[i + 1..]);
      assert s[j] == s[i + 1..][j - i - 1];
    }
  }

  lemma DistinctMultiplicity<T>(s: seq<T>)
    requires Distinct(s)
    ensures forall x | x in multiset(s) :: multiset(s)[x] == 1
  {
    if s != [] {
      assert s == s[..|s| - 1] + [s[|s| - 1]];
      DistinctMultiplicity(s[..|s| - 1]);
      assert s[|s| - 1] !in s[..|s| - 1];
    }
  }

  lemma {:induction false} DistinctSize<T>(s: seq<T>)
    requires Distinct(s)
    ensures |set x | x in s| == |s|
  {
    if s != [] {
      var init, last := s[..|s| - 1], s[|s| - 1];
      DistinctSize(init);
      assert (set x | x in s) == (set x | x in init) + {last};
      assert last !in init;
    }
  }

  lemma SubsetSize<T>(a: set<T>, b: set<T>)
    requires a <= b
    ensures |a| <= |b|
  {
    assert b == a + (b - a);
  }
}
