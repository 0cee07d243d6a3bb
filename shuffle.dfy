/**
 * The in-place Fisher-Yates shuffle that components/sort-interface.tsx and
 * components/match-interface.tsx both write as `shuffleArray`, with the
 * values of `Math.random()` supplied by the caller.
 */
module Shuffle {

  /** Values of `Math.random()`: reals in [0, 1), supplied by the caller in the order they are drawn. */
  predicate IsDraws(ds: seq<real>) {
    forall k :: 0 <= k < |ds| ==> 0.0 <= ds[k] < 1.0
  }

  /** `Math.floor(r * (i + 1))`: an index in [0, i]. */
  function Pick(r: real, i: nat): (j: nat)
    requires 0.0 <= r < 1.0
    ensures j <= i
  {
    var x := r * (i + 1) as real;
    assert (i + 1) as real - x == (1.0 - r) * (i + 1) as real;
    x.Floor
  }

  /** `[s[i], s[j]] = [s[j], s[i]]` */
  function Swap<T>(s: seq<T>, i: nat, j: nat): (r: seq<T>)
    requires i < |s| && j < |s|
    ensures |r| == |s| && r[i] == s[j] && r[j] == s[i]
    ensures forall m :: 0 <= m < |s| && m != i && m != j ==> r[m] == s[m]
  {
    s[i := s[j]][j := s[i]]
  }

  lemma SwapPermutes<T>(s: seq<T>, i: nat, j: nat)
    requires i < |s| && j < |s|
    ensures multiset(Swap(s, i, j)) == multiset(s)
  {
    var t := s[i := s[j]];
    assert multiset(t) == multiset(s) - multiset{s[i]} + multiset{s[j]};
    assert multiset(t[j := s[i]]) == multiset(t) - multiset{t[j]} + multiset{s[i]};
  }

  /** Number of draws one pass over `n` items takes. */
  function Passes(n: nat): nat {
    if n == 0 then 0 else n - 1
  }

  /**
   * The order left by the first `k` swaps of the
   * `for (let i = n - 1; i > 0; i--)` loop: the swap number `k` is made at
   * index `n - k` and uses draw `ds[k - 1]`.
   */
  function FisherYates<T>(s: seq<T>, ds: seq<real>, k: nat): (r: seq<T>)
    requires k <= Passes(|s|) && k <= |ds| && IsDraws(ds)
    ensures |r| == |s|
    decreases k
  {
    if k == 0 then s
    else
      var i := |s| - k;
      Swap(FisherYates(s, ds, k - 1), i, Pick(ds[k - 1], i))
  }

  /** Shuffling only rearranges: the result is a permutation of the input. */
  lemma {:induction false} FisherYatesPermutes<T>(s: seq<T>, ds: seq<real>, k: nat)
    requires k <= Passes(|s|) && k <= |ds| && IsDraws(ds)
    ensures multiset(FisherYates(s, ds, k)) == multiset(s)
    decreases k
  {
    if k > 0 {
      var prev := FisherYates(s, ds, k - 1);
      var i := |s| - k;
      var j := Pick(ds[k - 1], i);
      assert FisherYates(s, ds, k) == Swap(prev, i, j);
      FisherYatesPermutes(s, ds, k - 1);
      SwapPermutes(prev, i, j);
    }
  }

  /** `[shuffled[i], shuffled[j]] = [shuffled[j], shuffled[i]]` on the array. */
  method SwapCells<T>(a: array<T>, i: nat, j: nat)
    requires i < a.Length && j < a.Length
    modifies a
    ensures a[..] == Swap(old(a[..]), i, j)
  {
    a[i], a[j] := a[j], a[i];
  }

  /** The swap loop of `shuffleArray`, in place. */
  method FisherYatesInPlace<T>(a: array<T>, ds: seq<real>)
    requires |ds| == Passes(a.Length) && IsDraws(ds)
    modifies a
    ensures a[..] == FisherYates(old(a[..]), ds, |ds|)
  {
    if a.Length == 0 {
      return;
    }
    var i := a.Length - 1;
    var k := 0;
    while i > 0
      invariant 0 <= i < a.Length && k + i == a.Length - 1
      invariant a[..] == FisherYates(old(a[..]), ds, k)
    {
      var j := Pick(ds[k], i);
      SwapCells(a, i, j);
      i := i - 1;
      k := k + 1;
    }
  }

  /** No two elements share a key. */
  predicate DistinctBy<T>(s: seq<T>, key: T -> string) {
    forall i, j :: 0 <= i < j < |s| ==> key(s[i]) != key(s[j])
  }

  lemma CountInDistinct<T>(s: seq<T>, key: T -> string, x: T)
    ensures DistinctBy(s, key) && x in s ==> multiset(s)[x] == 1
  {
    if DistinctBy(s, key) && x in s {
      var k :| 0 <= k < |s| && s[k] == x;
      assert s == s[..k] + [x] + s[k + 1..];
      assert x !in s[..k] by {
        forall m | 0 <= m < k ensures s[..k][m] != x {
          assert key(s[m]) != key(s[k]);
        }
      }
      assert x !in s[k + 1..] by {
        forall m | k < m < |s| ensures s[m] != x {
          assert key(s[k]) != key(s[m]);
        }
      }
    }
  }

  lemma CountOfRepeat<T>(r: seq<T>, a: nat, b: nat)
    ensures a < b < |r| && r[a] == r[b] ==> multiset(r)[r[a]] >= 2
  {
    if a < b < |r| && r[a] == r[b] {
      assert r == r[..a] + [r[a]] + r[a + 1..b] + [r[b]] + r[b + 1..];
    }
  }

  lemma SameKeySameElement<T>(s: seq<T>, key: T -> string, x: T, y: T)
    ensures DistinctBy(s, key) && x in s && y in s && key(x) == key(y) ==> x == y
  {
    if DistinctBy(s, key) && x in s && y in s && key(x) == key(y) {
      var i :| 0 <= i < |s| && s[i] == x;
      var j :| 0 <= j < |s| && s[j] == y;
      assert i == j;
    }
  }

  /** Rearranging a sequence keeps its keys distinct. */
  lemma PermutationDistinct<T>(s: seq<T>, r: seq<T>, key: T -> string)
    requires multiset(r) == multiset(s) && DistinctBy(s, key)
    ensures DistinctBy(r, key)
  {
    forall a, b | 0 <= a < b < |r| ensures key(r[a]) != key(r[b]) {
      assert r[a] in multiset(s) && r[b] in multiset(s);
      CountOfRepeat(r, a, b);
      CountInDistinct(s, key, r[a]);
      SameKeySameElement(s, key, r[a], r[b]);
    }
  }
}
