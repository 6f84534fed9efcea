/**
 * Sequence utilities used by the transaction list: duplicate detection
 * (`has_duplicates`), flattening (`map(..).flatten()`), sums, and the
 * `reduce(|a, b| a.add(b))` fold over amounts.
 */
module Sequences {
  import opened Wrappers

  /** Some value occurs at two different positions of `s` (`has_duplicates`). */
  predicate HasDuplicates<T(==)>(s: seq<T>) {
    exists i, j :: 0 <= i < j < |s| && s[i] == s[j]
  }

  /** A concatenation has duplicates iff one side has, or the two sides share a value. */
  lemma HasDuplicatesAppend<T>(a: seq<T>, b: seq<T>)
    ensures HasDuplicates(a + b) <==>
      HasDuplicates(a) || HasDuplicates(b) || exists x :: x in a && x in b
  {
    var s := a + b;
    if HasDuplicates(s) {
      var i, j :| 0 <= i < j < |s| && s[i] == s[j];
      if j < |a| {
        assert a[i] == a[j];
      } else if i >= |a| {
        assert b[i - |a|] == b[j - |a|];
      } else {
        assert s[i] == a[i] && s[j] == b[j - |a|];
        assert a[i] in a && a[i] in b;
      }
    }
    if HasDuplicates(a) {
      var i, j :| 0 <= i < j < |a| && a[i] == a[j];
      assert s[i] == s[j];
    }
    if HasDuplicates(b) {
      var i, j :| 0 <= i < j < |b| && b[i] == b[j];
      assert s[|a| + i] == s[|a| + j];
    }
    if exists x :: x in a && x in b {
      var x :| x in a && x in b;
      var i :| 0 <= i < |a| && a[i] == x;
      var j :| 0 <= j < |b| && b[j] == x;
      assert s[i] == s[|a| + j];
    }
  }

  /** A duplicated position pair means the value occurs at least twice. */
  lemma DuplicateIsCounted<T>(s: seq<T>, i: int, j: int)
    requires 0 <= i < j < |s| && s[i] == s[j]
    ensures multiset(s)[s[i]] >= 2
  {
    assert s == s[..j] + s[j..];
    assert s[..j][i] == s[i];
    assert s[j..][0] == s[j];
  }

  /** A value occurring at least twice sits at two different positions. */
  lemma {:induction false} CountedIsDuplicate<T>(s: seq<T>, x: T)
    requires multiset(s)[x] >= 2
    ensures HasDuplicates(s)
  {
    assert s == [s[0]] + s[1..];
    if s[0] == x {
      assert x in multiset(s[1..]);
      var k :| 0 <= k < |s[1..]| && s[1..][k] == x;
      assert s[0] == s[k + 1];
    } else {
      CountedIsDuplicate(s[1..], x);
      var i, j :| 0 <= i < j < |s[1..]| && s[1..][i] == s[1..][j];
      assert s[i + 1] == s[j + 1];
    }
  }

  /** Whether a sequence has duplicates depends only on its multiset of elements. */
  lemma HasDuplicatesPermutation<T>(a: seq<T>, b: seq<T>)
    requires multiset(a) == multiset(b)
    ensures HasDuplicates(a) <==> HasDuplicates(b)
  {
    if HasDuplicates(a) {
      var i, j :| 0 <= i < j < |a| && a[i] == a[j];
      DuplicateIsCounted(a, i, j);
      CountedIsDuplicate(b, a[i]);
    }
    if HasDuplicates(b) {
      var i, j :| 0 <= i < j < |b| && b[i] == b[j];
      DuplicateIsCounted(b, i, j);
      CountedIsDuplicate(a, b[i]);
    }
  }

  /** `xs.iter().map(f).flatten().collect()`: the lists `f(x)` concatenated in order. */
  function FlatMap<X, T>(xs: seq<X>, f: X -> seq<T>): seq<T>
  {
    if xs == [] then [] else f(xs[0]) + FlatMap(xs[1..], f)
  }

  lemma {:induction false} FlatMapAppend<X, T>(a: seq<X>, b: seq<X>, f: X -> seq<T>)
    ensures FlatMap(a + b, f) == FlatMap(a, f) + FlatMap(b, f)
  {
    if a == [] {
      assert a + b == b;
    } else {
      assert (a + b)[1..] == a[1..] + b;
      FlatMapAppend(a[1..], b, f);
    }
  }

  /** Member `i`'s list appears contiguously, right after those of the members before it. */
  lemma {:induction false} FlatMapSplit<X, T>(xs: seq<X>, f: X -> seq<T>, i: int)
    requires 0 <= i < |xs|
    ensures FlatMap(xs, f) == FlatMap(xs[..i], f) + f(xs[i]) + FlatMap(xs[i + 1..], f)
  {
    var before, tail := xs[..i], [xs[i]] + xs[i + 1..];
    assert xs == before + tail;
    FlatMapAppend(before, tail, f);
    assert tail != [] && tail[0] == xs[i] && tail[1..] == xs[i + 1..];
    assert FlatMap(tail, f) == f(xs[i]) + FlatMap(xs[i + 1..], f);
    assert FlatMap(before, f) + (f(xs[i]) + FlatMap(xs[i + 1..], f))
        == FlatMap(before, f) + f(xs[i]) + FlatMap(xs[i + 1..], f);
  }

  /** A value is in the flattening iff it is in some member's list. */
  lemma {:induction false} FlatMapMembers<X, T>(xs: seq<X>, f: X -> seq<T>)
    ensures forall y :: y in FlatMap(xs, f) <==> exists i :: 0 <= i < |xs| && y in f(xs[i])
  {
    if xs != [] {
      FlatMapMembers(xs[1..], f);
      forall y
        ensures y in FlatMap(xs, f) <==> exists i :: 0 <= i < |xs| && y in f(xs[i])
      {
        if y in FlatMap(xs[1..], f) {
          var i :| 0 <= i < |xs[1..]| && y in f(xs[1..][i]);
          assert xs[i + 1] == xs[1..][i];
        }
        if exists i :: 0 <= i < |xs| && y in f(xs[i]) {
          var i :| 0 <= i < |xs| && y in f(xs[i]);
          if i > 0 {
            assert xs[1..][i - 1] == xs[i];
          }
        }
      }
    }
  }

  /** `xs.iter().map(g).sum()` over integers, summed from the right. */
  function SumOf<X>(xs: seq<X>, g: X -> int): int
  {
    if xs == [] then 0 else g(xs[0]) + SumOf(xs[1..], g)
  }

  /** The flattening is as long as the per-member lengths added up. */
  lemma {:induction false} FlatMapLength<X, T>(xs: seq<X>, f: X -> seq<T>, g: X -> int)
    requires forall x :: g(x) == |f(x)|
    ensures |FlatMap(xs, f)| == SumOf(xs, g)
  {
    if xs != [] {
      FlatMapLength(xs[1..], f, g);
    }
  }

  /** Reordering the members permutes the flattening. */
  lemma {:induction false} FlatMapPermutation<X, T>(a: seq<X>, b: seq<X>, f: X -> seq<T>)
    requires multiset(a) == multiset(b)
    ensures multiset(FlatMap(a, f)) == multiset(FlatMap(b, f))
  {
    if a == [] {
      assert |b| == |multiset(b)| == 0;
    } else {
      var x := a[0];
      assert x in multiset(b);
      var k :| 0 <= k < |b| && b[k] == x;
      var rest := b[..k] + b[k + 1..];
      assert a == [x] + a[1..];
      assert b == b[..k] + [x] + b[k + 1..];
      assert multiset(a) == multiset{x} + multiset(a[1..]);
      assert multiset(b) == multiset(b[..k]) + multiset{x} + multiset(b[k + 1..]);
      assert multiset(rest) == multiset(b[..k]) + multiset(b[k + 1..]);
      assert multiset(a[1..]) == multiset(a) - multiset{x};
      assert multiset(rest) == multiset(b) - multiset{x};
      FlatMapPermutation(a[1..], rest, f);
      FlatMapSplit(b, f, k);
      FlatMapAppend(b[..k], b[k + 1..], f);
    }
  }

  /** The sum of a sequence of integers, from the right. */
  function Sum(s: seq<int>): int
  {
    if s == [] then 0 else s[0] + Sum(s[1..])
  }

  /** The left fold `acc + s[0] + s[1] + ...`, the way `reduce(|a, b| a.add(b))` adds. */
  function FoldAdd(acc: int, s: seq<int>): int
    decreases s
  {
    if s == [] then acc else FoldAdd(acc + s[0], s[1..])
  }

  lemma {:induction false} FoldAddIsSum(acc: int, s: seq<int>)
    decreases s
    ensures FoldAdd(acc, s) == acc + Sum(s)
  {
    if s != [] {
      FoldAddIsSum(acc + s[0], s[1..]);
    }
  }

  /**
   * `Iterator::reduce` with addition: nothing for an empty sequence,
   * otherwise the elements added up starting from the first.
   */
  function Reduce(s: seq<int>): (r: Option<int>)
    ensures r.None? <==> s == []
    ensures r.Some? ==> r.value == Sum(s)
  {
    if s == [] then None
    else
      FoldAddIsSum(s[0], s[1..]);
      Some(FoldAdd(s[0], s[1..]))
  }
}
