/** `Array.prototype.filter` on sequences, and the subsequence order it respects. */
module Seqs {
  /** The elements of `s` that satisfy `keep`, in their original order. */
  function Filter<T>(s: seq<T>, keep: T -> bool): seq<T> {
    if s == [] then [] else (if keep(s[0]) then [s[0]] else []) + Filter(s[1..], keep)
  }

  /** `a` can be obtained from `b` by deleting elements. */
  predicate IsSubsequence<T(==)>(a: seq<T>, b: seq<T>)
    decreases |b|
  {
    a == [] || (b != [] && ((a[0] == b[0] && IsSubsequence(a[1..], b[1..])) || IsSubsequence(a, b[1..])))
  }

  /** An element survives the filter exactly when it was there and passes. */
  lemma {:induction false} FilterMembership<T>(s: seq<T>, keep: T -> bool, x: T)
    ensures x in Filter(s, keep) <==> x in s && keep(x)
  {
    if s != [] {
      FilterMembership(s[1..], keep, x);
      assert s == [s[0]] + s[1..];
    }
  }

  /** A passing element is kept as often as it occurs; a failing one not at all. */
  lemma {:induction false} FilterCount<T>(s: seq<T>, keep: T -> bool, x: T)
    ensures multiset(Filter(s, keep))[x] == if keep(x) then multiset(s)[x] else 0
  {
    if s != [] {
      FilterCount(s[1..], keep, x);
      assert s == [s[0]] + s[1..];
      var head := if keep(s[0]) then [s[0]] else [];
      assert multiset(Filter(s, keep)) == multiset(head) + multiset(Filter(s[1..], keep));
    }
  }

  /** The facts every caller of a filter relies on, for all elements at once. */
  lemma FilterKeepsExactly<T>(s: seq<T>, keep: T -> bool)
    ensures forall x :: x in Filter(s, keep) <==> x in s && keep(x)
    ensures forall x :: multiset(Filter(s, keep))[x] == if keep(x) then multiset(s)[x] else 0
    ensures IsSubsequence(Filter(s, keep), s)
  {
    forall x
      ensures x in Filter(s, keep) <==> x in s && keep(x)
      ensures multiset(Filter(s, keep))[x] == if keep(x) then multiset(s)[x] else 0
    {
      FilterMembership(s, keep, x);
      FilterCount(s, keep, x);
    }
    FilterIsSubsequence(s, keep);
  }

  /** The filter only deletes: what remains is in the original relative order. */
  lemma {:induction false} FilterIsSubsequence<T>(s: seq<T>, keep: T -> bool)
    ensures IsSubsequence(Filter(s, keep), s)
  {
    if s != [] {
      FilterIsSubsequence(s[1..], keep);
      var rest := Filter(s[1..], keep);
      if keep(s[0]) {
        var f := [s[0]] + rest;
        assert Filter(s, keep) == f;
        assert f[0] == s[0] && f[1..] == rest;
      } else {
        assert Filter(s, keep) == rest;
      }
    }
  }

  /** Any relation between earlier and later elements of `s` still holds after filtering. */
  lemma {:induction false} FilterKeepsPairwise<T>(s: seq<T>, keep: T -> bool, before: (T, T) -> bool)
    requires forall i, j | 0 <= i < j < |s| :: before(s[i], s[j])
    ensures forall i, j | 0 <= i < j < |Filter(s, keep)| :: before(Filter(s, keep)[i], Filter(s, keep)[j])
  {
    if s != [] {
      FilterKeepsPairwise(s[1..], keep, before);
      var rest := Filter(s[1..], keep);
      if keep(s[0]) {
        var f := [s[0]] + rest;
        assert Filter(s, keep) == f;
        forall i, j | 0 <= i < j < |f|
          ensures before(f[i], f[j])
        {
          if i == 0 {
            assert f[j] == rest[j - 1] && f[j] in rest;
            FilterMembership(s[1..], keep, f[j]);
            var k :| 0 <= k < |s[1..]| && s[1..][k] == f[j];
            assert before(s[0], s[k + 1]);
          } else {
            assert f[i] == rest[i - 1] && f[j] == rest[j - 1];
            assert 0 <= i - 1 < j - 1 < |rest|;
            assert before(rest[i - 1], rest[j - 1]);
          }
        }
      } else {
        assert Filter(s, keep) == rest;
      }
    }
  }

  /** Filtering distributes over concatenation. */
  lemma {:induction false} FilterAppend<T>(s: seq<T>, t: seq<T>, keep: T -> bool)
    ensures Filter(s + t, keep) == Filter(s, keep) + Filter(t, keep)
  {
    if s != [] {
      FilterAppend(s[1..], t, keep);
      assert (s + t)[1..] == s[1..] + t;
    } else {
      assert s + t == t;
    }
  }

  /** Filtering with a predicate every element already satisfies changes nothing. */
  lemma {:induction false} FilterAllKept<T>(s: seq<T>, keep: T -> bool)
    requires forall i | 0 <= i < |s| :: keep(s[i])
    ensures Filter(s, keep) == s
  {
    if s != [] {
      FilterAllKept(s[1..], keep);
    }
  }

  /**
   * Filtering by a stronger predicate is the same as filtering the result of a
   * weaker one again, so it keeps a subsequence of what the weaker one keeps.
   */
  lemma {:induction false} FilterStronger<T>(s: seq<T>, strong: T -> bool, weak: T -> bool)
    requires forall x :: strong(x) ==> weak(x)
    ensures Filter(s, strong) == Filter(Filter(s, weak), strong)
    ensures IsSubsequence(Filter(s, strong), Filter(s, weak))
  {
    if s != [] {
      FilterStronger(s[1..], strong, weak);
      var weakRest := Filter(s[1..], weak);
      if weak(s[0]) {
        var w := [s[0]] + weakRest;
        assert Filter(s, weak) == w;
        assert w[0] == s[0] && w[1..] == weakRest;
        assert Filter(w, strong) == (if strong(s[0]) then [s[0]] else []) + Filter(weakRest, strong);
      } else {
        assert !strong(s[0]);
        assert Filter(s, weak) == weakRest;
      }
    }
    FilterIsSubsequence(Filter(s, weak), strong);
  }

  /** Filtering twice with the same predicate is filtering once. */
  lemma FilterIdempotent<T>(s: seq<T>, keep: T -> bool)
    ensures Filter(Filter(s, keep), keep) == Filter(s, keep)
  {
    FilterStronger(s, keep, keep);
  }
}
