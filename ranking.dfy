/**
 * The ranking step of a search: every catalog product paired with its
 * similarity score, then sorted by score, highest first, keeping catalog
 * order among equal scores (a stable sort).
 */
module Ranking {
  import opened JsStrings
  import opened Similarity
  import opened Seqs

  /** A catalog entry: `{id, category, name, price, image}`. */
  datatype Product = Product(id: JsString, category: JsString, name: JsString, price: real, image: JsString)

  /** `{...product, similarity}`: a product with its score attached. */
  datatype ScoredResult = ScoredResult(product: Product, similarity: int)

  function Score(key: JsString, product: Product): ScoredResult {
    ScoredResult(product, GenerateSimilarity(key, product.id, product.category))
  }

  /** The products a sequence of results carries, with the scores stripped. */
  function Products(results: seq<ScoredResult>): seq<Product> {
    seq(|results|, i requires 0 <= i < |results| => results[i].product)
  }

  /** `products.map(product => ({...product, similarity}))`: one result per product, in catalog order. */
  function ScoreAll(key: JsString, catalog: seq<Product>): (results: seq<ScoredResult>)
    ensures Products(results) == catalog
    ensures forall i | 0 <= i < |results| :: Base <= results[i].similarity <= Cap
  {
    seq(|catalog|, i requires 0 <= i < |catalog| => Score(key, catalog[i]))
  }

  /** Non-increasing by similarity. */
  predicate SortedDesc(results: seq<ScoredResult>) {
    forall i, j | 0 <= i < j < |results| :: results[i].similarity >= results[j].similarity
  }

  /** The entries of `results` that score exactly `v`, in their order in `results`. */
  function WithScore(results: seq<ScoredResult>, v: int): seq<ScoredResult> {
    Filter(results, (r: ScoredResult) => r.similarity == v)
  }

  /** Insert `x` after every entry of `sorted` that scores at least as much as `x`. */
  function Insert(sorted: seq<ScoredResult>, x: ScoredResult): seq<ScoredResult> {
    if sorted == [] then [x]
    else if sorted[0].similarity >= x.similarity then [sorted[0]] + Insert(sorted[1..], x)
    else [x] + sorted
  }

  /**
   * The order `results.sort((a, b) => b.similarity - a.similarity)` produces:
   * each entry, in input order, is inserted after all earlier entries scoring
   * at least as much.
   */
  function SortDesc(results: seq<ScoredResult>): seq<ScoredResult> {
    if results == [] then []
    else Insert(SortDesc(results[..|results| - 1]), results[|results| - 1])
  }

  lemma {:induction false} InsertPermutes(sorted: seq<ScoredResult>, x: ScoredResult)
    ensures multiset(Insert(sorted, x)) == multiset(sorted) + multiset{x}
    ensures |Insert(sorted, x)| == |sorted| + 1
  {
    if sorted != [] && sorted[0].similarity >= x.similarity {
      InsertPermutes(sorted[1..], x);
      assert sorted == [sorted[0]] + sorted[1..];
    }
  }

  lemma {:induction false} InsertSorted(sorted: seq<ScoredResult>, x: ScoredResult)
    requires SortedDesc(sorted)
    ensures SortedDesc(Insert(sorted, x))
  {
    if sorted != [] && sorted[0].similarity >= x.similarity {
      var rest := Insert(sorted[1..], x);
      InsertSorted(sorted[1..], x);
      InsertPermutes(sorted[1..], x);
      forall k | 0 <= k < |rest|
        ensures sorted[0].similarity >= rest[k].similarity
      {
        assert rest[k] in multiset(rest);
        if rest[k] != x {
          assert rest[k] in sorted[1..];
        }
      }
    }
  }

  /** An entry none of whose elements scores `v` has no group for `v`. */
  lemma NoneWithScore(results: seq<ScoredResult>, v: int)
    requires forall i | 0 <= i < |results| :: results[i].similarity != v
    ensures WithScore(results, v) == []
  {
    var group := WithScore(results, v);
    if group != [] {
      FilterMembership(results, (r: ScoredResult) => r.similarity == v, group[0]);
    }
  }

  /** The score groups of `[x] + rest`: `x` heads its own group. */
  lemma WithScoreCons(x: ScoredResult, rest: seq<ScoredResult>, v: int)
    ensures WithScore([x] + rest, v) == (if x.similarity == v then [x] else []) + WithScore(rest, v)
  {
    assert ([x] + rest)[0] == x && ([x] + rest)[1..] == rest;
  }

  /** Inserting `x` appends it to its own score group and leaves every other group alone. */
  lemma {:induction false} InsertStable(sorted: seq<ScoredResult>, x: ScoredResult, v: int)
    requires SortedDesc(sorted)
    ensures WithScore(Insert(sorted, x), v) == WithScore(sorted, v) + (if x.similarity == v then [x] else [])
  {
    if sorted == [] {
      WithScoreCons(x, [], v);
      assert [x] + [] == [x];
    } else {
      var head, tail := sorted[0], sorted[1..];
      assert sorted == [head] + tail;
      WithScoreCons(head, tail, v);
      if head.similarity >= x.similarity {
        InsertStable(tail, x, v);
        WithScoreCons(head, Insert(tail, x), v);
      } else {
        WithScoreCons(x, sorted, v);
        if x.similarity == v {
          NoneWithScore(sorted, v);
        }
      }
    }
  }

  lemma {:induction false} SortDescPermutes(results: seq<ScoredResult>)
    ensures multiset(SortDesc(results)) == multiset(results)
    ensures |SortDesc(results)| == |results|
  {
    if results != [] {
      var prefix, last := results[..|results| - 1], results[|results| - 1];
      SortDescPermutes(prefix);
      InsertPermutes(SortDesc(prefix), last);
      assert results == prefix + [last];
    }
  }

  lemma {:induction false} SortDescSorted(results: seq<ScoredResult>)
    ensures SortedDesc(SortDesc(results))
  {
    if results != [] {
      SortDescSorted(results[..|results| - 1]);
      InsertSorted(SortDesc(results[..|results| - 1]), results[|results| - 1]);
    }
  }

  /** Stability: the entries of each score keep their input order. */
  lemma {:induction false} SortDescStable(results: seq<ScoredResult>, v: int)
    ensures WithScore(SortDesc(results), v) == WithScore(results, v)
  {
    if results != [] {
      var prefix, last := results[..|results| - 1], results[|results| - 1];
      SortDescStable(prefix, v);
      SortDescSorted(prefix);
      InsertStable(SortDesc(prefix), last, v);
      assert results == prefix + [last];
      FilterAppend(prefix, [last], (r: ScoredResult) => r.similarity == v);
    }
  }

  /** Two sorted sequences of equal length with the same score groups are equal. */
  lemma {:induction false} SameGroupsEqual(a: seq<ScoredResult>, b: seq<ScoredResult>)
    requires SortedDesc(a) && SortedDesc(b) && |a| == |b|
    requires forall v :: WithScore(a, v) == WithScore(b, v)
    ensures a == b
  {
    if a != [] {
      var keepA := (r: ScoredResult) => r.similarity == a[0].similarity;
      var keepB := (r: ScoredResult) => r.similarity == b[0].similarity;
      assert WithScore(a, a[0].similarity) == [a[0]] + WithScore(a[1..], a[0].similarity);
      assert WithScore(b, b[0].similarity) == [b[0]] + WithScore(b[1..], b[0].similarity);
      FilterMembership(b, keepA, a[0]);
      FilterMembership(a, keepB, b[0]);
      var m := a[0].similarity;
      assert b[0].similarity == m;
      assert WithScore(a, m)[0] == a[0] && WithScore(b, m)[0] == b[0];
      forall v
        ensures WithScore(a[1..], v) == WithScore(b[1..], v)
      {
        assert a == [a[0]] + a[1..] && b == [b[0]] + b[1..];
        WithScoreCons(a[0], a[1..], v);
        WithScoreCons(b[0], b[1..], v);
        var lead := if a[0].similarity == v then [a[0]] else [];
        assert WithScore(a, v) == lead + WithScore(a[1..], v);
        assert WithScore(b, v) == lead + WithScore(b[1..], v);
        assert WithScore(a[1..], v) == (lead + WithScore(a[1..], v))[|lead|..];
        assert WithScore(b[1..], v) == (lead + WithScore(b[1..], v))[|lead|..];
      }
      SameGroupsEqual(a[1..], b[1..]);
      assert a == [a[0]] + a[1..] && b == [b[0]] + b[1..];
    }
  }

  /**
   * Any stable descending sort of `results` yields exactly `SortDesc(results)`:
   * being sorted and keeping every score group in input order pins the output down.
   */
  lemma StableSortIsUnique(results: seq<ScoredResult>, sorted: seq<ScoredResult>)
    requires SortedDesc(sorted) && |sorted| == |results|
    requires forall v :: WithScore(sorted, v) == WithScore(results, v)
    ensures sorted == SortDesc(results)
  {
    SortDescSorted(results);
    SortDescPermutes(results);
    forall v
      ensures WithScore(sorted, v) == WithScore(SortDesc(results), v)
    {
      SortDescStable(results, v);
    }
    SameGroupsEqual(sorted, SortDesc(results));
  }

  /** Where the insertion loop stops, `Insert` puts `x` too. */
  lemma {:induction false} InsertAt(sorted: seq<ScoredResult>, x: ScoredResult, j: int)
    requires SortedDesc(sorted) && 0 <= j <= |sorted|
    requires j > 0 ==> sorted[j - 1].similarity >= x.similarity
    requires forall m | j <= m < |sorted| :: sorted[m].similarity < x.similarity
    ensures Insert(sorted, x) == sorted[..j] + [x] + sorted[j..]
  {
    if j > 0 {
      InsertAt(sorted[1..], x, j - 1);
      assert sorted[1..][..j - 1] == sorted[1..j];
      assert sorted[..j] == [sorted[0]] + sorted[1..j];
    }
  }

  /**
   * One turn of the insertion sort: shift the entries of the sorted prefix
   * `a[..i]` that score less than `a[i]` one place right and drop `a[i]` into
   * the gap.
   */
  method InsertNext(a: array<ScoredResult>, i: int)
    requires 0 <= i < a.Length && SortedDesc(a[..i])
    modifies a
    ensures a[..i + 1] == Insert(old(a[..i]), old(a[i]))
    ensures a[i + 1..] == old(a[i + 1..])
  {
    ghost var done := a[..i];
    var x := a[i];
    var j := i;
    while j > 0 && a[j - 1].similarity < x.similarity
      invariant 0 <= j <= i
      invariant forall m | 0 <= m < j :: a[m] == done[m]
      invariant forall m | j < m <= i :: a[m] == done[m - 1]
      invariant forall m | i < m < a.Length :: a[m] == old(a[m])
      invariant forall m | j <= m < i :: done[m].similarity < x.similarity
    {
      a[j] := a[j - 1];
      j := j - 1;
    }
    a[j] := x;
    InsertAt(done, x, j);
    assert a[..i + 1] == done[..j] + [x] + done[j..];
  }

  /** `results.sort((a, b) => b.similarity - a.similarity)`, as an insertion sort in place. */
  method SortBySimilarity(a: array<ScoredResult>)
    modifies a
    ensures a[..] == SortDesc(old(a[..]))
  {
    ghost var input := a[..];
    for i := 0 to a.Length
      invariant a[..i] == SortDesc(input[..i])
      invariant a[i..] == input[i..]
    {
      SortDescSorted(input[..i]);
      InsertNext(a, i);
      assert input[..i + 1] == input[..i] + [input[i]];
    }
    assert input[..a.Length] == input;
  }
}
