/**
 * The client's two list filters: search results by minimum similarity and
 * category, and catalog products by category; the category "all" matches
 * every product.
 */
module Filters {
  import opened JsStrings
  import opened Ranking
  import opened Seqs

  const AllCategories: JsString := Lit("all")

  /** The initial filter state of the page: no minimum score, every category. */
  const InitialMinSimilarity: int := 0
  const InitialCategory: JsString := AllCategories

  /** `selectedCategory === 'all' || category === selectedCategory` */
  predicate MeetsCategory(selectedCategory: JsString, category: JsString) {
    selectedCategory == AllCategories || category == selectedCategory
  }

  /** `meetsMinSimilarity && meetsCategory` for one result. */
  predicate KeepResult(result: ScoredResult, minSimilarity: int, selectedCategory: JsString) {
    result.similarity >= minSimilarity && MeetsCategory(selectedCategory, result.product.category)
  }

  /** `filteredResults`: the results that pass both tests, in their original order. */
  function FilteredResults(results: seq<ScoredResult>, minSimilarity: int, selectedCategory: JsString): (kept: seq<ScoredResult>)
    ensures forall x :: x in kept <==> x in results && KeepResult(x, minSimilarity, selectedCategory)
    ensures forall x :: multiset(kept)[x]
                     == if KeepResult(x, minSimilarity, selectedCategory) then multiset(results)[x] else 0
    ensures IsSubsequence(kept, results)
  {
    var keep := (r: ScoredResult) => KeepResult(r, minSimilarity, selectedCategory);
    FilterKeepsExactly(results, keep);
    Filter(results, keep)
  }

  /** `filteredProducts`: the products of the selected category, or all of them, in order. */
  function FilteredProducts(products: seq<Product>, selectedCategory: JsString): (kept: seq<Product>)
    ensures forall p :: p in kept <==> p in products && MeetsCategory(selectedCategory, p.category)
    ensures forall p :: multiset(kept)[p]
                     == if MeetsCategory(selectedCategory, p.category) then multiset(products)[p] else 0
    ensures IsSubsequence(kept, products)
    ensures selectedCategory == AllCategories ==> kept == products
  {
    var keep := (p: Product) => MeetsCategory(selectedCategory, p.category);
    FilterKeepsExactly(products, keep);
    if selectedCategory == AllCategories then
      FilterAllKept(products, keep);
      Filter(products, keep)
    else
      Filter(products, keep)
  }

  /** Every result the filter drops fails the score test or the category test. */
  lemma DroppedFailsATest(results: seq<ScoredResult>, minSimilarity: int, selectedCategory: JsString, x: ScoredResult)
    requires x in results && x !in FilteredResults(results, minSimilarity, selectedCategory)
    ensures x.similarity < minSimilarity || !MeetsCategory(selectedCategory, x.product.category)
  {
  }

  /** Filtering keeps the ranking: a descending list stays descending. */
  lemma FilteredResultsStaySorted(results: seq<ScoredResult>, minSimilarity: int, selectedCategory: JsString)
    requires SortedDesc(results)
    ensures SortedDesc(FilteredResults(results, minSimilarity, selectedCategory))
  {
    FilterKeepsPairwise(results, (r: ScoredResult) => KeepResult(r, minSimilarity, selectedCategory),
                        (r: ScoredResult, s: ScoredResult) => r.similarity >= s.similarity);
  }

  /** Applying the same filter twice gives what applying it once gives. */
  lemma FilteredResultsIdempotent(results: seq<ScoredResult>, minSimilarity: int, selectedCategory: JsString)
    ensures var once := FilteredResults(results, minSimilarity, selectedCategory);
      FilteredResults(once, minSimilarity, selectedCategory) == once
  {
    FilterIdempotent(results, (r: ScoredResult) => KeepResult(r, minSimilarity, selectedCategory));
  }

  /** Raising the minimum similarity only drops results, and never reorders them. */
  lemma RaisingMinimumNarrows(results: seq<ScoredResult>, lower: int, higher: int, selectedCategory: JsString)
    requires lower <= higher
    ensures FilteredResults(results, higher, selectedCategory)
         == FilteredResults(FilteredResults(results, lower, selectedCategory), higher, selectedCategory)
    ensures IsSubsequence(FilteredResults(results, higher, selectedCategory),
                          FilteredResults(results, lower, selectedCategory))
  {
    FilterStronger(results, (r: ScoredResult) => KeepResult(r, higher, selectedCategory),
                   (r: ScoredResult) => KeepResult(r, lower, selectedCategory));
  }

  /** Choosing one category instead of "all" only drops results, and never reorders them. */
  lemma ChoosingCategoryNarrows(results: seq<ScoredResult>, minSimilarity: int, selectedCategory: JsString)
    ensures FilteredResults(results, minSimilarity, selectedCategory)
         == FilteredResults(FilteredResults(results, minSimilarity, AllCategories), minSimilarity, selectedCategory)
    ensures IsSubsequence(FilteredResults(results, minSimilarity, selectedCategory),
                          FilteredResults(results, minSimilarity, AllCategories))
  {
    FilterStronger(results, (r: ScoredResult) => KeepResult(r, minSimilarity, selectedCategory),
                   (r: ScoredResult) => KeepResult(r, minSimilarity, AllCategories));
  }

  /** In the initial state every result with a non-negative score is shown. */
  lemma InitialFilterKeepsAll(results: seq<ScoredResult>)
    requires forall i | 0 <= i < |results| :: results[i].similarity >= 0
    ensures FilteredResults(results, InitialMinSimilarity, InitialCategory) == results
  {
    FilterAllKept(results, (r: ScoredResult) => KeepResult(r, InitialMinSimilarity, InitialCategory));
  }

  /** In the initial state the whole ranking a search returns is shown. */
  lemma InitialFilterKeepsRanking(key: JsString, catalog: seq<Product>)
    ensures var ranked := SortDesc(ScoreAll(key, catalog));
      FilteredResults(ranked, InitialMinSimilarity, InitialCategory) == ranked
  {
    var scored := ScoreAll(key, catalog);
    var ranked := SortDesc(scored);
    SortDescPermutes(scored);
    forall i | 0 <= i < |ranked|
      ensures ranked[i].similarity >= 0
    {
      assert ranked[i] in multiset(scored);
      var k :| 0 <= k < |scored| && scored[k] == ranked[i];
    }
    InitialFilterKeepsAll(ranked);
  }
}
