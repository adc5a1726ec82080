# VisualMatcher similarity engine in Dafny

VisualMatcher is a demo "visual search" service. A client sends an image, as an
uploaded file or as a URL, and gets back every catalog product with a synthetic
similarity score, best first. No pixels are looked at. The score is derived from
the request's identifying string (file name, MIME type or URL), a product's id
and its category. The browser then narrows the ranked list by a minimum score and
by a category.

This project models that engine and proves its properties:

- `js_strings.dfy` (`JsStrings`): JavaScript strings as sequences of UTF-16 code
  units, ASCII lower-casing, and `includes`.
- `hash.dfy` (`Hash`): `stringToHash`. It is a rolling hash with multiplier 31 in a
  signed 32-bit accumulator, returned as an absolute value. ECMAScript's ToInt32 is
  written out over unbounded integers. The method `StringToHash` runs the source's
  loop step by step, and the function `StringHash` specifies it.
- `similarity.dfy` (`Similarity`): `generateSimilarity`. The base is 50. Each of four
  keyword/category bias rules adds 20. Then the hash of `input-id-category` modulo 51
  is added, and the result is capped at 100.
- `ranking.dfy` (`Ranking`): products, scored results, the `products.map` that
  scores them, and the in-place `results.sort`. The sort is modelled as an insertion
  sort on an array and specified by `SortDesc`, a functional stable sort.
- `search.dfy` (`Search`): the `/api/search` handler between its guard and its
  response. It rejects a request without an image, chooses the query key, then
  scores and ranks the catalog.
- `filters.dfy` (`Filters`): the client's `filteredResults` and `filteredProducts`.
- `seqs.dfy` (`Seqs`): `Array.prototype.filter` on sequences, and the subsequence
  order it keeps.
- `wrappers.dfy` (`Wrappers`): `Option` and `Result`.

Facts about the code that the model makes explicit:

- The hash step `(hash << 5) - hash + c` is 31·hash + c, wrapped to 32 bits (`Hash.StepIsTimes31`).
- `charCodeAt` reads UTF-16 code units, so the hash runs over code units.
- Scores lie in [50, 100] (`Similarity.GenerateSimilarity`).
- `Math.round` is the identity on the score, which is already an integer.
- The `'no-url'` fallback of the query key is unreachable, because the guard has
  already rejected a request with neither a file nor a URL (`Search.InputKeyChoice`).
- The four `if`s add their bonuses independently, but at most one of them fires,
  because they name four different categories (`Similarity.AtMostOneRuleFires`).
  The base is therefore always 50 or 70.

## Model

| member | source | states |
|---|---|---|
| `Hash.ToInt32` | VisualMatcher/VisualMatcher/backend/server.js:44 | `hash & hash` yields a signed 32-bit value congruent to its input modulo 2^32, and leaves a value already in range unchanged |
| `Hash.StepIsTimes31` | VisualMatcher/VisualMatcher/backend/server.js:43-44 | one turn of the loop, shift left by 5, subtract self, add the code unit, wrap, equals ToInt32(31·hash + code unit) |
| `Hash.HashAccIsWrappedPolynomial` | VisualMatcher/VisualMatcher/backend/server.js:40-45 | wrapping after every step gives the same accumulator as the exact polynomial Σ c_i·31^(n-1-i) wrapped once to 32 bits |
| `Hash.NoWrapForSmallPolynomial` | VisualMatcher/VisualMatcher/backend/server.js:40-46 | when that polynomial fits in 32 bits no wrap happens, and the hash is its absolute value |
| `Hash.StringHash` | VisualMatcher/VisualMatcher/backend/server.js:39-47 | the hash lies in [0, 2^31], where 2^31 comes from `Math.abs(-2^31)`, and the empty string hashes to 0 |
| `Hash.StringToHash` | VisualMatcher/VisualMatcher/backend/server.js:39-47 | the source's loop returns exactly `StringHash` of its input, a value in [0, 2^31] |
| `Similarity.GenerateSimilarity` | VisualMatcher/VisualMatcher/backend/server.js:50-65 | every score lies in [50, 100] |
| `Similarity.AtMostOneRuleFires` | VisualMatcher/VisualMatcher/backend/server.js:58-61 | two bias rules that both fire for one input and category are the same rule |
| `Similarity.BaseSimilarityCases` | VisualMatcher/VisualMatcher/backend/server.js:55-61 | the base after the four rules is 70 if some rule of the rule table fires and 50 otherwise; a rule fires iff the lower-cased input includes its keyword and the category equals its category exactly |
| `Similarity.UnbiasedScore` | VisualMatcher/VisualMatcher/backend/server.js:55-64 | with no rule firing, the score is exactly 50 + hash(input-id-category) mod 51, and the cap never applies |
| `Similarity.BiasedScore` | VisualMatcher/VisualMatcher/backend/server.js:55-64 | with a rule firing, the score is min(70 + hash mod 51, 100), so at least 70 |
| `Similarity.UnknownCategoryIsUnbiased` | VisualMatcher/VisualMatcher/backend/server.js:58-64 | a category other than electronics, fashion, home and sports gets no bonus for any input |
| `Similarity.NoKeywordIsUnbiased` | VisualMatcher/VisualMatcher/backend/server.js:58-64 | an input whose lower-cased form includes none of the four keywords gets no bonus in any category |
| `Similarity.HeadphoneQueryScenario` | VisualMatcher/VisualMatcher/backend/server.js:55-64 | for the query "headphone-photo.jpg" an electronics product has base 70 and a score of at least 70, and a fashion product has base 50 |
| `Ranking.ScoreAll` | VisualMatcher/VisualMatcher/backend/server.js:106-117 | the map keeps every product in catalog order (stripping the scores gives back the catalog) and every attached score lies in [50, 100] |
| `Ranking.SortDescPermutes` | VisualMatcher/VisualMatcher/backend/server.js:120 | the sorted results are a permutation of the scored results, so they have the same length |
| `Ranking.SortDescSorted` | VisualMatcher/VisualMatcher/backend/server.js:120 | the sorted results are non-increasing by similarity |
| `Ranking.SortDescStable` | VisualMatcher/VisualMatcher/backend/server.js:120 | for every score, the results with that score appear in the same relative order as in the catalog |
| `Ranking.StableSortIsUnique` | VisualMatcher/VisualMatcher/backend/server.js:120 | any sequence of the same length that is non-increasing and keeps every score group in input order is exactly `SortDesc`, so any stable descending sort gives this output |
| `Ranking.InsertNext` | VisualMatcher/VisualMatcher/backend/server.js:120 | one pass of the in-place insertion places the next element into the sorted prefix as `Insert` specifies and leaves the rest of the array unchanged |
| `Ranking.SortBySimilarity` | VisualMatcher/VisualMatcher/backend/server.js:120 | sorting the array in place leaves it holding `SortDesc` of its old contents |
| `Search.InputKey` | VisualMatcher/VisualMatcher/backend/server.js:90-101 | a request is rejected iff it has neither a file nor a non-empty URL, and an accepted request's query key is never empty |
| `Search.InputKeyChoice` | VisualMatcher/VisualMatcher/backend/server.js:99-101 | with a file, the key is the first non-empty of the original name, the MIME type and "uploaded-file"; without one, it is the URL itself, so the "no-url" fallback is unreachable |
| `Search.ScoredEntry` | VisualMatcher/VisualMatcher/backend/server.js:106-117 | every scored entry carries a catalog product and `generateSimilarity(key, id, category)` of that product |
| `Search.Search` | VisualMatcher/VisualMatcher/backend/server.js:87-130 | the handler rejects exactly the requests without an image. Otherwise it echoes the key it chose and returns one result per catalog product (none for an empty catalog), with a count equal to their number. The results are non-increasing by score, a permutation of the scored catalog, and stable per score; each carries its own product's score |
| `Filters.FilteredResults` | VisualMatcher/VisualMatcher/frontend/src/App.js:131-135 | a result is kept iff its similarity is at least the minimum and the selected category is "all" or equals its category; each kept result occurs as often as in the input and each dropped one not at all; the kept results are a subsequence of the input, so together this is exactly what `Array.prototype.filter` returns |
| `Filters.DroppedFailsATest` | VisualMatcher/VisualMatcher/frontend/src/App.js:131-135 | every dropped result is below the minimum or outside the selected category |
| `Filters.FilteredResultsStaySorted` | VisualMatcher/VisualMatcher/frontend/src/App.js:131 | filtering a list sorted by descending similarity leaves it sorted |
| `Filters.FilteredResultsIdempotent` | VisualMatcher/VisualMatcher/frontend/src/App.js:131-135 | filtering again with the same minimum and category changes nothing |
| `Filters.RaisingMinimumNarrows` | VisualMatcher/VisualMatcher/frontend/src/App.js:132 | a higher minimum keeps the lower minimum's results filtered again, so it keeps a subsequence of them and never adds any |
| `Filters.ChoosingCategoryNarrows` | VisualMatcher/VisualMatcher/frontend/src/App.js:133 | selecting a category instead of "all" keeps a subsequence of what "all" keeps |
| `Filters.InitialFilterKeepsAll` | VisualMatcher/VisualMatcher/frontend/src/App.js:131-135 | with the initial minimum 0 and category "all", every list of non-negatively scored results is shown unchanged |
| `Filters.InitialFilterKeepsRanking` | VisualMatcher/VisualMatcher/frontend/src/App.js:13-14 | in the initial filter state the whole ranking a search returns is shown, since its scores are at least 50 |
| `Filters.FilteredProducts` | VisualMatcher/VisualMatcher/frontend/src/App.js:138-140 | keeps exactly the products of the selected category, each as often as it occurs in the input, as a subsequence of the input; all of them for "all" |

## Left out

- HTTP plumbing is not modelled: Express, CORS, the upload middleware, status codes, JSON shaping of the response beyond `SearchResponse`, and `app.listen`. The guard's 400 response is the `Failure(MissingImage)` result.
- The 500 response for an unexpected exception is not modelled, because nothing in the modelled core throws.
- Reading `product.json` at start-up is file I/O, and so is its fallback to an empty catalog. The catalog is a parameter of `Search.Search`.
- Console logging is not modelled, including the similarity-range line. It only observes the results.
- JsStrings.ToLower: lower-cases ASCII letters only. Full Unicode `toLowerCase` is not modelled, including mappings that change length or map non-ASCII letters to ASCII ones.
- Similarity.GenerateSimilarity: takes the product id as the string the template literal produces. The number-to-string conversion of a numeric id is not modelled, and neither is an undefined id or category.
- Ranking.Product: `price` is a `real`. The catalog's JSON number formats are not modelled.
- Ranking.SortBySimilarity: the V8 sorting algorithm is not modelled. The model uses an insertion sort. `Ranking.StableSortIsUnique` shows that every stable descending sort gives the same output.
- Search.SearchRequest: `imageUrl` is an optional string. Non-string request bodies are not modelled.
- The React component is not modelled: state hooks, `fetch`, `FormData`, object URLs, the 10 MB browser-side size check, tabs and rendering. Only the two filters and the initial values of their inputs are modelled.
