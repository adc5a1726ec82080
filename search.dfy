/**
 * The search request handler's core: reject a request with no image, choose
 * the query key, score every catalog product and rank the results.
 */
module Search {
  import opened Wrappers
  import opened JsStrings
  import opened Similarity
  import opened Ranking

  /** What the upload middleware reports about an uploaded image. */
  datatype UploadedFile = UploadedFile(originalname: JsString, mimetype: JsString)

  /** `req.file` and `req.body.imageUrl`; `None` where the request leaves them undefined. */
  datatype SearchRequest = SearchRequest(file: Option<UploadedFile>, imageUrl: Option<JsString>)

  /** The one rejection: neither a file nor an image URL was supplied. */
  datatype SearchError = MissingImage

  /** `{success: true, query, count, results}` */
  datatype SearchResponse = SearchResponse(query: JsString, count: nat, results: seq<ScoredResult>)

  const UploadedFileKey: JsString := Lit("uploaded-file")
  const NoUrlKey: JsString := Lit("no-url")

  /** An optional string read as text: undefined reads as the empty string. */
  function Text(s: Option<JsString>): JsString {
    if s.Some? then s.value else []
  }

  /** JavaScript truthiness of an optional string: defined and non-empty. */
  predicate Truthy(s: Option<JsString>) {
    Text(s) != []
  }

  /** `a || b` on strings. */
  function Or(a: JsString, b: JsString): JsString {
    if a != [] then a else b
  }

  /**
   * The guard `!file && !imageUrl` and then
   * `file ? (file.originalname || file.mimetype || 'uploaded-file') : imageUrl || 'no-url'`.
   */
  function InputKey(req: SearchRequest): (key: Result<JsString, SearchError>)
    ensures key.Failure? <==> req.file.None? && !Truthy(req.imageUrl)
    ensures key.Success? ==> key.value != []
  {
    if req.file.None? && !Truthy(req.imageUrl) then Failure(MissingImage)
    else if req.file.Some? then
      Success(Or(Or(req.file.value.originalname, req.file.value.mimetype), UploadedFileKey))
    else Success(Or(Text(req.imageUrl), NoUrlKey))
  }

  /**
   * With a file, the key is the first non-empty of its name, its MIME type and
   * "uploaded-file"; without one, it is the URL itself, so the "no-url"
   * fallback is never taken.
   */
  lemma InputKeyChoice(req: SearchRequest)
    requires InputKey(req).Success?
    ensures var key := InputKey(req).value;
      if req.file.Some? then
        var f := req.file.value;
        key == (if f.originalname != [] then f.originalname
                else if f.mimetype != [] then f.mimetype
                else UploadedFileKey)
      else
        req.imageUrl.Some? && key == req.imageUrl.value && key != []
  {
  }

  /** Each scored entry pairs a catalog product with that product's own score. */
  lemma {:induction false} ScoredEntry(key: JsString, catalog: seq<Product>, x: ScoredResult)
    requires x in ScoreAll(key, catalog)
    ensures x.product in catalog && x == Score(key, x.product)
    ensures Base <= x.similarity <= Cap
  {
    var scored := ScoreAll(key, catalog);
    var i :| 0 <= i < |scored| && scored[i] == x;
    assert Products(scored)[i] == x.product;
  }

  /** The `/api/search` handler between its guard and its JSON response. */
  method Search(req: SearchRequest, catalog: seq<Product>) returns (response: Result<SearchResponse, SearchError>)
    ensures response.Failure? <==> req.file.None? && !Truthy(req.imageUrl)
    ensures response.Success? ==>
      var r := response.value;
      && InputKey(req) == Success(r.query)
      && r.count == |r.results| == |catalog|
      && r.results == SortDesc(ScoreAll(r.query, catalog))
      && SortedDesc(r.results)
      && multiset(r.results) == multiset(ScoreAll(r.query, catalog))
      && (forall v :: WithScore(r.results, v) == WithScore(ScoreAll(r.query, catalog), v))
      && (forall i | 0 <= i < |r.results| ::
            && r.results[i].product in catalog
            && r.results[i] == Score(r.query, r.results[i].product)
            && Base <= r.results[i].similarity <= Cap)
  {
    var key := InputKey(req);
    if key.Failure? {
      return Failure(key.error);
    }
    var inputKey := key.value;
    var scored := ScoreAll(inputKey, catalog);
    var results := new ScoredResult[|scored|](i requires 0 <= i < |scored| => scored[i]);
    assert results[..] == scored;
    SortBySimilarity(results);
    var ranked := results[..];
    SortDescSorted(scored);
    SortDescPermutes(scored);
    forall v
      ensures WithScore(ranked, v) == WithScore(scored, v)
    {
      SortDescStable(scored, v);
    }
    forall i | 0 <= i < |ranked|
      ensures ranked[i].product in catalog && ranked[i] == Score(inputKey, ranked[i].product)
      ensures Base <= ranked[i].similarity <= Cap
    {
      assert ranked[i] in multiset(scored);
      ScoredEntry(inputKey, catalog, ranked[i]);
    }
    response := Success(SearchResponse(inputKey, results.Length, ranked));
  }
}
