/** Semantic search over the vector index: the query request (vector, number of results, metadata
    flag, optional company filter) and the reshaping of the index's matches into search results.
    The embedding model and the index are parameters: `encode` maps a query to its vector and
    `query` answers a request with the index's matches. */
module SearchService {
  import opened Wrappers
  import Settings
  import Helpers

  /** The company filter the index understands: metadata "company" equal ("$eq") to a name. */
  datatype Filter = CompanyEquals(company: string)

  /** The keyword arguments of an index query. */
  datatype QueryRequest<V> = QueryRequest(vector: V, topK: int, includeMetadata: bool, filter: Option<Filter>)

  /** A match as the index returns it: a similarity score and the stored metadata. */
  datatype Match<S> = Match(score: S, metadata: map<string, string>)

  /** One search result: the score and the match's "company" and "text" metadata, absent when
      the match has no such key. */
  datatype SearchResult<S> = SearchResult(score: S, company: Option<string>, text: Option<string>)

  /** A company filter is attached when a name is given, is not empty and is not "General". */
  predicate AttachesFilter(companyName: Option<string>) {
    companyName.Some? && companyName.value != "" && companyName.value != Helpers.AllCompanies
  }

  /** The request a search sends: the vector and top_k as given, metadata requested, and the
      company filter exactly when one is attached. */
  ghost predicate IsRequestFor<V>(request: QueryRequest<V>, vector: V, topK: int, companyName: Option<string>) {
    request.vector == vector && request.topK == topK && request.includeMetadata &&
    (request.filter.Some? <==> AttachesFilter(companyName)) &&
    (request.filter.Some? ==> request.filter.value == CompanyEquals(companyName.value))
  }

  /** There is one such request, so two searches with the same inputs send the same query. */
  lemma RequestDetermined<V>(r1: QueryRequest<V>, r2: QueryRequest<V>, vector: V, topK: int, companyName: Option<string>)
    requires IsRequestFor(r1, vector, topK, companyName) && IsRequestFor(r2, vector, topK, companyName)
    ensures r1 == r2
  {
  }

  /** The metadata a filter lets through. */
  predicate Admits(filter: Option<Filter>, metadata: map<string, string>) {
    filter.None? || ("company" in metadata && metadata["company"] == filter.value.company)
  }

  /** What the request lets through: everything for no name, an empty name or "General";
      otherwise exactly the records stored under that company name. */
  lemma FilterSemantics<V>(request: QueryRequest<V>, vector: V, topK: int, companyName: Option<string>,
                           metadata: map<string, string>)
    requires IsRequestFor(request, vector, topK, companyName)
    ensures !AttachesFilter(companyName) ==> Admits(request.filter, metadata)
    ensures AttachesFilter(companyName) ==>
      (Admits(request.filter, metadata) <==> "company" in metadata && metadata["company"] == companyName.value)
  {
  }

  /** The query parameters: built with vector, top_k and include_metadata, then given a filter
      when one is attached. */
  method BuildQueryParams<V>(vector: V, topK: int, companyName: Option<string>) returns (request: QueryRequest<V>)
    ensures IsRequestFor(request, vector, topK, companyName)
  {
    request := QueryRequest(vector, topK, true, None);
    if companyName.Some? && companyName.value != "" && companyName.value != Helpers.AllCompanies {
      request := request.(filter := Some(CompanyEquals(companyName.value)));
    }
  }

  function Lookup(metadata: map<string, string>, key: string): (v: Option<string>)
    ensures v.Some? <==> key in metadata
    ensures v.Some? ==> v.value == metadata[key]
  {
    if key in metadata then Some(metadata[key]) else None
  }

  /** A match's result carries its score and its company and text metadata. */
  function ResultOf<S>(m: Match<S>): SearchResult<S> {
    SearchResult(m.score, Lookup(m.metadata, "company"), Lookup(m.metadata, "text"))
  }

  /** The reshaping loop: one result per match, in the index's order. */
  method ReshapeMatches<S>(matches: seq<Match<S>>) returns (results: seq<SearchResult<S>>)
    ensures |results| == |matches|
    ensures forall i :: 0 <= i < |matches| ==> results[i] == ResultOf(matches[i])
  {
    results := [];
    var i := 0;
    while i < |matches|
      invariant 0 <= i <= |matches|
      invariant |results| == i
      invariant forall k :: 0 <= k < i ==> results[k] == ResultOf(matches[k])
    {
      results := results + [ResultOf(matches[i])];
      i := i + 1;
    }
  }

  /** Each result reports exactly what its match stored. */
  lemma ResultFields<S>(m: Match<S>)
    ensures ResultOf(m).score == m.score
    ensures ResultOf(m).company.Some? <==> "company" in m.metadata
    ensures ResultOf(m).company.Some? ==> ResultOf(m).company.value == m.metadata["company"]
    ensures ResultOf(m).text.Some? <==> "text" in m.metadata
    ensures ResultOf(m).text.Some? ==> ResultOf(m).text.value == m.metadata["text"]
  {
  }

  /** SearchService.semantic_search: encode the query, send the request, reshape the matches.
      The request sent is returned beside the results. */
  method SemanticSearch<V, S>(userQuery: string, topK: int, companyName: Option<string>,
                              encode: string -> V, query: QueryRequest<V> -> seq<Match<S>>)
    returns (results: seq<SearchResult<S>>, request: QueryRequest<V>)
    ensures IsRequestFor(request, encode(userQuery), topK, companyName)
    ensures |results| == |query(request)|
    ensures forall i :: 0 <= i < |results| ==> results[i] == ResultOf(query(request)[i])
  {
    var vector := encode(userQuery);
    request := BuildQueryParams(vector, topK, companyName);
    var matches := query(request);
    results := ReshapeMatches(matches);
  }

  /** The free function kept for older callers: the same request and the same reshaping, with
      the model and the index passed in rather than held by a service object. */
  method LegacySemanticSearch<V, S>(userQuery: string, encode: string -> V, query: QueryRequest<V> -> seq<Match<S>>,
                                    topK: int, companyName: Option<string>)
    returns (results: seq<SearchResult<S>>, request: QueryRequest<V>)
    ensures IsRequestFor(request, encode(userQuery), topK, companyName)
    ensures |results| == |query(request)|
    ensures forall i :: 0 <= i < |results| ==> results[i] == ResultOf(query(request)[i])
  {
    var vector := encode(userQuery);
    request := QueryRequest(vector, topK, true, None);
    if companyName.Some? && companyName.value != "" && companyName.value != Helpers.AllCompanies {
      request := request.(filter := Some(CompanyEquals(companyName.value)));
    }
    var matches := query(request);
    results := [];
    var i := 0;
    while i < |matches|
      invariant 0 <= i <= |matches|
      invariant |results| == i
      invariant forall k :: 0 <= k < i ==> results[k] == ResultOf(matches[k])
    {
      results := results + [ResultOf(matches[i])];
      i := i + 1;
    }
  }

  /** Both searches return the same results for the same inputs: the request is determined by
      the inputs, and the results by the request's matches. */
  lemma SearchesAgree<V, S>(query: QueryRequest<V> -> seq<Match<S>>, r1: QueryRequest<V>, r2: QueryRequest<V>,
                            res1: seq<SearchResult<S>>, res2: seq<SearchResult<S>>,
                            vector: V, topK: int, companyName: Option<string>)
    requires IsRequestFor(r1, vector, topK, companyName) && IsRequestFor(r2, vector, topK, companyName)
    requires |res1| == |query(r1)| && forall i :: 0 <= i < |res1| ==> res1[i] == ResultOf(query(r1)[i])
    requires |res2| == |query(r2)| && forall i :: 0 <= i < |res2| ==> res2[i] == ResultOf(query(r2)[i])
    ensures r1 == r2 && res1 == res2
  {
    RequestDetermined(r1, r2, vector, topK, companyName);
  }
}
