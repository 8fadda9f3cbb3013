/**
 * `do_query`: send the query to the endpoint, retry while the answer cannot
 * be parsed, and extract the `uri` value of every result row.
 *
 * The endpoint is abstracted as the sequence of outcomes of its successive
 * attempts: `endpoint(i)` is what the i-th call of `query().convert()`
 * (counting from 0) gives. The ten-second sleep between attempts is counted,
 * not performed.
 */
module Fetch {
  import opened Wrappers

  /** A SPARQL JSON result term; only its `value` is read. */
  datatype Term = Term(value: string)

  /** One row of `results.bindings`; the query selects the single variable `?uri`. */
  datatype Binding = Binding(uri: Term)

  /** A parsed JSON response: its `results.bindings` rows, in order. */
  datatype Response = Response(bindings: seq<Binding>)

  /** One attempt: the answer could not be parsed (`ValueError`), or it parsed to a response. */
  datatype Attempt = Malformed | Parsed(response: Response)

  datatype QueryError =
    | Unparseable     // the ValueError of the last allowed attempt, re-raised
    | MissingResults  // the KeyError of `results["results"]` when no attempt was made

  /** The default of the `retry` parameter, which is what the script uses. */
  const DefaultRetry := 10

  /** The generator of line 43: the `uri.value` of every row, in row order. */
  function ExtractUris(bindings: seq<Binding>): (uris: seq<string>)
    ensures |uris| == |bindings|
    ensures forall i :: 0 <= i < |bindings| ==> uris[i] == bindings[i].uri.value
    decreases |bindings|
  {
    if bindings == [] then [] else [bindings[0].uri.value] + ExtractUris(bindings[1..])
  }

  /** The first n attempts all fail. */
  predicate AllMalformed(endpoint: nat -> Attempt, n: nat)
  {
    forall j: nat :: j < n ==> endpoint(j).Malformed?
  }

  /** The index of the first attempt below limit that parses, if any. */
  function FirstParsed(endpoint: nat -> Attempt, limit: nat): (k: Option<nat>)
    ensures k.Some? ==> k.value < limit && endpoint(k.value).Parsed? && AllMalformed(endpoint, k.value)
    ensures k.None? ==> AllMalformed(endpoint, limit)
    decreases limit
  {
    if limit == 0 then None
    else match FirstParsed(endpoint, limit - 1)
      case Some(k) => Some(k)
      case None => if endpoint(limit - 1).Parsed? then Some(limit - 1) else None
  }

  /** What `do_query(endpoint, query, retry)` returns or raises, for retry >= 0. */
  function QueryResult(endpoint: nat -> Attempt, retry: nat): Result<seq<string>, QueryError>
  {
    if retry == 0 then Failure(MissingResults)
    else match FirstParsed(endpoint, retry)
      case None => Failure(Unparseable)
      case Some(k) => Success(ExtractUris(endpoint(k).response.bindings))
  }

  /**
   * If the first k < retry attempts fail and attempt k succeeds, the query
   * returns that attempt's URIs.
   */
  lemma SucceedsAfterFailures(endpoint: nat -> Attempt, retry: nat, k: nat)
    requires k < retry && AllMalformed(endpoint, k) && endpoint(k).Parsed?
    ensures FirstParsed(endpoint, retry) == Some(k)
    ensures QueryResult(endpoint, retry) == Success(ExtractUris(endpoint(k).response.bindings))
  {
  }

  /** If all of the first retry >= 1 attempts fail, the query fails with the parse error. */
  lemma FailsWhenAllMalformed(endpoint: nat -> Attempt, retry: nat)
    requires retry >= 1 && AllMalformed(endpoint, retry)
    ensures FirstParsed(endpoint, retry).None?
    ensures QueryResult(endpoint, retry) == Failure(Unparseable)
  {
  }

  /**
   * The `while retry` loop of `do_query`, followed by the extraction.
   * `attempts` counts the calls made to the endpoint and `waits` the sleeps.
   * A success after k failures costs k + 1 attempts and k waits; exhausting
   * the retries costs exactly `retry` attempts and one wait between each two.
   */
  method DoQuery(endpoint: nat -> Attempt, retry: int) returns (r: Result<seq<string>, QueryError>, attempts: nat, waits: nat)
    requires retry >= 0
    ensures r == QueryResult(endpoint, retry)
    ensures attempts == match FirstParsed(endpoint, retry) case Some(k) => k + 1 case None => retry
    ensures waits == if attempts == 0 then 0 else attempts - 1
    ensures r.Success? ==> endpoint(attempts - 1).Parsed? && AllMalformed(endpoint, attempts - 1)
    ensures r.Failure? ==> AllMalformed(endpoint, attempts)
  {
    var left := retry;
    var results: Option<Response> := None;
    attempts, waits := 0, 0;
    while left != 0
      invariant 0 <= left <= retry
      invariant results.None? ==> attempts + left == retry && AllMalformed(endpoint, attempts)
      invariant results.None? ==> (attempts == 0 || left > 0)
      invariant results.Some? ==> left == 0 && 1 <= attempts <= retry
      invariant results.Some? ==> AllMalformed(endpoint, attempts - 1) && endpoint(attempts - 1) == Parsed(results.value)
      invariant results.None? ==> waits == attempts
      invariant results.Some? ==> waits == attempts - 1
      decreases left
    {
      var outcome := endpoint(attempts);
      attempts := attempts + 1;
      match outcome {
        case Parsed(response) =>
          results := Some(response);
          left := 0;
        case Malformed =>
          left := left - 1;
          if left != 0 {
            waits := waits + 1;
          } else {
            FailsWhenAllMalformed(endpoint, retry);
            r := Failure(Unparseable);
            return;
          }
      }
    }
    match results {
      case None =>
        r := Failure(MissingResults);
      case Some(response) =>
        SucceedsAfterFailures(endpoint, retry, attempts - 1);
        r := Success(ExtractUris(response.bindings));
    }
  }
}
