/** URL construction of `make_request`; the GET itself and the JSON decoding
    of the response are not part of this model. */
module Request {

  const CHALLONGE_API := "https://api.challonge.com/v1"

  /** One query parameter, `(name, value)`, in the dictionary's insertion order. */
  type Param = (string, string)

  /** `name=value`, both inserted verbatim (no percent-encoding). */
  function Assignment(p: Param): string
  {
    p.0 + "=" + p.1
  }

  /** The query string the loop of `make_request` appends: the `first_item`
      flag is never cleared, so every parameter is introduced by `?`. */
  function QueryAsWritten(params: seq<Param>): string
  {
    if params == [] then ""
    else QueryAsWritten(params[..|params| - 1]) + "?" + Assignment(params[|params| - 1])
  }

  /** The query string the flag was meant to produce: `?` before the first
      parameter, `&` before each later one. */
  function IntendedQuery(params: seq<Param>): string
  {
    if params == [] then ""
    else if |params| == 1 then "?" + Assignment(params[0])
    else IntendedQuery(params[..|params| - 1]) + "&" + Assignment(params[|params| - 1])
  }

  /** `make_request`'s URL loop as written. */
  method MakeRequestUrl(baseUrl: string, additionalUrl: string, params: seq<Param>) returns (url: string)
    ensures url == baseUrl + additionalUrl + QueryAsWritten(params)
  {
    url := baseUrl + additionalUrl;
    var firstItem := true;
    for i := 0 to |params|
      invariant firstItem
      invariant url == baseUrl + additionalUrl + QueryAsWritten(params[..i])
    {
      var (param, value) := params[i];
      assert params[..i + 1][..i] == params[..i];
      if firstItem {
        url := url + "?" + param + "=" + value;
        continue;
      }
      url := url + "&" + param + "=" + value;
    }
    assert params[..|params|] == params;
  }

  /** The same loop with the flag cleared after the first parameter. */
  method BuildRequestUrl(baseUrl: string, additionalUrl: string, params: seq<Param>) returns (url: string)
    ensures url == baseUrl + additionalUrl + IntendedQuery(params)
  {
    url := baseUrl + additionalUrl;
    var firstItem := true;
    for i := 0 to |params|
      invariant firstItem <==> i == 0
      invariant url == baseUrl + additionalUrl + IntendedQuery(params[..i])
    {
      var (param, value) := params[i];
      assert params[..i + 1][..i] == params[..i];
      if firstItem {
        url := url + "?" + param + "=" + value;
        firstItem := false;
        continue;
      }
      url := url + "&" + param + "=" + value;
    }
    assert params[..|params|] == params;
  }

  /** A parameter whose name and value avoid the character `c`. */
  predicate Avoids(p: Param, c: char)
  {
    c !in p.0 && c !in p.1
  }

  /** As written, `&` never appears unless a name or value carries it. */
  lemma {:induction false} AsWrittenHasNoAmpersand(params: seq<Param>)
    requires forall i :: 0 <= i < |params| ==> Avoids(params[i], '&')
    ensures '&' !in QueryAsWritten(params)
  {
    if params != [] {
      AsWrittenHasNoAmpersand(params[..|params| - 1]);
    }
  }

  /** As written, each parameter brings its own `?`. */
  lemma {:induction false} AsWrittenQuestionMarks(params: seq<Param>)
    requires forall i :: 0 <= i < |params| ==> Avoids(params[i], '?')
    ensures multiset(QueryAsWritten(params))['?'] == |params|
  {
    if params != [] {
      var p := params[|params| - 1];
      AsWrittenQuestionMarks(params[..|params| - 1]);
      assert QueryAsWritten(params) == QueryAsWritten(params[..|params| - 1]) + "?" + (p.0 + "=" + p.1);
    }
  }

  /** The intended query has exactly one `?` when there is any parameter. */
  lemma {:induction false} IntendedQuestionMarks(params: seq<Param>)
    requires forall i :: 0 <= i < |params| ==> Avoids(params[i], '?')
    ensures multiset(IntendedQuery(params))['?'] == if params == [] then 0 else 1
  {
    if |params| > 1 {
      var p := params[|params| - 1];
      IntendedQuestionMarks(params[..|params| - 1]);
      assert IntendedQuery(params) == IntendedQuery(params[..|params| - 1]) + "&" + (p.0 + "=" + p.1);
    } else if |params| == 1 {
      assert IntendedQuery(params) == "?" + (params[0].0 + "=" + params[0].1);
    }
  }

  /** The intended query separates the parameters by one `&` each. */
  lemma {:induction false} IntendedAmpersands(params: seq<Param>)
    requires forall i :: 0 <= i < |params| ==> Avoids(params[i], '&')
    ensures multiset(IntendedQuery(params))['&'] == if params == [] then 0 else |params| - 1
  {
    if |params| > 1 {
      var p := params[|params| - 1];
      IntendedAmpersands(params[..|params| - 1]);
      assert IntendedQuery(params) == IntendedQuery(params[..|params| - 1]) + "&" + (p.0 + "=" + p.1);
    } else if |params| == 1 {
      assert IntendedQuery(params) == "?" + (params[0].0 + "=" + params[0].1);
    }
  }

  /** Two parameters: the loop as written repeats `?` where `&` was meant. */
  lemma TwoParamsRepeatQuestionMark()
    ensures QueryAsWritten([("a", "1"), ("b", "2")]) == "?a=1?b=2"
    ensures IntendedQuery([("a", "1"), ("b", "2")]) == "?a=1&b=2"
  {
    assert [("a", "1"), ("b", "2")][..1] == [("a", "1")];
    assert [("a", "1")][..0] == [];
  }

  /** With the single `api_key` parameter both loops append `?name=value`,
      the value unencoded. */
  lemma SingleParamAgrees(name: string, value: string)
    ensures QueryAsWritten([(name, value)]) == IntendedQuery([(name, value)]) == "?" + name + "=" + value
  {
    assert [(name, value)][..0] == [];
  }
}
