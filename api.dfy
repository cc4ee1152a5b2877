/** The client's request helpers (frontend/src/services/api.ts): the query string `getJobs`
    builds from a filter object, and the interceptor that adds the bearer token to every
    request. The HTTP calls themselves, the browser's storage and the percent-encoding of the
    query string are outside the model; the stored token is a parameter. */
module Api {
  import opened Common

  /** The JavaScript values a filter entry can hold. Numbers are modelled as integers. */
  datatype Value = Undefined | Null | Str(s: string) | Num(n: int) | Bool(b: bool)

  /** A filter entry is sent unless it is `undefined`, `null` or the empty string; the tests are
      strict, so `false` and `0` are sent. */
  predicate Present(v: Value)
  {
    !v.Undefined? && !v.Null? && v != Str("")
  }

  /** `value.toString()`. */
  function Text(v: Value): (r: string)
    requires !v.Undefined? && !v.Null?
    ensures v.Str? ==> r == v.s
    ensures v.Bool? ==> r == if v.b then "true" else "false"
    ensures v.Num? ==> |r| >= 1 && (r[0] == '-' <==> v.n < 0)
  {
    match v
    case Str(s) => s
    case Num(n) =>
      if n < 0 then "-" + Decimal(-n)
      else
        var d := Decimal(n);
        assert d[0] in d;
        d
    case Bool(b) => if b then "true" else "false"
  }

  /** The query parameters of a filter object's entries: each present entry, in entry order,
      as its key and its text. */
  function QueryParams(entries: seq<(string, Value)>): seq<(string, string)>
  {
    if entries == [] then []
    else
      var (key, value) := entries[|entries| - 1];
      QueryParams(entries[..|entries| - 1]) + (if Present(value) then [(key, Text(value))] else [])
  }

  /** The parameters of `getJobs`: none when no filter object is given. */
  function JobsQuery(filters: Option<seq<(string, Value)>>): (r: seq<(string, string)>)
    ensures filters.None? ==> r == []
  {
    if filters.None? then [] else QueryParams(filters.value)
  }

  /** Filtering distributes over concatenation: the parameters of two runs of entries are the
      parameters of the first followed by those of the second, so order is kept. */
  lemma {:induction false} QueryParamsAppend(a: seq<(string, Value)>, b: seq<(string, Value)>)
    ensures QueryParams(a + b) == QueryParams(a) + QueryParams(b)
    decreases |b|
  {
    if b != [] {
      var n := |b| - 1;
      assert (a + b)[..|a + b| - 1] == a + b[..n];
      assert (a + b)[|a + b| - 1] == b[n];
      QueryParamsAppend(a, b[..n]);
    } else {
      assert a + b == a;
    }
  }

  /** Every parameter comes from a present entry with that key, as that entry's text. */
  lemma {:induction false} QueryParamsSound(entries: seq<(string, Value)>)
    ensures forall p :: p in QueryParams(entries) ==>
      exists i :: 0 <= i < |entries| && entries[i].0 == p.0 && Present(entries[i].1) && Text(entries[i].1) == p.1
  {
    if entries != [] {
      var n := |entries| - 1;
      QueryParamsSound(entries[..n]);
      forall p | p in QueryParams(entries)
        ensures exists i :: 0 <= i < |entries| && entries[i].0 == p.0 && Present(entries[i].1) && Text(entries[i].1) == p.1
      {
        if p in QueryParams(entries[..n]) {
          var i :| 0 <= i < n && entries[..n][i].0 == p.0 && Present(entries[..n][i].1) && Text(entries[..n][i].1) == p.1;
          assert entries[i] == entries[..n][i];
        } else {
          assert entries[n].0 == p.0 && Text(entries[n].1) == p.1;
        }
      }
    }
  }

  /** Every present entry is sent, as its key and its text. */
  lemma {:induction false} QueryParamsComplete(entries: seq<(string, Value)>)
    ensures forall i :: 0 <= i < |entries| && Present(entries[i].1) ==>
      (entries[i].0, Text(entries[i].1)) in QueryParams(entries)
  {
    if entries != [] {
      var n := |entries| - 1;
      QueryParamsComplete(entries[..n]);
      forall i | 0 <= i < |entries| && Present(entries[i].1)
        ensures (entries[i].0, Text(entries[i].1)) in QueryParams(entries)
      {
        if i < n {
          assert entries[..n][i] == entries[i];
        }
      }
    }
  }

  /** One entry is sent exactly once when present and not at all otherwise. */
  lemma QueryParamsSingle(key: string, value: Value)
    ensures Present(value) ==> QueryParams([(key, value)]) == [(key, Text(value))]
    ensures !Present(value) ==> QueryParams([(key, value)]) == []
  {
    assert [(key, value)][..0] == [];
  }

  /** `false` and `0` are sent; `undefined`, `null` and `''` are not. */
  lemma QueryParamsFalseAndZero(key: string)
    ensures QueryParams([(key, Bool(false))]) == [(key, "false")]
    ensures QueryParams([(key, Num(0))]) == [(key, "0")]
    ensures QueryParams([(key, Undefined)]) == [] && QueryParams([(key, Null)]) == []
    ensures QueryParams([(key, Str(""))]) == []
  {
    QueryParamsSingle(key, Bool(false));
    QueryParamsSingle(key, Num(0));
    QueryParamsSingle(key, Undefined);
    QueryParamsSingle(key, Null);
    QueryParamsSingle(key, Str(""));
  }

  /** Entries none of which is present give no parameters. */
  lemma {:induction false} QueryParamsNone(entries: seq<(string, Value)>)
    requires forall i :: 0 <= i < |entries| ==> !Present(entries[i].1)
    ensures QueryParams(entries) == []
  {
    if entries != [] {
      QueryParamsNone(entries[..|entries| - 1]);
    }
  }

  /** The `URLSearchParams` the query is built in: an ordered list of pairs. */
  class SearchParams {
    var pairs: seq<(string, string)>

    constructor ()
      ensures pairs == []
    {
      pairs := [];
    }

    method Append(key: string, value: string)
      modifies this
      ensures pairs == old(pairs) + [(key, value)]
    {
      pairs := pairs + [(key, value)];
    }
  }

  /** The parameter loop of `jobsAPI.getJobs`. */
  method GetJobsParams(filters: Option<seq<(string, Value)>>) returns (params: SearchParams)
    ensures fresh(params)
    ensures params.pairs == JobsQuery(filters)
  {
    params := new SearchParams();
    if filters.Some? {
      var entries := filters.value;
      var i := 0;
      while i < |entries|
        invariant 0 <= i <= |entries|
        invariant params.pairs == QueryParams(entries[..i])
      {
        assert entries[..i + 1][..i] == entries[..i];
        var (key, value) := entries[i];
        if value != Undefined && value != Null && value != Str("") {
          params.Append(key, Text(value));
        }
        i := i + 1;
      }
      assert entries[..i] == entries;
    }
  }

  /** The header the interceptor sets. */
  const Authorization := "Authorization"

  /** The request headers after the interceptor: with a stored token (a non-empty string, the
      only kind that is truthy) the Authorization header becomes the bearer credential;
      without one the headers are left as they are. */
  function WithToken(headers: map<string, string>, token: Option<string>): map<string, string>
  {
    if token.Some? && token.value != "" then headers[Authorization := "Bearer " + token.value] else headers
  }

  /** With a token, Authorization carries it after "Bearer " and every other header is kept. */
  lemma WithTokenBearer(headers: map<string, string>, token: string)
    requires token != ""
    ensures Authorization in WithToken(headers, Some(token))
    ensures WithToken(headers, Some(token))[Authorization] == "Bearer " + token
    ensures forall k :: k in headers && k != Authorization ==> k in WithToken(headers, Some(token)) && WithToken(headers, Some(token))[k] == headers[k]
    ensures WithToken(headers, Some(token)).Keys == headers.Keys + {Authorization}
  {
  }

  /** Without a token, or with an empty one, nothing changes. */
  lemma WithTokenNone(headers: map<string, string>, token: Option<string>)
    requires token.None? || token.value == ""
    ensures WithToken(headers, token) == headers
  {
  }

  /** Intercepting twice is the same as intercepting once. */
  lemma WithTokenIdempotent(headers: map<string, string>, token: Option<string>)
    ensures WithToken(WithToken(headers, token), token) == WithToken(headers, token)
  {
  }

  /** The request configuration an interceptor receives. */
  class RequestConfig {
    var headers: map<string, string>

    constructor (headers: map<string, string>)
      ensures this.headers == headers
    {
      this.headers := headers;
    }
  }

  /** The request interceptor: `token` is what storage holds under `authToken`. The same
      configuration object is returned. */
  method Intercept(config: RequestConfig, token: Option<string>) returns (r: RequestConfig)
    modifies config
    ensures r == config
    ensures config.headers == WithToken(old(config.headers), token)
  {
    if token.Some? && token.value != "" {
      config.headers := config.headers[Authorization := "Bearer " + token.value];
    }
    return config;
  }
}
