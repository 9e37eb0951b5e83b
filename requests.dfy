/**
 * The request wrapper (app/lib/web/request.go): the transport request it
 * embeds, a path-parameter store allocated on first write, and a query
 * parameter map computed on first use and cached.
 */
module Requests {
  import opened Wrappers
  import opened Strings

  /** The parts of `*http.Request` the core reads: headers, the parsed URL query, and the body stream (`nil` is `None`). */
  class HttpRequest {
    const header: map<string, seq<string>>
    const urlQuery: map<string, seq<string>>
    /** What a read of the body would still yield. */
    var body: Option<seq<byte>>

    constructor (header: map<string, seq<string>>, urlQuery: map<string, seq<string>>, body: Option<seq<byte>>)
      ensures this.header == header && this.urlQuery == urlQuery && this.body == body
    {
      this.header := header;
      this.urlQuery := urlQuery;
      this.body := body;
    }
  }

  /** Separator between the values of a repeated query key. */
  const QueryValueSeparator := " | "

  /** The map `QueryParams` builds: every query key, its values joined in their original order. */
  function JoinedQuery(query: map<string, seq<string>>): (params: map<string, string>)
    ensures params.Keys == query.Keys
    ensures forall k :: k in query && |query[k]| == 0 ==> params[k] == ""
    ensures forall k :: k in query && |query[k]| == 1 ==> params[k] == query[k][0]
  {
    map k | k in query :: Join(query[k], QueryValueSeparator)
  }

  /** A key sent twice reads as its two values, in order, with ` | ` between them. */
  lemma TwoValuesJoined(query: map<string, seq<string>>, k: string, a: string, b: string)
    requires k in query && query[k] == [a, b]
    ensures JoinedQuery(query)[k] == a + " | " + b
  {
    JoinPair(a, b, QueryValueSeparator);
  }

  /** A key sent more than once reads as its first value, ` | `, then the rest joined the same way. */
  lemma RepeatedKeyJoined(query: map<string, seq<string>>, k: string)
    requires k in query && |query[k]| >= 2
    ensures JoinedQuery(query)[k] == query[k][0] + " | " + JoinedQuery(query[k := query[k][1..]])[k]
  {
    JoinCons(query[k][0], query[k][1..], QueryValueSeparator);
    assert query[k] == [query[k][0]] + query[k][1..];
  }

  /** What a handler sees of a request: headers, query, path parameters and the unread body. */
  datatype RequestView = RequestView(
    header: map<string, seq<string>>,
    urlQuery: map<string, seq<string>>,
    pathParams: map<string, string>,
    body: Option<seq<byte>>)

  /** `web.Request`. */
  class Request {
    const raw: HttpRequest
    /** `nil` until the first `SetPathParam`. */
    var pathParams: Option<map<string, string>>
    /** `nil` until the first `QueryParams`. */
    var params: Option<map<string, string>>

    /** The cache, once filled, holds the joined query of the embedded request. */
    ghost predicate Valid()
      reads this
    {
      params.Some? ==> params.value == JoinedQuery(raw.urlQuery)
    }

    /** `NewRequest`: neither map is allocated yet. */
    constructor (raw: HttpRequest)
      ensures this.raw == raw && pathParams == None && params == None
      ensures Valid()
    {
      this.raw := raw;
      pathParams := None;
      params := None;
    }

    /** The path parameters as a map; a store never written reads as empty. */
    function PathParamMap(): (m: map<string, string>)
      reads this
      ensures pathParams.None? ==> m == map[]
    {
      match pathParams
      case None => map[]
      case Some(m) => m
    }

    /** `SetPathParam`: allocates the store if needed, then the last write to `key` wins. */
    method SetPathParam(key: string, value: string)
      modifies this`pathParams
      ensures pathParams == Some(old(PathParamMap())[key := value])
      ensures GetPathParam(key) == value
      ensures forall k :: k != key ==> GetPathParam(k) == old(GetPathParam(k))
    {
      if pathParams.None? {
        pathParams := Some(map[]);
      }
      pathParams := Some(pathParams.value[key := value]);
    }

    /** `GetPathParam`: the stored value, or `""` for a key never set (also before any store exists). */
    function GetPathParam(key: string): (value: string)
      reads this
      ensures key in PathParamMap() ==> value == PathParamMap()[key]
      ensures key !in PathParamMap() ==> value == ""
      ensures pathParams.None? ==> value == ""
    {
      if pathParams.Some? && key in pathParams.value then pathParams.value[key] else ""
    }

    /**
     * `QueryParams`: the first call fills the cache from the URL query, every
     * later call returns the cached map untouched.
     */
    method QueryParams() returns (params': map<string, string>)
      requires Valid()
      modifies this`params
      ensures Valid()
      ensures params == Some(params') && params' == JoinedQuery(raw.urlQuery)
      ensures old(params).Some? ==> params == old(params)
    {
      if params.Some? {
        return params.value;
      }
      params := Some(map[]);
      var keys := raw.urlQuery.Keys;
      while keys != {}
        invariant keys <= raw.urlQuery.Keys
        invariant params.Some? && params.value.Keys == raw.urlQuery.Keys - keys
        invariant forall k :: k in params.value ==> params.value[k] == Join(raw.urlQuery[k], QueryValueSeparator)
        decreases keys
      {
        var key :| key in keys;
        params := Some(params.value[key := Join(raw.urlQuery[key], QueryValueSeparator)]);
        keys := keys - {key};
      }
      params' := params.value;
    }

    /** What the handler sees of this request right now. */
    function View(): RequestView
      reads this, raw
    {
      RequestView(raw.header, raw.urlQuery, PathParamMap(), raw.body)
    }
  }
}
