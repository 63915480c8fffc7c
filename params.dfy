/**
 * The query string of one ESGF search request, as `esgf_api` builds it
 * (subdaily_data_for_RCMs/cmip6-variable-search.py, lines 12-26).
 *
 * The HTTP GET itself, `raise_for_status` and the JSON decoding
 * (lines 28-32) are the server oracle of module Pagination.
 */
module Params {
  import opened Wrappers

  /** A query-string value: text, a number, a boolean, or a list sent as repeated parameters. */
  datatype ParamValue = Text(s: string) | Number(n: int) | Flag(b: bool) | Many(values: seq<string>)

  type Params = map<string, ParamValue>

  const SolrJson: string := "application/solr+json"
  const Comma: char := ','

  /** The keys `esgf_api` always sets, whatever keyword facets it is given. */
  const FixedKeys: set<string> := {"format", "limit", "offset", "replica"}

  /** The parameter names `esgf_api` binds itself, so they never reach its `**kwargs`. */
  const NamedArguments: set<string> :=
    {"limit", "offset", "facets", "fields", "replica", "latest", "retracted"}

  /**
   * The arguments of one `esgf_api` call after Python has bound them:
   * `kwargs` holds every keyword facet that is not one of NamedArguments.
   */
  datatype ApiCall = ApiCall(
    limit: int,
    offset: int,
    facets: Option<seq<string>>,
    fields: Option<seq<string>>,
    replica: bool,
    latest: bool,
    retracted: bool,
    kwargs: Params)

  /** Python's keyword binding: no keyword facet carries a name `esgf_api` declares. */
  predicate WellBound(call: ApiCall)
  {
    call.kwargs.Keys !! NamedArguments
  }

  /** `sep.join(xs)` */
  function Join(xs: seq<string>, sep: char): (s: string)
  {
    if |xs| == 0 then ""
    else if |xs| == 1 then xs[0]
    else xs[0] + [sep] + Join(xs[1..], sep)
  }

  /** The server's reading of a joined list: the pieces between separators. */
  function Split(s: string, sep: char): (parts: seq<string>)
    ensures |parts| >= 1
  {
    if s == [] then [""]
    else
      var rest := Split(s[1..], sep);
      if s[0] == sep then [""] + rest
      else [[s[0]] + rest[0]] + rest[1..]
  }

  lemma {:induction false} SplitNoSeparator(a: string, sep: char)
    requires sep !in a
    ensures Split(a, sep) == [a]
  {
    if a != [] {
      SplitNoSeparator(a[1..], sep);
      assert [a[0]] + a[1..] == a;
    }
  }

  lemma {:induction false} SplitAtSeparator(a: string, b: string, sep: char)
    requires sep !in a
    ensures Split(a + [sep] + b, sep) == [a] + Split(b, sep)
  {
    if a == [] {
      assert a + [sep] + b == [sep] + b;
      assert ([sep] + b)[1..] == b;
    } else {
      SplitAtSeparator(a[1..], b, sep);
      assert (a + [sep] + b)[1..] == a[1..] + [sep] + b;
      assert [a[0]] + a[1..] == a;
    }
  }

  /** Joining names with commas loses nothing when no name contains a comma. */
  lemma {:induction false} SplitJoin(xs: seq<string>, sep: char)
    requires |xs| >= 1
    requires forall i :: 0 <= i < |xs| ==> sep !in xs[i]
    ensures Split(Join(xs, sep), sep) == xs
  {
    if |xs| == 1 {
      SplitNoSeparator(xs[0], sep);
    } else {
      SplitJoin(xs[1..], sep);
      SplitAtSeparator(xs[0], Join(xs[1..], sep), sep);
      assert [xs[0]] + xs[1..] == xs;
    }
  }

  /**
   * The `params` dict of `esgf_api`: the keyword facets, overridden by the
   * fixed keys, then the comma-joined `facets` and `fields` when given.
   * `latest` and `retracted` are accepted but never sent.
   */
  function BuildParams(call: ApiCall): (p: Params)
    ensures FixedKeys <= p.Keys
    ensures p["format"] == Text(SolrJson) && p["limit"] == Number(call.limit)
    ensures p["offset"] == Number(call.offset) && p["replica"] == Flag(call.replica)
  {
    var fixed := map[
      "format" := Text(SolrJson),
      "limit" := Number(call.limit),
      "offset" := Number(call.offset),
      "replica" := Flag(call.replica)];
    var withFixed := call.kwargs + fixed;
    var withFacets :=
      if call.facets.Some? then withFixed["facets" := Text(Join(call.facets.value, Comma))]
      else withFixed;
    if call.fields.Some? then withFacets["fields" := Text(Join(call.fields.value, Comma))]
    else withFacets
  }

  /**
   * What a request carries: the keyword facets except where a fixed key or
   * `facets`/`fields` replaces them, the fixed format, limit, offset and
   * replica flag, and the comma-joined `facets` and `fields` only when given.
   */
  lemma BuildParamsContents(call: ApiCall)
    ensures var p := BuildParams(call);
      && p.Keys == call.kwargs.Keys + FixedKeys
                   + (if call.facets.Some? then {"facets"} else {})
                   + (if call.fields.Some? then {"fields"} else {})
      && p["format"] == Text(SolrJson)
      && p["limit"] == Number(call.limit)
      && p["offset"] == Number(call.offset)
      && p["replica"] == Flag(call.replica)
      && (call.facets.Some? ==> p["facets"] == Text(Join(call.facets.value, Comma)))
      && (call.fields.Some? ==> p["fields"] == Text(Join(call.fields.value, Comma)))
      && forall k :: k in call.kwargs && k !in FixedKeys && k != "facets" && k != "fields" ==>
           p[k] == call.kwargs[k]
  {
  }

  /** The `latest` and `retracted` arguments never change the request. */
  lemma LatestAndRetractedIgnored(call: ApiCall, latest: bool, retracted: bool)
    ensures BuildParams(call.(latest := latest, retracted := retracted)) == BuildParams(call)
  {
  }

  /** Under Python's keyword binding no `latest` or `retracted` parameter is ever sent. */
  lemma LatestAndRetractedNeverSent(call: ApiCall)
    requires WellBound(call)
    ensures "latest" !in BuildParams(call) && "retracted" !in BuildParams(call)
  {
    BuildParamsContents(call);
  }
}
