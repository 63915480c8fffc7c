/**
 * The paginated query client `esgf_api_results_iter`
 * (subdaily_data_for_RCMs/cmip6-variable-search.py, lines 35-51) and the
 * single page fetch of `esgf_api` (lines 28-32) it drives.
 *
 * The search endpoint is a total function from the query string to either
 * a parsed page (`response.docs`, `response.numFound`) or the HTTP status of
 * a failed request. The generator becomes a method that returns every
 * request it sent, every record it yielded, and how the stream ended.
 */
module Pagination {
  import opened Wrappers
  import opened Records
  import opened Params

  /** The fixed `limit` of every page request. */
  const PageSize: nat := 1000

  /** The part of a search response the client reads. */
  datatype Page = Page(docs: seq<Doc>, numFound: nat)

  /** The search endpoint: a page, or the status `raise_for_status` raises on. */
  type Server = Params -> Result<Page, nat>

  /** How a stream of records ends: exhausted, or by an exception. */
  datatype Outcome = Done | Failed(error: StreamError)

  /**
   * The stream of a search ends: some page is not followed by another
   * (it fails, does not flatten, or its advanced offset exceeds numFound).
   */
  ghost predicate Stops(server: Server, args: SearchArgs)
  {
    exists stopAt: nat :: !Continues(server, args, stopAt)
  }


  /** The keyword arguments of `esgf_api_results_iter`, handed on to every `esgf_api` call. */
  datatype SearchArgs = SearchArgs(
    facets: Option<seq<string>>,
    fields: Option<seq<string>>,
    replica: bool,
    latest: bool,
    retracted: bool,
    kwargs: Params)

  /** The arguments of the k-th page request, counting from 0. */
  function PageCall(args: SearchArgs, k: nat): ApiCall
  {
    ApiCall(PageSize, PageSize * k, args.facets, args.fields, args.replica, args.latest, args.retracted,
            args.kwargs)
  }

  /** The query string of the k-th page request. */
  function PageRequest(args: SearchArgs, k: nat): (p: Params)
    ensures FixedKeys + args.kwargs.Keys <= p.Keys
    ensures p["limit"] == Number(PageSize)
    ensures p["offset"] == Number(PageSize * k)
    ensures forall key :: key in args.kwargs && key !in FixedKeys && key != "facets" && key != "fields" ==>
      p[key] == args.kwargs[key]
  {
    BuildParamsContents(PageCall(args, k));
    BuildParams(PageCall(args, k))
  }

  /** One `esgf_api` call: the server's page, or an HttpError carrying the failing status. */
  function EsgfApi(server: Server, call: ApiCall): (r: Result<Page, StreamError>)
    ensures r.Success? <==> server(BuildParams(call)).Success?
    ensures r.Success? ==> r.value == server(BuildParams(call)).value
    ensures r.Failure? ==> r.error == HttpError(server(BuildParams(call)).error)
  {
    match server(BuildParams(call))
    case Success(page) => Success(page)
    case Failure(status) => Failure(HttpError(status))
  }

  /** The response to the k-th page request. */
  function Response(server: Server, args: SearchArgs, k: nat): Result<Page, StreamError>
  {
    EsgfApi(server, PageCall(args, k))
  }

  /**
   * The loop goes on after the k-th page: the page arrived, every document
   * in it flattened, and the advanced offset PageSize * (k + 1) is not
   * strictly greater than the page's numFound.
   */
  predicate Continues(server: Server, args: SearchArgs, k: nat)
  {
    var r := Response(server, args, k);
    r.Success? && FlattenPage(r.value.docs).1.None? && PageSize * (k + 1) <= r.value.numFound
  }

  /** The records yielded while the k-th page is processed. */
  function PageYield(server: Server, args: SearchArgs, k: nat): seq<Record>
  {
    match Response(server, args, k)
    case Failure(_) => []
    case Success(page) => FlattenPage(page.docs).0
  }

  /** The records each page yields, page by page. */
  function PageYields(server: Server, args: SearchArgs): nat -> seq<Record>
  {
    (k: nat) => PageYield(server, args, k)
  }

  /** The records of the first n pages, in page order, given the records each page yields. */
  function Concat(pageYield: nat -> seq<Record>, n: nat): seq<Record>
  {
    if n == 0 then [] else Concat(pageYield, n - 1) + pageYield(n - 1)
  }

  /** The records yielded by the first n pages, page by page and document by document. */
  function Yielded(server: Server, args: SearchArgs, n: nat): seq<Record>
  {
    Concat(PageYields(server, args), n)
  }

  /** How the stream ends when the k-th page is the last one requested. */
  function PageOutcome(server: Server, args: SearchArgs, k: nat): Outcome
  {
    match Response(server, args, k)
    case Failure(e) => Failed(e)
    case Success(page) =>
      match FlattenPage(page.docs).1
      case Some(e) => Failed(e)
      case None => Done
  }

  /** The inner `for d in docs` loop: flatten and yield each document of one page in turn. */
  method YieldPage(docs: seq<Doc>) returns (flat: seq<Record>, failure: Option<StreamError>)
    ensures (flat, failure) == FlattenPage(docs)
  {
    flat, failure := [], None;
    var i := 0;
    while i < |docs|
      invariant 0 <= i <= |docs|
      invariant |flat| == i
      invariant forall j :: 0 <= j < i ==> FlattenDoc(docs[j]) == Success(flat[j])
    {
      var rec := FlattenDoc(docs[i]);
      if rec.Failure? {
        FlattenPageStopsAtFirstFailure(docs, i);
        assert flat == FlattenAll(docs[..i]);
        failure := Some(rec.error);
        return;
      }
      flat := flat + [rec.value];
      i := i + 1;
    }
    FlattenPageComplete(docs);
    assert flat == FlattenAll(docs);
  }

  /** The calls of the first n page requests, in order. */
  function Calls(args: SearchArgs, n: nat): (calls: seq<ApiCall>)
  {
    if n == 0 then [] else Calls(args, n - 1) + [PageCall(args, n - 1)]
  }

  /** Every request uses limit PageSize, and the k-th (from 0) offset PageSize * k. */
  lemma {:induction false} CallsOffsets(args: SearchArgs, n: nat)
    ensures |Calls(args, n)| == n
    ensures forall k :: 0 <= k < n ==> Calls(args, n)[k] == PageCall(args, k)
    ensures forall k :: 0 <= k < n ==> Calls(args, n)[k].limit == PageSize
    ensures forall k :: 0 <= k < n ==> Calls(args, n)[k].offset == PageSize * k
  {
    if n > 0 {
      CallsOffsets(args, n - 1);
    }
  }

  /** One more page extends the trace of requests and of yielded records by that page's call and records. */
  lemma TraceStep(server: Server, args: SearchArgs, n: nat, requests: seq<ApiCall>, records: seq<Record>,
                  call: ApiCall, flat: seq<Record>)
    requires requests == Calls(args, n) && records == Yielded(server, args, n)
    requires call == PageCall(args, n) && flat == PageYield(server, args, n)
    ensures requests + [call] == Calls(args, n + 1)
    ensures records + flat == Yielded(server, args, n + 1)
  {
  }


  /**
   * One pass of the loop body of `esgf_api_results_iter`: request the page
   * at `offset` (the n-th page), yield its flattened documents, advance the
   * offset, and decide whether to stop. `stop` is the stream's outcome when
   * this page ends it.
   */
  method FetchPage(server: Server, args: SearchArgs, offset: nat, ghost n: nat)
    returns (call: ApiCall, flat: seq<Record>, next: nat, stop: Option<Outcome>)
    requires offset == PageSize * n
    ensures call == PageCall(args, n)
    ensures flat == PageYield(server, args, n)
    ensures next == offset + PageSize
    ensures stop.None? <==> Continues(server, args, n)
    ensures stop.Some? ==> stop.value == PageOutcome(server, args, n)
  {
    var limit := PageSize;
    call := ApiCall(limit, offset, args.facets, args.fields, args.replica, args.latest,
                    args.retracted, args.kwargs);
    next := offset + limit;
    var response := EsgfApi(server, call);
    if response.Failure? {
      flat, stop := [], Some(Failed(response.error));
      return;
    }
    var page := response.value;
    var failure;
    flat, failure := YieldPage(page.docs);
    if failure.Some? {
      stop := Some(Failed(failure.value));
    } else if next > page.numFound {
      stop := Some(Done);
    } else {
      stop := None;
    }
  }

  /**
   * `esgf_api_results_iter`: request pages of PageSize records at offsets
   * 0, PageSize, 2 * PageSize, ..., yield the flattened documents of each,
   * and stop after the first page whose advanced offset is strictly greater
   * than its numFound, or at the first exception. `requests` lists the
   * `esgf_api` calls made, in order. No keyword may carry the name of a
   * parameter of `esgf_api`: Python would bind it to that parameter, or
   * raise TypeError for `limit` and `offset`. The stream must stop; the loop
   * then runs PageCount times.
   */
  method ResultsIter(server: Server, args: SearchArgs)
    returns (requests: seq<ApiCall>, records: seq<Record>, outcome: Outcome)
    requires args.kwargs.Keys !! NamedArguments
    requires Stops(server, args)
    ensures |requests| == PageCount(server, args)
    ensures requests == Calls(args, |requests|)
    ensures records == Yielded(server, args, |requests|)
    ensures outcome == PageOutcome(server, args, |requests| - 1)
  {
    ghost var count := PageCount(server, args);
    var offset := 0;
    requests, records := [], [];
    while true
      invariant |requests| < count
      invariant offset == PageSize * |requests|
      invariant requests == Calls(args, |requests|)
      invariant records == Yielded(server, args, |requests|)
      decreases count - |requests|
    {
      ghost var n := |requests|;
      var call, flat, next, stop := FetchPage(server, args, offset, n);
      TraceStep(server, args, n, requests, records, call, flat);
      requests, records := requests + [call], records + flat;
      assert |requests| == n + 1;
      LastPage(server, args, n);
      if stop.Some? {
        outcome := stop.value;
        assert outcome == PageOutcome(server, args, |requests| - 1);
        return;
      }
      offset := next;
    }
  }

  /** Of the first PageCount pages, the loop goes on after every one but the last. */
  lemma LastPage(server: Server, args: SearchArgs, n: nat)
    requires Stops(server, args)
    ensures n < PageCount(server, args) - 1 ==> Continues(server, args, n)
    ensures n == PageCount(server, args) - 1 ==> !Continues(server, args, n)
  {
  }

  /** The first page from page k on that is not followed by another, given that page stopAt is one. */
  ghost function FirstStop(server: Server, args: SearchArgs, k: nat, stopAt: nat): (last: nat)
    requires k <= stopAt && !Continues(server, args, stopAt)
    ensures k <= last <= stopAt && !Continues(server, args, last)
    ensures forall j :: k <= j < last ==> Continues(server, args, j)
    decreases stopAt - k
  {
    if Continues(server, args, k) then FirstStop(server, args, k + 1, stopAt) else k
  }

  /** The number of page requests the stream makes. */
  ghost function PageCount(server: Server, args: SearchArgs): (n: nat)
    requires Stops(server, args)
    ensures n >= 1 && !Continues(server, args, n - 1)
    ensures forall j :: 0 <= j < n - 1 ==> Continues(server, args, j)
  {
    var stopAt: nat :| !Continues(server, args, stopAt);
    FirstStop(server, args, 0, stopAt) + 1
  }

  /** The stopping rule determines the number of pages: it is the first stop, plus one. */
  lemma PageCountUnique(server: Server, args: SearchArgs, n: nat)
    requires n >= 1 && !Continues(server, args, n - 1)
    requires forall j :: 0 <= j < n - 1 ==> Continues(server, args, j)
    ensures Stops(server, args) && n == PageCount(server, args)
  {
  }

  /**
   * When every page arrives, flattens and reports the same numFound N, the
   * stream requests exactly N / PageSize + 1 pages, the last at offset
   * N - N % PageSize.
   */
  lemma ConstantCountPages(server: Server, args: SearchArgs, total: nat)
    requires forall k: nat :: Response(server, args, k).Success?
    requires forall k: nat :: Response(server, args, k).value.numFound == total
    requires forall k: nat :: FlattenPage(Response(server, args, k).value.docs).1.None?
    ensures Stops(server, args) && PageCount(server, args) == total / PageSize + 1
    ensures PageSize * (PageCount(server, args) - 1) == total - total % PageSize
  {
    var n := total / PageSize + 1;
    forall j | 0 <= j < n - 1
      ensures Continues(server, args, j)
    {
      assert PageSize * (j + 1) <= PageSize * (total / PageSize);
    }
    assert !Continues(server, args, n - 1);
    PageCountUnique(server, args, n);
  }

  /**
   * Because the stop test is strict, a numFound that is a multiple of
   * PageSize costs one request more than the pages holding records: the
   * last request asks for offset numFound itself.
   */
  lemma ExactMultipleExtraRequest(server: Server, args: SearchArgs, total: nat)
    requires forall k: nat :: Response(server, args, k).Success?
    requires forall k: nat :: Response(server, args, k).value.numFound == total
    requires forall k: nat :: FlattenPage(Response(server, args, k).value.docs).1.None?
    requires total % PageSize == 0
    ensures Stops(server, args) && PageCount(server, args) == total / PageSize + 1
    ensures PageRequest(args, PageCount(server, args) - 1)["offset"] == Number(total)
  {
    ConstantCountPages(server, args, total);
    var last := PageCount(server, args) - 1;
    assert PageSize * last == total;
    assert PageRequest(args, last)["offset"] == Number(PageSize * last);
  }

  function Min(a: nat, b: nat): nat
  {
    if a <= b then a else b
  }

  /** The documents at positions offset .. offset + PageSize - 1 of a catalog, as far as it goes. */
  function CatalogSlice(catalog: seq<Doc>, offset: nat): (slice: seq<Doc>)
    ensures forall j :: 0 <= j < |slice| ==> slice[j] in catalog
  {
    catalog[Min(offset, |catalog|)..Min(offset + PageSize, |catalog|)]
  }

  /** The first m pages' worth of documents of a catalog, as far as it goes. */
  function CatalogPrefix(catalog: seq<Doc>, m: nat): seq<Doc>
  {
    catalog[..Min(PageSize * m, |catalog|)]
  }

  /**
   * A server that does not change during the stream: every page request is
   * answered with the requested slice of one fixed catalog, and numFound is
   * the catalog's size.
   */
  ghost predicate ServesCatalog(server: Server, args: SearchArgs, catalog: seq<Doc>)
  {
    forall k: nat :: Response(server, args, k) == Success(Page(CatalogSlice(catalog, PageSize * k), |catalog|))
  }

  lemma CatalogPrefixGrows(catalog: seq<Doc>, m: nat)
    requires m > 0
    ensures CatalogPrefix(catalog, m) == CatalogPrefix(catalog, m - 1) + CatalogSlice(catalog, PageSize * (m - 1))
  {
    var lo := Min(PageSize * (m - 1), |catalog|);
    var hi := Min(PageSize * m, |catalog|);
    assert PageSize * (m - 1) + PageSize == PageSize * m;
    assert catalog[..hi] == catalog[..lo] + catalog[lo..hi];
  }

  lemma FlattenAllAppend(a: seq<Doc>, b: seq<Doc>)
    requires forall j :: 0 <= j < |a| ==> FlattenDoc(a[j]).Success?
    requires forall j :: 0 <= j < |b| ==> FlattenDoc(b[j]).Success?
    ensures forall j :: 0 <= j < |a + b| ==> FlattenDoc((a + b)[j]).Success?
    ensures FlattenAll(a + b) == FlattenAll(a) + FlattenAll(b)
  {
    assert forall j :: 0 <= j < |a + b| ==> (a + b)[j] == if j < |a| then a[j] else b[j - |a|];
  }

  /** Each page of a fixed catalog yields its slice, flattened. */
  lemma CatalogPageYield(server: Server, args: SearchArgs, catalog: seq<Doc>, k: nat)
    requires ServesCatalog(server, args, catalog)
    requires forall j :: 0 <= j < |catalog| ==> FlattenDoc(catalog[j]).Success?
    ensures forall j :: 0 <= j < |CatalogSlice(catalog, PageSize * k)| ==>
      FlattenDoc(CatalogSlice(catalog, PageSize * k)[j]).Success?
    ensures PageYield(server, args, k) == FlattenAll(CatalogSlice(catalog, PageSize * k))
  {
    var slice := CatalogSlice(catalog, PageSize * k);
    assert Response(server, args, k).value.docs == slice;
    FlattenPageComplete(slice);
  }

  /** The first m pages of a fixed catalog yield its first m pages' worth of documents, flattened. */
  lemma YieldedCatalogPrefix(server: Server, args: SearchArgs, catalog: seq<Doc>, m: nat)
    requires ServesCatalog(server, args, catalog)
    requires forall j :: 0 <= j < |catalog| ==> FlattenDoc(catalog[j]).Success?
    ensures Yielded(server, args, m) == FlattenAll(CatalogPrefix(catalog, m))
  {
    forall k: nat | k < m
      ensures PageYields(server, args)(k) == FlattenAll(CatalogSlice(catalog, PageSize * k))
    {
      CatalogPageYield(server, args, catalog, k);
    }
    ConcatSlices(PageYields(server, args), catalog, m);
  }

  /** Pages that each yield their slice of a catalog, flattened, together yield the catalog's prefix. */
  lemma {:induction false} ConcatSlices(pageYield: nat -> seq<Record>, catalog: seq<Doc>, m: nat)
    requires forall j :: 0 <= j < |catalog| ==> FlattenDoc(catalog[j]).Success?
    requires forall k: nat :: k < m ==> pageYield(k) == FlattenAll(CatalogSlice(catalog, PageSize * k))
    ensures Concat(pageYield, m) == FlattenAll(CatalogPrefix(catalog, m))
  {
    if m > 0 {
      ConcatSlices(pageYield, catalog, m - 1);
      var front := CatalogPrefix(catalog, m - 1);
      var slice := CatalogSlice(catalog, PageSize * (m - 1));
      assert Concat(pageYield, m) == FlattenAll(front) + FlattenAll(slice);
      FlattenAllAppend(front, slice);
      CatalogPrefixGrows(catalog, m);
    }
  }

  /**
   * Pagination completeness: against a server that serves one fixed catalog
   * of N documents, the stream makes N / PageSize + 1 requests, ends
   * normally, and yields every document of the catalog once, flattened, in
   * catalog order. When N is a multiple of PageSize the last request returns
   * no documents.
   */
  lemma ConsistentServerYieldsCatalog(server: Server, args: SearchArgs, catalog: seq<Doc>)
    requires ServesCatalog(server, args, catalog)
    requires forall j :: 0 <= j < |catalog| ==> FlattenDoc(catalog[j]).Success?
    ensures Stops(server, args) && PageCount(server, args) == |catalog| / PageSize + 1
    ensures Yielded(server, args, PageCount(server, args)) == FlattenAll(catalog)
    ensures PageOutcome(server, args, PageCount(server, args) - 1) == Done
    ensures |catalog| % PageSize == 0 ==> PageYield(server, args, PageCount(server, args) - 1) == []
  {
    forall k: nat
      ensures FlattenPage(Response(server, args, k).value.docs).1.None?
    {
      FlattenPageComplete(CatalogSlice(catalog, PageSize * k));
    }
    ConstantCountPages(server, args, |catalog|);
    var n := PageCount(server, args);
    YieldedCatalogPrefix(server, args, catalog, n);
    assert CatalogPrefix(catalog, n) == catalog;
  }
}
