# CMIP6 variable search: a Dafny model

This project models the search core of `subdaily_data_for_RCMs/cmip6-variable-search.py`, a client for the ESGF (Earth System Grid Federation) metadata search API that finds CMIP6 simulation runs holding a requested set of variables. It covers three functions of that script:

- `esgf_api` builds the query string of one search request. The model computes its parameter map and proves what it holds, and also that the comma-joined field and facet lists can be split back into the original names.
- `esgf_api_results_iter` pages through the search results 1000 at a time. Each document is flattened into a record: list values are replaced by their first element, and the `score` field is dropped. It stops once the advanced offset passes the server's `numFound`. The model is an imperative method with a loop. It is proved against specification functions of the pages the server returns, and it also records the requests it sends. The lemmas about it cover:
  - how many requests are made;
  - the extra request when `numFound` is a multiple of the page size;
  - completeness: against a server that serves one fixed catalog, every document is yielded exactly once, in catalog order.
- `cmip6_match_all_variables` builds the requested field set and runs the paginated search. It then turns the records into a table:
  - it groups the rows by the run columns;
  - it applies the coverage filter, which returns `True` unconditionally;
  - it sorts by the index columns and `variable_id`, with NaN last;
  - it moves the index columns into a multi-column index.

  The model proves several properties of this pipeline:
  - the field list covers the field set exactly once;
  - a missing column raises `KeyError` for the first such column;
  - the filter keeps exactly the rows that have every group column, every copy of each, in order;
  - the sort is a permutation and ordered;
  - setting the index can be undone without loss, and the rows of the returned table are in key order.

Files:

- `wrappers.dfy`: the `Option` and `Result` types.
- `records.dfy`: raw documents, flattened records, and flattening of one document and of one page.
- `params.dfy`: the arguments of `esgf_api`, the query-string map, and comma joining and splitting.
- `pagination.dfy`: the search endpoint as a total function from query string to page or HTTP status, the paging loop, and the lemmas about page counts and completeness.
- `ordering.dfy`: the string, cell and key orders that `sort_values` uses, each proved total, antisymmetric and transitive.
- `matcher.dfy`: `cmip6_match_all_variables` and the steps of the table chain on line 87.

Behaviour of the code worth knowing:

- Flattening takes element 0 of every list, whatever its length. A list with two or more elements is cut to its first element; it is not passed through. An empty list raises `IndexError`, which ends the stream.
- `esgf_api` accepts `latest` and `retracted` but never puts them in the request (`Params.LatestAndRetractedNeverSent`).
- Nothing makes the final index unique. Two records with equal index columns and equal `variable_id` both stay in the table.
- The coverage filter returns `True` before it looks at the group. No group is ever dropped for a missing variable.
- Rows that lack a group column are dropped by `groupby`, which leaves out NaN group keys.
- The sort is by code point. When the index columns tie, `pr` comes before `tas`.

## Model

| member | source | states |
|---|---|---|
| Records.FlattenDoc | subdaily_data_for_RCMs/cmip6-variable-search.py:47 | Flattening fails only with IndexError, and a flattened record never has a `score` field. |
| Records.FlattenDocSpec | subdaily_data_for_RCMs/cmip6-variable-search.py:47 | Flattening a document fails with IndexError exactly when a non-`score` field holds an empty list. Otherwise the record has every field but `score`; scalars are unchanged and each list becomes its first element, whatever its length. |
| Records.FlattenUnwrapsSingletons | subdaily_data_for_RCMs/cmip6-variable-search.py:47 | A record without `score`, with every field wrapped in a one-element list, flattens back to itself. |
| Records.FlattenIdempotent | subdaily_data_for_RCMs/cmip6-variable-search.py:47 | A flattened record, read again as a document, flattens to itself. |
| Records.FlattenPage | subdaily_data_for_RCMs/cmip6-variable-search.py:46-47 | One page yields the flattened documents in order up to the first that fails. The error is then IndexError, raised at exactly that document. No error happens iff every document flattens. |
| Records.FlattenPageComplete | subdaily_data_for_RCMs/cmip6-variable-search.py:46-47 | A page whose documents all flatten yields every one of them, in order, with no error. |
| Records.FlattenPageStopsAtFirstFailure | subdaily_data_for_RCMs/cmip6-variable-search.py:46-47 | A page stops with IndexError at its first failing document and yields exactly the documents before it. |
| Params.SplitJoin | subdaily_data_for_RCMs/cmip6-variable-search.py:23-26 | A non-empty list of names with no comma in any name survives comma-joining: splitting the joined text at commas gives the list back. |
| Params.BuildParams | subdaily_data_for_RCMs/cmip6-variable-search.py:16-26 | Every request carries the fixed keys: format `application/solr+json`, the given limit and offset, and the replica flag. |
| Params.BuildParamsContents | subdaily_data_for_RCMs/cmip6-variable-search.py:16-26 | The request carries the keyword facets, the fixed format `application/solr+json`, limit, offset and replica, and the comma-joined `facets` and `fields` only when given. It has no other key. A fixed key overrides a keyword facet of the same name. |
| Params.LatestAndRetractedIgnored | subdaily_data_for_RCMs/cmip6-variable-search.py:12-26 | Changing `latest` or `retracted` never changes the request. |
| Params.LatestAndRetractedNeverSent | subdaily_data_for_RCMs/cmip6-variable-search.py:12-26 | Under Python's keyword binding, no request has a `latest` or `retracted` parameter. |
| Pagination.EsgfApi | subdaily_data_for_RCMs/cmip6-variable-search.py:28-32 | One request returns the server's page when the request succeeds. When it fails, `raise_for_status` raises an HttpError that carries the failing status. |
| Pagination.PageRequest | subdaily_data_for_RCMs/cmip6-variable-search.py:39-44 | The k-th request asks for limit 1000 at offset 1000 * k. Every keyword facet that is not replaced is passed through unchanged. |
| Pagination.YieldPage | subdaily_data_for_RCMs/cmip6-variable-search.py:46-47 | The loop over one page's documents yields exactly what the page's flattening specifies and stops at the same error. |
| Pagination.FetchPage | subdaily_data_for_RCMs/cmip6-variable-search.py:42-51 | One pass of the loop sends the n-th request and yields that page's records. It advances the offset by 1000. It goes on exactly when the page arrived, flattened, and the new offset does not exceed numFound; otherwise it reports how the stream ends. |
| Pagination.ResultsIter | subdaily_data_for_RCMs/cmip6-variable-search.py:35-51 | For a stream that stops (some page fails, does not flatten, or has its advanced offset above its numFound), the loop sends exactly PageCount requests, the k-th at offset 1000 * k. It yields the flattened records of those pages in order and ends as the last page dictates: an HTTP error, IndexError, or normal completion. |
| Pagination.CallsOffsets | subdaily_data_for_RCMs/cmip6-variable-search.py:39-49 | The k-th request of a run has limit 1000 and offset 1000 * k. |
| Pagination.PageCount | subdaily_data_for_RCMs/cmip6-variable-search.py:49-51 | A stream that stops makes at least one request. It continues after every page but the last and stops after the last. |
| Pagination.PageCountUnique | subdaily_data_for_RCMs/cmip6-variable-search.py:49-51 | The stopping rule fixes the number of requests: any count that continues through every earlier page and stops at its last is PageCount. |
| Pagination.ConstantCountPages | subdaily_data_for_RCMs/cmip6-variable-search.py:49-51 | When every page arrives, flattens and reports numFound N, the stream makes N / 1000 + 1 requests. The last is at offset N - N % 1000. |
| Pagination.ExactMultipleExtraRequest | subdaily_data_for_RCMs/cmip6-variable-search.py:49-51 | When N is a multiple of 1000, the strict stop test costs an extra request, whose offset is N itself. |
| Pagination.ConsistentServerYieldsCatalog | subdaily_data_for_RCMs/cmip6-variable-search.py:35-51 | Against a server serving one fixed catalog of flattenable documents, the stream makes N / 1000 + 1 requests and ends normally. It yields every document exactly once, flattened, in catalog order. When N is a multiple of 1000, the last page is empty. |
| Ordering.StrLeTotal | subdaily_data_for_RCMs/cmip6-variable-search.py:87 | Any two strings are comparable in code-point lexicographic order. |
| Ordering.StrLeTransitive | subdaily_data_for_RCMs/cmip6-variable-search.py:87 | Code-point lexicographic order on strings is transitive. |
| Ordering.StrLeAntisymmetric | subdaily_data_for_RCMs/cmip6-variable-search.py:87 | Two strings each at most the other are equal. |
| Ordering.CellLeTotal | subdaily_data_for_RCMs/cmip6-variable-search.py:87 | Any two cells are comparable, with NaN after every present value. |
| Ordering.CellLeAntisymmetric | subdaily_data_for_RCMs/cmip6-variable-search.py:87 | Two cells each at most the other are equal. |
| Ordering.CellLeTransitive | subdaily_data_for_RCMs/cmip6-variable-search.py:87 | The cell order, NaN last, is transitive. |
| Ordering.KeyLeTotal | subdaily_data_for_RCMs/cmip6-variable-search.py:87 | Any two sort keys are comparable in the column-by-column order. |
| Ordering.KeyLeAntisymmetric | subdaily_data_for_RCMs/cmip6-variable-search.py:87 | Two sort keys each at most the other are equal. |
| Ordering.KeyLeTransitive | subdaily_data_for_RCMs/cmip6-variable-search.py:87 | The column-by-column key order is transitive. |
| Matcher.FieldSet | subdaily_data_for_RCMs/cmip6-variable-search.py:67 | A name is requested iff it is a group column, an index column, an extra field, `variable_id`, `instance_id` or an extra facet name. |
| Matcher.MatchSearch | subdaily_data_for_RCMs/cmip6-variable-search.py:70 | The iterator gets the field list as `fields` and no `facets`. `variable_id` is a multi-valued facet holding the requested variables, every other extra facet is passed on with its values, and there are no other facets. `replica`, `latest` and `retracted` keep their defaults. |
| Matcher.ListOfSet | subdaily_data_for_RCMs/cmip6-variable-search.py:70 | `list(fields)` holds every member of the set exactly once, and nothing else. |
| Matcher.FullGroupKeyColumns | subdaily_data_for_RCMs/cmip6-variable-search.py:63-87 | A row's group key has no NaN iff the row has every group column. |
| Matcher.FilterMatchAll | subdaily_data_for_RCMs/cmip6-variable-search.py:76-84 | The coverage filter accepts every group, including one that lacks a requested variable, because it returns True before any test. |
| Matcher.GroupOf | subdaily_data_for_RCMs/cmip6-variable-search.py:87 | A row is in the group of a key iff it is a row of the table with that group key. |
| Matcher.KeepPassingKeepsFullKeys | subdaily_data_for_RCMs/cmip6-variable-search.py:74-87 | Filtering by group keeps, in order, exactly the rows with a full group key, each time it occurs. |
| Matcher.FilterGroups | subdaily_data_for_RCMs/cmip6-variable-search.py:87 | `groupby(group_columns).filter(filter_match_all)` returns exactly the rows that have every group column, in their original order. |
| Matcher.FullRowsCounts | subdaily_data_for_RCMs/cmip6-variable-search.py:87 | Each row with a full group key is kept exactly as often as it occurs, and no other row is kept. |
| Matcher.FullRowsAllFull | subdaily_data_for_RCMs/cmip6-variable-search.py:87 | A table whose rows all have full group keys is kept whole and in order. |
| Matcher.InsertSorted | subdaily_data_for_RCMs/cmip6-variable-search.py:87 | Inserting a row into rows sorted by (index columns, `variable_id`) keeps them sorted. |
| Matcher.SortRows | subdaily_data_for_RCMs/cmip6-variable-search.py:87 | `sort_values(index_columns + ['variable_id'])` returns a permutation of its rows in non-decreasing key order, NaN last. |
| Matcher.SetIndex | subdaily_data_for_RCMs/cmip6-variable-search.py:87 | `set_index(index_columns)` moves the nine index columns, in order, into the row's index tuple, with NaN for a missing one. The data keeps every other column with its value. |
| Matcher.ResetSetIndex | subdaily_data_for_RCMs/cmip6-variable-search.py:87 | `set_index(index_columns)` loses nothing: resetting the index gives the row back. |
| Matcher.RowKeyOfSetIndex | subdaily_data_for_RCMs/cmip6-variable-search.py:87 | An indexed row's index tuple followed by its `variable_id` is the row's sort key. |
| Matcher.FirstMissing | subdaily_data_for_RCMs/cmip6-variable-search.py:87 | No column is missing iff every required column appears in some record. Otherwise the result is the first required column that no record has. |
| Matcher.MatchRecords | subdaily_data_for_RCMs/cmip6-variable-search.py:87 | The chain fails with KeyError exactly when a group, index or `variable_id` column is absent from every record, naming the first such column. On success, each table row is `set_index` of its record. The records are the filtered rows, reordered, and they are sorted by index columns, then `variable_id`, both as records and as index tuples. |
| Matcher.MatchRecordsRows | subdaily_data_for_RCMs/cmip6-variable-search.py:72-87 | A successful table holds each record with every group column exactly as often as the records do, and no other row. When every record has them, it is a permutation of all the records. |
| Matcher.MatchSearchKeywords | subdaily_data_for_RCMs/cmip6-variable-search.py:70 | When no extra facet has a reserved name, no keyword the search passes on carries the name of a parameter of `esgf_api`. |
| Matcher.SearchAndMatch | subdaily_data_for_RCMs/cmip6-variable-search.py:70-89 | Streaming the search for a given field list and building the table gives the stream's error, or the chain of line 87 applied to every record the search yields. |
| Matcher.MatchAllVariables | subdaily_data_for_RCMs/cmip6-variable-search.py:54-89 | The requested field list is the field set without duplicates. The search sends that field list, the variables and the extra facets. The result is the stream's error when a page fails or does not flatten; otherwise it is the chain of line 87 applied to every record the paged search yields. |

## Left out

- HTTP, JSON decoding and the endpoint URL: the search endpoint is a function from the query string to a parsed page or a failing HTTP status. A response missing `response.docs` or `numFound` is not modelled.
- JSON values are modelled as text, or lists of text. Numbers, booleans, `null` and nested lists are not distinguished from text.
- `log.debug` calls and the mismatch diagnostic: logging has no effect on results.
- Lines 78-84, after `return True` in `filter_match_all`: unreachable code.
- pandas internals: the DataFrame is modelled by its rows, and a column absent from a row reads as NaN.
  - Row labels and dtypes are not modelled.
  - The tie order of `sort_values` among rows with equal keys is not modelled. The model fixes one sorted permutation.
  - When a group column is absent from every record and there are exactly nine records, pandas may read the nine-name key list as one array of labels instead of as column names. Then it does not raise KeyError. This case is not modelled.
- Matcher.MatchRecords: always reports KeyError for a group column absent from every record, even in the nine-record case above, where pandas may instead group by the list of names.
- The command-line parser, `main` and the CSV output of lines 92-135: outside the search core.
- Pagination.ResultsIter: requires that the stream stops, that is, that some page fails, does not flatten, or has its advanced offset above its numFound. A stream where every page arrives, flattens and reports numFound at least 1000 * (k + 1) for page k never ends in Python; the model does not cover it.
- Pagination.ResultsIter: a `limit` or `offset` keyword reaches `esgf_api` twice and raises TypeError in Python. A `facets`, `fields`, `replica`, `latest` or `retracted` keyword binds to that parameter instead. The model requires that no keyword carries one of these names and does not model either behaviour.
- Pagination.ResultsIter: the generator's laziness is not modelled. A consumer that stops early is modelled as one that reads the whole stream.
- Matcher.MatchAllVariables: requires that no extra facet is named `variable_id`, `fields` or one of `esgf_api`'s own parameters. In Python such a facet raises a TypeError or rebinds that parameter; this is not modelled.
- Matcher.MatchAllVariables: requires that the stream stops for every order in which `list` may produce the field set, since the order is not fixed.
- Matcher.MatchAllVariables: the multi-valued `variable_id` facet is a list in the query. How `requests` encodes it as repeated parameters is not modelled.
