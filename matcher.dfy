/**
 * The variable-coverage matcher `cmip6_match_all_variables`
 * (subdaily_data_for_RCMs/cmip6-variable-search.py, lines 54-89): the
 * requested field set, the search it drives, the group filter, the sort
 * and the multi-column index of the resulting table.
 *
 * A pandas DataFrame is modelled by its rows, each the record it was built
 * from; a field a row lacks reads as NaN.
 */
module Matcher {
  import opened Wrappers
  import opened Records
  import opened Params
  import opened Pagination
  import opened Ordering

  const VariableId: string := "variable_id"
  const InstanceId: string := "instance_id"

  /** `group_columns`: run identity, frequency, grid and version. */
  const GroupColumns: seq<string> := ["mip_era", "activity_id", "institution_id", "source_id",
    "experiment_id", "member_id", "frequency", "grid_label", "version"]

  /** `index_columns`: run identity, table, grid and version. */
  const IndexColumns: seq<string> := ["mip_era", "activity_id", "institution_id", "source_id",
    "experiment_id", "member_id", "table_id", "grid_label", "version"]

  /** `index_columns + ['variable_id']`, the columns `sort_values` orders by. */
  const SortColumns: seq<string> := IndexColumns + [VariableId]

  /** The columns `groupby` and then `sort_values` look up, in that order. */
  const RequiredColumns: seq<string> := GroupColumns + SortColumns

  /** Facet names that Python would bind to a named parameter instead of passing on as a facet. */
  const ReservedFacetNames: set<string> := {VariableId, "fields"} + NamedArguments

  type Row = Record

  /**
   * `set(group_columns + index_columns + fields + ['variable_id', 'instance_id'] + list(facets.keys()))`
   */
  function FieldSet(extra: seq<string>, facetNames: set<string>): (fields: set<string>)
    ensures forall c :: c in fields <==>
      c in GroupColumns || c in IndexColumns || c in extra || c == VariableId || c == InstanceId || c in facetNames
  {
    (set c | c in GroupColumns + IndexColumns + extra + [VariableId, InstanceId]) + facetNames
  }

  /** `list(fields)`: every member of the set once, in whatever order the set yields them. */
  method ListOfSet(s: set<string>) returns (xs: seq<string>)
    ensures |xs| == |s|
    ensures forall x :: x in xs <==> x in s
    ensures forall i, j :: 0 <= i < j < |xs| ==> xs[i] != xs[j]
  {
    xs := [];
    var rest := s;
    while rest != {}
      invariant rest <= s
      invariant forall x :: x in xs <==> x in s && x !in rest
      invariant |xs| + |rest| == |s|
      invariant forall i, j :: 0 <= i < j < |xs| ==> xs[i] != xs[j]
      decreases |rest|
    {
      var x :| x in rest;
      xs := xs + [x];
      rest := rest - {x};
    }
  }

  /**
   * The search `cmip6_match_all_variables` hands to `esgf_api_results_iter`:
   * the field list, `variable_id` as a multi-valued facet, and every extra
   * facet; `replica`, `latest` and `retracted` keep their defaults.
   */
  function MatchSearch(variableIds: seq<string>, fieldList: seq<string>, facets: map<string, seq<string>>)
    : (args: SearchArgs)
    ensures args.facets == None && args.fields == Some(fieldList)
    ensures !args.replica && args.latest && !args.retracted
    ensures args.kwargs.Keys == facets.Keys + {VariableId}
    ensures args.kwargs[VariableId] == Many(variableIds)
    ensures forall f :: f in facets && f != VariableId ==> args.kwargs[f] == Many(facets[f])
  {
    SearchArgs(None, Some(fieldList), false, true, false,
               (map f | f in facets :: Many(facets[f]))[VariableId := Many(variableIds)])
  }

  /** Without a reserved facet name, no keyword of the search carries the name of a parameter of `esgf_api`. */
  lemma MatchSearchKeywords(variableIds: seq<string>, fieldList: seq<string>, facets: map<string, seq<string>>)
    requires facets.Keys !! ReservedFacetNames
    ensures MatchSearch(variableIds, fieldList, facets).kwargs.Keys !! NamedArguments
  {
  }

  /** A row's value in one column, NaN when the row lacks it. */
  function CellOf(row: Row, column: string): Cell
  {
    if column in row then Present(row[column]) else NaN
  }

  /** A row's cells in the given columns, in order. */
  function KeyOf(row: Row, columns: seq<string>): (key: seq<Cell>)
    ensures |key| == |columns|
    ensures forall i :: 0 <= i < |columns| ==> key[i] == CellOf(row, columns[i])
  {
    seq(|columns|, i requires 0 <= i < |columns| => CellOf(row, columns[i]))
  }

  function SortKey(row: Row): seq<Cell>
  {
    KeyOf(row, SortColumns)
  }

  function GroupKey(row: Row): seq<Cell>
  {
    KeyOf(row, GroupColumns)
  }

  // ---------------------------------------------------------------------
  // groupby(group_columns).filter(filter_match_all)

  /**
   * `filter_match_all`: it returns True before looking at the group, so it
   * accepts every group, whichever variables it holds.
   */
  function FilterMatchAll(group: seq<Row>, target: set<string>): (accepted: bool)
    ensures accepted
  {
    true
  }

  /** The rows of a table that share one group key, in table order. */
  function GroupOf(table: seq<Row>, key: seq<Cell>): (group: seq<Row>)
    ensures forall r :: r in group <==> r in table && GroupKey(r) == key
  {
    if table == [] then []
    else
      assert forall r :: r in table <==> r == table[0] || r in table[1..];
      (if GroupKey(table[0]) == key then [table[0]] else []) + GroupOf(table[1..], key)
  }

  /**
   * A row belongs to a group only when it has every group column: `groupby`
   * leaves out rows whose group key holds a NaN.
   */
  predicate FullGroupKey(row: Row)
  {
    NaN !in GroupKey(row)
  }

  lemma FullGroupKeyColumns(row: Row)
    ensures FullGroupKey(row) <==> forall c :: c in GroupColumns ==> c in row
  {
    if !FullGroupKey(row) {
      var i :| 0 <= i < |GroupColumns| && GroupKey(row)[i] == NaN;
      assert GroupColumns[i] !in row;
    }
  }

  /** The rows of `rows` that belong to a group of `table` that passes the filter, in order. */
  function KeepPassing(rows: seq<Row>, table: seq<Row>, target: set<string>): seq<Row>
  {
    if rows == [] then []
    else
      (if FullGroupKey(rows[0]) && FilterMatchAll(GroupOf(table, GroupKey(rows[0])), target)
       then [rows[0]] else [])
      + KeepPassing(rows[1..], table, target)
  }

  /** The rows that have every group column, in order, every copy kept. */
  function FullRows(rows: seq<Row>): seq<Row>
  {
    if rows == [] then []
    else (if FullGroupKey(rows[0]) then [rows[0]] else []) + FullRows(rows[1..])
  }

  lemma {:induction false} KeepPassingKeepsFullKeys(rows: seq<Row>, table: seq<Row>, target: set<string>)
    ensures KeepPassing(rows, table, target) == FullRows(rows)
  {
    if rows != [] {
      KeepPassingKeepsFullKeys(rows[1..], table, target);
    }
  }

  /**
   * `df.groupby(group_columns).filter(filter_match_all)`: since the coverage
   * filter rejects no group, exactly the rows with a full group key remain,
   * in their original order.
   */
  function FilterGroups(table: seq<Row>, target: set<string>): (kept: seq<Row>)
    ensures kept == FullRows(table)
  {
    KeepPassingKeepsFullKeys(table, table, target);
    KeepPassing(table, table, target)
  }

  /** Keeping the full-key rows keeps each of them as often as it occurs, and no other row. */
  lemma {:induction false} FullRowsCounts(rows: seq<Row>)
    ensures forall r :: multiset(FullRows(rows))[r] == (if FullGroupKey(r) then multiset(rows)[r] else 0)
  {
    if rows != [] {
      FullRowsCounts(rows[1..]);
      var head := if FullGroupKey(rows[0]) then [rows[0]] else [];
      assert multiset(FullRows(rows)) == multiset(head) + multiset(FullRows(rows[1..]));
      assert multiset(rows) == multiset{rows[0]} + multiset(rows[1..]) by {
        assert rows == [rows[0]] + rows[1..];
      }
    }
  }

  /** A table whose rows all have full group keys is kept whole and in order. */
  lemma {:induction false} FullRowsAllFull(rows: seq<Row>)
    requires forall r :: r in rows ==> FullGroupKey(r)
    ensures FullRows(rows) == rows
  {
    if rows != [] {
      assert rows == [rows[0]] + rows[1..];
      FullRowsAllFull(rows[1..]);
    }
  }

  // ---------------------------------------------------------------------
  // sort_values(index_columns + ['variable_id'])

  ghost predicate SortedByKey(rows: seq<Row>)
  {
    forall i, j :: 0 <= i < j < |rows| ==> KeyLe(SortKey(rows[i]), SortKey(rows[j]))
  }

  /** Insert one row in front of the first row whose key is not smaller. */
  function Insert(row: Row, sorted: seq<Row>): (r: seq<Row>)
    ensures multiset(r) == multiset(sorted) + multiset{row}
  {
    if sorted == [] then [row]
    else if KeyLe(SortKey(row), SortKey(sorted[0])) then [row] + sorted
    else
      assert sorted == [sorted[0]] + sorted[1..];
      [sorted[0]] + Insert(row, sorted[1..])
  }

  /** A row no greater than the head of a sorted sequence can go in front of it. */
  lemma PrependSorted(row: Row, sorted: seq<Row>)
    requires SortedByKey(sorted)
    requires sorted != [] ==> KeyLe(SortKey(row), SortKey(sorted[0]))
    ensures SortedByKey([row] + sorted)
  {
    forall j | 0 <= j < |sorted|
      ensures KeyLe(SortKey(row), SortKey(sorted[j]))
    {
      if j > 0 {
        KeyLeTransitive(SortKey(row), SortKey(sorted[0]), SortKey(sorted[j]));
      }
    }
    var r := [row] + sorted;
    forall i, j | 0 <= i < j < |r|
      ensures KeyLe(SortKey(r[i]), SortKey(r[j]))
    {
      if i == 0 {
        assert r[j] == sorted[j - 1];
      } else {
        assert r[i] == sorted[i - 1] && r[j] == sorted[j - 1];
      }
    }
  }

  /** A row no greater than every element of a sorted sequence can go in front of it. */
  lemma PrependLeast(first: Row, rest: seq<Row>)
    requires SortedByKey(rest)
    requires forall x :: x in rest ==> KeyLe(SortKey(first), SortKey(x))
    ensures SortedByKey([first] + rest)
  {
    var r := [first] + rest;
    forall i, j | 0 <= i < j < |r|
      ensures KeyLe(SortKey(r[i]), SortKey(r[j]))
    {
      if i == 0 {
        assert r[j] == rest[j - 1];
        assert r[j] in rest;
      } else {
        assert r[i] == rest[i - 1] && r[j] == rest[j - 1];
      }
    }
  }

  lemma {:induction false} InsertSorted(row: Row, sorted: seq<Row>)
    requires SortedByKey(sorted)
    ensures SortedByKey(Insert(row, sorted))
  {
    if sorted == [] {
    } else if KeyLe(SortKey(row), SortKey(sorted[0])) {
      PrependSorted(row, sorted);
    } else {
      KeyLeTotal(SortKey(row), SortKey(sorted[0]));
      var tail := sorted[1..];
      InsertSorted(row, tail);
      var rest := Insert(row, tail);
      forall x | x in rest
        ensures KeyLe(SortKey(sorted[0]), SortKey(x))
      {
        assert x in multiset(rest);
        if x != row {
          assert x in multiset(tail);
          var j :| 0 <= j < |tail| && tail[j] == x;
          assert sorted[j + 1] == x;
        }
      }
      PrependLeast(sorted[0], rest);
    }
  }

  /** `sort_values`: a permutation of the rows, in non-decreasing key order. */
  function {:induction false} SortRows(rows: seq<Row>): (sorted: seq<Row>)
    ensures multiset(sorted) == multiset(rows)
    ensures SortedByKey(sorted)
  {
    if rows == [] then []
    else
      assert rows == [rows[0]] + rows[1..];
      var rest := SortRows(rows[1..]);
      InsertSorted(rows[0], rest);
      Insert(rows[0], rest)
  }

  // ---------------------------------------------------------------------
  // set_index(index_columns)

  /** A table row: its index tuple, and the columns that stay data columns. */
  datatype IndexedRow = IndexedRow(index: seq<Cell>, data: Row)

  type Table = seq<IndexedRow>

  const IndexColumnSet: set<string> := set c | c in IndexColumns

  /** Move the index columns out of a row into its index tuple. */
  function SetIndex(row: Row): (r: IndexedRow)
    ensures |r.index| == |IndexColumns|
    ensures forall i :: 0 <= i < |IndexColumns| ==> r.index[i] == CellOf(row, IndexColumns[i])
    ensures forall c :: c in r.data <==> c in row && c !in IndexColumns
    ensures forall c :: c in r.data ==> r.data[c] == row[c]
  {
    IndexedRow(KeyOf(row, IndexColumns), row - IndexColumnSet)
  }

  /** Put index cells back as columns, NaN cells leaving the column out. */
  function Restore(data: Row, columns: seq<string>, cells: seq<Cell>): Row
    requires |columns| == |cells|
    decreases |columns|
  {
    if columns == [] then data
    else
      var next := if cells[0].Present? then data[columns[0] := cells[0].text] else data;
      Restore(next, columns[1..], cells[1..])
  }

  /** `reset_index()`: the row a table row came from. */
  function ResetIndex(r: IndexedRow): Row
  {
    if |r.index| == |IndexColumns| then Restore(r.data, IndexColumns, r.index) else r.data
  }

  lemma {:induction false} RestoreRecovers(data: Row, row: Row, columns: seq<string>)
    requires forall k :: k in data ==> k in row && data[k] == row[k]
    requires forall k :: k in row ==> k in data || k in columns
    ensures Restore(data, columns, KeyOf(row, columns)) == row
    decreases |columns|
  {
    if columns == [] {
      assert data == row;
    } else {
      var cells := KeyOf(row, columns);
      var next := if cells[0].Present? then data[columns[0] := cells[0].text] else data;
      assert cells[1..] == KeyOf(row, columns[1..]);
      RestoreRecovers(next, row, columns[1..]);
    }
  }

  /** Setting the index loses nothing: resetting it gives the row back. */
  lemma ResetSetIndex(row: Row)
    ensures ResetIndex(SetIndex(row)) == row
  {
    RestoreRecovers(row - IndexColumnSet, row, IndexColumns);
  }

  /** The sort key of a table row: its index tuple, then its `variable_id`. */
  function RowKey(r: IndexedRow): seq<Cell>
  {
    r.index + [CellOf(r.data, VariableId)]
  }

  /** A row keeps its sort key when its index is set. */
  lemma RowKeyOfSetIndex(row: Row)
    ensures RowKey(SetIndex(row)) == SortKey(row)
  {
    assert VariableId !in IndexColumnSet;
    assert CellOf(row - IndexColumnSet, VariableId) == CellOf(row, VariableId);
  }

  function Unindexed(table: Table): seq<Row>
  {
    seq(|table|, i requires 0 <= i < |table| => ResetIndex(table[i]))
  }

  ghost predicate TableSorted(table: Table)
  {
    forall i, j :: 0 <= i < j < |table| ==> KeyLe(RowKey(table[i]), RowKey(table[j]))
  }

  // ---------------------------------------------------------------------
  // The chain of line 87

  datatype MatchError = KeyError(column: string) | FetchFailed(error: StreamError)

  /** A DataFrame built from the records has a column for every field some record carries. */
  predicate HasColumn(rows: seq<Row>, column: string)
  {
    exists i :: 0 <= i < |rows| && column in rows[i]
  }

  /** The first of `columns` the table lacks, which pandas raises KeyError for. */
  function FirstMissing(rows: seq<Row>, columns: seq<string>): (missing: Option<string>)
    ensures missing.None? <==> forall i :: 0 <= i < |columns| ==> HasColumn(rows, columns[i])
    ensures missing.Some? ==>
      exists i :: 0 <= i < |columns| && columns[i] == missing.value && !HasColumn(rows, columns[i]) &&
        forall j :: 0 <= j < i ==> HasColumn(rows, columns[j])
  {
    if columns == [] then None
    else if !HasColumn(rows, columns[0]) then Some(columns[0])
    else
      var rest := FirstMissing(rows, columns[1..]);
      assert forall i :: 1 <= i < |columns| ==> columns[i] == columns[1..][i - 1];
      rest
  }

  /**
   * `df.groupby(group_columns).filter(filter_match_all).sort_values(index_columns + ['variable_id']).set_index(index_columns)`
   * on the DataFrame of `records`.
   */
  function MatchRecords(records: seq<Row>, target: set<string>): (r: Result<Table, MatchError>)
    ensures r.Failure? <==> exists i :: 0 <= i < |RequiredColumns| && !HasColumn(records, RequiredColumns[i])
    ensures r.Failure? ==> r.error == KeyError(FirstMissing(records, RequiredColumns).value)
    ensures r.Success? ==> multiset(Unindexed(r.value)) == multiset(FullRows(records))
    ensures r.Success? ==> SortedByKey(Unindexed(r.value))
    ensures r.Success? ==> forall i :: 0 <= i < |r.value| ==> r.value[i] == SetIndex(Unindexed(r.value)[i])
    ensures r.Success? ==> TableSorted(r.value)
  {
    match FirstMissing(records, RequiredColumns)
    case Some(column) => Failure(KeyError(column))
    case None =>
      var sorted := SortRows(FilterGroups(records, target));
      var table := seq(|sorted|, i requires 0 <= i < |sorted| => SetIndex(sorted[i]));
      TableFacts(sorted, table);
      Success(table)
  }

  /**
   * A successful table holds every record with a full group key exactly as
   * often as the records do, and no other row; if every record has a full
   * group key, its rows are a permutation of the records.
   */
  lemma MatchRecordsRows(records: seq<Row>, target: set<string>)
    requires MatchRecords(records, target).Success?
    ensures forall row :: multiset(Unindexed(MatchRecords(records, target).value))[row] ==
                          if FullGroupKey(row) then multiset(records)[row] else 0
    ensures (forall row :: row in records ==> FullGroupKey(row)) ==>
      multiset(Unindexed(MatchRecords(records, target).value)) == multiset(records)
  {
    FullRowsCounts(records);
    if forall row :: row in records ==> FullGroupKey(row) {
      FullRowsAllFull(records);
    }
  }

  lemma TableFacts(sorted: seq<Row>, table: Table)
    requires SortedByKey(sorted)
    requires |table| == |sorted| && forall i :: 0 <= i < |sorted| ==> table[i] == SetIndex(sorted[i])
    ensures Unindexed(table) == sorted
    ensures TableSorted(table)
  {
    forall i | 0 <= i < |sorted|
      ensures ResetIndex(table[i]) == sorted[i] && RowKey(table[i]) == SortKey(sorted[i])
    {
      ResetSetIndex(sorted[i]);
      RowKeyOfSetIndex(sorted[i]);
    }
  }

  /** `xs` holds exactly the members of `s`, in some order: one way `list` can turn a set into a list. */
  ghost predicate Lists(xs: seq<string>, s: set<string>)
  {
    forall x :: x in xs <==> x in s
  }

  /** `set(variable_id)`, the variables every run is meant to have. */
  function TargetSet(variableIds: seq<string>): set<string>
  {
    set v | v in variableIds
  }

  /**
   * What `cmip6_match_all_variables` returns for a given search: the stream's
   * error when a page fails or does not flatten, and otherwise the table
   * the chain of line 87 makes of every record the search yields.
   */
  ghost function MatchResult(server: Server, args: SearchArgs, target: set<string>)
    : Result<Table, MatchError>
    requires Stops(server, args)
  {
    var n := PageCount(server, args);
    Conclude(PageOutcome(server, args, n - 1), Yielded(server, args, n), target)
  }

  /** The result once the stream has ended: its error, or the table of the records it yielded. */
  function Conclude(outcome: Outcome, records: seq<Row>, target: set<string>): Result<Table, MatchError>
  {
    match outcome
    case Failed(e) => Failure(FetchFailed(e))
    case Done => MatchRecords(records, target)
  }

  /**
   * `cmip6_match_all_variables`: build the field set, list it, stream the
   * search, and turn the records into the filtered, sorted, indexed table.
   * A failed request or a flattening error aborts with that error.
   */
  method MatchAllVariables(variableIds: seq<string>, extraFields: seq<string>,
                           facets: map<string, seq<string>>, server: Server)
    returns (fieldList: seq<string>, result: Result<Table, MatchError>)
    requires facets.Keys !! ReservedFacetNames
    requires forall fieldList: seq<string> {:trigger MatchSearch(variableIds, fieldList, facets)} ::
      Lists(fieldList, FieldSet(extraFields, facets.Keys)) ==> Stops(server, MatchSearch(variableIds, fieldList, facets))
    ensures |fieldList| == |FieldSet(extraFields, facets.Keys)|
    ensures Lists(fieldList, FieldSet(extraFields, facets.Keys))
    ensures forall i, j :: 0 <= i < j < |fieldList| ==> fieldList[i] != fieldList[j]
    ensures result == MatchResult(server, MatchSearch(variableIds, fieldList, facets), TargetSet(variableIds))
  {
    var fields := FieldSet(extraFields, facets.Keys);
    fieldList := ListOfSet(fields);
    assert Lists(fieldList, fields);
    result := SearchAndMatch(variableIds, fieldList, facets, server);
  }

  /** Lines 70-89: stream the search for the given field list and build the table from its records. */
  method SearchAndMatch(variableIds: seq<string>, fieldList: seq<string>,
                        facets: map<string, seq<string>>, server: Server)
    returns (result: Result<Table, MatchError>)
    requires facets.Keys !! ReservedFacetNames
    requires Stops(server, MatchSearch(variableIds, fieldList, facets))
    ensures result == MatchResult(server, MatchSearch(variableIds, fieldList, facets), TargetSet(variableIds))
  {
    var args := MatchSearch(variableIds, fieldList, facets);
    MatchSearchKeywords(variableIds, fieldList, facets);
    var requests, records, outcome := ResultsIter(server, args);
    result := Conclude(outcome, records, TargetSet(variableIds));
  }
}
