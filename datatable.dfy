/**
  The generic table component: per-column text filters, a sort column that
  toggles between ascending and descending, pages of ten rows, and the CSV
  download of the unfiltered rows. The component's state lives in a
  `TableView`; the rows themselves are passed in, as they are by the pages.
 */
module DataTable {
  import opened Wrappers
  import opened Text
  import opened Json
  import opened Seqs
  import opened CsvExport

  // ---------------------------------------------------------------------------
  // Filtering

  /** `String(row[key] || '')`: a missing or falsy cell reads as "". */
  function CellText(row: Row, key: string): string {
    if key in row && Truthy(row[key]) then JsString(row[key]) else ""
  }

  /** A row passes when every non-empty filter occurs in its cell, both lower-cased. */
  predicate Passes(row: Row, filters: map<string, string>) {
    forall k :: k in filters && filters[k] != "" ==> Contains(Lower(CellText(row, k)), Lower(filters[k]))
  }

  /** The rows that pass the filters, in their original order. */
  function Filtered(data: seq<Row>, filters: map<string, string>): (r: seq<Row>)
    ensures |r| <= |data|
    ensures forall row :: row in r <==> row in data && Passes(row, filters)
  {
    Where(data, row => Passes(row, filters))
  }

  /**
    The filter keeps the rows' order: filtering two runs of rows one after
    the other is filtering each run, and a single row is kept exactly when
    it passes, so every passing row appears once per occurrence, in place.
   */
  lemma FilteredInOrder(a: seq<Row>, b: seq<Row>, row: Row, filters: map<string, string>)
    ensures Filtered(a + b, filters) == Filtered(a, filters) + Filtered(b, filters)
    ensures Filtered([row], filters) == if Passes(row, filters) then [row] else []
  {
    WhereAppend(a, b, r => Passes(r, filters));
    WhereOne(row, r => Passes(r, filters));
  }

  /** Empty filters are ignored: with no non-empty filter every row is shown, in order. */
  lemma EmptyFiltersKeepAll(data: seq<Row>, filters: map<string, string>)
    requires forall k :: k in filters ==> filters[k] == ""
    ensures Filtered(data, filters) == data
  {
    WhereAll(data, row => Passes(row, filters));
  }

  /** Because `0 || ''` is "", a cell holding the number 0 never matches the filter "0". */
  lemma ZeroCellMissesZeroFilter(row: Row, key: string, filters: map<string, string>)
    requires key in row && row[key] == Num(0)
    requires key in filters && filters[key] == "0"
    ensures !Passes(row, filters)
  {
    assert CellText(row, key) == "";
    assert Lower("0") == "0";
    assert !IsPrefix("0", "");
  }

  // ---------------------------------------------------------------------------
  // Sorting

  datatype Direction = Asc | Desc
  datatype SortConfig = SortConfig(key: string, direction: Direction)

  /**
    `a < b` on two cells: numbers by value, strings in code-unit order; a
    missing cell or cells of different kinds are not ordered.
   */
  predicate CellBefore(a: Option<Json>, b: Option<Json>) {
    && a.Some? && b.Some?
    && ((a.value.Num? && b.value.Num? && a.value.n < b.value.n)
        || (a.value.Str? && b.value.Str? && Less(a.value.s, b.value.s)))
  }

  /** The comparator as an order on rows: by the key's cell, reversed for descending. */
  function RowBefore(config: SortConfig): (Row, Row) -> bool {
    (x: Row, y: Row) =>
      if config.direction == Asc then CellBefore(Cell(x, config.key), Cell(y, config.key))
      else CellBefore(Cell(y, config.key), Cell(x, config.key))
  }

  lemma RowBeforeStrict(config: SortConfig)
    ensures StrictOrder(RowBefore(config))
  {
    var before := RowBefore(config);
    forall a ensures !before(a, a) {
      var c := Cell(a, config.key);
      if c.Some? && c.value.Str? {
        LessIrreflexive(c.value.s);
      }
    }
    forall a, b, c | before(a, b) && before(b, c) ensures before(a, c) {
      var x, y, z := Cell(a, config.key), Cell(b, config.key), Cell(c, config.key);
      if x.Some? && x.value.Str? && y.Some? && y.value.Str? && z.Some? && z.value.Str? {
        if config.direction == Asc {
          LessTransitive(x.value.s, y.value.s, z.value.s);
        } else {
          LessTransitive(z.value.s, y.value.s, x.value.s);
        }
      }
    }
  }

  /** `[...filtered].sort(cmp)` (stable), or the filtered order when no column is sorted. */
  function Sorted(filtered: seq<Row>, config: Option<SortConfig>): seq<Row> {
    if config.None? then filtered else SortBy(filtered, RowBefore(config.value))
  }

  /** The sorted rows are the filtered rows, reordered so that none comes after one it goes before. */
  lemma SortedIsOrderedPermutation(filtered: seq<Row>, config: Option<SortConfig>)
    ensures multiset(Sorted(filtered, config)) == multiset(filtered)
    ensures |Sorted(filtered, config)| == |filtered|
    ensures config.None? ==> Sorted(filtered, config) == filtered
    ensures config.Some? ==> SortedBy(Sorted(filtered, config), RowBefore(config.value))
  {
    if config.Some? {
      RowBeforeStrict(config.value);
      SortBySorted(filtered, RowBefore(config.value));
    }
  }

  /** `handleSort`: the same column again flips the direction, another column starts ascending. */
  function NextSort(current: Option<SortConfig>, key: string): (r: SortConfig)
    ensures r.key == key
    ensures current.Some? && current.value.key == key ==> r.direction != current.value.direction
    ensures !(current.Some? && current.value.key == key) ==> r.direction == Asc
  {
    if current.Some? && current.value.key == key then
      SortConfig(key, if current.value.direction == Asc then Desc else Asc)
    else SortConfig(key, Asc)
  }

  /** Sorting the same column twice comes back to the first direction. */
  lemma SortTwiceRestores(config: SortConfig)
    ensures NextSort(Some(NextSort(Some(config), config.key)), config.key) == config
  {
  }

  // ---------------------------------------------------------------------------
  // Pages

  /** Rows per page. */
  const PageSize: nat := 10

  /** `Math.ceil(count / 10)`. */
  function TotalPages(count: nat): (r: nat)
    ensures r * PageSize >= count && (r == 0 || (r - 1) * PageSize < count)
  {
    (count + PageSize - 1) / PageSize
  }

  /**
    `sorted.slice((page - 1) * 10, (page - 1) * 10 + 10)`. Page 0 (which
    the next-page button can reach when nothing is shown) slices from -10
    to 0, which is empty.
   */
  function PageRows(sorted: seq<Row>, page: nat): (r: seq<Row>)
    ensures |r| <= PageSize
    ensures page >= 1 ==> forall i :: 0 <= i < |r| ==>
      (page - 1) * PageSize + i < |sorted| && r[i] == sorted[(page - 1) * PageSize + i]
    ensures page == 0 ==> r == []
  {
    if page == 0 then [] else Slice(sorted, (page - 1) * PageSize, (page - 1) * PageSize + PageSize)
  }

  /** Every row is on exactly one page up to the last: row i is at place i % 10 of page i / 10 + 1. */
  lemma RowOnItsPage(sorted: seq<Row>, i: nat)
    requires i < |sorted|
    ensures var p := i / PageSize + 1;
      && 1 <= p <= TotalPages(|sorted|)
      && i % PageSize < |PageRows(sorted, p)|
      && PageRows(sorted, p)[i % PageSize] == sorted[i]
  {
    var p := i / PageSize + 1;
    assert (p - 1) * PageSize + i % PageSize == i;
    var start := (p - 1) * PageSize;
    assert start <= i < start + PageSize;
    assert |PageRows(sorted, p)| == (if start + PageSize < |sorted| then PageSize else |sorted| - start);
  }

  // ---------------------------------------------------------------------------
  // The component state

  /** The keys with a non-empty filter, in the order the filters were first set. */
  function ActiveOf(keys: seq<string>, filters: map<string, string>): (r: seq<string>)
    requires forall k :: k in keys ==> k in filters
    ensures forall k :: k in r <==> k in keys && filters[k] != ""
    ensures |r| <= |keys|
    decreases |keys|
  {
    if keys == [] then []
    else if filters[keys[0]] != "" then [keys[0]] + ActiveOf(keys[1..], filters)
    else ActiveOf(keys[1..], filters)
  }

  class TableView {
    var sortConfig: Option<SortConfig>
    var currentPage: int
    /** The filter text per column key; `filterOrder` is the object's key order. */
    var filters: map<string, string>
    var filterOrder: seq<string>
    var activeFilters: seq<string>

    ghost predicate Valid()
      reads this
    {
      && currentPage >= 0
      && Distinct(filterOrder)
      && (forall k :: k in filterOrder <==> k in filters)
      && activeFilters == ActiveOf(filterOrder, filters)
    }

    /** The rows after filtering and sorting. */
    function Shown(data: seq<Row>): seq<Row>
      reads this
    {
      Sorted(Filtered(data, filters), sortConfig)
    }

    /** The rows of the current page. */
    function Visible(data: seq<Row>): seq<Row>
      reads this
      requires Valid()
    {
      PageRows(Shown(data), currentPage)
    }

    /** No sort, page 1, no filters. */
    constructor()
      ensures Valid()
      ensures sortConfig == None && currentPage == 1 && filters == map[] && activeFilters == []
    {
      sortConfig := None;
      currentPage := 1;
      filters := map[];
      filterOrder := [];
      activeFilters := [];
    }

    /**
      `handleFilterChange`: set one filter and recompute the active list;
      the new filters object sends the view back to page 1.
     */
    method ChangeFilter(key: string, value: string)
      requires Valid()
      modifies this
      ensures Valid()
      ensures filters == old(filters)[key := value]
      ensures filterOrder == if key in old(filters) then old(filterOrder) else old(filterOrder) + [key]
      ensures forall k :: k in activeFilters <==> k in filters && filters[k] != ""
      ensures currentPage == 1
      ensures sortConfig == old(sortConfig)
    {
      if key !in filters {
        filterOrder := filterOrder + [key];
      }
      filters := filters[key := value];
      activeFilters := ActiveOf(filterOrder, filters);
      currentPage := 1;
    }

    /** "Clear All": no filters, none active, page 1. */
    method ClearFilters()
      requires Valid()
      modifies this
      ensures Valid()
      ensures filters == map[] && activeFilters == [] && currentPage == 1
      ensures sortConfig == old(sortConfig)
    {
      filters := map[];
      filterOrder := [];
      activeFilters := [];
      currentPage := 1;
    }

    /** `handleSort`. */
    method SortOn(key: string)
      requires Valid()
      modifies this
      ensures Valid()
      ensures sortConfig == Some(NextSort(old(sortConfig), key))
      ensures currentPage == old(currentPage) && filters == old(filters) && activeFilters == old(activeFilters)
    {
      sortConfig := Some(NextSort(sortConfig, key));
    }

    /** `handlePrevPage`: one page back, never below 1. */
    method PrevPage()
      requires Valid()
      modifies this
      ensures Valid()
      ensures currentPage >= 1
      ensures currentPage == if old(currentPage) - 1 > 1 then old(currentPage) - 1 else 1
      ensures sortConfig == old(sortConfig) && filters == old(filters) && activeFilters == old(activeFilters)
    {
      currentPage := if currentPage - 1 > 1 then currentPage - 1 else 1;
    }

    /** `handleNextPage`: one page on, never past the last page of the shown rows. */
    method NextPage(data: seq<Row>)
      requires Valid()
      modifies this
      ensures Valid()
      ensures currentPage <= TotalPages(|old(Shown(data))|)
      ensures currentPage == if old(currentPage) + 1 < TotalPages(|old(Shown(data))|) then old(currentPage) + 1
                             else TotalPages(|old(Shown(data))|)
      ensures sortConfig == old(sortConfig) && filters == old(filters) && activeFilters == old(activeFilters)
    {
      var total := TotalPages(|Shown(data)|);
      currentPage := if currentPage + 1 < total then currentPage + 1 else total;
    }

    /** The CSV branch of `handleExport`: every row of `data`, unfiltered and in its own order. */
    method ExportCsv(headers: seq<string>, keys: seq<string>, data: seq<Row>) returns (output: string)
      ensures output == Document(headers, keys, data)
    {
      output := Export(headers, keys, data);
    }
  }

  /** With nothing to show, the next-page button moves to page 0, where the view is empty. */
  lemma NextPageOnNothingShown(data: seq<Row>, filters: map<string, string>, config: Option<SortConfig>)
    requires Sorted(Filtered(data, filters), config) == []
    ensures TotalPages(|Sorted(Filtered(data, filters), config)|) == 0
    ensures PageRows(Sorted(Filtered(data, filters), config), 0) == []
  {
  }
}
