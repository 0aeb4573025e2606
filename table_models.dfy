/** The table model and the pagination proxy of src/pandas_model.py. The
    proxy sits on the search proxy; the number of rows that survive the
    search (`total_source_rows`) is an input to every operation that reads
    it. */
module TableModels {
  import opened Wrappers
  import opened Seqs

  // ---------------------------------------------------------------------------
  //  PandasModel
  // ---------------------------------------------------------------------------

  /** A loaded table: its column names and its rows of cells. */
  datatype Table = Table(columns: seq<string>, rows: seq<seq<string>>)

  /** `pd.DataFrame()`. */
  const EmptyTable: Table := Table([], [])

  /** The read-only model over one table, replaced wholesale on reload. */
  class PandasModel {
    var table: Table

    /** A model over the given table, or over an empty one. */
    constructor (dataframe: Option<Table>)
      ensures table == if dataframe.Some? then dataframe.value else EmptyTable
    {
      table := if dataframe.Some? then dataframe.value else EmptyTable;
    }

    /** `rowCount`: no rows under a valid parent (the table is flat), else
        the number of rows. */
    function RowCount(parentValid: bool): (n: nat)
      reads this
      ensures parentValid ==> n == 0
      ensures !parentValid ==> n == |table.rows|
    {
      if parentValid then 0 else |table.rows|
    }

    /** `columnCount`: no columns under a valid parent, else the number of
        columns. */
    function ColumnCount(parentValid: bool): (n: nat)
      reads this
      ensures parentValid ==> n == 0
      ensures !parentValid ==> n == |table.columns|
    {
      if parentValid then 0 else |table.columns|
    }

    /** `update_dataframe`: the new table replaces the old one. */
    method UpdateDataframe(dataframe: Table)
      modifies this
      ensures table == dataframe
    {
      table := dataframe;
    }

    /** `clear`: afterwards the model shows nothing. */
    method Clear()
      modifies this
      ensures table == EmptyTable
      ensures RowCount(false) == 0 && ColumnCount(false) == 0
    {
      UpdateDataframe(EmptyTable);
    }
  }

  // ---------------------------------------------------------------------------
  //  Page arithmetic
  // ---------------------------------------------------------------------------

  /** `page_count`: the number of pages of `size` rows needed for `total`
      rows, that is ceil(total / size); none for no rows. */
  function PageCount(total: nat, size: int): (n: nat)
    requires size >= 1
    ensures total == 0 <==> n == 0
    ensures n > 0 ==> (n - 1) * size < total <= n * size
  {
    if total == 0 then 0 else (total + size - 1) / size
  }

  /** `showing_from`: the 1-based number of the first row on the page, or 0
      without rows. */
  function ShowingFrom(page: int, size: int, total: nat): int {
    if total == 0 then 0 else page * size + 1
  }

  /** `showing_to`: the 1-based number of the last row on the page. */
  function ShowingTo(page: int, size: int, total: nat): int {
    Min((page + 1) * size, total)
  }

  /** `filterAcceptsRow`: a source row is shown exactly when it lies in the
      page's window of `size` rows. */
  function AcceptsRow(page: int, size: int, row: int): bool {
    page * size <= row < page * size + size
  }

  /** The targets of `go_to_page`: the requested page when it exists, else
      the nearest end of the range [0, max(0, pageCount - 1)]. */
  function ClampPage(requested: int, pageCount: nat): (p: nat)
    ensures p <= Max(0, pageCount - 1)
    ensures 0 <= requested <= pageCount - 1 ==> p == requested
    ensures requested < 0 ==> p == 0
    ensures requested > Max(0, pageCount - 1) ==> p == Max(0, pageCount - 1)
  {
    Max(0, Min(requested, Max(0, pageCount - 1)))
  }

  /** The page after `next_page`: one further unless it is the last. */
  function Forward(page: int, pageCount: nat): (r: int)
    ensures r == page || r == page + 1
    ensures r == page + 1 <==> page < pageCount - 1
  {
    if page < pageCount - 1 then page + 1 else page
  }

  /** The page after `previous_page`: one back unless it is the first. */
  function Backward(page: int): (r: int)
    ensures r == page || r == page - 1
    ensures r == page - 1 <==> page > 0
  {
    if page > 0 then page - 1 else page
  }

  /** Stepping keeps a page that exists among the pages. */
  lemma StepsStayInRange(page: int, pageCount: nat)
    requires 0 <= page < pageCount
    ensures 0 <= Forward(page, pageCount) < pageCount
    ensures 0 <= Backward(page) < pageCount
  {
  }

  /** `previous_page` undoes a `next_page` that moved, and the other way
      round. */
  lemma StepsUndo(page: int, pageCount: nat)
    requires 0 <= page
    ensures Forward(page, pageCount) != page ==> Backward(Forward(page, pageCount)) == page
    ensures Backward(page) != page && page < pageCount ==> Forward(Backward(page), pageCount) == page
  {
  }

  /** The rows accepted among the first `total` are exactly those numbered
      `showing_from` to `showing_to` (1-based). */
  lemma AcceptedRowsAreShown(page: int, size: int, total: nat, row: int)
    requires 0 <= row < total
    ensures AcceptsRow(page, size, row) <==>
      ShowingFrom(page, size, total) <= row + 1 <= ShowingTo(page, size, total)
  {
  }

  /** Every row is on exactly one page, and that page exists. */
  lemma {:induction false} EveryRowOnOnePage(size: int, total: nat, row: nat, other: int)
    requires size >= 1 && row < total
    ensures row / size < PageCount(total, size)
    ensures AcceptsRow(row / size, size, row)
    ensures AcceptsRow(other, size, row) ==> other == row / size
  {
    var p, n := row / size, PageCount(total, size);
    assert row == p * size + row % size;
    assert p * size + size == (p + 1) * size;
    MulOrder(p, n, size);
    MulOrder(other, p + 1, size);
    MulOrder(p, other + 1, size);
    assert other * size + size == (other + 1) * size;
  }

  /** Multiplying by a positive size keeps the order of two numbers. */
  lemma MulOrder(a: int, b: int, size: int)
    requires size >= 1
    ensures a < b <==> a * size < b * size
  {
    assert b * size - a * size == (b - a) * size;
  }

  /** On an existing page the shown range is non-empty and within the rows;
      on the last page it ends at the last row. */
  lemma {:induction false} ShownRangeOnExistingPage(page: nat, size: int, total: nat)
    requires size >= 1 && page < PageCount(total, size)
    ensures 1 <= ShowingFrom(page, size, total) <= ShowingTo(page, size, total) <= total
    ensures page == PageCount(total, size) - 1 ==> ShowingTo(page, size, total) == total
  {
    var n := PageCount(total, size);
    MulOrder(page, n, size);
    MulOrder(page + 1, n, size);
    if page < n - 1 {
      assert page * size + 1 <= (page + 1) * size;
    }
  }

  /** Nine rows in pages of three: three pages; asking for page 5 lands on
      the last page (index 2), which shows rows 7 to 9; without rows the
      range is (0, 0) and there is nowhere to step. */
  lemma NineRowsInThrees()
    ensures PageCount(9, 3) == 3
    ensures ClampPage(5, PageCount(9, 3)) == 2
    ensures ShowingFrom(2, 3, 9) == 7 && ShowingTo(2, 3, 9) == 9
    ensures PageCount(0, 3) == 0 && ShowingFrom(0, 3, 0) == 0 && ShowingTo(0, 3, 0) == 0
    ensures Forward(0, PageCount(0, 3)) == 0 && Backward(0) == 0
  {
  }

  // ---------------------------------------------------------------------------
  //  PaginationProxyModel
  // ---------------------------------------------------------------------------

  /** The page proxy's state: the current page and the page size. */
  class PaginationProxyModel {
    var page: int
    var pageSize: int

    /** The state every method keeps: a page index and a positive size. */
    predicate Valid()
      reads this
    {
      page >= 0 && pageSize >= 1
    }

    /** The first page, fifty rows per page. */
    constructor ()
      ensures Valid() && page == 0 && pageSize == 50
    {
      page := 0;
      pageSize := 50;
    }

    /** `page_count` over the current source row count. */
    function CurrentPageCount(total: nat): nat
      reads this
      requires Valid()
    {
      PageCount(total, pageSize)
    }

    /** `set_page_size`: a size below one becomes one, and the view returns
        to the first page. */
    method SetPageSize(size: int)
      modifies this
      ensures Valid()
      ensures pageSize == Max(1, size) && page == 0
    {
      pageSize := Max(1, size);
      page := 0;
    }

    /** `go_to_page`: the requested page, clamped to the existing pages. */
    method GoToPage(requested: int, total: nat)
      requires Valid()
      modifies this
      ensures Valid() && pageSize == old(pageSize)
      ensures page == ClampPage(requested, PageCount(total, pageSize))
    {
      var maxPage := Max(0, CurrentPageCount(total) - 1);
      page := Max(0, Min(requested, maxPage));
    }

    /** `first_page`: `go_to_page(0)`. */
    method FirstPage(total: nat)
      requires Valid()
      modifies this
      ensures Valid() && pageSize == old(pageSize) && page == 0
    {
      GoToPage(0, total);
    }

    /** `next_page`: one page further and `true`, unless already on the last
        page (or there are no pages), then `false` and nothing changes. */
    method NextPage(total: nat) returns (moved: bool)
      requires Valid()
      modifies this
      ensures Valid() && pageSize == old(pageSize)
      ensures moved <==> old(page) < PageCount(total, pageSize) - 1
      ensures page == Forward(old(page), PageCount(total, pageSize))
    {
      if page < CurrentPageCount(total) - 1 {
        page := page + 1;
        return true;
      }
      return false;
    }

    /** `previous_page`: one page back and `true`, unless on the first page,
        then `false` and nothing changes. */
    method PreviousPage() returns (moved: bool)
      requires Valid()
      modifies this
      ensures Valid() && pageSize == old(pageSize)
      ensures moved <==> old(page) > 0
      ensures page == Backward(old(page))
    {
      if page > 0 {
        page := page - 1;
        return true;
      }
      return false;
    }

    /** `showing_from` on the current state. */
    function CurrentShowingFrom(total: nat): int
      reads this
    {
      ShowingFrom(page, pageSize, total)
    }

    /** `showing_to` on the current state. */
    function CurrentShowingTo(total: nat): int
      reads this
    {
      ShowingTo(page, pageSize, total)
    }

    /** `filterAcceptsRow` on the current state (the source parent is not
        consulted). */
    function FilterAcceptsRow(sourceRow: int): bool
      reads this
    {
      AcceptsRow(page, pageSize, sourceRow)
    }
  }
}
