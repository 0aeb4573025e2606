/** The older single-window viewer of app.py, side by side with the newer
    modules: its narrower type mapping, its schema table, its file-name
    rule, its cursor-based paging over `dataindex`/`datarows`, and its
    one-directional schema comparison. */
module LegacyApp {
  import opened Wrappers
  import opened Text
  import opened Seqs
  import Schema
  import TableModels
  import MainWindow

  // ---------------------------------------------------------------------------
  //  get_spark_type
  // ---------------------------------------------------------------------------

  /** The three Spark type names the older mapping can produce. */
  const LegacyTypes: set<string> := {"integer", "double", "string"}

  const LegacyIntegerNames: seq<string> :=
    ["int64", "int32", "int16", "int8", "uint8", "uint16", "uint32", "uint64", "integer", "int"]
  const LegacyUnsignedNames: set<string> := {"uint8", "uint16", "uint32", "uint64"}
  const LegacyDoubleNames: seq<string> := ["float64", "float32", "float16", "double"]
  const LegacyStringNames: seq<string> := ["object", "string"]

  lemma LegacyIntegerNamesPrefixed(l: string)
    requires l in LegacyIntegerNames
    ensures StartsWith(l, "int") || l in LegacyUnsignedNames
  {
  }

  lemma LegacyDoubleNamesPrefixed(l: string)
    requires l in LegacyDoubleNames
    ensures StartsWith(l, "float") || l == "double"
  {
  }

  lemma LegacyUnsignedPrefixed(l: string)
    requires l in LegacyUnsignedNames
    ensures StartsWith(l, "uint") && l in LegacyIntegerNames
  {
  }

  /** The older `get_spark_type`: integer for an `int` prefix or a listed
      integer name (which adds the four unsigned widths), double for a
      `float` prefix or `double`, and string for everything else, so never
      boolean or timestamp. */
  function LegacySparkType(dtype: string): (r: string)
    ensures r in LegacyTypes
    ensures r == "integer" <==> StartsWith(Lower(dtype), "int") || Lower(dtype) in LegacyUnsignedNames
    ensures r == "double" <==> StartsWith(Lower(dtype), "float") || Lower(dtype) == "double"
  {
    var l := Lower(dtype);
    Schema.PrefixFirstChar(l, "int");
    Schema.PrefixFirstChar(l, "uint");
    Schema.PrefixFirstChar(l, "float");
    assert l in LegacyIntegerNames ==> StartsWith(l, "int") || l in LegacyUnsignedNames by {
      if l in LegacyIntegerNames {
        LegacyIntegerNamesPrefixed(l);
      }
    }
    assert l in LegacyDoubleNames ==> StartsWith(l, "float") || l == "double" by {
      if l in LegacyDoubleNames {
        LegacyDoubleNamesPrefixed(l);
      }
    }
    assert l in LegacyUnsignedNames ==> StartsWith(l, "uint") && l in LegacyIntegerNames by {
      if l in LegacyUnsignedNames {
        LegacyUnsignedPrefixed(l);
      }
    }
    if StartsWith(l, "int") || l in LegacyIntegerNames then "integer"
    else if StartsWith(l, "float") || l in LegacyDoubleNames then "double"
    else if StartsWith(l, "str") || l in LegacyStringNames then "string"
    else "string"
  }

  /** The newer mapping refines the older one: they agree on double, every
      older integer is a newer integer, and every name the newer mapping
      does not call a number is a string to the older one. The only names
      the newer mapping adds to integer are other `uint` spellings. */
  lemma LegacyRefinedBySparkType(dtype: string)
    ensures LegacySparkType(dtype) == "double" <==> Schema.GetSparkType(dtype) == "double"
    ensures LegacySparkType(dtype) == "integer" ==> Schema.GetSparkType(dtype) == "integer"
    ensures Schema.GetSparkType(dtype) !in {"integer", "double"} ==> LegacySparkType(dtype) == "string"
    ensures Schema.GetSparkType(dtype) == "integer" && LegacySparkType(dtype) != "integer" ==>
      StartsWith(Lower(dtype), "uint") && Lower(dtype) !in LegacyUnsignedNames
  {
    var l := Lower(dtype);
    if l in LegacyUnsignedNames {
      LegacyUnsignedPrefixed(l);
    }
  }

  /** Boolean and datetime columns are strings to the older mapping. */
  lemma LegacyHasNoBooleanOrTimestamp()
    ensures LegacySparkType("bool") == "string" && Schema.GetSparkType("bool") == "boolean"
    ensures LegacySparkType("datetime64[ns]") == "string"
      && Schema.GetSparkType("datetime64[ns]") == "timestamp"
  {
    assert Lower("bool") == "bool";
    assert Lower("datetime64[ns]") == "datetime64[ns]";
    Schema.PrefixFirstChar("bool", "int");
    Schema.PrefixFirstChar("bool", "float");
    Schema.PrefixFirstChar("datetime64[ns]", "int");
    Schema.PrefixFirstChar("datetime64[ns]", "float");
  }

  // ---------------------------------------------------------------------------
  //  get_schema_df
  // ---------------------------------------------------------------------------

  /** The older `get_schema_df`: a loop appending one row per column, in
      column order. Its rows differ from the newer table's only in the Spark
      type, and there only as `LegacyRefinedBySparkType` allows. */
  method LegacyGetSchemaDf(columns: seq<Schema.ColumnInfo>) returns (rows: seq<Schema.ColumnSchema>)
    ensures |rows| == |columns|
    ensures forall i :: 0 <= i < |columns| ==>
      rows[i] == Schema.ColumnSchema(columns[i].name, columns[i].dtype, LegacySparkType(columns[i].dtype))
    ensures forall i :: 0 <= i < |columns| ==>
      rows[i].columnName == Schema.GetSchemaDf(columns)[i].columnName
      && rows[i].pandasType == Schema.GetSchemaDf(columns)[i].pandasType
  {
    rows := [];
    for i := 0 to |columns|
      invariant |rows| == i
      invariant forall k :: 0 <= k < i ==>
        rows[k] == Schema.ColumnSchema(columns[k].name, columns[k].dtype, LegacySparkType(columns[k].dtype))
    {
      var typePandas := columns[i].dtype;
      var typeSpark := LegacySparkType(typePandas);
      rows := rows + [Schema.ColumnSchema(columns[i].name, typePandas, typeSpark)];
    }
  }

  // ---------------------------------------------------------------------------
  //  set_data_file_info
  // ---------------------------------------------------------------------------

  /** `set_data_file_info`: the extension is the text after the last dot of
      the whole path; the name is the last path segment (split on `/`, or on
      `\` when the path has no `/`) up to its first dot. */
  function LegacyFileInfo(path: string): (r: MainWindow.FileInfo)
    ensures r.ext == AfterLast(path, '.') && '.' !in r.ext
    ensures '.' !in r.name && '/' !in r.name
    ensures '/' !in path ==> '\\' !in r.name
    ensures |r.name| <= |LegacyFileName(path)| && r.name == LegacyFileName(path)[..|r.name|]
    ensures |r.name| < |LegacyFileName(path)| ==> LegacyFileName(path)[|r.name|] == '.'
  {
    var file := LegacyFileName(path);
    var name := BeforeFirst(file, '.');
    assert forall k :: 0 <= k < |name| ==> name[k] == file[k];
    MainWindow.FileInfo(name, AfterLast(path, '.'))
  }

  /** The last path segment: after the last `/`, or after the last `\` when
      the path has no `/`. */
  function LegacyFileName(path: string): (file: string)
    ensures '/' !in file
    ensures '/' !in path ==> '\\' !in file
    ensures '/' in path ==> file == AfterLast(path, '/')
    ensures '/' !in path && '\\' in path ==> file == AfterLast(path, '\\')
    ensures '/' !in path && '\\' !in path ==> file == path
  {
    if '/' in path then AfterLast(path, '/')
    else if '\\' in path then AfterLast(path, '\\')
    else path
  }

  /** `s.split(c)[0]` is the only `c`-free prefix that is all of `s` or is
      followed by a `c`. */
  lemma BeforeFirstUnique(s: string, c: char, r: string)
    requires c !in r && |r| <= |s| && r == s[..|r|]
    requires |r| < |s| ==> s[|r|] == c
    ensures BeforeFirst(s, c) == r
  {
  }

  /** The text before the first `c` of `head + [c] + s`, for a `c`-free head. */
  lemma BeforeFirstOfAppend(head: string, c: char, s: string)
    requires c !in head
    ensures BeforeFirst(head + [c] + s, c) == head
  {
    var t := head + [c] + s;
    assert t[..|head|] == head;
    assert t[|head|] == c;
    BeforeFirstUnique(t, c, head);
  }

  /** A path `dir/file` with a slash-free `file`: both rules take `file` as
      the base name. */
  lemma SlashPath(dir: string, file: string)
    requires '/' !in file
    ensures MainWindow.Basename(dir + "/" + file) == file
    ensures LegacyFileName(dir + "/" + file) == file
  {
    MainWindow.BasenameOfPath(dir, file);
    assert '/' in dir + "/" + file by {
      assert (dir + "/" + file)[|dir|] == '/';
    }
  }

  /** For `dir/name.ext` with one dot in the file name, the older and the
      newer rule agree. */
  lemma LegacyFileInfoAgrees(dir: string, name: string, ext: string)
    requires name != [] && '.' !in name && '/' !in name && '.' !in ext && '/' !in ext
    requires !EndsWith(Lower(name + "." + ext), ".csv.gz")
    ensures LegacyFileInfo(dir + "/" + name + "." + ext) == MainWindow.FileInfo(name, ext)
    ensures MainWindow.ParseFileInfo(dir + "/" + name + "." + ext) == MainWindow.FileInfo(name, ext)
  {
    LegacyFileInfoOfDotted(dir, name, ext);
    MainWindow.ParseFileInfoOfDotted(dir, name, ext);
  }

  lemma LegacyFileInfoOfDotted(dir: string, name: string, ext: string)
    requires name != [] && '.' !in name && '/' !in name && '.' !in ext && '/' !in ext
    ensures LegacyFileInfo(dir + "/" + name + "." + ext) == MainWindow.FileInfo(name, ext)
  {
    var file := name + "." + ext;
    var path := dir + "/" + file;
    assert path == dir + "/" + name + "." + ext;
    assert LegacyFileName(path) == file by {
      assert '/' !in file;
      SlashPath(dir, file);
    }
    assert BeforeFirst(file, '.') == name by {
      DottedFile(name, ext);
    }
    assert AfterLast(path, '.') == ext by {
      AfterLastOfDotted(dir + "/" + name, ext);
    }
  }

  /** A Windows path `dir\name.ext` without any `/`: the name comes from the
      last `\` segment up to its dot. */
  lemma LegacyFileInfoOfWindowsPath(dir: string, name: string, ext: string)
    requires '/' !in dir && name != [] && '.' !in name && '/' !in name && '\\' !in name
    requires '.' !in ext && '/' !in ext && '\\' !in ext
    ensures LegacyFileInfo(dir + "\\" + name + "." + ext) == MainWindow.FileInfo(name, ext)
  {
    var file := name + "." + ext;
    var path := dir + "\\" + file;
    assert path == dir + "\\" + name + "." + ext;
    assert path == dir + ['\\'] + file;
    assert '/' !in path;
    assert path[|dir|] == '\\';
    AfterLastOfAppend(dir, '\\', file);
    assert LegacyFileName(path) == file;
    DottedFile(name, ext);
    AfterLastOfDotted(dir + "\\" + name, ext);
  }

  /** `name.ext` splits at its one dot under both rules. */
  lemma DottedFile(name: string, ext: string)
    requires name != [] && '.' !in name && '.' !in ext
    ensures var file := name + "." + ext;
      BeforeFirst(file, '.') == name && AfterLast(file, '.') == ext
      && !MainWindow.NoExtension(file)
      && file[..|name|] == name && |file| == |name| + 1 + |ext|
  {
    var file := name + "." + ext;
    assert file[..|name|] == name && file[|name|] == '.';
    BeforeFirstUnique(file, '.', name);
    MainWindow.DottedBase(name, ext);
  }

  /** With two extensions (`data.csv.gz`) the rules differ: the older one
      keeps only the last extension, where the newer one keeps `csv.gz`. */
  lemma LegacyKeepsLastExtension(dir: string, name: string, inner: string, ext: string)
    requires '.' !in name && '/' !in name && '/' !in inner && '.' !in ext && '/' !in ext
    ensures LegacyFileInfo(dir + "/" + name + "." + inner + "." + ext) == MainWindow.FileInfo(name, ext)
  {
    var file := name + "." + inner + "." + ext;
    var path := dir + "/" + file;
    assert path == dir + "/" + name + "." + inner + "." + ext;
    assert LegacyFileName(path) == file by {
      assert '/' !in file;
      SlashPath(dir, file);
    }
    assert BeforeFirst(file, '.') == name by {
      assert file[..|name|] == name && file[|name|] == '.';
      BeforeFirstUnique(file, '.', name);
    }
    assert AfterLast(path, '.') == ext by {
      AfterLastOfDotted(dir + "/" + name + "." + inner, ext);
    }
  }

  // ---------------------------------------------------------------------------
  //  Cursor-based paging
  // ---------------------------------------------------------------------------

  /** Where `show_data`'s loop leaves the cursor: up to `limit` rows further,
      but not past the last row and never backwards. */
  function Advance(index: int, limit: nat, rows: int): (next: int)
    ensures next >= index
    ensures index <= rows ==> next <= rows
    ensures index < rows ==> next == Min(index + limit, rows)
    ensures index >= rows ==> next == index
  {
    Max(index, Min(index + limit, rows))
  }

  /** The source rows `from` to `to - 1`, in order. */
  function Range(from: int, to: int): (r: seq<int>)
    ensures |r| == Max(0, to - from)
    ensures forall k :: 0 <= k < |r| ==> r[k] == from + k
  {
    if to <= from then [] else seq(to - from, k requires 0 <= k < to - from => from + k)
  }

  lemma RangeExtend(from: int, to: int)
    requires from <= to
    ensures Range(from, to + 1) == Range(from, to) + [to]
  {
    assert |Range(from, to + 1)| == |Range(from, to) + [to]|;
  }

  /** Starting from the first row, `k` presses of Next leave the cursor at
      `min(k * limit, rows)`: the pages follow each other without gap or
      overlap until the rows run out. */
  function AdvanceTimes(k: nat, limit: nat, rows: nat): int {
    if k == 0 then 0 else Advance(AdvanceTimes(k - 1, limit, rows), limit, rows)
  }

  lemma {:induction false} AdvanceTimesIsPage(k: nat, limit: nat, rows: nat)
    ensures AdvanceTimes(k, limit, rows) == Min(k * limit, rows)
  {
    if k > 0 {
      AdvanceTimesIsPage(k - 1, limit, rows);
      assert (k - 1) * limit + limit == k * limit;
    }
  }

  /** The "Showing X to Y of Z" caption of `set_count_showing`. */
  datatype ShowingLabel = ShowingLabel(from: int, to: int, total: int)

  /** `set_count_showing` as written: from `max(0, dataindex - limit) + 1`
      to `dataindex`, of `datarows`. */
  function CountShowing(index: int, limit: nat, rows: int): (caption: ShowingLabel)
    ensures caption.from >= 1 && caption.to == index && caption.total == rows
    ensures index >= limit ==> caption.from == index - limit + 1
    ensures index < limit ==> caption.from == 1
  {
    ShowingLabel(Max(0, index - limit) + 1, index, rows)
  }

  /** The caption the rows just shown call for: the first of them (1-based)
      to the cursor. */
  function CountShowingShown(start: int, index: int, rows: int): ShowingLabel {
    ShowingLabel(start + 1, index, rows)
  }

  /** The corrected caption names exactly the rows a page showed, whatever its
      length. */
  lemma ShownLabelMatchesRows(start: int, limit: nat, rows: int)
    requires 0 <= start < rows && limit >= 1
    ensures var index := Advance(start, limit, rows);
      var shown := Range(start, index);
      var caption := CountShowingShown(start, index, rows);
      |shown| >= 1 && caption.from == shown[0] + 1 && caption.to == shown[|shown| - 1] + 1
  {
  }

  /** The caption as written is right exactly when a whole page was shown or
      the page started at the first row. */
  lemma CountShowingRightIff(start: int, limit: nat, rows: int)
    requires 0 <= start < rows && limit >= 1
    ensures var index := Advance(start, limit, rows);
      CountShowing(index, limit, rows) == CountShowingShown(start, index, rows) <==>
      index == start + limit || (start == 0 && index <= limit)
  {
  }

  /** 25 rows, 10 per page: the third page shows rows 21 to 25, but the
      caption says 16 to 25. */
  lemma CountShowingPartialPage()
    ensures Advance(20, 10, 25) == 25 && Range(20, 25)[0] + 1 == 21
    ensures CountShowing(25, 10, 25) == ShowingLabel(16, 25, 25)
    ensures CountShowingShown(20, 25, 25) == ShowingLabel(21, 25, 25)
  {
  }

  /** Where `on_page_previous` moves the cursor as written, if it moves it:
      two pages back, or to the first row when that is less than two pages
      but more than one page away. */
  function PreviousTarget(index: int, limit: nat, rows: int): (r: Option<int>)
    ensures r.Some? ==> 0 <= r.value <= index && (limit >= 1 ==> r.value < index)
    ensures rows != 0 && index > 0 && index >= 2 * limit ==> r == Some(index - 2 * limit)
    ensures rows == 0 || index <= 0 || (limit >= 1 && index <= limit) ==> r.None?
    ensures rows != 0 && limit < index < 2 * limit ==> r == Some(0)
  {
    if rows != 0 && index > 0 && index - limit * 2 >= 0 then Some(index - limit * 2)
    else if rows != 0 && index > 0 && index - (limit + 1) >= 0 then Some(0)
    else None
  }

  /** After a whole page `p >= 1` (cursor at `(p + 1) * limit`), Previous
      followed by the re-render shows page `p - 1`. */
  lemma {:induction false} PreviousAfterWholePage(p: nat, limit: nat, rows: nat)
    requires p >= 1 && limit >= 1 && (p + 1) * limit <= rows
    ensures PreviousTarget((p + 1) * limit, limit, rows) == Some((p - 1) * limit)
    ensures Advance((p - 1) * limit, limit, rows) == p * limit
  {
    assert (p + 1) * limit - 2 * limit == (p - 1) * limit;
    assert (p - 1) * limit + limit == p * limit;
    assert p * limit <= (p + 1) * limit;
  }

  /** 25 rows, 10 per page, on the partial third page (cursor 25): Previous
      moves to row 5 and shows rows 6 to 15 instead of the second page. */
  lemma PreviousAfterPartialPage()
    ensures PreviousTarget(25, 10, 25) == Some(5)
    ensures Advance(5, 10, 25) == 15
  {
  }

  /** The first row of the page just shown when paging has kept to pages of
      `limit` rows. */
  function PageStart(index: int, limit: nat): int
    requires index >= 1 && limit >= 1
  {
    ((index - 1) / limit) * limit
  }

  /** Previous as meant: the start of the page before the one just shown,
      and nothing on the first page. */
  function PreviousTargetByPage(index: int, limit: nat, rows: int): Option<int>
    requires limit >= 1
  {
    if rows != 0 && index > 0 && PageStart(index, limit) >= limit
    then Some(PageStart(index, limit) - limit) else None
  }

  /** Euclidean division finds the page a row index lies in. */
  lemma DivOfPage(x: int, limit: nat, p: nat)
    requires limit >= 1 && p * limit <= x < p * limit + limit
    ensures x / limit == p
  {
    var q := x / limit;
    assert x == q * limit + x % limit;
    TableModels.MulOrder(q, p + 1, limit);
    TableModels.MulOrder(p, q + 1, limit);
    assert (p + 1) * limit == p * limit + limit;
    assert (q + 1) * limit == q * limit + limit;
  }

  /** After any page `p` (whole or the partial last one), going back by pages
      shows page `p - 1`, and nothing happens on the first page. */
  lemma {:induction false} PreviousByPageShowsPreviousPage(p: nat, limit: nat, rows: nat)
    requires limit >= 1 && p * limit < rows
    ensures var index := Advance(p * limit, limit, rows);
      PreviousTargetByPage(index, limit, rows) == if p == 0 then None else Some((p - 1) * limit)
  {
    var start := p * limit;
    var index := Advance(start, limit, rows);
    assert start < index <= start + limit;
    DivOfPage(index - 1, limit, p);
    assert PageStart(index, limit) == start;
    if p >= 1 {
      TableModels.MulOrder(0, p, limit);
      assert start - limit == (p - 1) * limit;
    } else {
      assert start == 0;
    }
  }

  /** The older viewer's state: the loaded table, the cursor `dataindex`
      (the row after the last one shown), `datarows`, the header flag, the
      path and the name and extension shown in the title. */
  class LegacyViewer {
    var table: TableModels.Table
    var dataindex: int
    var datarows: int
    var fileHasHeader: bool
    var pathFile: Option<string>
    var fileInfo: Option<MainWindow.FileInfo>

    /** The cursor stays within the rows, a non-empty table's row count is
        `datarows`, and a table was opened from a path. */
    predicate Valid()
      reads this
    {
      0 <= dataindex <= datarows
      && (!MainWindow.IsEmpty(table) ==> datarows == |table.rows| && pathFile.Some?)
    }

    /** `init_gui` and `set_constants`: no data, the cursor at the start,
        and a header row expected. */
    constructor ()
      ensures Valid() && table == TableModels.EmptyTable && dataindex == 0 && datarows == 0
      ensures fileHasHeader && pathFile.None? && fileInfo.None?
    {
      table := TableModels.EmptyTable;
      dataindex := 0;
      datarows := 0;
      fileHasHeader := true;
      pathFile := None;
      fileInfo := None;
    }

    /** `set_status_total_records`: a non-empty table resets the cursor and
        sets the row count; an empty one leaves both. */
    method SetStatusTotalRecords()
      modifies this
      ensures table == old(table) && fileHasHeader == old(fileHasHeader)
      ensures pathFile == old(pathFile) && fileInfo == old(fileInfo)
      ensures !MainWindow.IsEmpty(table) ==> datarows == |table.rows| && dataindex == 0
      ensures MainWindow.IsEmpty(table) ==> datarows == old(datarows) && dataindex == old(dataindex)
    {
      if !MainWindow.IsEmpty(table) {
        datarows := |table.rows|;
        dataindex := 0;
      }
    }

    /** `set_data_file_info`: the title's name and extension from the path. */
    method SetDataFileInfo()
      requires pathFile.Some?
      modifies this
      ensures table == old(table) && dataindex == old(dataindex) && datarows == old(datarows)
      ensures fileHasHeader == old(fileHasHeader) && pathFile == old(pathFile)
      ensures fileInfo == Some(LegacyFileInfo(pathFile.value))
    {
      fileInfo := Some(LegacyFileInfo(pathFile.value));
    }

    /** `show_data`: on an empty table nothing is shown. Otherwise the
        title's name and extension are set, a header-less table is renamed
        col1..colN, and the loop renders rows from the cursor until `limit`
        rows are shown or the rows run out; the caption follows. */
    method ShowData(limit: nat) returns (shown: seq<int>, caption: Option<ShowingLabel>)
      requires Valid()
      modifies this
      ensures Valid() && datarows == old(datarows) && fileHasHeader == old(fileHasHeader)
      ensures pathFile == old(pathFile)
      ensures MainWindow.IsEmpty(old(table)) ==>
        shown == [] && caption.None? && table == old(table) && dataindex == old(dataindex)
        && fileInfo == old(fileInfo)
      ensures !MainWindow.IsEmpty(old(table)) ==>
        table == MainWindow.LoadedTable(fileHasHeader, old(table))
        && fileInfo == Some(LegacyFileInfo(pathFile.value))
        && dataindex == Advance(old(dataindex), limit, datarows)
        && shown == Range(old(dataindex), dataindex)
        && caption == Some(CountShowing(dataindex, limit, datarows))
    {
      if MainWindow.IsEmpty(table) {
        return [], None;
      }
      SetDataFileInfo();
      SetLoadedTable();
      shown := RenderRows(limit);
      caption := Some(CountShowing(dataindex, limit, datarows));
    }

    /** The renaming step of `show_data`: a header-less table takes the
        column names col1..colN; its rows stay as they were. */
    method SetLoadedTable()
      requires Valid() && !MainWindow.IsEmpty(table)
      modifies this
      ensures Valid() && !MainWindow.IsEmpty(table)
      ensures table == MainWindow.LoadedTable(fileHasHeader, old(table))
      ensures fileInfo == old(fileInfo) && dataindex == old(dataindex) && datarows == old(datarows)
      ensures fileHasHeader == old(fileHasHeader) && pathFile == old(pathFile)
    {
      var loaded := MainWindow.LoadedTable(fileHasHeader, table);
      assert loaded.rows == table.rows && |loaded.columns| == |table.columns|;
      table := loaded;
    }

    /** The loop of `show_data`: renders rows from the cursor, moving it on,
        until `limit` rows are shown or the rows run out. */
    method RenderRows(limit: nat) returns (shown: seq<int>)
      requires 0 <= dataindex <= datarows
      modifies this
      ensures table == old(table) && fileInfo == old(fileInfo) && datarows == old(datarows)
      ensures fileHasHeader == old(fileHasHeader) && pathFile == old(pathFile)
      ensures dataindex == Advance(old(dataindex), limit, datarows)
      ensures shown == Range(old(dataindex), dataindex)
    {
      var limitGrid := dataindex + limit;
      var start := dataindex;
      shown := [];
      while dataindex < datarows && dataindex < limitGrid
        invariant table == old(table) && fileInfo == old(fileInfo)
        invariant datarows == old(datarows) && fileHasHeader == old(fileHasHeader) && pathFile == old(pathFile)
        invariant start <= dataindex <= datarows
        invariant dataindex <= Max(start, limitGrid)
        invariant shown == Range(start, dataindex)
        decreases datarows - dataindex
      {
        RangeExtend(start, dataindex);
        shown := shown + [dataindex];
        dataindex := dataindex + 1;
      }
    }

    /** `on_page_previous`: moves the cursor to `PreviousTarget` and
        re-renders, or does nothing. */
    method OnPagePrevious(limit: nat) returns (shown: seq<int>, caption: Option<ShowingLabel>)
      requires Valid()
      modifies this
      ensures Valid() && datarows == old(datarows)
      ensures pathFile == old(pathFile) && fileHasHeader == old(fileHasHeader)
      ensures PreviousTarget(old(dataindex), limit, datarows).None? ==>
        shown == [] && caption.None? && dataindex == old(dataindex) && table == old(table)
        && fileInfo == old(fileInfo)
      ensures PreviousTarget(old(dataindex), limit, datarows).Some? && MainWindow.IsEmpty(old(table)) ==>
        shown == [] && caption.None? && dataindex == PreviousTarget(old(dataindex), limit, datarows).value
        && table == old(table) && fileInfo == old(fileInfo)
      ensures PreviousTarget(old(dataindex), limit, datarows).Some? && !MainWindow.IsEmpty(old(table)) ==>
        var from := PreviousTarget(old(dataindex), limit, datarows).value;
        dataindex == Advance(from, limit, datarows) && shown == Range(from, dataindex)
        && caption == Some(CountShowing(dataindex, limit, datarows))
        && table == MainWindow.LoadedTable(fileHasHeader, old(table))
        && fileInfo == Some(LegacyFileInfo(pathFile.value))
    {
      shown, caption := [], None;
      if datarows != 0 && dataindex > 0 && dataindex - limit * 2 >= 0 {
        assert PreviousTarget(dataindex, limit, datarows) == Some(dataindex - limit * 2);
        dataindex := dataindex - limit * 2;
        shown, caption := ShowData(limit);
      } else if datarows != 0 && dataindex > 0 && dataindex - (limit + 1) >= 0 {
        assert PreviousTarget(dataindex, limit, datarows) == Some(0);
        dataindex := 0;
        shown, caption := ShowData(limit);
      } else {
        assert PreviousTarget(dataindex, limit, datarows).None?;
      }
    }

    /** `on_page_next`: re-renders from the cursor while rows remain. */
    method OnPageNext(limit: nat) returns (shown: seq<int>, caption: Option<ShowingLabel>)
      requires Valid()
      modifies this
      ensures Valid() && datarows == old(datarows)
      ensures pathFile == old(pathFile) && fileHasHeader == old(fileHasHeader)
      ensures old(dataindex) >= datarows || MainWindow.IsEmpty(old(table)) ==>
        shown == [] && caption.None? && dataindex == old(dataindex) && table == old(table)
        && fileInfo == old(fileInfo)
      ensures old(dataindex) < datarows && !MainWindow.IsEmpty(old(table)) ==>
        dataindex == Min(old(dataindex) + limit, datarows) && shown == Range(old(dataindex), dataindex)
        && caption == Some(CountShowing(dataindex, limit, datarows))
        && table == MainWindow.LoadedTable(fileHasHeader, old(table))
        && fileInfo == Some(LegacyFileInfo(pathFile.value))
    {
      shown, caption := [], None;
      if datarows != 0 && dataindex >= 0 && dataindex < datarows {
        shown, caption := ShowData(limit);
      }
    }

    /** `on_re_show`: back to the first row, then render. */
    method OnReShow(limit: nat) returns (shown: seq<int>, caption: Option<ShowingLabel>)
      requires Valid()
      modifies this
      ensures Valid() && datarows == old(datarows)
      ensures pathFile == old(pathFile) && fileHasHeader == old(fileHasHeader)
      ensures !MainWindow.IsEmpty(old(table)) ==>
        dataindex == Min(limit, datarows) && shown == Range(0, dataindex)
        && caption == Some(CountShowing(dataindex, limit, datarows))
        && table == MainWindow.LoadedTable(fileHasHeader, old(table))
        && fileInfo == Some(LegacyFileInfo(pathFile.value))
      ensures MainWindow.IsEmpty(old(table)) ==>
        dataindex == 0 && shown == [] && caption.None? && table == old(table) && fileInfo == old(fileInfo)
    {
      dataindex := 0;
      shown, caption := ShowData(limit);
    }

    /** `open_file_parquet` or `open_file_text_plain` once the file is read:
        the path and the table are taken, the count is reset, and the first
        page is rendered. The header flag is the dialog's answer for a text
        file and stays as it was for a parquet file. */
    method OpenFile(path: string, t: TableModels.Table, header: Option<bool>, limit: nat)
      returns (shown: seq<int>, caption: Option<ShowingLabel>)
      requires Valid()
      modifies this
      ensures Valid() && pathFile == Some(path)
      ensures fileHasHeader == if header.Some? then header.value else old(fileHasHeader)
      ensures !MainWindow.IsEmpty(t) ==>
        table == MainWindow.LoadedTable(fileHasHeader, t) && datarows == |t.rows|
        && dataindex == Min(limit, |t.rows|) && shown == Range(0, dataindex)
        && caption == Some(CountShowing(dataindex, limit, datarows))
        && fileInfo == Some(LegacyFileInfo(path))
      ensures MainWindow.IsEmpty(t) ==>
        shown == [] && table == t && caption.None? && fileInfo == old(fileInfo)
        && dataindex == old(dataindex) && datarows == old(datarows)
    {
      if header.Some? {
        fileHasHeader := header.value;
      }
      pathFile := Some(path);
      table := t;
      SetStatusTotalRecords();
      assert Valid();
      ghost var start := dataindex;
      assert !MainWindow.IsEmpty(t) ==> start == 0 && datarows == |t.rows|;
      shown, caption := ShowData(limit);
      assert !MainWindow.IsEmpty(t) ==> dataindex == Advance(start, limit, |t.rows|);
    }

    /** `clear_data`: the table is emptied; the cursor and count stay. */
    method ClearData()
      requires Valid()
      modifies this
      ensures Valid() && table == TableModels.EmptyTable
      ensures dataindex == old(dataindex) && datarows == old(datarows) && pathFile == old(pathFile)
      ensures fileHasHeader == old(fileHasHeader) && fileInfo == old(fileInfo)
    {
      table := TableModels.EmptyTable;
    }
  }

  // ---------------------------------------------------------------------------
  //  compare_json_schemas
  // ---------------------------------------------------------------------------

  /** The inner loop: whether some record of file 2 has the name and the
      type; `None` where a key read raises `KeyError` (the type is only read
      once the name matches, and the search stops at the first hit). */
  function FindColumn(name: string, sparkType: string, schema2: seq<Schema.Record>): Option<bool>
    decreases |schema2|
  {
    if schema2 == [] then Some(false)
    else
      var c := schema2[0];
      if "column_name" !in c then None
      else if c["column_name"] != name then FindColumn(name, sparkType, schema2[1..])
      else if "spark_type" !in c then None
      else if c["spark_type"] == sparkType then Some(true)
      else FindColumn(name, sparkType, schema2[1..])
  }

  /** `acc + rest`, failing when `rest` failed. */
  function Prepend(acc: seq<string>, rest: Option<seq<string>>): Option<seq<string>> {
    match rest
    case None => None
    case Some(r) => Some(acc + r)
  }

  /** The names the older comparison lists: each record of file 1, in order,
      whose name and type no record of file 2 has; `None` when a key read
      raises. */
  function LegacyDiff(schema1: seq<Schema.Record>, schema2: seq<Schema.Record>): Option<seq<string>>
    decreases |schema1|
  {
    if schema1 == [] then Some([])
    else
      var c := schema1[0];
      if "column_name" !in c || "spark_type" !in c then None
      else
        match FindColumn(c["column_name"], c["spark_type"], schema2)
        case None => None
        case Some(found) => Prepend(if found then [] else [c["column_name"]], LegacyDiff(schema1[1..], schema2))
  }

  /** `compare_json_schemas`' loops: for each column of file 1, scan file 2
      for the same name and type with a found flag, and collect the names not
      found. */
  method CompareJsonSchemas(json1: Schema.SchemaJson, json2: Schema.SchemaJson)
    returns (colsWithDiff: Option<seq<string>>)
    ensures colsWithDiff == LegacyDiff(json1.schema, json2.schema)
  {
    var schema1, schema2 := json1.schema, json2.schema;
    var acc: seq<string> := [];
    var i := 0;
    assert schema1[0..] == schema1;
    PrependNothing(LegacyDiff(schema1, schema2));
    while i < |schema1|
      invariant 0 <= i <= |schema1|
      invariant LegacyDiff(schema1, schema2) == Prepend(acc, LegacyDiff(schema1[i..], schema2))
    {
      var col := schema1[i];
      if "column_name" !in col || "spark_type" !in col {
        return None;
      }
      var colName, colType := col["column_name"], col["spark_type"];
      var colFound := false;
      var j := 0;
      while j < |schema2|
        invariant 0 <= j <= |schema2|
        invariant !colFound ==> FindColumn(colName, colType, schema2) == FindColumn(colName, colType, schema2[j..])
        invariant colFound ==> FindColumn(colName, colType, schema2) == Some(true)
      {
        var col2 := schema2[j];
        assert schema2[j..][1..] == schema2[j + 1..];
        if "column_name" !in col2 {
          return None;
        }
        if col2["column_name"] == colName {
          if "spark_type" !in col2 {
            return None;
          }
          if col2["spark_type"] == colType {
            colFound := true;
            break;
          }
        }
        j := j + 1;
      }
      LegacyDiffStep(schema1, schema2, i, colFound);
      PrependTwice(acc, if colFound then [] else [colName], LegacyDiff(schema1[i + 1..], schema2));
      ghost var before := acc;
      if !colFound {
        acc := acc + [colName];
      }
      assert acc == before + (if colFound then [] else [colName]);
      i := i + 1;
    }
    assert acc + [] == acc;
    return Some(acc);
  }

  /** One step of the older comparison: the column at `i` is reported or
      not, in front of what the rest reports. */
  lemma LegacyDiffStep(schema1: seq<Schema.Record>, schema2: seq<Schema.Record>, i: nat, found: bool)
    requires i < |schema1| && "column_name" in schema1[i] && "spark_type" in schema1[i]
    requires FindColumn(schema1[i]["column_name"], schema1[i]["spark_type"], schema2) == Some(found)
    ensures LegacyDiff(schema1[i..], schema2)
      == Prepend(if found then [] else [schema1[i]["column_name"]], LegacyDiff(schema1[i + 1..], schema2))
  {
    assert schema1[i..][0] == schema1[i] && schema1[i..][1..] == schema1[i + 1..];
  }

  lemma PrependNothing(r: Option<seq<string>>)
    ensures Prepend([], r) == r
  {
    if r.Some? {
      assert [] + r.value == r.value;
    }
  }

  lemma PrependTwice(a: seq<string>, b: seq<string>, rest: Option<seq<string>>)
    ensures Prepend(a, Prepend(b, rest)) == Prepend(a + b, rest)
  {
    if rest.Some? {
      assert a + (b + rest.value) == (a + b) + rest.value;
    }
  }

  /** Whether a column is absent, with the same name and type, from `other`. */
  function NotIn(other: seq<Schema.Column>): Schema.Column -> bool {
    c => c !in other
  }

  /** The older comparison on readable records: the names of file 1's
      columns that do not occur, with the same type, in file 2. */
  function LegacyReported(first: seq<Schema.Column>, second: seq<Schema.Column>): seq<string> {
    Schema.Names(Filter(first, NotIn(second)))
  }

  /** The inner loop on readable records finds exactly the column present. */
  lemma {:induction false} FindColumnReadable(name: string, sparkType: string, schema2: seq<Schema.Record>)
    requires Schema.ReadColumns(schema2).Some?
    ensures FindColumn(name, sparkType, schema2) == Some(Schema.Column(name, sparkType) in Schema.ReadColumns(schema2).value)
    decreases |schema2|
  {
    if schema2 != [] {
      var cols := Schema.ReadColumns(schema2).value;
      assert Schema.ReadColumns(schema2[1..]).value == cols[1..];
      FindColumnReadable(name, sparkType, schema2[1..]);
      assert cols == [cols[0]] + cols[1..];
    }
  }

  /** On records that all carry both keys, the older comparison never fails
      and lists `LegacyReported` of the columns read. */
  lemma {:induction false} LegacyDiffReadable(schema1: seq<Schema.Record>, schema2: seq<Schema.Record>)
    requires Schema.ReadColumns(schema1).Some? && Schema.ReadColumns(schema2).Some?
    ensures LegacyDiff(schema1, schema2)
      == Some(LegacyReported(Schema.ReadColumns(schema1).value, Schema.ReadColumns(schema2).value))
    decreases |schema1|
  {
    if schema1 != [] {
      var cols1, cols2 := Schema.ReadColumns(schema1).value, Schema.ReadColumns(schema2).value;
      var c := cols1[0];
      assert Schema.ReadColumns(schema1[1..]).value == cols1[1..];
      LegacyDiffReadable(schema1[1..], schema2);
      FindColumnReadable(c.name, c.sparkType, schema2);
      assert schema1[0]["column_name"] == c.name && schema1[0]["spark_type"] == c.sparkType;
      LegacyDiffStep(schema1, schema2, 0, c in cols2);
      assert schema1[0..] == schema1;
      LegacyReportedCons(cols1, cols2);
    }
  }

  /** The first column is listed exactly when file 2 lacks it. */
  lemma LegacyReportedCons(cols1: seq<Schema.Column>, cols2: seq<Schema.Column>)
    requires cols1 != []
    ensures LegacyReported(cols1, cols2)
      == (if cols1[0] in cols2 then [] else [cols1[0].name]) + LegacyReported(cols1[1..], cols2)
  {
    var c := cols1[0];
    var rest := Filter(cols1[1..], NotIn(cols2));
    assert cols1 == [c] + cols1[1..];
    assert NotIn(cols2)(c) == (c !in cols2);
    if c in cols2 {
      assert Filter(cols1, NotIn(cols2)) == rest;
    } else {
      assert Filter(cols1, NotIn(cols2)) == [c] + rest;
      assert Schema.Names([c] + rest) == [c.name] + Schema.Names(rest);
    }
  }

  lemma NameIn(cols: seq<Schema.Column>, c: Schema.Column)
    requires c in cols
    ensures c.name in Schema.Names(cols)
  {
    var k :| 0 <= k < |cols| && cols[k] == c;
    assert Schema.Names(cols)[k] == c.name;
  }

  lemma NameFrom(cols: seq<Schema.Column>, n: string) returns (k: nat)
    requires n in Schema.Names(cols)
    ensures k < |cols| && cols[k].name == n
  {
    k :| 0 <= k < |cols| && Schema.Names(cols)[k] == n;
  }

  /** The older comparison reports a column of file 1 exactly when file 2
      has no column of that name and type; it reports nothing else, and so
      never a column only file 2 has. */
  lemma LegacyReportsExactly(a: seq<Schema.Column>, b: seq<Schema.Column>, i: nat)
    requires i < |a|
    ensures a[i] !in b ==> a[i].name in LegacyReported(a, b)
    ensures Distinct(Schema.Names(a)) ==> (a[i].name in LegacyReported(a, b) <==> a[i] !in b)
    ensures forall n :: n in LegacyReported(a, b) ==> n in Schema.Names(a)
  {
    var kept := Filter(a, NotIn(b));
    if a[i] !in b {
      NameIn(kept, a[i]);
    }
    if Distinct(Schema.Names(a)) && a[i].name in LegacyReported(a, b) {
      var k := NameFrom(kept, a[i].name);
      assert kept[k] in kept;
      var j :| 0 <= j < |a| && a[j] == kept[k];
      assert Schema.Names(a)[j] == Schema.Names(a)[i];
    }
    forall n | n in LegacyReported(a, b) ensures n in Schema.Names(a) {
      var k := NameFrom(kept, n);
      assert kept[k] in kept;
      NameIn(a, kept[k]);
    }
  }

  /** The link between the two comparisons when file 1's names are distinct:
      a column the older one reports is, for the newer one, only in file 1
      or of a different type. */
  lemma LegacyReportInNewCompare(a: seq<Schema.Column>, b: seq<Schema.Column>, n: string)
    requires Distinct(Schema.Names(a)) && n in LegacyReported(a, b)
    ensures n in Schema.CompareSchemas(a, b).onlyInFirst
      || n in Schema.MismatchNames(Schema.CompareSchemas(a, b).typeMismatches)
    ensures Schema.CompareSchemas(a, b).onlyInFirst != [] || Schema.CompareSchemas(a, b).typeMismatches != []
  {
    var r := Schema.CompareSchemas(a, b);
    var kept := Filter(a, NotIn(b));
    var k := NameFrom(kept, n);
    assert kept[k] in kept;
    var i :| 0 <= i < |a| && a[i] == kept[k];
    assert Schema.Names(a)[i] == n;
    var m1, m2 := Schema.TypeMap(a), Schema.TypeMap(b);
    if n in m2 {
      var j := TypeMapWitness(b, n);
      Schema.TypeMapDistinct(a, i);
      assert b[j] != a[i];
      assert Schema.Mismatched(m1, m2)(n);
      assert n in Filter(Schema.Names(a), Schema.Mismatched(m1, m2));
    } else {
      assert Schema.Absent(m2)(n);
    }
  }

  /** With distinct names on both sides the link runs both ways: the older
      comparison reports exactly the newer one's "only in file 1" and
      type-mismatch names. */
  lemma NewCompareInLegacyReport(a: seq<Schema.Column>, b: seq<Schema.Column>, n: string)
    requires Distinct(Schema.Names(a)) && Distinct(Schema.Names(b))
    requires n in Schema.CompareSchemas(a, b).onlyInFirst
      || n in Schema.MismatchNames(Schema.CompareSchemas(a, b).typeMismatches)
    ensures n in LegacyReported(a, b)
  {
    var r := Schema.CompareSchemas(a, b);
    var m1, m2 := Schema.TypeMap(a), Schema.TypeMap(b);
    assert n in Schema.Names(a) by {
      if n !in r.onlyInFirst {
        assert n in Filter(Schema.Names(a), Schema.Mismatched(m1, m2));
      }
    }
    var i := NameFrom(a, n);
    LegacyReportsExactly(a, b, i);
    if a[i] in b {
      var j :| 0 <= j < |b| && b[j] == a[i];
      Schema.TypeMapDistinct(a, i);
      Schema.TypeMapDistinct(b, j);
      assert false;
    }
  }

  /** The type a name has in the dict comes from one of its entries. */
  lemma {:induction false} TypeMapWitness(cols: seq<Schema.Column>, n: string) returns (k: nat)
    requires n in Schema.TypeMap(cols)
    ensures k < |cols| && cols[k].name == n && Schema.TypeMap(cols)[n] == cols[k].sparkType
    decreases |cols|
  {
    var last := |cols| - 1;
    if cols[last].name == n {
      k := last;
    } else {
      assert n in Schema.Names(cols[..last]) by {
        var j := NameFrom(cols, n);
        assert j != last;
        assert Schema.Names(cols[..last])[j] == n;
      }
      k := TypeMapWitness(cols[..last], n);
    }
  }

  /** A column added to file 2 goes unnoticed by the older comparison, while
      the newer one lists it as only in file 2. */
  lemma LegacyIsOneDirectional(a: seq<Schema.Column>, extra: Schema.Column)
    requires extra.name !in Schema.Names(a)
    ensures LegacyReported(a, a + [extra]) == []
    ensures Schema.CompareSchemas(a, a + [extra]).onlyInSecond == [extra.name]
  {
    FilterNonePass(a, NotIn(a + [extra]));
    var b := a + [extra];
    var m1 := Schema.TypeMap(a);
    assert Schema.Names(b) == Schema.Names(a) + [extra.name];
    FilterNonePass(Schema.Names(a), Schema.Absent(m1));
    assert Schema.Names(b)[..|a|] == Schema.Names(a);
    FilterSplit(Schema.Names(a), [extra.name], Schema.Absent(m1));
  }
}
