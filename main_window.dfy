/** The rule-bearing glue of src/main_window.py: file-name parsing, the
    choice of loader by extension, the text-file options, synthesised
    headers, the export helpers and the main window's state across loading,
    searching, showing and clearing. Widgets, dialogs and message boxes are
    reduced to the values they hand over. */
module MainWindow {
  import opened Wrappers
  import opened Text
  import opened Seqs
  import TableModels
  import Config

  // ---------------------------------------------------------------------------
  //  _parse_file_info
  // ---------------------------------------------------------------------------

  /** `os.path.basename` on a POSIX path: the text after the last `/`. */
  function Basename(path: string): (r: string)
    ensures '/' !in r
    ensures |r| <= |path|
    ensures |r| < |path| ==> path[|path| - |r| - 1] == '/'
    ensures '/' !in path ==> r == path
    ensures '/' in path ==> |r| < |path|
  {
    AfterLast(path, '/')
  }

  predicate AllDots(s: string) {
    forall k :: 0 <= k < |s| ==> s[k] == '.'
  }

  /** No dot in `p` comes after a character other than a dot: `p` has no
      extension in the sense of `os.path.splitext` (leading dots belong to
      the name). */
  predicate NoExtension(p: string) {
    forall i, j :: 0 <= i < j < |p| && p[j] == '.' ==> p[i] == '.'
  }

  /** `os.path.splitext` on a name without `/`: the extension is the last dot
      and what follows it, unless only dots precede that dot. */
  function SplitExt(p: string): (r: (string, string))
    ensures r.1 == "" ==> r.0 == p
    ensures r.1 != "" ==> r.1 == "." + AfterLast(p, '.') && r.0 + "." + AfterLast(p, '.') == p
    ensures r.1 == "" <==> NoExtension(p)
  {
    var a := AfterLast(p, '.');
    if '.' !in p then (p, "")
    else
      var m := |p| - |a| - 1;
      var root := p[..m];
      assert p == root + "." + a && forall j :: m < j < |p| ==> p[j] != '.' by {
        AfterLastIsSuffix(p, '.');
        assert forall j :: m < j < |p| ==> p[j] == a[j - m - 1];
        assert forall j :: 0 <= j < |p| ==> p[j] == (root + "." + a)[j];
      }
      if AllDots(root) then (p, "")
      else
        assert !NoExtension(p) by {
          var i :| 0 <= i < |root| && root[i] != '.';
          assert p[i] != '.' && p[m] == '.';
        }
        (root, "." + a)
  }

  /** The name and the extension `splitext` returns make up the path again. */
  lemma SplitExtJoins(p: string)
    ensures SplitExt(p).0 + SplitExt(p).1 == p
  {
    var r := SplitExt(p);
    if r.1 != "" {
      assert r.0 + r.1 == r.0 + "." + AfterLast(p, '.');
    }
  }

  /** `s.lstrip('.')`. */
  function StripLeadingDots(s: string): (r: string)
    ensures |r| <= |s|
    ensures |r| < |s| ==> forall i :: 0 <= i < |r| ==> r[i] == s[|s| - |r| + i]
    ensures r != [] ==> r[0] != '.'
    ensures AllDots(s[..|s| - |r|])
  {
    var k := SkipDots(s, 0);
    if k == 0 then s else Slice(s, k, |s|)
  }

  /** The index of the first character at or after `i` that is not a dot, or
      `|s|`. */
  function SkipDots(s: string, i: nat): (j: nat)
    requires i <= |s|
    ensures i <= j <= |s|
    ensures forall k :: i <= k < j ==> s[k] == '.'
    ensures j < |s| ==> s[j] != '.'
    decreases |s| - i
  {
    if i < |s| && s[i] == '.' then SkipDots(s, i + 1) else i
  }

  /** A file's name and extension, as `_parse_file_info` returns them. */
  datatype FileInfo = FileInfo(name: string, ext: string)

  /** `_parse_file_info`: a base name ending in `.csv.gz` in any case gives
      the name before those seven characters and the extension `csv.gz`;
      otherwise the `splitext` name and the extension without its dot. */
  function ParseFileInfo(path: string): FileInfo {
    var base := Basename(path);
    if EndsWith(Lower(base), ".csv.gz") then FileInfo(base[..|base| - 7], "csv.gz")
    else
      var (name, ext) := SplitExt(base);
      FileInfo(name, StripLeadingDots(ext))
  }

  /** A compressed CSV: the name and the seven-character suffix make up the
      base name, and the suffix reads `.csv.gz` in lower case. */
  lemma ParseCompressedCsv(path: string)
    requires EndsWith(Lower(Basename(path)), ".csv.gz")
    ensures var base, info := Basename(path), ParseFileInfo(path);
      info.ext == "csv.gz" && |info.name| + 7 == |base|
      && info.name + base[|info.name|..] == base && Lower(base[|info.name|..]) == ".csv.gz"
  {
    CompressedBase(Basename(path));
  }

  lemma CompressedBase(base: string)
    requires EndsWith(Lower(base), ".csv.gz")
    ensures base[..|base| - 7] + base[|base| - 7..] == base
    ensures Lower(base[|base| - 7..]) == ".csv.gz"
  {
    LowerSuffix(base, |base| - 7);
  }

  /** Any other file: a base name with an extension is the name, a dot and
      the extension, which is the text after the last dot; one without is all
      name. */
  lemma {:induction false} ParsePlainFile(path: string)
    requires !EndsWith(Lower(Basename(path)), ".csv.gz")
    ensures var base, info := Basename(path), ParseFileInfo(path);
      '.' !in info.ext
      && (NoExtension(base) ==> info == FileInfo(base, ""))
      && (!NoExtension(base) ==> base == info.name + "." + info.ext && info.ext == AfterLast(base, '.'))
  {
    var base := Basename(path);
    assert ParseFileInfo(path) == FileInfo(SplitExt(base).0, StripLeadingDots(SplitExt(base).1));
    SplitExtParts(base);
  }

  /** The name and the dot-less extension that `_parse_file_info` makes of
      a `splitext` result. */
  lemma SplitExtParts(base: string)
    ensures var name, ext := SplitExt(base).0, StripLeadingDots(SplitExt(base).1);
      '.' !in ext
      && (NoExtension(base) ==> name == base && ext == "")
      && (!NoExtension(base) ==> base == name + "." + ext && ext == AfterLast(base, '.'))
  {
    if !NoExtension(base) {
      var tail := AfterLast(base, '.');
      StripLeadingDotsOfDotted(tail);
    }
  }

  /** `lstrip('.')` of a dot followed by dot-free text is that text. */
  lemma StripLeadingDotsOfDotted(tail: string)
    requires '.' !in tail
    ensures StripLeadingDots("." + tail) == tail
  {
    var s := "." + tail;
    assert s[0] == '.' && (|tail| > 0 ==> s[1] == tail[0] && s[1] != '.');
    assert SkipDots(s, 0) == 1;
    assert forall i :: 0 <= i < |tail| ==> StripLeadingDots(s)[i] == s[1 + i];
  }

  lemma StripLeadingDotsNoDot(s: string)
    requires s == [] || s[0] != '.'
    ensures StripLeadingDots(s) == s
  {
  }

  /** For `dir/file` with a slash-free `file`, the base name is `file`. */
  lemma BasenameOfPath(dir: string, file: string)
    requires '/' !in file
    ensures Basename(dir + "/" + file) == file
  {
    assert dir + "/" + file == dir + ['/'] + file;
    AfterLastOfAppend(dir, '/', file);
  }

  /** `name.ext` with one dot, not leading, has the extension `ext`. */
  lemma DottedBase(name: string, ext: string)
    requires name != [] && '.' !in name && '.' !in ext
    ensures AfterLast(name + "." + ext, '.') == ext && !NoExtension(name + "." + ext)
  {
    var file := name + "." + ext;
    AfterLastOfDotted(name, ext);
    assert file[0] == name[0] && name[0] != '.' && file[|name|] == '.';
  }

  /** For `dir/name.ext` with a dot-free name and extension, other than a
      compressed CSV, `_parse_file_info` gives `name` and `ext`. */
  lemma ParseFileInfoOfDotted(dir: string, name: string, ext: string)
    requires name != [] && '.' !in name && '/' !in name && '.' !in ext && '/' !in ext
    requires !EndsWith(Lower(name + "." + ext), ".csv.gz")
    ensures ParseFileInfo(dir + "/" + name + "." + ext) == FileInfo(name, ext)
  {
    var file := name + "." + ext;
    var path := dir + "/" + file;
    assert path == dir + "/" + name + "." + ext;
    BasenameOfPath(dir, file);
    ParseFileInfoOfBase(path, name, ext);
  }

  /** A path whose base name is `name.ext` with one dot. */
  lemma ParseFileInfoOfBase(path: string, name: string, ext: string)
    requires name != [] && '.' !in name && '.' !in ext
    requires Basename(path) == name + "." + ext
    requires !EndsWith(Lower(name + "." + ext), ".csv.gz")
    ensures ParseFileInfo(path) == FileInfo(name, ext)
  {
    DottedBase(name, ext);
    ParsePlainFile(path);
    var info := ParseFileInfo(path);
    DotCancel(info.name, name, ext);
  }

  lemma DotCancel(x: string, y: string, ext: string)
    requires x + "." + ext == y + "." + ext
    ensures x == y
  {
    assert |x| == |y|;
    assert x == (x + "." + ext)[..|x|];
    assert y == (y + "." + ext)[..|y|];
  }

  // ---------------------------------------------------------------------------
  //  Choosing a loader
  // ---------------------------------------------------------------------------

  /** The loaders `_load_file` starts. */
  datatype FileKind = Parquet | CsvGzip | Csv | Txt

  /** The separator a text kind is read with by default. */
  function DefaultSeparator(kind: FileKind): string {
    match kind
    case Txt => "|"
    case _ => ","
  }

  /** The loader for a lower-cased extension, if there is one. */
  function KindOfExtension(ext: string): Option<FileKind>
  {
    var e := Lower(ext);
    if e == "parquet" then Some(Parquet)
    else if e == "csv.gz" then Some(CsvGzip)
    else if e == "csv" then Some(Csv)
    else if e == "txt" then Some(Txt)
    else None
  }

  /** `TextFileOptionsDialog.get_options` without `has_header`, which the
      caller pops off. */
  datatype ReadOptions = ReadOptions(header: Option<int>, sep: string, encoding: string,
                                     quoting: int, dtype: Option<string>)

  /** The options `_load_file` is given. */
  datatype LoadOptions =
    | NoOptions
    | SepOnly(sep: string)
    | SepGzip(sep: string)
    | FromDialog(read: ReadOptions, compression: string)

  /** What `_open_recent_file` does. */
  datatype RecentAction = FileNotFound | UnsupportedFormat(ext: string) | LoadRecent(kind: FileKind, options: LoadOptions)

  /** `_open_recent_file` for a file that exists: the lower-cased extension
      picks the loader and its fixed options; any other extension is
      reported as unsupported. */
  function RecentActionForExtension(ext: string): (r: RecentAction)
    ensures !r.FileNotFound?
  {
    match KindOfExtension(ext)
    case None => UnsupportedFormat(ext)
    case Some(Parquet) => LoadRecent(Parquet, NoOptions)
    case Some(CsvGzip) => LoadRecent(CsvGzip, SepGzip(","))
    case Some(Csv) => LoadRecent(Csv, SepOnly(","))
    case Some(Txt) => LoadRecent(Txt, SepOnly("|"))
  }

  /** `_open_recent_file`: a missing file is reported and nothing is loaded;
      otherwise the file's extension decides. */
  function RecentFileAction(path: string, onDisk: bool): (r: RecentAction)
    ensures !onDisk <==> r == FileNotFound
    ensures onDisk ==> r == RecentActionForExtension(ParseFileInfo(path).ext)
  {
    if !onDisk then FileNotFound else RecentActionForExtension(ParseFileInfo(path).ext)
  }

  /** What `dropEvent` does with the first dropped file. */
  datatype DropAction = IgnoreDrop | LoadDropped | AskOptions(kind: FileKind, defaultSep: string, compression: string)

  /** `dropEvent`: a parquet file is loaded at once, a text file opens the
      options dialog, anything else is ignored without a message. */
  function DropActionForExtension(ext: string): DropAction {
    match KindOfExtension(ext)
    case None => IgnoreDrop
    case Some(Parquet) => LoadDropped
    case Some(CsvGzip) => AskOptions(CsvGzip, ",", "gzip")
    case Some(Csv) => AskOptions(Csv, ",", "infer")
    case Some(Txt) => AskOptions(Txt, "|", "infer")
  }

  /** Opening an existing file from the recent list and dropping it agree on
      the loader, the separator and gzip compression; they differ in that a
      drop asks for the text options and stays silent on an unsupported
      file. */
  lemma RecentAndDropAgree(ext: string)
    ensures var recent, drop := RecentActionForExtension(ext), DropActionForExtension(ext);
      (recent.UnsupportedFormat? <==> drop == IgnoreDrop)
      && (recent.UnsupportedFormat? ==> recent.ext == ext)
      && (recent == LoadRecent(Parquet, NoOptions) <==> drop == LoadDropped)
      && (drop.AskOptions? ==>
            recent.LoadRecent? && recent.kind == drop.kind
            && recent.options.sep == drop.defaultSep == DefaultSeparator(drop.kind)
            && (recent.options.SepGzip? <==> drop.compression == "gzip"))
  {
  }

  /** Each loader is chosen exactly by its extension, in any case. */
  lemma KindOfExtensionCases(ext: string)
    ensures KindOfExtension(ext) == Some(Parquet) <==> Lower(ext) == "parquet"
    ensures KindOfExtension(ext) == Some(CsvGzip) <==> Lower(ext) == "csv.gz"
    ensures KindOfExtension(ext) == Some(Csv) <==> Lower(ext) == "csv"
    ensures KindOfExtension(ext) == Some(Txt) <==> Lower(ext) == "txt"
  {
  }

  /** Upper-case spellings are dispatched like lower-case ones. */
  lemma KindOfExtensionIgnoresCase(ext: string)
    ensures KindOfExtension(Lower(ext)) == KindOfExtension(ext)
  {
    LowerIdempotent(ext);
  }

  // ---------------------------------------------------------------------------
  //  TextFileOptionsDialog
  // ---------------------------------------------------------------------------

  /** `csv.QUOTE_MINIMAL`, `csv.QUOTE_ALL` and `csv.QUOTE_NONE`. */
  const QuoteMinimal: int := 0
  const QuoteAll: int := 1
  const QuoteNone: int := 3

  /** The separator choice shown for a tab. */
  const TabDisplay: string := "\\t (tab)"

  /** `_sep_map`: display value to separator. */
  const SeparatorMap: map<string, string> := map[";" := ";", "," := ",", "|" := "|", TabDisplay := "\t"]

  /** `_QUOTING_MAP`. */
  const QuotingMap: map<string, int> := map["Minimal" := QuoteMinimal, "Quote All" := QuoteAll, "None" := QuoteNone]

  /** The combo text the dialog starts from for a default separator. */
  function DisplaySeparator(defaultSep: string): string {
    if defaultSep != "\t" then defaultSep else TabDisplay
  }

  /** `self._sep_map.get(display, display)`. */
  function SeparatorOf(display: string): (sep: string)
    ensures display == TabDisplay ==> sep == "\t"
    ensures display !in SeparatorMap ==> sep == display
    ensures display in SeparatorMap ==> sep == display || display == TabDisplay
  {
    if display in SeparatorMap then SeparatorMap[display] else display
  }

  /** The dialog hands back the default separator it was opened with unless
      that separator is the tab's display text itself. */
  lemma DisplaySeparatorRoundTrip(defaultSep: string)
    requires defaultSep != TabDisplay
    ensures SeparatorOf(DisplaySeparator(defaultSep)) == defaultSep
  {
  }

  /** `_QUOTING_MAP.get(choice, csv.QUOTE_MINIMAL)`. */
  function QuotingOf(choice: string): (q: int)
    ensures q in {QuoteMinimal, QuoteAll, QuoteNone}
    ensures choice !in QuotingMap ==> q == QuoteMinimal
    ensures choice in QuotingMap ==> q == QuotingMap[choice]
  {
    if choice in QuotingMap then QuotingMap[choice] else QuoteMinimal
  }

  /** The dialog's widgets at the moment it is accepted. */
  datatype DialogChoice = DialogChoice(headerText: string, sepDisplay: string, encoding: string,
                                       quotingText: string, inferChecked: bool)

  /** `get_options`: whether the file has a header, and how pandas reads it. */
  datatype TextOptions = TextOptions(hasHeader: bool, read: ReadOptions)

  function GetOptions(c: DialogChoice): (r: TextOptions)
    ensures r.hasHeader <==> c.headerText == "True"
    ensures r.read.header == Some(0) <==> r.hasHeader
    ensures r.read.header.None? <==> !r.hasHeader
    ensures r.read.sep == SeparatorOf(c.sepDisplay) && r.read.encoding == c.encoding
    ensures r.read.quoting == QuotingOf(c.quotingText)
    ensures r.read.dtype.None? <==> c.inferChecked
    ensures r.read.dtype.Some? ==> r.read.dtype.value == "str"
  {
    var hasHeader := c.headerText == "True";
    TextOptions(hasHeader,
      ReadOptions(if hasHeader then Some(0) else None, SeparatorOf(c.sepDisplay), c.encoding,
                  QuotingOf(c.quotingText), if c.inferChecked then None else Some("str")))
  }

  // ---------------------------------------------------------------------------
  //  Settings read from the configuration (_setup_constants)
  // ---------------------------------------------------------------------------

  /** `d.get(key, default)`; nothing when `d` is not a mapping (Python raises
      `AttributeError` there). */
  function DictGet(d: Config.Yaml, key: string, default: Config.Yaml): (r: Option<Config.Yaml>)
    ensures r.Some? <==> d.YMap?
  {
    if d.YMap? then Some(if key in d.entries then d.entries[key] else default) else None
  }

  /** `[e.strip() for e in pieces]`. */
  function StripAll(pieces: seq<string>): (r: seq<string>)
    ensures |r| == |pieces|
    ensures forall i :: 0 <= i < |r| ==> r[i] == Strip(pieces[i])
  {
    seq(|pieces|, i requires 0 <= i < |pieces| => Strip(pieces[i]))
  }

  /** The text-file settings the window keeps. */
  datatype FileSettings = FileSettings(autoInfer: Config.Yaml, encodings: seq<string>, delimiter: Config.Yaml)

  /** `_setup_constants`: the `app.files` section's three settings with their
      defaults; nothing when a section is not a mapping or the encodings are
      not text (the window then fails to start). The encodings are the
      comma-separated entries, stripped, so there is always at least one. */
  function SetupConstants(config: Config.Yaml): (r: Option<FileSettings>)
    ensures r.Some? ==> |r.value.encodings| >= 1
    ensures r.Some? ==> forall i :: 0 <= i < |r.value.encodings| ==>
      ',' !in r.value.encodings[i] && Strip(r.value.encodings[i]) == r.value.encodings[i]
  {
    match DictGet(config, "app", Config.YMap(map[]))
    case None => None
    case Some(app) =>
      match DictGet(app, "files", Config.YMap(map[]))
      case None => None
      case Some(files) =>
        match DictGet(files, "txt-encodings", Config.YStr("utf-8"))
        case None => None
        case Some(encodings) =>
          if !encodings.YStr? then None
          else
            Some(FileSettings(DictGet(files, "txt-auto-infer-types", Config.YBool(true)).value,
                              EncodingList(encodings.s),
                              DictGet(files, "txt-delimiter", Config.YStr("|")).value))
  }

  /** `[e.strip() for e in text.split(',')]`: at least one entry, none with a
      comma or surrounding white space. */
  function EncodingList(text: string): (r: seq<string>)
    ensures |r| == Text.Count(text, ',') + 1 == |Split(text, ',')|
    ensures forall i :: 0 <= i < |r| ==> r[i] == Strip(Split(text, ',')[i])
    ensures forall i :: 0 <= i < |r| ==> ',' !in r[i] && Strip(r[i]) == r[i]
  {
    var pieces := Split(text, ',');
    var r := StripAll(pieces);
    assert forall i :: 0 <= i < |r| ==> ',' !in r[i] && Strip(r[i]) == r[i] by {
      forall i | 0 <= i < |r| ensures ',' !in r[i] && Strip(r[i]) == r[i] {
        StrippedPiece(pieces[i], ',');
      }
    }
    r
  }

  /** A text without a comma names one encoding, itself stripped. */
  lemma EncodingListOfPiece(piece: string)
    requires ',' !in piece
    ensures EncodingList(piece) == [Strip(piece)]
  {
    SplitNoSeparator(piece, ',');
  }

  /** The encodings read piece by piece: the first comma-separated piece,
      stripped, ahead of the encodings of the rest. */
  lemma EncodingListCons(piece: string, rest: string)
    requires ',' !in piece
    ensures EncodingList(piece + "," + rest) == [Strip(piece)] + EncodingList(rest)
  {
    assert piece + "," + rest == piece + [','] + rest;
    SplitAtSeparator(piece, ',', rest);
  }

  /** A stripped piece keeps out what the piece kept out and strips to
      itself. */
  lemma StrippedPiece(piece: string, d: char)
    requires d !in piece
    ensures d !in Strip(piece) && Strip(Strip(piece)) == Strip(piece)
  {
    StripInfix(piece);
    StripTrimmed(Strip(piece));
  }

  /** What `strip` returns occurs in its argument, so it holds no character
      the argument lacks. */
  lemma StripInfix(s: string)
    ensures forall c :: c in Strip(s) ==> c in s
  {
    var i := LeadingSpaces(s);
    var r := Strip(s);
    assert forall k :: 0 <= k < |r| ==> r[k] == s[i + k];
  }

  /** A configuration without an `app` section gives the built-in defaults:
      inference on, UTF-8 only, `|` as delimiter. */
  lemma MissingSectionDefaults(config: Config.Yaml)
    requires config.YMap? && "app" !in config.entries
    ensures SetupConstants(config) == Some(FileSettings(Config.YBool(true), ["utf-8"], Config.YStr("|")))
  {
    var empty: map<string, Config.Yaml> := map[];
    assert DictGet(config, "app", Config.YMap(map[])) == Some(Config.YMap(empty));
    assert DictGet(Config.YMap(empty), "files", Config.YMap(map[])) == Some(Config.YMap(empty));
    assert DictGet(Config.YMap(empty), "txt-encodings", Config.YStr("utf-8")) == Some(Config.YStr("utf-8"));
    DefaultEncoding();
  }

  /** A configuration whose `app.files` section holds the three settings
      gives exactly those settings, the encodings split at commas and
      stripped; the built-in configuration gives five encodings. */
  lemma FilesSectionSettings(config: Config.Yaml, files: map<string, Config.Yaml>)
    requires config.YMap? && "app" in config.entries && config.entries["app"].YMap?
    requires "files" in config.entries["app"].entries
    requires config.entries["app"].entries["files"] == Config.YMap(files)
    requires "txt-auto-infer-types" in files && "txt-delimiter" in files
    requires "txt-encodings" in files && files["txt-encodings"].YStr?
    ensures SetupConstants(config) == Some(FileSettings(files["txt-auto-infer-types"],
      EncodingList(files["txt-encodings"].s), files["txt-delimiter"]))
  {
  }

  /** A configuration that is not a mapping, or whose encodings are not
      text, stops the window: there are no settings. */
  lemma UnreadableSettings(config: Config.Yaml, files: map<string, Config.Yaml>)
    ensures !config.YMap? ==> SetupConstants(config).None?
    ensures (config.YMap? && "app" in config.entries && config.entries["app"].YMap?
             && "files" in config.entries["app"].entries
             && config.entries["app"].entries["files"] == Config.YMap(files)
             && "txt-encodings" in files && !files["txt-encodings"].YStr?) ==> SetupConstants(config).None?
  {
  }

  /** The fallback encodings text gives the single entry `utf-8`. */
  lemma DefaultEncoding()
    ensures EncodingList("utf-8") == ["utf-8"]
  {
    SplitNoSeparator("utf-8", ',');
    StripTrimmed("utf-8");
  }

  // ---------------------------------------------------------------------------
  //  Synthesised headers (_on_data_loaded)
  // ---------------------------------------------------------------------------

  /** `[f'col{i}' for i in range(1, n + 1)]`. */
  function ColumnHeaders(n: nat): (r: seq<string>)
    ensures |r| == n
    ensures forall i :: 0 <= i < n ==> r[i] == "col" + NatToString(i + 1)
  {
    seq(n, i requires 0 <= i < n => "col" + NatToString(i + 1))
  }

  /** The synthesised headers are all different. */
  lemma ColumnHeadersDistinct(n: nat)
    ensures Distinct(ColumnHeaders(n))
  {
    var r := ColumnHeaders(n);
    forall i, j | 0 <= i < j < n ensures r[i] != r[j] {
      if r[i] == r[j] {
        assert r[i][3..] == NatToString(i + 1) && r[j][3..] == NatToString(j + 1);
        NatToStringInjective(i + 1, j + 1);
      }
    }
  }

  /** `DataFrame.empty`: no rows or no columns. */
  predicate IsEmpty(t: TableModels.Table) {
    |t.columns| == 0 || |t.rows| == 0
  }

  /** The table `_on_data_loaded` hands to the model: for a file read
      without a header row, a non-empty table gets the columns col1..colN. */
  function LoadedTable(hasHeader: bool, t: TableModels.Table): (r: TableModels.Table)
    ensures r.rows == t.rows && |r.columns| == |t.columns|
    ensures hasHeader || IsEmpty(t) ==> r == t
    ensures !hasHeader && !IsEmpty(t) ==> r.columns == ColumnHeaders(|t.columns|)
  {
    if !hasHeader && !IsEmpty(t) then t.(columns := ColumnHeaders(|t.columns|)) else t
  }

  /** A header-less table is shown under distinct column names. */
  lemma HeaderlessColumnsDistinct(t: TableModels.Table)
    requires !IsEmpty(t)
    ensures Distinct(LoadedTable(false, t).columns)
  {
    ColumnHeadersDistinct(|t.columns|);
  }

  // ---------------------------------------------------------------------------
  //  Export helpers (_extract_export_data)
  // ---------------------------------------------------------------------------

  function NonBlank(): string -> bool {
    s => s != ""
  }

  /** The columns named in the exclude field: its comma-separated entries,
      stripped, without blank ones; none for an empty field. */
  function ExcludedColumns(exclude: string): (cols: seq<string>)
    ensures |cols| <= Text.Count(exclude, ',') + 1
    ensures forall c :: c in cols ==> c != "" && ',' !in c && Strip(c) == c
  {
    if exclude == "" then []
    else
      var pieces := Split(exclude, ',');
      var stripped := StripAll(pieces);
      assert forall c :: c in stripped ==> ',' !in c && Strip(c) == c by {
        forall i | 0 <= i < |stripped| ensures ',' !in stripped[i] && Strip(stripped[i]) == stripped[i] {
          StrippedPiece(pieces[i], ',');
        }
      }
      Filter(stripped, NonBlank())
  }

  /** The exclude field as the comprehension over its comma-separated
      pieces, also when it is empty. */
  lemma ExcludedColumnsAsComprehension(field: string)
    ensures ExcludedColumns(field) == Filter(StripAll(Split(field, ',')), NonBlank())
  {
    if field == "" {
      assert Split(field, ',') == [""];
      assert StripAll([""]) == [""];
    }
  }

  /** A piece without a comma excludes its stripped text, unless that is
      blank. */
  lemma ExcludedColumnsOfPiece(piece: string)
    requires ',' !in piece
    ensures ExcludedColumns(piece) == if Strip(piece) == "" then [] else [Strip(piece)]
  {
    ExcludedColumnsAsComprehension(piece);
    SplitNoSeparator(piece, ',');
    assert StripAll([piece]) == [Strip(piece)];
  }

  /** The exclude field read piece by piece: the first comma-separated piece
      gives its stripped text, unless that is blank, ahead of the columns the
      rest gives. */
  lemma ExcludedColumnsCons(piece: string, rest: string)
    requires ',' !in piece
    ensures ExcludedColumns(piece + "," + rest)
      == (if Strip(piece) == "" then [] else [Strip(piece)]) + ExcludedColumns(rest)
  {
    var field := piece + "," + rest;
    assert field == piece + [','] + rest;
    SplitAtSeparator(piece, ',', rest);
    ExcludedColumnsAsComprehension(field);
    ExcludedColumnsAsComprehension(rest);
    var tail := StripAll(Split(rest, ','));
    var all := StripAll(Split(field, ','));
    assert all == [Strip(piece)] + tail;
    assert all[1..] == tail;
  }

  /** Padding is stripped and a blank entry is dropped: `" a , ,b"` excludes
      `a` and `b`. */
  lemma ExcludedColumnsExample()
    ensures ExcludedColumns(" a , ,b") == ["a", "b"]
  {
    ExcludedColumnsPadded('a', 'b');
    assert " a , ,b" == [' ', 'a', ' '] + "," + ([' '] + "," + ['b']);
  }

  /** `" x , ,y"` for characters `x` and `y` that are neither blank nor commas. */
  lemma ExcludedColumnsPadded(x: char, y: char)
    requires !IsSpace(x) && !IsSpace(y) && x != ',' && y != ','
    ensures ExcludedColumns([' ', x, ' '] + "," + ([' '] + "," + [y])) == [[x], [y]]
  {
    ExcludedColumnsCons([' ', x, ' '], [' '] + "," + [y]);
    ExcludedColumnsCons([' '], [y]);
    ExcludedColumnsOfPiece([y]);
    StripPadded(x);
    assert Strip([' ']) == [];
    StripSingle(y);
  }

  lemma StripPadded(x: char)
    requires !IsSpace(x)
    ensures Strip([' ', x, ' ']) == [x]
  {
    var s := [' ', x, ' '];
    assert SkipSpaces(s, 0) == 1;
    assert SkipSpacesBack(s, 1, 3) == 2;
  }

  lemma StripSingle(x: char)
    requires !IsSpace(x)
    ensures Strip([x]) == [x]
  {
    assert SkipSpaces([x], 0) == 0;
  }

  /** Names without commas or surrounding white space, typed into the field
      separated by commas, are exactly the columns excluded. */
  lemma ExcludedColumnsRoundTrip(names: seq<string>)
    requires |names| >= 1
    requires forall i :: 0 <= i < |names| ==> names[i] != "" && ',' !in names[i]
    requires forall i :: 0 <= i < |names| ==> !IsSpace(names[i][0]) && !IsSpace(names[i][|names[i]| - 1])
    ensures ExcludedColumns(Join(names, ',')) == names
  {
    var field := Join(names, ',');
    SplitJoin(names, ',');
    assert field != "" by {
      JoinStartsWithFirst(names, ',');
    }
    var stripped := StripAll(names);
    assert stripped == names by {
      forall i | 0 <= i < |names| ensures stripped[i] == names[i] {
        StripTrimmed(names[i]);
      }
    }
    FilterAllPass(names, NonBlank());
  }

  lemma {:induction false} JoinStartsWithFirst(parts: seq<string>, d: char)
    requires |parts| >= 1
    ensures |Join(parts, d)| >= |parts[0]|
  {
    if |parts| > 1 {
      JoinStartsWithFirst(parts[1..], d);
    }
  }

  /** The random sample's size: the requested number of rows, at most the
      rows there are. */
  function SampleSize(requested: int, rows: nat): (n: int)
    ensures n <= requested && n <= rows
    ensures n == requested || n == rows
  {
    if requested <= rows then requested else rows
  }

  /** The file a compressed export is written to: `.gz` is appended unless
      the chosen path already ends with it. */
  function CompressedPath(path: string): (r: string)
    ensures EndsWith(r, ".gz")
    ensures EndsWith(path, ".gz") ==> r == path
    ensures !EndsWith(path, ".gz") ==> r == path + ".gz"
  {
    if EndsWith(path, ".gz") then path else path + ".gz"
  }

  /** Asking for the compressed path twice adds the suffix at most once. */
  lemma CompressedPathIdempotent(path: string)
    ensures CompressedPath(CompressedPath(path)) == CompressedPath(path)
  {
  }

  // ---------------------------------------------------------------------------
  //  The main window's state
  // ---------------------------------------------------------------------------

  /** What `_load_file` remembers for a refresh. */
  datatype LoadSettings = LoadSettings(path: string, kind: FileKind, options: LoadOptions)

  class Window {
    /** `_model`, `_page_proxy` and the recent-files store. */
    const model: TableModels.PandasModel
    const pager: TableModels.PaginationProxyModel
    const recent: Config.RecentFilesStore

    var hasHeader: bool
    var pathFile: Option<string>
    var fileInfo: Option<FileInfo>
    var searchText: string
    var loadSettings: Option<LoadSettings>

    predicate Valid()
      reads this, pager
    {
      pager.Valid()
    }

    /** A window with no data, the page size taken from the limit box, and
        the recent-files store as found. */
    constructor (limit: int, store: Config.StoredFile)
      ensures Valid() && fresh(model) && fresh(pager) && fresh(recent)
      ensures model.table == TableModels.EmptyTable && pager.page == 0
      ensures pager.pageSize == Max(1, limit) && recent.content == store
      ensures hasHeader && pathFile.None? && fileInfo.None? && searchText == "" && loadSettings.None?
    {
      model := new TableModels.PandasModel(None);
      var p := new TableModels.PaginationProxyModel();
      p.SetPageSize(limit);
      pager := p;
      recent := new Config.RecentFilesStore(store);
      hasHeader := true;
      pathFile := None;
      fileInfo := None;
      searchText := "";
      loadSettings := None;
    }

    /** `_load_file` up to starting the worker: the settings, the path and
        its parsed name are recorded. */
    method LoadFile(path: string, kind: FileKind, options: LoadOptions)
      modifies this
      ensures loadSettings == Some(LoadSettings(path, kind, options))
      ensures pathFile == Some(path) && fileInfo == Some(ParseFileInfo(path))
      ensures hasHeader == old(hasHeader) && searchText == old(searchText)
    {
      loadSettings := Some(LoadSettings(path, kind, options));
      pathFile := Some(path);
      SetFileInfo(path);
    }

    /** `_file_name, _file_ext = _parse_file_info(path)`. */
    method SetFileInfo(path: string)
      modifies this
      ensures fileInfo == Some(ParseFileInfo(path))
      ensures loadSettings == old(loadSettings) && pathFile == old(pathFile)
      ensures hasHeader == old(hasHeader) && searchText == old(searchText)
    {
      fileInfo := Some(ParseFileInfo(path));
    }

    /** `_open_text_with_options`: when the dialog is accepted, its header
        choice is kept and the file is loaded with its options and the
        given compression; a cancelled dialog changes nothing. */
    method OpenTextWithOptions(path: string, kind: FileKind, compression: string, choice: Option<DialogChoice>)
      modifies this
      ensures choice.None? ==>
        (loadSettings == old(loadSettings) && hasHeader == old(hasHeader)
         && pathFile == old(pathFile) && fileInfo == old(fileInfo))
      ensures choice.Some? ==>
        (hasHeader == GetOptions(choice.value).hasHeader
         && loadSettings == Some(LoadSettings(path, kind, FromDialog(GetOptions(choice.value).read, compression)))
         && pathFile == Some(path) && fileInfo == Some(ParseFileInfo(path)))
      ensures searchText == old(searchText)
    {
      if choice.Some? {
        var opts := GetOptions(choice.value);
        hasHeader := opts.hasHeader;
        LoadFile(path, kind, FromDialog(opts.read, compression));
      }
    }

    /** `_open_recent_file`: the action chosen by `RecentFileAction`; a
        parquet file also sets the header flag. */
    method OpenRecentFile(path: string, onDisk: bool) returns (action: RecentAction)
      modifies this
      ensures action == RecentFileAction(path, onDisk)
      ensures action.LoadRecent? ==>
        (loadSettings == Some(LoadSettings(path, action.kind, action.options))
         && pathFile == Some(path) && fileInfo == Some(ParseFileInfo(path)))
      ensures !action.LoadRecent? ==>
        (loadSettings == old(loadSettings) && pathFile == old(pathFile) && fileInfo == old(fileInfo))
      ensures hasHeader == ((action.LoadRecent? && action.kind == Parquet) || old(hasHeader))
      ensures searchText == old(searchText)
    {
      action := RecentFileAction(path, onDisk);
      HandleRecent(path, action);
    }

    /** The branches of `_open_recent_file` once the action is chosen. */
    method HandleRecent(path: string, action: RecentAction)
      modifies this
      ensures action.LoadRecent? ==>
        (loadSettings == Some(LoadSettings(path, action.kind, action.options))
         && pathFile == Some(path) && fileInfo == Some(ParseFileInfo(path)))
      ensures !action.LoadRecent? ==>
        (loadSettings == old(loadSettings) && pathFile == old(pathFile) && fileInfo == old(fileInfo))
      ensures hasHeader == ((action.LoadRecent? && action.kind == Parquet) || old(hasHeader))
      ensures searchText == old(searchText)
    {
      if action.LoadRecent? {
        if action.kind == Parquet {
          hasHeader := true;
        }
        LoadFile(path, action.kind, action.options);
      }
    }

    /** `dropEvent`: a parquet file is loaded with the header flag set; a
        text file goes through the options dialog (`choice` is how it is
        answered); anything else is ignored. */
    method DropFile(path: string, choice: Option<DialogChoice>) returns (action: DropAction)
      modifies this
      ensures action == DropActionForExtension(ParseFileInfo(path).ext)
      ensures action == LoadDropped ==>
        (hasHeader && loadSettings == Some(LoadSettings(path, Parquet, NoOptions))
         && pathFile == Some(path) && fileInfo == Some(ParseFileInfo(path)))
      ensures action.AskOptions? && choice.Some? ==>
        (hasHeader == GetOptions(choice.value).hasHeader
         && loadSettings == Some(LoadSettings(path, action.kind,
                                              FromDialog(GetOptions(choice.value).read, action.compression)))
         && pathFile == Some(path) && fileInfo == Some(ParseFileInfo(path)))
      ensures action == IgnoreDrop || (action.AskOptions? && choice.None?) ==>
        (loadSettings == old(loadSettings) && hasHeader == old(hasHeader)
         && pathFile == old(pathFile) && fileInfo == old(fileInfo))
      ensures searchText == old(searchText)
    {
      action := DropActionForExtension(ParseFileInfo(path).ext);
      HandleDrop(path, action, choice);
    }

    /** The branches of `dropEvent` once the action is chosen. */
    method HandleDrop(path: string, action: DropAction, choice: Option<DialogChoice>)
      modifies this
      ensures action == LoadDropped ==>
        (hasHeader && loadSettings == Some(LoadSettings(path, Parquet, NoOptions))
         && pathFile == Some(path) && fileInfo == Some(ParseFileInfo(path)))
      ensures action.AskOptions? && choice.Some? ==>
        (hasHeader == GetOptions(choice.value).hasHeader
         && loadSettings == Some(LoadSettings(path, action.kind,
                                              FromDialog(GetOptions(choice.value).read, action.compression)))
         && pathFile == Some(path) && fileInfo == Some(ParseFileInfo(path)))
      ensures action == IgnoreDrop || (action.AskOptions? && choice.None?) ==>
        (loadSettings == old(loadSettings) && hasHeader == old(hasHeader)
         && pathFile == old(pathFile) && fileInfo == old(fileInfo))
      ensures searchText == old(searchText)
    {
      match action
      case IgnoreDrop =>
      case LoadDropped =>
        hasHeader := true;
        LoadFile(path, Parquet, NoOptions);
      case AskOptions(kind, _, compression) =>
        OpenTextWithOptions(path, kind, compression, choice);
    }

    /** `_on_data_loaded`: the (possibly renamed) table replaces the model's,
        the search is cleared, the pager returns to the first page, the header
        flag is reset, and the path becomes the most recent file. */
    method OnDataLoaded(t: TableModels.Table, onDisk: string -> bool, writable: bool)
      requires Valid()
      modifies this, model, pager, recent
      ensures Valid()
      ensures model.table == LoadedTable(old(hasHeader), t)
      ensures searchText == "" && pager.page == 0 && pager.pageSize == old(pager.pageSize)
      ensures hasHeader
      ensures pathFile == old(pathFile) && fileInfo == old(fileInfo) && loadSettings == old(loadSettings)
      ensures if pathFile.Some? && pathFile.value != "" && writable
        then recent.content == Config.Stored(Config.AddedRecent(
          Config.LoadedRecentFiles(old(recent.content), onDisk), pathFile.value))
        else recent.content == old(recent.content)
    {
      model.UpdateDataframe(LoadedTable(hasHeader, t));
      searchText := "";
      pager.FirstPage(|t.rows|);
      hasHeader := true;
      if pathFile.Some? && pathFile.value != "" {
        var _ := recent.AddRecentFile(pathFile.value, onDisk, writable);
      }
    }

    /** `_on_search_changed`: the new filter text, and the first page of what
        it leaves. */
    method OnSearchChanged(text: string, filteredRows: nat)
      requires Valid()
      modifies this, pager
      ensures Valid() && searchText == text
      ensures pager.page == 0 && pager.pageSize == old(pager.pageSize)
      ensures hasHeader == old(hasHeader) && pathFile == old(pathFile) && loadSettings == old(loadSettings)
      ensures fileInfo == old(fileInfo)
    {
      searchText := text;
      pager.FirstPage(filteredRows);
    }

    /** `_on_show`: back to the first page. */
    method OnShow(filteredRows: nat)
      requires Valid()
      modifies pager
      ensures Valid() && pager.page == 0 && pager.pageSize == old(pager.pageSize)
    {
      pager.FirstPage(filteredRows);
    }

    /** `_on_page_previous`. */
    method OnPagePrevious()
      requires Valid()
      modifies pager
      ensures Valid() && pager.pageSize == old(pager.pageSize)
      ensures pager.page == TableModels.Backward(old(pager.page))
    {
      var _ := pager.PreviousPage();
    }

    /** `_on_page_next`. */
    method OnPageNext(filteredRows: nat)
      requires Valid()
      modifies pager
      ensures Valid() && pager.pageSize == old(pager.pageSize)
      ensures pager.page == TableModels.Forward(old(pager.page), TableModels.PageCount(filteredRows, pager.pageSize))
    {
      var _ := pager.NextPage(filteredRows);
    }

    /** `_on_page_size_changed`. */
    method OnPageSizeChanged(size: int)
      requires Valid()
      modifies pager
      ensures Valid() && pager.page == 0 && pager.pageSize == Max(1, size)
    {
      pager.SetPageSize(size);
    }

    /** `_clear_data`: no table, no search, the first page, and no file. */
    method ClearData()
      requires Valid()
      modifies this, model, pager
      ensures Valid()
      ensures model.table == TableModels.EmptyTable && searchText == ""
      ensures pager.page == 0 && pager.pageSize == old(pager.pageSize)
      ensures pathFile.None? && fileInfo.None? && loadSettings.None?
      ensures hasHeader == old(hasHeader)
    {
      model.Clear();
      searchText := "";
      pager.FirstPage(0);
      pathFile := None;
      fileInfo := None;
      loadSettings := None;
    }
  }
}
