/** The configuration and recent-files history of src/config.py. The JSON
    file of recent paths is a store whose content is a field; the test
    `os.path.exists` is a predicate passed in; the YAML file is the outcome
    of reading it. */
module Config {
  import opened Seqs

  /** `MAX_RECENT_FILES`. */
  const MaxRecentFiles: nat := 10

  // ---------------------------------------------------------------------------
  //  Recent files
  // ---------------------------------------------------------------------------

  /** What the recent-files JSON file holds: nothing, something that cannot
      be read or decoded as a list of paths, or a list of paths. */
  datatype StoredFile = Missing | Unreadable | Stored(paths: seq<string>)

  /** `load_recent_files`: the stored paths that still exist on disk, in
      stored order; nothing when the file is missing or cannot be read. */
  function LoadedRecentFiles(store: StoredFile, onDisk: string -> bool): (r: seq<string>)
    ensures !store.Stored? ==> r == []
    ensures store.Stored? ==> forall f :: f in r <==> f in store.paths && onDisk(f)
    ensures store.Stored? ==> |r| <= |store.paths|
    ensures store.Stored? ==>
              forall f :: multiset(r)[f] == if onDisk(f) then multiset(store.paths)[f] else 0
  {
    if store.Stored? then
      var r := Filter(store.paths, onDisk);
      assert forall f :: multiset(r)[f] == if onDisk(f) then multiset(store.paths)[f] else 0 by {
        forall f ensures multiset(r)[f] == if onDisk(f) then multiset(store.paths)[f] else 0 {
          FilterMultiplicity(store.paths, onDisk, f);
        }
      }
      r
    else []
  }

  /** The loaded paths keep the order of the stored ones. */
  lemma LoadedKeepsStoredOrder(paths: seq<string>, onDisk: string -> bool)
    ensures IsSubsequence(LoadedRecentFiles(Stored(paths), onDisk), paths)
  {
    FilterIsSubsequence(paths, onDisk);
  }

  /** What `save_recent_files` writes: at most the first ten paths. */
  function Saved(files: seq<string>): (r: seq<string>)
    ensures |r| == Min(|files|, MaxRecentFiles)
    ensures r == files[..|r|]
  {
    if |files| <= MaxRecentFiles then files else files[..MaxRecentFiles]
  }

  /** The list `add_recent_file` ends with, given the loaded list `files`:
      `file_path` moved (or added) to the front, cut to ten entries. */
  function AddedRecent(files: seq<string>, path: string): (r: seq<string>)
    ensures 1 <= |r| <= MaxRecentFiles && r[0] == path
    ensures |r| == Min(MaxRecentFiles, if path in files then |files| else |files| + 1)
    ensures r[1..] == RemoveFirst(files, path)[..|r| - 1]
  {
    var rest := RemoveFirst(files, path);
    var all := [path] + rest;
    assert all[1..] == rest;
    var r := Saved(all);
    assert r[1..] == all[1..][..|r| - 1];
    r
  }

  /** A path that was listed at most once is listed exactly once afterwards. */
  lemma {:induction false} AddedRecentOnce(files: seq<string>, path: string)
    requires Count(files, path) <= 1
    ensures Count(AddedRecent(files, path), path) == 1
  {
    var r := AddedRecent(files, path);
    var rest := RemoveFirst(files, path);
    assert path !in rest by {
      RemoveFirstMultiset(files, path);
      assert multiset(rest)[path] == 0;
    }
    assert path !in r[1..] by {
      assert forall k :: 0 <= k < |r| - 1 ==> r[1..][k] == rest[k];
    }
    assert r == [path] + r[1..];
    assert multiset(r) == multiset{path} + multiset(r[1..]);
  }

  /** The entries after the first are the other loaded paths in their old
      order, so every entry was loaded or is the new path. */
  lemma AddedRecentKeepsOrder(files: seq<string>, path: string)
    ensures IsSubsequence(AddedRecent(files, path)[1..], files)
    ensures forall f :: f in AddedRecent(files, path) ==> f == path || f in files
  {
    var r := AddedRecent(files, path);
    var rest := RemoveFirst(files, path);
    RemoveFirstIsSubsequence(files, path);
    PrefixOfSubsequence(rest, files, |r| - 1);
    SubsequenceMembers(r[1..], files);
    assert forall f :: f in r ==> f == r[0] || f in r[1..] by {
      assert r == [r[0]] + r[1..];
    }
  }

  /** Adding the path that is already most recent changes nothing. */
  lemma AddedRecentIdempotent(files: seq<string>, path: string)
    ensures AddedRecent(AddedRecent(files, path), path) == AddedRecent(files, path)
  {
    var r := AddedRecent(files, path);
    assert RemoveFirst(r, path) == r[1..];
    assert [path] + r[1..] == r;
  }

  /** With ten paths listed, opening a new one puts it first and drops the
      oldest. */
  lemma AddedRecentDropsOldest(files: seq<string>, path: string)
    requires |files| == MaxRecentFiles && path !in files
    ensures AddedRecent(files, path) == [path] + files[..MaxRecentFiles - 1]
  {
    var r := AddedRecent(files, path);
    assert r[1..] == files[..MaxRecentFiles - 1];
    assert r == [r[0]] + r[1..];
  }

  /** Re-opening a listed path only moves it to the front; the first path
      opened makes a list of one. */
  lemma AddedRecentExamples(a: string, b: string, c: string)
    requires a != b && b != c && a != c
    ensures AddedRecent([a, b, c], b) == [b, a, c]
    ensures AddedRecent([], a) == [a]
  {
    var s := [a, b, c];
    assert s[0] == a && s[1..] == [b, c];
    assert [b, c][1..] == [c];
    assert RemoveFirst([b, c], b) == [c];
    assert RemoveFirst(s, b) == [a] + [c];
    assert Saved([b] + [a, c]) == [b, a, c];
  }

  /** The recent-files JSON file. */
  class RecentFilesStore {
    var content: StoredFile

    constructor (initial: StoredFile)
      ensures content == initial
    {
      content := initial;
    }

    /** `save_recent_files`: the first ten paths replace the file when it can
        be written; otherwise (the error is only logged) the file keeps what
        it held. */
    method SaveRecentFiles(files: seq<string>, writable: bool)
      modifies this
      ensures writable ==> content == Stored(Saved(files))
      ensures !writable ==> content == old(content)
    {
      if writable {
        content := Stored(Saved(files));
      }
    }

    /** `add_recent_file`: load the existing paths, remove the path when it is
        listed, insert it at the front, cut the list to ten entries, save it
        and return it. */
    method AddRecentFile(path: string, onDisk: string -> bool, writable: bool)
      returns (files: seq<string>)
      modifies this
      ensures files == AddedRecent(LoadedRecentFiles(old(content), onDisk), path)
      ensures writable ==> content == Stored(files)
      ensures !writable ==> content == old(content)
    {
      files := LoadedRecentFiles(content, onDisk);
      if path in files {
        files := RemoveFirst(files, path);
      }
      files := [path] + files;
      files := files[..Min(|files|, MaxRecentFiles)];
      SaveRecentFiles(files, writable);
    }
  }

  // ---------------------------------------------------------------------------
  //  Application configuration
  // ---------------------------------------------------------------------------

  /** A YAML document as `yaml.safe_load` returns it (mappings keyed by
      strings; floats and dates are not modelled). */
  datatype Yaml =
    | YNull
    | YBool(b: bool)
    | YInt(i: int)
    | YStr(s: string)
    | YList(items: seq<Yaml>)
    | YMap(entries: map<string, Yaml>)

  /** Python truthiness of a loaded document. */
  predicate Truthy(y: Yaml) {
    match y
    case YNull => false
    case YBool(b) => b
    case YInt(i) => i != 0
    case YStr(s) => s != ""
    case YList(items) => items != []
    case YMap(entries) => entries != map[]
  }

  /** `_DEFAULT_CONFIG`. */
  const DefaultConfig: Yaml := YMap(map[
    "app" := YMap(map[
      "files" := YMap(map[
        "txt-auto-infer-types" := YBool(true),
        "txt-encodings" := YStr("utf-8, iso-8859-1, windows-1252, latin1, ascii"),
        "txt-delimiter" := YStr("|")])])])

  /** The outcome of opening and parsing conf.yaml. */
  datatype ConfigSource = ConfigMissing | ConfigUnreadable | ConfigParsed(doc: Yaml)

  /** `load_config`: the parsed document when it is truthy; the defaults
      when the file is missing, cannot be read or parsed, or is empty. The
      result is never empty. */
  function LoadConfig(source: ConfigSource): (r: Yaml)
    ensures Truthy(r)
    ensures source.ConfigParsed? && Truthy(source.doc) ==> r == source.doc
    ensures !source.ConfigParsed? || !Truthy(source.doc) ==> r == DefaultConfig
  {
    match source
    case ConfigParsed(doc) => if Truthy(doc) then doc else DefaultConfigTruthy(); DefaultConfig
    case _ => DefaultConfigTruthy(); DefaultConfig
  }

  lemma DefaultConfigTruthy()
    ensures Truthy(DefaultConfig)
  {
    assert "app" in DefaultConfig.entries;
  }
}
