/** `Action.FilterFile`: which candidate paths are kept for conversion, and in what order. */
module Filter {
  import opened Wrappers
  import opened Config
  import opened FileSystem

  /** What the program keeps of a `FileInfo`: its full name and its extension. */
  datatype FileInfo = FileInfo(fullName: Path, extension: string)

  /** What selection asks of the file system: which paths name an existing file
      (`File.Exists`), and the full name and extension `FileInfo` derives from a path. */
  datatype Host = Host(existing: set<Path>, fullName: Path -> Path, extension: Path -> string)

  function Info(host: Host, path: Path): FileInfo
  {
    FileInfo(host.fullName(path), host.extension(path))
  }

  /** The `HashSet<string>` built from an option list; a `null` list gives the empty set. */
  function ExtensionSet(list: Option<seq<string>>): (r: set<string>)
    ensures forall e :: e in r <==> list.Some? && e in list.value
  {
    if list.None? then {} else set e | e in list.value
  }

  /** The extension test: allowed (by the wildcard or by name) and not denied. */
  predicate Admits(whiteList: set<string>, blackList: set<string>, extension: string)
  {
    ("*" in whiteList || extension in whiteList) && extension !in blackList
  }

  /** True when `path` is kept: non-empty, existing, and its extension admitted. */
  predicate Selected(options: Options, host: Host, path: Path)
  {
    && path != ""
    && path in host.existing
    && Admits(ExtensionSet(options.extensionWhiteList), ExtensionSet(options.extensionBlackList), host.extension(path))
  }

  /** The file infos of the selected candidates, in candidate order. */
  function Selection(options: Options, host: Host, files: seq<Path>): (r: seq<FileInfo>)
    ensures |r| <= |files|
    decreases |files|
  {
    if files == [] then []
    else
      var last := files[|files| - 1];
      Selection(options, host, files[..|files| - 1]) + (if Selected(options, host, last) then [Info(host, last)] else [])
  }

  /** The indices of the selected candidates, in increasing order. */
  function SelectedIndices(options: Options, host: Host, files: seq<Path>): seq<nat>
    decreases |files|
  {
    if files == [] then []
    else
      var n := |files| - 1;
      SelectedIndices(options, host, files[..n]) + (if Selected(options, host, files[n]) then [n] else [])
  }

  /** The loop of `FilterFile`: it appends to the list it is given and returns it. */
  method FilterFile(options: Options, host: Host, files: seq<Path>, willConvertFiles: seq<FileInfo>)
    returns (result: seq<FileInfo>)
    ensures result == willConvertFiles + Selection(options, host, files)
  {
    var whiteList := ExtensionSet(options.extensionWhiteList);
    var allExtension := "*" in whiteList;
    var blackList := ExtensionSet(options.extensionBlackList);
    result := willConvertFiles;
    for i := 0 to |files|
      invariant result == willConvertFiles + Selection(options, host, files[..i])
    {
      assert files[..i + 1][..i] == files[..i];
      var file := files[i];
      if file == "" || file !in host.existing {
        continue;
      }
      var info := Info(host, file);
      if (allExtension || info.extension in whiteList) && info.extension !in blackList {
        result := result + [info];
      }
    }
    assert files[..|files|] == files;
  }

  // ---------------------------------------------------------------------------
  // Properties of the selection

  /** The selection test in terms of the option lists themselves: a `null` allowlist
      admits nothing, the denylist always wins. */
  lemma SelectedIff(options: Options, host: Host, path: Path)
    ensures Selected(options, host, path) <==>
      && path != ""
      && path in host.existing
      && options.extensionWhiteList.Some?
      && ("*" in options.extensionWhiteList.value || host.extension(path) in options.extensionWhiteList.value)
      && !(options.extensionBlackList.Some? && host.extension(path) in options.extensionBlackList.value)
  {
  }

  /** The selection holds the infos of the candidates at the selected indices, in order. */
  lemma {:induction false} SelectionAtIndices(options: Options, host: Host, files: seq<Path>)
    ensures var sel, idx := Selection(options, host, files), SelectedIndices(options, host, files);
      && |sel| == |idx|
      && (forall k :: 0 <= k < |idx| ==> idx[k] < |files| && sel[k] == Info(host, files[idx[k]]))
    decreases |files|
  {
    if files != [] {
      var n := |files| - 1;
      var prefix := files[..n];
      SelectionAtIndices(options, host, prefix);
      var idx' := SelectedIndices(options, host, prefix);
      assert forall k :: 0 <= k < |idx'| ==> files[idx'[k]] == prefix[idx'[k]];
    }
  }

  /** The selected indices are strictly increasing and name exactly the selected candidates. */
  lemma {:induction false} SelectedIndicesExact(options: Options, host: Host, files: seq<Path>)
    ensures var idx := SelectedIndices(options, host, files);
      && (forall k :: 0 <= k < |idx| ==> idx[k] < |files|)
      && (forall k, l :: 0 <= k < l < |idx| ==> idx[k] < idx[l])
      && (forall i :: 0 <= i < |files| ==> (Selected(options, host, files[i]) <==> i in idx))
    decreases |files|
  {
    if files != [] {
      var n := |files| - 1;
      var prefix := files[..n];
      SelectedIndicesExact(options, host, prefix);
      var idx := SelectedIndices(options, host, files);
      var idx' := SelectedIndices(options, host, prefix);
      assert idx == idx' + (if Selected(options, host, files[n]) then [n] else []);
      forall i | 0 <= i < |files| ensures Selected(options, host, files[i]) <==> i in idx {
        if i < n {
          assert files[i] == prefix[i];
          assert i in idx <==> i in idx';
        }
      }
    }
  }

  /** The selection is exactly the infos of the selected candidates, taken at strictly
      increasing indices: a subsequence of the candidates, in their order, missing none. */
  lemma SelectionByIndices(options: Options, host: Host, files: seq<Path>)
    ensures var sel, idx := Selection(options, host, files), SelectedIndices(options, host, files);
      && |sel| == |idx|
      && (forall k :: 0 <= k < |idx| ==> idx[k] < |files| && sel[k] == Info(host, files[idx[k]]))
      && (forall k, l :: 0 <= k < l < |idx| ==> idx[k] < idx[l])
      && (forall i :: 0 <= i < |files| ==> (Selected(options, host, files[i]) <==> i in idx))
  {
    SelectionAtIndices(options, host, files);
    SelectedIndicesExact(options, host, files);
  }

  /** Selecting from two lists one after the other is selecting from their concatenation. */
  lemma {:induction false} SelectionAppend(options: Options, host: Host, a: seq<Path>, b: seq<Path>)
    ensures Selection(options, host, a + b) == Selection(options, host, a) + Selection(options, host, b)
    decreases |b|
  {
    if b == [] {
      assert a + b == a;
    } else {
      var n := |b| - 1;
      assert (a + b)[..|a + b| - 1] == a + b[..n];
      assert (a + b)[|a + b| - 1] == b[n];
      SelectionAppend(options, host, a, b[..n]);
    }
  }

  /** A `null` or empty allowlist selects nothing. */
  lemma {:induction false} NoAllowlistSelectsNothing(options: Options, host: Host, files: seq<Path>)
    requires options.extensionWhiteList == None || options.extensionWhiteList == Some([])
    ensures Selection(options, host, files) == []
    decreases |files|
  {
    if files != [] {
      NoAllowlistSelectsNothing(options, host, files[..|files| - 1]);
    }
  }

  /** Nothing selected has a denied extension, even when the allowlist names it. */
  lemma DenylistWins(options: Options, host: Host, files: seq<Path>)
    ensures forall f :: f in Selection(options, host, files) ==>
      !(options.extensionBlackList.Some? && f.extension in options.extensionBlackList.value)
  {
    SelectionByIndices(options, host, files);
    var sel, idx := Selection(options, host, files), SelectedIndices(options, host, files);
    forall f | f in sel
      ensures !(options.extensionBlackList.Some? && f.extension in options.extensionBlackList.value)
    {
      var k :| 0 <= k < |sel| && sel[k] == f;
      var i := idx[k];
      assert i in idx;
    }
  }

  /** With the default wildcard allowlist and no denylist, every non-empty path naming an
      existing file is selected. */
  lemma WildcardSelectsEveryExistingFile(options: Options, host: Host, path: Path)
    requires options.extensionWhiteList == DEFAULT_OPTIONS.extensionWhiteList
    requires options.extensionBlackList == None
    ensures Selected(options, host, path) <==> path != "" && path in host.existing
  {
    assert "*" in ExtensionSet(options.extensionWhiteList);
  }
}
