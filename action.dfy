/** The `Action` constructor: select the files from the directory listing and from the
    path file, then convert them to the line ending the `eol` option picks. */
module Action {
  import opened Wrappers
  import opened Config
  import opened FileSystem
  import opened Filter
  import opened Conversion
  import opened EolText

  /** What the run finds outside the files it converts: the recursive listing of each
      existing directory (`Directory.GetFiles`), the lines of each readable path file
      (`File.ReadAllLines`), and what selection asks of paths. */
  datatype Environment = Environment(
    listings: map<Path, seq<Path>>,
    pathLists: map<Path, seq<Path>>,
    host: Host)

  /** How a run ends. The first three are exceptions that end the process before any file
      is written; `Finished` carries the count the run reports. */
  datatype Outcome = DirectoryNotFound | PathsFileUnreadable | EolOutOfRange | Finished(convertedFileCount: nat)

  predicate DirectoryMissing(options: Options, env: Environment)
  {
    !IsNullOrEmpty(options.directory) && options.directory.value !in env.listings
  }

  predicate PathsFileMissing(options: Options, env: Environment)
  {
    !IsNullOrEmpty(options.pathsFile) && options.pathsFile.value !in env.pathLists
  }

  /** The files the run converts: the directory's candidates first, then the path file's,
      each filtered in order, with no de-duplication. */
  function WillConvertFiles(options: Options, env: Environment): seq<FileInfo>
  {
    (if !IsNullOrEmpty(options.directory) && options.directory.value in env.listings
     then Selection(options, env.host, env.listings[options.directory.value]) else [])
    + (if !IsNullOrEmpty(options.pathsFile) && options.pathsFile.value in env.pathLists
       then Selection(options, env.host, env.pathLists[options.pathsFile.value]) else [])
  }

  method Run(options: Options, env: Environment, disk: Disk) returns (outcome: Outcome)
    modifies disk
    ensures var batch := Batch(Tally(old(disk.files), 0), disk.faults, WillConvertFiles(options, env),
                               if 0 <= options.eol < |EOLS| then EOLS[options.eol] else "");
      && outcome == (if DirectoryMissing(options, env) then DirectoryNotFound
                     else if PathsFileMissing(options, env) then PathsFileUnreadable
                     else if !(0 <= options.eol < |EOLS|) then EolOutOfRange
                     else Finished(batch.converted))
      && disk.files == (if outcome.Finished? then batch.files else old(disk.files))
  {
    var willConvertFiles: seq<FileInfo> := [];
    if !IsNullOrEmpty(options.directory) {
      if options.directory.value !in env.listings {
        return DirectoryNotFound;
      }
      var allFiles := env.listings[options.directory.value];
      willConvertFiles := FilterFile(options, env.host, allFiles, willConvertFiles);
    }
    if !IsNullOrEmpty(options.pathsFile) {
      if options.pathsFile.value !in env.pathLists {
        return PathsFileUnreadable;
      }
      var allFiles := env.pathLists[options.pathsFile.value];
      willConvertFiles := FilterFile(options, env.host, allFiles, willConvertFiles);
    }
    var targetEol := TargetEol(options.eol);
    if targetEol.None? {
      return EolOutOfRange;
    }
    assert willConvertFiles == WillConvertFiles(options, env);
    var convertedFileCount := ConvertFiles(disk, willConvertFiles, targetEol.value);
    outcome := Finished(convertedFileCount);
  }

  /** With the same options and environment, the files listed under the directory and in the
      path file give the selection of their concatenation, directory first. */
  lemma WillConvertFilesIsSelectionOfAll(options: Options, env: Environment)
    requires !IsNullOrEmpty(options.directory) && options.directory.value in env.listings
    requires !IsNullOrEmpty(options.pathsFile) && options.pathsFile.value in env.pathLists
    ensures WillConvertFiles(options, env)
      == Selection(options, env.host, env.listings[options.directory.value] + env.pathLists[options.pathsFile.value])
  {
    SelectionAppend(options, env.host, env.listings[options.directory.value], env.pathLists[options.pathsFile.value]);
  }

  /** A run with a `null` or empty allowlist converts nothing. */
  lemma NoAllowlistConvertsNothing(options: Options, env: Environment, files: map<Path, string>, faults: Faults, target: string)
    requires options.extensionWhiteList == None || options.extensionWhiteList == Some([])
    ensures Batch(Tally(files, 0), faults, WillConvertFiles(options, env), target) == Tally(files, 0)
  {
    if !IsNullOrEmpty(options.directory) && options.directory.value in env.listings {
      NoAllowlistSelectsNothing(options, env.host, env.listings[options.directory.value]);
    }
    if !IsNullOrEmpty(options.pathsFile) && options.pathsFile.value in env.pathLists {
      NoAllowlistSelectsNothing(options, env.host, env.pathLists[options.pathsFile.value]);
    }
  }

  // ---------------------------------------------------------------------------
  // Two end-to-end runs

  /** A directory `D` holding `a.c` and `b.txt`; allowlist `[".c"]`, target LF. */
  const DIRECTORY_OPTIONS: Options := Options(Some("D"), None, Some([".c"]), None, 0)
  const DIRECTORY_ENV: Environment :=
    Environment(map["D" := ["a.c", "b.txt"]], map[], Host({"a.c", "b.txt"}, p => p, p => if p == "a.c" then ".c" else ".txt"))

  /** Of the two files, only `a.c` has an allowed extension. */
  lemma DirectorySelection()
    ensures WillConvertFiles(DIRECTORY_OPTIONS, DIRECTORY_ENV) == [FileInfo("a.c", ".c")]
  {
    var listing: seq<Path> := ["a.c", "b.txt"];
    assert DIRECTORY_ENV.listings["D"] == listing;
    assert listing[..1] == ["a.c"] && listing[..1][..0] == [];
    assert !Selected(DIRECTORY_OPTIONS, DIRECTORY_ENV.host, "b.txt");
    assert Selected(DIRECTORY_OPTIONS, DIRECTORY_ENV.host, "a.c");
  }

  /** Only `a.c` is selected. When it holds a CRLF pair it is rewritten to LF and counted;
      `b.txt` is not touched. */
  lemma DirectoryScenarioToLf(source: string, notes: string)
    requires !NoCrlf(source)
    ensures WillConvertFiles(DIRECTORY_OPTIONS, DIRECTORY_ENV) == [FileInfo("a.c", ".c")]
    ensures var r := Batch(Tally(map["a.c" := source, "b.txt" := notes], 0), Faults({}, {}),
                           WillConvertFiles(DIRECTORY_OPTIONS, DIRECTORY_ENV), EOLS[DIRECTORY_OPTIONS.eol]);
      && r.converted == 1
      && r.files == map["a.c" := Convert(source, LF), "b.txt" := notes]
      && NoCrlf(r.files["a.c"]) == NoCrCrlf(source)
  {
    DirectorySelection();
    BatchOfOne(Tally(map["a.c" := source, "b.txt" := notes], 0), Faults({}, {}), FileInfo("a.c", ".c"), LF);
    ConvertToLfUnchangedIff(source);
    ConvertIsNormalize(source, LF);
    NormalizeToLfNoCrlfIff(source);
  }

  /** A path file `list.txt` naming one file `f`; the default wildcard allowlist, target CRLF. */
  const PATH_FILE_OPTIONS: Options := Options(None, Some("list.txt"), Some(["*"]), None, 1)
  const PATH_FILE_ENV: Environment := Environment(map[], map["list.txt" := ["f"]], Host({"f"}, p => p, p => ""))

  /** The one listed file exists and the wildcard admits it. */
  lemma PathFileSelection()
    ensures WillConvertFiles(PATH_FILE_OPTIONS, PATH_FILE_ENV) == [FileInfo("f", "")]
  {
    var listing: seq<Path> := ["f"];
    assert PATH_FILE_ENV.pathLists["list.txt"] == listing;
    assert listing[..0] == [];
    assert Selected(PATH_FILE_OPTIONS, PATH_FILE_ENV.host, "f");
  }

  /** A listed file with an LF not preceded by CR is rewritten to CRLF form and counted. */
  lemma PathFileScenarioToCrlf(text: string)
    requires !LfPrecededByCr(text)
    ensures WillConvertFiles(PATH_FILE_OPTIONS, PATH_FILE_ENV) == [FileInfo("f", "")]
    ensures var r := Batch(Tally(map["f" := text], 0), Faults({}, {}),
                           WillConvertFiles(PATH_FILE_OPTIONS, PATH_FILE_ENV), EOLS[PATH_FILE_OPTIONS.eol]);
      && r.converted == 1
      && r.files == map["f" := Convert(text, CRLF)]
      && LfPrecededByCr(r.files["f"])
  {
    PathFileSelection();
    BatchOfOne(Tally(map["f" := text], 0), Faults({}, {}), FileInfo("f", ""), CRLF);
    ConvertToCrlfUnchangedIff(text);
    ConvertToCrlfForm(text);
  }
}
