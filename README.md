# ConvertEOL, modelled in Dafny

ConvertEOL is a batch line-ending normaliser. The `Action` constructor does three things:

1. It collects candidate paths from a directory listing and from a path file.
2. `FilterFile` keeps the candidates that exist and whose extension passes an allowlist and a denylist.
3. Each kept file is rewritten with `text.Replace("\r\n", "\n").Replace("\n", target)`, where `target` is `"\n"` (option `eol` 0) or `"\r\n"` (option `eol` 1). A file is written back only when the text changed, and the changed files are counted.

The model follows that structure:

- `wrappers.dfy`, module `Wrappers`: an `Option` type, standing for `null` and for a call that threw.
- `dotnet_string.dfy`, module `DotNetString`: ordinal `String.Replace` as a recursive function. It scans from left to right and replaces non-overlapping occurrences.
- `eol_text.dfy`, module `EolText`:
  - `Convert` is the two-step `Replace` chain exactly as written.
  - `Normalize` is an independent single-pass rewrite. It turns a CRLF pair or a lone LF into the target and keeps every other character, a bare CR included.
  - `ConvertIsNormalize` proves the two equal. Every text property below is proved through it.
  - `ConvertToLfIsFirstStep` and `FirstStepWithoutCrlf` relate the conversion to each `Replace` step.
- `config.dfy`, module `Config`: the `Options` object as a datatype, its defaults (the declared ones, and 0 for `eol`), and the `EOLs` table with the lookup `TargetEol`.
- `file_system.dfy`, module `FileSystem`: a `Disk` class whose `files` map `ReadAllText`/`WriteAllText` read and update in place. Which reads and writes throw is given up front as two sets of paths.
- `filter.dfy`, module `Filter`: the extension test, the selection as a function, and `FilterFile` as a loop against it. `FilterFile`'s `ref List<FileInfo>` becomes an in/out sequence: the list is received and returned with the new entries appended.
- `conversion.dfy`, module `Conversion`: the conversion loop, `ConvertFiles`, over a `Disk`. It is proved against `Batch`, a function that folds one `Visit` per file over the list.
- `action.dfy`, module `Action`: `Run`, the constructor as a whole. Setup failures are modelled as outcomes that end the run before any write: a missing directory, an unreadable path file, an `eol` outside `0..1` that makes `EOLs[options.EOL]` throw.

Behaviour of the code that the model keeps, where it differs from what one might assume:

- LF mode is not idempotent and does not remove every CRLF pair. `"\r\r\n"` becomes `"\r\n"`, and a second run turns that into `"\n"` (`ConvertToLfNotIdempotent`). A bare CR is never touched.
  - So idempotence holds for CRLF always, but for LF only when the input holds no `"\r\r\n"` (`ConvertToLfIdempotentIff`). An LF-mode result can still contain CR characters.
- A `null` allowlist, or an empty one, builds an empty set and selects nothing. Only `"*"` selects every extension; it is the default.
  - An empty allowlist therefore does not mean "all extensions".
- Extensions are compared exactly, case included, as the default `HashSet<string>` comparer does.
- `convertedFileCount` is incremented before `File.WriteAllText`. A changed file whose write throws is therefore still counted, and its content stays as it was.
- Candidates from the directory come before those from the path file. Nothing is de-duplicated, so a file listed twice is visited twice, the second time with its already converted text.

## Model

| member | source | states |
|---|---|---|
| DotNetString.Replace | ConvertEOL/Program.cs:81 | a replacement no longer than the pattern never lengthens the text, and one of the same length keeps its length; `ReplaceWithoutOccurrence` and `ReplaceBySelf` state what it leaves unchanged |
| DotNetString.ReplaceWithoutOccurrence | ConvertEOL/Program.cs:81 | a text in which the pattern does not occur is returned unchanged by `Replace` |
| DotNetString.ReplaceBySelf | ConvertEOL/Program.cs:81 | replacing a pattern by itself is the identity |
| EolText.Convert | ConvertEOL/Program.cs:81 | with the LF target (one character) the conversion never lengthens the text; `ConvertIsNormalize` states what it computes and the rows below what it preserves |
| EolText.ConvertIsNormalize | ConvertEOL/Program.cs:81 | the two-step chain equals the single left-to-right rewrite: CRLF or lone LF to the target, every other character kept, for any target |
| EolText.ConvertToLfIsFirstStep | ConvertEOL/Program.cs:81 | with target LF the second `Replace` changes nothing: the result is the first step's |
| EolText.FirstStepWithoutCrlf | ConvertEOL/Program.cs:81 | a text holding no CRLF pair passes the first `Replace` unchanged |
| EolText.ConvertPreservesLfCount | ConvertEOL/Program.cs:81 | for either EOL the number of LF characters is the same before and after |
| EolText.ConvertKeepsNonEolText | ConvertEOL/Program.cs:81 | deleting every CR and LF from input and output gives the same text: the other characters are unchanged and in order |
| EolText.ConvertToCrlfForm | ConvertEOL/Program.cs:81 | with target CRLF every LF of the output is immediately preceded by a CR |
| EolText.ConvertToCrlfUnchangedIff | ConvertEOL/Program.cs:81-83 | with target CRLF the text is unchanged (no write happens) exactly when every LF is already preceded by a CR |
| EolText.ConvertToCrlfIdempotent | ConvertEOL/Program.cs:81 | with target CRLF converting a converted text changes nothing |
| EolText.ConvertToLfUnchangedIff | ConvertEOL/Program.cs:81-83 | with target LF the text is unchanged exactly when it holds no CRLF pair |
| EolText.ConvertToLfWithoutCr | ConvertEOL/Program.cs:81-92 | with target LF a text without CR is unchanged, so the file is ignored |
| EolText.ConvertWithoutLf | ConvertEOL/Program.cs:81 | a text without LF is unchanged for any target; bare CRs are never touched |
| EolText.NormalizeToLfNoCrlfIff | ConvertEOL/Program.cs:81 | the LF-form output holds a CRLF pair exactly when the input holds a CR followed by a CRLF pair |
| EolText.ConvertToLfIdempotentIff | ConvertEOL/Program.cs:81 | with target LF a second conversion changes nothing exactly when the input holds no `"\r\r\n"` |
| EolText.ConvertToLfNotIdempotent | ConvertEOL/Program.cs:81 | `"\r\r\n"` converts to `"\r\n"` in LF mode, which converts again to `"\n"` |
| Config.TargetEol | ConvertEOL/Program.cs:74 | `EOLs[options.EOL]` (the table at line 55) is defined exactly for 0 and 1, giving LF for 0 and CRLF for 1; any other index throws |
| Config.DefaultTargetIsLf | ConvertEOL/Program.cs:170-173 | with `eol` at the `int` property's default 0, the target is LF |
| FileSystem.Disk.ReadAllText | ConvertEOL/Program.cs:80 | a read gives the whole content, or nothing when the file is missing or the read throws |
| FileSystem.Disk.WriteAllText | ConvertEOL/Program.cs:86 | a write replaces the whole content of that one path, or throws and changes nothing |
| Filter.ExtensionSet | ConvertEOL/Program.cs:119-125 | the set holds exactly the list's elements; a `null` list gives the empty set |
| Filter.FilterFile | ConvertEOL/Program.cs:117-143 | the returned list is the given list, untouched, followed by the selected candidates in candidate order |
| Filter.Selected | ConvertEOL/Program.cs:129-136 | the per-candidate test; `SelectedIff` states when it holds, as a biconditional |
| Filter.Selection | ConvertEOL/Program.cs:126-139 | the selection is never longer than the candidate list; `SelectionByIndices` states its exact contents and order |
| Filter.SelectedIff | ConvertEOL/Program.cs:119-136 | a candidate is kept exactly when it is non-empty, exists, the allowlist is present and holds `"*"` or its extension, and the denylist does not hold its extension |
| Filter.SelectionAtIndices | ConvertEOL/Program.cs:126-139 | the selection holds, in order, the infos of the candidates at the selected indices |
| Filter.SelectedIndicesExact | ConvertEOL/Program.cs:126-139 | the selected indices are strictly increasing and name exactly the candidates the test keeps |
| Filter.SelectionByIndices | ConvertEOL/Program.cs:126-139 | the selection is the infos of exactly the selected candidates, taken at strictly increasing indices: an order-preserving subsequence missing none |
| Filter.SelectionAppend | ConvertEOL/Program.cs:60-71 | filtering two candidate lists one after the other equals filtering their concatenation |
| Filter.NoAllowlistSelectsNothing | ConvertEOL/Program.cs:119-122 | a `null` or empty allowlist selects no file |
| Filter.DenylistWins | ConvertEOL/Program.cs:135-136 | no selected file has a denied extension, whatever the allowlist says |
| Filter.WildcardSelectsEveryExistingFile | ConvertEOL/Program.cs:160-168 | with the default allowlist `["*"]` and no denylist, a candidate is kept exactly when it is non-empty and exists |
| Conversion.Visit | ConvertEOL/Program.cs:77-97 | one iteration creates and deletes no file, changes no path but the visited one, and adds at most one to the count |
| Conversion.Batch | ConvertEOL/Program.cs:75-98 | the loop creates and deletes no file, and the count grows by at most the length of the list |
| Conversion.ConvertFiles | ConvertEOL/Program.cs:73-98 | the loop leaves the disk and the count that `Batch` prescribes |
| Conversion.BatchAppend | ConvertEOL/Program.cs:75-98 | running the loop over `a + b` is running it over `a`, then over `b` |
| Conversion.BatchFrame | ConvertEOL/Program.cs:75-98 | the loop creates and deletes no file, never lowers the count, and leaves every path it does not visit as it was |
| Conversion.SkipsFailedRead | ConvertEOL/Program.cs:78-97 | a file whose read fails is skipped without stopping the loop: removing it from the list changes neither the files nor the count |
| Conversion.BatchCountOnDistinctFiles | ConvertEOL/Program.cs:73-92 | for a list naming each file once, the count is the number of listed files whose converted text differs from their content (a changed file whose write fails included) |
| Conversion.BatchContentOnDistinctFiles | ConvertEOL/Program.cs:75-97 | for a list naming each file once, each file gets its converted text exactly when that differs and the write succeeds; every other file keeps its content |
| Conversion.BatchAtDistinctNames | ConvertEOL/Program.cs:75-97 | for a list naming each file once, each listed file ends with the content that one visit of it gives when applied to its content before the run |
| Conversion.CrlfRunLeavesCrlfForm | ConvertEOL/Program.cs:81-86 | after a CRLF run whose writes succeed, every visited readable file is in CRLF form |
| Conversion.CrlfRunOnCrlfFiles | ConvertEOL/Program.cs:81-92 | a CRLF run over files already in CRLF form writes nothing and counts nothing |
| Conversion.CrlfSecondRunIsNoop | ConvertEOL/Program.cs:73-98 | with target CRLF and no failing write, a second run over the same list converts nothing |
| Action.WillConvertFiles | ConvertEOL/Program.cs:59-71 | the files to convert; `WillConvertFilesIsSelectionOfAll` and `Run` state what they are |
| Action.Run | ConvertEOL/Program.cs:57-100 | a missing directory, an unreadable path file or an `eol` outside `0..1` ends the run with no write; otherwise the run converts the directory's and the path file's selections, in that order, and reports the count |
| Action.WillConvertFilesIsSelectionOfAll | ConvertEOL/Program.cs:59-71 | the files converted are the selection of the directory listing followed by the path list |
| Action.NoAllowlistConvertsNothing | ConvertEOL/Program.cs:119-122 | with a `null` or empty allowlist a run changes no file and counts zero |
| Action.DirectorySelection | ConvertEOL/Program.cs:126-139 | of `a.c` and `b.txt` under allowlist `[".c"]`, only `a.c` is selected |
| Action.PathFileSelection | ConvertEOL/Program.cs:126-139 | an existing listed file is selected by the wildcard allowlist |
| Action.DirectoryScenarioToLf | ConvertEOL/Program.cs:57-99 | a directory with `a.c` holding a CRLF pair and `b.txt`, allowlist `[".c"]`, target LF: only `a.c` is rewritten, to its converted text, count 1; the result is CRLF-free exactly when `a.c` held no `"\r\r\n"` |
| Action.PathFileScenarioToCrlf | ConvertEOL/Program.cs:57-99 | a path file naming one file with an LF not preceded by CR, target CRLF: the file is rewritten into CRLF form, count 1 |

## Left out

- `Program.Main`, the command-line parser, the usage example, `Console.ReadKey` and the `OnException` hook with `Environment.Exit`: these are process and UI plumbing around a foreign library. `Run` returns the exception a setup failure would raise as an outcome instead.
- `Directory.GetFiles`, `File.ReadAllLines` and `File.Exists` are inputs. They are a map from each existing directory to its recursive listing, a map from each readable path file to its lines, and a set of existing paths. Enumeration order and line splitting belong to the library and the OS.
- `OpenOrCreateDirectory` is always called with `createIfNotFound` false. It is modelled as "the directory has a listing", and otherwise the run ends with `DirectoryNotFound`.
- `FileInfo.FullName` and `FileInfo.Extension` are uninterpreted functions on paths: their path logic belongs to the library.
- Text encoding, byte-order marks and the byte-level behaviour of `ReadAllText`/`WriteAllText` are out of scope: the model works on `seq<char>`.
- FileSystem.Disk.WriteAllText: a failing write is modelled as leaving the file as it was, and which paths fail is fixed for the run. A partial write after truncation and transient failures are not modelled.
- Console log messages affect only diagnostics. "Ignore file" at line 141 is printed for every existing candidate, selected or not; empty or missing candidates print nothing, because of the `continue` at lines 129-133.
- The `eol` option declares `Default = false` on an `int` property (line 171). How the command-line parser treats that boolean default is not modelled; `Config.DEFAULT_OPTIONS` uses 0, the property's C# default.
- `Directory.GetFiles` at line 63 can also throw on an existing directory (access denied, a path that is too long). The model folds that case into `DirectoryNotFound`: the call ends with an unhandled exception and converts nothing, which is the same effect.
- `String.Replace` with an empty or `null` pattern throws in .NET. The model's `Replace` requires a non-empty pattern, since both calls pass a constant non-empty one.
