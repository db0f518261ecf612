/** The command-line options and the table of line endings. */
module Config {
  import opened Wrappers
  import opened EolText

  /** The options object; `None` stands for an option left `null`. */
  datatype Options = Options(
    directory: Option<string>,
    pathsFile: Option<string>,
    extensionWhiteList: Option<seq<string>>,
    extensionBlackList: Option<seq<string>>,
    eol: int)

  /** The options when none is given: no directory, no path file, the declared
      allowlist `["*"]` and no denylist. The `eol` option declares the boolean
      default `false`; the model takes the C# default of the `int` property, 0. */
  const DEFAULT_OPTIONS: Options := Options(None, None, Some(["*"]), None, 0)

  /** The target line endings, indexed by the `eol` option: 0 is LF, 1 is CRLF. */
  const EOLS: seq<string> := [LF, CRLF]

  /** `EOLs[options.EOL]`: `None` when the index is out of range and the lookup throws. */
  function TargetEol(eol: int): (r: Option<string>)
    ensures r.Some? <==> eol == 0 || eol == 1
    ensures eol == 0 ==> r == Some(LF)
    ensures eol == 1 ==> r == Some(CRLF)
  {
    if 0 <= eol < |EOLS| then Some(EOLS[eol]) else None
  }

  /** With no `eol` option given, the target is LF. */
  lemma DefaultTargetIsLf()
    ensures TargetEol(DEFAULT_OPTIONS.eol) == Some(LF)
  {
  }

  /** `string.IsNullOrEmpty`. */
  predicate IsNullOrEmpty(s: Option<string>)
  {
    s.None? || s.value == ""
  }
}
