/** check_gdbs_mode.py: the file model.ini names as DV_GDBS_DELAY must set GDBS_MODE to 1. */
module GdbsMode {
  import opened Wrappers
  import opened Text
  import opened Ini
  import opened Files
  import opened ModelIni

  const Key: string := "GDBS_MODE"

  /** `^\s*GDBS_MODE\s*=\s*(\d+)\s*$` on a comment-stripped line, any case: the digits. */
  function ModeLine(raw: string): (r: Option<string>)
    ensures r.Some? ==> r.value != "" && AllDigits(r.value)
  {
    match AfterKeyEq(StripComment(raw), Key, true)
    case None => None
    case Some(rest) =>
      var t := Strip(rest);
      if t != "" && AllDigits(t) then Some(t) else None
  }

  /** `GDBS_MODE=<digits>` reads back as its digits. */
  lemma ModeLineDeclared(d: string)
    requires d != "" && AllDigits(d)
    ensures ModeLine(Key + "=" + d) == Some(d)
  {
    DigitNotSpace(d[|d| - 1]);
    DigitNotSpace(d[0]);
    assert '#' !in Key + d && ';' !in Key + d;
    StripCommentBareDeclaration(Key, d);
    AfterKeyEqDeclared(Key, d, true);
    StripFixed(d);
  }

  /**
   * `parse_gdbs_mode`: no answer when the target is unknown or absent, else the digits of
   * the first `GDBS_MODE=<digits>` line, if any.
   */
  function ParseGdbsMode(fs: FileSystem, target: Option<string>): (r: Option<string>)
    ensures ReadDeclared(fs, target).None? ==> r.None?
    ensures ReadDeclared(fs, target).Some? ==>
      (r.Some? <==> exists i :: 0 <= i < |ReadDeclared(fs, target).value| && ModeLine(ReadDeclared(fs, target).value[i]).Some?)
    ensures r.Some? ==> r.value != "" && AllDigits(r.value)
  {
    match ReadDeclared(fs, target)
    case None => None
    case Some(lines) => First(lines, ModeLine)
  }

  datatype Report = Report(passed: bool, target: string, modeText: string)

  /** `build_result`: passes iff the target exists and the mode is exactly "1" (so "01" fails). */
  function BuildResult(fs: FileSystem, target: Option<string>, mode: Option<string>): (r: Report)
    ensures r.passed <==> target.Some? && Exists(fs, target.value) && mode == Some("1")
    ensures r.modeText == (if mode.None? || mode.value == "" then "N/A" else mode.value)
    ensures r.target == (if target.Some? then target.value else "")
  {
    Report(target.Some? && target.value != "" && Exists(fs, target.value) && mode == Some("1"),
      if target.Some? then target.value else "",
      if mode.None? || mode.value == "" then "N/A" else mode.value)
  }
}
