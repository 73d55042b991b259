/** check_TvDefaultSettings_Dialog.py: reports the DIALOG value of the TvDefaultSettings file. */
module TvDefaultSettingsDialog {
  import opened Wrappers
  import opened Text
  import opened Ini
  import opened Files
  import opened ModelIni

  /** `parse_dialog_value`: None when the file is undeclared or absent or has no DIALOG; else the first DIALOG value. */
  function ParseDialogValue(fs: FileSystem, path: Option<string>): (v: Option<string>)
    ensures ReadDeclared(fs, path).None? ==> v.None?
    ensures ReadDeclared(fs, path).Some? ==>
      (v.Some? <==> exists i :: 0 <= i < |ReadDeclared(fs, path).value| && LineValue(ReadDeclared(fs, path).value[i], "DIALOG", true).Some?)
  {
    match ReadDeclared(fs, path)
    case None => None
    case Some(lines) =>
      match FindKeyValue(lines, "DIALOG", true)
      case None => None
      case Some(val) => Some(Strip(val))
  }

  datatype Report = Report(trace: Trace, resultText: string)

  /** `build_result`: the raw value when it is non-blank, otherwise "N/A"; note and missing from the path. */
  function BuildResult(fs: FileSystem, path: Option<string>, dialog: Option<string>): (r: Report)
    ensures r.trace == PathTrace(fs, path, "model.ini 未找到 TvDefaultSettingsPath")
    ensures dialog.Some? && !IsBlank(dialog.value) ==> r.resultText == dialog.value
    ensures !(dialog.Some? && !IsBlank(dialog.value)) ==> r.resultText == "N/A"
  {
    StripEmptyIffBlank(if dialog.Some? then dialog.value else "");
    Report(PathTrace(fs, path, "model.ini 未找到 TvDefaultSettingsPath"),
      if dialog.Some? && Strip(dialog.value) != "" then dialog.value else "N/A")
  }
}
