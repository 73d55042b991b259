/** check_exclude_file_format.py: model.ini must declare a non-blank ExcludeFileFormat. */
module ExcludeFileFormat {
  import opened Wrappers
  import opened Text
  import opened Ini

  const Key: string := "ExcludeFileFormat"

  function KeyLine(raw: string): Option<string> { LineValue(raw, Key, true) }

  /** `parse_exclude_file_format`: the first uncommented declaration wins, its key in any case. */
  function ParseExcludeFileFormat(lines: seq<string>): (v: Option<string>)
    ensures v.Some? <==> exists i :: 0 <= i < |lines| && KeyLine(lines[i]).Some?
    ensures v.Some? ==> exists i :: 0 <= i < |lines| && KeyLine(lines[i]) == v && forall j :: 0 <= j < i ==> KeyLine(lines[j]).None?
  {
    First(lines, KeyLine)
  }

  datatype Report = Report(passed: bool, value: string, note: string)

  /** `build_result`: passes iff a non-blank value was found; the note is set exactly when it fails. */
  function BuildResult(value: Option<string>): (r: Report)
    ensures r.passed <==> value.Some? && !IsBlank(value.value)
    ensures r.note == "" <==> r.passed
    ensures r.value == (if value.Some? then value.value else "")
  {
    var passed := value.Some? && value.value != "" && Strip(value.value) != "";
    StripEmptyIffBlank(if value.Some? then value.value else "");
    Report(passed, if value.Some? then value.value else "", if passed then "" else "ExcludeFileFormat not found or empty")
  }
}
