/** check_GDPR.py: model.ini must declare isSupportGDPR with a non-blank value. */
module Gdpr {
  import opened Wrappers
  import opened Text
  import opened Ini

  const Key: string := "isSupportGDPR"

  function KeyLine(raw: string): Option<string> { LineValue(raw, Key, true) }

  /**
   * `parse_is_support_gdpr`: the first uncommented declaration wins, its key in
   * any case; the value carries no quote and no comment character.
   */
  function ParseIsSupportGdpr(lines: seq<string>): (v: Option<string>)
    ensures v.Some? ==> '"' !in v.value && '#' !in v.value && ';' !in v.value
    ensures v.Some? <==> exists i :: 0 <= i < |lines| && KeyLine(lines[i]).Some?
    ensures v.Some? ==> exists i :: 0 <= i < |lines| && KeyLine(lines[i]) == v && forall j :: 0 <= j < i ==> KeyLine(lines[j]).None?
  {
    First(lines, KeyLine)
  }

  datatype Report = Report(passed: bool, value: string)

  /** `build_result`: only presence of a non-blank value matters, so "false" passes too. */
  function BuildResult(value: Option<string>): (r: Report)
    ensures r.passed <==> value.Some? && !IsBlank(value.value)
    ensures r.value == (if value.Some? then value.value else "")
  {
    StripEmptyIffBlank(if value.Some? then value.value else "");
    Report(value.Some? && value.value != "" && Strip(value.value) != "", if value.Some? then value.value else "")
  }

  /** A declared "false" still passes. */
  lemma FalsePasses()
    ensures BuildResult(Some("false")).passed
  {
    assert !IsBlank("false") by { assert "false"[0] !in Whitespace; }
  }
}
