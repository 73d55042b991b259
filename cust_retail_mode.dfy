/** check_cust_retail_mode.py: model.ini must declare CustRetailModeInten, whatever its value. */
module CustRetailMode {
  import opened Wrappers
  import opened Text
  import opened Ini

  const Key: string := "CustRetailModeInten"

  /** `^\s*CustRetailModeInten\s*=\s*(.+)$` on a comment-stripped, non-empty line, then trimmed. */
  function CustLine(raw: string): (v: Option<string>)
    ensures v.Some? ==> v.value != "" && Strip(v.value) == v.value
  {
    var line := StripComment(raw);
    if line == "" then None
    else
      match AfterKeyEq(line, Key, true)
      case None => None
      case Some(rest) =>
        if rest == "" then None
        else
          assert rest[|rest| - 1] == line[|line| - 1];
          assert !IsBlank(rest) by { assert rest[|rest| - 1] !in Whitespace; }
          StripEmptyIffBlank(rest);
          StripSetIdempotent(rest, Whitespace);
          Some(Strip(rest))
  }

  /** `parse_model_ini_for_cust`: the first uncommented declaration's value, trimmed and non-empty. */
  function ParseModelIniForCust(lines: seq<string>): (v: Option<string>)
    ensures v.Some? ==> v.value != "" && Strip(v.value) == v.value
    ensures v.Some? <==> exists i :: 0 <= i < |lines| && CustLine(lines[i]).Some?
    ensures v.Some? ==> exists i :: 0 <= i < |lines| && CustLine(lines[i]) == v && forall j :: 0 <= j < i ==> CustLine(lines[j]).None?
  {
    First(lines, CustLine)
  }

  /** The verdict in `main`: passes iff the key is declared. */
  function Passed(lines: seq<string>): (passed: bool)
    ensures passed <==> exists i :: 0 <= i < |lines| && CustLine(lines[i]).Some?
  {
    ParseModelIniForCust(lines).Some?
  }
}
