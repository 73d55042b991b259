/** check_dap_virtualizer_mode.py: the DAP_Sound_Param file must set virtualizer_mode to 1. */
module DapVirtualizerMode {
  import opened Wrappers
  import opened Text
  import opened Ini
  import opened Files
  import opened ModelIni

  /** How a virtualizer_mode value reads: "0" and "1" directly (`^\s*([01])\s*$`), anything else through `int()`. */
  function ModeValue(val: string): (r: Option<int>)
    ensures val == "0" ==> r == Some(0)
    ensures val == "1" ==> r == Some(1)
    ensures val != "0" && val != "1" ==> r == ParseInt(val)
  {
    if val == "0" then Some(0) else if val == "1" then Some(1) else ParseInt(val)
  }

  /** The 0/1 shortcut agrees with `int()`: on a trimmed value the reading is exactly `int(val)`. */
  lemma ModeValueIsInt(val: string)
    ensures ModeValue(val) == ParseInt(val)
  {
    if val == "0" {
      ParseIntNat(0);
      assert NatToString(0) == "0";
    } else if val == "1" {
      ParseIntNat(1);
      assert NatToString(1) == "1";
    }
  }

  /**
   * `read_virtualizer_mode`: no answer when the file is undeclared or absent or
   * has no virtualizer_mode, else the first such value's reading.
   */
  function ReadVirtualizerMode(fs: FileSystem, path: Option<string>): (r: Option<int>)
    ensures ReadDeclared(fs, path).None? ==> r.None?
    ensures ReadDeclared(fs, path).Some? ==>
      r == (match FindKeyValue(ReadDeclared(fs, path).value, "virtualizer_mode", true)
            case None => None
            case Some(v) => ParseInt(v))
  {
    match ReadDeclared(fs, path)
    case None => None
    case Some(lines) =>
      match FindKeyValue(lines, "virtualizer_mode", true)
      case None => None
      case Some(v) => ModeValueIsInt(v); ModeValue(v)
  }

  /** The four verdicts `build_result` distinguishes. */
  datatype Decision = NotFound | ModeOne | ModeZero | OtherMode(mode: int)

  datatype Report = Report(passed: bool, decision: Decision, trace: Trace)

  /** `build_result`: passes iff the mode is 1; the decision names which of the four cases held. */
  function BuildResult(fs: FileSystem, path: Option<string>, mode: Option<int>): (r: Report)
    ensures r.passed <==> mode == Some(1)
    ensures r.passed <==> r.decision == ModeOne
    ensures r.decision == NotFound <==> mode.None?
    ensures r.decision == ModeZero <==> mode == Some(0)
    ensures r.decision.OtherMode? ==> mode == Some(r.decision.mode) && mode.value != 0 && mode.value != 1
    ensures r.trace == PathTrace(fs, path, "model.ini 未找到 DAP_Sound_Param")
  {
    var trace := PathTrace(fs, path, "model.ini 未找到 DAP_Sound_Param");
    match mode
    case None => Report(false, NotFound, trace)
    case Some(m) =>
      if m == 1 then Report(true, ModeOne, trace)
      else if m == 0 then Report(false, ModeZero, trace)
      else Report(false, OtherMode(m), trace)
  }
}
