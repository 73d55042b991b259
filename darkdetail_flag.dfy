/**
 * check_darkdetail_flag_pid12.py: model.ini must declare isSupportDarkDetail
 * as true.  `_find_is_show_setupwizard`, despite its name, is the shared
 * case-insensitive search `Ini.FindKv` for isSupportDarkDetail.
 */
module DarkDetailFlag {
  import opened Wrappers
  import opened Text
  import opened Ini

  const Key: string := "isSupportDarkDetail"

  datatype Report = Report(passed: bool, value: string, notes: seq<string>)

  /** `check_is_show_setupwizard`: passes iff the value trims and lowercases to "true"; one note on failure. */
  function CheckDarkDetail(value: Option<string>): (r: Report)
    ensures r.passed <==> value.Some? && Lower(Strip(value.value)) == "true"
    ensures |r.notes| == (if r.passed then 0 else 1)
    ensures r.value == (if value.Some? then value.value else "")
  {
    match value
    case None => Report(false, "", ["isSupportDarkDetail 未宣告或僅存在於註解中"])
    case Some(v) =>
      var passed := Lower(Strip(v)) == "true";
      Report(passed, v, if passed then [] else ["isSupportDarkDetail 不是 true (got: " + v + ")"])
  }

  /** A quoted declaration reads back without its quotes. */
  lemma DarkDetailQuoted(v: string)
    requires '#' !in v && ';' !in v
    ensures FindKv([Key + "=\"" + v + "\""], Key) == Some(Strip(v))
  {
    assert '#' !in Key + v && ';' !in Key + v;
    KvLineQuoted(Key, v);
    FindKvAt([Key + "=\"" + v + "\""], 0, Key);
  }

  /** A declared "true" passes. */
  lemma TruePasses()
    ensures CheckDarkDetail(Some("true")).passed
  {
    LStripSetFixed("true", Whitespace);
    RStripSetFixed("true", Whitespace);
  }
}
