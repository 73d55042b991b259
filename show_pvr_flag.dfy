/** check_show_pvr_flag.py: model.ini must carry the line `SHOW_PVR = false`. */
module ShowPvrFlag {
  import opened Wrappers
  import opened Text
  import opened Ini

  /** `^\s*SHOW_PVR\s*=\s*false\s*$`, any case: an unquoted `false` and nothing else after '='. */
  predicate IsShowPvrFalse(line: string)
  {
    match AfterKeyEq(line, "SHOW_PVR", true)
    case None => false
    case Some(rest) => IsFalseWord(rest)
  }

  /** `\s*false\s*$`, any case. */
  predicate IsFalseWord(rest: string) { Lower(Strip(rest)) == "false" }

  /** The trimmed raw line when its comment-stripped form is the setting. */
  function PvrLine(raw: string): Option<string>
  {
    var line := StripComment(raw);
    if line != "" && IsShowPvrFalse(line) then Some(Strip(raw)) else None
  }

  datatype Report = Report(passed: bool, settingLine: string)

  lemma BlankPrefix(s: string, k: nat)
    requires IsBlank(s) && k <= |s|
    ensures IsBlank(s[..k])
  {
  }

  /** A line whose comment-stripped form is not empty is not blank itself. */
  lemma StripCommentNonBlank(raw: string)
    requires StripComment(raw) != ""
    ensures Strip(raw) != ""
  {
    var a := Before(raw, '#');
    var b := Before(a, ';');
    if Strip(raw) == "" {
      StripEmptyIffBlank(raw);
      BlankPrefix(raw, |a|);
      BlankPrefix(a, |b|);
      StripEmptyIffBlank(b);
    }
  }

  /**
   * `check_show_pvr`: passes iff some line is the setting; the reported line is
   * the first such line, trimmed, or "N/A".
   */
  function CheckShowPvr(lines: seq<string>): (r: Report)
    ensures r.passed <==> exists i :: 0 <= i < |lines| && PvrLine(lines[i]).Some?
    ensures r.passed ==> exists i :: 0 <= i < |lines| && PvrLine(lines[i]) == Some(r.settingLine) && forall j :: 0 <= j < i ==> PvrLine(lines[j]).None?
    ensures !r.passed ==> r.settingLine == "N/A"
  {
    var found := First(lines, PvrLine);
    var i := FirstIndex(lines, PvrLine);
    if i < |lines| then
      StripCommentNonBlank(lines[i]);
      var passed := found.Some? && found.value != "";
      Report(passed, if passed then found.value else "N/A")
    else
      Report(false, "N/A")
  }

  /** A quoted value, such as `"false"`, is never the setting. */
  lemma QuotedValueRejected(rest: string)
    requires StartsWith(Strip(rest), "\"")
    ensures !IsFalseWord(rest)
  {
    QuoteNotFalse(Strip(rest));
  }

  lemma QuoteNotFalse(v: string)
    requires StartsWith(v, "\"")
    ensures Lower(v) != "false"
  {
    assert Lower(v)[0] == '"';
  }
}
