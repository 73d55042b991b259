/** check_CI.py: the TvDefaultSettings file's SUPPORTCI20 decides between CI 2.0 and CI 1.4.4. */
module Ci {
  import opened Wrappers
  import opened Text
  import opened Ini
  import opened Files
  import opened ModelIni

  const TrueWords: set<string> := {"1", "true", "on", "yes"}
  const FalseWords: set<string> := {"0", "false", "off", "no"}

  /**
   * How `parse_supportci20` reads a value already trimmed and lowercased: the
   * true and false words, else any integer as `bool(int(v))`, else no answer.
   */
  function Ci20Word(v: string): (r: Option<bool>)
    ensures v in TrueWords ==> r == Some(true)
    ensures v in FalseWords ==> r == Some(false)
    ensures v !in TrueWords && v !in FalseWords ==>
      (r.Some? <==> ParseInt(v).Some?) && (r.Some? ==> r.value == (ParseInt(v).value != 0))
  {
    if v in TrueWords then Some(true)
    else if v in FalseWords then Some(false)
    else match ParseInt(v)
      case None => None
      case Some(n) => Some(n != 0)
  }

  /** On a plain number the word sets and `bool(int(v))` agree: non-zero is true. */
  lemma Ci20Number(n: nat)
    ensures Ci20Word(NatToString(n)) == Some(n != 0)
  {
    var s := NatToString(n);
    if n == 0 {
      assert s == "0";
    } else if n == 1 {
      assert s == "1";
    } else {
      assert s != "0" && s != "1";
      NumberNotWord(s);
      ParseIntNat(n);
    }
  }

  /** The only word that is a number is "0" or "1". */
  lemma NumberNotWord(s: string)
    requires s != [] && AllDigits(s) && s != "0" && s != "1"
    ensures s !in TrueWords && s !in FalseWords
  {
    assert IsDigit(s[0]);
  }

  /** A number as written in the file reads the same once trimmed and lowercased. */
  lemma FoldNumber(n: nat)
    ensures Lower(Strip(NatToString(n))) == NatToString(n)
  {
    var s := NatToString(n);
    DigitNotSpace(s[0]);
    DigitNotSpace(s[|s| - 1]);
    StripFixed(s);
    LowerDigits(s);
  }

  /**
   * `parse_supportci20`: no answer when the file is undeclared or absent or has
   * no SUPPORTCI20, else the first SUPPORTCI20 value read as above.
   */
  function ParseSupportCi20(fs: FileSystem, path: Option<string>): (r: Option<bool>)
    ensures ReadDeclared(fs, path).None? ==> r.None?
    ensures ReadDeclared(fs, path).Some? ==>
      r == (match FindKeyValue(ReadDeclared(fs, path).value, "SUPPORTCI20", true)
            case None => None
            case Some(v) => Ci20Word(Lower(Strip(v))))
  {
    match ReadDeclared(fs, path)
    case None => None
    case Some(lines) =>
      match FindKeyValue(lines, "SUPPORTCI20", true)
      case None => None
      case Some(v) => Ci20Word(Lower(Strip(v)))
  }

  datatype Report = Report(trace: Trace, supportText: string, resultText: string)

  /** `build_result`: "CI 2.0" for true, "CI 1.4.4" for false, "N/A" without an answer. */
  function BuildResult(fs: FileSystem, path: Option<string>, ci20: Option<bool>): (r: Report)
    ensures r.trace == PathTrace(fs, path, "model.ini 未找到 TvDefaultSettingsPath")
    ensures r.resultText == "CI 2.0" <==> ci20 == Some(true)
    ensures r.resultText == "CI 1.4.4" <==> ci20 == Some(false)
    ensures r.resultText == "N/A" <==> ci20.None?
    ensures r.supportText == (if ci20.None? then "N/A" else if ci20.value then "true" else "false")
  {
    var trace := PathTrace(fs, path, "model.ini 未找到 TvDefaultSettingsPath");
    match ci20
    case None => Report(trace, "N/A", "N/A")
    case Some(b) => if b then Report(trace, "true", "CI 2.0") else Report(trace, "false", "CI 1.4.4")
  }
}
