/** check_cltv.py: the file model.ini names as LaunchCLTVByCountry must exist. */
module Cltv {
  import opened Wrappers
  import opened Text
  import opened Ini
  import opened Files
  import opened Search
  import opened Verdicts
  import Resolvers

  const Key: string := "LaunchCLTVByCountry"

  /** `LaunchCLTVByCountry\s*=\s*(\S+)` found in a line: the token after '='. */
  function BareSearch(line: string): (r: Option<string>)
    ensures r.Some? ==> r.value != [] && NoneIn(r.value, Whitespace)
  {
    SearchValue(line, t => match KeyEqRest(t, Key, false)
      case None => None
      case Some(b) =>
        var k := SetIndex(b, Whitespace);
        if k > 0 then Some(b[..k]) else None)
  }

  /**
   * One line of `parse_model_ini_for_launch_cltv`: a line that is not a '#'
   * comment and holds the key and '=' gives the quoted value, else the bare
   * token, else "" (a malformed declaration).
   */
  function CltvLine(raw: string): (r: Option<string>)
    ensures r.Some? ==> Contains(raw, Key) && '=' in raw && !StartsWith(LStrip(raw), "#")
  {
    var line := StripWholeLineComment(raw);
    if line == "" || !(Contains(line, Key) && '=' in line) then None
    else match QuotedSearch(line, Key, true)
      case Some(v) => Some(Strip(v))
      case None =>
        match BareSearch(line)
        case Some(v) => Some(Strip(v))
        case None => Some("")
  }

  /** `parse_model_ini_for_launch_cltv`: the first such line decides; none when there is none. */
  function ParseLaunchCltv(lines: seq<string>): (r: Option<string>)
    ensures r.Some? <==> exists i :: 0 <= i < |lines| && CltvLine(lines[i]).Some?
    ensures r.Some? ==> exists i :: 0 <= i < |lines| && CltvLine(lines[i]) == r && forall j :: 0 <= j < i ==> CltvLine(lines[j]).None?
  {
    First(lines, CltvLine)
  }

  /** A quoted declaration reads back as its trimmed contents. */
  lemma CltvLineQuoted(v: string)
    requires '"' !in v
    ensures CltvLine(Key + "=\"" + v + "\"") == Some(Strip(v))
  {
    var line := Key + "=\"" + v + "\"";
    assert line[0] == 'L';
    assert StripWholeLineComment(line) == line by {
      LStripSetFixed(line, Whitespace);
    }
    assert Contains(line, Key) by {
      assert line[..|Key|] == Key;
      assert OccursAt(line, Key, 0);
    }
    assert '=' in line by {
      assert line[|Key|] == '=';
    }
    QuotedSearchDeclared(Key, v, true);
  }

  /** The verdict of `main`: N/A when undeclared, FAIL when malformed or empty, else PASS iff the file exists. */
  function Decide(fs: FileSystem, root: string, raw: Option<string>): (r: Verdict)
    ensures r == NotApplicable <==> raw.None?
    ensures raw == Some("") ==> r == Fail
    ensures raw.Some? && raw.value != "" ==> (r == Pass <==> Exists(fs, Resolvers.ResolveTrimmed(root, raw.value)))
  {
    match raw
    case None => NotApplicable
    case Some(v) => if v == "" then Fail else if Exists(fs, Resolvers.ResolveTrimmed(root, v)) then Pass else Fail
  }
}
