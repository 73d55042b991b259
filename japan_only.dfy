/** check_japan_only.py: the country file model.ini names must mention "japan" exactly once. */
module JapanOnly {
  import opened Wrappers
  import opened Text
  import opened Ini
  import opened Files
  import opened Search
  import opened Verdicts
  import Resolvers

  const Key: string := "COUNTRY_PATH"

  /** A trimmed line that is neither empty nor a '#' comment and holds the key and '='. */
  function TargetLine(raw: string): (r: Option<string>)
    ensures r.Some? ==> r.value != "" && !StartsWith(r.value, "#") && Contains(r.value, Key) && '=' in r.value
  {
    var s := Strip(raw);
    if s == "" || StartsWith(s, "#") then None
    else if Contains(s, Key) && '=' in s then Some(s)
    else None
  }

  /**
   * `check_japan_only`: N/A without a COUNTRY_PATH line; FAIL when the first one
   * has no quoted value or its file is absent; otherwise PASS iff the file
   * holds exactly one "japan", in any case.
   */
  function CheckJapanOnly(fs: FileSystem, root: string, lines: seq<string>): (r: Verdict)
    ensures r == NotApplicable <==> First(lines, TargetLine).None?
    ensures r == Pass <==>
      First(lines, TargetLine).Some? &&
      var raw := ExtractQuotedValue(First(lines, TargetLine).value, Key);
      raw != "" && Exists(fs, Resolvers.ResolveDropTvconfigs(raw, root)) &&
      CountMatches(Read(fs, Resolvers.ResolveDropTvconfigs(raw, root)).value, "japan") == 1
  {
    match First(lines, TargetLine)
    case None => NotApplicable
    case Some(target) =>
      var raw := ExtractQuotedValue(target, Key);
      if raw == "" then Fail
      else
        var path := Resolvers.ResolveDropTvconfigs(raw, root);
        if !Exists(fs, path) then Fail
        else if CountMatches(Read(fs, path).value, "japan") == 1 then Pass else Fail
  }

  /** A country file that never mentions Japan fails. */
  lemma NoJapanFails(fs: FileSystem, root: string, lines: seq<string>)
    requires First(lines, TargetLine).Some?
    requires var raw := ExtractQuotedValue(First(lines, TargetLine).value, Key);
      var path := Resolvers.ResolveDropTvconfigs(raw, root);
      Exists(fs, path) && !ContainsIgnoreCase(Read(fs, path).value, "japan")
    ensures CheckJapanOnly(fs, root, lines) == Fail
  {
    var raw := ExtractQuotedValue(First(lines, TargetLine).value, Key);
    CountMatchesZero(Read(fs, Resolvers.ResolveDropTvconfigs(raw, root)).value, "japan");
  }
}
