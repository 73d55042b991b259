/** ai_aipq_check.py: the TvDefaultSettings file must set AI and AIPQ to 0. */
module AiAipq {
  import opened Wrappers
  import opened Text
  import opened Files
  import opened ModelIni
  import opened TvServ

  const TargetKeys: set<string> := {"AI", "AIPQ"}

  const Required: seq<Rule> := [Rule("AI", "0", true), Rule("AIPQ", "0", true)]

  /**
   * `main`: resolve TvDefaultSettingsPath, read AI and AIPQ (last occurrence
   * wins) and pass iff both read "0" once trimmed and lower-cased.
   */
  method CheckAiAipq(fs: FileSystem, root: string, modelLines: seq<string>) returns (r: Outcome)
    ensures var path := DeclaredPath(modelLines, root, "TvDefaultSettingsPath");
      var vals := DeclaredFlags(fs, path, TargetKeys);
      r.passed <==> (path.Some? && Exists(fs, path.value) &&
        "AI" in vals && Lower(Strip(vals["AI"])) == "0" && "AIPQ" in vals && Lower(Strip(vals["AIPQ"])) == "0")
    ensures r.passed <==> r.notes == []
  {
    var path := DeclaredPath(modelLines, root, "TvDefaultSettingsPath");
    r := CheckDeclared(fs, path, "TvDefaultSettingsPath", TargetKeys, Required);
    assert Required[0] == Rule("AI", "0", true) && Required[1] == Rule("AIPQ", "0", true);
  }

  /** The comparison is of strings, not numbers: "00" is not "0". */
  lemma DoubleZeroFails()
    ensures !Meets("00", Required[0])
  {
    StripFixed("00");
  }
}
