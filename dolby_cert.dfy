/**
 * dolby_cert_check_pid12.py: the TvServIni file model.ini declares must set
 * the five Dolby certification flags to their required values.
 */
module DolbyCert {
  import opened Wrappers
  import opened Files
  import opened ModelIni
  import opened TvServ

  const TargetKeys: set<string> :=
    {"DEFAULT_PICTURE_MODE", "DEFAULT_DOLBY_PICTURE_MODE", "ENABLE_AQ", "SUPPORT_MAT", "SUPPORT_DOLBY_CERT"}

  /** REQUIRED, in its order: the "true"/"false" entries compare case-blind, the numbers verbatim. */
  const Required: seq<Rule> := [
    Rule("DEFAULT_PICTURE_MODE", "9", false),
    Rule("DEFAULT_DOLBY_PICTURE_MODE", "1", false),
    Rule("ENABLE_AQ", "false", true),
    Rule("SUPPORT_MAT", "true", true),
    Rule("SUPPORT_DOLBY_CERT", "true", true)
  ]

  /**
   * `main`: resolve TvServIni, read the five flags (last occurrence wins) and
   * evaluate them; passes iff the file exists and every REQUIRED entry is met,
   * with one note per missing or mismatched entry, so at most five.
   */
  method CheckDolby(fs: FileSystem, root: string, modelLines: seq<string>) returns (r: Outcome)
    ensures var path := DeclaredPath(modelLines, root, "TvServIni");
      r.passed <==> (path.Some? && Exists(fs, path.value) &&
        forall i :: 0 <= i < |Required| ==> Satisfied(DeclaredFlags(fs, path, TargetKeys), Required[i]))
    ensures r.passed <==> r.notes == []
    ensures 1 <= |r.notes| <= 5 || r.passed
  {
    var path := DeclaredPath(modelLines, root, "TvServIni");
    r := CheckDeclared(fs, path, "TvServIni", TargetKeys, Required);
  }
}
