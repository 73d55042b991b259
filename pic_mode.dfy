/**
 * pic_mode_test.py: the TvServIni file must give the default picture modes 9
 * and 1 and SUPPORT_DOLBY_CERT false.
 */
module PicMode {
  import opened Wrappers
  import opened Files
  import opened ModelIni
  import opened TvServ

  const TargetKeys: set<string> := {"DEFAULT_PICTURE_MODE", "DEFAULT_DOLBY_PICTURE_MODE", "SUPPORT_DOLBY_CERT"}

  /** REQUIRED: all three compared after trimming and lower-casing. */
  const Required: seq<Rule> := [
    Rule("DEFAULT_PICTURE_MODE", "9", true),
    Rule("DEFAULT_DOLBY_PICTURE_MODE", "1", true),
    Rule("SUPPORT_DOLBY_CERT", "false", true)
  ]

  /**
   * `run` as written: it builds its result, prints and exports it, and ends
   * without a `return`, so a caller always receives None.
   */
  method RunAsWritten(fs: FileSystem, root: string, modelLines: seq<string>) returns (result: Option<Outcome>)
    ensures result.None?
  {
    var path := DeclaredPath(modelLines, root, "TvServIni");
    var res := CheckDeclared(fs, path, "TvServIni", TargetKeys, Required);
    result := None;
  }

  /**
   * `run` returning the result it builds, as its `Dict` annotation promises:
   * an undeclared or absent TvServIni fails with one note; otherwise it passes
   * iff all three flags are present and as required.
   */
  method Run(fs: FileSystem, root: string, modelLines: seq<string>) returns (result: Outcome)
    ensures var path := DeclaredPath(modelLines, root, "TvServIni");
      (result.passed <==> (path.Some? && Exists(fs, path.value) &&
        forall i :: 0 <= i < |Required| ==> Satisfied(DeclaredFlags(fs, path, TargetKeys), Required[i]))) &&
      (!(path.Some? && Exists(fs, path.value)) ==> |result.notes| == 1)
    ensures result.passed <==> result.notes == []
    ensures |result.notes| <= 3
  {
    var path := DeclaredPath(modelLines, root, "TvServIni");
    result := CheckDeclared(fs, path, "TvServIni", TargetKeys, Required);
  }
}
