/**
 * check_netflix_cert.py: the TvServIni file must give DEFAULT_PICTURE_MODE 4,
 * DEFAULT_DOLBY_PICTURE_MODE 1 and SUPPORT_MAT true.
 */
module NetflixCert {
  import opened Wrappers
  import opened Text
  import opened Ini
  import opened Files
  import opened ModelIni
  import opened TvServ

  /** The `(key, value)` a line contributes: its key trimmed and lower-cased, unless that is empty. */
  function LowerPair(raw: string): (r: Option<(string, string)>)
    ensures r.Some? <==> Assignment(raw).Some? && Assignment(raw).value.0 != ""
    ensures r.Some? ==> r.value == (Lower(Assignment(raw).value.0), Assignment(raw).value.1)
    ensures r.Some? ==> r.value.0 != "" && IsLowerCase(r.value.0)
  {
    match Assignment(raw)
    case None => None
    case Some((k, v)) => LowerIsLower(k); if Lower(k) != "" then Some((Lower(k), v)) else None
  }

  /** `_parse_key_values_ini_like` on the lines of a declared file; empty when it is undeclared or absent. */
  function KeyValues(fs: FileSystem, path: Option<string>): map<string, string>
  {
    match ReadDeclared(fs, path)
    case None => map[]
    case Some(lines) => LastWins(lines, LowerPair)
  }

  /** The loop filling `kv`. */
  method ParseKeyValues(fs: FileSystem, path: Option<string>) returns (kv: map<string, string>)
    ensures kv == KeyValues(fs, path)
  {
    kv := map[];
    match ReadDeclared(fs, path) {
      case None =>
      case Some(lines) =>
        kv := CollectLastWins(lines, LowerPair);
    }
  }

  /** Every key of the table is non-empty and lower-case, and holds the value of its last assignment. */
  lemma KeyValuesSpec(lines: seq<string>, k: string)
    ensures k in LastWins(lines, LowerPair) ==> k != "" && IsLowerCase(k)
    ensures k in LastWins(lines, LowerPair) ==>
      exists i :: 0 <= i < |lines| && LowerPair(lines[i]) == Some((k, LastWins(lines, LowerPair)[k])) &&
        forall j :: i < j < |lines| ==> LowerPair(lines[j]).None? || LowerPair(lines[j]).value.0 != k
  {
    LastWinsSpec(lines, LowerPair, k);
  }

  datatype FlagCheck = FlagCheck(descPm: string, descDpm: string, descMat: string, okPm: bool, okDpm: bool, okMat: bool)

  /** The description of one flag: what was expected and what was found. */
  function Describe(expected: string, found: Option<string>): string
  {
    match found
    case None => "expected " + expected + ", found (missing)"
    case Some(v) => "expected " + expected + ", found " + v
  }

  function Get(kv: map<string, string>, k: string): Option<string>
  {
    if k in kv then Some(kv[k]) else None
  }

  /**
   * `check_flags`: without the file all three are unmet and read "N/A";
   * otherwise the picture modes must be exactly "4" and "1" once trimmed and
   * SUPPORT_MAT "true" case-blind.
   */
  function CheckFlags(fs: FileSystem, path: Option<string>): (r: FlagCheck)
    ensures ReadDeclared(fs, path).None? ==> r == FlagCheck("N/A", "N/A", "N/A", false, false, false)
    ensures var kv := KeyValues(fs, path);
      ReadDeclared(fs, path).Some? ==>
        (r.okPm <==> "default_picture_mode" in kv && Strip(kv["default_picture_mode"]) == "4") &&
        (r.okDpm <==> "default_dolby_picture_mode" in kv && Strip(kv["default_dolby_picture_mode"]) == "1") &&
        (r.okMat <==> "support_mat" in kv && Lower(Strip(kv["support_mat"])) == "true")
  {
    if ReadDeclared(fs, path).None? then FlagCheck("N/A", "N/A", "N/A", false, false, false)
    else
      var kv := KeyValues(fs, path);
      var pm := Get(kv, "default_picture_mode");
      var dpm := Get(kv, "default_dolby_picture_mode");
      var mat := Get(kv, "support_mat");
      FlagCheck(Describe("4", pm), Describe("1", dpm), Describe("true", mat),
        pm.Some? && Strip(pm.value) == "4",
        dpm.Some? && Strip(dpm.value) == "1",
        mat.Some? && Lower(Strip(mat.value)) == "true")
  }

  datatype Report = Report(passed: bool, missing: seq<string>)

  /**
   * `build_result`: passes iff all three flags are met; missing names a
   * declared but absent file, or a placeholder when TvServIni is undeclared.
   */
  function BuildResult(fs: FileSystem, path: Option<string>, flags: FlagCheck): (r: Report)
    ensures r.passed <==> flags.okPm && flags.okDpm && flags.okMat
    ensures path.None? ==> r.missing == ["(TvServIni not found in model.ini)"]
    ensures path.Some? ==> r.missing == (if Exists(fs, path.value) then [] else [path.value])
  {
    var missing :=
      (if path.Some? && !Exists(fs, path.value) then [path.value] else []) +
      (if path.None? then ["(TvServIni not found in model.ini)"] else []);
    Report(flags.okPm && flags.okDpm && flags.okMat, missing)
  }

  /** A missing file never passes, whatever model.ini says. */
  lemma AbsentFileFails(fs: FileSystem, path: Option<string>)
    requires path.None? || !Exists(fs, path.value)
    ensures !BuildResult(fs, path, CheckFlags(fs, path)).passed
  {
  }
}
