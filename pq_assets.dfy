/**
 * check_pq_assets.py: model.ini must name the expected PQ_OSD, ICM and DBC
 * files, a PQ_PANEL_COLOR `.ini` file, and all four must exist.
 */
module PqAssets {
  import opened Wrappers
  import opened Text
  import opened Ini
  import opened Files
  import Resolvers

  const ExpectedPqOsd: string := "/tvconfigs/PQ_OSD/OSDTable.ini"
  const ExpectedIcm: string := "/tvconfigs/PQ/ICM.bin"
  const ExpectedDbc: string := "/tvconfigs/PQ/DBC.ini"

  /** `bool(path and os.path.exists(path))` for `path = _resolve_tvconfigs_path(root, v) if v else None`. */
  predicate DeclaredExists(fs: FileSystem, root: string, v: Option<string>)
  {
    v.Some? && v.value != "" && Exists(fs, Resolvers.Resolve(root, v.value))
  }

  /** `pq_panel_color.strip().lower().endswith(".ini")` for a non-empty value. */
  predicate IsIniName(v: Option<string>)
  {
    v.Some? && v.value != "" && EndsWith(Lower(Strip(v.value)), ".ini")
  }

  datatype Report = Report(passed: bool, failures: seq<string>, summary: string)

  /**
   * The verdict of `check_pq_assets` on the four values: passes iff the three
   * literals match exactly, the panel file is a `.ini`, and all four files
   * exist; the summary lists every failing condition, or says all passed.
   */
  function Evaluate(fs: FileSystem, root: string, pqOsd: Option<string>, icm: Option<string>,
                    dbc: Option<string>, panel: Option<string>): (r: Report)
    ensures r.passed <==>
      pqOsd == Some(ExpectedPqOsd) && icm == Some(ExpectedIcm) && dbc == Some(ExpectedDbc) && IsIniName(panel) &&
      DeclaredExists(fs, root, pqOsd) && DeclaredExists(fs, root, icm) && DeclaredExists(fs, root, dbc) &&
      DeclaredExists(fs, root, panel)
    ensures r.passed <==> r.failures == []
    ensures |r.failures| <= 8
    ensures r.passed ==> r.summary == "All checks passed"
    ensures !r.passed ==> r.summary == JoinWith(r.failures, "; ")
    ensures pqOsd != Some(ExpectedPqOsd) ==> r.failures[0] == "PQ_OSD not expected value"
  {
    var failures :=
      Unless(pqOsd == Some(ExpectedPqOsd), "PQ_OSD not expected value") +
      Unless(icm == Some(ExpectedIcm), "ICM not expected value") +
      Unless(dbc == Some(ExpectedDbc), "DBC not expected value") +
      Unless(IsIniName(panel), "PQ_PANEL_COLOR not *.ini") +
      Unless(DeclaredExists(fs, root, pqOsd), "PQ_OSD file missing") +
      Unless(DeclaredExists(fs, root, icm), "ICM file missing") +
      Unless(DeclaredExists(fs, root, dbc), "DBC file missing") +
      Unless(DeclaredExists(fs, root, panel), "PQ_PANEL_COLOR file missing");
    var passed := failures == [];
    Report(passed, failures, if passed then "All checks passed" else JoinWith(failures, "; "))
  }

  /** `check_pq_assets`: the four first uncommented values, their keys in any case, judged as above. */
  function CheckPqAssets(fs: FileSystem, root: string, lines: seq<string>): (r: Report)
    ensures r == Evaluate(fs, root, FindKeyValue(lines, "PQ_OSD", true), FindKeyValue(lines, "ICM", true),
                          FindKeyValue(lines, "DBC", true), FindKeyValue(lines, "PQ_PANEL_COLOR", true))
  {
    Evaluate(fs, root, FindKeyValue(lines, "PQ_OSD", true), FindKeyValue(lines, "ICM", true),
             FindKeyValue(lines, "DBC", true), FindKeyValue(lines, "PQ_PANEL_COLOR", true))
  }
}
