/** low_latency_ctrl_check.py: the TvServIni file must set SUPPORT_LOW_LATENCY_CTRL to true. */
module LowLatency {
  import opened Wrappers
  import opened Text
  import opened Files
  import opened ModelIni
  import opened TvServ

  const Key: string := "SUPPORT_LOW_LATENCY_CTRL"

  const Required: seq<Rule> := [Rule(Key, "true", true)]

  /**
   * `evaluate` with its early returns: passes iff the key is present and reads
   * "true" case-blind, with exactly one note on failure; these are the notes
   * of the general REQUIRED loop over the one entry.
   */
  function Evaluate(vals: map<string, string>): (r: (bool, seq<string>))
    ensures r.0 <==> Key in vals && Lower(Strip(vals[Key])) == "true"
    ensures |r.1| == (if r.0 then 0 else 1)
    ensures r.1 == Notes(vals, Required)
  {
    assert Required[..0] == [];
    if Key !in vals then (false, [MissingNote(Key)])
    else if Lower(Strip(vals[Key])) != "true" then (false, [MismatchNote(Required[0], vals[Key])])
    else (true, [])
  }

  /**
   * `main`: an undeclared or absent TvServIni fails with one note; otherwise
   * the flag is read (last occurrence wins) and evaluated.
   */
  method CheckLowLatency(fs: FileSystem, root: string, modelLines: seq<string>) returns (r: Outcome)
    ensures var path := DeclaredPath(modelLines, root, "TvServIni");
      r.passed <==> (path.Some? && Exists(fs, path.value) &&
        Key in DeclaredFlags(fs, path, {Key}) && Lower(Strip(DeclaredFlags(fs, path, {Key})[Key])) == "true")
    ensures |r.notes| == (if r.passed then 0 else 1)
  {
    var path := DeclaredPath(modelLines, root, "TvServIni");
    r := CheckDeclared(fs, path, "TvServIni", {Key}, Required);
    var _ := Evaluate(r.vals);
  }
}
