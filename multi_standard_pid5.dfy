/**
 * tv_multi_standard_validation_pid5.py: model.ini must declare a tvSysMap
 * and a COUNTRY_PATH, and both files must exist; the target countries are
 * read from the COUNTRY_PATH list.
 */
module MultiStandardPid5 {
  import opened Wrappers
  import opened Text
  import opened Ini
  import opened Files
  import opened ModelIni
  import opened CountryList
  import Resolvers

  const TvSysMapKey: string := "tvSysMap"
  const CountryPathKey: string := "COUNTRY_PATH"

  /**
   * `parse_model_ini_for_paths`: one pass over the lines; each of the two
   * keys takes the first uncommented line that declares it, resolved, and
   * is not looked at again.
   */
  method ParseModelIniForPaths(lines: seq<string>, root: string) returns (tvsysmap: Option<string>, countryPath: Option<string>)
    ensures tvsysmap == DeclaredPath(lines, root, TvSysMapKey)
    ensures countryPath == DeclaredPath(lines, root, CountryPathKey)
  {
    tvsysmap, countryPath := ParseTwoKeys(lines, root, TvSysMapKey, CountryPathKey);
  }

  /**
   * The loop of `parse_model_ini_for_paths` for any two keys with different
   * first letters: a line that declares the first key is not tried for the
   * second once the first is taken from it.
   */
  method ParseTwoKeys(lines: seq<string>, root: string, k1: string, k2: string) returns (p1: Option<string>, p2: Option<string>)
    requires k1 != "" && k2 != "" && LowerChar(k1[0]) != LowerChar(k2[0])
    ensures p1 == DeclaredPath(lines, root, k1)
    ensures p2 == DeclaredPath(lines, root, k2)
  {
    p1 := None;
    p2 := None;
    var i := 0;
    while i < |lines|
      invariant 0 <= i <= |lines|
      invariant p1 == DeclaredPath(lines[..i], root, k1)
      invariant p2 == DeclaredPath(lines[..i], root, k2)
    {
      DeclaredPathStep(lines, i, root, k1);
      DeclaredPathStep(lines, i, root, k2);
      var m1 := LineValue(lines[i], k1, true);
      if m1.Some? && p1.None? {
        p1 := Some(Resolvers.Resolve(root, m1.value));
        LineValueExclusive(lines[i], k1, k2);
      } else {
        var m2 := LineValue(lines[i], k2, true);
        if m2.Some? && p2.None? {
          p2 := Some(Resolvers.Resolve(root, m2.value));
        }
      }
      i := i + 1;
    }
    assert lines[..|lines|] == lines;
  }

  datatype Result = Result(passed: bool, tvSysMap: string, countryPath: string, targets: seq<string>, missing: seq<string>)


  /** A declared path that names no file, as a list of at most one entry. */
  function MissingOf(fs: FileSystem, p: Option<string>): (m: seq<string>)
    ensures m == [] <==> p.None? || Exists(fs, p.value)
    ensures m != [] ==> m == [p.value]
  {
    if p.Some? && !Exists(fs, p.value) then [p.value] else []
  }

  /**
   * `build_result`: `missing` lists, in order, each declared path whose file
   * does not exist, and the run passes iff both paths are declared and exist.
   */
  function BuildResult(fs: FileSystem, tvsysmap: Option<string>, countryPath: Option<string>, targets: seq<string>): (r: Result)
    ensures r.missing == MissingOf(fs, tvsysmap) + MissingOf(fs, countryPath)
    ensures forall x :: x in r.missing <==> (tvsysmap == Some(x) || countryPath == Some(x)) && !Exists(fs, x)
    ensures r.passed <==> tvsysmap.Some? && Exists(fs, tvsysmap.value) && countryPath.Some? && Exists(fs, countryPath.value)
    ensures r.tvSysMap == OrEmpty(tvsysmap) && r.countryPath == OrEmpty(countryPath) && r.targets == targets
  {
    var passed := tvsysmap.Some? && Exists(fs, tvsysmap.value) && countryPath.Some? && Exists(fs, countryPath.value);
    Result(passed, OrEmpty(tvsysmap), OrEmpty(countryPath), targets, MissingOf(fs, tvsysmap) + MissingOf(fs, countryPath))
  }

  /** `main` without the command line and the report: parse model.ini, read the targets, build the row. */
  method Run(fs: FileSystem, modelLines: seq<string>, root: string) returns (r: Result)
    ensures r.passed <==> var t := DeclaredPath(modelLines, root, TvSysMapKey); var c := DeclaredPath(modelLines, root, CountryPathKey);
      t.Some? && Exists(fs, t.value) && c.Some? && Exists(fs, c.value)
    ensures r.targets == ListedCountries(fs, DeclaredPath(modelLines, root, CountryPathKey))
    ensures r.missing == MissingOf(fs, DeclaredPath(modelLines, root, TvSysMapKey)) + MissingOf(fs, DeclaredPath(modelLines, root, CountryPathKey))
  {
    var tvsysmap, countryPath := ParseModelIniForPaths(modelLines, root);
    var targets := ParseCountryList(fs, countryPath);
    r := BuildResult(fs, tvsysmap, countryPath, targets);
  }
}
