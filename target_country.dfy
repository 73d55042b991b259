/**
 * target_country_check.py: every country of the list model.ini names as
 * COUNTRY_PATH must appear in the global list `<root>/country/<STANDARD>.ini`.
 */
module TargetCountry {
  import opened Wrappers
  import opened Text
  import opened Ini
  import opened Files
  import opened Paths
  import opened Dedup
  import opened CountryList
  import Resolvers

  /**
   * One line of `parse_model_ini_for_country_path`: the upper-case pattern,
   * else the lower-case one.  Both are compiled with IGNORECASE.
   */
  function CountryPathLine(raw: string): Option<string>
  {
    var m := LineValue(raw, "COUNTRY_PATH", true);
    if m.Some? then m else LineValue(raw, "country_path", true)
  }

  /** The second pattern never finds what the first one misses: under IGNORECASE they are one pattern. */
  lemma CountryPathLineSingle(raw: string)
    ensures CountryPathLine(raw) == LineValue(raw, "COUNTRY_PATH", true)
  {
    LineValueCaseBlind(raw, "COUNTRY_PATH", "country_path");
  }

  /** The value of an uncommented COUNTRY_PATH line, under IGNORECASE. */
  function CountryPathValue(raw: string): Option<string>
  {
    LineValue(raw, "COUNTRY_PATH", true)
  }

  /** `parse_model_ini_for_country_path`: the first uncommented COUNTRY_PATH line, resolved. */
  function CountryPath(lines: seq<string>, root: string): Option<string>
  {
    match First(lines, CountryPathLine)
    case None => None
    case Some(v) => Some(Resolvers.Resolve(root, v))
  }

  /** A path is found exactly when some line declares COUNTRY_PATH, and then it is the first such line's value, resolved. */
  lemma CountryPathIs(lines: seq<string>, root: string)
    ensures CountryPath(lines, root).Some? <==> exists i :: 0 <= i < |lines| && CountryPathValue(lines[i]).Some?
    ensures CountryPath(lines, root).Some? ==> exists i :: (0 <= i < |lines| &&
      CountryPathValue(lines[i]).Some? && CountryPath(lines, root).value == Resolvers.Resolve(root, CountryPathValue(lines[i]).value) &&
      forall j :: 0 <= j < i ==> CountryPathValue(lines[j]).None?)
  {
    forall i | 0 <= i < |lines| ensures CountryPathLine(lines[i]) == CountryPathValue(lines[i]) { CountryPathLineSingle(lines[i]); }
    FirstSame(lines, CountryPathLine, CountryPathValue);
    var k := FirstIndex(lines, CountryPathValue);
    if k < |lines| {
      assert CountryPath(lines, root).value == Resolvers.Resolve(root, CountryPathValue(lines[k]).value);
    }
  }

  /** The target list of `main`: empty when COUNTRY_PATH is undeclared. */
  function TargetCountries(fs: FileSystem, lines: seq<string>, root: string): (r: seq<string>)
    ensures CountryPath(lines, root).None? ==> r == []
  {
    ListedCountries(fs, CountryPath(lines, root))
  }

  /** `os.path.join(root, "country", f"{standard}.ini")`. */
  function GlobalIni(root: string, standard: string): string
  {
    Join(Join(root, "country"), standard + ".ini")
  }

  datatype Comparison = Comparison(target: seq<string>, global: seq<string>, missing: seq<string>, passed: bool)

  /**
   * The comparison of `main`: `missing` is the targets absent from the global
   * list, in target order, and the run passes when nothing is missing and at
   * least one of the two lists is non-empty.
   */
  function Compare(target: seq<string>, global: seq<string>): (c: Comparison)
    ensures c.target == target && c.global == global
    ensures Subsequence(c.missing, target)
    ensures forall x :: x in c.missing <==> x in target && x !in global
    ensures c.passed <==> (forall x :: x in target ==> x in global) && (target != [] || global != [])
  {
    var globalSet := set g | g in global;
    var missing := Keep(target, c => c !in globalSet);
    assert missing == [] <==> forall x :: x in target ==> x in global by {
      if missing != [] { assert missing[0] in missing; }
    }
    Comparison(target, global, missing, missing == [] && (target != [] || global != []))
  }

  /** `main` without the command line and the report: parse, read both lists, compare. */
  function Check(fs: FileSystem, modelLines: seq<string>, root: string, standard: string): (c: Comparison)
    ensures c.target == TargetCountries(fs, modelLines, root)
    ensures c.global == ListedCountries(fs, Some(GlobalIni(root, standard)))
    ensures forall x :: x in c.missing <==> x in c.target && x !in c.global
    ensures c.passed <==> (forall x :: x in c.target ==> x in c.global) && (c.target != [] || c.global != [])
  {
    Compare(TargetCountries(fs, modelLines, root), ListedCountries(fs, Some(GlobalIni(root, standard))))
  }

  /** The first uncommented declaration wins: later COUNTRY_PATH lines are ignored. */
  lemma FirstCountryPathWins(lines: seq<string>, more: seq<string>, root: string)
    requires CountryPath(lines, root).Some?
    ensures CountryPath(lines + more, root) == CountryPath(lines, root)
  {
    forall l | l in lines + more { CountryPathLineSingle(l); }
    var f := CountryPathLine;
    assert First(lines, f).Some?;
    FirstAppend(lines, more, f);
  }

  /** Without a target list and a global list there is nothing to compare, and the run fails. */
  lemma NothingToCompareFails(fs: FileSystem, modelLines: seq<string>, root: string, standard: string)
    requires CountryPath(modelLines, root).None?
    requires !Exists(fs, GlobalIni(root, standard))
    ensures !Check(fs, modelLines, root, standard).passed
  {
  }
}
