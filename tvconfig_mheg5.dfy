/**
 * check_tvconfig_and_mheg5.py: model.ini's TvConfig must be one of two allowed
 * values, and the TvConfig file must switch MHEG-5 off.
 */
module TvConfigMheg5 {
  import opened Wrappers
  import opened Text
  import opened Ini
  import opened Files
  import Resolvers

  const Allowed: set<string> := {"/tvconfigs/tv_config/tv.config.dvb_ntsc", "/tvconfigs/tv_config/tv.config.dvbt_ntsc"}
  const FlagKey: string := "persist.vendor.rtk.tv.enable_mheg5"
  const CompactFlag: string := "persist.vendor.rtk.tv.enable_mheg5=false"

  /** `find_tvconfig_value_case_sensitive`: the first uncommented TvConfig value, the key in exact case. */
  function FindTvConfigValue(lines: seq<string>): (v: Option<string>)
    ensures v.Some? <==> exists i :: 0 <= i < |lines| && LineValue(lines[i], "TvConfig", false).Some?
    ensures v.Some? ==>
      exists i :: 0 <= i < |lines| && LineValue(lines[i], "TvConfig", false) == v &&
        forall j :: 0 <= j < i ==> LineValue(lines[j], "TvConfig", false).None?
  {
    First(lines, l => LineValue(l, "TvConfig", false))
  }

  /** `check_tvconfig_path`: the value is exactly one of the allowed strings. */
  function CheckTvConfigPath(v: Option<string>): (ok: bool)
    ensures ok <==> v.Some? && v.value in Allowed
  {
    v.Some? && v.value in Allowed
  }

  /** `^\s*persist\.vendor\.rtk\.tv\.enable_mheg5\s*=\s*false\s*$`, matched on a raw line in exact case. */
  predicate FlagLine(line: string)
  {
    match AfterKeyEq(line, FlagKey, false)
    case None => false
    case Some(rest) => Strip(rest) == "false"
  }

  /** The path `main` hands over: the resolved TvConfig file, or none when TvConfig is undeclared or empty. */
  function Mheg5Path(root: string, v: Option<string>): (p: Option<string>)
    ensures p.Some? <==> v.Some? && v.value != ""
  {
    if v.Some? && v.value != "" then Some(Resolvers.Resolve(root, v.value)) else None
  }

  /** What a call does: raise an exception, or return a value. */
  datatype Outcome = Raises | Returns(flagOff: bool)

  /** The flag test itself on a file's text: a matching line, or the compact form anywhere (comments included). */
  predicate FlagOff(text: string)
  {
    (exists i :: 0 <= i < |SplitLines(text)| && FlagLine(SplitLines(text)[i])) || Contains(text, CompactFlag)
  }

  /**
   * `check_mheg5_flag` as written: its existence guard is commented out, so a
   * missing path or file raises instead of answering.
   */
  function CheckMheg5FlagAsWritten(fs: FileSystem, path: Option<string>): (r: Outcome)
    ensures r == Raises <==> path.None? || !Exists(fs, path.value)
    ensures r.Returns? ==> (r.flagOff <==> FlagOff(Read(fs, path.value).value))
  {
    if path.None? || !Exists(fs, path.value) then Raises
    else Returns(FlagOff(Read(fs, path.value).value))
  }

  /** An undeclared TvConfig makes the as-written check raise. */
  lemma UndeclaredTvConfigRaises(fs: FileSystem, root: string)
    ensures CheckMheg5FlagAsWritten(fs, Mheg5Path(root, None)) == Raises
  {
  }

  /** `check_mheg5_flag` with its guard restored: a missing path or file answers false. */
  function CheckMheg5Flag(fs: FileSystem, path: Option<string>): (off: bool)
    ensures path.None? || !Exists(fs, path.value) ==> !off
    ensures CheckMheg5FlagAsWritten(fs, path).Returns? ==> off == CheckMheg5FlagAsWritten(fs, path).flagOff
  {
    if path.None? || !Exists(fs, path.value) then false else FlagOff(Read(fs, path.value).value)
  }
}
