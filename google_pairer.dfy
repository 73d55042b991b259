/**
 * check_supportedDeviceGooglePairer.py: report the raw value model.ini gives
 * supportedDeviceGooglePairer.  check_defaultLocale.py is the same checker for
 * defaultLocale and shares this definition.
 */
module GooglePairer {
  import opened Wrappers
  import opened Text
  import opened Ini
  import opened Files
  import Resolvers

  const Key: string := "supportedDeviceGooglePairer"

  /** What `parse_supported_pairer` returns, without the echo of its argument. */
  datatype Lookup = Lookup(resolved: string, raw: Option<string>, resultText: string, missing: seq<string>)

  /**
   * `parse_supported_pairer` for any key: the model.ini path itself goes
   * through the trimming `/tvconfigs/` mapping; a missing model.ini gives
   * N/A and one missing entry; an absent key gives N/A and a missing entry
   * naming the key; a present key gives its value as it is.  The lines'
   * trim-first `_strip_comment` is the common one (`StripCommentTrimmedFirstSame`).
   */
  function ParseModelKey(fs: FileSystem, root: string, modelIni: string, key: string): (r: Lookup)
    ensures r.resolved == Resolvers.ResolveTrimmed(root, modelIni)
    ensures !Exists(fs, r.resolved) ==>
      r.raw.None? && r.resultText == "N/A" && r.missing == ["model.ini not found: " + r.resolved]
    ensures Exists(fs, r.resolved) ==> r.raw == FindKeyValue(ReadLines(fs, r.resolved).value, key, true)
    ensures Exists(fs, r.resolved) && r.raw.None? ==>
      r.resultText == "N/A" && r.missing == [key + " not found in model.ini"]
    ensures r.raw.Some? ==> r.resultText == r.raw.value && r.missing == []
    ensures |r.missing| == (if r.raw.None? then 1 else 0)
  {
    var resolved := Resolvers.ResolveTrimmed(root, modelIni);
    match ReadLines(fs, resolved)
    case None => Lookup(resolved, None, "N/A", ["model.ini not found: " + resolved])
    case Some(lines) =>
      match FindKeyValue(lines, key, true)
      case None => Lookup(resolved, None, "N/A", [key + " not found in model.ini"])
      case Some(v) => Lookup(resolved, Some(v), v, [])
  }

  /**
   * `parse_supported_pairer`: N/A with one missing entry when model.ini or the
   * key is absent, else the raw value verbatim.
   */
  function ParseSupportedPairer(fs: FileSystem, root: string, modelIni: string): (r: Lookup)
    ensures r.resolved == Resolvers.ResolveTrimmed(root, modelIni)
    ensures Exists(fs, r.resolved) ==> r.raw == FindKeyValue(ReadLines(fs, r.resolved).value, Key, true)
    ensures r.raw.None? ==> r.resultText == "N/A" && |r.missing| == 1
    ensures r.raw.Some? ==> r.resultText == r.raw.value && r.missing == []
  {
    ParseModelKey(fs, root, modelIni, Key)
  }
}
