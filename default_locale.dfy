/** check_defaultLocale.py: report the raw value model.ini gives defaultLocale. */
module DefaultLocale {
  import opened Files
  import opened Ini
  import GooglePairer
  import Resolvers

  const Key: string := "defaultLocale"

  /**
   * `parse_defaultLocale`: the same lookup as `parse_supported_pairer`, for
   * defaultLocale: N/A with one missing entry when model.ini or the key is
   * absent, else the raw value verbatim.
   */
  function ParseDefaultLocale(fs: FileSystem, root: string, modelIni: string): (r: GooglePairer.Lookup)
    ensures r.resolved == Resolvers.ResolveTrimmed(root, modelIni)
    ensures Exists(fs, r.resolved) ==> r.raw == FindKeyValue(ReadLines(fs, r.resolved).value, Key, true)
    ensures r.raw.None? ==> r.resultText == "N/A" && |r.missing| == 1
    ensures r.raw.Some? ==> r.resultText == r.raw.value && r.missing == []
  {
    GooglePairer.ParseModelKey(fs, root, modelIni, Key)
  }
}
