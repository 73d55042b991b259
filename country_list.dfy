/**
 * `parse_country_list` of target_country_check.py and
 * tv_multi_standard_validation_pid5.py (the two copies are the same): a
 * loose reading of a country list file.  Every comment-stripped line is split
 * on runs of ',', '=' and blanks, the pieces that look like country tokens
 * (`[A-Z][A-Z0-9_]*`) are kept, and the list is deduplicated in
 * first-occurrence order.
 */
module CountryList {
  import opened Wrappers
  import opened Text
  import opened Ini
  import opened Files
  import opened Dedup

  /** `re.fullmatch(r"[A-Z][A-Z0-9_]*", t)`. */
  predicate IsCountryToken(t: string)
  {
    |t| >= 1 && 'A' <= t[0] <= 'Z' &&
    forall i :: 1 <= i < |t| ==> 'A' <= t[i] <= 'Z' || IsDigit(t[i]) || t[i] == '_'
  }

  /** The character class of `re.split(r"[,\s=]+", line)`. */
  const Separators: set<char> := {',', '='} + Whitespace

  /** `part = part.strip()`, kept when non-empty and shaped like a country token. */
  function Token(part: string): (r: Option<string>)
    ensures r.Some? ==> IsCountryToken(r.value)
  {
    var p := Strip(part);
    if p != "" && IsCountryToken(p) then Some(p) else None
  }

  /** The tokens one line of the file contributes. */
  function LineTokens(raw: string): seq<string>
  {
    var line := StripComment(raw);
    if line == "" then [] else Collect(SplitRuns(line, Separators), Token)
  }

  lemma LineTokensShaped(raw: string)
    ensures forall i :: 0 <= i < |LineTokens(raw)| ==> IsCountryToken(LineTokens(raw)[i])
  {
    var line := StripComment(raw);
    if line != "" {
      CollectExact(SplitRuns(line, Separators), Token);
    }
  }

  /** The `tokens` list, before deduplication. */
  function Tokens(lines: seq<string>): seq<string>
  {
    Concat(lines, LineTokens)
  }

  /** What `parse_country_list(path)` returns; a path that is None or names no file gives []. */
  function ListedCountries(fs: FileSystem, path: Option<string>): (r: seq<string>)
    ensures path.None? || !Exists(fs, path.value) ==> r == []
    ensures NoDup(r)
    ensures forall i :: 0 <= i < |r| ==> IsCountryToken(r[i])
  {
    if path.None? || !Exists(fs, path.value) then []
    else
      var ts := Tokens(ReadLines(fs, path.value).value);
      TokensShaped(ReadLines(fs, path.value).value);
      UniqueEvery(ts, IsCountryToken);
      Unique(ts)
  }

  /** The two loops of `parse_country_list`: collect the tokens line by line, then deduplicate. */
  method ParseCountryList(fs: FileSystem, path: Option<string>) returns (uniq: seq<string>)
    ensures uniq == ListedCountries(fs, path)
  {
    if path.None? || !Exists(fs, path.value) {
      return [];
    }
    var lines := ReadLines(fs, path.value).value;
    var tokens: seq<string> := [];
    var i := 0;
    while i < |lines|
      invariant 0 <= i <= |lines|
      invariant tokens == Tokens(lines[..i])
    {
      ConcatSnoc(lines, i, LineTokens);
      var line := StripComment(lines[i]);
      if line != "" {
        tokens := AppendCollected(tokens, SplitRuns(line, Separators), Token);
      }
      i := i + 1;
    }
    assert lines[..|lines|] == lines;
    uniq := Deduplicate(tokens);
  }

  /** Every collected token is shaped like a country token. */
  lemma TokensShaped(lines: seq<string>)
    ensures forall i :: 0 <= i < |Tokens(lines)| ==> IsCountryToken(Tokens(lines)[i])
  {
    forall i | 0 <= i < |lines| {
      LineTokensShaped(lines[i]);
    }
    ConcatEvery(lines, LineTokens, IsCountryToken);
  }

  /** A token found on a later line never moves one already listed: the list grows at its end. */
  lemma CountryOrderKept(lines: seq<string>, more: seq<string>)
    ensures var u := Unique(Tokens(lines)); |u| <= |Unique(Tokens(lines + more))| && Unique(Tokens(lines + more))[..|u|] == u
  {
    ConcatAppend(lines, more, LineTokens);
    UniquePrefix(Tokens(lines), Tokens(more));
  }
}
