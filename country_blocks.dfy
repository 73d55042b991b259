/**
 * What check_dvbs_satellite_flag.py and check_ginga_flag.py share: the
 * COUNTRY_TVCONFIG_MAP blocks of `<root>/TvSysMap/countryTvSysMap.xml`, the
 * test that a block's TV config file sets a property to 0, the walk over the
 * blocks of one television standard, and the `Counter` summary of the
 * failures.
 *
 * The XML parser is an oracle: for a file's text it gives the outcome of the
 * strict parse, of the parse wrapped in a `<ROOT>` element, and of the
 * fragment-by-fragment parse of each `<COUNTRY_TVCONFIG_MAP>...</...>` match.
 */
module CountryBlocks {
  import opened Wrappers
  import opened Text
  import opened Ini
  import opened Files
  import opened Paths
  import opened Dedup
  import opened Order
  import Resolvers

  /** A COUNTRY_TVCONFIG_MAP element: `findtext(...) or ""` of its two children. */
  datatype Block = Block(tvSystem: string, tvConfig: string)

  /** One parse attempt: the exception's message, or the blocks `findall` gives. */
  datatype Parse = ParseError(message: string) | Parsed(blocks: seq<Block>)

  /** The three strategies on one text; a fragment that fails to parse, or whose tag is not the block tag, is None. */
  datatype Tiers = Tiers(strict: Parse, wrapped: Parse, fragments: seq<Option<Block>>)

  /** A parse that found at least one block (`if blocks: return blocks`). */
  predicate Found(p: Parse)
  {
    p.Parsed? && p.blocks != []
  }

  /** `os.path.join(root, "TvSysMap", "countryTvSysMap.xml")`. */
  function XmlPath(root: string): string
  {
    Join(Join(root, "TvSysMap"), "countryTvSysMap.xml")
  }

  const XmlNotFound: string := "countryTvSysMap.xml not found"

  /** The fragment loop: the blocks of the fragments that parsed, in order. */
  method FragmentBlocks(fragments: seq<Option<Block>>) returns (blocks: seq<Block>)
    ensures blocks == Collect(fragments, ParsedFragment)
  {
    blocks := AppendCollected([], fragments, ParsedFragment);
  }

  function ParsedFragment(f: Option<Block>): Option<Block>
  {
    f
  }

  // ---------------------------------------------------------------- flag files

  /** One line of `_file_flag_state`: uncommented, non-empty, and `<key>=0` occurs once spaces are removed. */
  predicate FlagLine(raw: string, key: string)
  {
    var line := StripComment(raw);
    line != "" && Contains(RemoveChar(line, ' '), key + "=0")
  }

  /** Some line is a flag line; the search stops at the first one. */
  function FlagFound(lines: seq<string>, key: string): (b: bool)
    ensures b <==> exists i :: 0 <= i < |lines| && FlagLine(lines[i], key)
  {
    First(lines, l => if FlagLine(l, key) then Some(l) else None).Some?
  }

  /**
   * `_file_flag_state(path, key)`: None for ok, else the reason, "MISSING"
   * when the file cannot be opened and "NO_FLAG" otherwise.
   */
  function FlagState(fs: FileSystem, path: string, key: string): (r: Option<string>)
    ensures r == Some("MISSING") <==> !Exists(fs, path)
    ensures r.None? <==> Exists(fs, path) && FlagFound(IterLines(fs, path).value, key)
    ensures r.Some? ==> r.value == "MISSING" || r.value == "NO_FLAG"
  {
    match IterLines(fs, path)
    case None => Some("MISSING")
    case Some(lines) => if FlagFound(lines, key) then None else Some("NO_FLAG")
  }

  // ---------------------------------------------------------------- blocks

  /** The standard test on `(findtext("TV_SYSTEM") or "").strip().upper()`: the name itself or `<name>_...`. */
  predicate InClass(b: Block, standard: string)
  {
    var t := Upper(Strip(b.tvSystem));
    t == standard || StartsWith(t, standard + "_")
  }

  const MissingConfig: string := "(missing TV_CONFIG)"

  /** What checking one block adds to `failed_detail`, if anything. */
  function Failure(fs: FileSystem, root: string, key: string, standard: string, b: Block): (r: Option<(string, string)>)
    ensures r.Some? ==> InClass(b, standard)
    ensures InClass(b, standard) && Strip(b.tvConfig) == "" ==> r == Some((MissingConfig, "NO_FLAG"))
    ensures InClass(b, standard) && Strip(b.tvConfig) != "" ==>
      var p := Resolvers.Resolve(root, Strip(b.tvConfig));
      (r.None? <==> FlagState(fs, p, key).None?) && (r.Some? ==> r.value == (p, FlagState(fs, p, key).value))
  {
    if !InClass(b, standard) then None
    else
      var cfg := Strip(b.tvConfig);
      if cfg == "" then Some((MissingConfig, "NO_FLAG"))
      else
        var p := Resolvers.Resolve(root, cfg);
        match FlagState(fs, p, key)
        case None => None
        case Some(why) => Some((p, why))
  }

  /** `checked_count` after a run of blocks: the blocks of the standard. */
  function ClassCount(blocks: seq<Block>, standard: string): nat
    decreases |blocks|
  {
    if |blocks| == 0 then 0
    else ClassCount(blocks[..|blocks| - 1], standard) + (if InClass(blocks[|blocks| - 1], standard) then 1 else 0)
  }

  /** `failed_detail` after a run of blocks. */
  function Failures(fs: FileSystem, root: string, key: string, standard: string, blocks: seq<Block>): (f: seq<(string, string)>)
    ensures |f| <= ClassCount(blocks, standard)
    decreases |blocks|
  {
    if |blocks| == 0 then []
    else
      var n := |blocks| - 1;
      Failures(fs, root, key, standard, blocks[..n]) +
        (match Failure(fs, root, key, standard, blocks[n]) case None => [] case Some(d) => [d])
  }

  /** The body of the `for block in blocks` loop on one block. */
  method CheckBlock(fs: FileSystem, root: string, key: string, standard: string, b: Block)
    returns (inClass: bool, failure: Option<(string, string)>)
    ensures inClass == InClass(b, standard)
    ensures failure == Failure(fs, root, key, standard, b)
  {
    var tv := Upper(Strip(b.tvSystem));
    inClass := tv == standard || StartsWith(tv, standard + "_");
    failure := None;
    if inClass {
      var cfg := Strip(b.tvConfig);
      if cfg == "" {
        failure := Some((MissingConfig, "NO_FLAG"));
      } else {
        var p := Resolvers.Resolve(root, cfg);
        var state := FlagState(fs, p, key);
        if state.Some? {
          failure := Some((p, state.value));
        }
      }
    }
  }

  /** Counting and checking one more block. */
  lemma BlocksStep(fs: FileSystem, root: string, key: string, standard: string, blocks: seq<Block>, i: nat)
    requires i < |blocks|
    ensures ClassCount(blocks[..i + 1], standard) == ClassCount(blocks[..i], standard) + (if InClass(blocks[i], standard) then 1 else 0)
    ensures Failures(fs, root, key, standard, blocks[..i + 1]) ==
      Failures(fs, root, key, standard, blocks[..i]) + (match Failure(fs, root, key, standard, blocks[i]) case None => [] case Some(d) => [d])
  {
    assert blocks[..i + 1][..i] == blocks[..i];
  }

  /** One turn of the loop: the count and failures of one more block. */
  method CheckNextBlock(fs: FileSystem, root: string, key: string, standard: string, blocks: seq<Block>, i: nat,
                        checked: nat, failed: seq<(string, string)>)
    returns (checked': nat, failed': seq<(string, string)>)
    requires i < |blocks|
    requires checked == ClassCount(blocks[..i], standard) && failed == Failures(fs, root, key, standard, blocks[..i])
    ensures checked' == ClassCount(blocks[..i + 1], standard) && failed' == Failures(fs, root, key, standard, blocks[..i + 1])
  {
    BlocksStep(fs, root, key, standard, blocks, i);
    var inClass, failure := CheckBlock(fs, root, key, standard, blocks[i]);
    failed' := if failure.Some? then failed + [failure.value] else failed;
    checked' := if inClass then checked + 1 else checked;
  }

  /** The `for block in blocks` loop of the two checkers. */
  method CheckBlocks(fs: FileSystem, root: string, key: string, standard: string, blocks: seq<Block>)
    returns (checked: nat, failed: seq<(string, string)>)
    ensures checked == ClassCount(blocks, standard)
    ensures failed == Failures(fs, root, key, standard, blocks)
  {
    checked := 0;
    failed := [];
    var i := 0;
    while i < |blocks|
      invariant 0 <= i <= |blocks|
      invariant checked == ClassCount(blocks[..i], standard)
      invariant failed == Failures(fs, root, key, standard, blocks[..i])
    {
      checked, failed := CheckNextBlock(fs, root, key, standard, blocks, i, checked, failed);
      i := i + 1;
    }
    assert blocks[..|blocks|] == blocks;
  }

  // ---------------------------------------------------------------- summary

  /** `f"{p} ({r})"`. */
  function Entry(d: (string, string)): string
  {
    d.0 + " (" + d.1 + ")"
  }

  function Entries(failed: seq<(string, string)>): (es: seq<string>)
    ensures |es| == |failed| && forall i :: 0 <= i < |failed| ==> es[i] == Entry(failed[i])
  {
    seq(|failed|, i requires 0 <= i < |failed| => Entry(failed[i]))
  }

  /** The keys of `Counter(entries)` in `sorted(ctr.items())` order. */
  function SummaryKeys(failed: seq<(string, string)>): seq<string>
  {
    SortUnique(StringLess, Entries(failed))
  }

  /**
   * `failed_files`: with dedup, `"<entry> x<count>"` per distinct entry in key
   * order; without, one entry per failure in the order found.
   */
  function Summary(failed: seq<(string, string)>, dedup: bool): (s: seq<string>)
    ensures !dedup ==> s == Entries(failed)
    ensures dedup ==> |s| == |SummaryKeys(failed)| && forall i :: 0 <= i < |s| ==>
      s[i] == SummaryKeys(failed)[i] + " x" + NatToString(Occurrences(Entries(failed), SummaryKeys(failed)[i]))
  {
    if !dedup then Entries(failed)
    else
      var es := Entries(failed);
      var keys := SummaryKeys(failed);
      seq(|keys|, i requires 0 <= i < |keys| => keys[i] + " x" + NatToString(Occurrences(es, keys[i])))
  }

  /**
   * The deduplicated summary has one line per distinct failure entry, in
   * strictly ascending key order, and its counts add up to the number of
   * failures.
   */
  lemma SummaryCounts(failed: seq<(string, string)>)
    ensures StrictlySorted(StringLess, SummaryKeys(failed))
    ensures forall e :: e in SummaryKeys(failed) <==> e in Entries(failed)
    ensures SumOccurrences(SummaryKeys(failed), Entries(failed)) == |failed|
  {
    StringLessStrictTotal();
    SortUniqueSorted(StringLess, Entries(failed));
    var es := Entries(failed);
    assert forall i :: 0 <= i < |es| ==> es[i] in SummaryKeys(failed) by {
      forall i | 0 <= i < |es| ensures es[i] in SummaryKeys(failed) {
        assert es[i] in es;
      }
    }
    SumOccurrencesTotal(SummaryKeys(failed), es);
  }
}
