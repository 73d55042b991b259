/**
 * HbbTV_Check.py: every DVB block of countryTvSysMap.xml must have a
 * TV_CONFIG naming "tv.config.dvb_hbbtv"; the failures are reported with the
 * line of their TV_CONFIG tag.
 *
 * The blocks are found by the regular expressions of the script, not by an
 * XML parser, so they are modelled as index scans: a tag `<\s*NAME\s*>`
 * (any case), and an element whose content reaches the FIRST closing tag
 * `<\s*` `/\s*NAME\s*>` (the lazy `.*?` under DOTALL).
 */
module HbbTv {
  import opened Wrappers
  import opened Text
  import opened Scan
  import opened Search
  import opened Files
  import opened Dedup
  import opened Order

  const BlockTag: string := "COUNTRY_TVCONFIG_MAP"
  const Hbbtv: string := "tv.config.dvb_hbbtv"
  const SystemTag: string := "TV_SYSTEM"
  const ConfigTag: string := "TV_CONFIG"
  const CountryTag: string := "COUNTRY_NAME"

  // ---------------------------------------------------------------- tags

  /** `<\s*` and then `name`, ignoring case, from `i`: the index just after the name. */
  function AfterOpenName(s: string, i: nat, name: string): (r: Option<nat>)
    ensures r.Some? ==> i < r.value <= |s|
  {
    if i < |s| && s[i] == '<' then
      var a := SkipSet(s, i + 1, Whitespace);
      if OccursAtIgnoreCase(s, name, a) then Some(a + |name|) else None
    else None
  }

  /** `<\s*name\s*>` at `i`: the index just after '>'. */
  function OpenTag(s: string, i: nat, name: string): (r: Option<nat>)
    ensures r.Some? ==> i < r.value <= |s| && s[r.value - 1] == '>'
  {
    match AfterOpenName(s, i, name)
    case None => None
    case Some(b) =>
      var c := SkipSet(s, b, Whitespace);
      if c < |s| && s[c] == '>' then Some(c + 1) else None
  }

  /** The closing tag, `<\s*` `/\s*name\s*>`, at `i`: the index just after '>'. */
  function CloseTag(s: string, i: nat, name: string): (r: Option<nat>)
    ensures r.Some? ==> i < r.value <= |s| && s[i] == '<' && s[r.value - 1] == '>'
  {
    if i < |s| && s[i] == '<' then
      var a := SkipSet(s, i + 1, Whitespace);
      if a < |s| && s[a] == '/' then
        var b := SkipSet(s, a + 1, Whitespace);
        if OccursAtIgnoreCase(s, name, b) then
          var c := SkipSet(s, b + |name|, Whitespace);
          if c < |s| && s[c] == '>' then Some(c + 1) else None
        else None
      else None
    else None
  }

  /** A match of an element: its start, where its content starts and ends, and its end. */
  datatype Span = Span(start: nat, inner: nat, close: nat, end: nat)

  /** `<\s*name\s*>(.*?)` and the closing tag, matched at `i`: the content stops at the first closing tag. */
  function ElementAt(s: string, name: string, i: nat): (r: Option<Span>)
    ensures r.Some? ==> r.value.start == i && i < r.value.inner <= r.value.close < r.value.end <= |s|
  {
    match OpenTag(s, i, name)
    case None => None
    case Some(a) =>
      var c := Scan.SearchIndex(|s|, a, CloseFinder(s, name));
      if c <= |s| then Some(Span(i, a, c, CloseTag(s, c, name).value)) else None
  }

  function CloseFinder(s: string, name: string): nat -> Option<nat>
  {
    (k: nat) => CloseTag(s, k, name)
  }

  function ElementFinder(s: string, name: string): nat -> Option<Span>
  {
    (k: nat) => ElementAt(s, name, k)
  }

  /** A finder that gives, at each position, a match starting there and ending inside the text. */
  ghost predicate Finder(at: nat -> Option<Span>, n: nat)
  {
    forall q: nat :: at(q).Some? ==> at(q).value.start == q < at(q).value.inner <= at(q).value.close < at(q).value.end <= n
  }

  lemma ElementFinderIsFinder(s: string, name: string)
    ensures Finder(ElementFinder(s, name), |s|)
  {
    forall q: nat | ElementFinder(s, name)(q).Some?
      ensures ElementFinder(s, name)(q).value.start == q < ElementFinder(s, name)(q).value.inner <= ElementFinder(s, name)(q).value.close < ElementFinder(s, name)(q).value.end <= |s|
    {
      assert ElementFinder(s, name)(q) == ElementAt(s, name, q);
    }
  }

  /** `re.search` from `p`: the match at the first position where there is one. */
  function SearchFirst(at: nat -> Option<Span>, n: nat, p: nat): (r: Option<Span>)
    requires Finder(at, n) && p <= n
    ensures r.Some? ==> p <= r.value.start && at(r.value.start) == r
    ensures r.Some? ==> forall q :: p <= q < r.value.start ==> at(q).None?
    ensures r.None? ==> forall q :: p <= q <= n ==> at(q).None?
    decreases n - p
  {
    if at(p).Some? then at(p)
    else if p == n then None
    else SearchFirst(at, n, p + 1)
  }

  /** `finditer` from `p`: each search resumes at the end of the previous match. */
  function SearchAll(at: nat -> Option<Span>, n: nat, p: nat): (r: seq<Span>)
    requires Finder(at, n) && p <= n
    ensures forall k :: 0 <= k < |r| ==> p <= r[k].start && at(r[k].start) == Some(r[k])
    decreases n - p
  {
    match SearchFirst(at, n, p)
    case None => []
    case Some(m) => [m] + SearchAll(at, n, m.end)
  }

  /** The matches `finditer` gives follow each other without overlap: each ends before the next starts. */
  lemma {:induction false} SearchAllOrdered(at: nat -> Option<Span>, n: nat, p: nat)
    requires Finder(at, n) && p <= n
    ensures forall k, l :: 0 <= k < l < |SearchAll(at, n, p)| ==> SearchAll(at, n, p)[k].end <= SearchAll(at, n, p)[l].start
    decreases n - p
  {
    var m := SearchFirst(at, n, p);
    if m.Some? {
      SearchAllOrdered(at, n, m.value.end);
      var rest := SearchAll(at, n, m.value.end);
      var r := SearchAll(at, n, p);
      assert r == [m.value] + rest;
      forall k, l | 0 <= k < l < |r| ensures r[k].end <= r[l].start {
        assert r[l] == rest[l - 1];
        if k > 0 {
          assert r[k] == rest[k - 1];
        }
      }
    }
  }

  /** The first match of the element pattern from `p`. */
  function SearchElement(s: string, name: string, p: nat): Option<Span>
    requires p <= |s|
  {
    ElementFinderIsFinder(s, name);
    SearchFirst(ElementFinder(s, name), |s|, p)
  }

  /** `_extract_tag(txt, tag)`: the stripped content of the first `tag` element, or "". */
  function ExtractTag(txt: string, tag: string): (r: string)
  {
    match SearchElement(txt, tag, 0)
    case None => ""
    case Some(m) => Strip(txt[m.inner..m.close])
  }

  /** The content of an element ends at the first closing tag after the opening one (the lazy `.*?`). */
  lemma ElementStopsAtFirstClose(s: string, name: string, i: nat)
    requires ElementAt(s, name, i).Some?
    ensures OpenTag(s, i, name) == Some(ElementAt(s, name, i).value.inner)
    ensures CloseTag(s, ElementAt(s, name, i).value.close, name) == Some(ElementAt(s, name, i).value.end)
    ensures forall k :: ElementAt(s, name, i).value.inner <= k < ElementAt(s, name, i).value.close ==> CloseTag(s, k, name).None?
  {
    var a := OpenTag(s, i, name).value;
    var c := Scan.SearchIndex(|s|, a, CloseFinder(s, name));
    forall k | a <= k < c ensures CloseTag(s, k, name).None? {
      assert CloseFinder(s, name)(k).None?;
    }
  }

  /** A match after positions without one is what the search finds. */
  lemma {:induction false} SearchFirstIs(at: nat -> Option<Span>, n: nat, p: nat, q: nat)
    requires Finder(at, n) && p <= q <= n && at(q).Some?
    requires forall q' :: p <= q' < q ==> at(q').None?
    ensures SearchFirst(at, n, p) == at(q)
    decreases q - p
  {
    if p < q {
      SearchFirstIs(at, n, p + 1, q);
    }
  }

  /** With no element in the text, the extracted value is "". */
  lemma ExtractTagAbsent(txt: string, tag: string)
    requires forall q: nat :: q <= |txt| ==> ElementAt(txt, tag, q).None?
    ensures ExtractTag(txt, tag) == ""
  {
    ElementFinderIsFinder(txt, tag);
    forall q: nat | q <= |txt| ensures ElementFinder(txt, tag)(q).None? {
      assert ElementFinder(txt, tag)(q) == ElementAt(txt, tag, q);
    }
  }

  /** The extracted value is the stripped content of the first element in the text. */
  lemma ExtractTagFirst(txt: string, tag: string, q: nat)
    requires q <= |txt| && ElementAt(txt, tag, q).Some?
    requires forall q': nat :: q' < q ==> ElementAt(txt, tag, q').None?
    ensures ExtractTag(txt, tag) == Strip(txt[ElementAt(txt, tag, q).value.inner..ElementAt(txt, tag, q).value.close])
  {
    ElementFinderIsFinder(txt, tag);
    var at := ElementFinder(txt, tag);
    assert at(q) == ElementAt(txt, tag, q);
    forall q': nat | q' < q ensures at(q').None? {
      assert at(q') == ElementAt(txt, tag, q');
    }
    SearchFirstIs(at, |txt|, 0, q);
  }

  // ---------------------------------------------------------------- blocks

  /** `pattern.finditer(text)` for the element `name`. */
  function Spans(s: string, name: string): (r: seq<Span>)
  {
    ElementFinderIsFinder(s, name);
    SearchAll(ElementFinder(s, name), |s|, 0)
  }

  /** `_find_blocks_with_spans`: the `finditer` loop. */
  method FindBlocksWithSpans(text: string, name: string) returns (blocks: seq<Span>)
    ensures blocks == Spans(text, name)
  {
    ElementFinderIsFinder(text, name);
    blocks := FindAll(ElementFinder(text, name), |text|);
  }

  /** The `finditer` loop for any finder: each search resumes where the last match ended. */
  method FindAll(at: nat -> Option<Span>, n: nat) returns (blocks: seq<Span>)
    requires Finder(at, n)
    ensures blocks == SearchAll(at, n, 0)
  {
    blocks := [];
    var pos := 0;
    while true
      invariant pos <= n
      invariant blocks + SearchAll(at, n, pos) == SearchAll(at, n, 0)
      decreases n - pos
    {
      var m := SearchFirst(at, n, pos);
      if m.None? {
        assert blocks + SearchAll(at, n, pos) == blocks;
        return;
      }
      assert SearchAll(at, n, pos) == [m.value] + SearchAll(at, n, m.value.end);
      blocks := blocks + [m.value];
      pos := m.value.end;
    }
  }

  // ---------------------------------------------------------------- line numbers

  /** `_line_number_at(text, index)`: one more than the newlines before `index`, the index cut to the length. */
  function LineNumberAt(text: string, index: nat): (n: nat)
    ensures n >= 1
  {
    Occurrences(text[..if index <= |text| then index else |text|], '\n') + 1
  }

  /** A later index is on the same line or a later one. */
  lemma LineNumberMonotone(text: string, i: nat, j: nat)
    requires i <= j
    ensures LineNumberAt(text, i) <= LineNumberAt(text, j)
  {
    var a := if i <= |text| then i else |text|;
    var b := if j <= |text| then j else |text|;
    OccurrencesPrefix(text, a, b, '\n');
  }

  lemma {:induction false} OccurrencesPrefix<T(!new)>(s: seq<T>, a: nat, b: nat, x: T)
    requires a <= b <= |s|
    ensures Occurrences(s[..a], x) <= Occurrences(s[..b], x)
    decreases b - a
  {
    if a < b {
      OccurrencesPrefix(s, a, b - 1, x);
      assert s[..b][..b - 1] == s[..b - 1];
    }
  }

  /** A newline at `i` moves the next index one line down, any other character leaves it on the same line. */
  lemma LineNumberStep(text: string, i: nat)
    requires i < |text|
    ensures LineNumberAt(text, i + 1) == LineNumberAt(text, i) + (if text[i] == '\n' then 1 else 0)
  {
    assert text[..i + 1][..i] == text[..i];
  }

  /** `re.search(r"<\s*name\b", s, re.IGNORECASE)` tried at `i`. */
  function TagStartAt(s: string, name: string, i: nat): (r: Option<nat>)
    ensures r.Some? ==> r.value == i < |s|
  {
    match AfterOpenName(s, i, name)
    case None => None
    case Some(b) => if b == |s| || !IsWordChar(s[b]) then Some(i) else None
  }

  function TagFinder(s: string, name: string): nat -> Option<nat>
  {
    (k: nat) => TagStartAt(s, name, k)
  }

  /** `tag_match.start() if tag_match else 0`: at or before the end, and, when not 0, the first position where the tag starts. */
  function TagStart(s: string, name: string): (r: nat)
    ensures r <= |s|
  {
    var k := Scan.SearchIndex(|s|, 0, TagFinder(s, name));
    if k <= |s| then k else 0
  }

  lemma TagStartFirst(s: string, name: string)
    requires TagStart(s, name) > 0
    ensures TagStartAt(s, name, TagStart(s, name)).Some?
    ensures forall q: nat :: q < TagStart(s, name) ==> TagStartAt(s, name, q).None?
  {
    var k := Scan.SearchIndex(|s|, 0, TagFinder(s, name));
    assert TagFinder(s, name)(k).Some?;
    forall q: nat | q < k ensures TagStartAt(s, name, q).None? {
      assert TagFinder(s, name)(q).None?;
    }
  }

  // ---------------------------------------------------------------- the check

  /** The DVB test: the name itself or, with `treat_dvb_prefix_as_dvb`, `DVB_...`. */
  predicate IsDvbSystem(t: string, treatPrefix: bool)
  {
    t == "DVB" || (treatPrefix && StartsWith(t, "DVB_"))
  }

  /** One entry of `failed`: country, TV system, TV config, line. */
  datatype Failure = Failure(country: string, tvSystem: string, tvConfig: string, line: nat)

  /** The text of a block, `m.group(0)`. */
  function Fragment(text: string, m: Span): string
  {
    Slice(text, m.start, m.end)
  }

  /** What the check reads from a block: its upper-cased TV system, TV config, country, and where its `<TV_CONFIG` tag starts in the text. */
  datatype Fields = Fields(system: string, config: string, country: string, configAt: nat)

  function BlockFields(text: string, m: Span): Fields
  {
    var frag := Fragment(text, m);
    Fields(Upper(ExtractTag(frag, SystemTag)), ExtractTag(frag, ConfigTag), ExtractTag(frag, CountryTag), m.start + TagStart(frag, ConfigTag))
  }

  predicate IsDvbBlock(text: string, m: Span, treatPrefix: bool)
  {
    IsDvbSystem(BlockFields(text, m).system, treatPrefix)
  }

  /**
   * What one block adds to `failed`: a DVB block fails iff its TV_CONFIG
   * value does not contain "tv.config.dvb_hbbtv", and is reported at the
   * line of its `<TV_CONFIG` tag.
   */
  function BlockFailure(text: string, m: Span, treatPrefix: bool): (r: Option<Failure>)
    ensures r.Some? <==> IsDvbBlock(text, m, treatPrefix) && !Contains(BlockFields(text, m).config, Hbbtv)
    ensures r.Some? ==> IsDvbSystem(r.value.tvSystem, treatPrefix) && !Contains(r.value.tvConfig, Hbbtv)
    ensures r.Some? ==> r.value.line == LineNumberAt(text, BlockFields(text, m).configAt)
  {
    var f := BlockFields(text, m);
    if !IsDvbSystem(f.system, treatPrefix) || Contains(f.config, Hbbtv) then None
    else Some(Failure(f.country, f.system, f.config, LineNumberAt(text, f.configAt)))
  }

  /** `dvb_blocks` after a run of blocks. */
  function DvbCount(text: string, ms: seq<Span>, treatPrefix: bool): nat
    decreases |ms|
  {
    if |ms| == 0 then 0
    else DvbCount(text, ms[..|ms| - 1], treatPrefix) + (if IsDvbBlock(text, ms[|ms| - 1], treatPrefix) then 1 else 0)
  }

  /** `failed` after a run of blocks: never more entries than DVB blocks. */
  function Failures(text: string, ms: seq<Span>, treatPrefix: bool): (f: seq<Failure>)
    ensures |f| <= DvbCount(text, ms, treatPrefix)
    decreases |ms|
  {
    if |ms| == 0 then []
    else
      var n := |ms| - 1;
      Failures(text, ms[..n], treatPrefix) + (match BlockFailure(text, ms[n], treatPrefix) case None => [] case Some(d) => [d])
  }

  /** Every failure is a DVB block without the HbbTV config. */
  lemma {:induction false} FailuresShaped(text: string, ms: seq<Span>, treatPrefix: bool)
    ensures forall i :: 0 <= i < |Failures(text, ms, treatPrefix)| ==>
      IsDvbSystem(Failures(text, ms, treatPrefix)[i].tvSystem, treatPrefix) && !Contains(Failures(text, ms, treatPrefix)[i].tvConfig, Hbbtv)
    decreases |ms|
  {
    if |ms| > 0 {
      var n := |ms| - 1;
      FailuresShaped(text, ms[..n], treatPrefix);
      var pre := Failures(text, ms[..n], treatPrefix);
      var b := BlockFailure(text, ms[n], treatPrefix);
      var all := Failures(text, ms, treatPrefix);
      assert all == pre + (match b case None => [] case Some(d) => [d]);
      forall i | 0 <= i < |all|
        ensures IsDvbSystem(all[i].tvSystem, treatPrefix) && !Contains(all[i].tvConfig, Hbbtv)
      {
        if i < |pre| {
          assert all[i] == pre[i];
        } else {
          assert all[i] == b.value;
        }
      }
    }
  }

  /** The line numbers of the failures, in order. */
  function Lines(failed: seq<Failure>): (ls: seq<int>)
    ensures |ls| == |failed| && forall i :: 0 <= i < |failed| ==> ls[i] == failed[i].line
  {
    seq(|failed|, i requires 0 <= i < |failed| => failed[i].line as int)
  }

  /** `error_lines`: `sorted({ln for *_, ln in failed})`. */
  function ErrorLines(failed: seq<Failure>): seq<int>
  {
    SortUnique(IntLess, Lines(failed))
  }

  /** The error lines ascend strictly and are exactly the lines of the failures. */
  lemma ErrorLinesExact(failed: seq<Failure>)
    ensures StrictlySorted(IntLess, ErrorLines(failed))
    ensures forall n :: n in ErrorLines(failed) <==> exists i :: 0 <= i < |failed| && failed[i].line == n
  {
    IntLessStrictTotal();
    SortUniqueSorted(IntLess, Lines(failed));
    var ls := Lines(failed);
    forall n ensures n in ls <==> exists i :: 0 <= i < |failed| && failed[i].line == n {
      if n in ls {
        var i :| 0 <= i < |ls| && ls[i] == n;
      }
    }
  }

  datatype Report = Report(xmlPath: string, dvbBlocks: nat, failed: seq<Failure>, failedCount: nat,
                           errorLines: seq<int>, notes: seq<string>)

  /** The body of the `for (start, end), frag in blocks` loop on one block. */
  method CheckBlock(text: string, m: Span, treatPrefix: bool) returns (isDvb: bool, failure: Option<Failure>)
    ensures isDvb == IsDvbBlock(text, m, treatPrefix)
    ensures failure == BlockFailure(text, m, treatPrefix)
  {
    ghost var f := BlockFields(text, m);
    var frag := Fragment(text, m);
    var tvSystem := Upper(ExtractTag(frag, SystemTag));
    assert tvSystem == f.system;
    isDvb := IsDvbSystem(tvSystem, treatPrefix);
    failure := None;
    if isDvb {
      var tvConfig := ExtractTag(frag, ConfigTag);
      assert tvConfig == f.config;
      if !Contains(tvConfig, Hbbtv) {
        var lineNo := LineNumberAt(text, m.start + TagStart(frag, ConfigTag));
        assert lineNo == LineNumberAt(text, f.configAt);
        failure := Some(Failure(ExtractTag(frag, CountryTag), tvSystem, tvConfig, lineNo));
        BlockFailureOf(text, m, treatPrefix, f);
      } else {
        BlockPasses(text, m, treatPrefix);
      }
    } else {
      BlockPasses(text, m, treatPrefix);
    }
  }

  /** A block that is not DVB, or whose TV_CONFIG mentions "hbbtv", adds no failure. */
  lemma BlockPasses(text: string, m: Span, treatPrefix: bool)
    requires !IsDvbBlock(text, m, treatPrefix) || Contains(BlockFields(text, m).config, Hbbtv)
    ensures BlockFailure(text, m, treatPrefix) == None
  {
  }

  /** The failure of a DVB block without "hbbtv" is made of the fields read from it. */
  lemma BlockFailureOf(text: string, m: Span, treatPrefix: bool, f: Fields)
    requires f == BlockFields(text, m) && IsDvbSystem(f.system, treatPrefix) && !Contains(f.config, Hbbtv)
    ensures BlockFailure(text, m, treatPrefix) == Some(Failure(f.country, f.system, f.config, LineNumberAt(text, f.configAt)))
  {
  }

  /** Counting and checking one more block. */
  lemma BlocksStep(text: string, blocks: seq<Span>, i: nat, treatPrefix: bool)
    requires i < |blocks|
    ensures DvbCount(text, blocks[..i + 1], treatPrefix) == DvbCount(text, blocks[..i], treatPrefix) + (if IsDvbBlock(text, blocks[i], treatPrefix) then 1 else 0)
    ensures Failures(text, blocks[..i + 1], treatPrefix) ==
      Failures(text, blocks[..i], treatPrefix) + (match BlockFailure(text, blocks[i], treatPrefix) case None => [] case Some(d) => [d])
  {
    assert blocks[..i + 1][..i] == blocks[..i];
  }

  /** One turn of the loop over the blocks: the counts and failures of one more block. */
  method CheckNextBlock(text: string, blocks: seq<Span>, i: nat, treatPrefix: bool, dvb: nat, failed: seq<Failure>)
    returns (dvb': nat, failed': seq<Failure>)
    requires i < |blocks|
    requires dvb == DvbCount(text, blocks[..i], treatPrefix) && failed == Failures(text, blocks[..i], treatPrefix)
    ensures dvb' == DvbCount(text, blocks[..i + 1], treatPrefix) && failed' == Failures(text, blocks[..i + 1], treatPrefix)
  {
    BlocksStep(text, blocks, i, treatPrefix);
    var isDvb, failure := CheckBlock(text, blocks[i], treatPrefix);
    dvb' := if isDvb then dvb + 1 else dvb;
    failed' := if failure.Some? then failed + [failure.value] else failed;
  }

  /** The loop over the blocks. */
  method CheckBlocks(text: string, blocks: seq<Span>, treatPrefix: bool) returns (dvb: nat, failed: seq<Failure>)
    ensures dvb == DvbCount(text, blocks, treatPrefix)
    ensures failed == Failures(text, blocks, treatPrefix)
  {
    dvb := 0;
    failed := [];
    var i := 0;
    while i < |blocks|
      invariant 0 <= i <= |blocks|
      invariant dvb == DvbCount(text, blocks[..i], treatPrefix)
      invariant failed == Failures(text, blocks[..i], treatPrefix)
    {
      dvb, failed := CheckNextBlock(text, blocks, i, treatPrefix, dvb, failed);
      i := i + 1;
    }
    assert blocks[..|blocks|] == blocks;
  }

  const XmlNotFound: string := "countryTvSysMap.xml not found"
  const XmlEmpty: string := "XML is empty or cannot be read"

  /**
   * `check_country_tvconfig`: a missing or blank XML gives no DVB block, no
   * failure and one note; otherwise the blocks are counted and checked.
   */
  method CheckCountryTvConfig(fs: FileSystem, xmlPath: string, treatPrefix: bool) returns (r: Report)
    ensures r.xmlPath == xmlPath
    ensures r.failedCount == |r.failed| <= r.dvbBlocks
    ensures r.errorLines == ErrorLines(r.failed)
    ensures !Exists(fs, xmlPath) ==> r == Report(xmlPath, 0, [], 0, [], [XmlNotFound])
    ensures Exists(fs, xmlPath) && Strip(Read(fs, xmlPath).value) == "" ==> r == Report(xmlPath, 0, [], 0, [], [XmlEmpty])
    ensures Exists(fs, xmlPath) && Strip(Read(fs, xmlPath).value) != "" ==>
      var text := Read(fs, xmlPath).value;
      var spans := Spans(text, BlockTag);
      r.notes == [] && r.dvbBlocks == DvbCount(text, spans, treatPrefix) && r.failed == Failures(text, spans, treatPrefix)
  {
    if !Exists(fs, xmlPath) {
      return Report(xmlPath, 0, [], 0, [], [XmlNotFound]);
    }
    var text := Read(fs, xmlPath).value;
    if Strip(text) == "" {
      assert ErrorLines([]) == [];
      return Report(xmlPath, 0, [], 0, [], [XmlEmpty]);
    }
    var blocks := FindBlocksWithSpans(text, BlockTag);
    var dvb, failed := CheckBlocks(text, blocks, treatPrefix);
    r := Report(xmlPath, dvb, failed, |failed|, ErrorLines(failed), []);
  }
}
