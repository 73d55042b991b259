/**
 * check_allm_enable.py: model.ini must declare isSupportALLM as true, and
 * the TV default settings file it names must hold an [ALLM] section whose
 * ENABLE assignments are all 1.
 *
 * Both model.ini lookups are the shared case-insensitive search `Ini.FindKv`;
 * the report's sheet name is `Sheets.AllmSheetName`.
 */
module AllmEnable {
  import opened Wrappers
  import opened Text
  import opened Ini
  import opened Files
  import opened Scan
  import opened Dedup
  import opened Paths
  import Resolvers

  const SupportKey: string := "isSupportALLM"
  const PathKey: string := "TvDefaultSettingsPath"
  const SectionName: string := "allm"
  const EnableKey: string := "enable"

  // ---------------------------------------------------------------- isSupportALLM

  datatype SupportReport = SupportReport(passed: bool, value: string, notes: seq<string>)

  /** `check_is_support_allm` on the value found: passes iff it trims and lowercases to "true"; one note otherwise. */
  function CheckIsSupportAllm(value: Option<string>): (r: SupportReport)
    ensures r.passed <==> value.Some? && Lower(Strip(value.value)) == "true"
    ensures |r.notes| == (if r.passed then 0 else 1)
    ensures value.None? ==> r.value == "" && r.notes == ["isSupportALLM 未宣告或僅存在於註解中"]
    ensures value.Some? ==> r.value == value.value
  {
    match value
    case None => SupportReport(false, "", ["isSupportALLM 未宣告或僅存在於註解中"])
    case Some(v) =>
      var passed := Lower(Strip(v)) == "true";
      SupportReport(passed, v, if passed then [] else ["isSupportALLM 不是 true (got: " + v + ")"])
  }

  // ---------------------------------------------------------------- the [ALLM] section

  /** A header line opens the ALLM section when its name, trimmed and lowercased, is "allm". */
  predicate OpensAllm(name: string)
  {
    Lower(Strip(name)) == SectionName
  }

  /**
   * What `_extract_allm_section_lines` makes of one line: a header (recognised on
   * the trimmed line), or else, by its comment-stripped form, a line to skip,
   * one that ends the scan because it looks like a header, or one to keep.
   */
  datatype LineKind = Header(name: string) | Skip | Stop | Keep(text: string)

  function Kind(raw: string): (k: LineKind)
    ensures k.Keep? ==> k.text == StripComment(raw) && k.text != "" && '#' !in k.text && ';' !in k.text
  {
    match SectionHeader(Strip(raw))
    case Some(name) => Header(name)
    case None =>
      var line := StripComment(raw);
      if line == "" then Skip
      else if SectionHeader(line).Some? then Stop
      else Keep(line)
  }

  function Kinds(lines: seq<string>): (ks: seq<LineKind>)
    ensures |ks| == |lines|
  {
    MapSeq(lines, Kind)
  }

  /**
   * The lines gathered from line `i` on, `inSection` telling whether the last
   * header seen opened the ALLM section: outside it every other line is
   * ignored; inside it a stopping line ends the scan.
   */
  function Gather(ks: seq<LineKind>, i: nat, inSection: bool): (r: seq<string>)
    requires i <= |ks|
    decreases |ks| - i
  {
    if i == |ks| then []
    else
      match ks[i]
      case Header(name) => Gather(ks, i + 1, OpensAllm(name))
      case Skip => Gather(ks, i + 1, inSection)
      case Stop => if inSection then [] else Gather(ks, i + 1, false)
      case Keep(t) => if inSection then [t] + Gather(ks, i + 1, true) else Gather(ks, i + 1, false)
  }

  /** One line of `Gather`, case by case. */
  lemma GatherStep(ks: seq<LineKind>, i: nat, inSection: bool)
    requires i < |ks|
    ensures ks[i].Header? ==> Gather(ks, i, inSection) == Gather(ks, i + 1, OpensAllm(ks[i].name))
    ensures ks[i].Skip? ==> Gather(ks, i, inSection) == Gather(ks, i + 1, inSection)
    ensures ks[i].Stop? ==> Gather(ks, i, inSection) == if inSection then [] else Gather(ks, i + 1, false)
    ensures ks[i].Keep? && inSection ==> Gather(ks, i, inSection) == [ks[i].text] + Gather(ks, i + 1, true)
    ensures ks[i].Keep? && !inSection ==> Gather(ks, i, inSection) == Gather(ks, i + 1, false)
  {
  }

  /** `_extract_allm_section_lines` on the file's lines. */
  function AllmLines(lines: seq<string>): seq<string>
  {
    Gather(Kinds(lines), 0, false)
  }

  /**
   * The loop of `_extract_allm_section_lines` over the lines as `kind` sees
   * them: a header sets whether the scan is inside the section, and inside it
   * a stopping line breaks the loop and a kept line is appended.
   */
  method ScanSection(lines: seq<string>, kind: string -> LineKind) returns (result: seq<string>)
    ensures result == Gather(MapSeq(lines, kind), 0, false)
  {
    ghost var ks := MapSeq(lines, kind);
    var inSection := false;
    result := [];
    var i := 0;
    while i < |lines|
      invariant 0 <= i <= |lines|
      invariant result + Gather(ks, i, inSection) == Gather(ks, 0, false)
    {
      assert ks[i] == kind(lines[i]);
      GatherStep(ks, i, inSection);
      match kind(lines[i]) {
        case Header(name) =>
          inSection := OpensAllm(name);
        case Skip =>
        case Stop =>
          if inSection {
            assert result + [] == result;
            break;
          }
        case Keep(line) =>
          if inSection {
            AppendAssoc(result, [line], Gather(ks, i + 1, true));
            result := result + [line];
          }
      }
      i := i + 1;
    }
  }

  /** `_extract_allm_section_lines`, with `Kind` the tests its loop body makes on a line. */
  method ExtractAllmSectionLines(lines: seq<string>) returns (result: seq<string>)
    ensures result == AllmLines(lines)
  {
    result := ScanSection(lines, Kind);
  }

  /** Whether the last header among `pre` opened the ALLM section. */
  function InAllm(pre: seq<LineKind>): bool
    decreases |pre|
  {
    if |pre| == 0 then false
    else if pre[|pre| - 1].Header? then OpensAllm(pre[|pre| - 1].name)
    else InAllm(pre[..|pre| - 1])
  }

  /** One more line: a header decides afresh, any other line keeps the section. */
  lemma InAllmSnoc(ks: seq<LineKind>, i: nat)
    requires i < |ks|
    ensures InAllm(ks[..i + 1]) == if ks[i].Header? then OpensAllm(ks[i].name) else InAllm(ks[..i])
  {
    assert ks[..i + 1][..i] == ks[..i];
    assert ks[..i + 1][i] == ks[i];
  }

  /** A kept line inside an ALLM section. */
  predicate KeptAt(ks: seq<LineKind>, j: nat)
    requires j < |ks|
  {
    InAllm(ks[..j]) && ks[j].Keep?
  }

  /** Every gathered line is the text of a kept line inside an ALLM section. */
  lemma {:induction false} GatherInside(ks: seq<LineKind>, i: nat)
    requires i <= |ks|
    ensures forall x :: x in Gather(ks, i, InAllm(ks[..i])) ==> exists j :: i <= j < |ks| && KeptAt(ks, j) && ks[j].text == x
    decreases |ks| - i
  {
    if i < |ks| {
      InAllmSnoc(ks, i);
      GatherInside(ks, i + 1);
    }
  }

  /**
   * `_extract_allm_section_lines` keeps only lines that `Kind` keeps (their
   * comment-stripped, non-empty form) and that lie inside an ALLM section.
   */
  lemma AllmLinesInside(lines: seq<string>)
    ensures forall x :: x in AllmLines(lines) ==> exists j :: 0 <= j < |lines| && KeptAt(Kinds(lines), j) && Kinds(lines)[j] == Keep(x)
  {
    var ks := Kinds(lines);
    assert ks[..0] == [];
    assert !InAllm(ks[..0]);
    GatherInside(ks, 0);
    forall x | x in AllmLines(lines)
      ensures exists j :: 0 <= j < |lines| && KeptAt(ks, j) && ks[j] == Keep(x)
    {
      var j :| 0 <= j < |ks| && KeptAt(ks, j) && ks[j].text == x;
      assert ks[j] == Keep(x);
    }
  }

  /** The texts of the kept lines inside ALLM sections from line `i` on. */
  function KeptFrom(ks: seq<LineKind>, i: nat): seq<string>
    requires i <= |ks|
    decreases |ks| - i
  {
    if i == |ks| then []
    else if KeptAt(ks, i) then [ks[i].text] + KeptFrom(ks, i + 1)
    else KeptFrom(ks, i + 1)
  }

  /** Without a stopping line inside a section, the scan gathers exactly the kept lines, in order. */
  lemma {:induction false} GatherAll(ks: seq<LineKind>, i: nat)
    requires i <= |ks|
    requires forall j :: i <= j < |ks| && ks[j] == Stop ==> !InAllm(ks[..j])
    ensures Gather(ks, i, InAllm(ks[..i])) == KeptFrom(ks, i)
    decreases |ks| - i
  {
    if i < |ks| {
      InAllmSnoc(ks, i);
      GatherAll(ks, i + 1);
    }
  }

  /** The whole file, when no stopping line lies inside an ALLM section. */
  lemma AllmLinesExact(lines: seq<string>)
    requires forall j :: 0 <= j < |lines| && Kinds(lines)[j] == Stop ==> !InAllm(Kinds(lines)[..j])
    ensures AllmLines(lines) == KeptFrom(Kinds(lines), 0)
  {
    var ks := Kinds(lines);
    assert ks[..0] == [];
    assert !InAllm(ks[..0]);
    GatherAll(ks, 0);
  }

  /** A stopping line inside an ALLM section ends the scan: nothing after it is gathered. */
  lemma GatherStops(ks: seq<LineKind>, i: nat)
    requires i < |ks| && ks[i] == Stop && InAllm(ks[..i])
    ensures Gather(ks, i, InAllm(ks[..i])) == []
  {
  }

  // ---------------------------------------------------------------- ENABLE pairs

  /** `key, value = pair.split('=')`: only an item with exactly one '=' unpacks. */
  function SplitEq(item: string): (kv: Option<(string, string)>)
    ensures kv.Some? ==> '=' !in kv.value.0 && '=' !in kv.value.1 && item == kv.value.0 + "=" + kv.value.1
  {
    var k := CharIndex(item, '=');
    if k < |item| && '=' !in item[k + 1..] then
      assert item == item[..k] + "=" + item[k + 1..];
      Some((item[..k], item[k + 1..]))
    else None
  }

  /** Every item with exactly one '=' unpacks into its two sides. */
  lemma SplitEqInverse(key: string, value: string)
    requires '=' !in key && '=' !in value
    ensures SplitEq(key + "=" + value) == Some((key, value))
  {
    var item := key + "=" + value;
    assert item[|key|] == '=';
    assert item[..|key|] == key && item[|key| + 1..] == value;
    CharIndexAt(item, '=', |key|);
  }

  /** An item with no '=' or with two does not unpack. */
  lemma SplitEqCount(item: string)
    ensures SplitEq(item).Some? <==> exists k :: 0 <= k < |item| && item[k] == '=' && '=' !in item[..k] && '=' !in item[k + 1..]
  {
    if exists k :: 0 <= k < |item| && item[k] == '=' && '=' !in item[..k] && '=' !in item[k + 1..] {
      var k :| 0 <= k < |item| && item[k] == '=' && '=' !in item[..k] && '=' !in item[k + 1..];
      CharIndexAt(item, '=', k);
    }
  }

  /** The comma-separated items of one section line. */
  function CommaItems(line: string): seq<string>
  {
    Split(line, ',')
  }

  /** All items of the section, line by line. */
  function Items(lines: seq<string>): seq<string>
  {
    Concat(lines, CommaItems)
  }

  /** The pairs unpacked so far, or the item whose unpacking raised `ValueError`. */
  datatype Pairing = Pairs(pairs: seq<(string, string)>) | BadItem(item: string)

  /** One step of the nested loop: a raised error stays raised. */
  function Step(p: Pairing, item: string): Pairing
  {
    match p
    case BadItem(_) => p
    case Pairs(ps) =>
      match SplitEq(item)
      case None => BadItem(item)
      case Some(kv) => Pairs(ps + [kv])
  }

  function Fold(p: Pairing, items: seq<string>): Pairing
    decreases |items|
  {
    if |items| == 0 then p else Step(Fold(p, items[..|items| - 1]), items[|items| - 1])
  }

  lemma {:induction false} FoldAppend(p: Pairing, xs: seq<string>, ys: seq<string>)
    ensures Fold(p, xs + ys) == Fold(Fold(p, xs), ys)
    decreases |ys|
  {
    if |ys| == 0 {
      assert xs + ys == xs;
    } else {
      var n := |ys| - 1;
      FoldAppend(p, xs, ys[..n]);
      assert (xs + ys)[..|xs + ys| - 1] == xs + ys[..n];
    }
  }

  /**
   * Unpacking a run of items: every item unpacks, and the pairs are theirs in
   * order; or else the result is the first item that does not.
   */
  lemma FoldExact(items: seq<string>)
    ensures Fold(Pairs([]), items).Pairs? <==> forall k :: 0 <= k < |items| ==> SplitEq(items[k]).Some?
    ensures Fold(Pairs([]), items).Pairs? ==>
      var ps := Fold(Pairs([]), items).pairs;
      |ps| == |items| && forall k :: 0 <= k < |items| ==> SplitEq(items[k]) == Some(ps[k])
    ensures Fold(Pairs([]), items).BadItem? ==>
      exists k :: 0 <= k < |items| && items[k] == Fold(Pairs([]), items).item && SplitEq(items[k]).None? &&
        forall j :: 0 <= j < k ==> SplitEq(items[j]).Some?
  {
    FoldPairsExact(items);
    FoldBadFirst(items);
  }

  /** The fold keeps pairs exactly while every item unpacks, one pair per item. */
  lemma {:induction false} FoldPairsExact(items: seq<string>)
    ensures Fold(Pairs([]), items).Pairs? <==> forall k :: 0 <= k < |items| ==> SplitEq(items[k]).Some?
    ensures Fold(Pairs([]), items).Pairs? ==>
      var ps := Fold(Pairs([]), items).pairs;
      |ps| == |items| && forall k :: 0 <= k < |items| ==> SplitEq(items[k]) == Some(ps[k])
    decreases |items|
  {
    if |items| > 0 {
      var n := |items| - 1;
      var init := items[..n];
      FoldPairsExact(init);
      assert forall k :: 0 <= k < n ==> init[k] == items[k];
    }
  }

  /** A failed fold names the first item that does not unpack. */
  lemma {:induction false} FoldBadFirst(items: seq<string>)
    ensures Fold(Pairs([]), items).BadItem? ==>
      exists k :: 0 <= k < |items| && items[k] == Fold(Pairs([]), items).item && SplitEq(items[k]).None? &&
        forall j :: 0 <= j < k ==> SplitEq(items[j]).Some?
    decreases |items|
  {
    if |items| > 0 {
      var n := |items| - 1;
      var init := items[..n];
      FoldBadFirst(init);
      FoldPairsExact(init);
      assert forall k :: 0 <= k < n ==> init[k] == items[k];
      if Fold(Pairs([]), init).Pairs? && Fold(Pairs([]), items).BadItem? {
        assert items[n] == Fold(Pairs([]), items).item && SplitEq(items[n]).None?;
      }
    }
  }


  /** The nested loop over one line's items. */
  method SplitLine(p: Pairing, line: string) returns (q: Pairing)
    ensures q == Fold(p, CommaItems(line))
  {
    var items := Split(line, ',');
    q := p;
    var j := 0;
    while j < |items|
      invariant 0 <= j <= |items|
      invariant q == Fold(p, items[..j])
    {
      assert items[..j + 1][..j] == items[..j];
      match SplitEq(items[j]) {
        case None =>
          if q.Pairs? {
            q := BadItem(items[j]);
          }
        case Some(kv) =>
          if q.Pairs? {
            q := Pairs(q.pairs + [kv]);
          }
      }
      j := j + 1;
    }
    assert items[..|items|] == items;
  }

  /** `for line in lines: for pair in line.split(','): key, value = pair.split('=')`. */
  method SplitPairs(lines: seq<string>) returns (p: Pairing)
    ensures p == Fold(Pairs([]), Items(lines))
  {
    p := Pairs([]);
    var i := 0;
    while i < |lines|
      invariant 0 <= i <= |lines|
      invariant p == Fold(Pairs([]), Items(lines[..i]))
    {
      ConcatSnoc(lines, i, CommaItems);
      FoldAppend(Pairs([]), Items(lines[..i]), CommaItems(lines[i]));
      p := SplitLine(p, lines[i]);
      i := i + 1;
    }
    assert lines[..|lines|] == lines;
  }

  /** Every line gives at least one item, so a non-empty section never yields an empty pair list. */
  lemma {:induction false} ItemsNonEmpty(lines: seq<string>)
    requires lines != []
    ensures |Items(lines)| >= |lines|
    decreases |lines|
  {
    var n := |lines| - 1;
    if n > 0 {
      ItemsNonEmpty(lines[..n]);
    }
  }

  /** `f"{key}={val}"` of an ENABLE pair whose value is not "1": key and value as written, not trimmed. */
  predicate IsOffending(kv: (string, string))
  {
    kv.1 != "1" && Lower(kv.0) == EnableKey
  }

  function OffendingItem(kv: (string, string)): Option<string>
  {
    if IsOffending(kv) then Some(kv.0 + "=" + kv.1) else None
  }

  function Offending(ps: seq<(string, string)>): seq<string>
  {
    Collect(ps, OffendingItem)
  }

  /**
   * The offending list names exactly the pairs whose key lowercases to
   * "enable" and whose value is not "1"; it is empty iff no pair is such.
   */
  lemma OffendingExact(ps: seq<(string, string)>)
    ensures forall x :: x in Offending(ps) <==> exists k :: 0 <= k < |ps| && IsOffending(ps[k]) && x == ps[k].0 + "=" + ps[k].1
    ensures Offending(ps) == [] <==> forall k :: 0 <= k < |ps| ==> !IsOffending(ps[k])
  {
    CollectExact(ps, OffendingItem);
    if Offending(ps) != [] {
      assert Offending(ps)[0] in Offending(ps);
    }
  }

  /**
   * The left side is compared as written: `ENABLE = 0` unpacks to the key
   * "ENABLE " (trailing blank), which is not an ENABLE key, so it is not offending.
   */
  lemma TrailingBlankKeyIgnored(k: string, v: string)
    ensures !IsOffending((k + " ", v))
  {
    var key := k + " ";
    assert Lower(key)[|k|] == LowerChar(' ');
    assert EnableKey[|EnableKey| - 1] == 'e';
  }

  /** Since every section line gives an item, the source's "no ENABLE pairs" case cannot arise. */
  lemma PairsNonEmpty(section: seq<string>)
    requires section != [] && Fold(Pairs([]), Items(section)).Pairs?
    ensures Fold(Pairs([]), Items(section)).pairs != []
  {
    ItemsNonEmpty(section);
    FoldExact(Items(section));
  }

  /** A section of one line `key=value` unpacks to that single pair. */
  lemma SingleItemSection(key: string, value: string)
    requires '=' !in key && '=' !in value && ',' !in key && ',' !in value
    ensures Fold(Pairs([]), Items([key + "=" + value])) == Pairs([(key, value)])
  {
    var line := key + "=" + value;
    assert ',' !in line;
    assert Items([line]) == Concat([line][..0], CommaItems) + CommaItems(line);
    assert CommaItems(line) == [line];
    SplitEqInverse(key, value);
    assert [line][..0] == [] && Fold(Pairs([]), [line][..0]) == Pairs([]);
  }

  /** A key that lower-cases to "enable" is its own strip, and ENABLE-like. */
  lemma EnableKeyIsLike(key: string)
    requires Lower(key) == EnableKey
    ensures Strip(key) == key && EnableLike(key)
  {
    assert forall i :: 0 <= i < |key| ==> LowerChar(key[i]) == EnableKey[i];
    assert key[0] !in Whitespace && key[|key| - 1] !in Whitespace;
    StripSetFixed(key, Whitespace);
    assert key[|key| - |EnableKey|..] == key;
  }

  /**
   * The test as written misses what the docstring calls an ENABLE-like key:
   * a section `HDMI1_ENABLE=0`, or any ENABLE-like key other than ENABLE
   * itself set to anything but 1, unpacks, offends nothing, and so passes.
   */
  lemma PrefixedEnableZeroPasses(key: string, value: string)
    requires '=' !in key && '=' !in value && ',' !in key && ',' !in value
    requires Lower(key) != EnableKey && EnableLike(Strip(key)) && Strip(value) != "1"
    ensures var p := Fold(Pairs([]), Items([key + "=" + value]));
      p == Pairs([(key, value)]) && Offending(p.pairs) == [] &&
      IsOffendingIntended(TrimmedPairs(p.pairs)[0])
  {
    SingleItemSection(key, value);
    OffendingExact([(key, value)]);
  }

  /**
   * The test as written does not ask for an ENABLE key at all: a section
   * `FOO=1`, or any single pair whose key is not ENABLE-like, passes.
   */
  lemma NoEnableKeyPasses(key: string, value: string)
    requires '=' !in key && '=' !in value && ',' !in key && ',' !in value
    requires !EnableLike(Strip(key))
    ensures var p := Fold(Pairs([]), Items([key + "=" + value]));
      p == Pairs([(key, value)]) && Offending(p.pairs) == [] && !HasEnableLike(TrimmedPairs(p.pairs))
  {
    SingleItemSection(key, value);
    OffendingExact([(key, value)]);
    if Lower(key) == EnableKey {
      EnableKeyIsLike(key);
    }
  }

  // ---------------------------------------------------------------- ENABLE test as documented

  const NoEnableNote: string := "[ALLM] 區塊內沒有找到任何 ENABLE 相關設定"

  /** The pairs as the documented test reads them: key and value trimmed. */
  function TrimmedPairs(ps: seq<(string, string)>): (ts: seq<(string, string)>)
    ensures |ts| == |ps| && forall k :: 0 <= k < |ps| ==> ts[k] == (Strip(ps[k].0), Strip(ps[k].1))
  {
    seq(|ps|, k requires 0 <= k < |ps| => (Strip(ps[k].0), Strip(ps[k].1)))
  }

  /**
   * An ENABLE-like key as the docstring of `check_tvdefault_allm_enable`
   * names them (ENABLE, HDMI1_ENABLE, ...): it ends in "enable", in any case.
   */
  predicate EnableLike(key: string)
  {
    |key| >= |EnableKey| && EqualsIgnoreCase(key[|key| - |EnableKey|..], EnableKey)
  }

  /** An ENABLE-like key whose value is not 1. */
  predicate IsOffendingIntended(kv: (string, string))
  {
    EnableLike(kv.0) && kv.1 != "1"
  }

  function OffendingIntendedItem(kv: (string, string)): Option<string>
  {
    if IsOffendingIntended(kv) then Some(kv.0 + "=" + kv.1) else None
  }

  /** The pairs hold an ENABLE-like key. */
  predicate HasEnableLike(ts: seq<(string, string)>)
  {
    exists k :: 0 <= k < |ts| && EnableLike(ts[k].0)
  }

  /** Every ENABLE-like key of the pairs has the value 1. */
  predicate AllEnableOne(ts: seq<(string, string)>)
  {
    forall k :: 0 <= k < |ts| && EnableLike(ts[k].0) ==> ts[k].1 == "1"
  }

  /**
   * The documented offending list names exactly the ENABLE-like keys whose
   * value is not 1; it is empty iff every ENABLE-like key is 1.
   */
  lemma OffendingIntendedExact(ts: seq<(string, string)>)
    ensures forall x :: x in Collect(ts, OffendingIntendedItem) <==>
      exists k :: 0 <= k < |ts| && IsOffendingIntended(ts[k]) && x == ts[k].0 + "=" + ts[k].1
    ensures Collect(ts, OffendingIntendedItem) == [] <==> AllEnableOne(ts)
  {
    CollectExact(ts, OffendingIntendedItem);
    if Collect(ts, OffendingIntendedItem) != [] {
      assert Collect(ts, OffendingIntendedItem)[0] in Collect(ts, OffendingIntendedItem);
    }
  }

  lemma HasEnableLikeSnoc(ts: seq<(string, string)>, i: nat)
    requires i < |ts|
    ensures HasEnableLike(ts[..i + 1]) <==> HasEnableLike(ts[..i]) || EnableLike(ts[i].0)
  {
    assert ts[..i + 1][i] == ts[i];
    assert forall k :: 0 <= k < i ==> ts[..i + 1][k] == ts[..i][k];
  }

  /** The documented judgement of the trimmed pairs, by one loop over them. */
  method JudgeIntended(path: string, ts: seq<(string, string)>) returns (r: Outcome)
    ensures r.Report? && r.path == path && (r.passed <==> r.notes == []) && |r.notes| <= 1
    ensures r.passed <==> HasEnableLike(ts) && AllEnableOne(ts)
    ensures HasEnableLike(ts) ==> r.offending == Collect(ts, OffendingIntendedItem)
    ensures !HasEnableLike(ts) ==> r == Report(false, path, [], [NoEnableNote])
  {
    var offending: seq<string> := [];
    var found := false;
    var i := 0;
    while i < |ts|
      invariant 0 <= i <= |ts|
      invariant found <==> HasEnableLike(ts[..i])
      invariant offending == Collect(ts[..i], OffendingIntendedItem)
    {
      var (key, value) := ts[i];
      CollectSnoc(ts, i, OffendingIntendedItem);
      HasEnableLikeSnoc(ts, i);
      if EnableLike(key) {
        found := true;
        if value != "1" {
          offending := offending + [key + "=" + value];
        }
      }
      i := i + 1;
    }
    assert ts[..|ts|] == ts;
    OffendingIntendedExact(ts);
    if !found {
      r := Report(false, path, [], [NoEnableNote]);
    } else if offending == [] {
      r := Report(true, path, [], []);
    } else {
      r := Report(false, path, offending, [NotOneNote]);
    }
  }

  /**
   * The ENABLE test as documented: a bad item still raises; otherwise PASS
   * exactly when the section holds an ENABLE-like key and every ENABLE-like
   * key is 1, keys and values read trimmed; the offending list names the others.
   */
  method CheckSectionIntended(path: string, section: seq<string>) returns (r: Outcome)
    ensures Fold(Pairs([]), Items(section)).BadItem? ==> r == SplitFailure(Fold(Pairs([]), Items(section)).item)
    ensures Fold(Pairs([]), Items(section)).Pairs? ==>
      var ts := TrimmedPairs(Fold(Pairs([]), Items(section)).pairs);
      r.Report? && r.path == path && (r.passed <==> r.notes == []) && |r.notes| <= 1 &&
      (r.passed <==> HasEnableLike(ts) && AllEnableOne(ts)) &&
      (HasEnableLike(ts) ==> r.offending == Collect(ts, OffendingIntendedItem)) &&
      (!HasEnableLike(ts) ==> r == Report(false, path, [], [NoEnableNote]))
  {
    var p := SplitPairs(section);
    match p {
      case BadItem(item) => r := SplitFailure(item);
      case Pairs(ps) => r := JudgeIntended(path, TrimmedPairs(ps));
    }
  }

  // ---------------------------------------------------------------- TvDefaultSettingsPath

  const UndeclaredNote: string := "model.ini 未宣告 TvDefaultSettingsPath"
  const MissingFileNote: string := "找不到 TvDefaultSettingsPath 檔案: "
  const NoSectionNote: string := "找不到 [ALLM] 區塊或是區塊內沒有有效內容"
  const NotOneNote: string := "存在非 1 的 ENABLE 設定"

  /** The dictionary `check_tvdefault_allm_enable` returns, or the item whose unpacking raised `ValueError`. */
  datatype Outcome =
    | Report(passed: bool, path: string, offending: seq<string>, notes: seq<string>)
    | SplitFailure(item: string)

  /** The ENABLE test on the lines of the [ALLM] sections, once there are any. */
  method CheckSection(path: string, section: seq<string>) returns (r: Outcome)
    requires section != []
    ensures Fold(Pairs([]), Items(section)).BadItem? ==> r == SplitFailure(Fold(Pairs([]), Items(section)).item)
    ensures Fold(Pairs([]), Items(section)).Pairs? ==>
      var off := Offending(Fold(Pairs([]), Items(section)).pairs);
      r == Report(off == [], path, off, Unless(off == [], NotOneNote))
  {
    var p := SplitPairs(section);
    match p {
      case BadItem(item) => r := SplitFailure(item);
      case Pairs(ps) =>
        var offending := Offending(ps);
        var notes: seq<string> := [];
        var passed := |offending| == 0;
        if !passed {
          notes := notes + [NotOneNote];
        }
        r := Report(passed, path, offending, notes);
    }
  }

  /**
   * `check_tvdefault_allm_enable` on model.ini's lines: a declared path, an
   * existing file and a non-empty [ALLM] section are each required before the
   * ENABLE pairs are judged.
   */
  method CheckTvDefaultAllmEnable(fs: FileSystem, modelLines: seq<string>, root: string) returns (r: Outcome)
    ensures r.Report? ==> (r.passed <==> r.notes == [])
    ensures FindKv(modelLines, PathKey) in {None, Some("")} ==> r == Report(false, "", [], [UndeclaredNote])
    ensures FindKv(modelLines, PathKey) !in {None, Some("")} ==>
      var path := Resolvers.MapToRoot(FindKv(modelLines, PathKey).value, root);
      (!Exists(fs, path) ==> r == Report(false, path, [], [MissingFileNote + path])) &&
      (Exists(fs, path) && AllmLines(ReadLines(fs, path).value) == [] ==> r == Report(false, path, [], [NoSectionNote])) &&
      (Exists(fs, path) && AllmLines(ReadLines(fs, path).value) != [] ==>
        var p := Fold(Pairs([]), Items(AllmLines(ReadLines(fs, path).value)));
        (p.BadItem? ==> r == SplitFailure(p.item)) &&
        (p.Pairs? ==> r.Report? && r.path == path && r.offending == Offending(p.pairs) && (r.passed <==> Offending(p.pairs) == [])))
  {
    var rel := FindKv(modelLines, PathKey);
    if rel.None? || rel.value == "" {
      return Report(false, "", [], [UndeclaredNote]);
    }
    var actual := Resolvers.MapToRoot(rel.value, root);
    var text := ReadLines(fs, actual);
    if text.None? {
      return Report(false, actual, [], [MissingFileNote + actual]);
    }
    var lines := ExtractAllmSectionLines(text.value);
    if lines == [] {
      return Report(false, actual, [], [NoSectionNote]);
    }
    r := CheckSection(actual, lines);
  }
}
