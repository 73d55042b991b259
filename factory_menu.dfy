/**
 * check_factory_menu_params.py: the three RtkFacktoryMenu* parameters of a
 * model.ini, each accepted in the misspelled "Facktory" form and in the
 * "Factory" form, and the PASS/FAIL row built from them.
 */
module FactoryMenu {
  import opened Wrappers
  import opened Text
  import opened Files
  import opened Ini

  /** A parameter's two key spellings, in the order they are tried. */
  type Spellings = (string, string)

  /** The `patterns` dict: combo_key, package, activity, each "Facktory" first. */
  const Patterns: seq<Spellings> := [
    ("RtkFacktoryMenuComboKey", "RtkFactoryMenuComboKey"),
    ("RtkFacktoryMenuPackage", "RtkFactoryMenuPackage"),
    ("RtkFacktoryMenuActivity", "RtkFactoryMenuActivity")
  ]

  /**
   * What one raw line gives for a parameter: the group of the first of its
   * two patterns that matches the comment-stripped line, case-blind, stripped.
   */
  function EitherValue(raw: string, sp: Spellings): (v: Option<string>)
    ensures v.Some? ==> '"' !in v.value && '#' !in v.value && ';' !in v.value
    ensures v.Some? <==> LineValue(raw, sp.0, true).Some? || LineValue(raw, sp.1, true).Some?
    ensures LineValue(raw, sp.0, true).Some? ==> v == LineValue(raw, sp.0, true)
  {
    var a := LineValue(raw, sp.0, true);
    if a.Some? then a else LineValue(raw, sp.1, true)
  }

  /** The value the parse settles on for a parameter: the first line that gives one. */
  function Found(lines: seq<string>, sp: Spellings): (r: Option<string>)
    ensures r.Some? <==> exists i :: 0 <= i < |lines| && EitherValue(lines[i], sp).Some?
    ensures r.Some? ==> '"' !in r.value && '#' !in r.value && ';' !in r.value
  {
    var r := First(lines, l => EitherValue(l, sp));
    assert r.Some? ==> exists i :: 0 <= i < |lines| && EitherValue(lines[i], sp) == r;
    r
  }

  /** The inner `for p in p_list` on a comment-stripped, non-empty line. */
  function MatchEither(line: string, sp: Spellings): Option<string>
  {
    var a := KeyValue(line, sp.0, true);
    if a.Some? then a else KeyValue(line, sp.1, true)
  }

  /**
   * The loop of `parse_factory_menu_keys`: one pass over the lines, skipping
   * those that are empty once comments are cut, and filling each parameter
   * at the first line that matches either of its patterns; a filled
   * parameter is never looked at again.
   */
  method ParseKeys(lines: seq<string>, patterns: seq<Spellings>) returns (results: seq<Option<string>>)
    ensures results == FoundAll(lines, patterns)
  {
    results := seq(|patterns|, _ => None);
    var i := 0;
    while i < |lines|
      invariant 0 <= i <= |lines|
      invariant results == FoundAll(lines[..i], patterns)
    {
      var line := StripComment(lines[i]);
      ghost var before := results;
      if line != "" {
        results := ScanLine(line, patterns, results);
      }
      LineStep(lines, i, patterns, before, results);
      i := i + 1;
    }
    assert lines[..|lines|] == lines;
  }

  /**
   * The inner `for key, p_list in patterns.items()` on one non-empty,
   * comment-stripped line: each parameter not yet found takes what its
   * patterns make of the line.
   */
  method ScanLine(line: string, patterns: seq<Spellings>, results: seq<Option<string>>) returns (out: seq<Option<string>>)
    requires line != "" && |results| == |patterns|
    ensures |out| == |patterns|
    ensures forall k :: 0 <= k < |patterns| ==>
      out[k] == if results[k].None? then MatchEither(line, patterns[k]) else results[k]
  {
    out := results;
    var j := 0;
    while j < |patterns|
      invariant 0 <= j <= |patterns| && |out| == |patterns|
      invariant forall k :: 0 <= k < j ==> out[k] == if results[k].None? then MatchEither(line, patterns[k]) else results[k]
      invariant forall k :: j <= k < |patterns| ==> out[k] == results[k]
    {
      if out[j].None? {
        out := out[j := MatchEither(line, patterns[j])];
      }
      j := j + 1;
    }
  }

  /** What the parse settles on for each of `patterns`. */
  function FoundAll(lines: seq<string>, patterns: seq<Spellings>): (r: seq<Option<string>>)
    ensures |r| == |patterns| && forall k :: 0 <= k < |patterns| ==> r[k] == Found(lines, patterns[k])
  {
    seq(|patterns|, k requires 0 <= k < |patterns| => Found(lines, patterns[k]))
  }

  /** One line of the outer loop takes the values found so far to those found one line later. */
  lemma LineStep(lines: seq<string>, i: nat, patterns: seq<Spellings>, before: seq<Option<string>>, after: seq<Option<string>>)
    requires i < |lines| && before == FoundAll(lines[..i], patterns)
    requires StripComment(lines[i]) == "" ==> after == before
    requires StripComment(lines[i]) != "" ==> (|after| == |patterns| &&
      forall k :: 0 <= k < |patterns| ==> after[k] == if before[k].None? then MatchEither(StripComment(lines[i]), patterns[k]) else before[k])
    ensures after == FoundAll(lines[..i + 1], patterns)
  {
    forall k | 0 <= k < |patterns|
      ensures after[k] == Found(lines[..i + 1], patterns[k])
    {
      FoundStep(lines, i, patterns[k]);
    }
  }

  /** One more line: the value found so far, or else what the inner loop makes of the new line. */
  lemma FoundStep(lines: seq<string>, i: nat, sp: Spellings)
    requires i < |lines|
    ensures Found(lines[..i], sp).Some? ==> Found(lines[..i + 1], sp) == Found(lines[..i], sp)
    ensures StripComment(lines[i]) == "" ==> Found(lines[..i + 1], sp) == Found(lines[..i], sp)
    ensures Found(lines[..i], sp).None? && StripComment(lines[i]) != "" ==>
      Found(lines[..i + 1], sp) == MatchEither(StripComment(lines[i]), sp)
  {
    FoundSnoc(lines, i, sp);
    MatchEitherLine(lines[i], sp);
  }

  lemma FoundSnoc(lines: seq<string>, i: nat, sp: Spellings)
    requires i < |lines|
    ensures Found(lines[..i + 1], sp) == if Found(lines[..i], sp).Some? then Found(lines[..i], sp) else EitherValue(lines[i], sp)
  {
    FirstSnoc(lines, i, l => EitherValue(l, sp));
  }

  /** Matching the comment-stripped line is reading the raw line; a line with nothing left gives nothing. */
  lemma MatchEitherLine(raw: string, sp: Spellings)
    ensures StripComment(raw) == "" ==> EitherValue(raw, sp).None?
    ensures StripComment(raw) != "" ==> EitherValue(raw, sp) == MatchEither(StripComment(raw), sp)
  {
  }

  /** `parse_factory_menu_keys` on the file's lines: combo key, package and activity, in that order. */
  method ParseFactoryMenuKeys(lines: seq<string>) returns (keys: seq<Option<string>>)
    ensures |keys| == 3
    ensures forall k :: 0 <= k < 3 ==> keys[k] == Found(lines, Patterns[k])
  {
    keys := ParseKeys(lines, Patterns);
  }

  /** The report row of `build_result`, without the Excel formatting. */
  datatype Report = Report(passed: bool, modelIni: string, comboKey: string, package: string, activity: string)
  {
    /** The k-th value column: combo key, package, activity. */
    function Value(k: nat): string
    {
      if k == 0 then comboKey else if k == 1 then package else activity
    }
  }


  /**
   * `build_result`: PASS iff every parameter was found with a non-empty
   * value; a missing value is reported as "".
   */
  function BuildResult(modelIni: string, keys: seq<Option<string>>): (r: Report)
    requires |keys| == 3
    ensures r.passed <==> forall k :: 0 <= k < 3 ==> keys[k].Some? && keys[k].value != ""
    ensures forall k :: 0 <= k < 3 ==> r.Value(k) == OrEmpty(keys[k])
    ensures r.passed <==> r.comboKey != "" && r.package != "" && r.activity != ""
    ensures r.modelIni == modelIni
  {
    var passed := forall k :: 0 <= k < 3 ==> keys[k].Some? && keys[k].value != "";
    assert passed <==> OrEmpty(keys[0]) != "" && OrEmpty(keys[1]) != "" && OrEmpty(keys[2]) != "" by {
      if !passed {
        var k :| 0 <= k < 3 && !(keys[k].Some? && keys[k].value != "");
        assert k == 0 || k == 1 || k == 2;
      }
    }
    Report(passed, modelIni, OrEmpty(keys[0]), OrEmpty(keys[1]), OrEmpty(keys[2]))
  }

  /**
   * `main` without the command line: an absent model.ini stops the run;
   * otherwise its lines are parsed and the row built.
   */
  method CheckFactoryMenu(fs: FileSystem, modelIni: string) returns (r: Option<Report>)
    ensures r.None? <==> !Exists(fs, modelIni)
    ensures r.Some? ==> (r.value.passed <==>
      forall k :: 0 <= k < 3 ==>
        Found(ReadLines(fs, modelIni).value, Patterns[k]).Some? && Found(ReadLines(fs, modelIni).value, Patterns[k]).value != "")
  {
    var lines := ReadLines(fs, modelIni);
    if lines.None? {
      return None;
    }
    var keys := ParseFactoryMenuKeys(lines.value);
    r := Some(BuildResult(modelIni, keys));
  }

  // ---------------------------------------------------------------- properties

  /** A later line never replaces a value already found, whichever spelling it uses. */
  lemma FirstDeclarationWins(lines: seq<string>, i: nat, sp: Spellings)
    requires i < |lines| && EitherValue(lines[i], sp).Some?
    requires forall j :: 0 <= j < i ==> EitherValue(lines[j], sp).None?
    ensures Found(lines, sp) == EitherValue(lines[i], sp)
  {
    FirstAt(lines, i, l => EitherValue(l, sp));
  }

  /** A key spelling that starts with a non-blank and holds no comment character. */
  predicate Plain(key: string)
  {
    key != "" && !IsSpace(key[0]) && '#' !in key && ';' !in key
  }

  /** Two plain spellings of one parameter that part case-blind at their seventh letter. */
  predicate Distinct(sp: Spellings)
  {
    Plain(sp.0) && Plain(sp.1) && |sp.1| > 6 && |sp.0| > 6 && LowerChar(sp.0[6]) != LowerChar(sp.1[6])
  }

  lemma FacktoryPlain(k: nat)
    requires k < |Patterns|
    ensures Plain(Patterns[k].0)
  {
  }

  lemma FactoryPlain(k: nat)
    requires k < |Patterns|
    ensures Plain(Patterns[k].1)
  {
  }

  /** Each Facktory/Factory pair of the `patterns` dict meets `Distinct`. */
  lemma PatternDistinct(k: nat)
    requires k < |Patterns|
    ensures Distinct(Patterns[k])
  {
    FacktoryPlain(k);
    FactoryPlain(k);
  }

  /** A key spelled like `spelled` up to letter case starts as it does and holds no comment character. */
  lemma CaseVariantPlain(key: string, spelled: string)
    requires EqualsIgnoreCase(key, spelled) && Plain(spelled)
    ensures Plain(key)
  {
    forall i | 0 <= i < |key|
      ensures key[i] != '#' && key[i] != ';' && (i == 0 ==> !IsSpace(key[i]))
    {
      assert LowerChar(key[i]) == LowerChar(spelled[i]);
    }
  }

  /** A line starting with a case variant of one spelling does not match the other's pattern. */
  lemma VariantMissesOther(line: string, key: string, sp: Spellings)
    requires Distinct(sp) && EqualsIgnoreCase(key, sp.1)
    requires |line| > |key| && line[..|key|] == key && !IsSpace(line[0])
    ensures AfterKeyEq(line, sp.0, true).None?
  {
    LStripSetFixed(line, Whitespace);
    assert line[6] == key[6];
    if |line| >= |sp.0| {
      assert LowerChar(line[..|sp.0|][6]) != LowerChar(sp.0[6]);
    }
  }

  /** A comment-free declaration `KEY="v"` with a plain key reads back as `v`, stripped. */
  lemma DeclaredValue(key: string, v: string)
    requires Plain(key)
    requires v != "" && '"' !in v && '#' !in v && ';' !in v
    ensures StripComment(key + "=\"" + v + "\"") == key + "=\"" + v + "\""
    ensures LineValue(key + "=\"" + v + "\"", key, true) == Some(Strip(v))
  {
    assert forall i :: 0 <= i < |key + v| ==> (key + v)[i] != '#' && (key + v)[i] != ';' by {
      assert forall i :: 0 <= i < |key| ==> (key + v)[i] == key[i];
      assert forall i :: |key| <= i < |key + v| ==> (key + v)[i] == v[i - |key|];
    }
    StripCommentQuotedDeclaration(key, v);
    KeyValueQuoted(key, v, true);
  }

  /** A comment-free line `KEY="v"` for either spelling, in any letter case, gives `v` stripped. */
  lemma QuotedDeclarationEitherSpelling(sp: Spellings, key: string, v: string, facktory: bool)
    requires Distinct(sp)
    requires EqualsIgnoreCase(key, if facktory then sp.0 else sp.1)
    requires v != "" && '"' !in v && '#' !in v && ';' !in v
    ensures EitherValue(key + "=\"" + v + "\"", sp) == Some(Strip(v))
  {
    var spelled := if facktory then sp.0 else sp.1;
    var line := key + "=\"" + v + "\"";
    CaseVariantPlain(key, spelled);
    DeclaredValue(key, v);
    LineValueCaseBlind(line, key, spelled);
    if !facktory {
      OtherSpellingMissed(sp, key, v);
    }
  }

  /** The comment-free line `KEY="v"` with a case variant of the second spelling has no value for the first. */
  lemma OtherSpellingMissed(sp: Spellings, key: string, v: string)
    requires Distinct(sp) && EqualsIgnoreCase(key, sp.1)
    requires StripComment(key + "=\"" + v + "\"") == key + "=\"" + v + "\""
    ensures LineValue(key + "=\"" + v + "\"", sp.0, true).None?
  {
    var line := key + "=\"" + v + "\"";
    assert line[..|key|] == key;
    CaseVariantPlain(key, sp.1);
    VariantMissesOther(line, key, sp);
  }

  /**
   * A "Factory" line before a "Facktory" line for the same parameter: the
   * earlier line wins, though the later one uses the spelling tried first.
   */
  lemma EarlierFactoryBeatsLaterFacktory(sp: Spellings, a: string, b: string)
    requires Distinct(sp)
    requires a != "" && '"' !in a && '#' !in a && ';' !in a
    requires b != "" && '"' !in b && '#' !in b && ';' !in b
    ensures Found([sp.1 + "=\"" + a + "\"", sp.0 + "=\"" + b + "\""], sp) == Some(Strip(a))
  {
    var lines := [sp.1 + "=\"" + a + "\"", sp.0 + "=\"" + b + "\""];
    QuotedDeclarationEitherSpelling(sp, sp.1, a, false);
    FirstDeclarationWins(lines, 0, sp);
  }

  /**
   * The same for the three parameters of the `patterns` dict: a line with
   * the "Factory" spelling is not overridden by a later "Facktory" one.
   */
  lemma ModelFactoryBeatsLaterFacktory(k: nat, a: string, b: string)
    requires k < |Patterns|
    requires a != "" && '"' !in a && '#' !in a && ';' !in a
    requires b != "" && '"' !in b && '#' !in b && ';' !in b
    ensures Found([Patterns[k].1 + "=\"" + a + "\"", Patterns[k].0 + "=\"" + b + "\""], Patterns[k]) == Some(Strip(a))
  {
    PatternDistinct(k);
    EarlierFactoryBeatsLaterFacktory(Patterns[k], a, b);
  }
}
