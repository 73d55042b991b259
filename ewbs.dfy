/**
 * check_EWBS.py: the three EWBS flags in model.ini, and the countries of
 * interest the COUNTRY_PATH file mentions.
 */
module Ewbs {
  import opened Wrappers
  import opened Text
  import opened Ini
  import opened Files
  import opened Search
  import opened Verdicts
  import Resolvers

  const EwbsKey: string := "isSupportEWBS"
  const NeverKey: string := "isSupportNeverEnterSTR"
  const SettingKey: string := "isEwbsSettingOn"
  const CountryKey: string := "COUNTRY_PATH"

  /** COUNTRIES_TO_PRINT, in the order they are reported. */
  const Countries: seq<string> :=
    ["Botswana", "Ecuador", "Maldives", "Philippines", "Japan", "Peru", "Venezuela", "Costa Rica"]

  const EwbsNotTrue: string := "isSupportEWBS != true"
  const NeverNotSet: string := "isSupportNeverEnterSTR not set"
  const SettingNotSet: string := "isEwbsSettingOn not set"
  /** The catch-all reason ("required field missing, maybe undeclared or malformed"). */
  const Fallback: string := "缺少必要欄位"

  // ---------------------------------------------------------------- lines

  /** One line of `_iter_non_comment_lines`: the trimmed line, unless it is empty or a '#' comment. */
  function NonCommentLine(raw: string): (r: Option<string>)
    ensures r.Some? <==> Strip(raw) != "" && !StartsWith(Strip(raw), "#")
    ensures r.Some? ==> r.value == Strip(raw)
  {
    var s := Strip(raw);
    if s == "" || StartsWith(s, "#") then None else Some(s)
  }

  /** `_iter_non_comment_lines`: the trimmed lines of the file that are neither empty nor comments. */
  function NonComment(lines: seq<string>): (r: seq<string>)
    ensures |r| <= |lines|
    ensures forall s :: s in r ==> s != "" && !StartsWith(s, "#")
    decreases |lines|
  {
    if lines == [] then []
    else
      var init := NonComment(lines[..|lines| - 1]);
      match NonCommentLine(lines[|lines| - 1])
      case None => init
      case Some(s) => init + [s]
  }

  lemma {:induction false} NonCommentAppend(a: seq<string>, b: seq<string>)
    ensures NonComment(a + b) == NonComment(a) + NonComment(b)
    decreases |b|
  {
    if b == [] {
      assert a + b == a;
    } else {
      var b' := b[..|b| - 1];
      assert (a + b)[..|a + b| - 1] == a + b';
      assert (a + b)[|a + b| - 1] == b[|b| - 1];
      NonCommentAppend(a, b');
    }
  }

  /** A line the scan takes for `key`: it mentions the key and holds an '='. */
  predicate Holds(s: string, key: string)
  {
    Contains(s, key) && '=' in s
  }

  /** The first line that holds `key`. */
  function Captured(ss: seq<string>, key: string): (r: Option<string>)
    ensures r.None? <==> forall i :: 0 <= i < |ss| ==> !Holds(ss[i], key)
    ensures r.Some? ==> exists i :: 0 <= i < |ss| && ss[i] == r.value && forall j :: 0 <= j < i ==> !Holds(ss[j], key)
    ensures r.Some? ==> Holds(r.value, key)
    decreases |ss|
  {
    if ss == [] then None
    else
      match Captured(ss[..|ss| - 1], key)
      case Some(s) => Some(s)
      case None =>
        var last := ss[|ss| - 1];
        assert forall j :: 0 <= j < |ss| - 1 ==> ss[..|ss| - 1][j] == ss[j];
        if Holds(last, key) then Some(last) else None
  }

  /** Once a line has been captured, later lines do not change it. */
  lemma {:induction false} CapturedAppend(a: seq<string>, b: seq<string>, key: string)
    requires Captured(a, key).Some?
    ensures Captured(a + b, key) == Captured(a, key)
    decreases |b|
  {
    if b == [] {
      assert a + b == a;
    } else {
      var b' := b[..|b| - 1];
      assert (a + b)[..|a + b| - 1] == a + b';
      CapturedAppend(a, b', key);
    }
  }

  // ---------------------------------------------------------------- values

  /** `true` or `false`, in any case, at the start of `b` and followed by `close`. */
  function BoolWord(b: string, close: string): (r: Option<bool>)
    ensures r == Some(true) ==> KeyPrefix(b, "true", true)
    ensures r == Some(false) ==> KeyPrefix(b, "false", true)
  {
    if KeyPrefix(b, "true", true) && StartsWith(b[4..], close) then Some(true)
    else if KeyPrefix(b, "false", true) && StartsWith(b[5..], close) then Some(false)
    else None
  }

  /** `("?)(true|false)\1` at the start of `b`: an opening quote needs its closing one. */
  function QuotedBool(b: string): (r: Option<bool>)
  {
    if StartsWith(b, "\"") then BoolWord(b[1..], "\"") else BoolWord(b, "")
  }

  /** `KEY\s*=\s*("?)(true|false)\1`, ignoring case, at the start of `t`. */
  function BoolAt(t: string, key: string): (r: Option<bool>)
    ensures r.Some? ==> KeyPrefix(t, key, true)
  {
    match KeyEqRest(t, key, true)
    case None => None
    case Some(b) => QuotedBool(b)
  }

  /** `_parse_bool_from_line`: the first place in the line that declares the key true or false. */
  function ParseBool(line: string, key: string): (r: Option<bool>)
    ensures r.Some? <==> exists i :: 0 <= i <= |line| && BoolAt(line[i..], key).Some?
    ensures r.Some? ==> exists i :: 0 <= i <= |line| && BoolAt(line[i..], key) == r
  {
    SearchValue(line, t => BoolAt(t, key))
  }

  /** A declaration `KEY=v` whose value reads as a boolean gives that boolean. */
  lemma ParseBoolDeclared(key: string, b: string)
    requires key != [] && (b == [] || !IsSpace(b[0]))
    requires QuotedBool(b).Some?
    ensures ParseBool(key + "=" + b, key) == QuotedBool(b)
  {
    var line := key + "=" + b;
    KeyEqRestDeclared(key, b, true);
    assert BoolAt(line, key) == QuotedBool(b);
    var f := t => BoolAt(t, key);
    assert f(line).Some?;
    SearchAtStart(line, f);
  }

  /** `true` in any case, bare or quoted, reads as true; an unclosed quote does not. */
  lemma TrueWord(w: string, rest: string)
    requires EqualsIgnoreCase(w, "true")
    ensures QuotedBool(w + rest) == Some(true)
    ensures QuotedBool("\"" + w + "\"" + rest) == Some(true)
    ensures (rest == [] || rest[0] != '"') ==> QuotedBool("\"" + w + rest) == None
  {
    assert LowerChar(w[0]) == 't';
    WordAt(w + rest, w, rest);
    var q := "\"" + w + "\"" + rest;
    WordAt(q[1..], w, "\"" + rest);
    var u := "\"" + w + rest;
    WordAt(u[1..], w, rest);
  }

  /** So does `false` as false. */
  lemma FalseWord(w: string, rest: string)
    requires EqualsIgnoreCase(w, "false")
    ensures QuotedBool(w + rest) == Some(false)
    ensures QuotedBool("\"" + w + "\"" + rest) == Some(false)
    ensures (rest == [] || rest[0] != '"') ==> QuotedBool("\"" + w + rest) == None
  {
    assert LowerChar(w[0]) == 'f';
    FalseBoolWord(w + rest, w, rest, "");
    var q := "\"" + w + "\"" + rest;
    assert q[1..] == w + ("\"" + rest);
    FalseBoolWord(q[1..], w, "\"" + rest, "\"");
    var u := "\"" + w + rest;
    assert u[1..] == w + rest;
    FalseBoolWord(u[1..], w, rest, "\"");
  }

  /** `false` in any case, then `rest`: false exactly when `rest` starts with the closing text. */
  lemma FalseBoolWord(s: string, w: string, rest: string, close: string)
    requires s == w + rest && |w| == 5 && LowerChar(w[0]) == 'f' && EqualsIgnoreCase(w, "false")
    ensures BoolWord(s, close) == if StartsWith(rest, close) then Some(false) else None
  {
    WordAt(s, w, rest);
    assert s[..4][0] == w[0];
  }

  /** `s` is `w` followed by `rest`. */
  lemma WordAt(s: string, w: string, rest: string)
    requires s == w + rest
    ensures s[..|w|] == w && s[|w|..] == rest
  {
  }

  /** Any other word reads as no boolean. */
  lemma OtherWord(b: string)
    requires b == [] || (b[0] != '"' && LowerChar(b[0]) != 't' && LowerChar(b[0]) != 'f')
    ensures QuotedBool(b) == None
  {
    if b != [] {
      assert !KeyPrefix(b, "true", true) by { if |b| >= 4 { assert b[..4][0] == b[0]; } }
      assert !KeyPrefix(b, "false", true) by { if |b| >= 5 { assert b[..5][0] == b[0]; } }
    }
  }

  lemma BoolAtShort(t: string, key: string)
    requires |t| < |key|
    ensures BoolAt(t, key) == None
  {
  }

  /** An empty assignment `KEY=` is captured by the scan but gives no boolean. */
  lemma ParseBoolEmpty(key: string)
    requires key != [] && LowerChar(key[|key| - 1]) != '='
    ensures Holds(key + "=", key)
    ensures ParseBool(key + "=", key) == None
  {
    var line := key + "=";
    assert OccursAt(line, key, 0) by { assert line[..|key|] == key; }
    assert line[|key|] == '=';
    assert BoolAt(line, key) == None by {
      KeyEqRestDeclared(key, "", true);
      assert line + "" == line;
      OtherWord("");
    }
    assert BoolAt(line[1..], key) == None by {
      var t := line[1..];
      assert t[|key| - 1] == '=';
      assert !KeyPrefix(t, key, true) by {
        assert t[..|key|][|key| - 1] == '=';
      }
    }
    forall i | 2 <= i <= |line|
      ensures BoolAt(line[i..], key) == None
    {
      BoolAtShort(line[i..], key);
    }
    assert line[0..] == line;
  }

  /** The boolean a captured line declares, when it declares one. */
  function FlagValue(line: Option<string>, key: string): (r: Option<bool>)
    ensures line.None? ==> r.None?
  {
    match line
    case None => None
    case Some(s) => ParseBool(s, key)
  }

  // ---------------------------------------------------------------- the scan

  /** The four lines the scan keeps: the first non-comment line holding each key. */
  datatype Scan = Scan(ewbs: Option<string>, never: Option<string>, setting: Option<string>, country: Option<string>)

  function ScanOf(ss: seq<string>): Scan
  {
    Scan(Captured(ss, EwbsKey), Captured(ss, NeverKey), Captured(ss, SettingKey), Captured(ss, CountryKey))
  }

  /** One step of the scan for one key: keep the line already held, else take this one if it holds the key. */
  function Keep(held: Option<string>, s: string, key: string): (r: Option<string>)
    ensures held.Some? ==> r == held
  {
    if held.None? && Holds(s, key) then Some(s) else held
  }

  lemma ScanSnoc(ss: seq<string>, s: string)
    ensures ScanOf(ss + [s]) == Scan(Keep(ScanOf(ss).ewbs, s, EwbsKey), Keep(ScanOf(ss).never, s, NeverKey),
                                     Keep(ScanOf(ss).setting, s, SettingKey), Keep(ScanOf(ss).country, s, CountryKey))
  {
    CapturedSnoc(ss, s, EwbsKey);
    CapturedSnoc(ss, s, NeverKey);
    CapturedSnoc(ss, s, SettingKey);
    CapturedSnoc(ss, s, CountryKey);
  }

  lemma ScanAppend(a: seq<string>, b: seq<string>)
    requires Complete(ScanOf(a))
    ensures ScanOf(a + b) == ScanOf(a)
  {
    CapturedAppend(a, b, EwbsKey);
    CapturedAppend(a, b, NeverKey);
    CapturedAppend(a, b, SettingKey);
    CapturedAppend(a, b, CountryKey);
  }

  predicate Complete(s: Scan)
  {
    s.ewbs.Some? && s.never.Some? && s.setting.Some? && s.country.Some?
  }

  lemma NonCommentSnoc(lines: seq<string>, i: nat)
    requires i < |lines|
    ensures NonComment(lines[..i + 1]) ==
      match NonCommentLine(lines[i])
      case None => NonComment(lines[..i])
      case Some(s) => NonComment(lines[..i]) + [s]
  {
    assert lines[..i + 1][..i] == lines[..i];
  }

  lemma CapturedSnoc(ss: seq<string>, s: string, key: string)
    ensures Captured(ss + [s], key) ==
      if Captured(ss, key).Some? then Captured(ss, key) else if Holds(s, key) then Some(s) else None
  {
    assert (ss + [s])[..|ss|] == ss;
  }

  /** The body of the first loop on one non-comment line: each key not yet held takes the line if it holds the key. */
  method Take(held: Scan, s: string) returns (scan: Scan)
    ensures scan == Scan(Keep(held.ewbs, s, EwbsKey), Keep(held.never, s, NeverKey),
                         Keep(held.setting, s, SettingKey), Keep(held.country, s, CountryKey))
  {
    scan := held;
    if scan.ewbs.None? && Holds(s, EwbsKey) {
      scan := scan.(ewbs := Some(s));
    }
    if scan.never.None? && Holds(s, NeverKey) {
      scan := scan.(never := Some(s));
    }
    if scan.setting.None? && Holds(s, SettingKey) {
      scan := scan.(setting := Some(s));
    }
    if scan.country.None? && Holds(s, CountryKey) {
      scan := scan.(country := Some(s));
    }
  }

  /**
   * The first loop of `check_ewbs`: each key keeps the first non-comment line
   * that holds it, and the loop stops early once all four are found.
   */
  method ScanFlags(lines: seq<string>) returns (scan: Scan)
    ensures scan == ScanOf(NonComment(lines))
  {
    scan := Scan(None, None, None, None);
    ghost var kept: seq<string> := [];
    var i := 0;
    while i < |lines|
      invariant 0 <= i <= |lines|
      invariant kept == NonComment(lines[..i])
      invariant scan == ScanOf(kept)
    {
      var line := NonCommentLine(lines[i]);
      NonCommentSnoc(lines, i);
      if line.Some? {
        ScanSnoc(kept, line.value);
        scan := Take(scan, line.value);
        kept := kept + [line.value];
      }
      i := i + 1;
      if Complete(scan) {
        break;
      }
    }
    ScanDone(lines, i);
  }

  /** The early exit: once all four lines are held, the rest of the file changes nothing. */
  lemma ScanDone(lines: seq<string>, i: nat)
    requires i <= |lines|
    requires i < |lines| ==> Complete(ScanOf(NonComment(lines[..i])))
    ensures ScanOf(NonComment(lines)) == ScanOf(NonComment(lines[..i]))
  {
    if i < |lines| {
      NonCommentSplit(lines, i);
      ScanAppend(NonComment(lines[..i]), NonComment(lines[i..]));
    } else {
      assert lines[..i] == lines;
    }
  }

  lemma NonCommentSplit(lines: seq<string>, i: nat)
    requires i < |lines|
    ensures NonComment(lines) == NonComment(lines[..i]) + NonComment(lines[i..])
  {
    var a, b := lines[..i], lines[i..];
    assert a + b == lines;
    NonCommentAppend(a, b);
  }

  // ---------------------------------------------------------------- the verdict

  /** The verdict and the reasons `check_ewbs` gives for it. */
  datatype Outcome = Outcome(result: Verdict, reasons: seq<string>)

  /** The list of reasons, given whether each of the three conditions holds. */
  function ReasonList(ewbsTrue: bool, neverSet: bool, settingSet: bool): (r: seq<string>)
    ensures r != []
    ensures EwbsNotTrue in r <==> !ewbsTrue
    ensures NeverNotSet in r <==> !neverSet
    ensures SettingNotSet in r <==> !settingSet
    ensures Fallback in r <==> ewbsTrue && neverSet && settingSet
  {
    var r := Unless(ewbsTrue, EwbsNotTrue) + Unless(neverSet, NeverNotSet) + Unless(settingSet, SettingNotSet);
    if r == [] then [Fallback] else r
  }

  /**
   * The verdict of `check_ewbs` as written: PASS needs isSupportEWBS to read
   * true and the other two lines to be present, but the reason for a
   * failure calls isEwbsSettingOn "not set" whenever its value is not a
   * boolean, even though its line is present.
   */
  function EvaluateAsWritten(scan: Scan): (r: Outcome)
    ensures r.result == Pass <==> FlagValue(scan.ewbs, EwbsKey) == Some(true) && scan.never.Some? && scan.setting.Some?
    ensures r.result != NotApplicable
    ensures r.result == Fail ==> (SettingNotSet in r.reasons <==> FlagValue(scan.setting, SettingKey).None?)
  {
    var ok := FlagValue(scan.ewbs, EwbsKey) == Some(true) && scan.never.Some? && scan.setting.Some?;
    if ok then Outcome(Pass, [])
    else Outcome(Fail, ReasonList(FlagValue(scan.ewbs, EwbsKey) == Some(true), scan.never.Some?,
                                  FlagValue(scan.setting, SettingKey).Some?))
  }

  /** The catch-all reason is never given: a failure always has a named reason. */
  lemma FallbackUnreachable(scan: Scan)
    ensures Fallback !in EvaluateAsWritten(scan).reasons
  {
  }

  /**
   * A present isEwbsSettingOn line whose value is not a boolean, together with
   * another failing flag, is reported as "not set".
   */
  lemma AsWrittenMislabels(scan: Scan)
    requires FlagValue(scan.ewbs, EwbsKey) != Some(true)
    requires scan.setting.Some? && FlagValue(scan.setting, SettingKey).None?
    ensures EvaluateAsWritten(scan).result == Fail
    ensures SettingNotSet in EvaluateAsWritten(scan).reasons
  {
  }

  /** Such a line exists: an empty assignment of isEwbsSettingOn. */
  lemma SettingLineWithoutValue()
    ensures Holds(SettingKey + "=", SettingKey) && ParseBool(SettingKey + "=", SettingKey) == None
  {
    assert SettingKey[|SettingKey| - 1] == 'n';
    ParseBoolEmpty(SettingKey);
  }

  /**
   * The verdict with the reasons matched to the PASS condition: a flag is
   * reported "not set" exactly when its line is missing.
   */
  function Evaluate(scan: Scan): (r: Outcome)
    ensures r.result == Pass <==> FlagValue(scan.ewbs, EwbsKey) == Some(true) && scan.never.Some? && scan.setting.Some?
    ensures r.result != NotApplicable
    ensures r.result == Pass ==> r.reasons == []
    ensures r.result == Fail ==> r.reasons != [] && Fallback !in r.reasons
    ensures r.result == Fail ==> (EwbsNotTrue in r.reasons <==> FlagValue(scan.ewbs, EwbsKey) != Some(true))
    ensures r.result == Fail ==> (NeverNotSet in r.reasons <==> scan.never.None?)
    ensures r.result == Fail ==> (SettingNotSet in r.reasons <==> scan.setting.None?)
  {
    var ok := FlagValue(scan.ewbs, EwbsKey) == Some(true) && scan.never.Some? && scan.setting.Some?;
    if ok then Outcome(Pass, [])
    else Outcome(Fail, ReasonList(FlagValue(scan.ewbs, EwbsKey) == Some(true), scan.never.Some?, scan.setting.Some?))
  }

  /** Both versions agree on the verdict; they differ only in the wording of a failure. */
  lemma EvaluateAgrees(scan: Scan)
    ensures Evaluate(scan).result == EvaluateAsWritten(scan).result
    ensures FlagValue(scan.setting, SettingKey).Some? || scan.setting.None? ==> Evaluate(scan) == EvaluateAsWritten(scan)
  {
  }

  /** Whether a flag line reads, for instance, `isSupportEWBS = yes` does not matter for the others being "set". */
  lemma CapturedWithoutValue(ss: seq<string>, key: string, i: nat)
    requires i < |ss| && Holds(ss[i], key) && ParseBool(ss[i], key).None?
    requires forall j :: 0 <= j < i ==> !Holds(ss[j], key)
    ensures Captured(ss, key) == Some(ss[i])
    ensures FlagValue(Captured(ss, key), key).None?
  {
    var r := Captured(ss, key);
    var k :| 0 <= k < |ss| && ss[k] == r.value && forall j :: 0 <= j < k ==> !Holds(ss[j], key);
    assert k == i;
  }

  // ---------------------------------------------------------------- the countries

  /** The names among `names` that the text mentions, ignoring case, in list order. */
  function Mentioned(names: seq<string>, content: string): (r: seq<string>)
    ensures |r| <= |names|
    ensures forall n :: n in r <==> n in names && ContainsIgnoreCase(content, n)
    decreases |names|
  {
    if names == [] then []
    else
      var init := Mentioned(names[..|names| - 1], content);
      var last := names[|names| - 1];
      assert names == names[..|names| - 1] + [last];
      if ContainsIgnoreCase(content, last) then init + [last] else init
  }

  /** The second loop of `check_ewbs`, over the countries of interest: those the file mentions. */
  method FoundCountries(names: seq<string>, content: string) returns (found: seq<string>)
    ensures found == Mentioned(names, content)
    ensures forall n :: n in found <==> n in names && ContainsIgnoreCase(content, n)
  {
    found := [];
    var i := 0;
    while i < |names|
      invariant 0 <= i <= |names|
      invariant found == Mentioned(names[..i], content)
    {
      assert names[..i + 1][..i] == names[..i];
      if ContainsIgnoreCase(content, names[i]) {
        found := found + [names[i]];
      }
      i := i + 1;
    }
    assert names[..i] == names;
  }

  /** What the COUNTRY_PATH stage reports. */
  datatype CountryReport = NoCountryLine | BadQuote | MissingFile(path: string) | Found(names: seq<string>)

  /** The second stage of `check_ewbs` on the captured COUNTRY_PATH line. */
  function CountryStage(fs: FileSystem, root: string, country: Option<string>): (r: CountryReport)
    ensures r.NoCountryLine? <==> country.None?
    ensures r.BadQuote? <==> country.Some? && ExtractQuotedValue(country.value, CountryKey) == ""
    ensures r.MissingFile? ==> !Exists(fs, r.path)
    ensures r.Found? ==> country.Some? && Exists(fs, Resolvers.ResolveDropTvconfigs(ExtractQuotedValue(country.value, CountryKey), root))
  {
    match country
    case None => NoCountryLine
    case Some(line) =>
      var raw := ExtractQuotedValue(line, CountryKey);
      if raw == "" then BadQuote
      else
        var path := Resolvers.ResolveDropTvconfigs(raw, root);
        if Exists(fs, path) then Found(Mentioned(Countries, Read(fs, path).value)) else MissingFile(path)
  }

  /** The countries reported are those of the list the country file mentions. */
  lemma CountryStageFound(fs: FileSystem, root: string, line: string, n: string)
    requires CountryStage(fs, root, Some(line)).Found?
    ensures n in CountryStage(fs, root, Some(line)).names <==>
              n in Countries && ContainsIgnoreCase(Read(fs, Resolvers.ResolveDropTvconfigs(ExtractQuotedValue(line, CountryKey), root)).value, n)
  {
  }

  /**
   * `check_ewbs`: the flag verdict, with the reasons of `Evaluate`, and the
   * country stage, which reports but never changes the verdict.
   */
  method CheckEwbs(fs: FileSystem, root: string, lines: seq<string>) returns (outcome: Outcome, countries: CountryReport)
    ensures outcome == Evaluate(ScanOf(NonComment(lines)))
    ensures countries == CountryStage(fs, root, ScanOf(NonComment(lines)).country)
  {
    var scan := ScanFlags(lines);
    outcome := Evaluate(scan);
    match scan.country {
      case None =>
        countries := NoCountryLine;
      case Some(line) =>
        var raw := ExtractQuotedValue(line, CountryKey);
        if raw == "" {
          countries := BadQuote;
        } else {
          var path := Resolvers.ResolveDropTvconfigs(raw, root);
          if Exists(fs, path) {
            var names := FoundCountries(Countries, Read(fs, path).value);
            countries := Found(names);
          } else {
            countries := MissingFile(path);
          }
        }
    }
  }
}
