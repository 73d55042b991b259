/**
 * check_dias_5k.py and check_dias_panel.py: follow model.ini's
 * `m_pPanelName` to the panel file, read three timing values from it and
 * compare them with fixed thresholds.  The two scripts share their parsing
 * and differ only in the thresholds and in the comparison: check_dias_5k.py
 * demands `v >= th`, check_dias_panel.py `v > th`.
 */
module Dias {
  import opened Wrappers
  import opened Text
  import opened Files
  import opened Paths
  import opened Ini
  import opened Search

  // ---------------------------------------------------------------- resolve_panel_path

  /**
   * `resolve_panel_path(raw, root)`, as the path it names before
   * `resolve()`: the reference is trimmed, then the rules are tried in order.
   */
  function ResolvePanelPath(raw: string, root: string): string
  {
    ResolveTrimmed(Strip(raw), root)
  }

  /** The ordered rules on a trimmed reference `t`. */
  function ResolveTrimmed(t: string, root: string): (r: string)
    ensures StartsWith(t, "/tvconfigs/") ==> r == Join(root, t[|"/tvconfigs/"|..])
    ensures !StartsWith(t, "/tvconfigs/") && StartsWith(t, "/panel/") ==> r == Join(root, t[1..])
    ensures !StartsWith(t, "/tvconfigs/") && !StartsWith(t, "/panel/") && StartsWith(t, "/") ==> r == t
    ensures !StartsWith(t, "/tvconfigs/") && !StartsWith(t, "/panel/") && !StartsWith(t, "/") ==> r == Join(root, t)
  {
    if StartsWith(t, "/tvconfigs/") then Join(root, t[|"/tvconfigs/"|..])
    else if StartsWith(t, "/panel/") then
      PanelLStrip(t);
      Join(root, LStripSet(t, {'/'}))
    else if StartsWith(t, "/") then t
    else Join(root, t)
  }

  /** `lstrip("/")` of a "/panel/..." reference drops its one leading slash. */
  lemma PanelLStrip(t: string)
    requires StartsWith(t, "/panel/")
    ensures LStripSet(t, {'/'}) == t[1..]
  {
    assert t[1] == 'p';
    LStripSetFixed(t[1..], {'/'});
  }

  /** The three spellings of a panel file, logical, rooted and relative, all name the same file. */
  lemma PanelSpellingsAgree(root: string, name: string)
    ensures ResolveTrimmed("/tvconfigs/panel/" + name, root) == Join(root, "panel/" + name)
    ensures ResolveTrimmed("/panel/" + name, root) == Join(root, "panel/" + name)
    ensures ResolveTrimmed("panel/" + name, root) == Join(root, "panel/" + name)
  {
    var a := "/tvconfigs/panel/" + name;
    assert a[..|"/tvconfigs/"|] == "/tvconfigs/" && a[|"/tvconfigs/"|..] == "panel/" + name;
    var b := "/panel/" + name;
    assert !StartsWith(b, "/tvconfigs/") by {
      assert |b| >= 2 && b[1] == 'p';
    }
    assert b[..|"/panel/"|] == "/panel/" && b[1..] == "panel/" + name;
    var c := "panel/" + name;
    assert c[0] == 'p';
    NotRooted(c);
  }

  /** A reference that does not start with '/' matches none of the rooted rules. */
  lemma NotRooted(c: string)
    requires c != [] && c[0] != '/'
    ensures !StartsWith(c, "/tvconfigs/") && !StartsWith(c, "/panel/") && !StartsWith(c, "/")
  {
  }

  // ---------------------------------------------------------------- parse_panel_name

  const PanelKey: string := "m_pPanelName"

  /**
   * `PANEL_NAME_RE` (`^\s*m_pPanelName\s*=\s*"(.*?)"\s*;?.*$`, case-blind):
   * the lazy group stops at the first quote after the opening one, and
   * `.*` accepts any rest of a line read from a file.
   */
  function PanelName(line: string): (r: Option<string>)
    ensures r.Some? ==> '"' !in r.value
  {
    match KeyEqRest(LStrip(line), PanelKey, true)
    case None => None
    case Some(b) => QuotedAt(b, true)
  }

  /** Why the model file gives no panel reference. */
  datatype ParseError = ModelIniNotFound | NoPanelName

  /** The raw panel reference, or the exception `parse_panel_name` raises instead. */
  datatype Parsed = Success(value: string) | Failure(error: ParseError)

  /** `parse_panel_name`: the first matching line's quoted text; a missing file or no match raises. */
  function ParsePanelName(fs: FileSystem, modelIni: string): (r: Parsed)
    ensures r == Failure(ModelIniNotFound) <==> !Exists(fs, modelIni)
    ensures r.Success? ==> exists i :: (0 <= i < |IterLines(fs, modelIni).value| &&
      PanelName(IterLines(fs, modelIni).value[i]) == Some(r.value) &&
      forall j :: 0 <= j < i ==> PanelName(IterLines(fs, modelIni).value[j]).None?)
    ensures r == Failure(NoPanelName) <==> (Exists(fs, modelIni) &&
      forall i :: 0 <= i < |IterLines(fs, modelIni).value| ==> PanelName(IterLines(fs, modelIni).value[i]).None?)
  {
    match IterLines(fs, modelIni)
    case None => Failure(ModelIniNotFound)
    case Some(lines) =>
      match First(lines, PanelName)
      case None => Failure(NoPanelName)
      case Some(v) => Success(v)
  }

  /** A declaration in the usual form yields its quoted path, whatever follows the closing quote. */
  lemma PanelNameDeclared(v: string, tail: string)
    requires '"' !in v
    ensures PanelName(PanelKey + "=\"" + v + "\"" + tail) == Some(v)
  {
    var q := "\"" + v + "\"" + tail;
    var line := PanelKey + "=" + q;
    assert PanelKey + "=\"" + v + "\"" + tail == line;
    DeclarationUnindented(line);
    KeyEqRestDeclared(PanelKey, q, true);
    QuotedAtHead(v, tail);
  }

  lemma DeclarationUnindented(line: string)
    requires StartsWith(line, PanelKey)
    ensures LStrip(line) == line
  {
    assert line[0] == 'm';
    LStripSetFixed(line, Whitespace);
  }

  /** `"([^"]*)"` at the start of a quoted text followed by anything. */
  lemma QuotedAtHead(v: string, tail: string)
    requires '"' !in v
    ensures QuotedAt("\"" + v + "\"" + tail, true) == Some(v)
  {
    var q := "\"" + v + "\"" + tail;
    assert q[1..] == v + "\"" + tail;
    CharIndexAt(v + "\"" + tail, '"', |v|);
    assert (v + "\"" + tail)[..|v|] == v;
  }

  // ---------------------------------------------------------------- extract_values

  /** `^\s*KEY\s*=\s*([0-9]+)`, case-blind: the integer that starts right after `KEY =`. */
  function KeyInt(line: string, key: string): (r: Option<nat>)
    ensures r.Some? ==> KeyEqRest(LStrip(line), key, true).Some?
  {
    match KeyEqRest(LStrip(line), key, true)
    case None => None
    case Some(b) =>
      var d := LeadingDigits(b);
      if d == "" then None else Some(DigitsValue(d))
  }

  /** The value `extract_values` settles on for `key`: that of the first line with an integer for it. */
  function FirstInt(lines: seq<string>, key: string): Option<nat>
  {
    First(lines, l => KeyInt(l, key))
  }

  /**
   * The dict `extract_values` returns: the keys some line gives an integer
   * for, each with the integer of the first such line.
   */
  function Extracted(lines: seq<string>, keys: seq<string>): (m: map<string, nat>)
    ensures forall k :: k in m <==> k in keys && FirstInt(lines, k).Some?
    ensures forall k :: k in m ==> Some(m[k]) == FirstInt(lines, k)
  {
    map k | k in keys && FirstInt(lines, k).Some? :: FirstInt(lines, k).value
  }

  /**
   * `extract_values`: for each line, every key not yet in the dict takes the
   * integer the line gives it.  A later line never overwrites an earlier one.
   */
  method ExtractValues(lines: seq<string>, keys: seq<string>) returns (values: map<string, nat>)
    ensures values == Extracted(lines, keys)
  {
    values := map[];
    var i := 0;
    while i < |lines|
      invariant 0 <= i <= |lines|
      invariant values == Extracted(lines[..i], keys)
    {
      ghost var before := values;
      var line := lines[i];
      values := AddMissing(values, keys, k => KeyInt(line, k));
      ExtractStep(lines, i, keys, before, values);
      i := i + 1;
    }
    assert lines[..|lines|] == lines;
  }

  /** The inner loop over the keys: each key not yet present takes what `f` gives it, if anything. */
  method AddMissing(values: map<string, nat>, keys: seq<string>, f: string -> Option<nat>) returns (after: map<string, nat>)
    ensures forall k :: k in after <==> k in values || (k in keys && f(k).Some?)
    ensures forall k :: k in after ==> after[k] == if k in values then values[k] else f(k).value
  {
    after := values;
    var j := 0;
    while j < |keys|
      invariant 0 <= j <= |keys|
      invariant forall k :: k in after <==> k in values || (k in keys[..j] && f(k).Some?)
      invariant forall k :: k in after ==> after[k] == if k in values then values[k] else f(k).value
    {
      var key := keys[j];
      if key !in after {
        var m := f(key);
        if m.Some? {
          after := after[key := m.value];
        }
      }
      assert keys[..j + 1] == keys[..j] + [key];
      j := j + 1;
    }
    assert keys[..|keys|] == keys;
  }

  /** One more line gives a key the integer of that line when no earlier line gave it one. */
  lemma FirstIntSnoc(lines: seq<string>, i: nat, k: string)
    requires i < |lines|
    ensures FirstInt(lines[..i + 1], k) == if FirstInt(lines[..i], k).Some? then FirstInt(lines[..i], k) else KeyInt(lines[i], k)
  {
    FirstSnoc(lines, i, l => KeyInt(l, k));
  }

  /** What the inner loop does to the dict for line `i`. */
  ghost predicate AddsLine(lines: seq<string>, i: nat, keys: seq<string>, before: map<string, nat>, after: map<string, nat>)
    requires i < |lines|
  {
    (forall k :: k in after <==> k in before || (k in keys && KeyInt(lines[i], k).Some?)) &&
    (forall k :: k in after ==> after[k] == if k in before then before[k] else KeyInt(lines[i], k).value)
  }

  /** After line `i` the dict holds the keys some line up to `i` gives an integer for. */
  lemma ExtractStepKeys(lines: seq<string>, i: nat, keys: seq<string>, before: map<string, nat>, after: map<string, nat>)
    requires i < |lines| && before == Extracted(lines[..i], keys) && AddsLine(lines, i, keys, before, after)
    ensures forall k :: k in after <==> k in Extracted(lines[..i + 1], keys)
  {
    forall k | k in keys
      ensures FirstInt(lines[..i + 1], k) == if FirstInt(lines[..i], k).Some? then FirstInt(lines[..i], k) else KeyInt(lines[i], k)
    {
      FirstIntSnoc(lines, i, k);
    }
  }

  /** After line `i` each key holds the integer of the first line up to `i` that gives one. */
  lemma ExtractStepValues(lines: seq<string>, i: nat, keys: seq<string>, before: map<string, nat>, after: map<string, nat>)
    requires i < |lines| && before == Extracted(lines[..i], keys) && AddsLine(lines, i, keys, before, after)
    requires forall k :: k in after <==> k in Extracted(lines[..i + 1], keys)
    ensures forall k :: k in after ==> after[k] == Extracted(lines[..i + 1], keys)[k]
  {
    forall k | k in after
      ensures after[k] == Extracted(lines[..i + 1], keys)[k]
    {
      FirstIntSnoc(lines, i, k);
    }
  }

  /** One more line adds, for each key still missing, the integer that line gives it. */
  lemma ExtractStep(lines: seq<string>, i: nat, keys: seq<string>, before: map<string, nat>, after: map<string, nat>)
    requires i < |lines| && before == Extracted(lines[..i], keys) && AddsLine(lines, i, keys, before, after)
    ensures after == Extracted(lines[..i + 1], keys)
  {
    ExtractStepKeys(lines, i, keys, before, after);
    ExtractStepValues(lines, i, keys, before, after);
    SameMaps(after, Extracted(lines[..i + 1], keys));
  }

  /** Two dicts with the same keys and the same value at each key are equal. */
  lemma SameMaps(a: map<string, nat>, b: map<string, nat>)
    requires forall k :: k in a <==> k in b
    requires forall k :: k in a ==> a[k] == b[k]
    ensures a == b
  {
  }

  /** The first integer wins: a later line cannot replace the value of an earlier one. */
  lemma FirstIntegerWins(lines: seq<string>, more: seq<string>, keys: seq<string>, key: string)
    requires key in Extracted(lines, keys)
    ensures key in Extracted(lines + more, keys) && Extracted(lines + more, keys)[key] == Extracted(lines, keys)[key]
  {
    FirstAppend(lines, more, l => KeyInt(l, key));
  }

  // ---------------------------------------------------------------- check

  /** One entry of `THRESHOLDS`. */
  datatype Threshold = Threshold(key: string, bound: nat)

  /** One entry of the `errors` list. */
  datatype Error = Missing(key: string) | NotMet(key: string, value: nat, bound: nat)

  /** The comparison each script makes: `v >= th` for the 5K check, `v > th` for the panel check. */
  predicate Meets(v: nat, bound: nat, strict: bool)
  {
    if strict then v > bound else v >= bound
  }

  /** What one threshold contributes to `errors`: nothing when its key is present and meets it. */
  function ErrorFor(values: map<string, nat>, t: Threshold, strict: bool): (e: Option<Error>)
    ensures e.None? <==> t.key in values && Meets(values[t.key], t.bound, strict)
    ensures e == Some(Missing(t.key)) <==> t.key !in values
  {
    if t.key !in values then Some(Missing(t.key))
    else if !Meets(values[t.key], t.bound, strict) then Some(NotMet(t.key, values[t.key], t.bound))
    else None
  }

  /** The errors of the thresholds in order, at most one per threshold. */
  function Errors(values: map<string, nat>, ts: seq<Threshold>, strict: bool): (errs: seq<Error>)
    ensures |errs| <= |ts|
    ensures errs == [] <==> forall i :: 0 <= i < |ts| ==> ErrorFor(values, ts[i], strict).None?
    decreases |ts|
  {
    if |ts| == 0 then []
    else
      var init := ts[..|ts| - 1];
      var rest := Errors(values, init, strict);
      assert forall i :: 0 <= i < |init| ==> init[i] == ts[i];
      match ErrorFor(values, ts[|ts| - 1], strict)
      case None => rest
      case Some(e) => rest + [e]
  }

  /** Each threshold not met has its error in the list, and the list holds nothing else. */
  lemma {:induction false} ErrorsExact(values: map<string, nat>, ts: seq<Threshold>, strict: bool)
    ensures forall i :: 0 <= i < |ts| && ErrorFor(values, ts[i], strict).Some? ==> ErrorFor(values, ts[i], strict).value in Errors(values, ts, strict)
    ensures forall e :: e in Errors(values, ts, strict) ==> exists i :: 0 <= i < |ts| && ErrorFor(values, ts[i], strict) == Some(e)
    decreases |ts|
  {
    if |ts| > 0 {
      var init := ts[..|ts| - 1];
      ErrorsExact(values, init, strict);
      assert forall i :: 0 <= i < |init| ==> init[i] == ts[i];
    }
  }

  /** One more threshold appends its error, if any. */
  lemma ErrorsSnoc(values: map<string, nat>, ts: seq<Threshold>, j: nat, strict: bool)
    requires j < |ts|
    ensures Errors(values, ts[..j + 1], strict) ==
      Errors(values, ts[..j], strict) + (if ErrorFor(values, ts[j], strict).Some? then [ErrorFor(values, ts[j], strict).value] else [])
  {
    assert ts[..j + 1][..j] == ts[..j];
  }

  /** `check(values)`: one pass over the thresholds in order, appending an error for each one not met. */
  method Check(values: map<string, nat>, ts: seq<Threshold>, strict: bool) returns (ok: bool, errors: seq<Error>)
    ensures errors == Errors(values, ts, strict)
    ensures ok <==> forall i :: 0 <= i < |ts| ==> ts[i].key in values && Meets(values[ts[i].key], ts[i].bound, strict)
  {
    errors := [];
    var j := 0;
    while j < |ts|
      invariant 0 <= j <= |ts|
      invariant errors == Errors(values, ts[..j], strict)
    {
      var t := ts[j];
      ErrorsSnoc(values, ts, j, strict);
      if t.key !in values {
        errors := errors + [Missing(t.key)];
      } else if !Meets(values[t.key], t.bound, strict) {
        errors := errors + [NotMet(t.key, values[t.key], t.bound)];
      }
      j := j + 1;
    }
    assert ts[..|ts|] == ts;
    ok := |errors| == 0;
    AllMetIff(values, ts, strict);
  }

  /** The error list is empty exactly when every threshold's key is present and met. */
  lemma AllMetIff(values: map<string, nat>, ts: seq<Threshold>, strict: bool)
    ensures Errors(values, ts, strict) == [] <==> forall i :: 0 <= i < |ts| ==> ts[i].key in values && Meets(values[ts[i].key], ts[i].bound, strict)
  {
    assert forall i :: 0 <= i < |ts| ==> (ErrorFor(values, ts[i], strict).None? <==> ts[i].key in values && Meets(values[ts[i].key], ts[i].bound, strict));
  }


  /** The error text each script prints. */
  function Message(e: Error, strict: bool): string
  {
    match e
    case Missing(k) => "缺少 " + k + " 欄位"
    case NotMet(k, v, b) =>
      k + " = " + NatToString(v) + (if strict then " 不大於 " else " 不滿足 >= ") + NatToString(b)
  }

  // ---------------------------------------------------------------- the two scripts

  const HTotal: string := "DISP_HORIZONTAL_TOTAL"
  const VTotal: string := "DISP_VERTICAL_TOTAL"
  const RefreshRate: string := "DISPLAY_REFRESH_RATE"

  /** The keys of `KEY_PATTERNS`, in order. */
  const Keys: seq<string> := [HTotal, VTotal, RefreshRate]

  /** `THRESHOLDS` of check_dias_5k.py. */
  const Thresholds5k: seq<Threshold> := [Threshold(HTotal, 5120), Threshold(VTotal, 2880), Threshold(RefreshRate, 60)]

  /** `THRESHOLDS` of check_dias_panel.py. */
  const ThresholdsPanel: seq<Threshold> := [Threshold(HTotal, 3840), Threshold(VTotal, 2160), Threshold(RefreshRate, 59)]

  /** The 5K verdict: all three values present, H >= 5120, V >= 2880, R >= 60. */
  lemma Verdict5k(values: map<string, nat>)
    ensures Errors(values, Thresholds5k, false) == [] <==>
      HTotal in values && VTotal in values && RefreshRate in values &&
      values[HTotal] >= 5120 && values[VTotal] >= 2880 && values[RefreshRate] >= 60
    ensures |Errors(values, Thresholds5k, false)| <= 3
  {
    var ts := Thresholds5k;
    assert ErrorFor(values, ts[0], false).None? <==> HTotal in values && values[HTotal] >= 5120;
    assert ErrorFor(values, ts[1], false).None? <==> VTotal in values && values[VTotal] >= 2880;
    assert ErrorFor(values, ts[2], false).None? <==> RefreshRate in values && values[RefreshRate] >= 60;
  }

  /**
   * The panel verdict: H > 3840, V > 2160 and R > 59, which for integers is
   * R >= 60 — the rule the docstring states, though the help text says "> 60".
   */
  lemma VerdictPanel(values: map<string, nat>)
    ensures Errors(values, ThresholdsPanel, true) == [] <==>
      HTotal in values && VTotal in values && RefreshRate in values &&
      values[HTotal] > 3840 && values[VTotal] > 2160 && values[RefreshRate] >= 60
    ensures |Errors(values, ThresholdsPanel, true)| <= 3
  {
    var ts := ThresholdsPanel;
    assert ErrorFor(values, ts[0], true).None? <==> HTotal in values && values[HTotal] > 3840;
    assert ErrorFor(values, ts[1], true).None? <==> VTotal in values && values[VTotal] > 2160;
    assert ErrorFor(values, ts[2], true).None? <==> RefreshRate in values && values[RefreshRate] > 59;
  }

  /** Every key the panel file lacks adds exactly the one error naming it. */
  lemma MissingKeyReported(values: map<string, nat>, ts: seq<Threshold>, strict: bool, i: nat)
    requires i < |ts| && ts[i].key !in values
    ensures Missing(ts[i].key) in Errors(values, ts, strict)
  {
  }

  /** What a run ends in, with the exit code `main` returns. */
  datatype Outcome =
    | ParseFailed(error: ParseError)   // exit 2
    | PanelNotFound(raw: string)        // exit 3
    | Checked(raw: string, values: map<string, nat>, ok: bool, errors: seq<Error>)

  function ExitCode(o: Outcome): (code: int)
    ensures code == 0 <==> o.Checked? && o.ok
  {
    match o
    case ParseFailed(_) => 2
    case PanelNotFound(_) => 3
    case Checked(_, _, ok, _) => if ok then 0 else 1
  }

  /**
   * `main` of either script without the console and the report: parse the
   * panel reference, resolve it under the root, extract and check.
   */
  method CheckPanel(fs: FileSystem, modelIni: string, root: string, ts: seq<Threshold>, strict: bool) returns (o: Outcome)
    ensures o.ParseFailed? <==> ParsePanelName(fs, modelIni).Failure?
    ensures o.ParseFailed? ==> o.error == ParsePanelName(fs, modelIni).error
    ensures o.PanelNotFound? <==> (ParsePanelName(fs, modelIni).Success? &&
      !Exists(fs, NormPath(ResolvePanelPath(ParsePanelName(fs, modelIni).value, root))))
    ensures o.Checked? ==>
      var path := NormPath(ResolvePanelPath(o.raw, root));
      o.raw == ParsePanelName(fs, modelIni).value &&
      o.values == Extracted(IterLines(fs, path).value, Keys) && o.errors == Errors(o.values, ts, strict) &&
      (o.ok <==> o.errors == [])
  {
    var parsed := ParsePanelName(fs, modelIni);
    if parsed.Failure? {
      return ParseFailed(parsed.error);
    }
    var raw := parsed.value;
    var path := NormPath(ResolvePanelPath(raw, root));
    var lines := IterLines(fs, path);
    if lines.None? {
      return PanelNotFound(raw);
    }
    var values := ExtractValues(lines.value, Keys);
    var ok, errors := Check(values, ts, strict);
    o := Checked(raw, values, ok, errors);
  }
}
