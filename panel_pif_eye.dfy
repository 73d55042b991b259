/**
 * check_panel_pif_eye.py: model.ini must declare m_pPanelName, PIF_BIN and
 * EYE_DIAGRAM_BIN with non-empty values.
 *
 * Each key's pattern is `^\s*KEY\s*=\s*"?([^"#;]+?)"?\s*$`, case-blind, on a
 * comment-stripped line.  Such a line holds no '#' or ';', and a lazy group
 * differs from a greedy one only by blanks that the final `strip()` removes,
 * so the match is `Ini.KeyValue` with case folding.
 */
module PanelPifEye {
  import opened Wrappers
  import opened Text
  import opened Files
  import opened Ini
  import opened Dedup

  /** The keys of the `params` dict, in its insertion order. */
  const Keys: seq<string> := ["m_pPanelName", "PIF_BIN", "EYE_DIAGRAM_BIN"]

  /** What the parse settles on for each of `keys`: the first line that declares it. */
  function FoundAll(lines: seq<string>, keys: seq<string>): (r: seq<Option<string>>)
    ensures |r| == |keys| && forall k :: 0 <= k < |keys| ==> r[k] == FindKeyValue(lines, keys[k], true)
  {
    seq(|keys|, k requires 0 <= k < |keys| => FindKeyValue(lines, keys[k], true))
  }

  /**
   * `parse_three_params` on the file's lines: one pass, skipping lines that
   * are empty once comments are cut; a key still unset takes the value of
   * the first line its pattern matches, and is never looked at again.
   */
  method ParseParams(lines: seq<string>, keys: seq<string>) returns (params: seq<Option<string>>)
    ensures params == FoundAll(lines, keys)
  {
    params := seq(|keys|, _ => None);
    var i := 0;
    while i < |lines|
      invariant 0 <= i <= |lines|
      invariant params == FoundAll(lines[..i], keys)
    {
      var line := StripComment(lines[i]);
      ghost var before := params;
      if line != "" {
        params := ScanLine(line, keys, params);
      }
      LineStep(lines, i, keys, before, params);
      i := i + 1;
    }
    assert lines[..|lines|] == lines;
  }

  /** The inner `for key, regex in pat.items()` on one non-empty, comment-stripped line. */
  method ScanLine(line: string, keys: seq<string>, params: seq<Option<string>>) returns (out: seq<Option<string>>)
    requires line != "" && |params| == |keys|
    ensures |out| == |keys|
    ensures forall k :: 0 <= k < |keys| ==>
      out[k] == if params[k].None? then PatternMatch(line, keys[k]) else params[k]
  {
    out := params;
    var j := 0;
    while j < |keys|
      invariant 0 <= j <= |keys| && |out| == |keys|
      invariant forall k :: 0 <= k < j ==> out[k] == if params[k].None? then PatternMatch(line, keys[k]) else params[k]
      invariant forall k :: j <= k < |keys| ==> out[k] == params[k]
    {
      if out[j].None? {
        // a failed match leaves the entry None, which is what storing it does
        out := out[j := PatternMatch(line, keys[j])];
      }
      j := j + 1;
    }
  }

  /** `regex.match(line)` and `m.group(1).strip()` for one key's compiled pattern. */
  function PatternMatch(line: string, key: string): Option<string>
  {
    KeyValue(line, key, true)
  }

  /** One line of the outer loop takes the values found so far to those found one line later. */
  lemma LineStep(lines: seq<string>, i: nat, keys: seq<string>, before: seq<Option<string>>, after: seq<Option<string>>)
    requires i < |lines| && before == FoundAll(lines[..i], keys)
    requires StripComment(lines[i]) == "" ==> after == before
    requires StripComment(lines[i]) != "" ==> (|after| == |keys| &&
      forall k :: 0 <= k < |keys| ==> after[k] == if before[k].None? then PatternMatch(StripComment(lines[i]), keys[k]) else before[k])
    ensures after == FoundAll(lines[..i + 1], keys)
  {
    forall k | 0 <= k < |keys|
      ensures after[k] == FindKeyValue(lines[..i + 1], keys[k], true)
    {
      FindKeyValueStep(lines, i, keys[k]);
    }
  }

  /** Python truthiness of a parsed value: None and "" are both false. */
  predicate Present(v: Option<string>)
  {
    v.Some? && v.value != ""
  }

  /**
   * `missing_keys = [k for k, v in values.items() if not v]`: the keys whose
   * value is absent or empty, in key order.
   */
  function MissingKeys(keys: seq<string>, values: seq<Option<string>>): (m: seq<string>)
    requires |keys| == |values|
    ensures Subsequence(m, keys)
    ensures forall x :: x in m <==> exists k :: 0 <= k < |keys| && keys[k] == x && !Present(values[k])
    ensures m == [] <==> forall k :: 0 <= k < |keys| ==> Present(values[k])
    decreases |keys|
  {
    if |keys| == 0 then []
    else
      var rest := MissingKeys(keys[1..], values[1..]);
      assert forall k :: 1 <= k < |keys| ==> keys[1..][k - 1] == keys[k] && values[1..][k - 1] == values[k];
      var m := if Present(values[0]) then rest else [keys[0]] + rest;
      assert !Present(values[0]) ==> m[1..] == rest;
      m
  }

  /** The report row of `build_result`, without the report root and the Excel formatting. */
  datatype Report = Report(passed: bool, modelIni: string, panelName: string, pifBin: string,
                           eyeDiagramBin: string, missingKeys: seq<string>)


  /** `build_result`: PASS iff no key is missing; each value column shows the value or "". */
  function BuildResult(modelIni: string, values: seq<Option<string>>): (r: Report)
    requires |values| == |Keys|
    ensures r.passed <==> forall k :: 0 <= k < |Keys| ==> Present(values[k])
    ensures r.passed <==> r.missingKeys == []
    ensures r.passed <==> r.panelName != "" && r.pifBin != "" && r.eyeDiagramBin != ""
    ensures r.missingKeys == MissingKeys(Keys, values)
    ensures r.panelName == OrEmpty(values[0]) && r.pifBin == OrEmpty(values[1]) && r.eyeDiagramBin == OrEmpty(values[2])
  {
    var missing := MissingKeys(Keys, values);
    assert (forall k :: 0 <= k < |Keys| ==> Present(values[k])) <==>
      Present(values[0]) && Present(values[1]) && Present(values[2]) by {
      assert |Keys| == 3;
    }
    Report(missing == [], modelIni, OrEmpty(values[0]), OrEmpty(values[1]), OrEmpty(values[2]), missing)
  }

  /**
   * `main` without the command line: an absent model.ini stops the run;
   * otherwise the three keys are parsed and the row built.
   */
  method CheckPanelPifEye(fs: FileSystem, modelIni: string) returns (r: Option<Report>)
    ensures r.None? <==> !Exists(fs, modelIni)
    ensures r.Some? ==> var values := FoundAll(ReadLines(fs, modelIni).value, Keys);
      (r.value.passed <==> forall k :: 0 <= k < |Keys| ==> Present(values[k])) &&
      r.value.missingKeys == MissingKeys(Keys, values)
  {
    var lines := ReadLines(fs, modelIni);
    if lines.None? {
      return None;
    }
    var values := ParseParams(lines.value, Keys);
    r := Some(BuildResult(modelIni, values));
  }

  // ---------------------------------------------------------------- properties

  /** The first declaring line wins: a later declaration of the same key is ignored. */
  lemma FirstDeclarationWins(lines: seq<string>, i: nat, key: string)
    requires i < |lines| && LineValue(lines[i], key, true).Some?
    requires forall j :: 0 <= j < i ==> LineValue(lines[j], key, true).None?
    ensures FindKeyValue(lines, key, true) == LineValue(lines[i], key, true)
  {
    FirstAt(lines, i, l => LineValue(l, key, true));
  }

  /** A parsed value never holds a quote or a comment character. */
  lemma ValuesClean(lines: seq<string>, keys: seq<string>, k: nat)
    requires k < |keys| && FoundAll(lines, keys)[k].Some?
    ensures var v := FoundAll(lines, keys)[k].value; '"' !in v && '#' !in v && ';' !in v
  {
    var r := FindKeyValue(lines, keys[k], true);
    var i :| 0 <= i < |lines| && LineValue(lines[i], keys[k], true) == r;
  }
}
