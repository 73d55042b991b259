/**
 * The TvServIni-style flag files: `key = value` lines read into a table of
 * the keys a checker cares about (last occurrence wins), and the REQUIRED
 * table `evaluate` compares them against.  Shared by dolby_cert_check_pid12.py,
 * pic_mode_test.py, ai_aipq_check.py and low_latency_ctrl_check.py.
 */
module TvServ {
  import opened Wrappers
  import opened Text
  import opened Ini
  import opened Files
  import opened ModelIni

  // ---------------------------------------------------------------- flag lines

  /**
   * `key, val = line.split("=", 1)` on the comment-stripped line, both sides
   * trimmed; no assignment on a blank line or one without '='.
   */
  function Assignment(raw: string): (r: Option<(string, string)>)
    ensures r.Some? <==> StripComment(raw) != "" && '=' in StripComment(raw)
    ensures r.Some? ==> '=' !in r.value.0
    ensures r.Some? ==> exists k, v :: StripComment(raw) == k + "=" + v && '=' !in k && r.value == (Strip(k), Strip(v))
  {
    var line := StripComment(raw);
    if line == "" || '=' !in line then None
    else
      var (k, v) := SplitOnce(line, '=');
      NotInStrip(k, '=');
      assert line == k + "=" + v;
      Some((Strip(k), Strip(v)))
  }

  /** The split is at the first '=': a line `k=v` with no '=' in `k` assigns `v` to `k`. */
  lemma AssignmentOf(raw: string, k: string, v: string)
    requires StripComment(raw) == k + "=" + v && '=' !in k
    ensures Assignment(raw) == Some((Strip(k), Strip(v)))
  {
    var line := StripComment(raw);
    assert (k + "=") + v == line;
    CharIndexAt(k + "=", '=', |k|);
    CharIndexPrefix(k + "=", v, '=');
    assert line[..|k|] == k;
    assert line[|k| + 1..] == v;
  }

  /** The `(KEY, value)` a line contributes when its upper-cased key is one of `targets`. */
  function FlagPair(raw: string, targets: set<string>): (r: Option<(string, string)>)
    ensures r.Some? <==> Assignment(raw).Some? && Upper(Assignment(raw).value.0) in targets
    ensures r.Some? ==> r.value == (Upper(Assignment(raw).value.0), Assignment(raw).value.1)
    ensures r.Some? ==> r.value.0 in targets && IsUpperCase(r.value.0)
  {
    match Assignment(raw)
    case None => None
    case Some((k, v)) => UpperIsUpper(k); if Upper(k) in targets then Some((Upper(k), v)) else None
  }

  /** `parse_tvserv_flags` on the lines of a file. */
  function FlagTable(lines: seq<string>, targets: set<string>): map<string, string>
  {
    LastWins(lines, l => FlagPair(l, targets))
  }

  /**
   * Every key of the table is an upper-case target; a key is present iff some
   * line assigns it, and it holds the value of the last such line.
   */
  lemma FlagTableSpec(lines: seq<string>, targets: set<string>, k: string)
    ensures k in FlagTable(lines, targets) ==> k in targets && IsUpperCase(k)
    ensures k in FlagTable(lines, targets) <==>
      exists i :: 0 <= i < |lines| && FlagPair(lines[i], targets).Some? && FlagPair(lines[i], targets).value.0 == k
    ensures k in FlagTable(lines, targets) ==>
      exists i :: 0 <= i < |lines| && FlagPair(lines[i], targets) == Some((k, FlagTable(lines, targets)[k])) &&
        forall j :: i < j < |lines| ==> FlagPair(lines[j], targets).None? || FlagPair(lines[j], targets).value.0 != k
  {
    LastWinsSpec(lines, l => FlagPair(l, targets), k);
  }

  /** The flags of a declared file, none when it is undeclared or absent (`not path or not exists`). */
  function DeclaredFlags(fs: FileSystem, path: Option<string>, targets: set<string>): map<string, string>
  {
    match ReadDeclared(fs, path)
    case None => map[]
    case Some(lines) => FlagTable(lines, targets)
  }

  /** `parse_tvserv_flags`: the loop filling `out`. */
  method ParseFlags(fs: FileSystem, path: Option<string>, targets: set<string>) returns (out: map<string, string>)
    ensures out == DeclaredFlags(fs, path, targets)
    ensures ReadDeclared(fs, path).None? ==> out == map[]
  {
    out := map[];
    match ReadDeclared(fs, path) {
      case None =>
      case Some(lines) =>
        out := CollectLastWins(lines, l => FlagPair(l, targets));
    }
  }

  // ---------------------------------------------------------------- REQUIRED

  /** One entry of a REQUIRED table: the expected value, compared case-blind or verbatim after trimming. */
  datatype Rule = Rule(key: string, expected: string, foldCase: bool)

  /**
   * How `evaluate` compares a value with its entry.  The expected literals are
   * already trimmed and lower-case, so comparing with `expect.strip().lower()`
   * is comparing with `expected`.
   */
  predicate Meets(actual: string, rule: Rule)
  {
    if rule.foldCase then Lower(Strip(actual)) == rule.expected else Strip(actual) == rule.expected
  }

  predicate Satisfied(vals: map<string, string>, rule: Rule)
  {
    rule.key in vals && Meets(vals[rule.key], rule)
  }

  function MissingNote(key: string): string { "缺少 " + key }

  function MismatchNote(rule: Rule, actual: string): string
  {
    rule.key + " 不符 (expect " + rule.expected + ", got " + actual + ")"
  }

  /** The note one entry adds: none when it is met, else one naming the missing or mismatched key. */
  function RuleNotes(vals: map<string, string>, rule: Rule): (r: seq<string>)
    ensures r == [] <==> Satisfied(vals, rule)
    ensures rule.key !in vals ==> r == [MissingNote(rule.key)]
    ensures rule.key in vals && !Meets(vals[rule.key], rule) ==> r == [MismatchNote(rule, vals[rule.key])]
  {
    if rule.key !in vals then [MissingNote(rule.key)]
    else if !Meets(vals[rule.key], rule) then [MismatchNote(rule, vals[rule.key])]
    else []
  }

  /** The notes of `evaluate`, entry by entry in table order. */
  function Notes(vals: map<string, string>, rules: seq<Rule>): (r: seq<string>)
    ensures |r| <= |rules|
    decreases |rules|
  {
    if |rules| == 0 then [] else Notes(vals, rules[..|rules| - 1]) + RuleNotes(vals, rules[|rules| - 1])
  }

  /** No note at all exactly when every entry of the table is met. */
  lemma {:induction false} NotesEmpty(vals: map<string, string>, rules: seq<Rule>)
    ensures Notes(vals, rules) == [] <==> forall i :: 0 <= i < |rules| ==> Satisfied(vals, rules[i])
    decreases |rules|
  {
    if |rules| > 0 {
      var init, last := rules[..|rules| - 1], rules[|rules| - 1];
      NotesEmpty(vals, init);
      var a, b := Notes(vals, init), RuleNotes(vals, last);
      assert Notes(vals, rules) == a + b;
      assert (a + b == []) <==> (a == [] && b == []) by { assert |a + b| == |a| + |b|; }
      AllSnoc(rules, init, rule => Satisfied(vals, rule));
    }
  }

  /** A property holds of every element exactly when it holds of all but the last, and of the last. */
  lemma AllSnoc<T>(s: seq<T>, init: seq<T>, p: T -> bool)
    requires |s| > 0 && init == s[..|s| - 1]
    ensures (forall i :: 0 <= i < |s| ==> p(s[i])) <==>
      (forall i :: 0 <= i < |init| ==> p(init[i])) && p(s[|s| - 1])
  {
    assert forall i :: 0 <= i < |init| ==> init[i] == s[i];
  }

  /** `evaluate`: the loop over REQUIRED; passes iff no note was written. */
  method Evaluate(vals: map<string, string>, rules: seq<Rule>) returns (passed: bool, notes: seq<string>)
    ensures notes == Notes(vals, rules)
    ensures passed <==> notes == []
    ensures passed <==> forall i :: 0 <= i < |rules| ==> Satisfied(vals, rules[i])
  {
    notes := [];
    passed := true;
    var i := 0;
    while i < |rules|
      invariant 0 <= i <= |rules|
      invariant notes == Notes(vals, rules[..i])
      invariant passed <==> notes == []
    {
      var rule := rules[i];
      assert rules[..i + 1][..i] == rules[..i];
      if rule.key !in vals {
        notes := notes + [MissingNote(rule.key)];
        passed := false;
      } else if !Meets(vals[rule.key], rule) {
        notes := notes + [MismatchNote(rule, vals[rule.key])];
        passed := false;
      }
      i := i + 1;
    }
    assert rules[..|rules|] == rules;
    NotesEmpty(vals, rules);
  }

  // ---------------------------------------------------------------- decision flow

  datatype Outcome = Outcome(vals: map<string, string>, passed: bool, notes: seq<string>)

  /**
   * The decision of `main`/`run`: an undeclared path or an absent file fails
   * with one note naming it; otherwise the flags are read and evaluated.
   */
  method CheckDeclared(fs: FileSystem, path: Option<string>, what: string, targets: set<string>, rules: seq<Rule>)
    returns (r: Outcome)
    ensures path.None? ==> r == Outcome(map[], false, ["model.ini 未找到 " + what])
    ensures path.Some? && !Exists(fs, path.value) ==>
      r == Outcome(map[], false, [what + " 指向檔案不存在: " + path.value])
    ensures path.Some? && Exists(fs, path.value) ==>
      r.vals == DeclaredFlags(fs, path, targets) && r.notes == Notes(r.vals, rules)
    ensures r.passed <==> path.Some? && Exists(fs, path.value) && r.notes == []
    ensures r.passed <==>
      (path.Some? && Exists(fs, path.value) && forall i :: 0 <= i < |rules| ==> Satisfied(r.vals, rules[i]))
  {
    if path.None? {
      r := Outcome(map[], false, ["model.ini 未找到 " + what]);
    } else if !Exists(fs, path.value) {
      r := Outcome(map[], false, [what + " 指向檔案不存在: " + path.value]);
    } else {
      var vals := ParseFlags(fs, path, targets);
      var passed, notes := Evaluate(vals, rules);
      r := Outcome(vals, passed, notes);
    }
  }
}
