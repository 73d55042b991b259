/**
 * proj_sys_name_chk.py: two rewriting passes over a project tree.  The
 * first sets the `PROJECT_NAME =` line of every model file `1_*.ini` ...
 * `20_*.ini` to the file's own name; the second points every `Model_N`
 * line of the sys ini files, 1 <= N <= 20, at the first model file named
 * `N_*.ini`.  A file is read line by line, each line is rewritten or kept,
 * and the file is written back only when some line changed and the pass is
 * not a dry run.  The directory walks and the model directory listing are
 * parameters.
 */
module ProjSysName {
  import opened Wrappers
  import opened Text
  import opened Scan
  import opened Paths
  import opened Files
  import opened Dedup
  import opened Order

  // ---------------------------------------------------------------- rewriting one file

  /** A line as a text file's iteration yields it: non-empty, a "\n" only at its end, and no "\r". */
  predicate LineLike(x: string)
  {
    x != [] && '\n' !in x[..|x| - 1] && '\r' !in x
  }

  /** A rewrite of lines that keeps them line-like and keeps a line's final "\n". */
  ghost predicate KeepsLines(f: string -> string)
  {
    forall x :: LineLike(x) ==> LineLike(f(x)) && (x[|x| - 1] == '\n' ==> f(x)[|f(x)| - 1] == '\n')
  }

  /** A rewrite of lines that does nothing to a line it already rewrote. */
  ghost predicate Idempotent(f: string -> string)
  {
    forall x :: f(f(x)) == f(x)
  }

  /** What rewriting a file leaves: the tree, whether some line changed, and whether the file was written. */
  datatype Outcome = Outcome(fs: FileSystem, changed: bool, written: bool)

  /**
   * One file of either pass: its lines rewritten by `f`; the joined lines
   * replace the file exactly when some line changed and this is not a dry
   * run.  A file that cannot be read is passed over.
   */
  function RewriteFile(fs: FileSystem, p: string, f: string -> string, dryRun: bool): (r: Outcome)
    ensures r.written <==> r.changed && !dryRun
    ensures r.changed <==> IterLines(fs, p).Some? && exists i :: 0 <= i < |IterLines(fs, p).value| && f(IterLines(fs, p).value[i]) != IterLines(fs, p).value[i]
    ensures r.written ==> r.fs == fs[NormPath(p) := Flatten(MapSeq(IterLines(fs, p).value, f))]
    ensures !r.written ==> r.fs == fs
  {
    match IterLines(fs, p)
    case None => Outcome(fs, false, false)
    case Some(lines) =>
      var out := MapSeq(lines, f);
      var changed := out != lines;
      assert changed ==> exists i :: 0 <= i < |lines| && out[i] != lines[i];
      if changed && !dryRun then Outcome(fs[NormPath(p) := Flatten(out)], true, true)
      else Outcome(fs, changed, false)
  }

  /** The loop over a file's lines with its `modified` flag: the new lines, and whether one differs from the old. */
  method RewriteLines(lines: seq<string>, f: string -> string) returns (out: seq<string>, changed: bool)
    ensures out == MapSeq(lines, f)
    ensures changed <==> out != lines
  {
    out := [];
    changed := false;
    var i := 0;
    while i < |lines|
      invariant 0 <= i <= |lines|
      invariant out == MapSeq(lines[..i], f)
      invariant changed <==> exists k :: 0 <= k < i && f(lines[k]) != lines[k]
    {
      MapSeqSnoc(lines, i, f);
      var line := lines[i];
      var newLine := f(line);
      if line != newLine {
        changed := true;
      }
      out := out + [newLine];
      i := i + 1;
    }
    assert lines[..i] == lines;
    if !changed {
      assert forall k :: 0 <= k < |lines| ==> out[k] == lines[k];
    } else {
      var k :| 0 <= k < i && f(lines[k]) != lines[k];
      assert out[k] != lines[k];
    }
  }

  /** Rewriting one file: read it, rewrite its lines, and write them back when one changed and this is not a dry run. */
  method RewriteFileStep(fs: FileSystem, p: string, f: string -> string, dryRun: bool) returns (r: Outcome)
    ensures r == RewriteFile(fs, p, f, dryRun)
  {
    var read := IterLines(fs, p);
    if read.None? {
      return Outcome(fs, false, false);
    }
    var out, changed := RewriteLines(read.value, f);
    if changed && !dryRun {
      r := Outcome(fs[NormPath(p) := Flatten(out)], true, true);
    } else {
      r := Outcome(fs, changed, false);
    }
  }

  /** A file is only ever replaced, never created, and a rewrite touches no other file. */
  lemma RewriteFileFrame(fs: FileSystem, p: string, f: string -> string, dryRun: bool)
    ensures RewriteFile(fs, p, f, dryRun).fs.Keys == fs.Keys
    ensures forall k :: k in fs && k != NormPath(p) ==> RewriteFile(fs, p, f, dryRun).fs[k] == fs[k]
  {
    if RewriteFile(fs, p, f, dryRun).written {
      assert Exists(fs, p);
    }
  }

  /** The lines a text file yields are line-like. */
  lemma FileLinesLike(t: string)
    requires '\r' !in t
    ensures forall i :: 0 <= i < |FileLines(t)| ==> LineLike(FileLines(t)[i])
    ensures LineShaped(FileLines(t))
  {
    FileLinesShaped(t);
    FlattenFileLines(t);
    FlattenNoCR(FileLines(t));
  }

  /** Lines rewritten by a rewrite that keeps lines are still shaped as a file's lines. */
  lemma MapKeepsShape(lines: seq<string>, f: string -> string)
    requires KeepsLines(f) && LineShaped(lines) && forall i :: 0 <= i < |lines| ==> LineLike(lines[i])
    ensures LineShaped(MapSeq(lines, f)) && forall i :: 0 <= i < |lines| ==> LineLike(MapSeq(lines, f)[i])
  {
  }

  /** After a file is written, reading it again yields the rewritten lines. */
  lemma RewriteFileReadBack(fs: FileSystem, p: string, f: string -> string)
    requires KeepsLines(f)
    requires RewriteFile(fs, p, f, false).written
    ensures IterLines(RewriteFile(fs, p, f, false).fs, p) == Some(MapSeq(IterLines(fs, p).value, f))
  {
    var lines := IterLines(fs, p).value;
    FileLinesLike(Translate(fs[NormPath(p)]));
    var out := MapSeq(lines, f);
    MapKeepsShape(lines, f);
    FlattenNoCR(out);
    TranslateNoCR(Flatten(out));
    FileLinesFlatten(out);
  }

  /** A second run of an idempotent rewrite that keeps lines finds nothing to change. */
  lemma RewriteFileIdempotent(fs: FileSystem, p: string, f: string -> string)
    requires KeepsLines(f) && Idempotent(f)
    ensures var r := RewriteFile(fs, p, f, false); RewriteFile(r.fs, p, f, false) == Outcome(r.fs, false, false)
  {
    var r := RewriteFile(fs, p, f, false);
    if r.written {
      RewriteFileReadBack(fs, p, f);
      var out := MapSeq(IterLines(fs, p).value, f);
      assert forall i :: 0 <= i < |out| ==> f(out[i]) == out[i];
    }
  }

  /** A pass over the files of a walk: each is rewritten in turn by its own line rewrite. */
  function RewriteAll(fs: FileSystem, jobs: seq<(string, string -> string)>, dryRun: bool): FileSystem
    decreases |jobs|
  {
    if |jobs| == 0 then fs
    else
      var last := jobs[|jobs| - 1];
      RewriteFile(RewriteAll(fs, jobs[..|jobs| - 1], dryRun), last.0, last.1, dryRun).fs
  }

  /** A dry run writes nothing. */
  lemma {:induction false} DryRunUnchanged(fs: FileSystem, jobs: seq<(string, string -> string)>)
    ensures RewriteAll(fs, jobs, true) == fs
    decreases |jobs|
  {
    if |jobs| > 0 {
      DryRunUnchanged(fs, jobs[..|jobs| - 1]);
    }
  }

  /** A pass creates no file and changes only the files of its jobs. */
  lemma {:induction false} RewriteAllFrame(fs: FileSystem, jobs: seq<(string, string -> string)>, dryRun: bool, k: string)
    requires k in fs
    ensures RewriteAll(fs, jobs, dryRun).Keys == fs.Keys
    ensures (forall j :: 0 <= j < |jobs| ==> NormPath(jobs[j].0) != k) ==> RewriteAll(fs, jobs, dryRun)[k] == fs[k]
    decreases |jobs|
  {
    if |jobs| > 0 {
      var init := jobs[..|jobs| - 1];
      RewriteAllFrame(fs, init, dryRun, k);
      var last := jobs[|jobs| - 1];
      RewriteFileFrame(RewriteAll(fs, init, dryRun), last.0, last.1, dryRun);
    }
  }

  /** One more job extends a pass by one more file. */
  lemma RewriteAllSnoc<T>(fs: FileSystem, xs: seq<T>, i: nat, job: T -> Option<(string, string -> string)>, dryRun: bool)
    requires i < |xs|
    ensures RewriteAll(fs, Collect(xs[..i + 1], job), dryRun) ==
      (if job(xs[i]).Some? then RewriteFile(RewriteAll(fs, Collect(xs[..i], job), dryRun), job(xs[i]).value.0, job(xs[i]).value.1, dryRun).fs
       else RewriteAll(fs, Collect(xs[..i], job), dryRun))
  {
    CollectSnoc(xs, i, job);
    var init := Collect(xs[..i], job);
    if job(xs[i]).Some? {
      var js := init + [job(xs[i]).value];
      assert js[..|js| - 1] == init && js[|js| - 1] == job(xs[i]).value;
      assert Collect(xs[..i + 1], job) == js;
    } else {
      assert Collect(xs[..i + 1], job) == init;
    }
  }

  // ---------------------------------------------------------------- PROJECT_NAME of the model files

  const ProjectNameKey: string := "PROJECT_NAME ="

  /** The names the first pass takes: starting `1_` ... `20_` and ending in ".ini". */
  predicate ProjectFile(name: string)
  {
    (exists i :: 1 <= i <= 20 && StartsWith(name, NatToString(i) + "_")) && EndsWith(name, ".ini")
  }

  /** The line a model file named `<base>.ini` must hold. */
  function ProjectLine(base: string): string
  {
    ProjectNameKey + " " + base + ";\n"
  }

  /** A line is replaced by the file's project line when its stripped form starts with "PROJECT_NAME ="; every other line is kept. */
  function ProjectRewrite(base: string, line: string): (r: string)
    ensures r != line ==> StartsWith(Strip(line), ProjectNameKey) && r == ProjectLine(base)
    ensures StartsWith(Strip(line), ProjectNameKey) ==> r == ProjectLine(base)
  {
    if StartsWith(Strip(line), ProjectNameKey) then ProjectLine(base) else line
  }

  function ProjectRewriteFn(base: string): string -> string
  {
    line => ProjectRewrite(base, line)
  }

  /** The project line is itself a PROJECT_NAME line. */
  lemma ProjectLineKeyed(base: string)
    ensures StartsWith(Strip(ProjectLine(base)), ProjectNameKey)
  {
    var s := ProjectLine(base);
    assert s[0] == 'P' && !IsSpace('P');
    LStripSetFixed(s, Whitespace);
    var r := RStripSet(s, Whitespace);
    assert s[|s| - 2] == ';' && !IsSpace(';');
    assert r[..14] == s[..14];
  }

  /** Rewriting a PROJECT_NAME line twice is rewriting it once. */
  lemma ProjectRewriteIdempotent(base: string)
    ensures Idempotent(ProjectRewriteFn(base))
  {
    ProjectLineKeyed(base);
  }

  /** For a name without line breaks, the rewrite keeps lines. */
  lemma ProjectLineLike(base: string)
    requires '\n' !in base && '\r' !in base
    ensures LineLike(ProjectLine(base)) && ProjectLine(base)[|ProjectLine(base)| - 1] == '\n'
  {
    var s := ProjectLine(base);
    assert s[..|s| - 1] == ProjectNameKey + " " + base + ";";
  }

  /** For a name without line breaks, the rewrite keeps lines. */
  lemma ProjectRewriteKeepsLines(base: string)
    requires '\n' !in base && '\r' !in base
    ensures KeepsLines(ProjectRewriteFn(base))
  {
    ProjectLineLike(base);
  }

  /** The job of a file the walk of the model directory yields, when its name is one the pass takes. */
  function ProjectJob(entry: (string, string)): Option<(string, string -> string)>
  {
    if ProjectFile(entry.1) then Some((Join(entry.0, entry.1), ProjectRewriteFn(SplitExt(entry.1).0))) else None
  }

  function ProjectJobFn(): ((string, string)) -> Option<(string, string -> string)>
  {
    e => ProjectJob(e)
  }

  /** `update_project_name_in_model`: the walk's (directory, name) pairs in the order `os.walk` yields them. */
  method UpdateProjectNameInModel(fs: FileSystem, walk: seq<(string, string)>, dryRun: bool) returns (after: FileSystem)
    ensures after == RewriteAll(fs, Collect(walk, ProjectJobFn()), dryRun)
  {
    after := fs;
    var i := 0;
    while i < |walk|
      invariant 0 <= i <= |walk|
      invariant after == RewriteAll(fs, Collect(walk[..i], ProjectJobFn()), dryRun)
    {
      RewriteAllSnoc(fs, walk, i, ProjectJobFn(), dryRun);
      var (dir, name) := walk[i];
      if ProjectFile(name) {
        var r := RewriteFileStep(after, Join(dir, name), ProjectRewriteFn(SplitExt(name).0), dryRun);
        after := r.fs;
      }
      i := i + 1;
    }
    assert walk[..i] == walk;
  }

  /** Running the first pass on a model file a second time changes nothing, when its name has no line break. */
  lemma ProjectFileIdempotent(fs: FileSystem, p: string, base: string)
    requires '\n' !in base && '\r' !in base
    ensures var r := RewriteFile(fs, p, ProjectRewriteFn(base), false);
      RewriteFile(r.fs, p, ProjectRewriteFn(base), false) == Outcome(r.fs, false, false)
  {
    ProjectRewriteKeepsLines(base);
    ProjectRewriteIdempotent(base);
    RewriteFileIdempotent(fs, p, ProjectRewriteFn(base));
  }

  /** Only the files of names starting `1_` ... `20_` and ending in ".ini" are rewritten. */
  lemma ProjectJobsNamed(walk: seq<(string, string)>, j: nat)
    requires j < |Collect(walk, ProjectJobFn())|
    ensures exists e :: e in walk && ProjectFile(e.1) && Collect(walk, ProjectJobFn())[j].0 == Join(e.0, e.1)
  {
    CollectExact(walk, ProjectJobFn());
    var k :| 0 <= k < |walk| && ProjectJobFn()(walk[k]) == Some(Collect(walk, ProjectJobFn())[j]);
    assert walk[k] in walk;
  }

  // ---------------------------------------------------------------- Model_N of the sys files

  const ModelTag: string := "Model_"
  const MaxModel: nat := 20

  /** The base names `glob("<model_dir>/<idx>_*.ini")` matches. */
  predicate ModelGlob(idx: nat, name: string)
  {
    var p := NatToString(idx) + "_";
    |name| >= |p| + 4 && StartsWith(name, p) && EndsWith(name, ".ini")
  }

  /**
   * `_pick_model_filename`: the first of the sorted matches, that is the
   * least name of the listing that the pattern matches, or None when there
   * is none.
   */
  function PickModelFilename(names: seq<string>, idx: nat): (r: Option<string>)
    ensures r.None? <==> forall n :: n in names ==> !ModelGlob(idx, n)
    ensures r.Some? ==> r.value in names && ModelGlob(idx, r.value) && forall n :: n in names && ModelGlob(idx, n) ==> !StringLess(n, r.value)
    decreases |names|
  {
    if |names| == 0 then None
    else
      var init := names[..|names| - 1];
      var x := names[|names| - 1];
      assert forall n :: n in names ==> n in init || n == x;
      var r := PickModelFilename(init, idx);
      if !ModelGlob(idx, x) then r
      else if r.None? || StringLess(x, r.value) then
        (StringLessStrictTotal(); Some(x))
      else
        (StringLessTotal(x, r.value); r)
  }

  /** Sorting the matched paths of one directory orders them as their names. */
  lemma {:induction false} StringLessSamePrefix(p: string, a: string, b: string)
    ensures StringLess(p + a, p + b) <==> StringLess(a, b)
    decreases |p|
  {
    if |p| > 0 {
      assert (p + a)[0] == (p + b)[0];
      assert (p + a)[1..] == p[1..] + a && (p + b)[1..] == p[1..] + b;
      StringLessSamePrefix(p[1..], a, b);
    } else {
      assert p + a == a && p + b == b;
    }
  }

  /** `index_to_filename`: the picked model file of every index from 1 to 20. */
  function IndexTable(names: seq<string>): (t: map<nat, Option<string>>)
    ensures forall i: nat :: i in t <==> 1 <= i <= MaxModel
  {
    map i: nat | 1 <= i <= MaxModel :: PickModelFilename(names, i)
  }

  /** The digits `^\s*Model_(\d+)\s*=` captures, when the line matches. */
  function ModelDigits(line: string): (r: Option<string>)
    ensures r.Some? ==> r.value != "" && AllDigits(r.value)
  {
    var i := SkipSet(line, 0, Whitespace);
    if !OccursAt(line, ModelTag, i) then None
    else
      var d := LeadingDigits(line[i + 6..]);
      if d == "" then None
      else
        var j := SkipSet(line, i + 6 + |d|, Whitespace);
        if j < |line| && line[j] == '=' then Some(d) else None
  }

  /** `int(m.group(1))` of a matching line. */
  function ModelIndex(line: string): Option<nat>
  {
    match ModelDigits(line)
    case None => None
    case Some(d) => Some(DigitsValue(d))
  }

  /** The line that points Model_idx at a model file. */
  function ModelLine(idx: nat, name: string): string
  {
    ModelTag + NatToString(idx) + " = \"/tvconfigs/model/" + name + "\"\n"
  }

  /** A Model_N line, 1 <= N <= 20, with a model file for N becomes the line for that file; every other line is kept. */
  function ModelRewrite(table: map<nat, Option<string>>, line: string): (r: string)
    ensures r != line ==> ModelIndex(line).Some? && 1 <= ModelIndex(line).value <= MaxModel
    ensures r != line ==> ModelIndex(line).value in table && table[ModelIndex(line).value].Some?
    ensures r != line ==> r == ModelLine(ModelIndex(line).value, table[ModelIndex(line).value].value)
    ensures (ModelIndex(line).Some? && 1 <= ModelIndex(line).value <= MaxModel &&
             ModelIndex(line).value in table && table[ModelIndex(line).value].Some?) ==>
      r == ModelLine(ModelIndex(line).value, table[ModelIndex(line).value].value)
  {
    var m := ModelIndex(line);
    if m.Some? && 1 <= m.value <= MaxModel && m.value in table && table[m.value].Some? then ModelLine(m.value, table[m.value].value)
    else line
  }

  function ModelRewriteFn(table: map<nat, Option<string>>): string -> string
  {
    line => ModelRewrite(table, line)
  }

  /** A line that opens with `Model_`, digits, a blank and '=' matches with the digits' value. */
  lemma ModelIndexAt(s: string, d: string)
    requires 8 + |d| <= |s| && d != "" && AllDigits(d)
    requires s[..6] == ModelTag && s[6..6 + |d|] == d && s[6 + |d|] == ' ' && s[7 + |d|] == '='
    ensures ModelDigits(s) == Some(d)
  {
    assert s[0] == 'M' && !IsSpace('M');
    SkipSetAt(s, 0, 0, Whitespace);
    assert OccursAt(s, ModelTag, 0);
    DigitsThenBlank(s[6..], d);
    var j := 6 + |d|;
    BlankThenEquals();
    assert s[j] in Whitespace && s[j + 1] !in Whitespace;
    SkipSetAt(s, j, j + 1, Whitespace);
  }

  /** Digits followed by a blank are the leading digits. */
  lemma DigitsThenBlank(t: string, d: string)
    requires |d| < |t| && t[..|d|] == d && AllDigits(d) && t[|d|] == ' '
    ensures LeadingDigits(t) == d
  {
    LeadingDigitsExact(t, d);
  }

  lemma BlankThenEquals()
    ensures ' ' in Whitespace && '=' !in Whitespace
  {
    assert IsSpace(' ') && !IsSpace('=');
  }

  /** The line written for Model_idx reads back as Model_idx. */
  lemma ModelLineIndex(idx: nat, name: string)
    ensures ModelIndex(ModelLine(idx, name)) == Some(idx)
  {
    var s := ModelLine(idx, name);
    var d := NatToString(idx);
    assert s[..6] == ModelTag && s[6..6 + |d|] == d && s[6 + |d|] == ' ' && s[7 + |d|] == '=';
    ModelIndexAt(s, d);
  }

  /** The line written for Model_idx is a line ending in "\n" when the name has no line break. */
  lemma ModelLineLike(idx: nat, name: string)
    requires '\n' !in name && '\r' !in name
    ensures LineLike(ModelLine(idx, name)) && ModelLine(idx, name)[|ModelLine(idx, name)| - 1] == '\n'
  {
    var s := ModelLine(idx, name);
    var d := NatToString(idx);
    assert '\n' !in d && '\r' !in d;
    assert s[..|s| - 1] == ModelTag + d + " = \"/tvconfigs/model/" + name + "\"";
  }

  /** Rewriting a Model_N line twice is rewriting it once. */
  lemma ModelRewriteIdempotent(table: map<nat, Option<string>>)
    ensures Idempotent(ModelRewriteFn(table))
  {
    forall x ensures ModelRewrite(table, ModelRewrite(table, x)) == ModelRewrite(table, x) {
      var r := ModelRewrite(table, x);
      if r != x {
        ModelLineIndex(ModelIndex(x).value, table[ModelIndex(x).value].value);
      }
    }
  }

  /** For model file names without line breaks, the rewrite keeps lines. */
  lemma ModelRewriteKeepsLines(table: map<nat, Option<string>>)
    requires forall i :: i in table && table[i].Some? ==> '\n' !in table[i].value && '\r' !in table[i].value
    ensures KeepsLines(ModelRewriteFn(table))
  {
    var f := ModelRewriteFn(table);
    forall x | LineLike(x)
      ensures LineLike(f(x)) && (x[|x| - 1] == '\n' ==> f(x)[|f(x)| - 1] == '\n')
    {
      ModelRewriteLine(table, x);
    }
  }

  /** One line: a rewritten line is a whole `Model_N = "..."` line, so it stays line-like and keeps its final "\n". */
  lemma ModelRewriteLine(table: map<nat, Option<string>>, x: string)
    requires forall i :: i in table && table[i].Some? ==> '\n' !in table[i].value && '\r' !in table[i].value
    requires LineLike(x)
    ensures var r := ModelRewrite(table, x);
      LineLike(r) && (x[|x| - 1] == '\n' ==> r[|r| - 1] == '\n')
  {
    if ModelRewrite(table, x) != x {
      ModelLineLike(ModelIndex(x).value, table[ModelIndex(x).value].value);
    }
  }

  /** The names the second pass takes: ending in ".ini" in any case. */
  predicate SysFile(name: string)
  {
    EndsWith(Lower(name), ".ini")
  }

  function SysJob(table: map<nat, Option<string>>, entry: (string, string)): Option<(string, string -> string)>
  {
    if SysFile(entry.1) then Some((Join(entry.0, entry.1), ModelRewriteFn(table))) else None
  }

  function SysJobFn(table: map<nat, Option<string>>): ((string, string)) -> Option<(string, string -> string)>
  {
    e => SysJob(table, e)
  }

  /**
   * `update_sys_models`: `names` is the listing of the model directory the
   * pattern is matched against, `walk` the (directory, name) pairs of the
   * sys directory in the order `os.walk` yields them.
   */
  method UpdateSysModels(fs: FileSystem, names: seq<string>, walk: seq<(string, string)>, dryRun: bool) returns (after: FileSystem)
    ensures after == RewriteAll(fs, Collect(walk, SysJobFn(IndexTable(names))), dryRun)
  {
    var table := IndexTable(names);
    after := fs;
    var i := 0;
    while i < |walk|
      invariant 0 <= i <= |walk|
      invariant after == RewriteAll(fs, Collect(walk[..i], SysJobFn(table)), dryRun)
    {
      RewriteAllSnoc(fs, walk, i, SysJobFn(table), dryRun);
      var (dir, name) := walk[i];
      if SysFile(name) {
        var r := RewriteFileStep(after, Join(dir, name), ModelRewriteFn(table), dryRun);
        after := r.fs;
      }
      i := i + 1;
    }
    assert walk[..i] == walk;
  }

  /** Running the second pass on a sys file a second time changes nothing, when the model file names have no line break. */
  lemma SysFileIdempotent(fs: FileSystem, p: string, names: seq<string>)
    requires forall n :: n in names ==> '\n' !in n && '\r' !in n
    ensures var r := RewriteFile(fs, p, ModelRewriteFn(IndexTable(names)), false);
      RewriteFile(r.fs, p, ModelRewriteFn(IndexTable(names)), false) == Outcome(r.fs, false, false)
  {
    var table := IndexTable(names);
    ModelRewriteKeepsLines(table);
    ModelRewriteIdempotent(table);
    RewriteFileIdempotent(fs, p, ModelRewriteFn(table));
  }
}
