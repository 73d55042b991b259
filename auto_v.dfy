/**
 * auto_v.py: the command-line predecessor of the path checker.  It scans the
 * project's ini files for `/tvconfigs/...` references of interest, resolves
 * them under the project root and lists those whose file is missing.  The
 * path helpers (sanitising, the extension filter, prefix resolution) are the
 * ones of module TvPaths; the scan keeps a plainer Ref.
 */
module AutoV {
  import opened Wrappers
  import opened Text
  import opened Files
  import opened Dedup
  import opened TvPaths
  import opened TvconfigsPathCheck

  const LinePreviewLimit: nat := 200

  /** A reference found on a line: the file, the line number, a preview of the line, the path as written and where it resolves. */
  datatype LineRef = LineRef(iniFile: string, lineNo: nat, linePreview: string, rawTvPath: string, resolvedPath: string)

  /** The LineRef a found reference makes on line `n`: only one of interest that resolves makes one. */
  function FoundRef(ini: string, o: Setup, n: nat, preview: string, tv: string): Option<LineRef>
  {
    if !FileOfInterest(tv, o.exts) then None
    else
      match ResolveToProject(o.root, tv, o.prefixMap)
      case None => None
      case Some(p) => Some(LineRef(ini, n, preview, tv, p))
  }

  function FoundFn(ini: string, o: Setup, n: nat, preview: string): string -> Option<LineRef>
  {
    tv => FoundRef(ini, o, n, preview, tv)
  }

  /**
   * The LineRefs of line `n` as the file iterator yields it: none when the
   * stripped line is blank or a comment, else one per reference in the
   * stripped line that passes, previewed by the line's first 200 characters.
   */
  function LineRefsOf(ini: string, o: Setup, n: nat, raw: string): seq<LineRef>
  {
    var line := Strip(raw);
    if Skipped(raw) then []
    else Collect(TvPathsIn(line), FoundFn(ini, o, n, Head(line, LinePreviewLimit)))
  }

  function LineRefsFn(ini: string, o: Setup): ((nat, string)) -> seq<LineRef>
  {
    (p: (nat, string)) => LineRefsOf(ini, o, p.0, p.1)
  }

  /** The LineRefs of an ini file, line by line. */
  function FileRefs(fs: FileSystem, ini: string, o: Setup): seq<LineRef>
    requires Exists(fs, ini)
  {
    Concat(Numbered(IterLines(fs, ini).value), LineRefsFn(ini, o))
  }

  /** One line of `scan_ini_for_tv_paths`. */
  method ScanRawLine(ini: string, o: Setup, n: nat, raw: string) returns (refs: seq<LineRef>)
    ensures refs == LineRefsOf(ini, o, n, raw)
  {
    var line := Strip(raw);
    if line == "" || line[0] == '#' || line[0] == ';' {
      return [];
    }
    var matches := TvPathsIn(line);
    if matches == [] {
      return [];
    }
    var preview := Head(line, LinePreviewLimit);
    refs := AppendCollected([], matches, FoundFn(ini, o, n, preview));
  }

  /** `scan_ini_for_tv_paths(ini, root, exts, prefix_map)` on an existing file. */
  method ScanIni(fs: FileSystem, ini: string, o: Setup) returns (refs: seq<LineRef>)
    requires Exists(fs, ini)
    ensures refs == FileRefs(fs, ini, o)
  {
    var lines := IterLines(fs, ini).value;
    var numbered := Numbered(lines);
    refs := [];
    var i := 0;
    while i < |lines|
      invariant 0 <= i <= |lines|
      invariant refs == Concat(numbered[..i], LineRefsFn(ini, o))
    {
      ConcatSnoc(numbered, i, LineRefsFn(ini, o));
      var more := ScanRawLine(ini, o, i + 1, lines[i]);
      refs := refs + more;
      i := i + 1;
    }
    assert numbered[..|lines|] == numbered;
  }

  /**
   * Where a LineRef comes from: a line of the file that is not blank or a
   * comment, one of the references in that stripped line, previewed by at
   * most 200 characters of it; the reference is of interest and resolves to
   * the LineRef's path.
   */
  predicate FromLine(ini: string, o: Setup, lines: seq<string>, r: LineRef)
  {
    1 <= r.lineNo <= |lines| &&
    (var line := Strip(lines[r.lineNo - 1]);
     !Skipped(lines[r.lineNo - 1]) && r.rawTvPath in TvPathsIn(line) && r.linePreview == Head(line, LinePreviewLimit)) &&
    r.iniFile == ini && |r.linePreview| <= LinePreviewLimit &&
    FileOfInterest(r.rawTvPath, o.exts) && ResolveToProject(o.root, r.rawTvPath, o.prefixMap) == Some(r.resolvedPath)
  }

  /** What a line's LineRefs carry. */
  lemma LineRefsOfOrigin(ini: string, o: Setup, lines: seq<string>, i: nat, r: LineRef)
    requires i < |lines| && r in LineRefsOf(ini, o, i + 1, lines[i])
    ensures FromLine(ini, o, lines, r) && r.lineNo == i + 1
  {
    var line := Strip(lines[i]);
    var ms := TvPathsIn(line);
    var preview := Head(line, LinePreviewLimit);
    var f := FoundFn(ini, o, i + 1, preview);
    assert !Skipped(lines[i]) && r in Collect(ms, f);
    CollectOrigin(ms, f, r);
    var k :| 0 <= k < |ms| && f(ms[k]) == Some(r);
    FoundRefIs(ini, o, i + 1, preview, ms[k], r);
    assert ms[k] in ms;
  }

  /** A found reference carries the file, line, preview and reference it was made from, and its resolution. */
  lemma FoundRefIs(ini: string, o: Setup, n: nat, preview: string, tv: string, r: LineRef)
    requires FoundRef(ini, o, n, preview, tv) == Some(r)
    ensures r.iniFile == ini && r.lineNo == n && r.linePreview == preview && r.rawTvPath == tv
    ensures FileOfInterest(tv, o.exts) && ResolveToProject(o.root, tv, o.prefixMap) == Some(r.resolvedPath)
  {
  }

  /** Every LineRef of a file comes from one of its lines as `FromLine` says; so blank and comment lines give none. */
  lemma FileRefsFrom(fs: FileSystem, ini: string, o: Setup)
    requires Exists(fs, ini)
    ensures forall r :: r in FileRefs(fs, ini, o) ==> FromLine(ini, o, IterLines(fs, ini).value, r)
  {
    var lines := IterLines(fs, ini).value;
    var p := (r: LineRef) => FromLine(ini, o, lines, r);
    forall i, j | 0 <= i < |Numbered(lines)| && 0 <= j < |LineRefsFn(ini, o)(Numbered(lines)[i])|
      ensures p(LineRefsFn(ini, o)(Numbered(lines)[i])[j])
    {
      var r := LineRefsFn(ini, o)(Numbered(lines)[i])[j];
      assert r in LineRefsOf(ini, o, i + 1, lines[i]);
      LineRefsOfOrigin(ini, o, lines, i, r);
    }
    ConcatEvery(Numbered(lines), LineRefsFn(ini, o), p);
  }

  /** Conversely, every reference of interest that resolves, on a line that is not skipped, gives a LineRef. */
  lemma FileRefsComplete(fs: FileSystem, ini: string, o: Setup, i: nat, tv: string)
    requires Exists(fs, ini) && i < |IterLines(fs, ini).value|
    requires var raw := IterLines(fs, ini).value[i];
      !Skipped(raw) && tv in TvPathsIn(Strip(raw)) && FileOfInterest(tv, o.exts) && ResolveToProject(o.root, tv, o.prefixMap).Some?
    ensures var line := Strip(IterLines(fs, ini).value[i]);
      LineRef(ini, i + 1, Head(line, LinePreviewLimit), tv, ResolveToProject(o.root, tv, o.prefixMap).value) in FileRefs(fs, ini, o)
  {
    var lines := IterLines(fs, ini).value;
    var line := Strip(lines[i]);
    var ms := TvPathsIn(line);
    var f := FoundFn(ini, o, i + 1, Head(line, LinePreviewLimit));
    var k :| 0 <= k < |ms| && ms[k] == tv;
    CollectExact(ms, f);
    assert f(ms[k]).value in LineRefsFn(ini, o)(Numbered(lines)[i]);
    ConcatHas(Numbered(lines), i, LineRefsFn(ini, o), f(ms[k]).value);
  }

  /** The LineRefs of all ini files, in the order the directory walk yields them. */
  function AllRefs(fs: FileSystem, inis: seq<string>, o: Setup): seq<LineRef>
    requires forall ini :: ini in inis ==> Exists(fs, ini)
    decreases |inis|
  {
    if |inis| == 0 then [] else AllRefs(fs, inis[..|inis| - 1], o) + FileRefs(fs, inis[|inis| - 1], o)
  }

  /** `missing`: the LineRefs whose resolved file does not exist, in order. */
  function Missing(fs: FileSystem, refs: seq<LineRef>): (m: seq<LineRef>)
    ensures forall r :: r in m <==> r in refs && !Exists(fs, r.resolvedPath)
    ensures Subsequence(m, refs)
  {
    Keep(refs, (r: LineRef) => !Exists(fs, r.resolvedPath))
  }

  /** The scan of `main`: every ini file's LineRefs in turn, then those whose file is missing. */
  method ScanAll(fs: FileSystem, inis: seq<string>, o: Setup) returns (all: seq<LineRef>, missing: seq<LineRef>)
    requires forall ini :: ini in inis ==> Exists(fs, ini)
    ensures all == AllRefs(fs, inis, o)
    ensures missing == Missing(fs, all)
  {
    all := [];
    var i := 0;
    while i < |inis|
      invariant 0 <= i <= |inis|
      invariant all == AllRefs(fs, inis[..i], o)
    {
      assert inis[..i + 1][..i] == inis[..i];
      assert inis[i] in inis;
      var more := ScanIni(fs, inis[i], o);
      all := all + more;
      i := i + 1;
    }
    assert inis[..|inis|] == inis;
    missing := Missing(fs, all);
  }

  /** Every LineRef found comes from a line of one of the files scanned. */
  lemma {:induction false} AllRefsFrom(fs: FileSystem, inis: seq<string>, o: Setup, r: LineRef)
    requires forall ini :: ini in inis ==> Exists(fs, ini)
    requires r in AllRefs(fs, inis, o)
    ensures r.iniFile in inis && FromLine(r.iniFile, o, IterLines(fs, r.iniFile).value, r)
    decreases |inis|
  {
    var last := inis[|inis| - 1];
    assert last in inis;
    if r in FileRefs(fs, last, o) {
      FileRefsFrom(fs, last, o);
    } else {
      assert forall ini :: ini in inis[..|inis| - 1] ==> ini in inis;
      AllRefsFrom(fs, inis[..|inis| - 1], o, r);
    }
  }

  /** A missing LineRef is a reference of interest, found on a scanned line, whose resolved file does not exist. */
  lemma MissingFrom(fs: FileSystem, inis: seq<string>, o: Setup, r: LineRef)
    requires forall ini :: ini in inis ==> Exists(fs, ini)
    requires r in Missing(fs, AllRefs(fs, inis, o))
    ensures r.iniFile in inis && FromLine(r.iniFile, o, IterLines(fs, r.iniFile).value, r) && !Exists(fs, r.resolvedPath)
  {
    AllRefsFrom(fs, inis, o, r);
  }
}
