/**
 * tvconfigs_path_check.py: scan the project's ini files for `/tvconfigs/...`
 * references, report which resolved files are missing, and optionally
 * comment out, in place, the lines that reference a missing file.
 */
module TvconfigsPathCheck {
  import opened Wrappers
  import opened Text
  import opened Paths
  import opened Files
  import opened Dedup
  import opened Order
  import opened TvPaths
  import Ini

  const KeyLimit: nat := 120
  const PreviewLimit: nat := 200

  // ---------------------------------------------------------------- key/value preview

  /**
   * `parse_key_value_preview(line)` on a line without '\n': the trimmed key
   * and the first 200 characters of the trimmed value when KEYVAL_RE matches
   * the stripped line, and otherwise no key and the first 200 characters of
   * the stripped line.
   */
  function ParseKeyValuePreview(line: string): (r: (string, string))
    ensures |r.1| <= PreviewLimit
    ensures KeyEq(Strip(line), KeyLimit).None? ==> r == ("", Head(Strip(line), PreviewLimit))
    ensures KeyEq(Strip(line), KeyLimit).Some? ==> r.0 != "" && '=' !in r.0 && Strip(r.0) == r.0
  {
    PreviewOfStripped(Strip(line))
  }

  /** The preview of an already stripped line `s`. */
  function PreviewOfStripped(s: string): (r: (string, string))
    ensures |r.1| <= PreviewLimit
    ensures KeyEq(s, KeyLimit).None? ==> r == ("", Head(s, PreviewLimit))
    ensures KeyEq(s, KeyLimit).Some? ==> r.0 != "" && '=' !in r.0 && Strip(r.0) == r.0
  {
    match KeyEq(s, KeyLimit)
    case None => ("", Head(s, PreviewLimit))
    case Some((k, e)) =>
      var key := Strip(s[k..e]);
      Ini.NotInStrip(s[k..e], '=');
      StripSetIdempotent(s[k..e], Whitespace);
      LStripSetFixed(s[k..e], Whitespace);
      assert s[k..e][0] == s[k];
      (key, ValuePreview(s, e))
  }

  /** The first 200 characters of the trimmed text after the '=' at `e`. */
  function ValuePreview(s: string, e: nat): (r: string)
    requires e < |s|
    ensures |r| <= PreviewLimit
    ensures |Strip(s[e + 1..])| <= PreviewLimit ==> r == Strip(s[e + 1..])
  {
    Head(Strip(s[e + 1..]), PreviewLimit)
  }

  /** A `key=value` line whose key and value need no trimming reports that key and the value's first 200 characters. */
  lemma PreviewOfPlainPair(key: string, v: string)
    requires key != [] && key[0] !in Whitespace + KeyStartStops && key[|key| - 1] !in Whitespace
    requires '=' !in key && |key| <= KeyLimit + 1
    requires v != [] && v[0] !in Whitespace && v[|v| - 1] !in Whitespace
    ensures ParseKeyValuePreview(key + "=" + v).0 == key
    ensures ParseKeyValuePreview(key + "=" + v).1 == Head(v, PreviewLimit)
  {
    PreviewKeyOfPair(key, v);
    PreviewValueOfPair(key, v);
  }

  /** The key half of PreviewOfPlainPair; the value is previewed from just after the '='. */
  lemma PreviewKeyOfPair(key: string, v: string)
    requires key != [] && key[0] !in Whitespace + KeyStartStops && key[|key| - 1] !in Whitespace
    requires '=' !in key && |key| <= KeyLimit + 1
    requires v != [] && v[|v| - 1] !in Whitespace
    ensures |key| < |key + "=" + v|
    ensures ParseKeyValuePreview(key + "=" + v).0 == key
    ensures ParseKeyValuePreview(key + "=" + v).1 == ValuePreview(key + "=" + v, |key|)
  {
    KeyEqCompact(key, v, KeyLimit);
    KeyPairUnstripped(key, v, Whitespace);
    PreviewOfUnstripped(key + "=" + v, key);
  }

  /** A `key=value` line that starts and ends outside the stripped set needs no trimming, nor does its key. */
  lemma KeyPairUnstripped(key: string, v: string, cs: set<char>)
    requires key != [] && key[0] !in cs && key[|key| - 1] !in cs
    requires v != [] && v[|v| - 1] !in cs
    ensures var s := key + "=" + v; StripSet(s, cs) == s && s[0..|key|] == key && StripSet(key, cs) == key
  {
    PairUnstripped(key, v, cs);
    PairParts(key, v);
    StripSetFixed(key, cs);
  }

  /** The value half of PreviewOfPlainPair. */
  lemma PreviewValueOfPair(key: string, v: string)
    requires v != [] && v[0] !in Whitespace && v[|v| - 1] !in Whitespace
    ensures ValuePreview(key + "=" + v, |key|) == Head(v, PreviewLimit)
  {
    PairParts(key, v);
    StripSetFixed(v, Whitespace);
    ValuePreviewOfPlain(key + "=" + v, |key|, v);
  }

  /** A line that needs no trimming previews as its stripped form does. */
  lemma PreviewOfUnstripped(s: string, key: string)
    requires Strip(s) == s && KeyEq(s, KeyLimit).Some? && KeyEq(s, KeyLimit).value.0 == 0 && KeyEq(s, KeyLimit).value.1 == |key|
    requires s[0..|key|] == key && Strip(key) == key
    ensures ParseKeyValuePreview(s).0 == key && ParseKeyValuePreview(s).1 == ValuePreview(s, |key|)
  {
    PreviewAt(s, key);
  }

  /** A stripped line with a plain key at its start previews as that key and its value. */
  lemma PreviewAt(s: string, key: string)
    requires KeyEq(s, KeyLimit).Some? && KeyEq(s, KeyLimit).value.0 == 0 && KeyEq(s, KeyLimit).value.1 == |key|
    requires s[0..|key|] == key && Strip(key) == key
    ensures PreviewOfStripped(s) == (key, ValuePreview(s, |key|))
  {
    PreviewWithKey(s, 0, |key|);
  }

  /** A value that needs no trimming previews as its own first 200 characters. */
  lemma ValuePreviewOfPlain(s: string, e: nat, v: string)
    requires e < |s| && s[e + 1..] == v && Strip(v) == v
    ensures ValuePreview(s, e) == Head(v, PreviewLimit)
  {
  }

  /** A stripped line that KEYVAL_RE matches previews as the trimmed key and value. */
  lemma PreviewWithKey(s: string, k: nat, e: nat)
    requires KeyEq(s, KeyLimit).Some? && KeyEq(s, KeyLimit).value.0 == k && KeyEq(s, KeyLimit).value.1 == e
    ensures PreviewOfStripped(s) == (Strip(s[k..e]), ValuePreview(s, e))
  {
  }

  /** `key=v` is left alone by a strip when its first and last characters are. */
  lemma PairUnstripped(key: string, v: string, cs: set<char>)
    requires key != [] && key[0] !in cs && v != [] && v[|v| - 1] !in cs
    ensures StripSet(key + "=" + v, cs) == key + "=" + v
  {
    var s := key + "=" + v;
    assert s[0] == key[0] && s[|s| - 1] == v[|v| - 1];
    StripSetFixed(s, cs);
  }

  lemma PairParts(key: string, v: string)
    ensures var s := key + "=" + v; s[0..|key|] == key && s[|key| + 1..] == v
  {
  }

  // ---------------------------------------------------------------- scanning

  datatype Ref = Ref(iniFile: string, lineNo: nat, key: string, valuePreview: string,
                     rawTvPath: string, resolvedPath: string, present: bool)

  /** What a scan is given besides the file: the project root, the extensions to check and the prefix map. */
  datatype Setup = Setup(root: string, exts: set<string>, prefixMap: seq<(string, string)>)

  /** A blank or comment line, which the scanner passes over: stripped, it is empty or starts with '#' or ';'. */
  predicate Skipped(line: string)
  {
    var s := Strip(line);
    s == "" || s[0] == '#' || s[0] == ';'
  }

  /** The Ref a found reference makes on line `n`: only one of interest that resolves makes one. */
  function PathRef(fs: FileSystem, ini: string, o: Setup, n: nat, key: string, preview: string, tv: string): Option<Ref>
  {
    if !FileOfInterest(tv, o.exts) then None
    else
      match ResolveToProject(o.root, tv, o.prefixMap)
      case None => None
      case Some(p) => Some(Ref(ini, n, key, preview, tv, p, Exists(fs, p)))
  }

  function PathFn(fs: FileSystem, ini: string, o: Setup, n: nat, key: string, preview: string): string -> Option<Ref>
  {
    tv => PathRef(fs, ini, o, n, key, preview, tv)
  }

  /** The Refs of line `n` as the file iterator yields it, with its newline. */
  function LineRefs(fs: FileSystem, ini: string, o: Setup, n: nat, raw: string): seq<Ref>
  {
    var line := ChompNewline(raw);
    if Skipped(line) then []
    else
      var kp := ParseKeyValuePreview(line);
      Collect(TvPathsIn(line), PathFn(fs, ini, o, n, kp.0, kp.1))
  }

  function LineFn(fs: FileSystem, ini: string, o: Setup): ((nat, string)) -> seq<Ref>
  {
    (p: (nat, string)) => LineRefs(fs, ini, o, p.0, p.1)
  }

  /** `enumerate(lines, start=1)`. */
  function Numbered(lines: seq<string>): (r: seq<(nat, string)>)
    ensures |r| == |lines| && forall i :: 0 <= i < |lines| ==> r[i] == (i + 1, lines[i])
  {
    seq(|lines|, i requires 0 <= i < |lines| => (i + 1, lines[i]))
  }

  /** The Refs of an ini file, line by line. */
  function IniRefs(fs: FileSystem, ini: string, o: Setup): seq<Ref>
    requires Exists(fs, ini)
  {
    Concat(Numbered(IterLines(fs, ini).value), LineFn(fs, ini, o))
  }

  /** The Refs of one line: none on a blank or comment line, else one per reference that passes. */
  method ScanLine(fs: FileSystem, ini: string, o: Setup, n: nat, raw: string) returns (refs: seq<Ref>)
    ensures refs == LineRefs(fs, ini, o, n, raw)
  {
    var line := ChompNewline(raw);
    var striped := Strip(line);
    if striped == "" || striped[0] == '#' || striped[0] == ';' {
      return [];
    }
    var matches := TvPathsIn(line);
    if matches == [] {
      return [];
    }
    var kp := ParseKeyValuePreview(line);
    refs := AppendCollected([], matches, PathFn(fs, ini, o, n, kp.0, kp.1));
  }

  /** `scan_ini_for_tv_paths(ini, root, exts, prefix_map)` on an existing file. */
  method ScanIniForTvPaths(fs: FileSystem, ini: string, o: Setup) returns (refs: seq<Ref>)
    requires Exists(fs, ini)
    ensures refs == IniRefs(fs, ini, o)
  {
    var lines := IterLines(fs, ini).value;
    var numbered := Numbered(lines);
    refs := [];
    var i := 0;
    while i < |lines|
      invariant 0 <= i <= |lines|
      invariant refs == Concat(numbered[..i], LineFn(fs, ini, o))
    {
      ConcatSnoc(numbered, i, LineFn(fs, ini, o));
      var more := ScanLine(fs, ini, o, i + 1, lines[i]);
      refs := refs + more;
      i := i + 1;
    }
    assert numbered[..|lines|] == numbered;
  }

  /** A Ref's own consistency: its path is of interest and resolves to where the Ref says, and `present` tells whether that file exists. */
  predicate PathOk(fs: FileSystem, o: Setup, r: Ref)
  {
    FileOfInterest(r.rawTvPath, o.exts) && ResolveToProject(o.root, r.rawTvPath, o.prefixMap) == Some(r.resolvedPath) &&
    r.present == Exists(fs, r.resolvedPath)
  }

  /**
   * Where a Ref comes from: a line of the file that is not blank or a comment,
   * one of that line's references, with the line's key and a preview of at
   * most 200 characters; and the Ref is consistent.
   */
  predicate RefFrom(fs: FileSystem, ini: string, o: Setup, lines: seq<string>, r: Ref)
  {
    1 <= r.lineNo <= |lines| &&
    (var line := ChompNewline(lines[r.lineNo - 1]);
     !Skipped(line) && r.rawTvPath in TvPathsIn(line) && (r.key, r.valuePreview) == ParseKeyValuePreview(line)) &&
    r.iniFile == ini && |r.valuePreview| <= PreviewLimit && PathOk(fs, o, r)
  }

  lemma PathRefOk(fs: FileSystem, ini: string, o: Setup, n: nat, key: string, preview: string, tv: string)
    requires PathRef(fs, ini, o, n, key, preview, tv).Some?
    ensures var r := PathRef(fs, ini, o, n, key, preview, tv).value;
      r.iniFile == ini && r.lineNo == n && r.key == key && r.valuePreview == preview && r.rawTvPath == tv && PathOk(fs, o, r)
  {
  }

  /** What a line's Refs carry. */
  lemma LineRefsOrigin(fs: FileSystem, ini: string, o: Setup, n: nat, line: string, r: Ref)
    requires !Skipped(line)
    requires r in Collect(TvPathsIn(line), PathFn(fs, ini, o, n, ParseKeyValuePreview(line).0, ParseKeyValuePreview(line).1))
    ensures r.lineNo == n && r.iniFile == ini && r.rawTvPath in TvPathsIn(line) && PathOk(fs, o, r)
    ensures (r.key, r.valuePreview) == ParseKeyValuePreview(line)
  {
    var kp := ParseKeyValuePreview(line);
    var ms := TvPathsIn(line);
    var f := PathFn(fs, ini, o, n, kp.0, kp.1);
    CollectExact(ms, f);
    var j :| 0 <= j < |Collect(ms, f)| && Collect(ms, f)[j] == r;
    var k :| 0 <= k < |ms| && f(ms[k]) == Some(r);
    PathRefOk(fs, ini, o, n, kp.0, kp.1, ms[k]);
  }

  lemma LineRefsFrom(fs: FileSystem, ini: string, o: Setup, lines: seq<string>, i: nat)
    requires i < |lines|
    ensures forall r :: r in LineRefs(fs, ini, o, i + 1, lines[i]) ==> RefFrom(fs, ini, o, lines, r)
  {
    var line := ChompNewline(lines[i]);
    forall r | r in LineRefs(fs, ini, o, i + 1, lines[i])
      ensures RefFrom(fs, ini, o, lines, r)
    {
      LineRefsOrigin(fs, ini, o, i + 1, line, r);
    }
  }

  /** Every Ref of a file comes from one of its lines as `RefFrom` says. */
  lemma IniRefsFrom(fs: FileSystem, ini: string, o: Setup)
    requires Exists(fs, ini)
    ensures forall r :: r in IniRefs(fs, ini, o) ==> RefFrom(fs, ini, o, IterLines(fs, ini).value, r)
  {
    var lines := IterLines(fs, ini).value;
    var p := (r: Ref) => RefFrom(fs, ini, o, lines, r);
    forall i, j | 0 <= i < |Numbered(lines)| && 0 <= j < |LineFn(fs, ini, o)(Numbered(lines)[i])|
      ensures p(LineFn(fs, ini, o)(Numbered(lines)[i])[j])
    {
      LineRefsFrom(fs, ini, o, lines, i);
      assert LineFn(fs, ini, o)(Numbered(lines)[i])[j] in LineRefs(fs, ini, o, i + 1, lines[i]);
    }
    ConcatEvery(Numbered(lines), LineFn(fs, ini, o), p);
  }

  /** Conversely, every reference of interest that resolves on a line that is not skipped gives a Ref. */
  lemma IniRefsComplete(fs: FileSystem, ini: string, o: Setup, i: nat, tv: string)
    requires Exists(fs, ini) && i < |IterLines(fs, ini).value|
    requires var line := ChompNewline(IterLines(fs, ini).value[i]);
      !Skipped(line) && tv in TvPathsIn(line) && FileOfInterest(tv, o.exts) && ResolveToProject(o.root, tv, o.prefixMap).Some?
    ensures var line := ChompNewline(IterLines(fs, ini).value[i]);
      var kp := ParseKeyValuePreview(line);
      var p := ResolveToProject(o.root, tv, o.prefixMap).value;
      Ref(ini, i + 1, kp.0, kp.1, tv, p, Exists(fs, p)) in IniRefs(fs, ini, o)
  {
    var lines := IterLines(fs, ini).value;
    var line := ChompNewline(lines[i]);
    var kp := ParseKeyValuePreview(line);
    var ms := TvPathsIn(line);
    var f := PathFn(fs, ini, o, i + 1, kp.0, kp.1);
    var k :| 0 <= k < |ms| && ms[k] == tv;
    CollectExact(ms, f);
    assert f(ms[k]).value in LineFn(fs, ini, o)(Numbered(lines)[i]);
    ConcatHas(Numbered(lines), i, LineFn(fs, ini, o), f(ms[k]).value);
  }

  // ---------------------------------------------------------------- commenting out

  /** The indentation `_comment_line_text` keeps in front of the "# " it inserts. */
  const Indent: set<char> := {' ', '\t'}

  /** `t.startswith("#") or t.startswith(";")`. */
  predicate CommentStart(t: string)
  {
    t != [] && (t[0] == '#' || t[0] == ';')
  }

  /** A line `_comment_line_text` leaves alone: nothing after its indentation, or a comment once every leading blank is gone. */
  predicate CommentOrBlank(t: string)
  {
    var rest := LStripSet(t, Indent);
    rest == [] || CommentStart(LStrip(rest))
  }

  /** The length of the spaces and tabs `t` starts with. */
  function IndentLength(t: string): (k: nat)
    ensures k <= |t| && AllIn(t[..k], Indent) && (k < |t| ==> t[k] !in Indent)
  {
    |t| - |LStripSet(t, Indent)|
  }

  /** `_comment_line_text(original)`: "# " put after the indentation, unless the line is blank or already a comment. */
  function CommentLineText(original: string): (r: string)
    ensures r == original <==> CommentOrBlank(original)
    ensures !CommentOrBlank(original) ==>
      var k := IndentLength(original);
      |r| == |original| + 2 && r[..k] == original[..k] && r[k..k + 2] == "# " && r[k + 2..] == original[k..]
  {
    var rest := LStripSet(original, Indent);
    var leading := original[..|original| - |rest|];
    if rest == [] || CommentStart(LStrip(rest)) then original
    else
      var r := leading + "# " + rest;
      assert |r| == |original| + 2;
      r
  }

  /** What commenting a line yields is a comment, after the same indentation. */
  lemma CommentedIsComment(t: string)
    requires !CommentOrBlank(t)
    ensures var r := CommentLineText(t);
      LStripSet(r, Indent) == "# " + t[IndentLength(t)..] && CommentOrBlank(r)
  {
    CommentLineTextShape(t);
    CommentedAt(t, CommentLineText(t));
  }

  /** The same for `t` with "# " inserted after its indentation. */
  lemma CommentedAt(t: string, r: string)
    requires !CommentOrBlank(t)
    requires r == t[..|t| - |LStripSet(t, Indent)|] + ("# " + LStripSet(t, Indent))
    ensures LStripSet(r, Indent) == "# " + t[IndentLength(t)..] && CommentOrBlank(r)
  {
    var rest := LStripSet(t, Indent);
    assert !IsSpace('#');
    CommentedStrip(t[..|t| - |rest|], "# " + rest, Indent, Whitespace);
  }

  /** Commenting inserts "# " between the indentation and the rest. */
  lemma CommentLineTextShape(t: string)
    requires !CommentOrBlank(t)
    ensures var rest := LStripSet(t, Indent);
      CommentLineText(t) == t[..|t| - |rest|] + ("# " + rest)
  {
  }

  /** Indentation before a text that starts with '#' is what the strips remove, and what is left starts as a comment. */
  lemma CommentedStrip(p: string, body: string, indent: set<char>, blanks: set<char>)
    requires AllIn(p, indent) && body != [] && body[0] == '#' && '#' !in indent && '#' !in blanks
    ensures LStripSet(p + body, indent) == body && CommentStart(LStripSet(body, blanks))
  {
    LStripSetPrefix(p, body, indent);
    LStripSetFixed(body, indent);
    LStripSetFixed(body, blanks);
  }

  /** Commenting a line twice is commenting it once. */
  lemma CommentLineTextIdempotent(t: string)
    ensures CommentLineText(CommentLineText(t)) == CommentLineText(t)
  {
    if !CommentOrBlank(t) {
      CommentedIsComment(t);
    }
  }

  /** A line as a file iterator yields it: "\n" at most at its end. */
  predicate OneLine(o: string)
  {
    o == [] || '\n' !in o[..|o| - 1]
  }

  /** The loop's treatment of one listed line (with its "\n"): the commented line, or None when it is left as it is. */
  function LineEdit(o: string): Option<string>
  {
    if CommentStart(LStripSet(o, Indent)) then None
    else
      var n := CommentLineText(ChompNewline(o)) + (if EndsWith(o, "\n") then "\n" else "");
      if n == o then None else Some(n)
  }

  lemma InPrefix(s: string, i: int, j: int)
    ensures 0 <= i < j <= |s| ==> s[i] in s[..j]
  {
    if 0 <= i < j <= |s| {
      assert s[..j][i] == s[i];
    }
  }

  /** A line is its text followed by its newline, if any. */
  lemma ChompOneLine(o: string)
    requires OneLine(o)
    ensures var c := ChompNewline(o);
      |o| - |c| <= 1 && o == c + o[|c|..] && (EndsWith(o, "\n") <==> o[|c|..] == "\n")
  {
    var c := ChompNewline(o);
    var nl := o[|c|..];
    assert o == c + nl;
    InPrefix(o, |c|, |o| - 1);
    if |nl| > 1 {
      assert false;
    } else if |nl| == 1 {
      assert o[|o| - 1..] == nl;
    }
  }

  /** A line whose indentation is followed by '#' or ';' is left as it is, and its text is a comment or blank. */
  lemma LineEditCommentStart(o: string)
    requires OneLine(o) && CommentStart(LStripSet(o, Indent))
    ensures LineEdit(o).None? && CommentOrBlank(ChompNewline(o))
  {
    var c := ChompNewline(o);
    ChompOneLine(o);
    CommentStartText(c, o[|c|..]);
  }

  /** Whether indented text is a comment is decided before its newline. */
  lemma CommentStartText(c: string, nl: string)
    requires CommentStart(LStripSet(c + nl, Indent)) && AllIn(nl, {'\n'})
    ensures CommentOrBlank(c)
  {
    assert !IsSpace('#') && !IsSpace(';');
    CommentStartBefore(c, nl, Indent, Whitespace);
  }

  /** The same for any indentation and blank sets that hold neither '#' nor ';'. */
  lemma CommentStartBefore(c: string, nl: string, indent: set<char>, blanks: set<char>)
    requires CommentStart(LStripSet(c + nl, indent)) && '#' !in blanks && ';' !in blanks
    ensures var rest := LStripSet(c, indent); rest == [] || CommentStart(LStripSet(rest, blanks))
  {
    var rest := LStripSet(c, indent);
    LStripSetAppend(c, nl, indent);
    if rest != [] {
      assert rest[0] == (rest + nl)[0];
      LStripSetFixed(rest, blanks);
    }
  }

  /** Text that is neither blank nor a comment starts, after its indentation, with neither '#' nor ';'. */
  lemma TextFirstChar(c: string)
    requires !CommentOrBlank(c)
    ensures LStripSet(c, Indent) != [] && !CommentStart(LStripSet(c, Indent))
  {
    assert !IsSpace('#') && !IsSpace(';');
    StrippedFirst(LStripSet(c, Indent), Whitespace);
  }

  /** A text whose strip by `cs` does not start as a comment does not either, when '#' and ';' are not in `cs`. */
  lemma StrippedFirst(rest: string, cs: set<char>)
    requires rest != [] && '#' !in cs && ';' !in cs && !CommentStart(LStripSet(rest, cs))
    ensures !CommentStart(rest)
  {
    if rest[0] !in cs {
      LStripSetFixed(rest, cs);
    }
  }

  /** Text that is neither blank nor a comment, followed by newlines, does not start as a comment. */
  lemma UncommentedText(c: string, nl: string)
    requires !CommentOrBlank(c)
    ensures !CommentStart(LStripSet(c + nl, Indent))
  {
    TextFirstChar(c);
    LStripSetAppend(c, nl, Indent);
    assert (LStripSet(c, Indent) + nl)[0] == LStripSet(c, Indent)[0];
  }

  /** The same text commented and followed by newlines starts as a comment. */
  lemma CommentedText(c: string, nl: string)
    requires !CommentOrBlank(c)
    ensures CommentStart(LStripSet(CommentLineText(c) + nl, Indent))
  {
    var t := CommentLineText(c);
    CommentedIsComment(c);
    LStripSetAppend(t, nl, Indent);
    assert LStripSet(t + nl, Indent)[0] == '#';
  }

  /** A line whose text is not blank or a comment is edited: "# " goes after the indentation and the newline stays. */
  lemma LineEditChanges(o: string)
    requires OneLine(o) && !CommentOrBlank(ChompNewline(o))
    ensures var c := ChompNewline(o);
      var k := IndentLength(c);
      var v := c[..k] + "# " + c[k..] + o[|c|..];
      LineEdit(o) == Some(v) && CommentStart(LStripSet(v, Indent))
  {
    var c := ChompNewline(o);
    var nl := o[|c|..];
    ChompOneLine(o);
    var k := IndentLength(c);
    var t := CommentLineText(c);
    assert t == c[..k] + "# " + c[k..];
    UncommentedText(c, nl);
    CommentedText(c, nl);
    assert |t + nl| == |o| + 2;
  }

  /**
   * A line is edited exactly when its text is neither blank nor a comment;
   * the edit puts "# " after the indentation and keeps the newline, and the
   * edited line is never edited again.
   */
  lemma LineEditIs(o: string)
    requires OneLine(o)
    ensures LineEdit(o).None? <==> CommentOrBlank(ChompNewline(o))
    ensures LineEdit(o).Some? ==>
      var c := ChompNewline(o);
      var k := IndentLength(c);
      LineEdit(o).value == c[..k] + "# " + c[k..] + o[|c|..]
    ensures LineEdit(o).Some? ==> LineEdit(LineEdit(o).value).None?
  {
    LineEditWhen(o);
    if LineEdit(o).Some? {
      LineEditChanges(o);
      LineEditOnce(LineEdit(o).value);
    }
  }

  /** A line is edited exactly when its text is neither blank nor a comment. */
  lemma LineEditWhen(o: string)
    requires OneLine(o)
    ensures LineEdit(o).None? <==> CommentOrBlank(ChompNewline(o))
  {
    var c := ChompNewline(o);
    if CommentStart(LStripSet(o, Indent)) {
      LineEditCommentStart(o);
    } else if CommentOrBlank(c) {
      LineEditBlank(o);
    } else {
      LineEditChanges(o);
    }
  }

  /** A blank or comment line is left as it is. */
  lemma LineEditBlank(o: string)
    requires OneLine(o) && CommentOrBlank(ChompNewline(o))
    ensures LineEdit(o).None?
  {
    var c := ChompNewline(o);
    ChompOneLine(o);
    assert CommentLineText(c) == c;
    assert (if EndsWith(o, "\n") then "\n" else "") == o[|c|..];
  }

  /** A line that starts as a comment after its indentation is not edited. */
  lemma LineEditOnce(v: string)
    requires CommentStart(LStripSet(v, Indent))
    ensures LineEdit(v).None?
  {
  }

  /** The lines after the loop over `wanted`: each listed line that `edit` changes replaced by its edit. */
  function Revised(lines: seq<string>, wanted: set<int>, edit: string -> Option<string>): (r: seq<string>)
    ensures |r| == |lines|
    ensures forall i :: 0 <= i < |lines| && r[i] != lines[i] ==> i + 1 in wanted && edit(lines[i]) == Some(r[i])
  {
    seq(|lines|, i requires 0 <= i < |lines| =>
      if i + 1 in wanted && edit(lines[i]).Some? then edit(lines[i]).value else lines[i])
  }

  /** The line numbers of `wanted` that `edit` changes. */
  function Changed(lines: seq<string>, wanted: set<int>, edit: string -> Option<string>): (ch: set<int>)
    ensures forall ln :: ln in ch ==> ln in wanted && 1 <= ln <= |lines|
  {
    set ln | ln in wanted && 1 <= ln <= |lines| && edit(lines[ln - 1]).Some?
  }

  /**
   * `for ln in sorted(lines_to_edit)`: each line numbered in `order` that
   * `edit` changes replaced in place, and the numbers of the lines changed,
   * ascending.
   */
  method EditLines(lines: seq<string>, wanted: set<int>, order: seq<int>, edit: string -> Option<string>)
    returns (out: seq<string>, changed: seq<int>)
    requires StrictlySorted(IntLess, order) && forall x :: x in order <==> x in wanted
    ensures out == Revised(lines, wanted, edit)
    ensures StrictlySorted(IntLess, changed)
    ensures forall ln :: ln in changed <==> ln in Changed(lines, wanted, edit)
  {
    out := lines;
    changed := [];
    ghost var done: set<int> := {};
    var j := 0;
    while j < |order|
      invariant 0 <= j <= |order|
      invariant done == set x | x in order[..j]
      invariant out == Revised(lines, done, edit)
      invariant StrictlySorted(IntLess, changed)
      invariant forall ln :: ln in changed <==> ln in Changed(lines, done, edit)
    {
      var ln := order[j];
      NextInOrder(order, j, done, changed);
      ReviseStep(lines, done, ln, edit);
      var idx := ln - 1;
      if 0 <= idx < |lines| {
        match edit(out[idx]) {
          case Some(v) =>
            out := out[idx := v];
            changed := changed + [ln];
          case None =>
        }
      }
      done := done + {ln};
      j := j + 1;
    }
    assert order[..|order|] == order;
  }

  /** The next number of a strictly sorted order is new, and above every number taken so far. */
  lemma NextInOrder(order: seq<int>, j: nat, done: set<int>, taken: seq<int>)
    requires StrictlySorted(IntLess, order) && j < |order|
    requires done == set x | x in order[..j]
    requires StrictlySorted(IntLess, taken) && forall x :: x in taken ==> x in done
    ensures order[j] !in done && order[..j + 1] == order[..j] + [order[j]]
    ensures StrictlySorted(IntLess, taken + [order[j]])
  {
    NotInPrefix(order, j);
    SliceSnoc(order, j);
    var s := taken + [order[j]];
    forall a, b | 0 <= a < b < |s|
      ensures IntLess(s[a], s[b])
    {
      if b < |taken| {
        assert IntLess(taken[a], taken[b]);
      } else {
        assert taken[a] in taken;
        var m :| 0 <= m < j && order[m] == taken[a];
        assert IntLess(order[m], order[j]);
      }
    }
  }

  /** A strictly sorted list does not repeat an earlier number. */
  lemma NotInPrefix(order: seq<int>, j: nat)
    requires StrictlySorted(IntLess, order) && j < |order|
    ensures forall m :: 0 <= m < j ==> order[m] != order[j]
    ensures order[j] !in order[..j]
  {
    forall m | 0 <= m < j
      ensures order[m] != order[j] && order[..j][m] != order[j]
    {
      assert IntLess(order[m], order[j]);
    }
  }

  lemma SliceSnoc<T>(s: seq<T>, j: nat)
    requires j < |s|
    ensures s[..j + 1] == s[..j] + [s[j]]
  {
  }

  /** One more wanted number: at most its line changes, to its edit, and it joins the changed numbers exactly then. */
  lemma ReviseStep(lines: seq<string>, done: set<int>, ln: int, edit: string -> Option<string>)
    requires ln !in done
    ensures 0 <= ln - 1 < |lines| ==> Revised(lines, done, edit)[ln - 1] == lines[ln - 1]
    ensures Revised(lines, done + {ln}, edit) ==
      if 0 <= ln - 1 < |lines| && edit(lines[ln - 1]).Some? then Revised(lines, done, edit)[ln - 1 := edit(lines[ln - 1]).value]
      else Revised(lines, done, edit)
    ensures forall x :: x in Changed(lines, done + {ln}, edit) <==>
      x in Changed(lines, done, edit) || (x == ln && 1 <= ln <= |lines| && edit(lines[ln - 1]).Some?)
  {
  }

  /** What the loop of `comment_out_missing_lines` makes of a file's lines. */
  function Commented(lines: seq<string>, wanted: set<int>): seq<string>
  {
    Revised(lines, wanted, LineEdit)
  }

  /** The listed lines that loop changes, which it records. */
  function ChangedLines(lines: seq<string>, wanted: set<int>): set<int>
  {
    Changed(lines, wanted, LineEdit)
  }

  /** An edit that always changes what it edits changes a listed line exactly when that line is counted as changed. */
  lemma RevisedExactly(lines: seq<string>, wanted: set<int>, edit: string -> Option<string>)
    requires forall i :: 0 <= i < |lines| && edit(lines[i]).Some? ==> edit(lines[i]).value != lines[i]
    ensures forall i :: 0 <= i < |lines| ==> (Revised(lines, wanted, edit)[i] != lines[i] <==> i + 1 in Changed(lines, wanted, edit))
  {
  }

  /** An edit whose results it leaves alone changes nothing on a second pass. */
  lemma RevisedTwice(lines: seq<string>, wanted: set<int>, edit: string -> Option<string>)
    requires forall i :: 0 <= i < |lines| && edit(lines[i]).Some? ==> edit(edit(lines[i]).value).None?
    ensures Revised(Revised(lines, wanted, edit), wanted, edit) == Revised(lines, wanted, edit)
    ensures Changed(Revised(lines, wanted, edit), wanted, edit) == {}
  {
    var once := Revised(lines, wanted, edit);
    forall ln | ln in wanted && 1 <= ln <= |lines|
      ensures edit(once[ln - 1]).None?
    {
    }
    assert Changed(once, wanted, edit) == {};
  }

  /** Every line an edit changes stands in `rel` to the line it replaces. */
  lemma RevisedRelated(lines: seq<string>, wanted: set<int>, edit: string -> Option<string>, rel: (string, string) -> bool)
    requires forall i :: 0 <= i < |lines| && edit(lines[i]).Some? ==> rel(lines[i], edit(lines[i]).value)
    ensures forall i :: 0 <= i < |lines| ==> Revised(lines, wanted, edit)[i] == lines[i] || rel(lines[i], Revised(lines, wanted, edit)[i])
  {
  }

  /** `LineEdit` only reports an edit that changes the line. */
  lemma LineEditMoves(o: string)
    ensures LineEdit(o).Some? ==> LineEdit(o).value != o
  {
  }

  /** A line of the file changes exactly when its number is recorded. */
  lemma CommentedExactly(lines: seq<string>, wanted: set<int>)
    ensures |Commented(lines, wanted)| == |lines|
    ensures forall i :: 0 <= i < |lines| ==> (Commented(lines, wanted)[i] != lines[i] <==> i + 1 in ChangedLines(lines, wanted))
  {
    forall i | 0 <= i < |lines| {
      LineEditMoves(lines[i]);
    }
    RevisedExactly(lines, wanted, LineEdit);
  }

  /** Running the loop again over the lines it produced changes nothing. */
  lemma CommentedTwice(lines: seq<string>, wanted: set<int>)
    requires forall i :: 0 <= i < |lines| ==> OneLine(lines[i])
    ensures Commented(Commented(lines, wanted), wanted) == Commented(lines, wanted)
    ensures ChangedLines(Commented(lines, wanted), wanted) == {}
  {
    forall i | 0 <= i < |lines| {
      LineEditIs(lines[i]);
    }
    RevisedTwice(lines, wanted, LineEdit);
  }

  /** "# " put into a line that has no "\n" before its end keeps it so, and adds no '\r'. */
  lemma InsertedShape(c: string, k: nat, nl: string)
    requires k <= |c| && '\n' !in c && (nl == "" || nl == "\n")
    ensures var v := c[..k] + "# " + c[k..] + nl;
      v != [] && OneLine(v) && (v[|v| - 1] == '\n' <==> nl == "\n") && ('\r' !in c ==> '\r' !in v)
  {
    var t := c[..k] + "# " + c[k..];
    assert forall x :: x in t ==> x in c || x == '#' || x == ' ' by {
      assert c == c[..k] + c[k..];
    }
    if nl == "" {
      assert t + nl == t;
      assert t[..|t| - 1] + [t[|t| - 1]] == t;
    } else {
      assert (t + nl)[..|t + nl| - 1] == t;
    }
  }

  /** An edited line keeps how its line ends and brings no '\r'. */
  predicate KeepsShape(o: string, v: string)
  {
    o != [] && v != [] && OneLine(v) && (v[|v| - 1] == '\n' <==> o[|o| - 1] == '\n') && ('\r' !in o ==> '\r' !in v)
  }

  /** Commenting a line as `LineEdit` does keeps its shape. */
  lemma EditedShape(o: string)
    requires o != [] && OneLine(o)
    ensures var c := ChompNewline(o);
      var k := IndentLength(c);
      KeepsShape(o, c[..k] + "# " + c[k..] + o[|c|..])
  {
    var c := ChompNewline(o);
    var nl := o[|c|..];
    ChompOneLine(o);
    InPrefix(o, |c| - 1, |o| - 1);
    assert '\n' !in c by {
      if nl == [] {
        assert o == o[..|o| - 1] + [o[|o| - 1]];
      } else {
        assert c == o[..|o| - 1];
      }
    }
    assert nl == "" || nl == "\n";
    InsertedShape(c, IndentLength(c), nl);
  }

  /** The edited lines keep the shape of the lines read, and bring no '\r'. */
  lemma CommentedShaped(lines: seq<string>, wanted: set<int>)
    requires LineShaped(lines) && forall i :: 0 <= i < |lines| ==> '\r' !in lines[i]
    ensures LineShaped(Commented(lines, wanted))
    ensures forall i :: 0 <= i < |lines| ==> '\r' !in Commented(lines, wanted)[i]
  {
    forall i | 0 <= i < |lines| && LineEdit(lines[i]).Some?
      ensures KeepsShape(lines[i], LineEdit(lines[i]).value)
    {
      LineEditIs(lines[i]);
      EditedShape(lines[i]);
    }
    RevisedRelated(lines, wanted, LineEdit, KeepsShape);
    var out := Commented(lines, wanted);
    forall i | 0 <= i < |lines|
      ensures out[i] != [] && '\n' !in out[i][..|out[i]| - 1] && (i < |out| - 1 ==> out[i][|out[i]| - 1] == '\n')
      ensures '\r' !in out[i]
    {
      if out[i] != lines[i] {
        assert KeepsShape(lines[i], out[i]);
      }
    }
  }

  // ---------------------------------------------------------------- one file, all files

  function SkipFn(root: string): string -> Option<string>
  {
    d => if d == "" then None else Some(NormPath(Join(root, d)))
  }

  /** `skip_parents`: `root / d`, resolved, for each non-empty `d`. */
  function SkipParents(root: string, skipDirs: seq<string>): (ps: seq<string>)
    ensures |ps| <= |skipDirs|
  {
    Collect(skipDirs, SkipFn(root))
  }

  /** `any(is_under(ini, sp) for sp in skip_parents)`. */
  predicate Skip(ini: string, parents: seq<string>)
  {
    exists p :: p in parents && Within(NormPath(ini), p)
  }

  /**
   * One file's turn in `comment_out_missing_lines`: nothing happens when the
   * file lies below a skipped parent, does not exist, has no line listed, or
   * none of its listed lines changes; otherwise, for a non-empty suffix, its
   * raw text is copied to the backup, the file is rewritten from its edited
   * lines, and the changed line numbers are recorded.
   */
  function FileStep(fs: FileSystem, ini: string, wanted: set<int>, parents: seq<string>, suffix: string): (FileSystem, Option<set<int>>)
  {
    if Skip(ini, parents) || !Exists(fs, ini) || wanted == {} then (fs, None)
    else
      var lines := IterLines(fs, ini).value;
      var ch := ChangedLines(lines, wanted);
      if ch == {} then (fs, None)
      else
        var backedUp := if suffix != "" then fs[NormPath(ini + suffix) := fs[NormPath(ini)]] else fs;
        (backedUp[NormPath(ini) := Flatten(Commented(lines, wanted))], Some(ch))
  }

  /** A list holding exactly the changed line numbers is empty exactly when no line changes. */
  lemma ChangedNoneIff(lines: seq<string>, wanted: set<int>, edit: string -> Option<string>, ch: seq<int>)
    requires forall ln :: ln in ch <==> ln in Changed(lines, wanted, edit)
    ensures ch == [] <==> Changed(lines, wanted, edit) == {}
  {
    var c := Changed(lines, wanted, edit);
    if ch != [] {
      var x := ch[0];
      assert x in ch;
      assert x in c;
    } else {
      assert forall ln :: ln !in c;
    }
  }

  /** The loop body of `comment_out_missing_lines` for `ini` and its listed lines. */
  method CommentFile(fs: FileSystem, ini: string, wanted: set<int>, parents: seq<string>, suffix: string)
    returns (fs2: FileSystem, changed: Option<seq<int>>)
    ensures fs2 == FileStep(fs, ini, wanted, parents, suffix).0
    ensures changed.Some? <==> FileStep(fs, ini, wanted, parents, suffix).1.Some?
    ensures changed.Some? ==>
      StrictlySorted(IntLess, changed.value) &&
      forall ln :: ln in changed.value <==> ln in FileStep(fs, ini, wanted, parents, suffix).1.value
  {
    fs2 := fs;
    changed := None;
    if Skip(ini, parents) || !Exists(fs, ini) || wanted == {} {
      return;
    }
    var lines := IterLines(fs, ini).value;
    IntLessStrictTotal();
    var order := SortSet(IntLess, wanted);
    var out, ch := EditLines(lines, wanted, order, LineEdit);
    ChangedNoneIff(lines, wanted, LineEdit, ch);
    if ch == [] {
      return;
    }
    if suffix != "" {
      fs2 := fs2[NormPath(ini + suffix) := fs[NormPath(ini)]];
    }
    fs2 := fs2[NormPath(ini) := Flatten(out)];
    changed := Some(ch);
  }

  /** A rewritten file reads back as exactly its edited lines. */
  lemma FileStepRereads(fs: FileSystem, ini: string, wanted: set<int>, parents: seq<string>, suffix: string)
    requires FileStep(fs, ini, wanted, parents, suffix).1.Some?
    ensures Exists(fs, ini)
    ensures IterLines(FileStep(fs, ini, wanted, parents, suffix).0, ini) == Some(Commented(IterLines(fs, ini).value, wanted))
  {
    var t := Translate(fs[NormPath(ini)]);
    var lines := FileLines(t);
    FlattenFileLines(t);
    FileLinesShaped(t);
    FlattenNoCR(lines);
    CommentedShaped(lines, wanted);
    var out := Commented(lines, wanted);
    FlattenNoCR(out);
    TranslateNoCR(Flatten(out));
    FileLinesFlatten(out);
  }

  /** Only the file and its backup change; the backup holds the file's raw text from before. */
  lemma FileStepFrame(fs: FileSystem, ini: string, wanted: set<int>, parents: seq<string>, suffix: string, p: string)
    requires p in fs && p != NormPath(ini) && (suffix == "" || p != NormPath(ini + suffix))
    ensures var fs2 := FileStep(fs, ini, wanted, parents, suffix).0;
      p in fs2 && fs2[p] == fs[p]
  {
  }

  /**
   * The tree and the record after each listed file's turn, in the order
   * `grouped` lists the files; the record is the items of the returned dict,
   * in the order the files were added.
   */
  function Record(st: FileSystem, grouped: seq<(string, set<int>)>, step: (FileSystem, string, set<int>) -> (FileSystem, Option<set<int>>)): (FileSystem, seq<(string, set<int>)>)
    decreases |grouped|
  {
    if |grouped| == 0 then (st, [])
    else
      var n := |grouped| - 1;
      var prev := Record(st, grouped[..n], step);
      var now := step(prev.0, grouped[n].0, grouped[n].1);
      (now.0, if now.1.Some? then prev.1 + [(grouped[n].0, now.1.value)] else prev.1)
  }

  /** One more file's turn. */
  lemma RecordStep(st: FileSystem, grouped: seq<(string, set<int>)>, step: (FileSystem, string, set<int>) -> (FileSystem, Option<set<int>>), i: nat)
    requires i < |grouped|
    ensures var prev := Record(st, grouped[..i], step); var now := step(prev.0, grouped[i].0, grouped[i].1);
      Record(st, grouped[..i + 1], step).0 == now.0 &&
      Record(st, grouped[..i + 1], step).1 == if now.1.Some? then prev.1 + [(grouped[i].0, now.1.value)] else prev.1
  {
    assert grouped[..i + 1][..i] == grouped[..i];
  }

  /** A turn that records only acceptable files, each with some of its listed lines, makes a record of only such files. */
  lemma {:induction false} RecordOnly(st: FileSystem, grouped: seq<(string, set<int>)>, step: (FileSystem, string, set<int>) -> (FileSystem, Option<set<int>>), ok: string -> bool)
    requires forall s, ini, w :: step(s, ini, w).1.Some? ==> ok(ini) && step(s, ini, w).1.value != {} && step(s, ini, w).1.value <= w
    ensures forall e :: e in Record(st, grouped, step).1 ==>
      ok(e.0) && e.1 != {} && exists i :: 0 <= i < |grouped| && grouped[i].0 == e.0 && e.1 <= grouped[i].1
    decreases |grouped|
  {
    if |grouped| > 0 {
      var n := |grouped| - 1;
      RecordOnly(st, grouped[..n], step, ok);
      var prev := Record(st, grouped[..n], step);
      var now := step(prev.0, grouped[n].0, grouped[n].1);
      var m := Record(st, grouped, step).1;
      assert m == if now.1.Some? then prev.1 + [(grouped[n].0, now.1.value)] else prev.1;
      forall e | e in m
        ensures ok(e.0) && e.1 != {} && exists i :: 0 <= i < |grouped| && grouped[i].0 == e.0 && e.1 <= grouped[i].1
      {
        if e in prev.1 {
          var i :| 0 <= i < n && grouped[..n][i].0 == e.0 && e.1 <= grouped[..n][i].1;
          assert grouped[i] == grouped[..n][i];
        } else {
          assert e == (grouped[n].0, now.1.value);
        }
      }
    }
  }

  function StepFn(parents: seq<string>, suffix: string): (FileSystem, string, set<int>) -> (FileSystem, Option<set<int>>)
  {
    (fs: FileSystem, ini: string, wanted: set<int>) => FileStep(fs, ini, wanted, parents, suffix)
  }

  /** The record `comment_out_missing_lines` returns: the recorded files in order, each with its changed line numbers, ascending. */
  ghost predicate Lists(modified: seq<(string, seq<int>)>, rec: seq<(string, set<int>)>)
  {
    |modified| == |rec| &&
    forall i :: 0 <= i < |rec| ==>
      modified[i].0 == rec[i].0 && StrictlySorted(IntLess, modified[i].1) && forall ln :: ln in modified[i].1 <==> ln in rec[i].1
  }

  lemma ListsSnoc(modified: seq<(string, seq<int>)>, rec: seq<(string, set<int>)>, k: string, ch: seq<int>, lines: set<int>)
    requires Lists(modified, rec) && StrictlySorted(IntLess, ch) && forall ln :: ln in ch <==> ln in lines
    ensures Lists(modified + [(k, ch)], rec + [(k, lines)])
  {
  }

  /** The tree and the record `comment_out_missing_lines` leaves. */
  function CommentAll(fs: FileSystem, grouped: seq<(string, set<int>)>, parents: seq<string>, suffix: string): (FileSystem, seq<(string, set<int>)>)
  {
    Record(fs, grouped, StepFn(parents, suffix))
  }

  /** A file's turn records it only when it is not skipped, and then with some of its listed lines. */
  lemma FileStepRecords(fs: FileSystem, ini: string, wanted: set<int>, parents: seq<string>, suffix: string)
    ensures var step := FileStep(fs, ini, wanted, parents, suffix);
      step.1.Some? ==> !Skip(ini, parents) && step.1.value != {} && step.1.value <= wanted
  {
  }

  /**
   * `comment_out_missing_lines(grouped, root=root, skip_dirs=skipDirs,
   * backup_suffix=suffix)`: the tree after every file's turn and, for each
   * file that changed, its changed line numbers, ascending.
   */
  method CommentOutMissingLines(fs: FileSystem, grouped: seq<(string, set<int>)>, root: string, skipDirs: seq<string>, suffix: string)
    returns (out: FileSystem, modified: seq<(string, seq<int>)>)
    ensures out == CommentAll(fs, grouped, SkipParents(root, skipDirs), suffix).0
    ensures Lists(modified, CommentAll(fs, grouped, SkipParents(root, skipDirs), suffix).1)
  {
    var parents := SkipParents(root, skipDirs);
    var step := StepFn(parents, suffix);
    out := fs;
    modified := [];
    ghost var rec: seq<(string, set<int>)> := [];
    var i := 0;
    while i < |grouped|
      invariant 0 <= i <= |grouped|
      invariant out == Record(fs, grouped[..i], step).0 && rec == Record(fs, grouped[..i], step).1
      invariant Lists(modified, rec)
    {
      RecordStep(fs, grouped, step, i);
      var ini := grouped[i].0;
      var fs2, changed := CommentFile(out, ini, grouped[i].1, parents, suffix);
      ghost var now := step(out, ini, grouped[i].1);
      assert now == FileStep(out, ini, grouped[i].1, parents, suffix);
      out := fs2;
      if changed.Some? {
        ListsSnoc(modified, rec, ini, changed.value, now.1.value);
        modified := modified + [(ini, changed.value)];
        rec := rec + [(ini, now.1.value)];
      }
      i := i + 1;
    }
    assert grouped[..|grouped|] == grouped;
  }

  /** Only files that changed are recorded, never one below a skipped parent, and each with some of its listed lines. */
  lemma RecordedChanged(fs: FileSystem, grouped: seq<(string, set<int>)>, parents: seq<string>, suffix: string)
    ensures forall e :: e in CommentAll(fs, grouped, parents, suffix).1 ==>
      !Skip(e.0, parents) && e.1 != {} && exists i :: 0 <= i < |grouped| && grouped[i].0 == e.0 && e.1 <= grouped[i].1
  {
    var step := StepFn(parents, suffix);
    forall s, ini, w
      ensures step(s, ini, w).1.Some? ==> !Skip(ini, parents) && step(s, ini, w).1.value != {} && step(s, ini, w).1.value <= w
    {
      FileStepRecords(s, ini, w, parents, suffix);
    }
    RecordOnly(fs, grouped, step, (ini: string) => !Skip(ini, parents));
  }

  /** A file that is neither listed nor the backup of a listed file keeps its text. */
  lemma {:induction false} OthersUntouched(fs: FileSystem, grouped: seq<(string, set<int>)>, parents: seq<string>, suffix: string, p: string)
    requires p in fs
    requires forall i :: 0 <= i < |grouped| ==> p != NormPath(grouped[i].0) && (suffix == "" || p != NormPath(grouped[i].0 + suffix))
    ensures p in CommentAll(fs, grouped, parents, suffix).0 && CommentAll(fs, grouped, parents, suffix).0[p] == fs[p]
    decreases |grouped|
  {
    if |grouped| > 0 {
      var n := |grouped| - 1;
      OthersUntouched(fs, grouped[..n], parents, suffix, p);
      var prev := CommentAll(fs, grouped[..n], parents, suffix);
      assert CommentAll(fs, grouped, parents, suffix).0 == FileStep(prev.0, grouped[n].0, grouped[n].1, parents, suffix).0;
      FileStepFrame(prev.0, grouped[n].0, grouped[n].1, parents, suffix, p);
    }
  }

  /** A file below a skipped parent keeps its text, unless it is the backup of another listed file. */
  lemma {:induction false} SkippedUntouched(fs: FileSystem, grouped: seq<(string, set<int>)>, parents: seq<string>, suffix: string, p: string, parent: string)
    requires p in fs && NormPath(p) == p && parent in parents && Within(p, parent)
    requires forall i :: 0 <= i < |grouped| ==> suffix == "" || p != NormPath(grouped[i].0 + suffix)
    ensures p in CommentAll(fs, grouped, parents, suffix).0 && CommentAll(fs, grouped, parents, suffix).0[p] == fs[p]
    decreases |grouped|
  {
    if |grouped| > 0 {
      var n := |grouped| - 1;
      SkippedUntouched(fs, grouped[..n], parents, suffix, p, parent);
      var prev := CommentAll(fs, grouped[..n], parents, suffix);
      var ini := grouped[n].0;
      assert CommentAll(fs, grouped, parents, suffix).0 == FileStep(prev.0, ini, grouped[n].1, parents, suffix).0;
      if p == NormPath(ini) {
        assert Skip(ini, parents);
      } else {
        FileStepFrame(prev.0, ini, grouped[n].1, parents, suffix, p);
      }
    }
  }

  // ---------------------------------------------------------------- report summary

  /** The report's `ext` column: `Path(resolved).suffix.lstrip(".").lower()`. */
  function ReportExt(resolved: string): string
  {
    Lower(LStripSet(Suffix(PathName(resolved)), {'.'}))
  }

  /** The `ext` column is the suffix after its dot, lower-cased, as the extension filter computes it, and empty when there is none. */
  lemma ReportExtIs(resolved: string)
    ensures var sfx := Suffix(PathName(resolved));
      ReportExt(resolved) == (if sfx == "" then "" else Lower(sfx[1..])) && ReportExt(resolved) == SuffixExtension(sfx)
    ensures IsLowerCase(ReportExt(resolved)) && '.' !in ReportExt(resolved)
  {
    var sfx := Suffix(PathName(resolved));
    SuffixExtensionIs(sfx);
    if sfx != "" {
      assert sfx[1] in sfx[1..];
      LStripOne(sfx, {'.'});
    }
  }

  /** `rows_missing`: the Refs whose file does not exist, in order. */
  function MissingRefs(refs: seq<Ref>): (m: seq<Ref>)
    ensures forall r :: r in m <==> r in refs && !r.present
  {
    Keep(refs, (r: Ref) => !r.present)
  }

  /** The `ext` column of the missing rows. */
  function MissingExts(refs: seq<Ref>): (es: seq<string>)
    ensures |es| == |MissingRefs(refs)|
  {
    MapSeq(MissingRefs(refs), (r: Ref) => ReportExt(r.resolvedPath))
  }

  /** The order of `missing_by_ext` rows: more missing files first, then by extension. */
  predicate ByCount(exts: seq<string>, a: string, b: string)
  {
    Occurrences(exts, a) > Occurrences(exts, b) || (Occurrences(exts, a) == Occurrences(exts, b) && StringLess(a, b))
  }

  function ByCountFn(exts: seq<string>): (string, string) -> bool
  {
    (a: string, b: string) => ByCount(exts, a, b)
  }

  /** Sorting by `(-count, ext)` is a strict total order on extensions. */
  lemma ByCountStrictTotal(exts: seq<string>)
    ensures StrictTotal(ByCountFn(exts))
  {
    var lt := ByCountFn(exts);
    forall a ensures !lt(a, a) { StringLessIrreflexive(a); }
    forall a, b, c | lt(a, b) && lt(b, c) ensures lt(a, c) {
      if Occurrences(exts, a) == Occurrences(exts, b) == Occurrences(exts, c) { StringLessTrans(a, b, c); }
    }
    forall a, b ensures a == b || lt(a, b) || lt(b, a) { StringLessTotal(a, b); }
  }

  /** The Summary sheet of `write_reports`, item by item. */
  datatype Summary = Summary(scanRoot: string, iniFilesScanned: nat, totalReferences: nat, missingCount: nat,
                             missingByExt: seq<(string, nat)>, modifiedFiles: Option<nat>, modifiedLines: Option<nat>)

  /** `sum(len(v) for v in modified_map.values())`. */
  function SumLengths(modified: seq<(string, seq<int>)>): nat
    decreases |modified|
  {
    if |modified| == 0 then 0 else |modified[0].1| + SumLengths(modified[1..])
  }

  /** The counts of the `missing_by_ext` rows, added up. */
  function SumCounts(rows: seq<(string, nat)>): nat
    decreases |rows|
  {
    if |rows| == 0 then 0 else rows[0].1 + SumCounts(rows[1..])
  }

  /** Rows listing each of `keys` with its count in `exts` add up to the counts of `keys`. */
  lemma {:induction false} SumCountsRows(rows: seq<(string, nat)>, keys: seq<string>, exts: seq<string>)
    requires |rows| == |keys| && forall i :: 0 <= i < |rows| ==> rows[i] == (keys[i], Occurrences(exts, keys[i]))
    ensures SumCounts(rows) == SumOccurrences(keys, exts)
    decreases |rows|
  {
    if |rows| > 0 {
      SumCountsRows(rows[1..], keys[1..], exts);
    }
  }

  /** Strictly sorted items are distinct. */
  lemma SortedNoDup(lt: (string, string) -> bool, s: seq<string>)
    requires StrictTotal(lt) && StrictlySorted(lt, s)
    ensures NoDup(s)
  {
    forall i, j | 0 <= i < j < |s| ensures s[i] != s[j] {
      assert lt(s[i], s[j]);
    }
  }

  /** `sorted(Counter(exts).items(), key=lambda x: (-x[1], x[0]))`: each distinct item with its count, more first, then by item. */
  method CountByExt(exts: seq<string>) returns (rows: seq<(string, nat)>)
    ensures forall i :: 0 <= i < |rows| ==> rows[i].1 == Occurrences(exts, rows[i].0)
    ensures forall e :: e in exts <==> exists i :: 0 <= i < |rows| && rows[i].0 == e
    ensures forall i, j :: 0 <= i < j < |rows| ==> ByCount(exts, rows[i].0, rows[j].0)
    ensures SumCounts(rows) == |exts|
  {
    ByCountStrictTotal(exts);
    var keys := SortSet(ByCountFn(exts), set e | e in exts);
    rows := [];
    var i := 0;
    while i < |keys|
      invariant 0 <= i <= |keys| && |rows| == i
      invariant forall j :: 0 <= j < i ==> rows[j] == (keys[j], Occurrences(exts, keys[j]))
    {
      rows := rows + [(keys[i], Occurrences(exts, keys[i]))];
      i := i + 1;
    }
    SortedNoDup(ByCountFn(exts), keys);
    SumCountsRows(rows, keys, exts);
    SumOccurrencesTotal(keys, exts);
    forall e | e in exts ensures exists j :: 0 <= j < |rows| && rows[j].0 == e {
      var j :| 0 <= j < |keys| && keys[j] == e;
      assert rows[j].0 == e;
    }
    forall j | 0 <= j < |rows| ensures rows[j].0 in exts {
      assert rows[j].0 == keys[j] && keys[j] in keys;
    }
    forall i, j | 0 <= i < j < |rows| ensures ByCount(exts, rows[i].0, rows[j].0) {
      assert ByCountFn(exts)(keys[i], keys[j]);
    }
  }

  /**
   * The summary counts of `write_reports(root, refs, ..., modified)`: the
   * ini files seen, the references, the missing ones, one row per
   * extension of the missing ones with its count (more first, then by
   * extension), and, when files were modified, how many and how many lines.
   */
  method Summarize(root: string, refs: seq<Ref>, modified: Option<seq<(string, seq<int>)>>) returns (s: Summary)
    ensures s.scanRoot == root && s.totalReferences == |refs|
    ensures s.iniFilesScanned == |set r | r in refs :: r.iniFile|
    ensures s.missingCount == |MissingRefs(refs)|
    ensures forall i :: 0 <= i < |s.missingByExt| ==> s.missingByExt[i].1 == Occurrences(MissingExts(refs), s.missingByExt[i].0)
    ensures forall e :: e in MissingExts(refs) <==> exists i :: 0 <= i < |s.missingByExt| && s.missingByExt[i].0 == e
    ensures forall i, j :: 0 <= i < j < |s.missingByExt| ==> ByCount(MissingExts(refs), s.missingByExt[i].0, s.missingByExt[j].0)
    ensures SumCounts(s.missingByExt) == s.missingCount
    ensures s.modifiedFiles == (if modified.Some? && modified.value != [] then Some(|modified.value|) else None)
    ensures s.modifiedLines == (if modified.Some? && modified.value != [] then Some(SumLengths(modified.value)) else None)
  {
    var missing := MissingRefs(refs);
    var rows := CountByExt(MissingExts(refs));
    var files: Option<nat> := None;
    var lines: Option<nat> := None;
    if modified.Some? && modified.value != [] {
      files := Some(|modified.value|);
      lines := Some(SumLengths(modified.value));
    }
    s := Summary(root, |set r | r in refs :: r.iniFile|, |refs|, |missing|, rows, files, lines);
  }
}
