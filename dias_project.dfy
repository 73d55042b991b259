/** check_dias_project.py: some uncommented model.ini line must contain `DIAS_Project = true;`. */
module DiasProject {
  import opened Wrappers
  import opened Text
  import Ini

  const Key: string := "DIAS_Project"

  /** `\s*true\s*;`, any case, at the start of `s`. */
  predicate TrueSemicolon(s: string)
  {
    var b := LStrip(s);
    |b| >= 4 && EqualsIgnoreCase(b[..4], "true") && StartsWith(LStrip(b[4..]), ";")
  }

  /** `\bDIAS_Project\s*=\s*true\s*;` matches at position `i` of `line`, any case. */
  predicate MatchAt(line: string, i: nat)
  {
    i + |Key| <= |line| && (i == 0 || !IsWordChar(line[i - 1])) &&
    EqualsIgnoreCase(line[i..i + |Key|], Key) &&
    var a := LStrip(line[i + |Key|..]);
    |a| > 0 && a[0] == '=' && TrueSemicolon(a[1..])
  }

  /** `DIAS_TRUE_RE.search(line)`. */
  predicate Search(line: string)
  {
    exists i :: 0 <= i <= |line| && MatchAt(line, i)
  }

  /** A line of the file without its "\n", when it is not a '#' comment and carries the setting. */
  function DiasLine(raw: string): Option<string>
  {
    var line := ChompNewline(raw);
    if StartsWith(LStrip(line), "#") then None else if Search(line) then Some(line) else None
  }

  /**
   * `find_dias_true`: found iff some line that does not start with '#' carries
   * the setting anywhere in it; the text is the first such line, or "N/A".
   */
  function FindDiasTrue(lines: seq<string>): (r: (bool, string))
    ensures r.0 <==> exists i :: 0 <= i < |lines| && DiasLine(lines[i]).Some?
    ensures r.0 ==> exists i :: 0 <= i < |lines| && DiasLine(lines[i]) == Some(r.1) && forall j :: 0 <= j < i ==> DiasLine(lines[j]).None?
    ensures !r.0 ==> r.1 == "N/A"
  {
    match Ini.First(lines, DiasLine)
    case None => (false, "N/A")
    case Some(l) => (true, l)
  }

  lemma TrueSemicolonExample()
    ensures TrueSemicolon(" true;")
  {
    SpaceThenFixed(" true;");
    TrueSemicolonPlain("true;");
  }

  /** One leading space before a non-blank start is all `LStrip` drops. */
  lemma SpaceThenFixed(s: string)
    requires |s| >= 2 && s[0] == ' ' && !IsSpace(s[1])
    ensures LStrip(s) == s[1..]
  {
    LStripSetFixed(s[1..], Whitespace);
  }

  lemma TrueSemicolonPlain(b: string)
    requires b == "true;"
    ensures LStrip(b) == b && TrueSemicolon(b)
  {
    assert b[0] == 't';
    assert b[0] !in Whitespace by { assert !IsSpace(b[0]); }
    LStripSetFixed(b, Whitespace);
    var c := b[4..];
    assert c == ";";
    assert c[0] !in Whitespace by { assert !IsSpace(c[0]); }
    LStripSetFixed(c, Whitespace);
    assert StartsWith(LStrip(c), ";");
    assert EqualsIgnoreCase(b[..4], "true") by { assert b[..4] == "true"; }
  }

  lemma AfterKeyExample()
    ensures LStrip(" = true;") == "= true;"
  {
    assert " = true;"[1..] == "= true;";
    LStripSetFixed("= true;", Whitespace);
  }

  lemma KeyExample(line: string)
    requires line == "; DIAS_Project = true;"
    ensures EqualsIgnoreCase(line[2..14], Key) && !IsWordChar(line[1]) && line[14..] == " = true;"
  {
    assert line[1] == ' ';
    assert line[2..14] == Key;
    assert line[14..] == " = true;";
  }

  /** A ';'-commented line is not excluded: the setting after "; " still counts. */
  lemma SemicolonCommentCounts()
    ensures Search("; DIAS_Project = true;")
  {
    var line := "; DIAS_Project = true;";
    KeyExample(line);
    AfterKeyExample();
    assert "= true;"[1..] == " true;";
    TrueSemicolonExample();
    assert MatchAt(line, 2);
  }
}
