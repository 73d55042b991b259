/**
 * check_VRR_QMS.py: every EDID binary that model.ini names must agree, by the
 * tokens in its file name, with the isSupportVRR / isSupportQMS flags that the
 * [SrcFunc] (or [VRR]) section declares.
 */
module VrrQms {
  import opened Wrappers
  import opened Text
  import opened Files
  import opened Paths
  import opened Scan

  // ---------------------------------------------------------------- parse_bool

  const TrueWords: set<string> := {"true", "1", "yes", "on"}
  const FalseWords: set<string> := {"false", "0", "no", "off"}

  /** The word `parse_bool` compares: blanks, then ';', '"' and '\'' stripped in turn, then lower-cased. */
  function BoolWord(s: string): string
  {
    Lower(StripSet(StripSet(StripSet(Strip(s), {';'}), {'"'}), {'\''}))
  }

  /** The flag a compared word stands for. */
  function WordFlag(w: string): (r: Option<bool>)
    ensures r == Some(true) <==> w in TrueWords
    ensures r == Some(false) <==> w in FalseWords
    ensures r.None? <==> w !in TrueWords + FalseWords
  {
    if w in TrueWords then Some(true) else if w in FalseWords then Some(false) else None
  }

  /** `parse_bool`: True for a true word, False for a false word, None for anything else. */
  function ParseBool(s: string): Option<bool>
  {
    WordFlag(BoolWord(s))
  }

  /** Python's `str()` of a bool, as the report cells print a flag. */
  function PyBool(b: bool): string
  {
    if b then "True" else "False"
  }

  /** Python's `str()` of an `Optional[bool]`. */
  function PyOptBool(b: Option<bool>): string
  {
    if b.None? then "None" else PyBool(b.value)
  }

  /** The characters the strips of `parse_bool` remove. */
  predicate Trimmed(c: char)
  {
    c in Whitespace || c == ';' || c == '"' || c == '\''
  }

  /** A word that neither starts nor ends with a character `parse_bool` strips. */
  predicate PlainWord(w: string)
  {
    w != [] && !Trimmed(w[0]) && !Trimmed(w[|w| - 1])
  }

  /** A plain word is compared as it is, lower-cased. */
  lemma BoolWordPlain(w: string)
    requires PlainWord(w)
    ensures BoolWord(w) == Lower(w)
  {
    StripSetFixed(w, Whitespace);
    StripSetFixed(w, {';'});
    StripSetFixed(w, {'"'});
    StripSetFixed(w, {'\''});
  }

  /** A plain word reads as True or False exactly when, lower-cased, it is one of the words for that flag. */
  lemma ParseBoolWord(w: string)
    requires PlainWord(w)
    ensures ParseBool(w) == Some(true) <==> Lower(w) in TrueWords
    ensures ParseBool(w) == Some(false) <==> Lower(w) in FalseWords
    ensures ParseBool(w).None? <==> Lower(w) !in TrueWords + FalseWords
  {
    BoolWordPlain(w);
  }

  /** Blank margins around a text with non-blank ends are stripped off. */
  lemma StripPadded(p: string, x: string, q: string)
    requires IsBlank(p) && IsBlank(q) && x != [] && x[0] !in Whitespace && x[|x| - 1] !in Whitespace
    ensures Strip(p + x + q) == x
  {
    StripSetPad(p, x, q, Whitespace);
    StripSetFixed(x, Whitespace);
  }

  /** `parse_bool`'s word read off the result of each of its strips. */
  lemma BoolWordStages(s: string, x: string, y: string, w: string)
    requires Strip(s) == x && StripSet(x, {';'}) == y && StripSet(y, {'"'}) == w && StripSet(w, {'\''}) == w
    ensures BoolWord(s) == Lower(w)
  {
  }

  /** The blank margins of a quoted line. */
  lemma QuotedLineStrip(p: string, w: string, q: string)
    requires IsBlank(p) && IsBlank(q)
    ensures Strip(p + "\"" + w + "\";" + q) == "\"" + w + "\";"
  {
    var x := "\"" + w + "\";";
    assert p + "\"" + w + "\";" + q == p + x + q;
    assert x[0] == '"' && x[|x| - 1] == ';';
    StripPadded(p, x, q);
  }

  /** Characters of `cs` around a text with no such character at its ends are what `strip(cs)` removes. */
  lemma EnclosedStrip(pre: string, x: string, post: string, cs: set<char>)
    requires AllIn(pre, cs) && AllIn(post, cs) && x != [] && x[0] !in cs && x[|x| - 1] !in cs
    ensures StripSet(pre + x + post, cs) == x
  {
    StripSetPad(pre, x, post, cs);
    StripSetFixed(x, cs);
  }

  /** The trailing ';' goes. */
  lemma SemicolonStrip(w: string)
    ensures StripSet("\"" + w + "\";", {';'}) == "\"" + w + "\""
  {
    var quoted := "\"" + w + "\"";
    assert "\"" + w + "\";" == [] + quoted + [';'];
    EnclosedStrip([], quoted, [';'], {';'});
  }

  /** Then the quotes. */
  lemma QuoteStrip(w: string)
    requires PlainWord(w)
    ensures StripSet("\"" + w + "\"", {'"'}) == w
  {
    assert "\"" + w + "\"" == ['"'] + w + ['"'];
    EnclosedStrip(['"'], w, ['"'], {'"'});
  }

  /**
   * A quoted plain word followed by ';', between blanks, reads as the bare
   * word: the strips of `parse_bool` remove exactly that dressing.
   */
  lemma ParseBoolQuoted(p: string, w: string, q: string)
    requires IsBlank(p) && IsBlank(q) && PlainWord(w)
    ensures ParseBool(p + "\"" + w + "\";" + q) == ParseBool(w)
  {
    QuotedLineStrip(p, w, q);
    SemicolonStrip(w);
    QuoteStrip(w);
    StripSetFixed(w, {'\''});
    BoolWordStages(p + "\"" + w + "\";" + q, "\"" + w + "\";", "\"" + w + "\"", w);
    BoolWordPlain(w);
  }

  /** No character of `cs` is an ASCII letter. */
  predicate NoLetters(cs: set<char>)
  {
    forall c :: c in cs ==> !('a' <= c <= 'z') && !('A' <= c <= 'Z')
  }

  lemma WhitespaceNoLetters()
    ensures NoLetters(Whitespace)
  {
  }

  /** `lstrip` and upper-casing commute when no stripped character is a letter. */
  lemma {:induction false} LStripSetUpper(s: string, cs: set<char>)
    requires NoLetters(cs)
    ensures LStripSet(Upper(s), cs) == Upper(LStripSet(s, cs))
    decreases |s|
  {
    if |s| > 0 {
      var u := Upper(s);
      assert u[0] in cs <==> s[0] in cs by {
        assert u[0] == UpperChar(s[0]);
      }
      if s[0] in cs {
        assert u[1..] == Upper(s[1..]);
        LStripSetUpper(s[1..], cs);
      }
    }
  }

  lemma {:induction false} RStripSetUpper(s: string, cs: set<char>)
    requires NoLetters(cs)
    ensures RStripSet(Upper(s), cs) == Upper(RStripSet(s, cs))
    decreases |s|
  {
    if |s| > 0 {
      var u := Upper(s);
      var last := |s| - 1;
      assert u[last] in cs <==> s[last] in cs by {
        assert u[last] == UpperChar(s[last]);
      }
      if s[last] in cs {
        assert u[..last] == Upper(s[..last]);
        RStripSetUpper(s[..last], cs);
      }
    }
  }

  lemma StripSetUpper(s: string, cs: set<char>)
    requires NoLetters(cs)
    ensures StripSet(Upper(s), cs) == Upper(StripSet(s, cs))
  {
    LStripSetUpper(s, cs);
    RStripSetUpper(LStripSet(s, cs), cs);
  }

  lemma LowerUpper(s: string)
    ensures Lower(Upper(s)) == Lower(s)
  {
  }

  /** `parse_bool` ignores letter case: an upper-cased value reads the same. */
  lemma ParseBoolCaseBlind(s: string)
    ensures ParseBool(Upper(s)) == ParseBool(s)
  {
    var d := StripSet(StripSet(StripSet(Strip(s), {';'}), {'"'}), {'\''});
    TrimmedUpper(s);
    LowerUpper(d);
  }

  /** The trimming before the comparison commutes with upper-casing: none of its characters is a letter. */
  lemma TrimmedUpper(s: string)
    ensures StripSet(StripSet(StripSet(Strip(Upper(s)), {';'}), {'"'}), {'\''}) ==
      Upper(StripSet(StripSet(StripSet(Strip(s), {';'}), {'"'}), {'\''}))
  {
    var a := Strip(s);
    var b := StripSet(a, {';'});
    var c := StripSet(b, {'"'});
    StripUpperBlanks(s);
    TrimSetsNoLetters();
    StripUpperStep(Strip(Upper(s)), a, {';'});
    StripUpperStep(StripSet(Strip(Upper(s)), {';'}), b, {'"'});
    StripUpperStep(StripSet(StripSet(Strip(Upper(s)), {';'}), {'"'}), c, {'\''});
  }

  /** None of the quote and semicolon sets the trimming strips holds a letter. */
  lemma TrimSetsNoLetters()
    ensures NoLetters({';'}) && NoLetters({'"'}) && NoLetters({'\''})
  {
  }

  /** Stripping a letter-free set from an upper-cased text is upper-casing the stripped text. */
  lemma StripUpperStep(x: string, y: string, cs: set<char>)
    requires NoLetters(cs) && x == Upper(y)
    ensures StripSet(x, cs) == Upper(StripSet(y, cs))
  {
    StripSetUpper(y, cs);
  }

  lemma StripUpperBlanks(s: string)
    ensures Strip(Upper(s)) == Upper(Strip(s))
  {
    WhitespaceNoLetters();
    StripSetUpper(s, Whitespace);
  }


  // ---------------------------------------------------------------- the two line patterns

  /** Python `line.split('#', 1)[0].split('//', 1)[0]`: a line without its `#` or `//` comment. */
  function CutComments(raw: string): (r: string)
    ensures StartsWith(raw, r) && '#' !in r && !Contains(r, "//")
  {
    var a := Before(raw, '#');
    var r := BeforeText(a, "//");
    assert StartsWith(a, r);
    assert r == raw[..|r|];
    forall j | 0 <= j <= |r| - 2
      ensures !OccursAt(r, "//", j)
    {
      assert OccursAt(r, "//", j) ==> OccursAt(a, "//", j);
    }
    r
  }
  // Both patterns are read left to right over indices of the line.

  /** A word character is never a blank, and the pattern's punctuation is neither. */
  lemma CharClasses(c: char)
    ensures c in WordChars ==> c !in Whitespace
    ensures c in Whitespace ==> c !in WordChars
    ensures '=' !in WordChars && '=' !in Whitespace && '"' !in Whitespace && '[' !in Whitespace
  {
  }

  /** The index just past the last `c` in `s`, 0 when there is none. */
  function LastEnd(s: string, c: char): (k: nat)
    ensures k <= |s| && (k > 0 ==> s[k - 1] == c) && forall j :: k <= j < |s| ==> s[j] != c
    decreases |s|
  {
    if |s| == 0 then 0
    else if s[|s| - 1] == c then |s|
    else LastEnd(s[..|s| - 1], c)
  }

  lemma LastEndAt(s: string, c: char, k: nat)
    requires k < |s| && s[k] == c && forall j :: k < j < |s| ==> s[j] != c
    ensures LastEnd(s, c) == k + 1
  {
  }

  /** What may follow the closing quote: `\s*;?\s*` up to the end of the line. */
  predicate AssignTail(tail: string)
  {
    var j := SkipSet(tail, 0, Whitespace);
    j == |tail| || (tail[j] == ';' && SkipSet(tail, j + 1, Whitespace) == |tail|)
  }

  lemma AssignTailUnquoted(tail: string)
    requires AssignTail(tail)
    ensures forall j :: 0 <= j < |tail| ==> tail[j] != '"'
  {
    CharClasses('"');
  }

  /**
   * `_ASSIGN_RE` (`^\s*([A-Za-z0-9_]+)\s*=\s*"(.*?)"\s*;?\s*$`): the key and
   * the quoted value.  No text after the closing quote may hold a quote, so
   * the lazy group ends at the line's last quote.
   */
  function AssignMatch(line: string): (r: Option<(string, string)>)
    ensures r.Some? ==> r.value.0 != "" && AllIn(r.value.0, WordChars)
  {
    var i0 := SkipSet(line, 0, Whitespace);
    var k := SkipSet(line, i0, WordChars);
    if k == i0 then None
    else
      var i1 := SkipSet(line, k, Whitespace);
      if i1 == |line| || line[i1] != '=' then None
      else
        var i2 := SkipSet(line, i1 + 1, Whitespace);
        if i2 == |line| || line[i2] != '"' then None
        else
          var e := LastEnd(line, '"');
          if e <= i2 + 1 || !AssignTail(line[e..]) then None
          else
            SkipSetRun(line, i0, WordChars);
            Some((line[i0..k], line[i2 + 1..e - 1]))
  }

  /** The match read off the indices the pattern stops at. */
  lemma AssignMatchIs(line: string, key: string, val: string, tail: string, i0: nat, k: nat, i1: nat, i2: nat, e: nat)
    requires i0 < k <= i1 < i2 && i2 + 1 < e <= |line|
    requires SkipSet(line, 0, Whitespace) == i0 && SkipSet(line, i0, WordChars) == k
    requires SkipSet(line, k, Whitespace) == i1 && line[i1] == '='
    requires SkipSet(line, i1 + 1, Whitespace) == i2 && line[i2] == '"' && LastEnd(line, '"') == e
    requires line[e..] == tail && AssignTail(tail) && line[i0..k] == key && line[i2 + 1..e - 1] == val
    ensures AssignMatch(line) == Some((key, val))
  {
    assert i1 < |line| && i2 < |line|;
    assert AssignTail(line[e..]);
  }

  /** A closing quote followed by an assignment tail is the line's last quote. */
  lemma LastEndBeforeTail(line: string, e: nat, tail: string)
    requires 0 < e <= |line| && line[e - 1] == '"' && line[e..] == tail && AssignTail(tail)
    ensures LastEnd(line, '"') == e
  {
    AssignTailUnquoted(tail);
    assert forall j :: e <= j < |line| ==> line[j] == tail[j - e];
    LastEndAt(line, '"', e - 1);
  }

  /** The positions of the pieces of an assignment line. */
  lemma AssignLine(p: string, key: string, s1: string, s2: string, val: string, tail: string)
    ensures var line := p + key + s1 + "=" + s2 + "\"" + val + "\"" + tail;
      var k := |p| + |key|; var i1 := k + |s1|; var i2 := i1 + 1 + |s2|; var e := i2 + 1 + |val| + 1;
      |line| == e + |tail| &&
      line[0..|p|] == p && line[|p|..k] == key && line[k..i1] == s1 && line[i1] == '=' &&
      line[i1 + 1..i2] == s2 && line[i2] == '"' && line[i2 + 1..e - 1] == val && line[e - 1] == '"' && line[e..] == tail
  {
    var l1 := p + key;
    var l2 := l1 + s1;
    var l3 := l2 + "=";
    var l4 := l3 + s2;
    var l5 := l4 + "\"";
    var l6 := l5 + val;
    var l7 := l6 + "\"";
    var line := l7 + tail;
    assert line[..|l7|] == l7;
    assert l7[..|l6|] == l6;
    assert l6[..|l5|] == l5;
    assert l5[..|l4|] == l4;
    assert l4[..|l3|] == l3;
    assert l3[..|l2|] == l2;
    assert l2[..|l1|] == l1;
  }

  /** Where the four scans of the assignment pattern stop, for blanks `ws` and word characters `wc`. */
  lemma HeadScans(line: string, i0: nat, k: nat, i1: nat, i2: nat, ws: set<char>, wc: set<char>)
    requires i0 < k <= i1 < i2 < |line| && line[i0] !in ws && line[k] !in wc && line[i1] !in ws && line[i2] !in ws
    requires AllIn(line[0..i0], ws) && AllIn(line[i0..k], wc) && AllIn(line[k..i1], ws) && AllIn(line[i1 + 1..i2], ws)
    ensures SkipSet(line, 0, ws) == i0 && SkipSet(line, i0, wc) == k
    ensures SkipSet(line, k, ws) == i1 && SkipSet(line, i1 + 1, ws) == i2
  {
    SkipSetOver(line, 0, i0, ws);
    SkipSetOver(line, i0, k, wc);
    SkipSetOver(line, k, i1, ws);
    SkipSetOver(line, i1 + 1, i2, ws);
  }

  /** The assignment pattern on a line whose pieces sit where `AssignLine` puts them. */
  lemma AssignPiecesMatch(line: string, p: string, key: string, s1: string, s2: string, val: string, tail: string)
    requires IsBlank(p) && IsBlank(s1) && IsBlank(s2) && AssignTail(tail) && key != "" && AllIn(key, WordChars)
    requires var k := |p| + |key|; var i1 := k + |s1|; var i2 := i1 + 1 + |s2|; var e := i2 + 1 + |val| + 1;
      |line| == e + |tail| &&
      line[0..|p|] == p && line[|p|..k] == key && line[k..i1] == s1 && line[i1] == '=' &&
      line[i1 + 1..i2] == s2 && line[i2] == '"' && line[i2 + 1..e - 1] == val && line[e - 1] == '"' && line[e..] == tail
    ensures AssignMatch(line) == Some((key, val))
  {
    var k := |p| + |key|;
    var i1 := k + |s1|;
    var i2 := i1 + 1 + |s2|;
    var e := i2 + 1 + |val| + 1;
    assert line[k] !in WordChars by {
      var c := line[k];
      assert c == if s1 == [] then '=' else s1[0];
      CharClasses(c);
    }
    assert line[|p|] !in Whitespace by {
      assert line[|p|] == key[0];
      CharClasses(key[0]);
    }
    CharClasses('=');
    HeadScans(line, |p|, k, i1, i2, Whitespace, WordChars);
    LastEndBeforeTail(line, e, tail);
    AssignMatchIs(line, key, val, tail, |p|, k, i1, i2, e);
  }

  /** Every line of the assignment shape matches `_ASSIGN_RE`, whatever quotes the value holds. */
  lemma AssignMatchOf(p: string, key: string, s1: string, s2: string, val: string, tail: string)
    requires IsBlank(p) && IsBlank(s1) && IsBlank(s2) && AssignTail(tail) && key != "" && AllIn(key, WordChars)
    ensures AssignMatch(p + key + s1 + "=" + s2 + "\"" + val + "\"" + tail) == Some((key, val))
  {
    AssignLine(p, key, s1, s2, val, tail);
    AssignPiecesMatch(p + key + s1 + "=" + s2 + "\"" + val + "\"" + tail, p, key, s1, s2, val, tail);
  }

  /** A line cut at the indices where the assignment pattern stops is the line again. */
  lemma AssignRejoin(line: string, i0: nat, k: nat, i1: nat, i2: nat, e: nat)
    requires i0 <= k <= i1 < i2 && i2 + 1 < e <= |line| && line[i1] == '=' && line[i2] == '"' && line[e - 1] == '"'
    ensures line == line[..i0] + line[i0..k] + line[k..i1] + "=" + line[i1 + 1..i2] + "\"" + line[i2 + 1..e - 1] + "\"" + line[e..]
  {
    assert line[..k] == line[..i0] + line[i0..k];
    assert line[..i1] == line[..k] + line[k..i1];
    assert line[..i1 + 1] == line[..i1] + "=";
    assert line[..i2] == line[..i1 + 1] + line[i1 + 1..i2];
    assert line[..i2 + 1] == line[..i2] + "\"";
    assert line[..e - 1] == line[..i2 + 1] + line[i2 + 1..e - 1];
    assert line[..e] == line[..e - 1] + "\"";
    assert line == line[..e] + line[e..];
  }

  /** The pieces between the indices where the assignment pattern stops. */
  lemma AssignCut(line: string, i0: nat, k: nat, i1: nat, i2: nat, e: nat) returns (p: string, s1: string, s2: string, tail: string)
    requires i0 <= k <= i1 < i2 && i2 + 1 < e <= |line| && line[i1] == '=' && line[i2] == '"' && line[e - 1] == '"'
    requires AllIn(line[0..i0], Whitespace) && AllIn(line[k..i1], Whitespace) && AllIn(line[i1 + 1..i2], Whitespace) && AssignTail(line[e..])
    ensures IsBlank(p) && IsBlank(s1) && IsBlank(s2) && AssignTail(tail)
    ensures line == p + line[i0..k] + s1 + "=" + s2 + "\"" + line[i2 + 1..e - 1] + "\"" + tail
  {
    p, s1, s2, tail := line[..i0], line[k..i1], line[i1 + 1..i2], line[e..];
    assert line[0..i0] == p;
    AssignRejoin(line, i0, k, i1, i2, e);
  }

  /** A matching line has the assignment shape, with blanks where the pattern allows them. */
  lemma AssignMatchShape(line: string) returns (p: string, s1: string, s2: string, tail: string)
    requires AssignMatch(line).Some?
    ensures var (key, val) := AssignMatch(line).value;
      IsBlank(p) && IsBlank(s1) && IsBlank(s2) && AssignTail(tail) &&
      line == p + key + s1 + "=" + s2 + "\"" + val + "\"" + tail
  {
    var i0 := SkipSet(line, 0, Whitespace);
    var k := SkipSet(line, i0, WordChars);
    var i1 := SkipSet(line, k, Whitespace);
    var i2 := SkipSet(line, i1 + 1, Whitespace);
    var e := LastEnd(line, '"');
    assert AssignMatch(line).value == (line[i0..k], line[i2 + 1..e - 1]);
    SkipSetRun(line, 0, Whitespace);
    SkipSetRun(line, k, Whitespace);
    SkipSetRun(line, i1 + 1, Whitespace);
    p, s1, s2, tail := AssignCut(line, i0, k, i1, i2, e);
  }

  // ---------------------------------------------------------------- parse_model_ini_for_edids

  /**
   * What one line of model.ini is to the parse: a section header (with
   * whether its section is one whose flags count), a quoted assignment, or neither.
   */
  datatype LineKind = Header(name: string, counts: bool) | Assignment(key: string, value: string) | Skip

  /** The section pattern is tried first, both on the line without its comment. */
  function Classify(raw: string): LineKind
  {
    var line := CutComments(raw);
    var sec := SectionHeader(line);
    if sec.Some? then Header(Strip(sec.value), FlagSection(Some(Strip(sec.value))))
    else
      var m := AssignMatch(line);
      if m.Some? then Assignment(m.value.0, m.value.1) else Skip
  }

  /** Every line, classified. */
  function Kinds(lines: seq<string>): (ks: seq<LineKind>)
    ensures |ks| == |lines| && forall i :: 0 <= i < |lines| ==> ks[i] == Classify(lines[i])
  {
    seq(|lines|, i requires 0 <= i < |lines| => Classify(lines[i]))
  }

  const VrrKey: string := "isSupportVRR"
  const QmsKey: string := "isSupportQMS"

  /** `current_section` after the lines `ks`: the name of the last header, None before any. */
  function SectionAfter(ks: seq<LineKind>): (r: Option<string>)
    ensures r.Some? ==> exists i :: 0 <= i < |ks| && ks[i].Header? && ks[i].name == r.value
    decreases |ks|
  {
    if |ks| == 0 then None
    else
      var last := |ks| - 1;
      if ks[last].Header? then Some(ks[last].name)
      else
        var r := SectionAfter(ks[..last]);
        assert r.Some? ==> exists i :: 0 <= i < last && ks[..last][i].Header? && ks[..last][i].name == r.value;
        r
  }

  /** A section whose flags count: non-empty and named srcfunc or vrr in any letter case. */
  predicate FlagSection(section: Option<string>)
  {
    section.Some? && section.value != "" && Lower(Strip(section.value)) in {"srcfunc", "vrr"}
  }

  /** Whether the lines `ks` leave the parse in a section whose flags count: the last header says. */
  predicate FlagsOn(ks: seq<LineKind>)
    decreases |ks|
  {
    if |ks| == 0 then false
    else if ks[|ks| - 1].Header? then ks[|ks| - 1].counts
    else FlagsOn(ks[..|ks| - 1])
  }

  /** Line `i` assigns `key` (exact spelling) inside a flag section. */
  predicate SetsFlag(ks: seq<LineKind>, i: nat, key: string)
    requires i < |ks|
  {
    ks[i].Assignment? && ks[i].key == key && FlagsOn(ks[..i])
  }

  /** The value of the last line that sets `key`, if any. */
  function LastFlagValue(ks: seq<LineKind>, key: string): (r: Option<string>)
    decreases |ks|
  {
    if |ks| == 0 then None
    else
      var last := |ks| - 1;
      if SetsFlag(ks, last, key) then Some(ks[last].value) else LastFlagValue(ks[..last], key)
  }

  /** The flag after the lines `ks`: `parse_bool` of the value that set it last, None when nothing did. */
  function FlagAfter(ks: seq<LineKind>, key: string): Option<bool>
  {
    var v := LastFlagValue(ks, key);
    if v.None? then None else ParseBool(v.value)
  }

  /** One `edid_entries` element. */
  datatype Entry = Entry(section: string, key: string, value: string, filename: string)

  /** A value names an EDID binary: its lower-case form holds "edid" and ends with ".bin". */
  predicate IsEdidPath(v: string)
  {
    Contains(Lower(v), "edid") && EndsWith(Lower(v), ".bin")
  }

  /** A quoted assignment of an EDID path, in whatever section. */
  predicate IsEdid(k: LineKind)
  {
    k.Assignment? && IsEdidPath(k.value)
  }


  /** The entry an EDID line records: its section so far, key, path and basename. */
  function EntryAt(ks: seq<LineKind>, i: nat): Entry
    requires i < |ks| && ks[i].Assignment?
  {
    Entry(OrEmpty(SectionAfter(ks[..i])), ks[i].key, ks[i].value, Basename(ks[i].value))
  }

  /** The entries after the lines `ks`, appended as their lines come. */
  function Edids(ks: seq<LineKind>): seq<Entry>
    decreases |ks|
  {
    if |ks| == 0 then []
    else
      var last := |ks| - 1;
      Edids(ks[..last]) + (if IsEdid(ks[last]) then [EntryAt(ks, last)] else [])
  }

  /** The three results after one more line, from those before it. */
  lemma ParseStep(ks: seq<LineKind>, i: nat)
    requires i < |ks|
    ensures var pre := ks[..i]; var c := ks[i];
      SectionAfter(ks[..i + 1]) == (if c.Header? then Some(c.name) else SectionAfter(pre)) &&
      FlagsOn(ks[..i + 1]) == (if c.Header? then c.counts else FlagsOn(pre)) &&
      LastFlagValue(ks[..i + 1], VrrKey) ==
        (if c.Assignment? && c.key == VrrKey && FlagsOn(pre) then Some(c.value) else LastFlagValue(pre, VrrKey)) &&
      LastFlagValue(ks[..i + 1], QmsKey) ==
        (if c.Assignment? && c.key == QmsKey && FlagsOn(pre) then Some(c.value) else LastFlagValue(pre, QmsKey)) &&
      Edids(ks[..i + 1]) ==
        Edids(pre) + (if IsEdid(c) then [Entry(OrEmpty(SectionAfter(pre)), c.key, c.value, Basename(c.value))] else [])
  {
    var all := ks[..i + 1];
    assert all[..i] == ks[..i] && all[i] == ks[i];
  }

  /** The line pattern tests of the loop body are `Classify`. */
  lemma ClassifyParts(raw: string)
    ensures var line := CutComments(raw); var sec := SectionHeader(line); var m := AssignMatch(line);
      Classify(raw) == if sec.Some? then Header(Strip(sec.value), FlagSection(Some(Strip(sec.value)))) else if m.Some? then Assignment(m.value.0, m.value.1) else Skip
  {
  }

  /**
   * `parse_model_ini_for_edids` on the file's lines: one pass keeping the
   * current section, the two flags and the EDID entries found so far.
   */
  method ParseModelIni(lines: seq<string>) returns (vrr: Option<bool>, qms: Option<bool>, entries: seq<Entry>)
    ensures vrr == FlagAfter(Kinds(lines), VrrKey) && qms == FlagAfter(Kinds(lines), QmsKey)
    ensures entries == Edids(Kinds(lines))
  {
    ghost var ks := Kinds(lines);
    var section: Option<string> := None;
    vrr, qms, entries := None, None, [];
    var i := 0;
    while i < |lines|
      invariant 0 <= i <= |lines|
      invariant section == SectionAfter(ks[..i]) && FlagSection(section) == FlagsOn(ks[..i])
      invariant vrr == FlagAfter(ks[..i], VrrKey) && qms == FlagAfter(ks[..i], QmsKey)
      invariant entries == Edids(ks[..i])
    {
      ParseStep(ks, i);
      ClassifyParts(lines[i]);
      var line := CutComments(lines[i]);
      var sec := SectionHeader(line);
      if sec.Some? {
        section := Some(Strip(sec.value));
      } else {
        var m := AssignMatch(line);
        if m.Some? {
          var (key, val) := m.value;
          if FlagSection(section) {
            if key == VrrKey {
              vrr := ParseBool(val);
            } else if key == QmsKey {
              qms := ParseBool(val);
            }
          }
          if IsEdidPath(val) {
            entries := entries + [Entry(OrEmpty(section), key, val, Basename(val))];
          }
        }
      }
      i := i + 1;
    }
    assert ks[..|lines|] == ks;
  }

  // ---------------------------------------------------------------- properties of the parse

  /** Cutting the lines short does not change what a line before the cut sets. */
  lemma SetsFlagPrefix(ks: seq<LineKind>, n: nat, j: nat, key: string)
    requires j < n <= |ks|
    ensures SetsFlag(ks[..n], j, key) == SetsFlag(ks, j, key)
  {
    assert ks[..n][..j] == ks[..j] && ks[..n][j] == ks[j];
  }

  /** The last flag-setting line decides the flag; a value `parse_bool` rejects resets it to None. */
  lemma {:induction false} LastAssignmentWins(ks: seq<LineKind>, i: nat, key: string)
    requires i < |ks| && SetsFlag(ks, i, key)
    requires forall j :: i < j < |ks| ==> !SetsFlag(ks, j, key)
    ensures LastFlagValue(ks, key) == Some(ks[i].value)
    ensures FlagAfter(ks, key) == ParseBool(ks[i].value)
    decreases |ks|
  {
    var last := |ks| - 1;
    if i < last {
      var pre := ks[..last];
      assert !SetsFlag(ks, last, key);
      assert LastFlagValue(ks, key) == LastFlagValue(pre, key);
      SetsFlagPrefix(ks, last, i, key);
      forall j | i < j < |pre|
        ensures !SetsFlag(pre, j, key)
      {
        SetsFlagPrefix(ks, last, j, key);
      }
      LastAssignmentWins(pre, i, key);
      assert pre[i] == ks[i];
    } else {
      assert i == last && SetsFlag(ks, last, key);
    }
  }

  /** Without a flag-setting line the flag stays None: other sections and other keys are ignored. */
  lemma {:induction false} FlagUnset(ks: seq<LineKind>, key: string)
    requires forall j :: 0 <= j < |ks| ==> !SetsFlag(ks, j, key)
    ensures LastFlagValue(ks, key) == None && FlagAfter(ks, key) == None
    decreases |ks|
  {
    if |ks| > 0 {
      var last := |ks| - 1;
      forall j | 0 <= j < last
        ensures !SetsFlag(ks[..last], j, key)
      {
        SetsFlagPrefix(ks, last, j, key);
      }
      FlagUnset(ks[..last], key);
    }
  }

  /** Cutting the lines short does not change the entry of an EDID line before the cut. */
  lemma EntryAtPrefix(ks: seq<LineKind>, n: nat, j: nat)
    requires j < n <= |ks| && ks[j].Assignment?
    ensures ks[..n][j] == ks[j] && EntryAt(ks[..n], j) == EntryAt(ks, j)
  {
    assert ks[..n][..j] == ks[..j] && ks[..n][j] == ks[j];
  }

  /** The indices of the EDID lines, in increasing order. */
  function EdidLines(ks: seq<LineKind>): (ix: seq<nat>)
    ensures forall a :: 0 <= a < |ix| ==> ix[a] < |ks| && IsEdid(ks[ix[a]])
    ensures forall a, b :: 0 <= a < b < |ix| ==> ix[a] < ix[b]
    ensures forall i :: 0 <= i < |ks| && IsEdid(ks[i]) ==> i in ix
    decreases |ks|
  {
    if |ks| == 0 then []
    else
      var last := |ks| - 1;
      var ix := EdidLines(ks[..last]);
      EdidLinesSnoc(ks, ix);
      ix + (if IsEdid(ks[last]) then [last] else [])
  }

  /** The EDID indices of all lines but the last, plus the last line's index when it is an EDID line. */
  lemma EdidLinesSnoc(ks: seq<LineKind>, ix: seq<nat>)
    requires |ks| > 0
    requires forall a :: 0 <= a < |ix| ==> ix[a] < |ks| - 1 && IsEdid(ks[..|ks| - 1][ix[a]])
    requires forall a, b :: 0 <= a < b < |ix| ==> ix[a] < ix[b]
    requires forall i :: 0 <= i < |ks| - 1 && IsEdid(ks[..|ks| - 1][i]) ==> i in ix
    ensures var jx := ix + (if IsEdid(ks[|ks| - 1]) then [|ks| - 1] else []);
      (forall a :: 0 <= a < |jx| ==> jx[a] < |ks| && IsEdid(ks[jx[a]])) &&
      (forall a, b :: 0 <= a < b < |jx| ==> jx[a] < jx[b]) &&
      (forall i :: 0 <= i < |ks| && IsEdid(ks[i]) ==> i in jx)
  {
    var last := |ks| - 1;
    var pre := ks[..last];
    assert forall i :: 0 <= i < last ==> ks[i] == pre[i];
  }

  /**
   * The entries are exactly the EDID lines, one each, in file order, whatever
   * section they are in; each keeps its key, its path and the path's basename.
   */
  lemma {:induction false} EdidsInFileOrder(ks: seq<LineKind>)
    ensures var ix := EdidLines(ks); var es := Edids(ks);
      |es| == |ix| && forall a :: 0 <= a < |ix| ==> es[a] == EntryAt(ks, ix[a])
    decreases |ks|
  {
    if |ks| > 0 {
      var last := |ks| - 1;
      var pre := ks[..last];
      EdidsInFileOrder(pre);
      EdidsSnoc(ks);
      EdidsOrderStep(ks, EdidLines(pre), Edids(pre));
      PairedEntries(ks, EdidLines(ks), Edids(ks));
    }
  }

  lemma PairedEntries(ks: seq<LineKind>, ix: seq<nat>, es: seq<Entry>)
    requires Paired(ks, ix, es)
    ensures |es| == |ix| && forall a :: 0 <= a < |ix| ==> es[a] == EntryAt(ks, ix[a])
  {
  }

  /** The EDID indices and the entries after one more line. */
  lemma EdidsSnoc(ks: seq<LineKind>)
    requires |ks| > 0
    ensures var last := |ks| - 1;
      EdidLines(ks) == EdidLines(ks[..last]) + (if IsEdid(ks[last]) then [last] else []) &&
      Edids(ks) == Edids(ks[..last]) + (if IsEdid(ks[last]) then [EntryAt(ks, last)] else [])
  {
  }

  /** Entry `a` of `es` is the entry of the EDID line at index `ix[a]` of `ks`. */
  ghost predicate Paired(ks: seq<LineKind>, ix: seq<nat>, es: seq<Entry>)
  {
    |es| == |ix| && forall a :: 0 <= a < |ix| ==> ix[a] < |ks| && IsEdid(ks[ix[a]]) && es[a] == EntryAt(ks, ix[a])
  }

  /** The entries stay paired with the EDID lines when one more line is read. */
  lemma EdidsOrderStep(ks: seq<LineKind>, ix: seq<nat>, es: seq<Entry>)
    requires |ks| > 0 && Paired(ks[..|ks| - 1], ix, es)
    ensures IsEdid(ks[|ks| - 1]) ==> Paired(ks, ix + [|ks| - 1], es + [EntryAt(ks, |ks| - 1)])
    ensures !IsEdid(ks[|ks| - 1]) ==> Paired(ks, ix, es)
  {
    var last := |ks| - 1;
    EdidsKept(ks, ix, es);
    if IsEdid(ks[last]) {
      var ix', es' := ix + [last], es + [EntryAt(ks, last)];
      forall a | 0 <= a < |ix'|
        ensures ix'[a] < |ks| && IsEdid(ks[ix'[a]]) && es'[a] == EntryAt(ks, ix'[a])
      {
        if a < |ix| {
          assert ix'[a] == ix[a] && es'[a] == es[a];
        } else {
          assert ix'[a] == last && es'[a] == EntryAt(ks, last);
        }
      }
    }
  }

  /** The entries of the EDID lines before the last line are those of the whole file. */
  lemma EdidsKept(ks: seq<LineKind>, ix: seq<nat>, es: seq<Entry>)
    requires |ks| > 0 && Paired(ks[..|ks| - 1], ix, es)
    ensures Paired(ks, ix, es)
  {
    var last := |ks| - 1;
    forall a | 0 <= a < |ix|
      ensures ix[a] < |ks| && IsEdid(ks[ix[a]]) && es[a] == EntryAt(ks, ix[a])
    {
      EntryAtPrefix(ks, last, ix[a]);
    }
  }

  // ---------------------------------------------------------------- infer_flags_from_filename

  /** One flag from the upper-cased name: "_NO_<token>" gives False, else "_<token>" gives True. */
  function InferFlag(up: string, token: string): (r: Option<bool>)
    ensures r == Some(false) <==> Contains(up, "_NO_" + token)
    ensures r == Some(true) <==> !Contains(up, "_NO_" + token) && Contains(up, "_" + token)
    ensures r.None? <==> !Contains(up, "_" + token)
  {
    if Contains(up, "_NO_" + token) then
      NoTokenHasToken(up, token);
      Some(false)
    else if Contains(up, "_" + token) then Some(true)
    else None
  }

  /** A "_NO_" token also holds the plain one, which is why "_NO_" is looked for first. */
  lemma NoTokenHasToken(s: string, token: string)
    requires Contains(s, "_NO_" + token)
    ensures Contains(s, "_" + token)
  {
    var i :| 0 <= i <= |s| - |"_NO_" + token| && OccursAt(s, "_NO_" + token, i);
    assert s[i + 3..i + 3 + |"_" + token|] == ("_NO_" + token)[3..];
    assert OccursAt(s, "_" + token, i + 3);
  }

  /** `infer_flags_from_filename`: the (vrr, qms) pair the file name implies. */
  function InferFlags(filename: string): (r: (Option<bool>, Option<bool>))
    ensures r.0 == InferFlag(Upper(filename), "VRR") && r.1 == InferFlag(Upper(filename), "QMS")
  {
    var up := Upper(filename);
    (InferFlag(up, "VRR"), InferFlag(up, "QMS"))
  }

  /** Both tokens in one name: the explicit "_NO_" form wins. */
  lemma NoBeatsPlain(filename: string)
    requires Contains(Upper(filename), "_NO_VRR") && Contains(Upper(filename), "_VRR")
    ensures InferFlags(filename).0 == Some(false)
  {
    assert "_NO_" + "VRR" == "_NO_VRR";
  }

  /** The tokens are looked for in any letter case. */
  lemma InferFlagsCaseBlind(filename: string)
    ensures InferFlags(Lower(filename)) == InferFlags(filename)
  {
    assert Upper(Lower(filename)) == Upper(filename);
  }

  // ---------------------------------------------------------------- build_rows

  const Rule: string := "EDID filename tokens must match [SrcFunc] flags"

  /** A flag the name implies but model.ini leaves unset or sets otherwise. */
  predicate Mismatch(implied: Option<bool>, src: Option<bool>)
  {
    implied.Some? && (src.None? || src.value != implied.value)
  }

  /** One flag's check: whether it fails the row, and its message. */
  function FlagCheck(name: string, implied: Option<bool>, src: Option<bool>): (r: (bool, string))
    ensures r.0 <==> Mismatch(implied, src)
    ensures implied.None? ==> r.1 == name + " not implied by filename"
    ensures implied.Some? && !r.0 ==> StartsWith(r.1, name + " OK: implied ")
    ensures r.0 ==> StartsWith(r.1, name + " implied by name (")
  {
    var flag := "isSupport" + name;
    if implied.None? then (false, name + " not implied by filename")
    else
      var lead := name + " implied by name (";
      var shown := PyBool(implied.value) + ")";
      if src.None? then
        var tail := shown + " but " + flag + " missing";
        StartsWithJoin(lead, tail);
        (true, lead + tail)
      else if src.value != implied.value then
        var tail := shown + " != " + flag + " (" + PyBool(src.value) + ")";
        StartsWithJoin(lead, tail);
        (true, lead + tail)
      else
        var tail := PyBool(implied.value) + " == " + flag;
        StartsWithJoin(name + " OK: implied ", tail);
        (false, name + " OK: implied " + tail)
  }

  /** The row for one entry: rule, PASS/FAIL, seven context cells, then the VRR and QMS checks. */
  function Row(modelIni: string, srcVrr: Option<bool>, srcQms: Option<bool>, e: Entry): (row: seq<string>)
    ensures |row| == 11 && row[0] == Rule && (row[1] == "PASS" || row[1] == "FAIL")
    ensures var (vi, qi) := InferFlags(e.filename); row[1] == "FAIL" <==> Mismatch(vi, srcVrr) || Mismatch(qi, srcQms)
    ensures var (vi, qi) := InferFlags(e.filename); row[9] == FlagCheck("VRR", vi, srcVrr).1 && row[10] == FlagCheck("QMS", qi, srcQms).1
  {
    var (vi, qi) := InferFlags(e.filename);
    var (vrrFails, vrrCheck) := FlagCheck("VRR", vi, srcVrr);
    var (qmsFails, qmsCheck) := FlagCheck("QMS", qi, srcQms);
    var result := if vrrFails || qmsFails then "FAIL" else "PASS";
    [Rule, result, "model_ini=" + modelIni, "section=" + e.section + " key=" + e.key, "edid_path=" + e.value,
     "infer_VRR=" + PyOptBool(vi), "isSupportVRR=" + PyOptBool(srcVrr),
     "infer_QMS=" + PyOptBool(qi), "isSupportQMS=" + PyOptBool(srcQms)] + [vrrCheck, qmsCheck]
  }

  /** `build_rows`: one row per entry, in entry order. */
  method BuildRows(modelIni: string, srcVrr: Option<bool>, srcQms: Option<bool>, entries: seq<Entry>)
    returns (rows: seq<seq<string>>)
    ensures |rows| == |entries| && forall a :: 0 <= a < |entries| ==> rows[a] == Row(modelIni, srcVrr, srcQms, entries[a])
  {
    rows := [];
    var i := 0;
    while i < |entries|
      invariant 0 <= i <= |entries| && |rows| == i
      invariant forall a :: 0 <= a < i ==> rows[a] == Row(modelIni, srcVrr, srcQms, entries[a])
    {
      rows := rows + [Row(modelIni, srcVrr, srcQms, entries[i])];
      i := i + 1;
    }
  }

  /** The matching name shows the flag model.ini declares: the row passes that flag. */
  lemma AgreeingNamePasses(modelIni: string, srcVrr: Option<bool>, srcQms: Option<bool>, e: Entry)
    requires InferFlags(e.filename).0 == srcVrr && InferFlags(e.filename).1 == srcQms
    ensures Row(modelIni, srcVrr, srcQms, e)[1] == "PASS"
  {
  }

  /** A name without either token never fails, whatever model.ini declares. */
  lemma TokenlessNamePasses(modelIni: string, srcVrr: Option<bool>, srcQms: Option<bool>, e: Entry)
    requires !Contains(Upper(e.filename), "_VRR") && !Contains(Upper(e.filename), "_QMS")
    ensures Row(modelIni, srcVrr, srcQms, e)[1] == "PASS"
  {
    assert "_" + "VRR" == "_VRR" && "_" + "QMS" == "_QMS";
  }

  // ---------------------------------------------------------------- main

  /**
   * `main` without the console and the Excel report: an unreadable model.ini
   * stops the run; otherwise one row per EDID entry, judged against the flags.
   */
  method CheckVrrQms(fs: FileSystem, modelIni: string) returns (r: Option<seq<seq<string>>>)
    ensures r.None? <==> !Exists(fs, modelIni)
    ensures r.Some? ==> var ks := Kinds(ReadLines(fs, modelIni).value); var es := Edids(ks);
      |r.value| == |es| &&
      forall a :: 0 <= a < |es| ==> r.value[a] == Row(modelIni, FlagAfter(ks, VrrKey), FlagAfter(ks, QmsKey), es[a])
  {
    var lines := ReadLines(fs, modelIni);
    if lines.None? {
      return None;
    }
    var vrr, qms, entries := ParseModelIni(lines.value);
    var rows := BuildRows(modelIni, vrr, qms, entries);
    r := Some(rows);
  }
}
