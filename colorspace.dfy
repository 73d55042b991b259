/**
 * check_osdtable_colorspace.py: model.ini names the OSD table through
 * `PQ_OSD` (preferably inside a `misc_pq*` section), the reference is mapped
 * under the project root, and the table passes when `ColorSpace` reads 0 in
 * both its `[Dolby_Dark]` and its `[Dolby_IQ]` section.
 */
module Colorspace {
  import opened Wrappers
  import opened Text
  import opened Paths
  import opened Files
  import opened Ini
  import opened Scan
  import opened Dedup
  import Resolvers

  // ---------------------------------------------------------------- one line of parse_simple_ini

  /** What `parse_simple_ini` makes of one line. */
  datatype LineKind = Skip | Header(name: string) | Assign(key: string, val: string)

  /** The stored form of a key: ASCII lower case, spaces removed (`.lower().replace(" ", "")`). */
  function NormKey(k: string): (r: string)
    ensures IsLowerCase(r) && ' ' !in r
  {
    var l := Lower(k);
    var r := RemoveChar(l, ' ');
    assert forall i :: 0 <= i < |r| ==> r[i] in l;
    r
  }

  /** Normalising a key twice is normalising it once: lookups ignore case and spaces. */
  lemma NormKeyIdempotent(k: string)
    ensures NormKey(NormKey(k)) == NormKey(k)
  {
    var r := NormKey(k);
    LowerFixed(r);
    RemoveCharAbsent(r, ' ');
  }

  lemma LowerFixed(s: string)
    requires IsLowerCase(s)
    ensures Lower(s) == s
  {
  }

  lemma {:induction false} RemoveCharAbsent(s: string, c: char)
    requires c !in s
    ensures RemoveChar(s, c) == s
    decreases |s|
  {
    if |s| > 0 {
      RemoveCharAbsent(s[1..], c);
      assert s == [s[0]] + s[1..];
    }
  }

  /** `^\s*\[([^\]]+)\]\s*$` on a line whose trimmed form is `t`: the name inside the brackets, trimmed. */
  function HeaderName(t: string): (r: Option<string>)
  {
    if 3 <= |t| && t[0] == '[' && t[|t| - 1] == ']' && ']' !in t[1..|t| - 1] then Some(Strip(t[1..|t| - 1])) else None
  }

  const Separators: set<char> := {'=', ':'}

  /** `v.split(c, 1)[0].strip()` when `c` occurs in `v`; `v` itself otherwise. */
  function CutAt(v: string, c: char): (r: string)
    ensures c !in r
    ensures c !in v ==> r == v
  {
    if c in v then
      var b := Before(v, c);
      NotInStrip(b, c);
      Strip(b)
    else v
  }

  /** Cutting at `c` adds no character. */
  lemma CutAtKeeps(v: string, c: char, d: char)
    requires d !in v
    ensures d !in CutAt(v, c)
  {
    if c in v {
      var b := Before(v, c);
      assert forall i :: 0 <= i < |b| ==> b[i] == v[i];
      NotInStrip(b, d);
    }
  }

  /**
   * `^\s*(?P<key>[^=:#]+?)\s*[:=]\s*(?P<val>.*?)\s*$`: the separator is the
   * first ':' or '=' of the line, and at least one character, none of them
   * '#', precedes it.  The key is trimmed and normalised; the value is
   * trimmed and cut at the first '#' and then at the first ';'.
   */
  function AssignOf(line: string): (r: Option<(string, string)>)
    ensures r.Some? ==> IsLowerCase(r.value.0) && ' ' !in r.value.0 && '#' !in r.value.1 && ';' !in r.value.1
  {
    var p := SetIndex(line, Separators);
    if 1 <= p < |line| && '#' !in line[..p] then
      var v := CutAt(Strip(line[p + 1..]), '#');
      CutAtKeeps(v, ';', '#');
      Some((NormKey(Strip(line[..p])), CutAt(v, ';')))
    else None
  }

  /** Blank and comment lines are skipped; a header is tried before an assignment. */
  function Classify(line: string): (k: LineKind)
    ensures k.Assign? ==> IsLowerCase(k.key) && ' ' !in k.key && '#' !in k.val && ';' !in k.val
  {
    var t := Strip(line);
    if t == "" || t[0] == '#' || t[0] == ';' then Skip
    else
      match HeaderName(t)
      case Some(n) => Header(n)
      case None =>
        match AssignOf(line)
        case Some(kv) => Assign(kv.0, kv.1)
        case None => Skip
  }

  // ---------------------------------------------------------------- the table

  /** The parsed table: section names in first-seen order (the dict's key order) and each section's keys. */
  datatype IniTable = IniTable(order: seq<string>, sections: map<string, map<string, string>>)

  /** `data` and `current` after the loop has seen some lines. */
  datatype ParseState = ParseState(table: IniTable, current: Option<string>)

  /** Every section is listed once and the current section exists. */
  ghost predicate WellFormed(st: ParseState)
  {
    NoDup(st.table.order) &&
    (forall s :: s in st.table.sections <==> s in st.table.order) &&
    (st.current.Some? ==> st.current.value in st.table.sections)
  }

  /**
   * One line of the loop: a header makes its section current (`setdefault`
   * keeps what a repeated header already collected); an assignment under a
   * current section stores the value, replacing an earlier one.
   */
  function Step(st: ParseState, k: LineKind): (r: ParseState)
  {
    match k
    case Skip => st
    case Header(n) =>
      var t := st.table;
      ParseState(if n in t.sections then t else IniTable(t.order + [n], t.sections[n := map[]]), Some(n))
    case Assign(key, v) =>
      if st.current.None? then st
      else
        var c := st.current.value;
        var t := st.table;
        var sec := if c in t.sections then t.sections[c] else map[];
        ParseState(IniTable(t.order, t.sections[c := sec[key := v]]), st.current)
  }

  lemma StepWellFormed(st: ParseState, k: LineKind)
    requires WellFormed(st)
    ensures WellFormed(Step(st, k))
  {
    if k.Header? && k.name !in st.table.sections {
      var o := st.table.order + [k.name];
      assert forall i :: 0 <= i < |st.table.order| ==> o[i] == st.table.order[i];
      assert k.name !in st.table.order;
    }
  }

  /** The loop's state after the lines classified as `ks`. */
  function Parse(ks: seq<LineKind>): (st: ParseState)
    ensures WellFormed(st)
    decreases |ks|
  {
    if |ks| == 0 then ParseState(IniTable([], map[]), None)
    else
      var prev := Parse(ks[..|ks| - 1]);
      StepWellFormed(prev, ks[|ks| - 1]);
      Step(prev, ks[|ks| - 1])
  }

  /** The classification of each line. */
  function Kinds(lines: seq<string>): (ks: seq<LineKind>)
    ensures |ks| == |lines| && forall i :: 0 <= i < |lines| ==> ks[i] == Classify(lines[i])
  {
    seq(|lines|, i requires 0 <= i < |lines| => Classify(lines[i]))
  }

  lemma KindsSnoc(lines: seq<string>, i: nat)
    requires i < |lines|
    ensures Kinds(lines[..i + 1]) == Kinds(lines[..i]) + [Classify(lines[i])]
  {
  }

  /** The loop body for one classified line. */
  method StepLine(order: seq<string>, sections: map<string, map<string, string>>, current: Option<string>, k: LineKind)
    returns (order': seq<string>, sections': map<string, map<string, string>>, current': Option<string>)
    requires current.Some? ==> current.value in sections
    ensures ParseState(IniTable(order', sections'), current') == Step(ParseState(IniTable(order, sections), current), k)
  {
    order', sections', current' := order, sections, current;
    match k {
      case Skip =>
      case Header(name) =>
        current' := Some(name);
        if name !in sections {
          sections' := sections[name := map[]];
          order' := order + [name];
        }
      case Assign(key, val) =>
        if current.Some? {
          sections' := sections[current.value := sections[current.value][key := val]];
        }
    }
  }

  /** `parse_simple_ini(text)`: the loop over `text.splitlines()` with its `current` section. */
  method ParseSimpleIni(text: string) returns (data: IniTable)
    ensures data == Parse(Kinds(SplitLines(text))).table
  {
    var lines := SplitLines(text);
    var sections: map<string, map<string, string>> := map[];
    var order: seq<string> := [];
    var current: Option<string> := None;
    var i := 0;
    while i < |lines|
      invariant 0 <= i <= |lines|
      invariant Parse(Kinds(lines[..i])) == ParseState(IniTable(order, sections), current)
    {
      KindsSnoc(lines, i);
      // blank and comment lines, then `section_re`, then `kv_re`
      var k := Classify(lines[i]);
      order, sections, current := StepLine(order, sections, current, k);
      i := i + 1;
    }
    assert lines[..|lines|] == lines;
    data := IniTable(order, sections);
  }

  // ---------------------------------------------------------------- reference definitions

  /** The section a line after `ks` falls in: the name of the last header among them. */
  function CurrentSection(ks: seq<LineKind>): (r: Option<string>)
    decreases |ks|
  {
    if |ks| == 0 then None
    else if ks[|ks| - 1].Header? then Some(ks[|ks| - 1].name)
    else CurrentSection(ks[..|ks| - 1])
  }

  /** The value of the last assignment to `key` made while `[section]` was current. */
  function LastAssigned(ks: seq<LineKind>, section: string, key: string): (r: Option<string>)
    decreases |ks|
  {
    if |ks| == 0 then None
    else
      var init := ks[..|ks| - 1];
      var k := ks[|ks| - 1];
      if k.Assign? && k.key == key && CurrentSection(init) == Some(section) then Some(k.val)
      else LastAssigned(init, section, key)
  }

  /** The value stored for `key` in `section`, if any. */
  function Lookup(t: IniTable, section: string, key: string): (r: Option<string>)
    ensures r.Some? <==> section in t.sections && key in t.sections[section]
  {
    if section in t.sections && key in t.sections[section] then Some(t.sections[section][key]) else None
  }

  /** The loop's `current` is the last header seen. */
  lemma {:induction false} ParseCurrent(ks: seq<LineKind>)
    ensures Parse(ks).current == CurrentSection(ks)
    decreases |ks|
  {
    if |ks| > 0 {
      ParseCurrent(ks[..|ks| - 1]);
    }
  }

  /** A section exists exactly when some line is its header, and it is listed once however often that repeats. */
  lemma {:induction false} ParseSections(ks: seq<LineKind>, section: string)
    ensures section in Parse(ks).table.sections <==> exists i :: 0 <= i < |ks| && ks[i] == Header(section)
    ensures NoDup(Parse(ks).table.order)
    decreases |ks|
  {
    if |ks| > 0 {
      var init := ks[..|ks| - 1];
      ParseSections(init, section);
      assert forall i :: 0 <= i < |init| ==> init[i] == ks[i];
    }
  }

  /** No assignment counts for a section that was never opened. */
  lemma {:induction false} UndeclaredUnassigned(ks: seq<LineKind>, section: string, key: string)
    requires section !in Parse(ks).table.sections
    ensures LastAssigned(ks, section, key) == None
    decreases |ks|
  {
    if |ks| > 0 {
      var init := ks[..|ks| - 1];
      ParseCurrent(init);
      UndeclaredUnassigned(init, section, key);
    }
  }

  /**
   * Last wins: the table holds, for each section and key, the value of the
   * last assignment made under a header of that name.  Lines before the
   * first header count for no section, and repeated headers add to one.
   */
  lemma {:induction false} ParseLookup(ks: seq<LineKind>, section: string, key: string)
    ensures Lookup(Parse(ks).table, section, key) == LastAssigned(ks, section, key)
    decreases |ks|
  {
    if |ks| > 0 {
      var init := ks[..|ks| - 1];
      var k := ks[|ks| - 1];
      ParseLookup(init, section, key);
      ParseCurrent(init);
      if k.Header? && k.name == section && section !in Parse(init).table.sections {
        UndeclaredUnassigned(init, section, key);
      }
    }
  }

  /** Every stored key is in normalised form: lower case, no spaces. */
  lemma {:induction false} StoredKeysNormal(ks: seq<LineKind>)
    requires forall i :: 0 <= i < |ks| && ks[i].Assign? ==> IsLowerCase(ks[i].key) && ' ' !in ks[i].key
    ensures KeysNormal(Parse(ks).table)
    decreases |ks|
  {
    if |ks| > 0 {
      var init := ks[..|ks| - 1];
      assert forall i :: 0 <= i < |init| ==> init[i] == ks[i];
      StoredKeysNormal(init);
      StepKeysNormal(Parse(init), ks[|ks| - 1]);
    }
  }

  /** Every key stored in the table is lower case without spaces. */
  ghost predicate KeysNormal(t: IniTable)
  {
    forall s, k :: s in t.sections && k in t.sections[s] ==> IsLowerCase(k) && ' ' !in k
  }

  /** One line keeps the stored keys normal when its own key is. */
  lemma StepKeysNormal(st: ParseState, k: LineKind)
    requires KeysNormal(st.table)
    requires k.Assign? ==> IsLowerCase(k.key) && ' ' !in k.key
    ensures KeysNormal(Step(st, k).table)
  {
  }

  // ---------------------------------------------------------------- extract_value

  /** `extract_value(d, section, key)`: an empty or missing section gives None; the key is normalised. */
  function ExtractValue(t: IniTable, section: string, key: string): (r: Option<string>)
    ensures r == Lookup(t, section, NormKey(key))
  {
    if section !in t.sections || t.sections[section] == map[] then None
    else if NormKey(key) in t.sections[section] then Some(t.sections[section][NormKey(key)])
    else None
  }

  /** Looking a value up in the parsed text finds the last assignment to the normalised key in that section. */
  lemma ExtractLastAssigned(ks: seq<LineKind>, section: string, key: string)
    ensures ExtractValue(Parse(ks).table, section, key) == LastAssigned(ks, section, NormKey(key))
  {
    ParseLookup(ks, section, NormKey(key));
  }

  // ---------------------------------------------------------------- find_pq_osd_path_from_model

  const PqSections: set<string> := {"misc_pq_map_cfg", "misc_pq", "misc_pq_map"}

  /** `.strip().strip('"').strip("'")`. */
  function Unquote(v: string): string
  {
    StripSet(StripSet(Strip(v), {'"'}), {'\''})
  }

  /** The sections whose trimmed, lower-cased name is one of the `misc_pq*` names, in order. */
  function Candidates(order: seq<string>): (c: seq<string>)
    ensures forall s :: s in c <==> s in order && Lower(Strip(s)) in PqSections
    decreases |order|
  {
    if |order| == 0 then []
    else
      var init := Candidates(order[..|order| - 1]);
      var s := order[|order| - 1];
      assert forall x :: x in order <==> x in order[..|order| - 1] || x == s;
      if Lower(Strip(s)) in PqSections then init + [s] else init
  }

  /** A non-empty value, unquoted. */
  function NonEmptyUnquoted(o: Option<string>): (r: Option<string>)
    ensures r.Some? <==> o.Some? && o.value != ""
  {
    match o
    case Some(v) => if v != "" then Some(Unquote(v)) else None
    case None => None
  }

  /** `ini[sec].get("pq_osd")` when it is non-empty, unquoted. */
  function SectionPqOsd(t: IniTable, sec: string): (r: Option<string>)
  {
    NonEmptyUnquoted(Lookup(t, sec, "pq_osd"))
  }

  /** There is a `PQ_OSD` line after the '=' when some character that is not a newline follows it. */
  predicate NonNewlineFrom(text: string, i: nat)
  {
    exists j :: i <= j < |text| && text[j] != '\n'
  }

  /**
   * `^\s*PQ_OSD\s*=\s*(?P<path>.+?)\s*$` under `re.I | re.M`, tried at the
   * line start `i`: the blanks may run across line breaks; the path runs to
   * the end of its line.  When only blanks follow the '=', the pattern
   * still matches one of them that is not a newline, and the path is empty.
   */
  function PqOsdAt(text: string, i: nat): (r: Option<string>)
    requires i <= |text|
  {
    var j := SkipSet(text, i, Whitespace);
    if j + 6 <= |text| && EqualsIgnoreCase(text[j..j + 6], "PQ_OSD") then
      var k := SkipSet(text, j + 6, Whitespace);
      if k < |text| && text[k] == '=' then
        var v := SkipSet(text, k + 1, Whitespace);
        if v < |text| then Some(Unquote(text[v..FindChar(text, v, '\n')]))
        else if NonNewlineFrom(text, k + 1) then Some("")
        else None
      else None
    else None
  }

  /** The pattern tried at position `p`: only a line start can match. */
  function MatchAtLine(text: string, p: nat): (r: Option<string>)
    ensures r.Some? ==> LineStart(text, p)
  {
    if LineStart(text, p) then PqOsdAt(text, p) else None
  }

  /** `re.search`: the match at the first line start at or after `i` where the pattern matches. */
  function PqOsdSearch(text: string, i: nat): (r: Option<string>)
    requires i <= |text|
  {
    SearchFrom(|text|, i, p => MatchAtLine(text, p))
  }

  /** `p` is the first line start where the pattern matches. */
  predicate FirstMatchAt(text: string, p: nat)
  {
    p <= |text| && LineStart(text, p) && PqOsdAt(text, p).Some? &&
    forall q :: 0 <= q < p && LineStart(text, q) ==> PqOsdAt(text, q).None?
  }

  /** What the search finds comes from the first line start where the pattern matches. */
  lemma PqOsdSearchFound(text: string)
    requires PqOsdSearch(text, 0).Some?
    ensures exists p :: FirstMatchAt(text, p) && PqOsdAt(text, p) == PqOsdSearch(text, 0)
  {
    var f := (p: nat) => MatchAtLine(text, p);
    var p := SearchIndex(|text|, 0, f);
    assert f(p) == PqOsdSearch(text, 0);
    assert LineStart(text, p);
    forall q | 0 <= q < p && LineStart(text, q)
      ensures PqOsdAt(text, q).None?
    {
      assert f(q).None?;
    }
    assert FirstMatchAt(text, p);
  }

  /** The search finds nothing only when the pattern matches at no line start. */
  lemma PqOsdSearchNone(text: string)
    requires PqOsdSearch(text, 0).None?
    ensures forall q :: 0 <= q <= |text| && LineStart(text, q) ==> PqOsdAt(text, q).None?
  {
    var f := (p: nat) => MatchAtLine(text, p);
    forall q | 0 <= q <= |text| && LineStart(text, q)
      ensures PqOsdAt(text, q).None?
    {
      assert f(q).None?;
    }
  }

  /** The `misc_pq*` sections first, in order, then the search of the whole text. */
  function PqOsdFrom(t: IniTable, text: string): (r: Option<string>)
  {
    match First(Candidates(t.order), sec => SectionPqOsd(t, sec))
    case Some(v) => Some(v)
    case None => PqOsdSearch(text, 0)
  }

  /** `find_pq_osd_path_from_model(model_ini_text)`. */
  method FindPqOsdPath(text: string) returns (r: Option<string>)
    ensures r == PqOsdFrom(Parse(Kinds(SplitLines(text))).table, text)
  {
    var ini := ParseSimpleIni(text);
    r := PqOsdFrom(ini, text);
  }

  /** A section's `pq_osd` is its last non-empty assignment, unquoted. */
  lemma SectionPqOsdAssigned(ks: seq<LineKind>, sec: string)
    ensures SectionPqOsd(Parse(ks).table, sec) == NonEmptyUnquoted(LastAssigned(ks, sec, "pq_osd"))
  {
    ParseLookup(ks, sec, "pq_osd");
  }

  /**
   * When a `misc_pq*` section has a non-empty `pq_osd`, the path is the one
   * of the first such section, in the order the sections appear.
   */
  lemma PqOsdFromSection(t: IniTable, text: string, sec: string)
    requires sec in Candidates(t.order) && SectionPqOsd(t, sec).Some?
    ensures var cs := Candidates(t.order);
      exists i :: 0 <= i < |cs| && SectionPqOsd(t, cs[i]).Some? && PqOsdFrom(t, text) == SectionPqOsd(t, cs[i]) &&
        forall j :: 0 <= j < i ==> SectionPqOsd(t, cs[j]).None?
  {
    var cs := Candidates(t.order);
    var f := sec => SectionPqOsd(t, sec);
    FirstOf(cs, f, sec);
  }

  /** Otherwise the path is what the search of the whole text finds. */
  lemma PqOsdFallback(t: IniTable, text: string)
    requires forall sec :: sec in Candidates(t.order) ==> SectionPqOsd(t, sec).None?
    ensures PqOsdFrom(t, text) == PqOsdSearch(text, 0)
  {
    var cs := Candidates(t.order);
    var f := sec => SectionPqOsd(t, sec);
    assert forall i :: 0 <= i < |cs| ==> f(cs[i]).None?;
  }

  // ---------------------------------------------------------------- to_abs_under_root

  /** `to_abs_under_root(root, candidate)`: the candidate is trimmed first. */
  function ToAbsUnderRoot(root: string, candidate: string): (r: string)
  {
    Resolvers.UnderRoot(root, Strip(candidate))
  }

  // ---------------------------------------------------------------- int(s, 0)

  /** The value of `c` as a digit of `base`, when it is one. */
  function DigitIn(c: char, base: nat): (r: Option<nat>)
    ensures r.Some? ==> r.value < base
  {
    var d := if '0' <= c <= '9' then c as int - '0' as int
             else if 'a' <= c <= 'f' then c as int - 'a' as int + 10
             else if 'A' <= c <= 'F' then c as int - 'A' as int + 10
             else 16;
    if d < base then Some(d) else None
  }

  /** `(["_"] digit)+`: digits of `base`, each optionally preceded by one underscore. */
  predicate Grouped(s: string, base: nat)
  {
    |s| > 0 && s[|s| - 1] != '_' &&
    (forall i :: 0 <= i < |s| ==> s[i] == '_' || DigitIn(s[i], base).Some?) &&
    (forall i :: 0 <= i < |s| - 1 ==> !(s[i] == '_' && s[i + 1] == '_'))
  }

  /** The value of the digits of `s`, underscores skipped. */
  function GroupValue(s: string, base: nat): (n: nat)
    requires forall i :: 0 <= i < |s| ==> s[i] == '_' || DigitIn(s[i], base).Some?
    decreases |s|
  {
    if |s| == 0 then 0
    else
      var init := s[..|s| - 1];
      assert forall i :: 0 <= i < |init| ==> init[i] == s[i];
      if s[|s| - 1] == '_' then GroupValue(init, base)
      else GroupValue(init, base) * base + DigitIn(s[|s| - 1], base).value
  }

  /** An unsigned literal as `int(s, 0)` reads it: a 0x, 0o or 0b prefix, or decimal without leading zeros. */
  function AutoBody(b: string): (r: Option<nat>)
  {
    if |b| >= 2 && b[0] == '0' && (b[1] == 'x' || b[1] == 'X') then
      (if Grouped(b[2..], 16) then Some(GroupValue(b[2..], 16)) else None)
    else if |b| >= 2 && b[0] == '0' && (b[1] == 'o' || b[1] == 'O') then
      (if Grouped(b[2..], 8) then Some(GroupValue(b[2..], 8)) else None)
    else if |b| >= 2 && b[0] == '0' && (b[1] == 'b' || b[1] == 'B') then
      (if Grouped(b[2..], 2) then Some(GroupValue(b[2..], 2)) else None)
    else if |b| > 0 && b[0] != '_' && Grouped(b, 10) then
      (if b[0] != '0' then Some(GroupValue(b, 10))
       else if forall i :: 0 <= i < |b| ==> b[i] == '0' || b[i] == '_' then Some(0)
       else None)
    else None
  }

  /** Python `int(s, 0)` on ASCII input: surrounding whitespace, an optional sign, a literal. */
  function IntBase0(s: string): (r: Option<int>)
  {
    var t := Strip(s);
    if |t| > 0 && (t[0] == '+' || t[0] == '-') then
      match AutoBody(t[1..])
      case Some(v) => var n: int := v; Some(if t[0] == '-' then -n else n)
      case None => None
    else
      match AutoBody(t)
      case Some(v) => Some(v as int)
      case None => None
  }

  /** Plain decimal digits read as themselves. */
  lemma {:induction false} GroupValueDigits(s: string)
    requires AllDigits(s)
    ensures forall i :: 0 <= i < |s| ==> s[i] == '_' || DigitIn(s[i], 10).Some?
    ensures GroupValue(s, 10) == DigitsValue(s)
    decreases |s|
  {
    if |s| > 0 {
      var init := s[..|s| - 1];
      assert forall i :: 0 <= i < |init| ==> init[i] == s[i];
      GroupValueDigits(init);
    }
  }

  /** Decimal digits without a leading zero read as their value. */
  lemma DecimalBody(s: string)
    requires s != [] && AllDigits(s) && (s[0] == '0' ==> |s| == 1)
    ensures AutoBody(s) == Some(DigitsValue(s))
  {
    GroupValueDigits(s);
    assert Grouped(s, 10);
    if |s| >= 2 {
      assert s[0] != '0';
    }
  }

  /** `int(str(n), 0) == n`: a rendered number reads back as itself. */
  lemma IntBase0Nat(n: nat)
    ensures IntBase0(NatToString(n)) == Some(n as int)
  {
    var s := NatToString(n);
    DigitNotSpace(s[0]);
    DigitNotSpace(s[|s| - 1]);
    StripFixed(s);
    DecimalBody(s);
    assert s[0] != '+' && s[0] != '-';
  }

  /** A decimal literal with a leading zero and a non-zero digit is rejected, as `int("010", 0)` is. */
  lemma LeadingZeroRejected(d: string, k: nat)
    requires AllDigits(d) && k < |d| && d[k] != '0'
    ensures IntBase0("0" + d) == None
  {
    var s := "0" + d;
    assert s[|s| - 1] == d[|d| - 1];
    DigitNotSpace(s[|s| - 1]);
    StripFixed(s);
    assert s[1] == d[0];
    assert s[k + 1] == d[k];
  }

  // ---------------------------------------------------------------- check_colorspace

  /** `to_int_or_none`: unquote, then `int(s, 0)`, None on failure. */
  function ToInt(s: Option<string>): (r: Option<int>)
    ensures s.None? ==> r.None?
  {
    match s
    case None => None
    case Some(v) => IntBase0(Unquote(v))
  }

  /** The two parsed `ColorSpace` values and the verdict. */
  datatype ColorCheck = ColorCheck(dark: Option<int>, iq: Option<int>, pass: bool)

  /** `check_colorspace(osd_ini_path)`: a missing table fails with no values. */
  method CheckColorspace(fs: FileSystem, osdPath: string) returns (r: ColorCheck)
    ensures !Exists(fs, osdPath) ==> r == ColorCheck(None, None, false)
    ensures Exists(fs, osdPath) ==>
      var ks := Kinds(SplitLines(Read(fs, osdPath).value));
      r.dark == ToInt(LastAssigned(ks, "Dolby_Dark", NormKey("ColorSpace"))) &&
      r.iq == ToInt(LastAssigned(ks, "Dolby_IQ", NormKey("ColorSpace")))
    ensures r.pass <==> r.dark == Some(0) && r.iq == Some(0)
  {
    var text := Read(fs, osdPath);
    if text.None? {
      return ColorCheck(None, None, false);
    }
    var ini := ParseSimpleIni(text.value);
    ExtractLastAssigned(Kinds(SplitLines(text.value)), "Dolby_Dark", "ColorSpace");
    ExtractLastAssigned(Kinds(SplitLines(text.value)), "Dolby_IQ", "ColorSpace");
    var dark := ToInt(ExtractValue(ini, "Dolby_Dark", "ColorSpace"));
    var iq := ToInt(ExtractValue(ini, "Dolby_IQ", "ColorSpace"));
    var pass := if dark.None? || iq.None? then false else dark.value == 0 && iq.value == 0;
    r := ColorCheck(dark, iq, pass);
  }

  // ---------------------------------------------------------------- main

  /** How a run ends: model.ini missing (exit 2), `PQ_OSD` undeclared (FAIL, exit 1), or a checked table. */
  datatype Outcome = ModelIniMissing | Undeclared | Checked(osdPath: string, result: ColorCheck)

  /** `main` without the console and the workbook. */
  method RunColorspace(fs: FileSystem, modelIni: string, root: string) returns (o: Outcome)
    ensures o.ModelIniMissing? <==> !Exists(fs, modelIni)
    ensures Exists(fs, modelIni) ==>
      var v := PqOsdFrom(Parse(Kinds(SplitLines(Read(fs, modelIni).value))).table, Read(fs, modelIni).value);
      (o.Undeclared? <==> v.None? || v.value == "") &&
      (o.Checked? ==> o.osdPath == ToAbsUnderRoot(root, v.value))
  {
    var text := Read(fs, modelIni);
    if text.None? {
      return ModelIniMissing;
    }
    var pqOsd := FindPqOsdPath(text.value);
    if pqOsd.None? || pqOsd.value == "" {
      return Undeclared;
    }
    var osdPath := ToAbsUnderRoot(root, pqOsd.value);
    var result := CheckColorspace(fs, osdPath);
    o := Checked(osdPath, result);
  }

  /** Python `str(i)`. */
  function IntToString(i: int): (s: string)
    ensures i >= 0 ==> s == NatToString(i)
    ensures i < 0 ==> s == "-" + NatToString(-i)
    ensures s != "N/A"
  {
    if i >= 0 then
      var s := NatToString(i);
      assert IsDigit(s[0]);
      s
    else
      var s := "-" + NatToString(-i);
      assert s[1] == NatToString(-i)[0];
      s
  }

  const DarkLabel: string := "[Dolby_Dark] ColorSpace = "
  const IqLabel: string := "[Dolby_IQ]   ColorSpace = "

  /** `condition_1` and `condition_2`: each value, or "N/A" when it is missing or unreadable. */
  function Conditions(o: Outcome): (c: (string, string))
    requires !o.ModelIniMissing?
    ensures StartsWith(c.0, DarkLabel) && StartsWith(c.1, IqLabel)
    ensures c.0 == DarkLabel + "N/A" <==> o.Undeclared? || o.result.dark.None?
    ensures c.1 == IqLabel + "N/A" <==> o.Undeclared? || o.result.iq.None?
  {
    var d := if o.Undeclared? || o.result.dark.None? then "N/A" else IntToString(o.result.dark.value);
    var q := if o.Undeclared? || o.result.iq.None? then "N/A" else IntToString(o.result.iq.value);
    (DarkLabel + d, IqLabel + q)
  }

  /** The exit status: 2 without model.ini, 1 when `PQ_OSD` is undeclared, 0 after a check whatever the verdict. */
  function ExitCode(o: Outcome): (code: int)
    ensures code == 0 <==> o.Checked?
  {
    match o
    case ModelIniMissing => 2
    case Undeclared => 1
    case Checked(_, _) => 0
  }
}
