/** check_typec_pd_max.py: reports TYPEC_PD_MAX from the PCB file model.ini names as PcbPath. */
module TypecPdMax {
  import opened Wrappers
  import opened Text
  import opened Ini
  import opened Files
  import Resolvers

  /** `.strip().strip('"').strip("'")`. */
  function TrimQuotes(p: string): (r: string)
    ensures r == [] || (r[0] != '\'' && r[|r| - 1] != '\'')
    ensures Contains(p, r)
  {
    var a := Strip(p);
    var b := StripSet(a, {'"'});
    var c := StripSet(b, {'\''});
    StripSetContains(p, Whitespace);
    StripSetContains(a, {'"'});
    StripSetContains(b, {'\''});
    ContainsTrans(p, a, b);
    ContainsTrans(p, b, c);
    c
  }

  /** This file's `_resolve_tvconfigs_path`: "" for an empty reference, else the shared rules after trimming. */
  function ResolveTypec(root: string, p: string): (r: string)
    ensures p == "" ==> r == ""
    ensures p != "" ==> r == Resolvers.Resolve(root, TrimQuotes(p))
  {
    if p == "" then "" else Resolvers.Resolve(root, TrimQuotes(p))
  }

  /** `parse_model_ini_for_pcbpath`: the first uncommented PcbPath value, resolved; none when absent or empty. */
  function ParsePcbPath(lines: seq<string>, root: string): (r: Option<string>)
    ensures r.Some? <==> FindKeyValue(lines, "PcbPath", true).Some? && FindKeyValue(lines, "PcbPath", true).value != ""
    ensures r.Some? ==> r.value == ResolveTypec(root, FindKeyValue(lines, "PcbPath", true).value)
  {
    match FindKeyValue(lines, "PcbPath", true)
    case None => None
    case Some(v) => if v == "" then None else Some(ResolveTypec(root, v))
  }

  const TokenStop: set<char> := Whitespace + {'#', ';'}

  /** `^\s*TYPEC_PD_MAX\s*[:=]\s*([^\s#;]+)`, any case, on a comment-stripped line: the first token. */
  function PdMaxLine(raw: string): (r: Option<string>)
    ensures r.Some? ==> r.value != [] && NoneIn(r.value, TokenStop)
  {
    var t := LStrip(StripComment(raw));
    if KeyPrefix(t, "TYPEC_PD_MAX", true) then
      var u := LStrip(t[|"TYPEC_PD_MAX"|..]);
      if |u| > 0 && (u[0] == '=' || u[0] == ':') then
        var w := LStrip(u[1..]);
        var tok := FirstToken(w);
        if tok != [] then Some(tok) else None
      else None
    else None
  }

  /** `parse_typec_pd_max`: no answer for an empty or absent file, else the first line's token. */
  function ParseTypecPdMax(fs: FileSystem, pcb: Option<string>): (r: Option<string>)
    ensures pcb.None? || !Exists(fs, pcb.value) ==> r.None?
    ensures pcb.Some? && Exists(fs, pcb.value) ==>
      (r.Some? <==> exists i :: 0 <= i < |ReadLines(fs, pcb.value).value| && PdMaxLine(ReadLines(fs, pcb.value).value[i]).Some?)
    ensures r.Some? ==> r.value != [] && NoneIn(r.value, TokenStop)
  {
    if pcb.None? || !Exists(fs, pcb.value) then None
    else First(ReadLines(fs, pcb.value).value, PdMaxLine)
  }

  /** The token `([^\s#;]+)` captures: the longest prefix free of blanks and comment characters. */
  function FirstToken(w: string): (t: string)
    ensures NoneIn(t, TokenStop) && StartsWith(w, t)
    ensures |t| < |w| ==> w[|t|] in TokenStop
  {
    w[..SetIndex(w, TokenStop)]
  }

  /** A token followed by a blank or a comment character is captured whole. */
  lemma FirstTokenOf(v: string, tail: string)
    requires NoneIn(v, TokenStop)
    requires tail != [] && tail[0] in TokenStop
    ensures FirstToken(v + tail) == v
  {
    var w := v + tail;
    assert w[|v|] == tail[0];
    assert w[..|v|] == v;
    SetIndexAt(w, TokenStop, |v|);
  }
}
