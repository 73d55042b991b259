/**
 * The `/tvconfigs/...` references that tvconfigs_path_check.py and auto_v.py
 * look for in ini lines, defined the same way in both scripts: the pattern
 * that finds them (TV_PATH_RE), the clean-up of a found reference, the
 * extension filter, the prefix map that places a reference in the project,
 * and the key/value pattern (KEYVAL_RE) their reports use.
 */
module TvPaths {
  import opened Wrappers
  import opened Text
  import opened Scan
  import opened Paths
  import Resolvers

  const TvPrefix: string := "/tvconfigs/"

  /** The characters `sanitize_tv_path` strips from the end: `",; \t\r\n)`. */
  const Trailing: set<char> := {'"', ',', ';', ' ', '\t', '\r', '\n', ')'}

  /** The characters that end a reference, TV_PATH_RE's class `[^\s";]` read the other way round. */
  const PathStops: set<char> := Whitespace + {'"', ';'}

  /** What follows a key's first character in KEYVAL_RE cannot be one of these. */
  const KeyStartStops: set<char> := {';', '#', '='}

  /** `s[:n]`. */
  function Head(s: string, n: nat): (r: string)
    ensures |r| <= n && StartsWith(s, r)
    ensures |s| <= n ==> r == s
    ensures |s| > n ==> |r| == n
  {
    if |s| <= n then s else s[..n]
  }

  // ---------------------------------------------------------------- sanitizing

  /** `sanitize_tv_path(p)`: `p` without its trailing run of `Trailing` characters. */
  function SanitizeTvPath(p: string): (r: string)
    ensures StartsWith(p, r) && AllIn(p[|r|..], Trailing)
    ensures r == [] || r[|r| - 1] !in Trailing
  {
    RStripSet(p, Trailing)
  }

  /** Sanitizing twice is sanitizing once. */
  lemma SanitizeIdempotent(p: string)
    ensures SanitizeTvPath(SanitizeTvPath(p)) == SanitizeTvPath(p)
  {
    RStripSetFixed(SanitizeTvPath(p), Trailing);
  }

  /** Any run of trailing `Trailing` characters is dropped, whatever precedes it. */
  lemma SanitizeDropsTrailing(p: string, q: string)
    requires AllIn(q, Trailing)
    ensures SanitizeTvPath(p + q) == SanitizeTvPath(p)
  {
    RStripSetSuffix(p, q, Trailing);
  }

  // ---------------------------------------------------------------- finding

  /** A TV_PATH_RE match: the prefix, then at least one character that is not a stop. */
  predicate IsTvPath(t: string)
  {
    StartsWith(t, TvPrefix) && |t| > |TvPrefix| && NoneIn(t[|TvPrefix|..], PathStops)
  }

  /** The end of the match TV_PATH_RE makes at `i`, if it makes one there: it takes every non-stop character it can. */
  function MatchEnd(s: string, i: nat): (e: Option<nat>)
    ensures e.Some? ==> i + |TvPrefix| < e.value <= |s| && IsTvPath(s[i..e.value])
    ensures e.Some? && e.value < |s| ==> s[e.value] in PathStops
  {
    var n := |TvPrefix|;
    if OccursAt(s, TvPrefix, i) && i + n < |s| && s[i + n] !in PathStops then
      var e := SkipOut(s, i + n + 1, PathStops);
      assert s[i..e][..n] == TvPrefix;
      assert forall j :: 0 <= j < e - i - n ==> s[i..e][n..][j] == s[i + n + j];
      Some(e)
    else None
  }

  /** `TV_PATH_RE.findall(s[i..])`: the matches from left to right, each search resuming where the last match ended. */
  function TvPathsFrom(s: string, i: nat): (r: seq<string>)
    requires i <= |s|
    ensures forall k :: 0 <= k < |r| ==> IsTvPath(r[k])
    decreases |s| - i
  {
    if i == |s| then []
    else
      match MatchEnd(s, i)
      case None => TvPathsFrom(s, i + 1)
      case Some(e) => [s[i..e]] + TvPathsFrom(s, e)
  }

  /** `TV_PATH_RE.findall(s)`. */
  function TvPathsIn(s: string): (r: seq<string>)
    ensures forall k :: 0 <= k < |r| ==> IsTvPath(r[k])
  {
    TvPathsFrom(s, 0)
  }

  /** A text where the prefix does not occur from `i` on has no match there. */
  lemma {:induction false} NoPrefixNoPaths(s: string, i: nat)
    requires i <= |s|
    requires forall j :: i <= j < |s| ==> !OccursAt(s, TvPrefix, j)
    ensures TvPathsFrom(s, i) == []
    decreases |s| - i
  {
    if i < |s| {
      assert MatchEnd(s, i).None?;
      NoPrefixNoPaths(s, i + 1);
    }
  }

  /** A reference standing alone is found whole. */
  lemma WholeTvPath(rel: string)
    requires rel != [] && NoneIn(rel, PathStops)
    ensures TvPathsIn(TvPrefix + rel) == [TvPrefix + rel]
  {
    var s := TvPrefix + rel;
    var n := |TvPrefix|;
    assert s[..n] == TvPrefix && s[n] == rel[0];
    assert forall j :: n + 1 <= j < |s| ==> s[j] == rel[j - n];
    SkipOutAt(s, n + 1, |s|, PathStops);
    assert MatchEnd(s, 0) == Some(|s|);
    assert s[0..|s|] == s;
    assert TvPathsFrom(s, 0) == [s[0..|s|]] + TvPathsFrom(s, |s|);
  }

  // ---------------------------------------------------------------- extensions

  /** `Path(p).name`: the last component once empty and "." components are dropped. */
  function PathName(p: string): (r: string)
    ensures '/' !in r
  {
    var cs := Clean(Split(p, '/'));
    if cs == [] then "" else (assert cs[|cs| - 1] in cs; cs[|cs| - 1])
  }

  /** `suffix.lower().lstrip(".")`. */
  function SuffixExtension(sfx: string): string
  {
    LStripSet(Lower(sfx), {'.'})
  }

  /** `looks_like_file_of_interest`'s `Path(base).suffix.lower().lstrip(".")`, with `base` the path before any '?'. */
  function Extension(tv: string): string
  {
    SuffixExtension(Suffix(PathName(Before(tv, '?'))))
  }

  /** `looks_like_file_of_interest(tv, exts)`: the path has an extension and it is one of `exts`. */
  predicate FileOfInterest(tv: string, exts: set<string>)
  {
    var e := Extension(tv);
    e != "" && e in exts
  }

  /** Of a `Path.suffix`, what is compared is the part after the dot, lower-cased; nothing when there is no suffix. */
  lemma SuffixExtensionIs(sfx: string)
    requires sfx == "" || (|sfx| >= 2 && sfx[0] == '.' && '.' !in sfx[1..])
    ensures SuffixExtension(sfx) == (if sfx == "" then "" else Lower(sfx[1..]))
    ensures IsLowerCase(SuffixExtension(sfx)) && '.' !in SuffixExtension(sfx)
  {
    if sfx != "" {
      var l := Lower(sfx);
      var t := sfx[1..];
      assert t[0] == sfx[1] && t[0] in t;
      assert l[0] == '.' && l[1] == LowerChar(t[0]) != '.';
      LStripOne(l, {'.'});
      assert l[1..] == Lower(t);
      LowerIsLower(t);
      assert forall i :: 0 <= i < |t| ==> Lower(t)[i] != '.' by {
        forall i | 0 <= i < |t| ensures Lower(t)[i] != '.' {
          assert t[i] in t;
        }
      }
    }
  }

  /** The extension is the suffix after its dot, lower-cased, and empty exactly when there is no suffix. */
  lemma ExtensionIs(tv: string)
    ensures var sfx := Suffix(PathName(Before(tv, '?')));
      Extension(tv) == (if sfx == "" then "" else Lower(sfx[1..]))
    ensures IsLowerCase(Extension(tv)) && '.' !in Extension(tv)
  {
    SuffixExtensionIs(Suffix(PathName(Before(tv, '?'))));
  }

  /** Dropping the empty and "." components keeps a last plain component last. */
  lemma {:induction false} CleanSnoc(a: seq<string>, name: string)
    requires name != "" && name != "."
    ensures Clean(a + [name]) == Clean(a) + [name]
    decreases |a|
  {
    if |a| == 0 {
      assert a + [name] == [name];
    } else {
      assert (a + [name])[1..] == a[1..] + [name];
      CleanSnoc(a[1..], name);
    }
  }

  /** The last part of a path ending in a plain name is that name. */
  lemma PathNameOf(dir: string, name: string)
    requires name != "" && name != "." && '/' !in name
    ensures PathName(dir + "/" + name) == name
  {
    SplitAppend(dir, name, '/');
    SplitWhole(name, '/');
    CleanSnoc(Split(dir, '/'), name);
  }

  /**
   * A file `stem.x` in any directory has extension `x` lower-cased, whatever
   * query string follows: `looks_like_file_of_interest` ignores what follows a
   * '?' and compares extensions case-insensitively.
   */
  lemma ExtensionOf(dir: string, stem: string, x: string, query: string)
    requires stem != "" && x != "" && '.' !in x && '/' !in stem && '/' !in x
    requires '?' !in dir && '?' !in stem && '?' !in x
    requires query == "" || query[0] == '?'
    ensures Extension(dir + "/" + stem + "." + x + query) == Lower(x)
    ensures FileOfInterest(dir + "/" + stem + "." + x + query, {Lower(x)})
  {
    var name := stem + "." + x;
    var p := dir + "/" + name;
    assert dir + "/" + stem + "." + x + query == p + query;
    assert '?' !in p;
    if query == "" {
      assert p + query == p;
      assert CharIndex(p, '?') == |p|;
    } else {
      assert (p + query)[..|p|] == p;
      CharIndexAt(p + query, '?', |p|);
    }
    assert Before(p + query, '?') == p;
    PathNameOf(dir, name);
    var k := |stem|;
    assert name[k] == '.' && name[k + 1..] == x;
    assert LastDot(name) == k;
    assert Suffix(name) == "." + x;
    assert ("." + x)[1..] == x;
    ExtensionIs(p + query);
  }

  /** A path whose name has no dot has no extension and is never of interest. */
  lemma NoDotRejected(dir: string, name: string, exts: set<string>)
    requires name != "" && name != "." && '/' !in name && '.' !in name && '?' !in dir + "/" + name
    ensures !FileOfInterest(dir + "/" + name, exts)
  {
    var p := dir + "/" + name;
    assert CharIndex(p, '?') == |p|;
    assert Before(p, '?') == p;
    PathNameOf(dir, name);
    assert LastDot(name) == |name|;
    ExtensionIs(p);
  }

  // ---------------------------------------------------------------- resolving

  /** `prefix_map or {"/tvconfigs/": root}`: without a map of its own, the resolver maps `/tvconfigs/` to the root. */
  function PrefixRules(root: string, prefixMap: seq<(string, string)>): seq<(string, string)>
  {
    if prefixMap == [] then [(TvPrefix, root)] else prefixMap
  }

  /** The first rule whose prefix starts `t`, `|rules|` when none does. */
  function RuleIndex(rules: seq<(string, string)>, t: string): (k: nat)
    ensures k <= |rules| && (k < |rules| ==> StartsWith(t, rules[k].0))
    ensures forall j :: 0 <= j < k ==> !StartsWith(t, rules[j].0)
    decreases |rules|
  {
    if |rules| == 0 then 0
    else if StartsWith(t, rules[0].0) then 0
    else 1 + RuleIndex(rules[1..], t)
  }

  /**
   * `resolve_to_project(root, tv, prefix_map)` with the map as its items in
   * order: the sanitized reference's remainder after the first matching
   * prefix, resolved under that prefix's base, and None when no prefix matches.
   */
  function ResolveToProject(root: string, tv: string, prefixMap: seq<(string, string)>): (r: Option<string>)
    ensures var t := SanitizeTvPath(tv); var rules := PrefixRules(root, prefixMap);
      r.None? <==> forall j :: 0 <= j < |rules| ==> !StartsWith(t, rules[j].0)
  {
    var t := SanitizeTvPath(tv);
    var rules := PrefixRules(root, prefixMap);
    var k := RuleIndex(rules, t);
    if k == |rules| then None
    else Some(NormPath(Join(rules[k].1, t[|rules[k].0|..])))
  }

  /** With the default map, a `/tvconfigs/` reference resolves to the same relative place under the root. */
  lemma DefaultResolves(root: string, rel: string)
    requires rel == [] || rel[|rel| - 1] !in Trailing
    ensures ResolveToProject(root, TvPrefix + rel, []) == Some(NormPath(Join(root, rel)))
  {
    var t := TvPrefix + rel;
    assert t != [] && t[|t| - 1] !in Trailing;
    RStripSetFixed(t, Trailing);
    assert t[..|TvPrefix|] == TvPrefix && t[|TvPrefix|..] == rel;
  }

  /** With the default map, anything else does not resolve. */
  lemma DefaultRejects(root: string, tv: string)
    requires !StartsWith(SanitizeTvPath(tv), TvPrefix)
    ensures ResolveToProject(root, tv, []) == None
  {
  }

  /** A map's first prefix takes precedence over the rest. */
  lemma FirstPrefixWins(root: string, tv: string, prefixMap: seq<(string, string)>)
    requires prefixMap != [] && StartsWith(SanitizeTvPath(tv), prefixMap[0].0)
    ensures ResolveToProject(root, tv, prefixMap) ==
      Some(NormPath(Join(prefixMap[0].1, SanitizeTvPath(tv)[|prefixMap[0].0|..])))
  {
  }

  /** A default-resolved reference without ".." stays inside an absolute root. */
  lemma DefaultWithin(root: string, rel: string)
    requires Resolvers.AbsRoot(root)
    requires !StartsWith(rel, "/") && NoDotDot(rel) && (rel == [] || rel[|rel| - 1] !in Trailing)
    ensures ResolveToProject(root, TvPrefix + rel, []).Some?
    ensures Within(ResolveToProject(root, TvPrefix + rel, []).value, NormPath(root))
  {
    DefaultResolves(root, rel);
    JoinNormWithin(root, rel);
  }

  // ---------------------------------------------------------------- key = value

  /**
   * Where `^\s*([^;#=\s][^=]{0,limit}?)\s*=` puts the key's first character
   * and the '=' in a line without '\n': the first non-blank character, which
   * must not be ';', '#' or '=', and the first '=' after it, provided at most
   * `limit` characters follow the first one once the blanks before the '='
   * are dropped.
   */
  function KeyEq(s: string, limit: nat): (r: Option<(nat, nat)>)
    ensures r.Some? ==> r.value.0 < r.value.1 < |s| && s[r.value.1] == '='
    ensures r.Some? ==> IsBlank(s[..r.value.0]) && s[r.value.0] !in Whitespace + KeyStartStops
    ensures r.Some? ==> '=' !in s[r.value.0..r.value.1] && |RStrip(s[r.value.0 + 1..r.value.1])| <= limit
  {
    var k := SkipSet(s, 0, Whitespace);
    SkipSetRun(s, 0, Whitespace);
    if k == |s| || s[k] in KeyStartStops then None
    else
      var e := FindChar(s, k, '=');
      assert forall j :: 0 <= j < e - k ==> s[k..e][j] == s[k + j];
      if e < |s| && |RStrip(s[k + 1..e])| <= limit then Some((k, e)) else None
  }

  /** A key that needs no trimming, written right before the '=', is found where it is. */
  lemma KeyEqCompact(key: string, v: string, limit: nat)
    requires key != [] && key[0] !in Whitespace + KeyStartStops && '=' !in key
    requires |key| <= limit + 1
    ensures KeyEq(key + "=" + v, limit).Some?
    ensures KeyEq(key + "=" + v, limit).value.0 == 0 && KeyEq(key + "=" + v, limit).value.1 == |key|
  {
    var s := key + "=" + v;
    assert s[0] == key[0];
    SkipSetAt(s, 0, 0, Whitespace);
    assert s[|key|] == '=';
    assert forall j :: 0 <= j < |key| ==> s[j] == key[j];
    FindCharAt(s, 0, |key|, '=');
  }
}
