/**
 * POSIX path strings as Python's `os.path` and `pathlib` treat them:
 * `os.path.join`, `os.path.normpath`, `os.path.basename`, `os.path.splitext`
 * and the suffix and stem of a `Path`.  `Path.resolve()` is `NormPath` of an
 * absolute path: symbolic links are not part of the model.
 */
module Paths {
  import opened Text

  /** Python `os.path.join(a, b)`, also `Path(a) / b`: an absolute `b` replaces `a`. */
  function Join(a: string, b: string): (r: string)
    ensures StartsWith(b, "/") ==> r == b
    ensures !StartsWith(b, "/") ==> StartsWith(r, a) && EndsWith(r, b) && |r| <= |a| + 1 + |b|
  {
    if StartsWith(b, "/") then b
    else if a == "" || EndsWith(a, "/") then a + b
    else a + "/" + b
  }

  /** The leading slashes `os.path.normpath` keeps: two exactly when the path starts with "//" but not "///". */
  function LeadingSlashes(p: string): nat
  {
    if StartsWith(p, "/") then (if StartsWith(p, "//") && !StartsWith(p, "///") then 2 else 1) else 0
  }

  /** One step of `normpath`'s component loop: drop "" and ".", let ".." pop a component. */
  function NormStep(acc: seq<string>, c: string, absolute: bool): seq<string>
  {
    if c == "" || c == "." then acc
    else if c != ".." || (!absolute && |acc| == 0) || (|acc| > 0 && acc[|acc| - 1] == "..") then acc + [c]
    else if |acc| > 0 then acc[..|acc| - 1]
    else acc
  }

  function NormComps(comps: seq<string>, acc: seq<string>, absolute: bool): seq<string>
    decreases |comps|
  {
    if |comps| == 0 then acc else NormComps(comps[1..], NormStep(acc, comps[0], absolute), absolute)
  }

  function Slashes(n: nat): (r: string)
    ensures |r| == n && forall i :: 0 <= i < n ==> r[i] == '/'
  {
    if n == 0 then "" else "/" + Slashes(n - 1)
  }

  /** Python `os.path.normpath` on POSIX. */
  function NormPath(p: string): (r: string)
    ensures r != ""
  {
    if p == "" then "."
    else
      var n := LeadingSlashes(p);
      var body := JoinWith(NormComps(Split(p, '/'), [], n > 0), "/");
      var r := Slashes(n) + body;
      if r == "" then "." else r
  }

  /** `p` is `base` or lies below it. */
  predicate Within(p: string, base: string)
  {
    p == base || StartsWith(p, base + "/") || (base == "/" && StartsWith(p, "/"))
  }

  /** No component of `p` is "..". */
  predicate NoDotDot(p: string)
  {
    forall c :: c in Split(p, '/') ==> c != ".."
  }

  /** The components `normpath` keeps from a ".."-free list: all but "" and ".". */
  function Clean(comps: seq<string>): (r: seq<string>)
    ensures forall c :: c in r ==> c in comps && c != "" && c != "."
  {
    if |comps| == 0 then [] else (if comps[0] == "" || comps[0] == "." then [] else [comps[0]]) + Clean(comps[1..])
  }

  lemma {:induction false} NormCompsAppend(c1: seq<string>, c2: seq<string>, acc: seq<string>, absolute: bool)
    ensures NormComps(c1 + c2, acc, absolute) == NormComps(c2, NormComps(c1, acc, absolute), absolute)
    decreases |c1|
  {
    if |c1| > 0 {
      assert (c1 + c2)[1..] == c1[1..] + c2;
      NormCompsAppend(c1[1..], c2, NormStep(acc, c1[0], absolute), absolute);
    } else {
      assert c1 + c2 == c2;
    }
  }

  lemma {:induction false} NormCompsNoDotDot(comps: seq<string>, acc: seq<string>, absolute: bool)
    requires forall c :: c in comps ==> c != ".."
    ensures NormComps(comps, acc, absolute) == acc + Clean(comps)
    decreases |comps|
  {
    if |comps| > 0 {
      var c, rest := comps[0], comps[1..];
      assert c in comps;
      forall d | d in rest ensures d != ".." { assert d in comps; }
      var kept := if c == "" || c == "." then [] else [c];
      NormStepPlain(acc, c, absolute);
      NormCompsNoDotDot(rest, acc + kept, absolute);
      assert Clean(comps) == kept + Clean(rest);
      assert acc + kept + Clean(rest) == acc + (kept + Clean(rest));
    }
  }

  /** A component other than ".." is dropped when "" or ".", else appended. */
  lemma NormStepPlain(acc: seq<string>, c: string, absolute: bool)
    requires c != ".."
    ensures NormStep(acc, c, absolute) == acc + (if c == "" || c == "." then [] else [c])
  {
  }

  lemma SplitAppend(a: string, b: string, c: char)
    ensures Split(a + [c] + b, c) == Split(a, c) + Split(b, c)
  {
    AppendAssoc(a, [c], b);
    SplitAppendGrouped(a, b, c);
  }

  lemma {:induction false} SplitAppendGrouped(a: string, b: string, c: char)
    ensures Split(a + ([c] + b), c) == Split(a, c) + Split(b, c)
    decreases |a|
  {
    var k := CharIndex(a, c);
    if k == |a| {
      SplitAppendFirst(a, b, c);
    } else {
      SplitAppendGrouped(a[k + 1..], b, c);
      SplitAppendLater(a, b, c, k);
    }
  }

  /** Without a separator in `a`, the added one is the first cut. */
  lemma SplitAppendFirst(a: string, b: string, c: char)
    requires CharIndex(a, c) == |a|
    ensures Split(a + ([c] + b), c) == Split(a, c) + Split(b, c)
  {
    assert a[..|a|] == a;
    AppendAssoc(a, [c], b);
    SplitCons(a, b, c);
    SplitWhole(a, c);
  }

  /** Otherwise the first cut is that of `a`, and the rest splits as the rest of `a` joined to `b`. */
  lemma SplitAppendLater(a: string, b: string, c: char, k: nat)
    requires k == CharIndex(a, c) && k < |a|
    requires Split(a[k + 1..] + ([c] + b), c) == Split(a[k + 1..], c) + Split(b, c)
    ensures Split(a + ([c] + b), c) == Split(a, c) + Split(b, c)
  {
    SplitFirstCut(a, [c] + b, c, k);
    SplitAt(a, c, k);
    AppendAssoc([a[..k]], Split(a[k + 1..], c), Split(b, c));
  }

  /** The first cut of `a` is also the first cut of `a` followed by anything. */
  lemma SplitFirstCut(a: string, t: string, c: char, k: nat)
    requires k == CharIndex(a, c) && k < |a|
    ensures Split(a + t, c) == [a[..k]] + Split(a[k + 1..] + t, c)
  {
    CharIndexPrefix(a, t, c);
    SplitAt(a + t, c, k);
    DropAppend(a, t, k + 1);
    assert (a + t)[..k] == a[..k];
  }

  lemma AppendAssoc<T>(x: seq<T>, y: seq<T>, z: seq<T>)
    ensures x + (y + z) == x + y + z
  {
  }

  lemma DropAppend(a: string, t: string, j: nat)
    requires j <= |a|
    ensures (a + t)[j..] == a[j..] + t
  {
  }

  /** A separator-free `pre` before the first separator is the first piece. */
  lemma SplitCons(pre: string, t: string, c: char)
    requires c !in pre
    ensures Split(pre + [c] + t, c) == [pre] + Split(t, c)
  {
    var s := pre + [c] + t;
    assert s[..|pre|] == pre;
    CharIndexAt(s, c, |pre|);
    SplitAt(s, c, |pre|);
    assert s[|pre| + 1..] == t;
  }

  /** `split` cuts at the first separator. */
  lemma SplitAt(s: string, c: char, k: nat)
    requires k == CharIndex(s, c) && k < |s|
    ensures Split(s, c) == [s[..k]] + Split(s[k + 1..], c)
  {
  }

  /** A string without the separator splits into itself. */
  lemma SplitWhole(s: string, c: char)
    requires CharIndex(s, c) == |s|
    ensures Split(s, c) == [s]
  {
  }

  lemma {:induction false} JoinWithAppend(x: seq<string>, y: seq<string>, sep: string)
    requires |x| > 0 && |y| > 0
    ensures JoinWith(x + y, sep) == JoinWith(x, sep) + sep + JoinWith(y, sep)
    decreases |x|
  {
    if |x| == 1 {
      assert (x + y)[1..] == y;
    } else {
      assert (x + y)[1..] == x[1..] + y;
      JoinWithAppend(x[1..], y, sep);
    }
  }

  lemma NoDotDotComps(rel: string)
    requires NoDotDot(rel)
    ensures forall c :: c in Split(rel, '/') ==> c != ".."
  {
  }

  /** The part of `root` before its trailing slash, if any. */
  function TrimSlash(root: string): (a: string)
    ensures root == a || root == a + "/"
  {
    if EndsWith(root, "/") then root[..|root| - 1] else root
  }

  lemma JoinConcat(root: string, rel: string)
    requires !StartsWith(rel, "/")
    ensures Join(root, rel) == TrimSlash(root) + "/" + rel || (root == "" && Join(root, rel) == rel)
  {
  }

  lemma NormCompsTrimSlash(root: string)
    ensures NormComps(Split(root, '/'), [], true) == NormComps(Split(TrimSlash(root), '/'), [], true)
  {
    var a := TrimSlash(root);
    if root != a {
      SplitAppend(a, "", '/');
      assert a + "/" + "" == root;
      assert Split("", '/') == [""];
      NormCompsAppend(Split(a, '/'), [""], [], true);
    }
  }

  lemma JoinSlashes(root: string, rel: string)
    requires StartsWith(root, "/") && !StartsWith(root, "//")
    requires !StartsWith(rel, "/")
    ensures LeadingSlashes(Join(root, rel)) == 1 && LeadingSlashes(root) == 1
  {
    if root == "/" {
      OneSlashBefore("/" + rel, rel);
    } else {
      assert |root| >= 2 && root[..2] != "//";
      assert root[1] != '/' by { assert root[..2] == [root[0], root[1]]; }
      var j := Join(root, rel);
      assert j[..|root|] == root;
      assert j[1] == root[1];
      SecondNotSlash(j);
      SecondNotSlash(root);
    }
  }

  /** A path whose second character is not a slash starts with exactly one. */
  lemma SecondNotSlash(p: string)
    requires |p| >= 2 && p[0] == '/' && p[1] != '/'
    ensures LeadingSlashes(p) == 1
  {
    assert p[..1] == "/";
    assert p[..2] != "//";
  }

  lemma OneSlashBefore(p: string, rel: string)
    requires p == "/" + rel && !StartsWith(rel, "/")
    ensures LeadingSlashes(p) == 1
  {
    if |rel| > 0 {
      assert rel[..1] == [rel[0]];
      SecondNotSlash(p);
    } else {
      assert p == "/";
    }
  }

  lemma NormPathOneSlash(p: string)
    requires LeadingSlashes(p) == 1
    ensures NormPath(p) == "/" + JoinWith(NormComps(Split(p, '/'), [], true), "/")
  {
    assert Slashes(1) == "/";
  }

  /**
   * Joining a relative ".."-free path onto an absolute root and normalising
   * never leaves the root: the result is the normalised root or lies below it.
   */
  lemma JoinNormWithin(root: string, rel: string)
    requires StartsWith(root, "/") && !StartsWith(root, "//")
    requires !StartsWith(rel, "/") && NoDotDot(rel)
    ensures Within(NormPath(Join(root, rel)), NormPath(root))
  {
    var j := Join(root, rel);
    JoinSlashes(root, rel);
    JoinComps(root, rel);
    NormPathOneSlash(root);
    NormPathOneSlash(j);
    WithinJoined(NormComps(Split(root, '/'), [], true), Clean(Split(rel, '/')));
  }

  /** The components of the joined path: those of the root, then the kept ones of `rel`. */
  lemma JoinComps(root: string, rel: string)
    requires !StartsWith(rel, "/") && NoDotDot(rel)
    ensures NormComps(Split(Join(root, rel), '/'), [], true) ==
      NormComps(Split(root, '/'), [], true) + Clean(Split(rel, '/'))
  {
    var a := TrimSlash(root);
    JoinConcat(root, rel);
    SplitAppend(a, rel, '/');
    var ca := Split(a, '/');
    var cr := Split(rel, '/');
    NormCompsTrimSlash(root);
    NormCompsAppend(ca, cr, [], true);
    NormCompsNoDotDot(cr, NormComps(ca, [], true), true);
  }

  /** Appending components to an absolute path lands at or below it. */
  lemma WithinJoined(a: seq<string>, c: seq<string>)
    ensures Within("/" + JoinWith(a + c, "/"), "/" + JoinWith(a, "/"))
  {
    var nr := "/" + JoinWith(a, "/");
    var nj := "/" + JoinWith(a + c, "/");
    if |a| == 0 {
      assert a + c == c;
      assert nr == "/";
    } else if |c| == 0 {
      assert a + c == a;
    } else {
      JoinWithAppend(a, c, "/");
      assert nj == nr + "/" + JoinWith(c, "/");
      assert nj[..|nr + "/"|] == nr + "/";
    }
  }

  // ---------------------------------------------------------------- names

  /** The index just past the last '/' of `p`, 0 when there is none. */
  function NameStart(p: string): (k: nat)
    ensures k <= |p| && (k > 0 ==> p[k - 1] == '/') && '/' !in p[k..]
    decreases |p|
  {
    if |p| == 0 then 0
    else if p[|p| - 1] == '/' then |p|
    else (var k := NameStart(p[..|p| - 1]); assert p[k..] == p[..|p| - 1][k..] + [p[|p| - 1]]; k)
  }

  /** `os.path.basename(p)`, also `Path(p).name` for a path without a trailing slash. */
  function Basename(p: string): (r: string)
    ensures '/' !in r && EndsWith(p, r)
  {
    p[NameStart(p)..]
  }

  /** The index of the last '.' of `s`, |s| when there is none. */
  function LastDot(s: string): (k: nat)
    ensures k <= |s| && (k < |s| ==> s[k] == '.' && '.' !in s[k + 1..])
    ensures k == |s| ==> '.' !in s
    decreases |s|
  {
    if |s| == 0 then 0
    else if s[|s| - 1] == '.' then |s| - 1
    else
      var k := LastDot(s[..|s| - 1]);
      if k == |s| - 1 then |s|
      else (assert s[k + 1..] == s[..|s| - 1][k + 1..] + [s[|s| - 1]]; k)
  }

  /** `os.path.splitext` of a base name: the extension starts at the last '.', unless only dots precede it. */
  function SplitExt(name: string): (r: (string, string))
    ensures r.0 + r.1 == name
    ensures r.1 == "" || (r.1[0] == '.' && '.' !in r.1[1..])
  {
    var k := LastDot(name);
    if k < |name| && exists j :: 0 <= j < k && name[j] != '.' then
      assert name[..k] + name[k..] == name;
      (name[..k], name[k..])
    else (name, "")
  }

  /** `Path.suffix` of a base name: from the last '.', when it is neither the first nor the last character. */
  function Suffix(name: string): (r: string)
    ensures EndsWith(name, r)
    ensures r == "" || (|r| >= 2 && r[0] == '.' && '.' !in r[1..])
  {
    var k := LastDot(name);
    if 0 < k < |name| - 1 then name[k..] else ""
  }

  /** `Path.stem` of a base name: the name without its suffix. */
  function Stem(name: string): (r: string)
    ensures r + Suffix(name) == name
  {
    name[..|name| - |Suffix(name)|]
  }
}
