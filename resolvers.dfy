/**
 * `_resolve_tvconfigs_path(root, p)`, the resolver most checkers share:
 * a logical `/tvconfigs/...` reference maps into the project root, "./" and
 * "../" and plain relative references are taken relative to the root, and any
 * other absolute path is used as it is.
 */
module Resolvers {
  import opened Text
  import opened Paths

  const TvconfigsPrefix: string := "/tvconfigs/"
  const Slashes: set<char> := {'/'}

  function Resolve(root: string, p: string): (r: string)
    ensures StartsWith(p, "/") && !StartsWith(p, TvconfigsPrefix) ==> r == p
    ensures !(StartsWith(p, "/") && !StartsWith(p, TvconfigsPrefix)) ==> r != ""
  {
    if StartsWith(p, TvconfigsPrefix) then NormPath(Join(root, p[|TvconfigsPrefix|..]))
    else if StartsWith(p, "./") || StartsWith(p, "../") then NormPath(Join(root, p))
    else if StartsWith(p, "/") then p
    else NormPath(Join(root, p))
  }

  /**
   * The variant of check_cltv.py, check_defaultLocale.py and
   * check_supportedDeviceGooglePairer.py, which trims its argument first.
   */
  function ResolveTrimmed(root: string, p: string): (r: string)
    ensures StartsWith(Strip(p), "/") && !StartsWith(Strip(p), TvconfigsPrefix) ==> r == Strip(p)
    ensures !(StartsWith(Strip(p), "/") && !StartsWith(Strip(p), TvconfigsPrefix)) ==> r != ""
  {
    Resolve(root, Strip(p))
  }

  /** Blanks around a reference do not change where it resolves. */
  lemma ResolveTrimmedPadded(root: string, p: string, before: string, after: string)
    requires IsBlank(before) && IsBlank(after)
    ensures ResolveTrimmed(root, before + p + after) == ResolveTrimmed(root, p)
  {
    StripSetPad(before, p, after, Whitespace);
  }

  /** An absolute root: a path that starts with exactly one '/'. */
  predicate AbsRoot(root: string)
  {
    StartsWith(root, "/") && !StartsWith(root, "//")
  }

  /** A `/tvconfigs/` reference without ".." lands inside the project root. */
  lemma ResolveTvconfigsWithin(root: string, p: string)
    requires AbsRoot(root)
    requires StartsWith(p, TvconfigsPrefix)
    requires !StartsWith(p[|TvconfigsPrefix|..], "/") && NoDotDot(p[|TvconfigsPrefix|..])
    ensures Within(Resolve(root, p), NormPath(root))
  {
    JoinNormWithin(root, p[|TvconfigsPrefix|..]);
  }

  /** So does a plain relative reference without "..". */
  lemma ResolveRelativeWithin(root: string, p: string)
    requires AbsRoot(root)
    requires !StartsWith(p, "/") && NoDotDot(p)
    ensures Within(Resolve(root, p), NormPath(root))
  {
    assert !StartsWith(p, TvconfigsPrefix);
    assert Resolve(root, p) == NormPath(Join(root, p));
    JoinNormWithin(root, p);
  }

  /**
   * `_resolve_tvconfigs_path(raw, root_dir)` of check_EWBS.py and check_japan_only.py:
   * drop the leading '/' characters, then the first "tvconfigs/" wherever it
   * occurs, and join what is left to the (absolute) root.
   */
  function ResolveDropTvconfigs(raw: string, root: string): (r: string)
  {
    Join(NormPath(root), ReplaceFirst(LStripSet(raw, {'/'}), "tvconfigs/", ""))
  }

  /** A `/tvconfigs/` reference lands at the same relative place under the root. */
  lemma ResolveDropTvconfigsDeclared(root: string, rel: string)
    ensures ResolveDropTvconfigs(TvconfigsPrefix + rel, root) == Join(NormPath(root), rel)
  {
    var p := TvconfigsPrefix + rel;
    assert p[1..] == "tvconfigs/" + rel;
    assert p[1] == 't';
    LStripSetFixed(p[1..], {'/'});
    ReplaceFirstAtStart("tvconfigs/", rel);
  }

  /**
   * `_map_tvconfigs_to_root(p, root)` of check_allm_enable.py: the trimmed
   * reference under the root, the rest of a `/tvconfigs/` reference with any
   * further leading '/' removed; other absolute paths are kept.
   */
  function MapToRoot(p: string, root: string): (r: string)
  {
    MapTrimmed(Strip(p), root)
  }

  /** The mapping of an already trimmed reference; a relative one cannot start with `/tvconfigs/`. */
  function MapTrimmed(t: string, root: string): (r: string)
    ensures StartsWith(t, "/") && !StartsWith(t, TvconfigsPrefix) ==> r == t
    ensures !StartsWith(t, "/") ==> r == NormPath(Join(root, t))
  {
    if !StartsWith(t, "/") then NormPath(Join(root, t))
    else if StartsWith(t, TvconfigsPrefix) then NormPath(Join(root, LStripSet(t[|TvconfigsPrefix|..], Slashes)))
    else t
  }

  /** An extra slash after `/tvconfigs/` does not move the mapped path. */
  lemma MapTrimmedExtraSlash(root: string, rel: string)
    requires rel == [] || rel[0] != '/'
    ensures MapTrimmed(TvconfigsPrefix + "/" + rel, root) == MapTrimmed(TvconfigsPrefix + rel, root)
  {
    assert TvconfigsPrefix + "/" + rel == TvconfigsPrefix + ("/" + rel);
    MapTrimmedUnder(root, "/" + rel);
    MapTrimmedUnder(root, rel);
    LStripSetPrefix("/", rel, Slashes);
    LStripSetFixed(rel, Slashes);
  }

  /** Under `/tvconfigs/` the mapping joins the rest, leading slashes removed, to the root. */
  lemma MapTrimmedUnder(root: string, rest: string)
    ensures MapTrimmed(TvconfigsPrefix + rest, root) == NormPath(Join(root, LStripSet(rest, Slashes)))
  {
    var t := TvconfigsPrefix + rest;
    assert t[..|TvconfigsPrefix|] == TvconfigsPrefix && t[|TvconfigsPrefix|..] == rest;
    MapTrimmedPrefixed(root, t);
  }

  lemma MapTrimmedPrefixed(root: string, t: string)
    requires StartsWith(t, TvconfigsPrefix)
    ensures MapTrimmed(t, root) == NormPath(Join(root, LStripSet(t[|TvconfigsPrefix|..], Slashes)))
  {
    assert t[..1] == TvconfigsPrefix[..1];
  }

  /** Apart from extra slashes after `/tvconfigs/`, the mapping is the shared resolver. */
  lemma MapTrimmedResolves(root: string, t: string)
    requires !StartsWith(t, TvconfigsPrefix + "/")
    ensures MapTrimmed(t, root) == Resolve(root, t)
  {
    if |t| > 0 && t[0] == '/' {
      assert t[..1] == "/";
      assert !StartsWith(t, "./") && !StartsWith(t, "../");
      if StartsWith(t, TvconfigsPrefix) {
        var rest := t[|TvconfigsPrefix|..];
        assert |rest| > 0 ==> t[..|TvconfigsPrefix| + 1] == TvconfigsPrefix + [rest[0]];
        LStripSetFixed(rest, Slashes);
      }
    } else {
      assert !StartsWith(t, "/") && !StartsWith(t, TvconfigsPrefix);
    }
  }

  /** Removing leading '/' characters adds no ".." component. */
  lemma {:induction false} NoDotDotLStrip(s: string)
    requires NoDotDot(s)
    ensures NoDotDot(LStripSet(s, Slashes))
    decreases |s|
  {
    if |s| > 0 && s[0] == '/' {
      assert Split(s, '/') == [""] + Split(s[1..], '/');
      assert forall c :: c in Split(s[1..], '/') ==> c in Split(s, '/');
      NoDotDotLStrip(s[1..]);
    }
  }

  /** A `/tvconfigs/` reference without ".." maps inside the project root. */
  lemma MapTrimmedWithin(root: string, t: string)
    requires AbsRoot(root)
    requires StartsWith(t, TvconfigsPrefix) && NoDotDot(t[|TvconfigsPrefix|..])
    ensures Within(MapTrimmed(t, root), NormPath(root))
  {
    var rest := t[|TvconfigsPrefix|..];
    MapTrimmedPrefixed(root, t);
    NoDotDotLStrip(rest);
    JoinNormWithin(root, LStripSet(rest, Slashes));
  }

  /**
   * `to_abs_under_root` of check_osdtable_colorspace.py and `_resolve_from_root`
   * of tv_multi_standard_validation.py on an already trimmed reference `c`:
   * every reference is placed under the root, a `/tvconfigs/` one without its
   * prefix and any other absolute one without its leading slashes.
   */
  function UnderRoot(root: string, c: string): (r: string)
  {
    if StartsWith(c, TvconfigsPrefix) then NormPath(Join(root, c[|TvconfigsPrefix|..]))
    else if StartsWith(c, "/") then NormPath(Join(root, LStripSet(c, Slashes)))
    else NormPath(Join(root, c))
  }

  /** A leading-slash reference other than `/tvconfigs/` loses all its leading slashes. */
  lemma LStripNoSlash(c: string)
    ensures !StartsWith(LStripSet(c, Slashes), "/")
  {
  }

  /**
   * An absolute reference, `/tvconfigs/` or not, or a relative one, lands
   * inside the (absolute) root as long as what is joined has no ".." and,
   * for a `/tvconfigs/` reference, does not itself start with '/'.
   */
  lemma UnderRootWithin(root: string, c: string)
    requires AbsRoot(root)
    requires StartsWith(c, TvconfigsPrefix) ==> !StartsWith(c[|TvconfigsPrefix|..], "/") && NoDotDot(c[|TvconfigsPrefix|..])
    requires !StartsWith(c, TvconfigsPrefix) ==> NoDotDot(LStripSet(c, Slashes))
    ensures Within(UnderRoot(root, c), NormPath(root))
  {
    if StartsWith(c, TvconfigsPrefix) {
      JoinNormWithin(root, c[|TvconfigsPrefix|..]);
    } else if StartsWith(c, "/") {
      LStripNoSlash(c);
      JoinNormWithin(root, LStripSet(c, Slashes));
    } else {
      LStripSetFixed(c, Slashes);
      JoinNormWithin(root, c);
    }
  }

  /** A `/tvconfigs/` reference is its rest joined to the root. */
  lemma UnderRootPrefixed(root: string, rel: string)
    ensures UnderRoot(root, TvconfigsPrefix + rel) == NormPath(Join(root, rel))
  {
    var c := TvconfigsPrefix + rel;
    assert c[..|TvconfigsPrefix|] == TvconfigsPrefix;
    assert c[|TvconfigsPrefix|..] == rel;
  }

  /** A `/tvconfigs//...` reference is not placed under the root: joining an absolute remainder discards the root. */
  lemma UnderRootDoubleSlash(root: string, rel: string)
    requires StartsWith(rel, "/")
    ensures UnderRoot(root, TvconfigsPrefix + rel) == NormPath(rel)
  {
    var c := TvconfigsPrefix + rel;
    assert c[..|TvconfigsPrefix|] == TvconfigsPrefix;
    assert c[|TvconfigsPrefix|..] == rel;
  }
}
