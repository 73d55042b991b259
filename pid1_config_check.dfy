/**
 * pid1_config_check.py: the PID 1 checker.  It follows Model_1 to its model
 * ini, the TvSysMap files that ini names and the country maps those name,
 * and checks the volume-curve files, the TV systems and their DVB inputs,
 * and the countries against the European rules.  The model covers the
 * helpers the check is built from, the TvSysMap scans at block level, and
 * the country and standard rules that decide a row's status.
 */
module Pid1ConfigCheck {
  import opened Wrappers
  import opened Text
  import opened Paths
  import opened Files
  import opened Dedup
  import opened Order
  import Scan
  import TvPaths
  import Resolvers

  // ---------------------------------------------------------------- resolving

  /** The characters `lstrip("./")` removes. */
  const DotSlash: set<char> := {'.', '/'}

  /**
   * `_resolve_to_project(root, tv_path)`: the sanitized reference's remainder
   * after `/tvconfigs/` under the root, and any other reference under the
   * root once its leading '.' and '/' characters are gone.
   */
  function ResolveToProject(root: string, tv: string): (r: string)
    ensures r != ""
  {
    var t := TvPaths.SanitizeTvPath(tv);
    if StartsWith(t, TvPaths.TvPrefix) then NormPath(Join(root, t[|TvPaths.TvPrefix|..]))
    else NormPath(Join(root, LStripSet(t, DotSlash)))
  }

  /** A `/tvconfigs/` reference lands at the same relative place under the root. */
  lemma ResolveTvconfigs(root: string, rel: string)
    requires rel == [] || rel[|rel| - 1] !in TvPaths.Trailing
    ensures ResolveToProject(root, TvPaths.TvPrefix + rel) == NormPath(Join(root, rel))
  {
    var t := TvPaths.TvPrefix + rel;
    assert t != [] && t[|t| - 1] !in TvPaths.Trailing;
    RStripSetFixed(t, TvPaths.Trailing);
    assert t[..|TvPaths.TvPrefix|] == TvPaths.TvPrefix && t[|TvPaths.TvPrefix|..] == rel;
  }

  /** Leading "./", "../" and '/' characters are dropped, so such a reference is read from the root. */
  lemma ResolveDropsLeading(root: string, lead: string, rel: string)
    requires AllIn(lead, DotSlash) && lead != [] && lead[0] != '/'
    requires rel != [] && rel[0] !in DotSlash && rel[|rel| - 1] !in TvPaths.Trailing
    ensures ResolveToProject(root, lead + rel) == NormPath(Join(root, rel))
  {
    var t := lead + rel;
    assert t[|t| - 1] == rel[|rel| - 1];
    RStripSetFixed(t, TvPaths.Trailing);
    assert t[0] == lead[0];
    assert !StartsWith(t, TvPaths.TvPrefix);
    LStripSetPrefix(lead, rel, DotSlash);
    LStripSetFixed(rel, DotSlash);
  }

  /** Anything but a `/tvconfigs/` reference stays inside an absolute root when what is left has no "..". */
  lemma ResolveOtherWithin(root: string, tv: string)
    requires Resolvers.AbsRoot(root)
    requires !StartsWith(TvPaths.SanitizeTvPath(tv), TvPaths.TvPrefix)
    requires NoDotDot(LStripSet(TvPaths.SanitizeTvPath(tv), DotSlash))
    ensures Within(ResolveToProject(root, tv), NormPath(root))
  {
    var rest := LStripSet(TvPaths.SanitizeTvPath(tv), DotSlash);
    assert !StartsWith(rest, "/");
    JoinNormWithin(root, rest);
  }

  // ---------------------------------------------------------------- country codes

  /** NAME_TO_ALPHA2: country names, as the normaliser writes them, with their ISO 3166-1 alpha-2 codes. */
  const NameToAlpha2: map<string, string> := map[
    "USA" := "US", "MEXICO" := "MX", "CANADA" := "CA", "AUSTRALIA" := "AU", "THAILAND" := "TH",
    "INDONESIA" := "ID", "VIETNAM" := "VN", "MALAYSIA" := "MY", "PHILIPPINES" := "PH", "SOUTH_KOREA" := "KR",
    "INDIA" := "IN", "SPAIN" := "ES", "FRANCE" := "FR", "GERMANY" := "DE", "ITALY" := "IT",
    "SWEDEN" := "SE", "CZECH" := "CZ", "UNITED_KINGDOM" := "GB", "HUNGARY" := "HU", "NORWAY" := "NO",
    "FINLAND" := "FI", "BRAZIL" := "BR", "COLOMBIA" := "CO", "URUGUAY" := "UY", "CHILE" := "CL",
    "UNITED_STATES" := "US", "UK" := "GB"]

  /** Two-letter words that are too common to be taken for a country code. */
  const Noise: set<string> := {"ON", "OF", "NO", "IN", "TV", "OS", "PQ", "AV", "EU"}

  /** The separators of the first pass, `[,;\r\n]+`. */
  const TokenSeps: set<char> := {',', ';', '\r', '\n'}

  predicate IsLetter(c: char) { 'A' <= c <= 'Z' }

  /** `[A-Z]{2}` as a whole string. */
  predicate IsAlpha2(t: string)
  {
    |t| == 2 && IsLetter(t[0]) && IsLetter(t[1])
  }

  /** Every value of the name table is a two-letter code. */
  lemma TableAlpha2(name: string)
    requires name in NameToAlpha2
    ensures IsAlpha2(NameToAlpha2[name]) && name != ""
  {
    TableCodes(name);
    CodesAlpha2(NameToAlpha2[name]);
  }

  /** The codes the name table gives. */
  const TableCodeSet: set<string> := {"US", "MX", "CA", "AU", "TH", "ID", "VN", "MY", "PH", "KR", "IN", "ES", "FR", "DE", "IT",
                                      "SE", "CZ", "GB", "HU", "NO", "FI", "BR", "CO", "UY", "CL"}

  /** Each name in the table is non-empty and gives one of the table's codes. */
  lemma TableCodes(name: string)
    requires name in NameToAlpha2
    ensures NameToAlpha2[name] in TableCodeSet && name != ""
  {
  }

  /** Each of the table's codes is two capital letters. */
  lemma CodesAlpha2(c: string)
    requires c in TableCodeSet
    ensures IsAlpha2(c)
  {
  }

  /** `tok.strip().upper().replace(" ", "_")`, the form a token or a country name is looked up in. */
  function NormName(tok: string): string
  {
    ReplaceChar(Upper(Strip(tok)), ' ', '_')
  }

  /** What the first pass makes of one token: the table's code, or the token itself when it is a two-letter code other than noise. */
  function TokenCode(tok: string): (r: Option<string>)
  {
    var t := NormName(tok);
    if t == "" then None
    else if t in NameToAlpha2 then Some(NameToAlpha2[t])
    else if IsAlpha2(t) && t !in Noise then Some(t)
    else None
  }

  /** `\b([A-Z]{2})\b` matches at `i`: two capital letters with no word character on either side. */
  predicate ShortCodeAt(text: string, i: nat)
  {
    i + 2 <= |text| && IsLetter(text[i]) && IsLetter(text[i + 1]) &&
    (i == 0 || !IsWordChar(text[i - 1])) && (i + 2 == |text| || !IsWordChar(text[i + 2]))
  }

  /** What the second pass adds for position `i`: the code found there unless it is noise. */
  function ScanCode(text: string, i: nat): Option<string>
  {
    if ShortCodeAt(text, i) && text[i..i + 2] !in Noise then Some(text[i..i + 2]) else None
  }

  /** `_extract_country_codes_from_text(text)`: the first pass over the tokens, then the second over the text. */
  function CountryCodes(text: string): set<string>
  {
    Gathered(SplitRuns(text, TokenSeps), TokenCode) + Gathered(Positions(|text|), (i: nat) => ScanCode(text, i))
  }

  /** The positions `0..n-1` in order. */
  function Positions(n: nat): (ps: seq<nat>)
    ensures |ps| == n && forall i :: 0 <= i < n ==> ps[i] == i
  {
    seq(n, i requires 0 <= i < n => i as nat)
  }

  /** The two passes of `_extract_country_codes_from_text`, each adding to one result set. */
  method ExtractCountryCodes(text: string) returns (results: set<string>)
    ensures results == CountryCodes(text)
  {
    var byToken := Gather(SplitRuns(text, TokenSeps), TokenCode);
    var byScan := Gather(Positions(|text|), (i: nat) => ScanCode(text, i));
    results := byToken + byScan;
  }

  /** A token's code is two capital letters, and a noise word only when the table gives it. */
  lemma TokenCodeIs(tok: string)
    requires TokenCode(tok).Some?
    ensures IsAlpha2(TokenCode(tok).value)
    ensures TokenCode(tok).value in Noise ==> NormName(tok) in NameToAlpha2 && NameToAlpha2[NormName(tok)] == TokenCode(tok).value
  {
    var t := NormName(tok);
    if t in NameToAlpha2 {
      TableAlpha2(t);
    }
  }

  /** The second pass finds two capital letters and never a noise word. */
  lemma ScanCodeIs(text: string, i: nat)
    requires ScanCode(text, i).Some?
    ensures IsAlpha2(ScanCode(text, i).value) && ScanCode(text, i).value !in Noise
  {
  }

  /** Every code found is two capital letters A-Z. */
  lemma CountryCodesAlpha2(text: string, c: string)
    requires c in CountryCodes(text)
    ensures IsAlpha2(c)
  {
    var toks := SplitRuns(text, TokenSeps);
    var f := (i: nat) => ScanCode(text, i);
    if c in Gathered(toks, TokenCode) {
      GatheredFrom(toks, TokenCode, c);
      var i :| 0 <= i < |toks| && TokenCode(toks[i]) == Some(c);
      TokenCodeIs(toks[i]);
    } else {
      GatheredFrom(Positions(|text|), f, c);
      var i :| 0 <= i < |Positions(|text|)| && f(Positions(|text|)[i]) == Some(c);
      ScanCodeIs(text, Positions(|text|)[i]);
    }
  }

  /** A noise word is found only as the code of a table name, such as INDIA for IN or NORWAY for NO. */
  lemma NoiseOnlyByName(text: string, c: string)
    requires c in CountryCodes(text) && c in Noise
    ensures exists tok :: tok in SplitRuns(text, TokenSeps) && NormName(tok) in NameToAlpha2 && NameToAlpha2[NormName(tok)] == c
  {
    var toks := SplitRuns(text, TokenSeps);
    var f := (i: nat) => ScanCode(text, i);
    if c in Gathered(toks, TokenCode) {
      GatheredFrom(toks, TokenCode, c);
      var i :| 0 <= i < |toks| && TokenCode(toks[i]) == Some(c);
      TokenCodeIs(toks[i]);
      assert toks[i] in toks;
    } else {
      GatheredFrom(Positions(|text|), f, c);
      var i :| 0 <= i < |Positions(|text|)| && f(Positions(|text|)[i]) == Some(c);
      ScanCodeIs(text, Positions(|text|)[i]);
      assert false;
    }
  }

  /** A token that is a table name yields that name's code. */
  lemma NameYieldsCode(text: string, i: nat)
    requires i < |SplitRuns(text, TokenSeps)| && NormName(SplitRuns(text, TokenSeps)[i]) in NameToAlpha2
    ensures NameToAlpha2[NormName(SplitRuns(text, TokenSeps)[i])] in CountryCodes(text)
  {
    TableAlpha2(NormName(SplitRuns(text, TokenSeps)[i]));
    GatheredHas(SplitRuns(text, TokenSeps), TokenCode, i);
  }

  // ---------------------------------------------------------------- booleans

  const BoolTrue: set<string> := {"1", "true", "yes", "on", "enable", "enabled"}
  const BoolFalse: set<string> := {"0", "false", "no", "off", "disable", "disabled"}

  /** The characters `strip('"\';')` removes. */
  const QuoteSemi: set<char> := {'"', '\'', ';'}

  /** The word `_bool_state_from_str` looks up: blanks, then quotes and ';', stripped, in lower case. */
  function BoolWord(s: string): string
  {
    Lower(StripSet(Strip(s), QuoteSemi))
  }

  /** `_bool_state_from_str(s)`: True for a word of BOOL_TRUE, False for one of BOOL_FALSE, None for anything else. */
  function BoolState(s: string): (r: Option<bool>)
    ensures r == Some(true) <==> BoolWord(s) in BoolTrue
    ensures r == Some(false) <==> BoolWord(s) in BoolFalse
    ensures r == None <==> BoolWord(s) !in BoolTrue + BoolFalse
  {
    var v := BoolWord(s);
    BoolWordsDisjoint(v);
    if v in BoolTrue then Some(true) else if v in BoolFalse then Some(false) else None
  }

  /** No word is both true and false. */
  lemma BoolWordsDisjoint(w: string)
    ensures !(w in BoolTrue && w in BoolFalse)
  {
    if w in BoolTrue {
      assert w == "1" || w == "true" || w == "yes" || w == "on" || w == "enable" || w == "enabled";
    }
  }

  /** Quotes and ';' around a word are stripped, and its case is dropped. */
  lemma BoolWordQuoted(q1: string, w: string, q2: string)
    requires AllIn(q1, QuoteSemi) && AllIn(q2, QuoteSemi)
    requires w != [] && w[0] !in Whitespace + QuoteSemi && w[|w| - 1] !in Whitespace + QuoteSemi
    ensures BoolWord(q1 + w + q2) == Lower(w)
  {
    var s := q1 + w + q2;
    assert s[0] !in Whitespace by { if q1 != [] { assert s[0] == q1[0]; } else { assert s[0] == w[0]; } }
    assert s[|s| - 1] !in Whitespace by { if q2 != [] { assert s[|s| - 1] == q2[|q2| - 1]; } else { assert s[|s| - 1] == w[|w| - 1]; } }
    StripSetFixed(s, Whitespace);
    StripSetPad(q1, w, q2, QuoteSemi);
    StripSetFixed(w, QuoteSemi);
  }

  /** A lower-case word reads as itself. */
  lemma BoolWordPlain(w: string)
    requires w != [] && w[0] !in Whitespace + QuoteSemi && w[|w| - 1] !in Whitespace + QuoteSemi
    ensures BoolWord(Lower(w)) == Lower(w)
  {
    var l := Lower(w);
    assert l[0] == LowerChar(w[0]) && l[|l| - 1] == LowerChar(w[|w| - 1]);
    StripSetFixed(l, Whitespace);
    StripSetFixed(l, QuoteSemi);
    LowerIsLower(w);
  }

  /** Quotes and ';' around a word, and its case, do not change how it reads. */
  lemma BoolStateQuoted(q1: string, w: string, q2: string)
    requires AllIn(q1, QuoteSemi) && AllIn(q2, QuoteSemi)
    requires w != [] && w[0] !in Whitespace + QuoteSemi && w[|w| - 1] !in Whitespace + QuoteSemi
    ensures BoolState(q1 + w + q2) == BoolState(Lower(w))
  {
    BoolWordQuoted(q1, w, q2);
    BoolWordPlain(w);
  }

  // ---------------------------------------------------------------- value tokens

  const Quotes: set<char> := {'"', '\''}

  /** The separators of `_tokenize_values`, `[,\s;/|]+`. */
  const ValueSeps: set<char> := Whitespace + {',', ';', '/', '|'}

  /** `tok.strip().strip('"\'')`. */
  function Unquoted(tok: string): (r: string)
    ensures r == [] || (r[0] !in Quotes && r[|r| - 1] !in Quotes)
  {
    StripSet(Strip(tok), Quotes)
  }

  /** What `strip` keeps of a string with none of `ds` has none of them either. */
  lemma StripSetNoneIn(s: string, cs: set<char>, ds: set<char>)
    requires NoneIn(s, ds)
    ensures NoneIn(StripSet(s, cs), ds)
  {
    var l := LStripSet(s, cs);
    NoneInSlice(s, |s| - |l|, |s|, ds);
    NoneInSlice(l, 0, |RStripSet(l, cs)|, ds);
  }

  /** A slice of a text without chars of `ds` has none either. */
  lemma NoneInSlice(s: string, a: nat, b: nat, ds: set<char>)
    requires a <= b <= |s| && NoneIn(s, ds)
    ensures NoneIn(s[a..b], ds)
  {
    forall k | 0 <= k < b - a ensures s[a..b][k] !in ds {
      assert s[a..b][k] == s[a + k];
    }
  }

  /** `[t for t in (tok.strip().strip('"\'') for tok in pieces) if t]`. */
  function CleanPieces(pieces: seq<string>): seq<string>
    decreases |pieces|
  {
    if |pieces| == 0 then []
    else
      var t := Unquoted(pieces[0]);
      (if t == "" then [] else [t]) + CleanPieces(pieces[1..])
  }

  /** `_tokenize_values(s)`: the pieces between separator runs of the unquoted text, each unquoted, the empty ones dropped. */
  function TokenizeValues(s: string): (ts: seq<string>)
  {
    if s == "" then [] else CleanPieces(SplitRuns(Unquoted(s), ValueSeps))
  }

  /** A clean token: non-empty, no separator, and no quote at either end. */
  predicate CleanToken(t: string)
  {
    t != [] && NoneIn(t, ValueSeps) && t[0] !in Quotes && t[|t| - 1] !in Quotes
  }

  /** Cleaning pieces without separators gives clean tokens. */
  lemma {:induction false} CleanPiecesClean(pieces: seq<string>)
    requires forall i :: 0 <= i < |pieces| ==> NoneIn(pieces[i], ValueSeps)
    ensures forall t :: t in CleanPieces(pieces) ==> CleanToken(t)
    decreases |pieces|
  {
    if |pieces| > 0 {
      forall i | 0 <= i < |pieces[1..]| ensures NoneIn(pieces[1..][i], ValueSeps) {
        assert pieces[1..][i] == pieces[i + 1];
      }
      CleanPiecesClean(pieces[1..]);
      PieceClean(pieces, 0);
      CleanPiecesStep(pieces);
    }
  }

  /** A token of the cleaned pieces is a token of the rest or the first piece unquoted, non-empty. */
  lemma CleanPiecesStep(ps: seq<string>)
    requires ps != []
    ensures forall t :: t in CleanPieces(ps) ==> t in CleanPieces(ps[1..]) || (t == Unquoted(ps[0]) && t != "")
  {
  }

  /** Every token is non-empty, holds no separator, and neither starts nor ends with a quote. */
  lemma TokensClean(s: string)
    ensures forall t :: t in TokenizeValues(s) ==> CleanToken(t)
  {
    if s != "" {
      CleanPiecesClean(SplitRuns(Unquoted(s), ValueSeps));
    }
  }

  /** An unquoted piece between separators holds no separator. */
  lemma PieceClean(pieces: seq<string>, i: nat)
    requires i < |pieces| && NoneIn(pieces[i], ValueSeps)
    ensures NoneIn(Unquoted(pieces[i]), ValueSeps)
  {
    StripSetNoneIn(pieces[i], Whitespace, ValueSeps);
    StripSetNoneIn(Strip(pieces[i]), Quotes, ValueSeps);
  }

  /** A word with no separator or quote. */
  predicate PlainWord(w: string)
  {
    w != [] && NoneIn(w, ValueSeps + Quotes)
  }

  /** Comma-joined plain words split back into the words. */
  lemma SplitJoined(ws: seq<string>)
    requires ws != [] && forall i :: 0 <= i < |ws| ==> PlainWord(ws[i])
    ensures SplitRuns(JoinWith(ws, ","), ValueSeps) == ws
  {
    forall i | 0 <= i < |ws| ensures ws[i] != [] && NoneIn(ws[i], ValueSeps) {
      PlainWordSeps(ws[i]);
    }
    assert ',' in ValueSeps;
    SplitRunsJoined(ws, ',', ValueSeps);
  }

  lemma PlainWordSeps(w: string)
    requires PlainWord(w)
    ensures w != [] && NoneIn(w, ValueSeps)
  {
    assert forall k :: 0 <= k < |w| ==> w[k] !in ValueSeps + Quotes;
  }

  /** A plain word is its own unquoted form. */
  lemma UnquotedWord(w: string)
    requires PlainWord(w)
    ensures Unquoted(w) == w
  {
    assert w[0] !in ValueSeps + Quotes && w[|w| - 1] !in ValueSeps + Quotes;
    StripSetFixed(w, Whitespace);
    StripSetFixed(w, Quotes);
  }

  /** The joined list needs no unquoting as a whole. */
  lemma UnquotedJoined(ws: seq<string>)
    requires ws != [] && forall i :: 0 <= i < |ws| ==> PlainWord(ws[i])
    ensures Unquoted(JoinWith(ws, ",")) == JoinWith(ws, ",")
  {
    var j := JoinWith(ws, ",");
    assert forall i :: 0 <= i < |ws| ==> PlainWord(ws[i]) ==> ws[i] != [];
    JoinedStarts(ws, ",");
    assert PlainWord(ws[0]) && PlainWord(ws[|ws| - 1]);
    var last := ws[|ws| - 1];
    assert ws[0][0] !in ValueSeps + Quotes && last[|last| - 1] !in ValueSeps + Quotes;
    StripSetFixed(j, Whitespace);
    StripSetFixed(j, Quotes);
  }

  /** A first piece that unquotes to itself, non-empty, is the first token. */
  lemma CleanPiecesCons(ps: seq<string>)
    requires ps != [] && ps[0] != "" && Unquoted(ps[0]) == ps[0]
    ensures CleanPieces(ps) == [ps[0]] + CleanPieces(ps[1..])
  {
  }

  /** Plain words are kept as they are. */
  lemma {:induction false} CleanPlain(ws: seq<string>)
    requires forall i :: 0 <= i < |ws| ==> PlainWord(ws[i])
    ensures CleanPieces(ws) == ws
    decreases |ws|
  {
    if ws != [] {
      assert PlainWord(ws[0]);
      UnquotedWord(ws[0]);
      forall i | 0 <= i < |ws[1..]| ensures PlainWord(ws[1..][i]) {
        assert ws[1..][i] == ws[i + 1];
      }
      CleanPlain(ws[1..]);
      CleanPiecesCons(ws);
      assert ws == [ws[0]] + ws[1..];
    }
  }

  /** `_tokenize_values` reads a comma-separated list of plain words back as those words. */
  lemma TokenizeJoined(ws: seq<string>)
    requires ws != [] && forall i :: 0 <= i < |ws| ==> PlainWord(ws[i])
    ensures TokenizeValues(JoinWith(ws, ",")) == ws
  {
    UnquotedJoined(ws);
    SplitJoined(ws);
    CleanPlain(ws);
  }

  // ---------------------------------------------------------------- inputSource mapping

  /** A parsed item: the key and value it sets, if any. */
  type Entry = Option<(string, string)>

  /**
   * One comma-separated item of an inputSource value: the key and the value
   * around its first ':', both trimmed and upper-cased, or None when the
   * unquoted item is empty, has no ':' or has an empty key.
   */
  function MapEntry(item: string): (e: Entry)
    ensures e.Some? ==> e.value.0 != "" && IsUpperCase(e.value.0) && IsUpperCase(e.value.1)
  {
    var t := Unquoted(item);
    if t == "" || ':' !in t then None
    else
      var kv := SplitOnce(t, ':');
      var k := Upper(Strip(kv.0));
      UpperIsUpper(Strip(kv.0));
      UpperIsUpper(Strip(kv.1));
      if k == "" then None else Some((k, Upper(Strip(kv.1))))
  }

  /** The parsed items, in order. */
  function ParsedItems(items: seq<string>): (es: seq<Entry>)
    ensures |es| == |items|
    ensures forall j :: 0 <= j < |items| ==> es[j] == MapEntry(items[j])
    decreases |items|
  {
    if |items| == 0 then [] else ParsedItems(items[..|items| - 1]) + [MapEntry(items[|items| - 1])]
  }

  /** Whether a parsed item sets key `k`. */
  predicate Sets(e: Entry, k: string)
  {
    e.Some? && e.value.0 == k
  }

  /** The dictionary the parsed items build in order: a later item overwrites an earlier one with the same key. */
  function Entries(es: seq<Entry>): map<string, string>
    decreases |es|
  {
    if |es| == 0 then map[]
    else
      var m := Entries(es[..|es| - 1]);
      var e := es[|es| - 1];
      if e.Some? then m[e.value.0 := e.value.1] else m
  }

  /** `" ".join(v.replace("\n", " ").replace("\r", " ").split())`. */
  function Collapsed(v: string): string
  {
    JoinWith(SplitWs(ReplaceChar(ReplaceChar(v, '\n', ' '), '\r', ' ')), " ")
  }

  /** The items `_parse_input_mapping_value(v)` reads: none for an empty value. */
  function MappingItems(v: string): seq<string>
  {
    if v == "" then [] else Split(Collapsed(v), ',')
  }

  /** `_parse_input_mapping_value(v)`. */
  function InputMapping(v: string): map<string, string>
  {
    Entries(ParsedItems(MappingItems(v)))
  }

  /** `_parse_input_mapping_value(v)`: an empty value maps nothing, otherwise the items are read in order. */
  method ParseInputMappingValue(v: string) returns (mapping: map<string, string>)
    ensures mapping == InputMapping(v)
  {
    if v == "" {
      return map[];
    }
    mapping := ReadItems(Split(Collapsed(v), ','));
  }

  /** The loop of `_parse_input_mapping_value`: each item that parses sets its key, overwriting an earlier value. */
  method ReadItems(items: seq<string>) returns (mapping: map<string, string>)
    ensures mapping == Entries(ParsedItems(items))
  {
    ghost var es := ParsedItems(items);
    mapping := map[];
    var i := 0;
    while i < |items|
      invariant 0 <= i <= |items|
      invariant mapping == Entries(es[..i])
    {
      var e := MapEntry(items[i]);
      assert e == es[i];
      EntriesStep(es, i);
      if e.Some? {
        mapping := mapping[e.value.0 := e.value.1];
      }
      i := i + 1;
    }
    assert es[..|items|] == es;
  }

  lemma EntriesStep(es: seq<Entry>, i: nat)
    requires i < |es|
    ensures Entries(es[..i + 1]) == if es[i].Some? then Entries(es[..i])[es[i].value.0 := es[i].value.1] else Entries(es[..i])
  {
    assert es[..i + 1][..i] == es[..i];
  }

  /** Keys are non-empty, and keys and values are upper case. */
  lemma {:induction false} EntriesUpper(es: seq<Entry>)
    requires forall j :: 0 <= j < |es| && es[j].Some? ==> es[j].value.0 != "" && IsUpperCase(es[j].value.0) && IsUpperCase(es[j].value.1)
    ensures forall k :: k in Entries(es) ==> k != "" && IsUpperCase(k) && IsUpperCase(Entries(es)[k])
    decreases |es|
  {
    if |es| > 0 {
      var n := |es| - 1;
      assert forall j :: 0 <= j < n ==> es[..n][j] == es[j];
      EntriesUpper(es[..n]);
    }
  }

  /** Every key of an inputSource mapping is non-empty, and keys and values are upper case. */
  lemma InputMappingUpper(v: string)
    ensures forall k :: k in InputMapping(v) ==> k != "" && IsUpperCase(k) && IsUpperCase(InputMapping(v)[k])
  {
    EntriesUpper(ParsedItems(MappingItems(v)));
  }

  /** A key is in the dictionary exactly when some item sets it. */
  lemma {:induction false} EntriesKeys(es: seq<Entry>, k: string)
    ensures k in Entries(es) <==> exists j :: 0 <= j < |es| && Sets(es[j], k)
    decreases |es|
  {
    if |es| > 0 {
      var n := |es| - 1;
      EntriesKeys(es[..n], k);
      if k in Entries(es[..n]) {
        var j :| 0 <= j < n && Sets(es[..n][j], k);
        assert es[j] == es[..n][j];
      }
      if j :| 0 <= j < n && Sets(es[j], k) {
        assert es[..n][j] == es[j];
      }
    }
  }

  /** The value of a key is the one its last setting item gives. */
  lemma {:induction false} EntriesLast(es: seq<Entry>, j: nat)
    requires j < |es| && es[j].Some?
    requires forall l :: j < l < |es| ==> !Sets(es[l], es[j].value.0)
    ensures es[j].value.0 in Entries(es) && Entries(es)[es[j].value.0] == es[j].value.1
    decreases |es|
  {
    var n := |es| - 1;
    if j < n {
      assert es[..n][j] == es[j];
      forall l | j < l < n ensures !Sets(es[..n][l], es[j].value.0) {
        assert es[..n][l] == es[l];
      }
      EntriesLast(es[..n], j);
    }
  }

  /** A key is in an inputSource mapping exactly when one of its items sets it. */
  lemma InputMappingKeys(v: string, k: string)
    ensures k in InputMapping(v) <==> exists j :: 0 <= j < |MappingItems(v)| && Sets(MapEntry(MappingItems(v)[j]), k)
  {
    var items := MappingItems(v);
    var es := ParsedItems(items);
    EntriesKeys(es, k);
    if j :| 0 <= j < |items| && Sets(MapEntry(items[j]), k) {
      assert Sets(es[j], k);
    }
  }

  /**
   * In an inputSource mapping, the value of a key is the one the last item
   * setting it gives (item `j` of the value, parsed as `MapEntry` does).
   */
  lemma InputMappingLast(v: string, j: nat, k: string, x: string)
    requires j < |MappingItems(v)| && ParsedItems(MappingItems(v))[j] == Some((k, x))
    requires forall l :: j < l < |MappingItems(v)| ==> !Sets(ParsedItems(MappingItems(v))[l], k)
    ensures k in InputMapping(v) && InputMapping(v)[k] == x
  {
    EntriesLast(ParsedItems(MappingItems(v)), j);
  }

  // ---------------------------------------------------------------- volume-curve references

  /** PLACEHOLDER_VALUES: values that name no file. */
  const Placeholders: set<string> := {"", "none", "null", "0", "off", "disable", "disabled"}

  /** The value of `_resolve_candidate_path` once unquoted and cut at an inline ';' comment. */
  function CandidateText(value: string): (v: string)
    ensures ';' !in v
  {
    var v := Unquoted(value);
    if ';' in v then Strip(Before(v, ';')) else v
  }

  /**
   * `_resolve_candidate_path(root, value)`: nothing for a placeholder;
   * otherwise the first `/tvconfigs/` reference in the value resolved like
   * any other, or else the value itself under the root once its leading '.'
   * and '/' characters are gone.
   */
  function ResolveCandidatePath(root: string, value: string): (r: Option<string>)
    ensures r.None? <==> Lower(CandidateText(value)) in Placeholders
    ensures r.Some? ==> r.value != ""
  {
    var v := CandidateText(value);
    if Lower(v) in Placeholders then None else Some(CandidateResolved(root, v))
  }

  /** A value that is no placeholder: its first `/tvconfigs/` reference resolved, else the value itself under the root. */
  function CandidateResolved(root: string, v: string): (r: string)
    ensures r != ""
  {
    var tvs := TvPaths.TvPathsIn(v);
    if tvs != [] then ResolveToProject(root, tvs[0])
    else NormPath(Join(root, LStripSet(v, DotSlash)))
  }

  /** `rstrip` keeps everything up to a character it does not remove. */
  lemma RStripKeeps(s: string, k: nat, cs: set<char>)
    requires k < |s| && s[k] !in cs
    ensures k < |RStripSet(s, cs)| && RStripSet(s, cs)[..k + 1] == s[..k + 1]
  {
  }

  /** Unquoting a value that starts with neither a blank nor a quote keeps it up to any later such character. */
  lemma UnquotedKeeps(s: string, k: nat)
    requires k < |s| && s[k] !in Whitespace + Quotes && s[0] !in Whitespace + Quotes
    ensures k < |Unquoted(s)| && Unquoted(s)[..k + 1] == s[..k + 1]
  {
    LStripSetFixed(s, Whitespace);
    RStripKeeps(s, k, Whitespace);
    var t := Strip(s);
    assert t[0] == s[0];
    LStripSetFixed(t, Quotes);
    RStripKeeps(t, k, Quotes);
  }

  /** A string with a given prefix is that prefix and the rest. */
  lemma PrefixRest(u: string, x: string)
    requires |x| <= |u| && u[..|x|] == x
    ensures u == x + u[|x|..]
  {
  }

  /** The text before the first ';' of `p + ";" + rest` is `p` when `p` has no ';'. */
  lemma BeforeSemicolon(p: string, rest: string)
    requires ';' !in p
    ensures ';' in p + ";" + rest && Before(p + ";" + rest, ';') == p
  {
    var x := p + ";";
    assert x + rest == p + ";" + rest;
    assert x[|p|] == ';' && x[..|p|] == p;
    CharIndexAt(x, ';', |p|);
    CharIndexPrefix(x, rest, ';');
  }

  /** An inline comment is dropped: what counts is the text before the first ';', trimmed. */
  lemma CandidateComment(p: string, c: string)
    requires p != [] && p[0] !in Whitespace + Quotes && ';' !in p
    ensures CandidateText(p + ";" + c) == Strip(p)
  {
    var x := p + ";";
    var s := x + c;
    var k := |p|;
    assert |x| == k + 1 && s[k] == ';' && s[0] == p[0] && s[..k + 1] == x;
    UnquotedKeeps(s, k);
    var u := Unquoted(s);
    assert u[..|x|] == x;
    PrefixRest(u, x);
    BeforeSemicolon(p, u[k + 1..]);
  }

  /** Stripping leading '.' and '/' leaves no leading '/'. */
  lemma DotSlashStripped(v: string)
    ensures !StartsWith(LStripSet(v, DotSlash), "/")
  {
  }

  /** A value that is no placeholder and holds no `/tvconfigs/` reference stays inside an absolute root when it has no "..". */
  lemma CandidateWithin(root: string, value: string)
    requires Resolvers.AbsRoot(root)
    requires Lower(CandidateText(value)) !in Placeholders && TvPaths.TvPathsIn(CandidateText(value)) == []
    requires NoDotDot(LStripSet(CandidateText(value), DotSlash))
    ensures Within(ResolveCandidatePath(root, value).value, NormPath(root))
  {
    var v := CandidateText(value);
    var rest := LStripSet(v, DotSlash);
    assert ResolveCandidatePath(root, value) == Some(NormPath(Join(root, rest)));
    DotSlashStripped(v);
    JoinNormWithin(root, rest);
  }

  /** How many characters KV_RE lets follow a key's first character. */
  const KeyLimit: nat := 120

  /** The section `extract_volcurve_paths_from_tvsysmap` reads. */
  const VolumeCurveSection: string := "VOLUME_CURVE_CFG"

  /** What the loop of `extract_volcurve_paths_from_tvsysmap` makes of a line: a header, a key=value line with its value, or neither. */
  datatype CurveLine = Header(name: string) | Assign(value: string) | Other

  /** SECTION_RE first; then KV_RE, whose group 2 is the text after the first '=' with its blanks trimmed. */
  function CurveKind(raw: string): CurveLine
  {
    match Scan.SectionHeader(raw)
    case Some(name) => Header(name)
    case None =>
      match TvPaths.KeyEq(raw, KeyLimit)
      case None => Other
      case Some((k, e)) => Assign(Strip(raw[e + 1..]))
  }

  predicate OpensCurve(name: string)
  {
    Upper(Strip(name)) == VolumeCurveSection
  }

  /**
   * The references found from line `i` on, `inSection` telling whether the
   * last header seen was VOLUME_CURVE_CFG: inside it the value of each
   * key=value line is resolved by `resolve`, and the ones it resolves are kept.
   */
  function CurveRefs(ks: seq<CurveLine>, i: nat, inSection: bool, resolve: string -> Option<string>): seq<string>
    requires i <= |ks|
    decreases |ks| - i
  {
    if i == |ks| then []
    else
      match ks[i]
      case Header(name) => CurveRefs(ks, i + 1, OpensCurve(name), resolve)
      case Other => CurveRefs(ks, i + 1, inSection, resolve)
      case Assign(v) =>
        var rest := CurveRefs(ks, i + 1, inSection, resolve);
        if inSection && resolve(v).Some? then [resolve(v).value] + rest else rest
  }

  function CandidateFn(root: string): string -> Option<string>
  {
    v => ResolveCandidatePath(root, v)
  }

  /** The references `extract_volcurve_paths_from_tvsysmap` collects from a file's lines. */
  function VolCurveRefs(root: string, lines: seq<string>): seq<string>
  {
    CurveRefs(MapSeq(lines, CurveKind), 0, false, CandidateFn(root))
  }

  /** One line of the scan: a header sets the state, a value inside the section that resolves is kept. */
  lemma CurveStep(ks: seq<CurveLine>, i: nat, inSection: bool, resolve: string -> Option<string>)
    requires i < |ks|
    ensures ks[i].Header? ==> CurveRefs(ks, i, inSection, resolve) == CurveRefs(ks, i + 1, OpensCurve(ks[i].name), resolve)
    ensures ks[i].Other? ==> CurveRefs(ks, i, inSection, resolve) == CurveRefs(ks, i + 1, inSection, resolve)
    ensures ks[i].Assign? && inSection && resolve(ks[i].value).Some? ==>
      CurveRefs(ks, i, inSection, resolve) == [resolve(ks[i].value).value] + CurveRefs(ks, i + 1, true, resolve)
    ensures ks[i].Assign? && !(inSection && resolve(ks[i].value).Some?) ==>
      CurveRefs(ks, i, inSection, resolve) == CurveRefs(ks, i + 1, inSection, resolve)
  {
  }

  /**
   * The loop of `extract_volcurve_paths_from_tvsysmap` over the lines as
   * `kind` sees them: a header sets whether the scan is inside the section,
   * and inside it each value that resolves is appended.
   */
  method ScanCurve(lines: seq<string>, kind: string -> CurveLine, resolve: string -> Option<string>) returns (refs: seq<string>)
    ensures refs == CurveRefs(MapSeq(lines, kind), 0, false, resolve)
  {
    ghost var ks := MapSeq(lines, kind);
    var inSection := false;
    refs := [];
    var i := 0;
    while i < |lines|
      invariant 0 <= i <= |lines|
      invariant refs + CurveRefs(ks, i, inSection, resolve) == CurveRefs(ks, 0, false, resolve)
    {
      assert ks[i] == kind(lines[i]);
      CurveStep(ks, i, inSection, resolve);
      match kind(lines[i]) {
        case Header(name) =>
          inSection := Upper(Strip(name)) == VolumeCurveSection;
        case Other =>
        case Assign(value) =>
          if inSection {
            var p := resolve(value);
            if p.Some? {
              AppendAssoc(refs, [p.value], CurveRefs(ks, i + 1, true, resolve));
              refs := refs + [p.value];
            }
          }
      }
      i := i + 1;
    }
    assert refs + [] == refs;
  }

  /** The references of a file whose target does not exist, in order. */
  function MissingOf(fs: FileSystem, refs: seq<string>): (m: seq<string>)
    ensures forall p :: p in m <==> p in refs && !Exists(fs, p)
    ensures Subsequence(m, refs)
  {
    Keep(refs, (p: string) => !Exists(fs, p))
  }

  /** `extract_volcurve_paths_from_tvsysmap(path, root)`: the references and the missing ones; an unreadable file has no lines. */
  method ExtractVolcurvePaths(fs: FileSystem, path: string, root: string) returns (refs: seq<string>, missing: seq<string>)
    ensures refs == VolCurveRefs(root, LinesOrEmpty(fs, path))
    ensures missing == MissingOf(fs, refs)
  {
    var lines := LinesOrEmpty(fs, path);
    refs := ScanCurve(lines, CurveKind, CandidateFn(root));
    missing := MissingOf(fs, refs);
  }

  /** Whether the last header among `pre` was VOLUME_CURVE_CFG. */
  function InCurve(pre: seq<CurveLine>): bool
    decreases |pre|
  {
    if |pre| == 0 then false
    else if pre[|pre| - 1].Header? then OpensCurve(pre[|pre| - 1].name)
    else InCurve(pre[..|pre| - 1])
  }

  /** One more line: a header decides afresh, any other line keeps the section. */
  lemma InCurveSnoc(ks: seq<CurveLine>, i: nat)
    requires i < |ks|
    ensures InCurve(ks[..i + 1]) == if ks[i].Header? then OpensCurve(ks[i].name) else InCurve(ks[..i])
  {
    assert ks[..i + 1][..i] == ks[..i];
    assert ks[..i + 1][i] == ks[i];
  }

  /** Line `j` is a key=value line inside a VOLUME_CURVE_CFG section whose value resolves. */
  predicate CurveRefAt(ks: seq<CurveLine>, j: nat, resolve: string -> Option<string>)
    requires j < |ks|
  {
    InCurve(ks[..j]) && ks[j].Assign? && resolve(ks[j].value).Some?
  }

  /** The resolved values of the key=value lines inside VOLUME_CURVE_CFG sections from line `i` on. */
  function CurveRefsFrom(ks: seq<CurveLine>, i: nat, resolve: string -> Option<string>): seq<string>
    requires i <= |ks|
    decreases |ks| - i
  {
    if i == |ks| then []
    else if CurveRefAt(ks, i, resolve) then [resolve(ks[i].value).value] + CurveRefsFrom(ks, i + 1, resolve)
    else CurveRefsFrom(ks, i + 1, resolve)
  }

  /** The scan keeps exactly what lies in a VOLUME_CURVE_CFG section, line by line: there is no state but the last header. */
  lemma {:induction false} CurveRefsExact(ks: seq<CurveLine>, i: nat, resolve: string -> Option<string>)
    requires i <= |ks|
    ensures CurveRefs(ks, i, InCurve(ks[..i]), resolve) == CurveRefsFrom(ks, i, resolve)
    decreases |ks| - i
  {
    if i < |ks| {
      InCurveSnoc(ks, i);
      CurveRefsExact(ks, i + 1, resolve);
    }
  }

  /** Every reference of the curve-section lines comes from one of them. */
  lemma {:induction false} CurveRefsFromInside(ks: seq<CurveLine>, i: nat, resolve: string -> Option<string>)
    requires i <= |ks|
    ensures forall x :: x in CurveRefsFrom(ks, i, resolve) ==>
      exists j :: i <= j < |ks| && CurveRefAt(ks, j, resolve) && resolve(ks[j].value) == Some(x)
    decreases |ks| - i
  {
    if i < |ks| {
      CurveRefsFromInside(ks, i + 1, resolve);
    }
  }

  /** Every line inside a curve section whose value resolves contributes its reference. */
  lemma {:induction false} CurveRefsFromHas(ks: seq<CurveLine>, i: nat, j: nat, resolve: string -> Option<string>)
    requires i <= j < |ks| && CurveRefAt(ks, j, resolve)
    ensures resolve(ks[j].value).value in CurveRefsFrom(ks, i, resolve)
    decreases j - i
  {
    if i < j {
      CurveRefsFromHas(ks, i + 1, j, resolve);
    }
  }

  /**
   * What `extract_volcurve_paths_from_tvsysmap` collects is exactly the
   * resolved values of the key=value lines between a VOLUME_CURVE_CFG header
   * and the next header: each reference comes from such a line, and each
   * such line whose value is no placeholder gives its reference.
   */
  lemma VolCurveRefsExact(root: string, lines: seq<string>)
    ensures var ks := MapSeq(lines, CurveKind);
      forall x :: x in VolCurveRefs(root, lines) <==>
        exists j :: 0 <= j < |lines| && CurveRefAt(ks, j, CandidateFn(root)) && ResolveCandidatePath(root, ks[j].value) == Some(x)
  {
    var ks := MapSeq(lines, CurveKind);
    var f := CandidateFn(root);
    assert ks[..0] == [];
    CurveRefsExact(ks, 0, f);
    CurveRefsFromInside(ks, 0, f);
    forall x | exists j :: 0 <= j < |lines| && CurveRefAt(ks, j, f) && ResolveCandidatePath(root, ks[j].value) == Some(x)
      ensures x in VolCurveRefs(root, lines)
    {
      var j :| 0 <= j < |lines| && CurveRefAt(ks, j, f) && ResolveCandidatePath(root, ks[j].value) == Some(x);
      CurveRefsFromHas(ks, 0, j, f);
    }
  }

  /** A key=value line whose key needs no trimming is read for its trimmed value. */
  lemma CurveKindAssign(key: string, v: string)
    requires key != [] && key[0] !in Whitespace + TvPaths.KeyStartStops && key[0] != '[' && '=' !in key
    requires |key| <= KeyLimit + 1
    ensures CurveKind(key + "=" + v) == Assign(Strip(v))
  {
    var line := key + "=" + v;
    TvPaths.KeyEqCompact(key, v, KeyLimit);
    assert line[0] == key[0];
    Scan.SkipSetAt(line, 0, 0, Whitespace);
    assert line[|key| + 1..] == v;
  }

  /** A section header line is read as that header. */
  lemma CurveKindHeader(p: string, g: string, q: string)
    requires IsBlank(p) && IsBlank(q) && g != "" && ']' !in g
    ensures CurveKind(p + "[" + g + "]" + q) == Header(g)
  {
    Scan.SectionHeaderOf(p, g, q);
  }

  // ---------------------------------------------------------------- TvSystem types and inputs

  /** TVSYS_ALLOWED_TYPES. */
  const AllowedTypes: set<string> := {"DVB", "DVB_CO", "DTMB"}

  /** DVB_INPUT_TOKENS, in the order the analysis visits them. */
  const DvbInputs: seq<string> := ["DVBT", "DVBC", "DVBS"]

  /** NULL_TOKENS: mapped values that mean the input is absent. */
  const NullTokens: set<string> := {"", "NULL", "NONE", "N/A"}

  const LiveTvCategory: string := "[LiveTV]"
  const InputSourceKey: string := "INPUTSOURCE"

  /** An `<Item>` of a TvSystem block, by its category, key and value attributes ("" when absent). */
  datatype Item = Item(category: string, key: string, value: string)

  /** A `<TvSystem>` block: its type attribute ("" when absent) and the items inside it, in document order. */
  datatype TvSystemBlock = TvSystemBlock(typeAttr: string, items: seq<Item>)

  function BlockType(b: TvSystemBlock): string
  {
    Upper(Strip(b.typeAttr))
  }

  /** The `[LiveTV]` item whose key is `inputSource` (in any case). */
  predicate IsInputItem(it: Item)
  {
    Strip(it.category) == LiveTvCategory && Upper(Strip(it.key)) == InputSourceKey
  }

  predicate NonNull(v: string)
  {
    Upper(Strip(v)) !in NullTokens
  }

  /** `k` when the mapping gives it a value outside NULL_TOKENS. */
  function NonNullInput(m: map<string, string>, k: string): Option<string>
  {
    if k in m && NonNull(m[k]) then Some(k) else None
  }

  function NonNullFn(m: map<string, string>): string -> Option<string>
  {
    k => NonNullInput(m, k)
  }

  /** The DVB inputs a mapping gives a value outside NULL_TOKENS. */
  function NonNullInputs(m: map<string, string>): set<string>
  {
    Gathered(DvbInputs, NonNullFn(m))
  }

  /** The inputs one item contributes: those of its mapping, when it is the inputSource item. */
  function ItemInputs(it: Item): set<string>
  {
    if IsInputItem(it) then NonNullInputs(InputMapping(it.value)) else {}
  }

  /** The inputs one block contributes: those of its items, when its type is allowed. */
  function BlockInputs(b: TvSystemBlock): set<string>
  {
    if BlockType(b) in AllowedTypes then Unions(b.items, ItemInputs) else {}
  }

  /** `t` when it is an allowed type. */
  function AllowedType(b: TvSystemBlock): Option<string>
  {
    if BlockType(b) in AllowedTypes then Some(BlockType(b)) else None
  }

  /** The allowed types the blocks carry. */
  function TypesOf(blocks: seq<TvSystemBlock>): set<string>
  {
    Gathered(blocks, AllowedType)
  }

  /** The inputs the blocks of an allowed type contribute. */
  function InputsOf(blocks: seq<TvSystemBlock>): set<string>
  {
    Unions(blocks, BlockInputs)
  }

  /** The loop over ("DVBT", "DVBC", "DVBS") for one input mapping. */
  method AddNonNullInputs(mapping: map<string, string>, found: set<string>) returns (out: set<string>)
    ensures out == found + NonNullInputs(mapping)
  {
    var more := Gather(DvbInputs, NonNullFn(mapping));
    out := found + more;
  }

  /** One more item adds the inputs of its mapping when it is the inputSource item, and nothing otherwise. */
  lemma ItemsStep(items: seq<Item>, i: nat)
    requires i < |items|
    ensures IsInputItem(items[i]) ==>
      Unions(items[..i + 1], ItemInputs) == Unions(items[..i], ItemInputs) + NonNullInputs(InputMapping(items[i].value))
    ensures !IsInputItem(items[i]) ==> Unions(items[..i + 1], ItemInputs) == Unions(items[..i], ItemInputs)
  {
    UnionsSnoc(items, i, ItemInputs);
  }

  /** The loop over the items of one block of an allowed type. */
  method ScanItems(items: seq<Item>, found: set<string>) returns (out: set<string>)
    ensures out == found + Unions(items, ItemInputs)
  {
    out := found;
    var i := 0;
    while i < |items|
      invariant 0 <= i <= |items|
      invariant out == found + Unions(items[..i], ItemInputs)
    {
      ItemsStep(items, i);
      var cat := Strip(items[i].category);
      var key := Upper(Strip(items[i].key));
      if cat == LiveTvCategory && key == InputSourceKey {
        var mapping := ParseInputMappingValue(items[i].value);
        out := AddNonNullInputs(mapping, out);
      }
      i := i + 1;
    }
    assert items[..i] == items;
  }

  /** One more block adds its type and its items' inputs when its type is allowed, and nothing otherwise. */
  lemma BlocksStep(blocks: seq<TvSystemBlock>, i: nat)
    requires i < |blocks|
    ensures var t := BlockType(blocks[i]);
      (t in AllowedTypes ==>
        Gathered(blocks[..i + 1], AllowedType) == Gathered(blocks[..i], AllowedType) + {t} &&
        Unions(blocks[..i + 1], BlockInputs) == Unions(blocks[..i], BlockInputs) + Unions(blocks[i].items, ItemInputs)) &&
      (t !in AllowedTypes ==>
        Gathered(blocks[..i + 1], AllowedType) == Gathered(blocks[..i], AllowedType) &&
        Unions(blocks[..i + 1], BlockInputs) == Unions(blocks[..i], BlockInputs))
  {
    GatheredSnoc(blocks, i, AllowedType);
    UnionsSnoc(blocks, i, BlockInputs);
  }

  /** `analyze_tvsysmap_for_types_and_inputs` on the blocks found: the allowed types, and the DVB inputs of those blocks. */
  method AnalyzeBlocks(blocks: seq<TvSystemBlock>) returns (types: set<string>, inputs: set<string>)
    ensures types == TypesOf(blocks) && inputs == InputsOf(blocks)
  {
    types := {};
    inputs := {};
    var i := 0;
    while i < |blocks|
      invariant 0 <= i <= |blocks|
      invariant types == Gathered(blocks[..i], AllowedType) && inputs == Unions(blocks[..i], BlockInputs)
    {
      BlocksStep(blocks, i);
      var t := Upper(Strip(blocks[i].typeAttr));
      if t in AllowedTypes {
        types := types + {t};
        inputs := ScanItems(blocks[i].items, inputs);
      }
      i := i + 1;
    }
    assert blocks[..i] == blocks;
  }

  /**
   * `analyze_tvsysmap_for_types_and_inputs(text)`: the blocks of the XML tree
   * when the text parses (even should it hold no TvSystem), else the blocks
   * the regular-expression scan finds.
   */
  method AnalyzeTvsysmap(xmlBlocks: Option<seq<TvSystemBlock>>, regexBlocks: seq<TvSystemBlock>) returns (types: set<string>, inputs: set<string>)
    ensures xmlBlocks.Some? ==> types == TypesOf(xmlBlocks.value) && inputs == InputsOf(xmlBlocks.value)
    ensures xmlBlocks.None? ==> types == TypesOf(regexBlocks) && inputs == InputsOf(regexBlocks)
  {
    if xmlBlocks.Some? {
      types, inputs := AnalyzeBlocks(xmlBlocks.value);
    } else {
      types, inputs := AnalyzeBlocks(regexBlocks);
    }
  }

  /** A mapping contributes exactly the DVB inputs it maps to a value outside NULL_TOKENS. */
  lemma NonNullInputsIs(m: map<string, string>, k: string)
    ensures k in NonNullInputs(m) <==> k in DvbInputs && k in m && NonNull(m[k])
  {
    var f := NonNullFn(m);
    if k in NonNullInputs(m) {
      GatheredFrom(DvbInputs, f, k);
    }
    if k in DvbInputs && k in m && NonNull(m[k]) {
      var i :| 0 <= i < |DvbInputs| && DvbInputs[i] == k;
      GatheredHas(DvbInputs, f, i);
    }
  }

  /** A type is found exactly when it is allowed and some block carries it. */
  lemma TypesOfIs(blocks: seq<TvSystemBlock>, t: string)
    ensures t in TypesOf(blocks) <==> t in AllowedTypes && exists i :: 0 <= i < |blocks| && BlockType(blocks[i]) == t
  {
    if t in TypesOf(blocks) {
      GatheredFrom(blocks, AllowedType, t);
    }
    if i :| 0 <= i < |blocks| && BlockType(blocks[i]) == t && t in AllowedTypes {
      GatheredHas(blocks, AllowedType, i);
    }
  }

  /** The inputSource item `it` maps the DVB input `k` to a value outside NULL_TOKENS. */
  predicate MapsNonNull(it: Item, k: string)
  {
    IsInputItem(it) && k in DvbInputs && k in InputMapping(it.value) && NonNull(InputMapping(it.value)[k])
  }

  /** What one item contributes. */
  lemma ItemInputsIs(it: Item, k: string)
    ensures k in ItemInputs(it) <==> MapsNonNull(it, k)
  {
    NonNullInputsIs(InputMapping(it.value), k);
  }

  /** What one block contributes. */
  lemma BlockInputsIs(b: TvSystemBlock, k: string)
    ensures k in BlockInputs(b) <==> BlockType(b) in AllowedTypes && exists j :: 0 <= j < |b.items| && MapsNonNull(b.items[j], k)
  {
    UnionsIs(b.items, ItemInputs, k);
    forall j | 0 <= j < |b.items| ensures k in ItemInputs(b.items[j]) <==> MapsNonNull(b.items[j], k) {
      ItemInputsIs(b.items[j], k);
    }
  }

  /**
   * An input is found exactly when a block of an allowed type holds an
   * inputSource item that maps that DVB input to a value outside NULL_TOKENS.
   */
  lemma InputsOfIs(blocks: seq<TvSystemBlock>, k: string)
    ensures k in InputsOf(blocks) <==>
      exists i, j :: 0 <= i < |blocks| && BlockType(blocks[i]) in AllowedTypes && 0 <= j < |blocks[i].items| && MapsNonNull(blocks[i].items[j], k)
  {
    UnionsIs(blocks, BlockInputs, k);
    forall i | 0 <= i < |blocks|
      ensures k in BlockInputs(blocks[i]) <==> BlockType(blocks[i]) in AllowedTypes && exists j :: 0 <= j < |blocks[i].items| && MapsNonNull(blocks[i].items[j], k)
    {
      BlockInputsIs(blocks[i], k);
    }
  }

  /** Only DVB inputs are found. */
  lemma InputsOfDvb(blocks: seq<TvSystemBlock>)
    ensures forall k :: k in InputsOf(blocks) ==> k in DvbInputs
  {
    forall k | k in InputsOf(blocks) ensures k in DvbInputs {
      InputsOfIs(blocks, k);
    }
  }

  /** Only allowed types are found. */
  lemma TypesOfAllowed(blocks: seq<TvSystemBlock>)
    ensures TypesOf(blocks) <= AllowedTypes
  {
    forall t | t in TypesOf(blocks) ensures t in AllowedTypes {
      TypesOfIs(blocks, t);
    }
  }

  // ---------------------------------------------------------------- country maps

  /** A COUNTRY_TVCONFIG_MAP block of a country map: the country name and the TV system, both trimmed ("" when absent). */
  datatype CountryEntry = CountryEntry(name: string, tvSystem: string)

  /** A CountryTvSysMapXML reference: a file that does not exist, or one that does with the blocks it holds, in order. */
  datatype CountryMapFile = AbsentMap(path: string) | ParsedMap(path: string, entries: seq<CountryEntry>)

  /** `_name_to_alpha2(name)`: the table's code for the normalised name. */
  function NameAlpha2(name: string): (r: Option<string>)
    ensures r.Some? ==> IsAlpha2(r.value)
  {
    var t := NormName(name);
    if t in NameToAlpha2 then TableAlpha2(t); Some(NameToAlpha2[t]) else None
  }

  /** The country an entry adds. */
  function EntryCountry(e: CountryEntry): Option<string>
  {
    NameAlpha2(e.name)
  }

  /** The country and system an entry records: a known country with a non-empty system, upper-cased. */
  function EntrySystem(e: CountryEntry): Entry
  {
    match NameAlpha2(e.name)
    case None => None
    case Some(a2) => if e.tvSystem != "" then Some((a2, Upper(Strip(e.tvSystem)))) else None
  }

  function FileCountries(f: CountryMapFile): set<string>
  {
    if f.ParsedMap? then Gathered(f.entries, EntryCountry) else {}
  }

  function FileSystems(f: CountryMapFile): seq<Entry>
  {
    if f.ParsedMap? then MapSeq(f.entries, EntrySystem) else []
  }

  function AbsentPath(f: CountryMapFile): Option<string>
  {
    if f.AbsentMap? then Some(f.path) else None
  }

  /** `countries` after the CountryTvSysMap pass: every known country name of the existing files. */
  function MapCountries(files: seq<CountryMapFile>): set<string>
  {
    Unions(files, FileCountries)
  }

  /** `ctvs_map`: each country's upper-cased system, a later entry overwriting an earlier one. */
  function MapSystems(files: seq<CountryMapFile>): map<string, string>
  {
    Entries(Concat(files, FileSystems))
  }

  /** `ctvs_missing`: the files that do not exist, in order. */
  function MapsMissing(files: seq<CountryMapFile>): seq<string>
  {
    Collect(files, AbsentPath)
  }

  /** `Entries` of one more pair. */
  lemma EntriesAppend(es: seq<Entry>, e: Entry)
    ensures Entries(es + [e]) == if e.Some? then Entries(es)[e.value.0 := e.value.1] else Entries(es)
  {
    assert (es + [e])[..|es|] == es;
  }

  /** One more block records its pair, if any, over what the earlier blocks recorded. */
  lemma RecordedStep(entries: seq<CountryEntry>, j: nat, system: CountryEntry -> Entry, done: seq<Entry>)
    requires j < |entries|
    ensures var e := system(entries[j]);
      var m := Entries(done + MapSeq(entries[..j], system));
      Entries(done + MapSeq(entries[..j + 1], system)) == if e.Some? then m[e.value.0 := e.value.1] else m
  {
    MapSeqSnoc(entries, j, system);
    AppendAssoc(done, MapSeq(entries[..j], system), [system(entries[j])]);
    EntriesAppend(done + MapSeq(entries[..j], system), system(entries[j]));
  }

  /**
   * The loop over the blocks of one existing country map, with `country`
   * the code a block's name gives and `system` the pair it records.
   */
  method AddEntries(entries: seq<CountryEntry>, country: CountryEntry -> Option<string>, system: CountryEntry -> Entry,
                    countries: set<string>, systems: map<string, string>, ghost done: seq<Entry>)
    returns (countriesOut: set<string>, systemsOut: map<string, string>)
    requires systems == Entries(done)
    ensures countriesOut == countries + Gathered(entries, country)
    ensures systemsOut == Entries(done + MapSeq(entries, system))
  {
    countriesOut := countries;
    systemsOut := systems;
    assert done + MapSeq(entries[..0], system) == done;
    var j := 0;
    while j < |entries|
      invariant 0 <= j <= |entries|
      invariant countriesOut == countries + Gathered(entries[..j], country)
      invariant systemsOut == Entries(done + MapSeq(entries[..j], system))
    {
      GatheredSnoc(entries, j, country);
      RecordedStep(entries, j, system, done);
      var a2 := country(entries[j]);
      if a2.Some? {
        countriesOut := countriesOut + {a2.value};
      }
      var pair := system(entries[j]);
      if pair.Some? {
        systemsOut := systemsOut[pair.value.0 := pair.value.1];
      }
      j := j + 1;
    }
    assert entries[..j] == entries;
  }

  /** The CountryTvSysMap pass of `check_pid1_rules` over the referenced country maps. */
  method ScanCountryFiles(files: seq<CountryMapFile>) returns (countries: set<string>, systems: map<string, string>, missing: seq<string>)
    ensures countries == MapCountries(files) && systems == MapSystems(files) && missing == MapsMissing(files)
  {
    countries := {};
    systems := map[];
    missing := [];
    var i := 0;
    while i < |files|
      invariant 0 <= i <= |files|
      invariant countries == Unions(files[..i], FileCountries)
      invariant systems == Entries(Concat(files[..i], FileSystems))
      invariant missing == Collect(files[..i], AbsentPath)
    {
      UnionsSnoc(files, i, FileCountries);
      ConcatSnoc(files, i, FileSystems);
      CollectSnoc(files, i, AbsentPath);
      match files[i] {
        case ParsedMap(_, entries) =>
          assert FileSystems(files[i]) == MapSeq(entries, EntrySystem);
          countries, systems := AddEntries(entries, EntryCountry, EntrySystem, countries, systems, Concat(files[..i], FileSystems));
        case AbsentMap(p) =>
          assert Concat(files[..i], FileSystems) + [] == Concat(files[..i], FileSystems);
          missing := missing + [p];
      }
      i := i + 1;
    }
    assert files[..i] == files;
  }

  /** A country is found exactly when some block of an existing country map names it by a name the table knows. */
  lemma MapCountriesIs(files: seq<CountryMapFile>, c: string)
    ensures c in MapCountries(files) <==>
      exists i, j :: 0 <= i < |files| && files[i].ParsedMap? && 0 <= j < |files[i].entries| && NameAlpha2(files[i].entries[j].name) == Some(c)
  {
    UnionsIs(files, FileCountries, c);
    forall i | 0 <= i < |files| && files[i].ParsedMap?
      ensures c in FileCountries(files[i]) <==> exists j :: 0 <= j < |files[i].entries| && NameAlpha2(files[i].entries[j].name) == Some(c)
    {
      var es := files[i].entries;
      if c in Gathered(es, EntryCountry) {
        GatheredFrom(es, EntryCountry, c);
      }
      if j :| 0 <= j < |es| && NameAlpha2(es[j].name) == Some(c) {
        GatheredHas(es, EntryCountry, j);
      }
    }
  }

  /** Every country found is a two-letter code. */
  lemma MapCountriesAlpha2(files: seq<CountryMapFile>)
    ensures forall c :: c in MapCountries(files) ==> IsAlpha2(c)
  {
    forall c | c in MapCountries(files) ensures IsAlpha2(c) {
      MapCountriesIs(files, c);
    }
  }

  /** What each recorded pair of the pass holds: a found country and an upper-case system. */
  predicate SystemOfCountry(files: seq<CountryMapFile>, e: Entry)
  {
    e.Some? ==> e.value.0 in MapCountries(files) && IsAlpha2(e.value.0) && IsUpperCase(e.value.1)
  }

  lemma EntrySystemOfCountry(files: seq<CountryMapFile>, i: nat, j: nat)
    requires i < |files| && files[i].ParsedMap? && j < |files[i].entries|
    ensures SystemOfCountry(files, EntrySystem(files[i].entries[j]))
  {
    var e := files[i].entries[j];
    if NameAlpha2(e.name).Some? {
      MapCountriesIs(files, NameAlpha2(e.name).value);
      UpperIsUpper(Strip(e.tvSystem));
    }
  }

  lemma Alpha2Upper(t: string)
    requires IsAlpha2(t)
    ensures t != "" && IsUpperCase(t)
  {
  }

  /** Every pair the pass records belongs to a found country. */
  lemma RecordedSystemsOfCountry(files: seq<CountryMapFile>)
    ensures forall j :: 0 <= j < |Concat(files, FileSystems)| ==> SystemOfCountry(files, Concat(files, FileSystems)[j])
  {
    var p := (e: Entry) => SystemOfCountry(files, e);
    forall i, j | 0 <= i < |files| && 0 <= j < |FileSystems(files[i])| ensures p(FileSystems(files[i])[j]) {
      EntrySystemOfCountry(files, i, j);
    }
    ConcatEvery(files, FileSystems, p);
  }

  /** Only a country the pass found has a system, and every system is upper case. */
  lemma MapSystemsCountries(files: seq<CountryMapFile>)
    ensures forall k :: k in MapSystems(files) ==> k in MapCountries(files) && IsUpperCase(MapSystems(files)[k])
  {
    var es := Concat(files, FileSystems);
    RecordedSystemsOfCountry(files);
    forall j | 0 <= j < |es| && es[j].Some?
      ensures es[j].value.0 != "" && IsUpperCase(es[j].value.0) && IsUpperCase(es[j].value.1)
    {
      assert SystemOfCountry(files, es[j]);
      Alpha2Upper(es[j].value.0);
    }
    EntriesUpper(es);
    forall k | k in MapSystems(files) ensures k in MapCountries(files) {
      EntriesKeys(es, k);
      var j :| 0 <= j < |es| && Sets(es[j], k);
      assert SystemOfCountry(files, es[j]);
    }
  }

  // ---------------------------------------------------------------- TvSysMap files of a model

  /** `_read_text`: a file's text, or "" when it cannot be read. */
  function TextOf(fs: FileSystem, p: string): string
  {
    match Read(fs, p)
    case Some(t) => t
    case None => ""
  }

  /** The blocks the analysis reads from a text: the XML tree's when it parses, else the scan's. */
  function ChosenBlocks(xml: string -> Option<seq<TvSystemBlock>>, scan: string -> seq<TvSystemBlock>, text: string): seq<TvSystemBlock>
  {
    if xml(text).Some? then xml(text).value else scan(text)
  }

  /** The references of a TvSysMap file's curve section whose file is missing. */
  function VolMissingOf(fs: FileSystem, root: string, mp: string): seq<string>
  {
    MissingOf(fs, VolCurveRefs(root, LinesOrEmpty(fs, mp)))
  }

  function VolMissingFn(fs: FileSystem, root: string): string -> seq<string>
  {
    mp => VolMissingOf(fs, root, mp)
  }

  /** The blocks the analysis reads from a TvSysMap file. */
  function BlocksOf(fs: FileSystem, xml: string -> Option<seq<TvSystemBlock>>, scan: string -> seq<TvSystemBlock>, mp: string): seq<TvSystemBlock>
  {
    ChosenBlocks(xml, scan, TextOf(fs, mp))
  }

  function TypesFn(fs: FileSystem, xml: string -> Option<seq<TvSystemBlock>>, scan: string -> seq<TvSystemBlock>): string -> set<string>
  {
    mp => TypesOf(BlocksOf(fs, xml, scan, mp))
  }

  function InputsFn(fs: FileSystem, xml: string -> Option<seq<TvSystemBlock>>, scan: string -> seq<TvSystemBlock>): string -> set<string>
  {
    mp => InputsOf(BlocksOf(fs, xml, scan, mp))
  }

  /** The first loop of `check_pid1_rules` over a model's TvSysMap files: the missing volume-curve files of each in turn. */
  method VolCurveMissingAll(fs: FileSystem, root: string, tvsysmaps: seq<string>) returns (volMissing: seq<string>)
    ensures volMissing == Concat(tvsysmaps, VolMissingFn(fs, root))
  {
    volMissing := [];
    var i := 0;
    while i < |tvsysmaps|
      invariant 0 <= i <= |tvsysmaps|
      invariant volMissing == Concat(tvsysmaps[..i], VolMissingFn(fs, root))
    {
      ConcatSnoc(tvsysmaps, i, VolMissingFn(fs, root));
      var refs, miss := ExtractVolcurvePaths(fs, tvsysmaps[i], root);
      volMissing := volMissing + miss;
      i := i + 1;
    }
    assert tvsysmaps[..i] == tvsysmaps;
  }

  /**
   * The second loop: the union of the TvSystem types and DVB inputs of the
   * files, `xml` and `scan` standing for the two ways the analysis reads
   * blocks from a text.
   */
  method AnalyzeAll(fs: FileSystem, tvsysmaps: seq<string>, xml: string -> Option<seq<TvSystemBlock>>, scan: string -> seq<TvSystemBlock>)
    returns (types: set<string>, inputs: set<string>)
    ensures types == Unions(tvsysmaps, TypesFn(fs, xml, scan)) && inputs == Unions(tvsysmaps, InputsFn(fs, xml, scan))
  {
    types := {};
    inputs := {};
    var i := 0;
    while i < |tvsysmaps|
      invariant 0 <= i <= |tvsysmaps|
      invariant types == Unions(tvsysmaps[..i], TypesFn(fs, xml, scan)) && inputs == Unions(tvsysmaps[..i], InputsFn(fs, xml, scan))
    {
      var found, foundInputs := AnalyzeFile(fs, tvsysmaps[i], xml, scan);
      AnalyzedStep(fs, xml, scan, tvsysmaps, i, types, inputs, found, foundInputs);
      types := types + found;
      inputs := inputs + foundInputs;
      i := i + 1;
    }
    assert tvsysmaps[..i] == tvsysmaps;
  }

  /** Adding one more file's types and inputs extends both unions by that file. */
  lemma AnalyzedStep(fs: FileSystem, xml: string -> Option<seq<TvSystemBlock>>, scan: string -> seq<TvSystemBlock>,
                     tvsysmaps: seq<string>, i: nat, types: set<string>, inputs: set<string>, found: set<string>, foundInputs: set<string>)
    requires i < |tvsysmaps|
    requires types == Unions(tvsysmaps[..i], TypesFn(fs, xml, scan)) && inputs == Unions(tvsysmaps[..i], InputsFn(fs, xml, scan))
    requires found == TypesOf(BlocksOf(fs, xml, scan, tvsysmaps[i])) && foundInputs == InputsOf(BlocksOf(fs, xml, scan, tvsysmaps[i]))
    ensures types + found == Unions(tvsysmaps[..i + 1], TypesFn(fs, xml, scan))
    ensures inputs + foundInputs == Unions(tvsysmaps[..i + 1], InputsFn(fs, xml, scan))
  {
    UnionsSnoc(tvsysmaps, i, TypesFn(fs, xml, scan));
    UnionsSnoc(tvsysmaps, i, InputsFn(fs, xml, scan));
  }

  /** One TvSysMap file of the second loop: the types and inputs of the blocks the analysis reads from it. */
  method AnalyzeFile(fs: FileSystem, mp: string, xml: string -> Option<seq<TvSystemBlock>>, scan: string -> seq<TvSystemBlock>)
    returns (types: set<string>, inputs: set<string>)
    ensures types == TypesOf(BlocksOf(fs, xml, scan, mp)) && inputs == InputsOf(BlocksOf(fs, xml, scan, mp))
  {
    var text := TextOf(fs, mp);
    types, inputs := AnalyzeTvsysmap(xml(text), scan(text));
  }

  // ---------------------------------------------------------------- the country rules

  /** EU_ALLOWED_DEFAULT: the EU, EFTA and GB. */
  const EuAllowedDefault: set<string> := {
    "AT", "BE", "BG", "HR", "CY", "CZ", "DK", "EE", "FI", "FR", "DE", "GR", "HU", "IE", "IT",
    "LV", "LT", "LU", "MT", "NL", "PL", "PT", "RO", "SK", "SI", "ES", "SE",
    "IS", "LI", "NO", "CH",
    "GB"}

  /** NON_DVB_DENYLIST_DEFAULT: countries known to broadcast in ATSC, ISDB or DTMB. */
  const NonDvbDenyDefault: set<string> := {"US", "CA", "MX", "JP", "KR", "CN", "HK", "MO", "BR"}

  /** `set(given or default)`: an empty list means the default. */
  function ListOrDefault(given: set<string>, default: set<string>): (r: set<string>)
    ensures given != {} ==> r == given
    ensures given == {} ==> r == default
  {
    if given == {} then default else given
  }

  /** The systems the EU rule accepts. */
  const DvbSystems: set<string> := {"DVB", "DVB_CO"}

  /** A recorded system that fails the EU rule: non-empty and neither DVB nor DVB_CO. */
  predicate NonDvbSystem(t: string)
  {
    t != "" && t !in DvbSystems
  }

  /** The pair `bad` records for an allowed country whose system fails the EU rule. */
  predicate BadPair(countries: set<string>, allow: set<string>, systems: map<string, string>, p: (string, string))
  {
    p.0 in countries && p.0 in allow && p.0 in systems && p.1 == systems[p.0] && NonDvbSystem(p.1)
  }

  /**
   * `bad`: the loop over the allowed countries found, in ascending order,
   * recording each whose system fails the EU rule; a country without a
   * system is passed over.
   */
  method EuNonDvb(countries: set<string>, allow: set<string>, systems: map<string, string>) returns (bad: seq<(string, string)>)
    ensures forall p :: p in bad <==> BadPair(countries, allow, systems, p)
    ensures forall i, j :: 0 <= i < j < |bad| ==> StringLess(bad[i].0, bad[j].0)
  {
    StringLessStrictTotal();
    var order := SortSet(StringLess, countries * allow);
    bad := [];
    var i := 0;
    while i < |order|
      invariant 0 <= i <= |order|
      invariant forall p :: p in bad <==> (exists k :: 0 <= k < i && p.0 == order[k]) && BadPair(countries, allow, systems, p)
      invariant forall a :: 0 <= a < |bad| ==> exists k :: 0 <= k < i && bad[a].0 == order[k]
      invariant forall a, b :: 0 <= a < b < |bad| ==> StringLess(bad[a].0, bad[b].0)
    {
      var a2 := order[i];
      var tvs := if a2 in systems then systems[a2] else "";
      assert order[i] in order;
      ghost var seen := bad;
      if tvs != "" && tvs !in DvbSystems {
        forall a | 0 <= a < |bad| ensures StringLess(bad[a].0, a2) {
          var k :| 0 <= k < i && bad[a].0 == order[k];
        }
        bad := bad + [(a2, tvs)];
      }
      forall p ensures p in bad <==> (exists k :: 0 <= k < i + 1 && p.0 == order[k]) && BadPair(countries, allow, systems, p) {
        if p.0 == a2 && BadPair(countries, allow, systems, p) {
          assert p == (a2, tvs);
        }
        if p in seen {
          var k :| 0 <= k < i && p.0 == order[k];
        }
      }
      i := i + 1;
    }
    forall p | BadPair(countries, allow, systems, p) ensures p in bad {
      assert p.0 in countries * allow;
      var k :| 0 <= k < |order| && order[k] == p.0;
    }
  }

  // ---------------------------------------------------------------- one row of check_pid1_rules

  /** One violation `check_pid1_rules` records for a model, in the order it checks them. */
  datatype Problem =
    | ModelUnset
    | ModelMissing
    | BoardMissing
    | CountryMapsMissing(paths: seq<string>)
    | EuNonDvbSystems(bad: seq<(string, string)>)
    | NonEuropean(codes: set<string>)
    | NonDvbCountries(codes: set<string>)
    | VolCurveMissing(files: set<string>)
    | NoAllowedTvSystem
    | NoDvbInput

  /**
   * What a row gathers from an existing model: its countries, the recorded
   * system per country, the country map files that are missing, the pairs
   * failing the EU rule, the missing volume-curve files, the TvSysMap files
   * and the types and DVB inputs found in them.
   */
  datatype RowFacts = RowFacts(countries: set<string>, systems: map<string, string>, mapsMissing: seq<string>,
                               euNonDvb: seq<(string, string)>, volMissing: seq<string>, tvsysmaps: seq<string>,
                               types: set<string>, inputs: set<string>)

  /** The facts of a row whose model is unset or missing: nothing is gathered. */
  const NoFacts: RowFacts := RowFacts({}, map[], [], [], [], [], {}, {})

  /** DVB_INPUT_TOKENS as a set. */
  const DvbInputSet: set<string> := {"DVBT", "DVBC", "DVBS"}

  /** Model_1 of a row: not set, set to a file that does not exist, or existing. */
  datatype ModelState = NotSet | Missing | Present

  function ModelStateOf(fs: FileSystem, model: Option<string>): (m: ModelState)
    ensures m.Present? <==> model.Some? && Exists(fs, model.value)
  {
    if model.None? then NotSet else if !Exists(fs, model.value) then Missing else Present
  }

  /** `board_path and not board_path.exists()`: Board_1 is optional. */
  function BoardMissingOf(fs: FileSystem, board: Option<string>): (b: bool)
    ensures b <==> board.Some? && !Exists(fs, board.value)
  {
    board.Some? && !Exists(fs, board.value)
  }

  /** The row's countries: those of the country map files, else the fallback scan of the model's ini files. */
  function RowCountries(files: seq<CountryMapFile>, fallback: set<string>): (r: set<string>)
    ensures MapCountries(files) != {} ==> r == MapCountries(files)
    ensures MapCountries(files) == {} ==> r == fallback
  {
    if MapCountries(files) == {} then fallback else MapCountries(files)
  }

  /** Rule 1: Model_1 must be set and exist; Board_1 must exist when it is set. */
  function ExistenceProblems(m: ModelState, boardMissing: bool): (r: seq<Problem>)
    ensures forall p :: p in r ==> p.ModelUnset? || p.ModelMissing? || p.BoardMissing?
    ensures ModelUnset in r <==> m.NotSet?
    ensures ModelMissing in r <==> m.Missing?
    ensures BoardMissing in r <==> boardMissing
  {
    (if m.NotSet? then [ModelUnset] else if m.Missing? then [ModelMissing] else [])
    + (if boardMissing then [BoardMissing] else [])
  }

  /**
   * Rule 2 for an existing model: missing country map files; then, when
   * some system was recorded, the EU rule; otherwise the allow- and
   * deny-lists on the countries found.
   */
  function CountryProblems(f: RowFacts, allow: set<string>, deny: set<string>): (r: seq<Problem>)
    ensures forall p :: p in r ==> p.CountryMapsMissing? || p.EuNonDvbSystems? || p.NonEuropean? || p.NonDvbCountries?
    ensures forall p :: p in r && p.EuNonDvbSystems? ==> f.systems != map[] && p.bad == f.euNonDvb && p.bad != []
    ensures forall p :: p in r && (p.NonEuropean? || p.NonDvbCountries?) ==> f.systems == map[] && p.codes != {}
  {
    (if f.mapsMissing != [] then [CountryMapsMissing(f.mapsMissing)] else [])
    + (if f.systems != map[] then (if f.euNonDvb != [] then [EuNonDvbSystems(f.euNonDvb)] else [])
       else if f.countries == {} then []
       else (if f.countries - allow != {} then [NonEuropean(f.countries - allow)] else [])
            + (if f.countries * deny != {} then [NonDvbCountries(f.countries * deny)] else []))
  }

  /** Rules 4 and 5: missing volume-curve files; a TvSysMap without an allowed type, or with one but no DVB input. */
  function TvSysMapProblems(f: RowFacts): (r: seq<Problem>)
    ensures forall p :: p in r ==> p.VolCurveMissing? || p.NoAllowedTvSystem? || p.NoDvbInput?
    ensures NoAllowedTvSystem in r <==> f.tvsysmaps != [] && f.types == {}
    ensures NoDvbInput in r <==> f.tvsysmaps != [] && f.types != {} && f.inputs * DvbInputSet == {}
  {
    (if f.volMissing != [] then [VolCurveMissing(set p | p in f.volMissing)] else [])
    + (if f.tvsysmaps == [] then []
       else if f.types == {} then [NoAllowedTvSystem]
       else if f.inputs * DvbInputSet == {} then [NoDvbInput]
       else [])
  }

  /** When a row passes, stated rule by rule. */
  predicate RowPasses(m: ModelState, boardMissing: bool, f: RowFacts, allow: set<string>, deny: set<string>)
  {
    m.Present? && !boardMissing &&
    f.mapsMissing == [] &&
    (f.systems != map[] ==> f.euNonDvb == []) &&
    (f.systems == map[] ==> f.countries <= allow && f.countries * deny == {}) &&
    f.volMissing == [] &&
    (f.tvsysmaps != [] ==> f.types != {} && f.inputs * DvbInputSet != {})
  }

  /** `problems` of a row: the existence rule, the country rules when the model exists, then the TvSysMap rules. */
  function Problems(m: ModelState, boardMissing: bool, f: RowFacts, allow: set<string>, deny: set<string>)
    : (r: seq<Problem>)
    ensures ExistenceProblems(m, boardMissing) <= r
  {
    ExistenceProblems(m, boardMissing) + (if m.Present? then CountryProblems(f, allow, deny) else []) + TvSysMapProblems(f)
  }

  /** Where each kind of problem can come from. */
  lemma ProblemsFrom(m: ModelState, boardMissing: bool, f: RowFacts, allow: set<string>, deny: set<string>, p: Problem)
    requires p in Problems(m, boardMissing, f, allow, deny)
    ensures p.ModelUnset? || p.ModelMissing? || p.BoardMissing? ==> p in ExistenceProblems(m, boardMissing)
    ensures p.CountryMapsMissing? || p.EuNonDvbSystems? || p.NonEuropean? || p.NonDvbCountries? ==>
      m.Present? && p in CountryProblems(f, allow, deny)
    ensures p.VolCurveMissing? || p.NoAllowedTvSystem? || p.NoDvbInput? ==> p in TvSysMapProblems(f)
  {
    var c := if m.Present? then CountryProblems(f, allow, deny) else [];
    assert Problems(m, boardMissing, f, allow, deny) == ExistenceProblems(m, boardMissing) + c + TvSysMapProblems(f);
  }

  /** The EU rule and the allow/deny rule never report on the same row. */
  lemma EuRuleExclusive(m: ModelState, boardMissing: bool, f: RowFacts, allow: set<string>, deny: set<string>,
                        p: Problem, q: Problem)
    requires p in Problems(m, boardMissing, f, allow, deny) && q in Problems(m, boardMissing, f, allow, deny)
    requires p.EuNonDvbSystems?
    ensures !q.NonEuropean? && !q.NonDvbCountries?
  {
    ProblemsFrom(m, boardMissing, f, allow, deny, p);
    ProblemsFrom(m, boardMissing, f, allow, deny, q);
  }

  /** An unset Model_1 is not also reported missing. */
  lemma ModelProblemExclusive(m: ModelState, boardMissing: bool, f: RowFacts, allow: set<string>, deny: set<string>)
    ensures !(ModelUnset in Problems(m, boardMissing, f, allow, deny) && ModelMissing in Problems(m, boardMissing, f, allow, deny))
  {
    if ModelUnset in Problems(m, boardMissing, f, allow, deny) {
      ProblemsFrom(m, boardMissing, f, allow, deny, ModelUnset);
    }
    if ModelMissing in Problems(m, boardMissing, f, allow, deny) {
      ProblemsFrom(m, boardMissing, f, allow, deny, ModelMissing);
    }
  }

  /** A row without a model gathers nothing and so reports only on the model and the board. */
  lemma NoModelOnlyExistence(m: ModelState, boardMissing: bool, allow: set<string>, deny: set<string>)
    ensures Problems(m, boardMissing, NoFacts, allow, deny) == ExistenceProblems(m, boardMissing)
    ensures forall p :: p in Problems(m, boardMissing, NoFacts, allow, deny) ==> p == ModelUnset || p == ModelMissing || p == BoardMissing
  {
    assert CountryProblems(NoFacts, allow, deny) == [];
    assert TvSysMapProblems(NoFacts) == [];
  }

  /** The two TvSysMap rules: no allowed type is reported exactly when there is none, no DVB input only when a type was found. */
  lemma TvSysMapRules(m: ModelState, boardMissing: bool, f: RowFacts, allow: set<string>, deny: set<string>)
    ensures NoAllowedTvSystem in Problems(m, boardMissing, f, allow, deny) <==> f.tvsysmaps != [] && f.types == {}
    ensures NoDvbInput in Problems(m, boardMissing, f, allow, deny) <==> f.tvsysmaps != [] && f.types != {} && f.inputs * DvbInputSet == {}
  {
    if NoAllowedTvSystem in Problems(m, boardMissing, f, allow, deny) {
      ProblemsFrom(m, boardMissing, f, allow, deny, NoAllowedTvSystem);
    }
    if NoDvbInput in Problems(m, boardMissing, f, allow, deny) {
      ProblemsFrom(m, boardMissing, f, allow, deny, NoDvbInput);
    }
  }

  /** A row has no problems exactly when it passes every rule. */
  lemma ProblemsPass(m: ModelState, boardMissing: bool, f: RowFacts, allow: set<string>, deny: set<string>)
    ensures Problems(m, boardMissing, f, allow, deny) == [] <==> RowPasses(m, boardMissing, f, allow, deny)
  {
    var e := ExistenceProblems(m, boardMissing);
    var t := TvSysMapProblems(f);
    assert e == [] <==> m.Present? && !boardMissing;
    assert t == [] <==> f.volMissing == [] && (f.tvsysmaps != [] ==> f.types != {} && f.inputs * DvbInputSet != {});
    if m.Present? {
      var c := CountryProblems(f, allow, deny);
      if f.countries <= allow {
        assert forall x :: x !in f.countries - allow;
      }
      if f.countries - allow == {} {
        assert forall x :: x in f.countries ==> x in f.countries - allow || x in allow;
      }
      assert c == [] <==> f.mapsMissing == [] && (f.systems != map[] ==> f.euNonDvb == []) &&
                          (f.systems == map[] ==> f.countries <= allow && f.countries * deny == {});
    }
  }

  /** The row's status: ERROR exactly when it has a problem. */
  function Status(problems: seq<Problem>): (s: string)
    ensures s == "ERROR" <==> problems != []
    ensures s == "OK" <==> problems == []
  {
    if problems == [] then "OK" else "ERROR"
  }

  /**
   * The country part of a row for an existing model: the countries of the
   * country map files (already parsed, as `files`), else the fallback
   * countries of the model's ini files; the recorded systems; the missing
   * map files; and the EU rule, run only when some system was recorded.
   */
  method CountryFacts(files: seq<CountryMapFile>, fallback: set<string>, allow: set<string>)
    returns (countries: set<string>, systems: map<string, string>, missing: seq<string>, bad: seq<(string, string)>)
    ensures countries == RowCountries(files, fallback) && systems == MapSystems(files) && missing == MapsMissing(files)
    ensures EuPairsSound(files, allow, countries, systems, bad)
  {
    countries, systems, missing := ScanCountryFiles(files);
    if countries == {} {
      countries := fallback;
    }
    bad := [];
    if systems != map[] {
      MapSystemsCountries(files);
      var k :| k in systems;
      assert k in MapCountries(files);
      bad := EuNonDvb(countries, allow, systems);
    }
  }

  /**
   * The facts gathered for an existing model: the country files' union, their
   * TvSysMap systems and the files missing, the volume curves missing, and the
   * types and inputs analysed from each TvSysMap file in turn.
   */
  ghost predicate FactsGathered(fs: FileSystem, root: string, files: seq<CountryMapFile>, fallback: set<string>, tvsysmaps: seq<string>,
                                xml: string -> Option<seq<TvSystemBlock>>, scan: string -> seq<TvSystemBlock>, f: RowFacts)
  {
    && f.countries == RowCountries(files, fallback) && f.systems == MapSystems(files) && f.mapsMissing == MapsMissing(files)
    && f.volMissing == Concat(tvsysmaps, VolMissingFn(fs, root)) && f.tvsysmaps == tvsysmaps
    && f.types == Unions(tvsysmaps, TypesFn(fs, xml, scan)) && f.inputs == Unions(tvsysmaps, InputsFn(fs, xml, scan))
  }

  /**
   * The EU pairs reported are exactly the allowed countries mapped to a
   * non-DVB system, in country order, and only when some system is mapped.
   */
  ghost predicate EuPairsSound(files: seq<CountryMapFile>, allow: set<string>,
                               countries: set<string>, systems: map<string, string>, bad: seq<(string, string)>)
  {
    && (systems != map[] ==> countries == MapCountries(files))
    && (forall p :: p in bad <==> systems != map[] && BadPair(countries, allow, systems, p))
    && (forall i, j :: 0 <= i < j < |bad| ==> StringLess(bad[i].0, bad[j].0))
  }

  /** What a row gathers for an existing model: the country facts, then those of its TvSysMap files. */
  method GatherFacts(fs: FileSystem, root: string, files: seq<CountryMapFile>, fallback: set<string>, tvsysmaps: seq<string>,
                     xml: string -> Option<seq<TvSystemBlock>>, scan: string -> seq<TvSystemBlock>, allow: set<string>)
    returns (f: RowFacts)
    ensures FactsGathered(fs, root, files, fallback, tvsysmaps, xml, scan, f)
    ensures EuPairsSound(files, allow, f.countries, f.systems, f.euNonDvb)
  {
    var countries, systems, missing, bad := CountryFacts(files, fallback, allow);
    var volMissing := VolCurveMissingAll(fs, root, tvsysmaps);
    var types, inputs := AnalyzeAll(fs, tvsysmaps, xml, scan);
    f := RowFacts(countries, systems, missing, bad, volMissing, tvsysmaps, types, inputs);
  }

  /** One row of `check_pid1_rules`: the facts of an existing model, the problems they and the existence rule give, and the status. */
  method CheckRow(fs: FileSystem, root: string, model: Option<string>, board: Option<string>,
                  files: seq<CountryMapFile>, fallback: set<string>, tvsysmaps: seq<string>,
                  xml: string -> Option<seq<TvSystemBlock>>, scan: string -> seq<TvSystemBlock>,
                  allow: set<string>, deny: set<string>)
    returns (f: RowFacts, problems: seq<Problem>, status: string)
    ensures !ModelStateOf(fs, model).Present? ==> f == NoFacts
    ensures ModelStateOf(fs, model).Present? ==> FactsGathered(fs, root, files, fallback, tvsysmaps, xml, scan, f)
    ensures EuPairsSound(files, allow, f.countries, f.systems, f.euNonDvb)
    ensures problems == Problems(ModelStateOf(fs, model), BoardMissingOf(fs, board), f, allow, deny)
    ensures status == Status(problems)
  {
    var m := ModelStateOf(fs, model);
    f := NoFacts;
    if m.Present? {
      f := GatherFacts(fs, root, files, fallback, tvsysmaps, xml, scan, allow);
    }
    problems := Problems(m, BoardMissingOf(fs, board), f, allow, deny);
    status := Status(problems);
  }
}
