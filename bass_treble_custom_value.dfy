/** check_isBassTrebleCustomValue.py: reports model.ini's isBassTrebleCustomValue, normalised. */
module BassTrebleCustomValue {
  import opened Wrappers
  import opened Text
  import opened Ini

  const Key: string := "isBassTrebleCustomValue"
  const Truthy: set<string> := {"1", "true", "on", "yes"}
  const Falsy: set<string> := {"0", "false", "off", "no"}

  /** `normalize_value`: the true-like words read "true", the false-like "false", anything else trimmed. */
  function NormalizeValue(val: Option<string>): (r: Option<string>)
    ensures val.None? <==> r.None?
    ensures val.Some? && Lower(Strip(val.value)) in Truthy ==> r == Some("true")
    ensures val.Some? && Lower(Strip(val.value)) in Falsy ==> r == Some("false")
    ensures val.Some? && Lower(Strip(val.value)) !in Truthy && Lower(Strip(val.value)) !in Falsy ==> r == Some(Strip(val.value))
  {
    match val
    case None => None
    case Some(s) =>
      var v := Lower(Strip(s));
      WordsDisjoint(v);
      if v in Truthy then Some("true") else if v in Falsy then Some("false") else Some(Strip(s))
  }

  /** No word is both true-like and false-like. */
  lemma WordsDisjoint(v: string)
    ensures !(v in Truthy && v in Falsy)
  {
    if v in Falsy {
      assert v == "0" || |v| >= 2;
    }
  }

  /** Normalising twice changes nothing. */
  lemma NormalizeIdempotent(val: Option<string>)
    ensures NormalizeValue(NormalizeValue(val)) == NormalizeValue(val)
  {
    if val.Some? {
      var s := val.value;
      var v := Lower(Strip(s));
      if v in Truthy {
        TrueStays();
      } else if v in Falsy {
        FalseStays();
      } else {
        var t := Strip(s);
        StripSetIdempotent(s, Whitespace);
        assert Lower(Strip(t)) == v;
      }
    }
  }

  lemma TrueStays()
    ensures Lower(Strip("true")) == "true"
  {
    LStripSetFixed("true", Whitespace);
    RStripSetFixed("true", Whitespace);
  }

  lemma FalseStays()
    ensures Lower(Strip("false")) == "false"
  {
    LStripSetFixed("false", Whitespace);
    RStripSetFixed("false", Whitespace);
  }

  datatype Report = Report(found: bool, resultText: string, notes: seq<string>)

  /** `build_result`: found iff declared; the text is the normalised value, or "N/A"; one note when not found. */
  function BuildResult(raw: Option<string>): (r: Report)
    ensures r.found <==> raw.Some?
    ensures |r.notes| == (if raw.None? then 1 else 0)
    ensures NormalizeValue(raw).Some? && NormalizeValue(raw).value != "" ==> r.resultText == NormalizeValue(raw).value
    ensures !(NormalizeValue(raw).Some? && NormalizeValue(raw).value != "") ==> r.resultText == "N/A"
  {
    var n := NormalizeValue(raw);
    Report(raw.Some?, if n.Some? && n.value != "" then n.value else "N/A",
      if raw.None? then ["model.ini 未找到 isBassTrebleCustomValue"] else [])
  }
}
