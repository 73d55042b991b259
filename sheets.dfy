/**
 * The Excel sheet a report row goes to, derived from the model.ini file name.
 * Each checker has its own rule; the rules differ in which prefixes count and
 * in whether leading zeros are kept.
 */
module Sheets {
  import opened Text
  import opened Paths

  /** The name starts with digits followed by '_' (`^(\d+)_`). */
  predicate HasPidPrefix(base: string)
  {
    var d := LeadingDigits(base);
    |d| > 0 && |d| < |base| && base[|d|] == '_'
  }

  /**
   * `_sheet_name_for_model` (dolby_cert_check_pid12.py, check_darkdetail_flag_pid12.py, check_ostable_memc.py):
   * "PID_" and the prefix's value with leading zeros dropped, or "others".
   */
  function PidSheetName(modelIni: string): (r: string)
    ensures !HasPidPrefix(Basename(modelIni)) ==> r == "others"
    ensures HasPidPrefix(Basename(modelIni)) ==>
      StartsWith(r, "PID_") && |r| > 4 && AllDigits(r[4..]) &&
      DigitsValue(r[4..]) == DigitsValue(LeadingDigits(Basename(modelIni))) &&
      (r[4] == '0' ==> |r| == 5)
  {
    var base := Basename(modelIni);
    if HasPidPrefix(base) then
      var n := NatToString(DigitsValue(LeadingDigits(base)));
      assert ("PID_" + n)[4..] == n;
      "PID_" + n
    else "others"
  }

  /** `sheet_name_from_model_path` (check_VRR_QMS.py): the digits as written, leading zeros kept. */
  function PidSheetNameAsWritten(modelIni: string): (r: string)
    ensures !HasPidPrefix(Basename(modelIni)) ==> r == "others"
    ensures HasPidPrefix(Basename(modelIni)) ==> r == "PID_" + LeadingDigits(Basename(modelIni)) && Contains(modelIni, r[4..] + "_")
  {
    var base := Basename(modelIni);
    if HasPidPrefix(base) then
      var d := LeadingDigits(base);
      assert base[..|d| + 1] == d + "_";
      assert OccursAt(modelIni, d + "_", |modelIni| - |base|);
      "PID_" + d
    else "others"
  }

  /** `detect_sheet_name_from_model` (check_logo_path.py): only a one- to three-digit prefix counts. */
  function ShortPidSheetName(modelIni: string): (r: string)
    ensures r != "others" ==> HasPidPrefix(Basename(modelIni)) && |LeadingDigits(Basename(modelIni))| <= 3
    ensures r != "others" ==> r == "PID_" + NatToString(DigitsValue(LeadingDigits(Basename(modelIni))))
    ensures HasPidPrefix(Basename(modelIni)) && |LeadingDigits(Basename(modelIni))| <= 3 ==> r != "others"
  {
    var base := Basename(modelIni);
    if HasPidPrefix(base) && |LeadingDigits(base)| <= 3 then
      var r := "PID_" + NatToString(DigitsValue(LeadingDigits(base)));
      assert r[..4] == "PID_";
      r
    else "others"
  }

  /**
   * `infer_pid_sheet_name` (check_allm_enable.py): "PID_" and the digits that
   * open the stem after optional blanks, else "PID_UNKNOWN", cut to 31 characters.
   */
  function AllmSheetName(modelIni: string): (r: string)
    ensures |r| <= 31 && StartsWith(r, "PID_")
    ensures LeadingDigits(LStrip(SplitExt(Basename(modelIni)).0)) == "" ==> r == "PID_UNKNOWN"
  {
    var d := LeadingDigits(LStrip(SplitExt(Basename(modelIni)).0));
    if d == "" then "PID_UNKNOWN" else Truncated31("PID_" + d)
  }

  /** The 31-character cap on a sheet name keeps whatever prefix of up to 31 characters it starts with. */
  function Truncated31(sheet: string): (r: string)
    ensures |r| <= 31
    ensures forall p :: |p| <= 31 && StartsWith(sheet, p) ==> StartsWith(r, p)
  {
    if |sheet| <= 31 then sheet else sheet[..31]
  }

  const ColorSpaceDefaultSheet: string := "PQ_OSDTable_Dolby_ColorSpace"

  /** The stem opens with digits that run to its end or to a '_'. */
  predicate DigitsBeforeUnderscore(stem: string)
  {
    var d := LeadingDigits(stem);
    d != "" && (|d| == |stem| || stem[|d|] == '_')
  }

  /** The part before the first '_' is all digits exactly when the stem opens with digits up to a '_' or its end. */
  lemma DigitPrefixBeforeUnderscore(stem: string)
    ensures var p := Before(stem, '_');
      (p != "" && AllDigits(p)) <==> DigitsBeforeUnderscore(stem)
    ensures DigitsBeforeUnderscore(stem) ==> Before(stem, '_') == LeadingDigits(stem)
  {
    var p := Before(stem, '_');
    var k := CharIndex(stem, '_');
    assert p == stem[..k];
    var d := LeadingDigits(stem);
    if p != "" && AllDigits(p) {
      LeadingDigitsExact(stem, p);
    }
    if DigitsBeforeUnderscore(stem) {
      assert '_' !in d;
      if |d| < |stem| {
        CharIndexAt(stem, '_', |d|);
      } else {
        assert d == stem;
      }
    }
  }

  /**
   * `get_sheet_name` (check_osdtable_colorspace.py): "PID_" and the digits
   * that open the stem, zeros kept, when they run to its end or to a '_';
   * the fixed sheet otherwise.
   */
  function ColorSpaceSheetName(modelIni: string): (r: string)
    ensures var stem := Stem(Basename(modelIni));
      (DigitsBeforeUnderscore(stem) ==> r == "PID_" + LeadingDigits(stem)) &&
      (!DigitsBeforeUnderscore(stem) ==> r == ColorSpaceDefaultSheet)
  {
    var stem := Stem(Basename(modelIni));
    var prefix := Before(stem, '_');
    DigitPrefixBeforeUnderscore(stem);
    if prefix != "" && AllDigits(prefix) then "PID_" + prefix else ColorSpaceDefaultSheet
  }
}
