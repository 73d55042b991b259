/**
 * check_dvbs_satellite_flag.py: model.ini's inputSource must contain
 * "DVBS:NULL", and every DVB country block of countryTvSysMap.xml must name
 * a TV config file that sets persist.vendor.rtk.tv.dtv_satellite to 0.
 */
module DvbsSatelliteFlag {
  import opened Wrappers
  import opened Text
  import opened Ini
  import opened Files
  import opened Dedup
  import opened CountryBlocks

  const Key: string := "persist.vendor.rtk.tv.dtv_satellite"
  const Standard: string := "DVB"
  const NoBlocksNote: string := "No COUNTRY_TVCONFIG_MAP blocks found after all parse strategies"
  const WrappedEmptyNote: string := "wrapped ok but no COUNTRY_TVCONFIG_MAP blocks"

  /** `parse_model_ini_for_inputsource`: the first uncommented inputSource value, or "". */
  function InputSource(lines: seq<string>): (v: string)
    ensures v != "" ==> FindKeyValue(lines, "inputSource", true) == Some(v)
    ensures FindKeyValue(lines, "inputSource", true).None? ==> v == ""
  {
    match FindKeyValue(lines, "inputSource", true)
    case None => ""
    case Some(v) => v
  }

  /** `has_dvbs_null`. */
  predicate HasDvbsNull(v: string)
  {
    v != "" && Contains(v, "DVBS:NULL")
  }

  /** `normal_err`: set only when the strict parse raised. */
  function NormalError(p: Parse): (e: seq<string>)
    ensures e != [] <==> p.ParseError?
    ensures |e| <= 1
  {
    if p.ParseError? then ["XML normal parse failed: " + p.message] else []
  }

  /** `wrapped_err` once the wrapped parse has found no block. */
  function WrappedError(p: Parse): string
  {
    if p.ParseError? then "XML wrapped parse failed: " + p.message else WrappedEmptyNote
  }

  datatype Loaded = Loaded(blocks: seq<Block>, notes: seq<string>)

  /**
   * `_load_country_blocks`: the blocks of the first strategy that finds any;
   * the errors are reported only when all three strategies find none.
   */
  function Load(t: Tiers): (r: Loaded)
    ensures r.notes != [] <==> r.blocks == []
    ensures Found(t.strict) ==> r.blocks == t.strict.blocks
    ensures !Found(t.strict) && Found(t.wrapped) ==> r.blocks == t.wrapped.blocks
    ensures !Found(t.strict) && !Found(t.wrapped) ==> r.blocks == Collect(t.fragments, ParsedFragment)
    ensures r.blocks == [] ==> r.notes == NormalError(t.strict) + [WrappedError(t.wrapped), NoBlocksNote]
  {
    if Found(t.strict) then Loaded(t.strict.blocks, [])
    else if Found(t.wrapped) then Loaded(t.wrapped.blocks, [])
    else
      var blocks := Collect(t.fragments, ParsedFragment);
      if blocks != [] then Loaded(blocks, [])
      else Loaded([], NormalError(t.strict) + [WrappedError(t.wrapped), NoBlocksNote])
  }

  /** The steps of `_load_country_blocks`, returning at the first strategy that finds blocks. */
  method LoadCountryBlocks(t: Tiers) returns (blocks: seq<Block>, notes: seq<string>)
    ensures Loaded(blocks, notes) == Load(t)
  {
    notes := [];
    var normalErr: Option<string> := None;
    match t.strict {
      case ParseError(e) => normalErr := Some("XML normal parse failed: " + e);
      case Parsed(bs) =>
        if bs != [] {
          return bs, [];
        }
    }
    var wrappedErr: string;
    match t.wrapped {
      case ParseError(e) => wrappedErr := "XML wrapped parse failed: " + e;
      case Parsed(bs) =>
        if bs != [] {
          return bs, [];
        }
        wrappedErr := WrappedEmptyNote;
    }
    blocks := FragmentBlocks(t.fragments);
    if blocks == [] {
      if normalErr.Some? {
        notes := notes + [normalErr.value];
      }
      notes := notes + [wrappedErr];
      notes := notes + [NoBlocksNote];
    }
  }

  /** A strict parse that succeeds without blocks records no error of its own. */
  lemma EmptyStrictParseSilent(t: Tiers)
    requires t.strict == Parsed([]) && !Found(t.wrapped) && Collect(t.fragments, ParsedFragment) == []
    ensures Load(t).notes == [WrappedError(t.wrapped), NoBlocksNote]
  {
  }

  /** Loading the blocks of the XML text and checking those of the DVB standard. */
  method CheckXml(fs: FileSystem, root: string, t: Tiers) returns (checked: nat, failed: seq<(string, string)>, notes: seq<string>)
    ensures notes == Load(t).notes
    ensures checked == ClassCount(Load(t).blocks, Standard)
    ensures failed == Failures(fs, root, Key, Standard, Load(t).blocks)
  {
    var blocks;
    blocks, notes := LoadCountryBlocks(t);
    checked, failed := CheckBlocks(fs, root, Key, Standard, blocks);
  }

  datatype Report = Report(passed: bool, inputSourcePass: bool, checkedCount: nat,
                           failedFiles: seq<string>, failedCount: nat, notes: seq<string>)

  /**
   * `check_dvbs_and_satellite_flag` on model.ini's lines, with `parse` the
   * XML parser.  Passing needs "DVBS:NULL", no failure and no note.
   */
  method CheckDvbs(fs: FileSystem, modelLines: seq<string>, root: string, parse: string -> Tiers, dedup: bool)
    returns (r: Report)
    ensures r.inputSourcePass <==> HasDvbsNull(InputSource(modelLines))
    ensures r.passed <==> r.inputSourcePass && r.failedCount == 0 && r.notes == []
    ensures r.failedCount <= r.checkedCount
    ensures !Exists(fs, XmlPath(root)) ==> r.notes == [XmlNotFound] && r.checkedCount == 0 && r.failedCount == 0
    ensures Exists(fs, XmlPath(root)) ==>
      var l := Load(parse(Read(fs, XmlPath(root)).value));
      var failed := Failures(fs, root, Key, Standard, l.blocks);
      r.notes == l.notes && r.checkedCount == ClassCount(l.blocks, Standard) &&
      r.failedCount == |failed| && r.failedFiles == Summary(failed, dedup)
  {
    var inputSource := InputSource(modelLines);
    var hasDvbsNull := inputSource != "" && Contains(inputSource, "DVBS:NULL");
    var xml := XmlPath(root);
    var checked: nat := 0;
    var failed: seq<(string, string)> := [];
    var notes: seq<string>;
    if !Exists(fs, xml) {
      notes := [XmlNotFound];
    } else {
      checked, failed, notes := CheckXml(fs, root, parse(Read(fs, xml).value));
    }
    var summary := Summary(failed, dedup);
    r := Report(hasDvbsNull && |failed| == 0 && notes == [], hasDvbsNull, checked, summary, |failed|, notes);
  }
}
