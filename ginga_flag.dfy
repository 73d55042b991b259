/**
 * check_ginga_flag.py: every ISDB country block of countryTvSysMap.xml must
 * name a TV config file that sets persist.vendor.rtk.tv.enable_ginga to 0.
 *
 * Unlike the DVB-S checker, a parse error is recorded as soon as it happens,
 * so it stays in the notes, and fails the run, even when a later strategy
 * finds the blocks.
 */
module GingaFlag {
  import opened Wrappers
  import opened Files
  import opened Dedup
  import opened CountryBlocks

  const Key: string := "persist.vendor.rtk.tv.enable_ginga"
  const Standard: string := "ISDB"
  const NoBlocksNote: string := "No COUNTRY_TVCONFIG_MAP blocks found"

  /** The note a parse attempt appends: only an exception leaves one. */
  function ErrorNote(prefix: string, p: Parse): (e: seq<string>)
    ensures e != [] <==> p.ParseError?
    ensures e != [] ==> e == [prefix + p.message]
  {
    if p.ParseError? then [prefix + p.message] else []
  }

  datatype Loaded = Loaded(blocks: seq<Block>, notes: seq<string>)

  /**
   * `_load_country_blocks`: the blocks of the first strategy that finds any,
   * with the error notes of the strategies tried before it, and a closing
   * note when no strategy finds a block.
   */
  function Load(t: Tiers): (r: Loaded)
    ensures Found(t.strict) ==> r == Loaded(t.strict.blocks, [])
    ensures !Found(t.strict) && Found(t.wrapped) ==>
      r == Loaded(t.wrapped.blocks, ErrorNote("XML normal parse failed: ", t.strict))
    ensures !Found(t.strict) && !Found(t.wrapped) ==> r.blocks == Collect(t.fragments, ParsedFragment)
    ensures !Found(t.strict) && !Found(t.wrapped) ==>
      r.notes == ErrorNote("XML normal parse failed: ", t.strict) + ErrorNote("XML wrapped parse failed: ", t.wrapped) +
                 (if r.blocks == [] then [NoBlocksNote] else [])
    ensures r.blocks == [] ==> r.notes != []
  {
    if Found(t.strict) then Loaded(t.strict.blocks, [])
    else
      var n1 := ErrorNote("XML normal parse failed: ", t.strict);
      if Found(t.wrapped) then Loaded(t.wrapped.blocks, n1)
      else
        var n2 := ErrorNote("XML wrapped parse failed: ", t.wrapped);
        var blocks := Collect(t.fragments, ParsedFragment);
        Loaded(blocks, n1 + n2 + (if blocks == [] then [NoBlocksNote] else []))
  }

  /** The steps of `_load_country_blocks`, appending each note when it arises. */
  method LoadCountryBlocks(t: Tiers) returns (blocks: seq<Block>, notes: seq<string>)
    ensures Loaded(blocks, notes) == Load(t)
  {
    notes := [];
    match t.strict {
      case ParseError(e1) => notes := notes + ["XML normal parse failed: " + e1];
      case Parsed(bs) =>
        if bs != [] {
          return bs, notes;
        }
    }
    match t.wrapped {
      case ParseError(e2) => notes := notes + ["XML wrapped parse failed: " + e2];
      case Parsed(bs) =>
        if bs != [] {
          return bs, notes;
        }
    }
    blocks := FragmentBlocks(t.fragments);
    if blocks == [] {
      notes := notes + [NoBlocksNote];
    }
  }

  /** A failed strict parse fails the run even when the wrapped parse finds the blocks. */
  lemma StrictErrorKept(t: Tiers)
    requires t.strict.ParseError? && Found(t.wrapped)
    ensures Load(t).blocks == t.wrapped.blocks
    ensures Load(t).notes == ["XML normal parse failed: " + t.strict.message]
  {
  }

  /** Loading the blocks of the XML text and checking those of the ISDB standard. */
  method CheckXml(fs: FileSystem, root: string, t: Tiers) returns (checked: nat, failed: seq<(string, string)>, notes: seq<string>)
    ensures notes == Load(t).notes
    ensures checked == ClassCount(Load(t).blocks, Standard)
    ensures failed == Failures(fs, root, Key, Standard, Load(t).blocks)
  {
    var blocks;
    blocks, notes := LoadCountryBlocks(t);
    checked, failed := CheckBlocks(fs, root, Key, Standard, blocks);
  }

  datatype Report = Report(passed: bool, checkedCount: nat, failedFiles: seq<string>, failedCount: nat, notes: seq<string>)

  /** `check_ginga_flag` with `parse` the XML parser: passing needs no failure and no note. */
  method CheckGinga(fs: FileSystem, root: string, parse: string -> Tiers, dedup: bool) returns (r: Report)
    ensures r.passed <==> r.failedCount == 0 && r.notes == []
    ensures r.failedCount <= r.checkedCount
    ensures !Exists(fs, XmlPath(root)) ==> r.notes == [XmlNotFound] && r.checkedCount == 0 && r.failedCount == 0
    ensures Exists(fs, XmlPath(root)) ==>
      var l := Load(parse(Read(fs, XmlPath(root)).value));
      var failed := Failures(fs, root, Key, Standard, l.blocks);
      r.notes == l.notes && r.checkedCount == ClassCount(l.blocks, Standard) &&
      r.failedCount == |failed| && r.failedFiles == Summary(failed, dedup)
  {
    var xml := XmlPath(root);
    var checked: nat := 0;
    var failed: seq<(string, string)> := [];
    var notes: seq<string> := [];
    if !Exists(fs, xml) {
      notes := notes + [XmlNotFound];
    } else {
      var loadNotes;
      checked, failed, loadNotes := CheckXml(fs, root, parse(Read(fs, xml).value));
      notes := notes + loadNotes;
    }
    r := Report(|failed| == 0 && notes == [], checked, Summary(failed, dedup), |failed|, notes);
  }
}
