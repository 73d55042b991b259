/**
 * What most checkers do first: find the file model.ini declares under a key,
 * resolve it against the project root, and report an undeclared key as a
 * note and a declared but absent file as missing.
 */
module ModelIni {
  import opened Wrappers
  import opened Text
  import opened Ini
  import opened Files
  import Resolvers

  /** `parse_model_ini_for_*`: the first declaration of `key`, resolved with `_resolve_tvconfigs_path`. */
  function DeclaredPath(lines: seq<string>, root: string, key: string): (p: Option<string>)
    ensures p.Some? <==> FindKeyValue(lines, key, true).Some?
    ensures p.Some? ==> p.value != ""
  {
    match FindKeyValue(lines, key, true)
    case None => None
    case Some(v) => Some(Resolvers.Resolve(root, v))
  }

  /** One more line: the first declaration stays; otherwise this line's value, if it has one, is resolved. */
  lemma DeclaredPathStep(lines: seq<string>, i: nat, root: string, key: string)
    requires i < |lines|
    ensures DeclaredPath(lines[..i + 1], root, key) ==
      if DeclaredPath(lines[..i], root, key).Some? || LineValue(lines[i], key, true).None? then DeclaredPath(lines[..i], root, key)
      else Some(Resolvers.Resolve(root, LineValue(lines[i], key, true).value))
  {
    FindKeyValueStep(lines, i, key);
  }

  /** The lines of a declared file, or None when it is undeclared or does not exist (`not path or not exists`). */
  function ReadDeclared(fs: FileSystem, path: Option<string>): (r: Option<seq<string>>)
    ensures r.Some? <==> path.Some? && Exists(fs, path.value)
  {
    if path.Some? then ReadLines(fs, path.value) else None
  }

  datatype Trace = Trace(notes: seq<string>, missing: seq<string>)

  /** The `notes`/`missing` pair: one note when undeclared, the path when declared but absent. */
  function PathTrace(fs: FileSystem, path: Option<string>, note: string): (t: Trace)
    ensures |t.notes| == (if path.None? then 1 else 0)
    ensures t.missing == (if path.Some? && !Exists(fs, path.value) then [path.value] else [])
  {
    if path.None? then Trace([note], [])
    else if !Exists(fs, path.value) then Trace([], [path.value])
    else Trace([], [])
  }
}
