/**
 * An abstract file system: files are keyed by folder and file name. Changes
 * are full overwrites and deletions, so what a sequence of them does can be
 * summed up as one `Effect`.
 */
module FileSystems {
  import opened Requirements

  datatype FilePath = FilePath(folder: string, file: string)

  /**
   * A JSON catalogue file is the sorted key list it is serialised with and
   * the entries; a marker file is plain text.
   */
  datatype FileContent =
    | CatalogJson(keys: seq<MessageId>, entries: map<MessageId, string>)
    | Marker(text: string)

  type Files = map<FilePath, FileContent>

  /** Files written with their new content, and files deleted. */
  datatype Effect = Effect(writes: Files, deletes: set<FilePath>)

  const NoEffect: Effect := Effect(map[], {})

  /** The files after the effect: deleted ones are gone, written ones hold their new content. */
  function Apply(e: Effect, files: Files): (after: Files)
  {
    (files - e.deletes) + e.writes
  }

  /** One effect followed by another. */
  function Then(first: Effect, second: Effect): Effect
  {
    Effect((first.writes - second.deletes) + second.writes,
           (first.deletes - second.writes.Keys) + second.deletes)
  }

  lemma ApplyThen(first: Effect, second: Effect, files: Files)
    ensures Apply(Then(first, second), files) == Apply(second, Apply(first, files))
  {
    var left, right := Apply(Then(first, second), files), Apply(second, Apply(first, files));
    assert forall p :: p in left <==> p in right;
    assert forall p :: p in left ==> left[p] == right[p];
  }

  /** Overwrites and deletions can be repeated without changing the outcome. */
  lemma ApplyTwice(e: Effect, files: Files)
    ensures Apply(e, Apply(e, files)) == Apply(e, files)
  {
    var once, twice := Apply(e, files), Apply(e, Apply(e, files));
    assert forall p :: p in twice <==> p in once;
    assert forall p :: p in twice ==> twice[p] == once[p];
  }

  /** No catalogue file is written without entries. */
  ghost predicate NoEmptyCatalog(e: Effect)
  {
    forall p :: p in e.writes && e.writes[p].CatalogJson? ==> |e.writes[p].entries| > 0
  }

  /** Every file written or deleted lies in `folder`. */
  ghost predicate Within(e: Effect, folder: string)
  {
    && (forall p :: p in e.writes ==> p.folder == folder)
    && (forall p :: p in e.deletes ==> p.folder == folder)
  }

  /** The effect neither writes nor deletes `path`. */
  ghost predicate Leaves(e: Effect, path: FilePath)
  {
    path !in e.writes && path !in e.deletes
  }

  lemma ThenNoEmptyCatalog(first: Effect, second: Effect)
    requires NoEmptyCatalog(first) && NoEmptyCatalog(second)
    ensures NoEmptyCatalog(Then(first, second))
  {
  }

  lemma ThenWithin(first: Effect, second: Effect, folder: string)
    requires Within(first, folder) && Within(second, folder)
    ensures Within(Then(first, second), folder)
  {
  }

  /** Both effects treat `path` alike. */
  ghost predicate SameAt(e1: Effect, e2: Effect, path: FilePath)
  {
    && (path in e1.writes <==> path in e2.writes)
    && (path in e1.writes ==> e1.writes[path] == e2.writes[path])
    && (path in e1.deletes <==> path in e2.deletes)
  }

  lemma SameAtTransitive(e1: Effect, e2: Effect, e3: Effect, path: FilePath)
    requires SameAt(e1, e2, path) && SameAt(e2, e3, path)
    ensures SameAt(e1, e3, path)
  {
  }

  /** A path the second effect leaves is treated as the first effect treats it. */
  lemma ThenAt(first: Effect, second: Effect, path: FilePath)
    requires Leaves(second, path)
    ensures SameAt(Then(first, second), first, path)
  {
  }

  lemma ThenLeaves(first: Effect, second: Effect, path: FilePath)
    requires Leaves(first, path) && Leaves(second, path)
    ensures Leaves(Then(first, second), path)
  {
  }

  /** A path the second effect either writes or deletes is treated as the second effect treats it. */
  lemma ThenOverrides(first: Effect, second: Effect, path: FilePath)
    requires (path in second.writes) != (path in second.deletes)
    ensures SameAt(Then(first, second), second, path)
  {
  }

  /** Effects that treat a path alike leave it alike. */
  lemma ApplySameAt(e1: Effect, e2: Effect, files: Files, path: FilePath)
    requires SameAt(e1, e2, path)
    ensures path in Apply(e1, files) <==> path in Apply(e2, files)
    ensures path in Apply(e1, files) ==> Apply(e1, files)[path] == Apply(e2, files)[path]
  {
  }

  /** A path the effect leaves keeps its content. */
  lemma ApplyLeaves(e: Effect, files: Files, path: FilePath)
    requires Leaves(e, path)
    ensures path in Apply(e, files) <==> path in files
    ensures path in files ==> Apply(e, files)[path] == files[path]
  {
  }

  /** A single write, seen as an effect. */
  lemma ApplyWrite(files: Files, path: FilePath, content: FileContent)
    ensures Apply(Effect(map[path := content], {}), files) == files[path := content]
  {
    var after := Apply(Effect(map[path := content], {}), files);
    assert forall p :: p in after <==> p in files[path := content];
  }

  /** A single deletion, seen as an effect; deleting a missing file changes nothing. */
  lemma ApplyDelete(files: Files, path: FilePath)
    ensures Apply(Effect(map[], {path}), files) == files - {path}
    ensures path !in files ==> files - {path} == files
  {
    var after := Apply(Effect(map[], {path}), files);
    assert forall p :: p in after <==> p in files - {path};
  }

  /** The file system the tool writes into. */
  class FileSystem {
    var files: Files

    constructor (initial: Files)
      ensures files == initial
    {
      files := initial;
    }

    /** Creates or truncates the file and writes the content. */
    method WriteFile(path: FilePath, content: FileContent)
      modifies this
      ensures files == old(files)[path := content]
    {
      files := files[path := content];
    }

    /** Removes the file; `existed` is false where the real call fails with "not found". */
    method Unlink(path: FilePath) returns (existed: bool)
      modifies this
      ensures existed == (path in old(files))
      ensures files == old(files) - {path}
    {
      existed := path in files;
      files := files - {path};
    }
  }
}
