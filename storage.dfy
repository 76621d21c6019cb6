/** The part of the filesystem the recorders touch: every path that exists,
    with whether it is a regular file and its modification time in whole
    seconds. */
module Storage {

  datatype Entry = Entry(isFile: bool, mtime: int)

  type Files = map<string, Entry>

  /** `os.path.isfile(path)`. */
  predicate IsFileIn(files: Files, path: string) {
    path in files && files[path].isFile
  }

  /** The effect of `os.remove(path)` where the removal of the paths in
      `failing` raises: only an existing regular file outside `failing` goes. */
  function Removed(files: Files, path: string, failing: set<string>): (after: Files)
    ensures path !in failing && IsFileIn(files, path) ==> path !in after
    ensures forall p :: p in after <==> p in files && (p != path || path in failing || !IsFileIn(files, path))
    ensures forall p :: p in after ==> after[p] == files[p]
  {
    if IsFileIn(files, path) && path !in failing then files - {path} else files
  }

  class Disk {
    var entries: Files

    constructor (initial: Files)
      ensures entries == initial
    {
      entries := initial;
    }

    /** `os.path.exists(path)`. */
    predicate Exists(path: string)
      reads this
    {
      path in entries
    }

    /** `os.path.isfile(path)`. */
    predicate IsFile(path: string)
      reads this
    {
      IsFileIn(entries, path)
    }

    /** `os.path.getmtime(path)`. */
    function MTime(path: string): int
      requires path in entries
      reads this
    {
      entries[path].mtime
    }

    /** Creating or overwriting the regular file `path` at time `clock`. */
    method Write(path: string, clock: int)
      modifies this
      ensures entries == old(entries)[path := Entry(true, clock)]
    {
      entries := entries[path := Entry(true, clock)];
    }

    /** `os.remove(path)`: `ok` is false where Python raises (no such path,
        not a regular file, or a removal in `failing`). */
    method Remove(path: string, failing: set<string>) returns (ok: bool)
      modifies this
      ensures ok <==> IsFileIn(old(entries), path) && path !in failing
      ensures entries == Removed(old(entries), path, failing)
    {
      ok := IsFileIn(entries, path) && path !in failing;
      if ok {
        entries := entries - {path};
      }
    }
  }
}
