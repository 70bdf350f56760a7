/**
 * The part of the file system the pipeline touches: which directories
 * exist, and which of them `shutil.rmtree` fails on (permissions, busy
 * files and the like, decided outside the program).
 */
module FileSystems {
  import opened Keys

  class FileSystem {
    /** The directories that currently exist. */
    var present: set<Path>
    /** The directories whose removal raises. */
    const undeletable: set<Path>

    constructor (present: set<Path>, undeletable: set<Path>)
      ensures this.present == present && this.undeletable == undeletable
    {
      this.present := present;
      this.undeletable := undeletable;
    }

    /** `base_dir.exists()`. */
    predicate Exists(p: Path)
      reads this
    {
      p in present
    }

    /**
     * `shutil.rmtree(p)`: `ok` says whether it returned normally. A missing
     * directory raises too; a failed call leaves the directory in place.
     */
    method RemoveTree(p: Path) returns (ok: bool)
      modifies this
      ensures ok <==> p in old(present) && p !in undeletable
      ensures present == if ok then old(present) - {p} else old(present)
    {
      ok := p in present && p !in undeletable;
      if ok {
        present := present - {p};
      }
    }
  }
}
