/**
  LockCacheItem: a cache item is locked while a file named after it with the
  suffix ".lock" exists. The lock is taken by creating that file exclusively
  and given back by removing it, and only by the object that created it.
*/
module LockItems {
  import opened Framing
  import opened FileSystems

  const LOCK_SUFFIX: string := ".lock"

  /** The name of the lock file of the item at `path`. */
  function LockFileName(path: string): (name: string)
    ensures |name| == |path| + 5 && name[..|path|] == path && name[|path|..] == ".lock"
  {
    path + LOCK_SUFFIX
  }

  /** LockCacheItem::isLocked: another writer holds, or held, the item's lock. */
  predicate IsLocked(files: map<string, Bytes>, dirs: set<string>, path: string) {
    PathPresent(files, dirs, LockFileName(path))
  }

  class LockCacheItem {
    const fileName: string
    const fs: FileSystem
    var owned: bool

    /** Creates the lock file exclusively; the lock is owned exactly when that succeeded. */
    constructor (fs: FileSystem, path: string)
      modifies fs
      ensures this.fs == fs && fileName == LockFileName(path)
      ensures owned == !old(fs.IsPathPresent(LockFileName(path)))
      ensures fs.files == if owned then old(fs.files)[fileName := []] else old(fs.files)
      ensures fs.dirs == old(fs.dirs)
      ensures IsLocked(fs.files, fs.dirs, path)
    {
      this.fs := fs;
      fileName := LockFileName(path);
      var created := fs.CreateExclusive(LockFileName(path));
      owned := created;
    }

    predicate IsOwned()
      reads this
    {
      owned
    }

    /** The destructor: an owned lock file is removed; a failed removal is only traced. */
    method Release()
      modifies fs
      ensures fs.files == if owned then old(fs.files) - {fileName} else old(fs.files)
      ensures fs.dirs == old(fs.dirs)
      ensures owned ==> fileName !in fs.files
    {
      if owned {
        var failed := fs.Remove(fileName);
      }
    }
  }
}
