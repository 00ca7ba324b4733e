/** `os.path.basename` on POSIX paths, where `/` is the only separator. */
module Paths {
  import opened Wrappers
  import opened Strings

  type Path = string

  /** The last component of `path`: everything after its last `/`, or the whole path. */
  function Basename(path: Path): (name: string)
    ensures '/' !in name
    ensures |name| <= |path| && name == path[|path| - |name|..]
    ensures |name| < |path| ==> path[|path| - |name| - 1] == '/'
  {
    match LastIndexOf(path, '/')
    case None => path
    case Some(i) => path[i + 1..]
  }

  /** Joining a directory and a file name with `/` and taking the basename gives the file name back. */
  lemma BasenameOfJoin(dir: Path, fileName: string)
    requires '/' !in fileName
    ensures Basename(dir + "/" + fileName) == fileName
  {
    var path := dir + "/" + fileName;
    assert path[|dir| + 1..] == fileName;
    LastIndexOfAt(path, '/', |dir|);
  }
}
