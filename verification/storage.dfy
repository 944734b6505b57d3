/** The abstract file system the driver works on: a map from canonical
    segment lists (a full path resolved by PathHelper.Resolve) to
    directories and files. Existence checks take path text, as the
    platform's Directory.Exists and File.Exists do, and answer false for
    text that is not a valid path. */
module Storage {
  import opened Utf8
  import PathHelper
  import Strings

  datatype Node = DirNode | FileNode(content: seq<Byte>)

  type Tree = map<seq<string>, Node>

  /** The key a path text names, when it is a valid path. */
  predicate ValidPathText(path: string) {
    path != "" && Strings.NulChar !in path
  }

  predicate DirectoryExists(fs: Tree, path: string) {
    ValidPathText(path) && PathHelper.Resolve(path) in fs && fs[PathHelper.Resolve(path)].DirNode?
  }

  /** A file path text ending in a separator names no file, even when
      the path without it does. */
  predicate FileExists(fs: Tree, path: string) {
    ValidPathText(path) && !PathHelper.EndsWithSeparator(path)
    && PathHelper.Resolve(path) in fs && fs[PathHelper.Resolve(path)].FileNode?
  }

  /** No text names a directory and a file at once. */
  lemma ExistsExclusive(fs: Tree, path: string)
    ensures !(DirectoryExists(fs, path) && FileExists(fs, path))
  {
  }
}
