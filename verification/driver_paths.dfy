/** The driver's resolution of a decoded path inside a volume
    (FileSystemDriver.ParsePathAsync): the volume's root directory text
    followed by the decoded path names a directory or a file, created on
    demand or missing. */
module DriverPaths {
  import opened Wrappers
  import opened Faults
  import opened Storage

  /** What the driver hands back: a directory or a file object for the
      full path, with the decoded path and the hash it came from. */
  datatype DriverPath =
    | DirectoryPath(fullPath: string, decodedPath: string, hashedTarget: string)
    | FilePath(fullPath: string, decodedPath: string, hashedTarget: string)

  /** Resolve a decoded path: an existing directory, or a directory to be
      created, comes first; then an existing file, or a file to be
      created; otherwise the fault the default kind calls for. */
  function ParsePath(fs: Tree, rootDirectory: string, decodedPath: string, hashedTarget: string,
                     createIfNotExists: bool, fileByDefault: bool): (r: Result<DriverPath, Fault>)
    ensures r.Success? ==>
      r.value.fullPath == rootDirectory + decodedPath && r.value.decodedPath == decodedPath
      && r.value.hashedTarget == hashedTarget
    ensures r.Failure? <==>
      !createIfNotExists && !DirectoryExists(fs, rootDirectory + decodedPath) && !FileExists(fs, rootDirectory + decodedPath)
    ensures r.Failure? ==> r.error == if fileByDefault then FileNotFoundFault else DirectoryNotFoundFault
  {
    var fullPath := rootDirectory + decodedPath;
    if DirectoryExists(fs, fullPath) || (createIfNotExists && !fileByDefault) then
      Success(DirectoryPath(fullPath, decodedPath, hashedTarget))
    else if FileExists(fs, fullPath) || (createIfNotExists && fileByDefault) then
      Success(FilePath(fullPath, decodedPath, hashedTarget))
    else if fileByDefault then Failure(FileNotFoundFault)
    else Failure(DirectoryNotFoundFault)
  }

  /** What is on disk wins over the default kind: an existing directory is
      a directory and an existing file is a file whatever the flags say;
      only a missing entry takes its kind from `fileByDefault`. */
  lemma ExistingKindWins(fs: Tree, rootDirectory: string, decodedPath: string, hashedTarget: string,
                         createIfNotExists: bool, fileByDefault: bool)
    ensures var full := rootDirectory + decodedPath;
      var r := ParsePath(fs, rootDirectory, decodedPath, hashedTarget, createIfNotExists, fileByDefault);
      (DirectoryExists(fs, full) ==> r.Success? && r.value.DirectoryPath?)
      && (FileExists(fs, full) && !(createIfNotExists && !fileByDefault) ==> r.Success? && r.value.FilePath?)
      && (!DirectoryExists(fs, full) && !FileExists(fs, full) && createIfNotExists ==>
            r.Success? && (r.value.FilePath? <==> fileByDefault))
  {
    ExistsExclusive(fs, rootDirectory + decodedPath);
  }

  /** Without creation the answer reports exactly what exists. */
  lemma NoCreateReportsDisk(fs: Tree, rootDirectory: string, decodedPath: string, hashedTarget: string, fileByDefault: bool)
    ensures var full := rootDirectory + decodedPath;
      var r := ParsePath(fs, rootDirectory, decodedPath, hashedTarget, false, fileByDefault);
      (r.Success? && r.value.DirectoryPath? <==> DirectoryExists(fs, full))
      && (r.Success? && r.value.FilePath? <==> FileExists(fs, full))
  {
    ExistsExclusive(fs, rootDirectory + decodedPath);
  }
}
