/** Where the agent keeps its persisted files. */
module Layout {

  /** A file-system path as its list of components. */
  type Path = seq<string>

  const AccessKeyFilename := "access-key"
  const DeviceIDFilename := "device-id"
  const BundleFilename := "bundle"

  /** The construction-time configuration of an agent. */
  datatype Config = Config(
    projectID: string,
    registrationToken: string,
    confDir: string,
    stateDir: string,
    version: string,
    serverPort: int)

  /** The location of a state file: `stateDir/projectID/elem...`. */
  function FileLocation(c: Config, elem: seq<string>): (r: Path)
    // the state directory, then the project's directory, then the given components
    ensures |r| == |elem| + 2 && r[0] == c.stateDir && r[1] == c.projectID && r[2..] == elem
  {
    [c.stateDir, c.projectID] + elem
  }

  function AccessKeyPath(c: Config): Path { FileLocation(c, [AccessKeyFilename]) }
  function DeviceIDPath(c: Config): Path { FileLocation(c, [DeviceIDFilename]) }
  function BundlePath(c: Config): Path { FileLocation(c, [BundleFilename]) }

  /** Every state file lies in the per-project directory, and different
      names give different files. */
  lemma FileLocationInDirectory(c: Config, elem: seq<string>, other: seq<string>)
    ensures FileLocation(c, elem) == FileLocation(c, []) + elem
    ensures FileLocation(c, elem) == FileLocation(c, other) <==> elem == other
  {
    if FileLocation(c, elem) == FileLocation(c, other) {
      assert elem == FileLocation(c, elem)[2..];
      assert other == FileLocation(c, other)[2..];
    }
  }

  /** The three state files are pairwise distinct and none is the directory. */
  lemma StateFilesDistinct(c: Config)
    ensures AccessKeyPath(c) != DeviceIDPath(c)
    ensures AccessKeyPath(c) != BundlePath(c)
    ensures DeviceIDPath(c) != BundlePath(c)
    ensures FileLocation(c, []) !in {AccessKeyPath(c), DeviceIDPath(c), BundlePath(c)}
  {
    FileLocationInDirectory(c, [AccessKeyFilename], [DeviceIDFilename]);
    FileLocationInDirectory(c, [AccessKeyFilename], [BundleFilename]);
    FileLocationInDirectory(c, [DeviceIDFilename], [BundleFilename]);
  }
}
