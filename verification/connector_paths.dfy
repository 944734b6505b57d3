/** How the connector keeps its volumes and turns a client's target into a
    path inside one of them (Connector.AddVolume, ParsePathAsync and
    ParsePathsAsync). A target is a volume id, which ends at the first
    '_', followed by the hash of a path relative to that volume's root.
    The platform compares volume objects by reference, so a volume is
    identified here by its position in the connector's list. */
module ConnectorPaths {
  import opened Wrappers
  import opened Faults
  import opened Strings
  import Numbers
  import PathCodec
  import FileHelper
  import opened Storage
  import opened DriverPaths

  const VolumePrefix := "v"
  const HashSeparator := '_'

  datatype Volume = Volume(volumeId: string, rootDirectory: string, maxUploadSize: Option<int>)

  /** What a parsed target names: a volume and the driver's path in it. */
  datatype PathInfo = PathInfo(volume: nat, path: DriverPath) {
    predicate IsDirectory() {
      path.DirectoryPath?
    }

    /** The path is the volume's root itself. */
    predicate IsRoot() {
      path.decodedPath == ""
    }
  }

  /** The id a volume gets when it has none: the prefix, the list's count
      after adding it, and the separator. */
  function AutoId(count: nat): string {
    VolumePrefix + Numbers.Show(count) + [HashSeparator]
  }

  /** Append a volume; an id it does not bring is generated from the new
      count. The answer is the volume's id. */
  function AddVolume(vols: seq<Volume>, volumeId: Option<string>, rootDirectory: string, maxUploadSize: Option<int>)
    : (r: (seq<Volume>, string))
    ensures |r.0| == |vols| + 1 && r.0[..|vols|] == vols
    ensures r.0[|vols|] == Volume(r.1, rootDirectory, maxUploadSize)
    ensures volumeId.Some? ==> r.1 == volumeId.value
    ensures volumeId.None? ==> r.1 == AutoId(|vols| + 1)
    ensures volumeId.None? ==> |r.1| > 1 && HashSeparator !in r.1[..|r.1| - 1] && r.1[|r.1| - 1] == HashSeparator
  {
    var id := if volumeId.Some? then volumeId.value else AutoId(|vols| + 1);
    AutoIdTail(|vols| + 1);
    (vols + [Volume(id, rootDirectory, maxUploadSize)], id)
  }

  /** The first volume with the given id. */
  function FindVolume(vols: seq<Volume>, volumeId: string): (r: Option<nat>)
    ensures r.Some? ==> r.value < |vols| && vols[r.value].volumeId == volumeId
    ensures r.Some? ==> forall j :: 0 <= j < r.value ==> vols[j].volumeId != volumeId
    ensures r.None? <==> forall j :: 0 <= j < |vols| ==> vols[j].volumeId != volumeId
  {
    if |vols| == 0 then None
    else if vols[0].volumeId == volumeId then Some(0)
    else
      match FindVolume(vols[1..], volumeId)
      case None => None
      case Some(j) => Some(j + 1)
  }

  /** The volume-id part of a target: everything up to and including the
      first separator, or nothing when there is none. */
  function VolumePart(target: string): string {
    target[..IndexOf(target, HashSeparator) + 1]
  }

  /** The hash part of a target: what follows the volume-id part. */
  function HashPart(target: string): string {
    target[IndexOf(target, HashSeparator) + 1..]
  }

  /** Resolve a target. An empty one names nothing; otherwise the hash is
      decoded first, then the volume is looked up by the id part, and the
      volume's driver resolves the decoded path. */
  function ParsePath(vols: seq<Volume>, fs: Tree, target: string, createIfNotExists: bool, fileByDefault: bool)
    : (r: Result<Option<PathInfo>, Fault>)
    ensures r.Success? && r.value.None? <==> target == ""
    ensures r.Success? && r.value.Some? ==>
      var p := r.value.value;
      p.volume < |vols| && vols[p.volume].volumeId == VolumePart(target)
      && p.path.hashedTarget == target
      && p.path.fullPath == vols[p.volume].rootDirectory + p.path.decodedPath
      && PathCodec.Decode(Some(HashPart(target))) == Success(p.path.decodedPath)
  {
    if target == "" then Success(None)
    else
      var filePath :- PathCodec.Decode(Some(HashPart(target)));
      match FindVolume(vols, VolumePart(target))
      case None => Failure(FileNotFoundFault)
      case Some(v) =>
        var p :- DriverPaths.ParsePath(fs, vols[v].rootDirectory, filePath, target, createIfNotExists, fileByDefault);
        Success(Some(PathInfo(v, p)))
  }

  /** Resolve every target of a list with the default flags; the first
      target that fails, in list order, decides the fault. */
  function ParsePaths(vols: seq<Volume>, fs: Tree, targets: seq<string>): (r: Result<seq<Option<PathInfo>>, Fault>)
    ensures r.Success? ==> |r.value| == |targets|
    ensures r.Success? ==> forall i :: 0 <= i < |targets| ==> ParsePath(vols, fs, targets[i], true, true) == Success(r.value[i])
  {
    if |targets| == 0 then Success([])
    else
      var first :- ParsePath(vols, fs, targets[0], true, true);
      var rest :- ParsePaths(vols, fs, targets[1..]);
      Success([first] + rest)
  }

  /** Every path a list resolves to lies in a registered volume. */
  lemma ParsePathsInVolumes(vols: seq<Volume>, fs: Tree, targets: seq<string>)
    ensures var r := ParsePaths(vols, fs, targets);
      r.Success? ==> forall i :: 0 <= i < |r.value| && r.value[i].Some? ==> r.value[i].value.volume < |vols|
  {
  }

  /** The targets before `i` resolve and target `i` fails with `e`. */
  predicate FirstParseFault(vols: seq<Volume>, fs: Tree, targets: seq<string>, e: Fault) {
    exists i :: 0 <= i < |targets| && ParsePath(vols, fs, targets[i], true, true) == Failure(e)
      && forall j :: 0 <= j < i ==> ParsePath(vols, fs, targets[j], true, true).Success?
  }

  predicate AllParsed(paths: seq<Option<PathInfo>>) {
    forall i :: 0 <= i < |paths| ==> paths[i].Some?
  }

  function Unwrapped(paths: seq<Option<PathInfo>>): (r: seq<PathInfo>)
    requires AllParsed(paths)
    ensures |r| == |paths| && forall i :: 0 <= i < |paths| ==> r[i] == paths[i].value
  {
    seq(|paths|, i requires 0 <= i < |paths| => paths[i].value)
  }

  /** The distinct volumes of a path list in order of first appearance,
      as reading each path's volume and keeping the first of each does;
      reading the volume of a null path is a null-reference fault. */
  function DistinctFrom(paths: seq<Option<PathInfo>>, seen: seq<nat>): (r: Result<seq<nat>, Fault>)
    ensures r.Failure? <==> !AllParsed(paths)
    ensures r.Failure? ==> r.error == NullReference
    ensures r.Success? ==> seen <= r.value
    ensures r.Success? ==> forall v :: v in r.value <==> v in seen || exists i :: 0 <= i < |paths| && paths[i].value.volume == v
    ensures r.Success? && (forall a, b :: 0 <= a < b < |seen| ==> seen[a] != seen[b]) ==>
      forall a, b :: 0 <= a < b < |r.value| ==> r.value[a] != r.value[b]
  {
    if |paths| == 0 then Success(seen)
    else if paths[0].None? then Failure(NullReference)
    else
      var v := paths[0].value.volume;
      var rest := DistinctFrom(paths[1..], if v in seen then seen else seen + [v]);
      assert AllParsed(paths) <==> AllParsed(paths[1..]) by {
        if AllParsed(paths[1..]) {
          forall i | 0 <= i < |paths| ensures paths[i].Some? {
            if i > 0 { assert paths[i] == paths[1..][i - 1]; }
          }
        }
      }
      assert rest.Success? ==> forall u :: u in rest.value <==> u in seen || exists i :: 0 <= i < |paths| && paths[i].value.volume == u by {
        if rest.Success? {
        forall u ensures u in rest.value <==> u in seen || exists i :: 0 <= i < |paths| && paths[i].value.volume == u {
          if exists i :: 0 <= i < |paths[1..]| && paths[1..][i].value.volume == u {
            var i :| 0 <= i < |paths[1..]| && paths[1..][i].value.volume == u;
            assert paths[i + 1].value.volume == u;
          }
          if exists i :: 0 <= i < |paths| && paths[i].value.volume == u {
            var i :| 0 <= i < |paths| && paths[i].value.volume == u;
            if i > 0 { assert paths[1..][i - 1].value.volume == u; }
          }
        }
        }
      }
      rest
  }

  function Distinct(paths: seq<Option<PathInfo>>): (r: Result<seq<nat>, Fault>)
    ensures r.Failure? <==> !AllParsed(paths)
    ensures r.Failure? ==> r.error == NullReference
    ensures r.Success? ==> forall v :: v in r.value <==> exists i :: 0 <= i < |paths| && paths[i].value.volume == v
    ensures r.Success? ==> forall a, b :: 0 <= a < b < |r.value| ==> r.value[a] != r.value[b]
    ensures r.Success? && |paths| > 0 ==> |r.value| > 0 && r.value[0] == paths[0].value.volume
  {
    var r := DistinctFrom(paths, []);
    assert r.Success? && |paths| > 0 ==> [] + [paths[0].value.volume] == [paths[0].value.volume];
    r
  }

  // Properties

  /** A generated id is not empty and ends with its only separator. */
  lemma AutoIdTail(count: nat)
    ensures var id := AutoId(count);
      |id| > 1 && HashSeparator !in id[..|id| - 1] && id[|id| - 1] == HashSeparator
  {
    FileHelper.ShowChars(count);
    var id := AutoId(count);
    assert id[..|id| - 1] == VolumePrefix + Numbers.Show(count);
  }

  /** A generated id holds the separator only as its last character. */
  lemma AutoIdShape(count: nat)
    ensures IndexOf(AutoId(count), HashSeparator) == |AutoId(count)| - 1
  {
    var s := Numbers.Show(count);
    FileHelper.ShowChars(count);
    IndexAfter(VolumePrefix + s, HashSeparator, "");
    assert AutoId(count) == (VolumePrefix + s) + [HashSeparator] + "";
  }

  /** Different counts give different ids. */
  lemma AutoIdInjective(m: nat, n: nat)
    requires AutoId(m) == AutoId(n)
    ensures m == n
  {
    var sm := Numbers.Show(m);
    var sn := Numbers.Show(n);
    assert sm == AutoId(m)[1..|AutoId(m)| - 1];
    assert sn == AutoId(n)[1..|AutoId(n)| - 1];
    Numbers.ParseShow(m, 0, if m < n then n else m);
    Numbers.ParseShow(n, 0, if m < n then n else m);
  }

  /** Volumes added one after another without ids of their own. */
  function AddUnnamed(vols: seq<Volume>, roots: seq<string>): (r: seq<Volume>)
    ensures |r| == |vols| + |roots|
    ensures r[..|vols|] == vols
    decreases |roots|
  {
    if |roots| == 0 then vols
    else AddUnnamed(AddVolume(vols, None, roots[0], None).0, roots[1..])
  }

  /** Adding unnamed volumes to an empty connector numbers them from one,
      so every volume is the one its own id finds. */
  lemma {:induction false} UnnamedIds(vols: seq<Volume>, roots: seq<string>)
    requires forall i :: 0 <= i < |vols| ==> vols[i].volumeId == AutoId(i + 1)
    ensures forall i :: 0 <= i < |AddUnnamed(vols, roots)| ==> AddUnnamed(vols, roots)[i].volumeId == AutoId(i + 1)
    decreases |roots|
  {
    hide AutoId;
    if |roots| > 0 {
      var next := AddVolume(vols, None, roots[0], None).0;
      forall i | 0 <= i < |next| ensures next[i].volumeId == AutoId(i + 1) {
        if i < |vols| { assert next[i] == next[..|vols|][i]; }
      }
      UnnamedIds(next, roots[1..]);
      assert AddUnnamed(vols, roots) == AddUnnamed(next, roots[1..]);
    }
  }

  lemma UnnamedReachable(roots: seq<string>)
    ensures var r := AddUnnamed([], roots);
      forall i :: 0 <= i < |r| ==> FindVolume(r, r[i].volumeId) == Some(i)
  {
    var r := AddUnnamed([], roots);
    UnnamedIds([], roots);
    GeneratedIdsDistinct(r);
    DistinctIdsReachable(r);
  }

  /** Volumes numbered from one by generated ids have distinct ids. */
  lemma GeneratedIdsDistinct(vols: seq<Volume>)
    requires forall i :: 0 <= i < |vols| ==> vols[i].volumeId == AutoId(i + 1)
    ensures forall i, j :: 0 <= i < j < |vols| ==> vols[i].volumeId != vols[j].volumeId
  {
    forall i, j | 0 <= i < j < |vols| ensures vols[i].volumeId != vols[j].volumeId {
      if vols[i].volumeId == vols[j].volumeId {
        AutoIdInjective(i + 1, j + 1);
      }
    }
  }

  /** When no two volumes share an id, each one is found by its own. */
  lemma DistinctIdsReachable(vols: seq<Volume>)
    requires forall i, j :: 0 <= i < j < |vols| ==> vols[i].volumeId != vols[j].volumeId
    ensures forall i :: 0 <= i < |vols| ==> FindVolume(vols, vols[i].volumeId) == Some(i)
  {
    forall i | 0 <= i < |vols| ensures FindVolume(vols, vols[i].volumeId) == Some(i) {
      var f := FindVolume(vols, vols[i].volumeId);
      assert f.Some?;
    }
  }

  /** An id a volume brings can be the one the connector would generate
      later: the later volume then gets the same id and no target reaches
      it, because the lookup takes the first match. */
  lemma NamedIdShadows(root1: string, root2: string)
    ensures var (vs1, id1) := AddVolume([], Some(AutoId(2)), root1, None);
      var (vs2, id2) := AddVolume(vs1, None, root2, None);
      id1 == id2 && FindVolume(vs2, id2) == Some(0)
  {
  }

  /** A target built from a well-formed volume id and the hash of a path
      resolves in that volume to that path. */
  lemma ParseBuilt(vols: seq<Volume>, fs: Tree, v: nat, hash: string, decoded: string, createIfNotExists: bool, fileByDefault: bool)
    requires v < |vols| && FindVolume(vols, vols[v].volumeId) == Some(v)
    requires var id := vols[v].volumeId; |id| > 0 && IndexOf(id, HashSeparator) == |id| - 1
    requires PathCodec.Decode(Some(hash)) == Success(decoded)
    ensures var target := vols[v].volumeId + hash;
      var r := ParsePath(vols, fs, target, createIfNotExists, fileByDefault);
      match DriverPaths.ParsePath(fs, vols[v].rootDirectory, decoded, target, createIfNotExists, fileByDefault)
      case Success(d) => r == Success(Some(PathInfo(v, d)))
      case Failure(e) => r == Failure(e)
  {
    var id := vols[v].volumeId;
    var target := id + hash;
    PrefixIndex(id, HashSeparator, hash);
    assert target[..|id|] == id;
    assert target[|id|..] == hash;
  }

  /** Hashing a non-empty path after a well-formed id resolves that path. */
  lemma ParseEncoded(vols: seq<Volume>, fs: Tree, v: nat, p: string, createIfNotExists: bool, fileByDefault: bool)
    requires v < |vols| && FindVolume(vols, vols[v].volumeId) == Some(v)
    requires var id := vols[v].volumeId; |id| > 0 && IndexOf(id, HashSeparator) == |id| - 1
    requires p != ""
    ensures PathCodec.Encode(Some(p)).Some?
    ensures var target := vols[v].volumeId + PathCodec.Encode(Some(p)).value;
      var r := ParsePath(vols, fs, target, createIfNotExists, fileByDefault);
      match DriverPaths.ParsePath(fs, vols[v].rootDirectory, p, target, createIfNotExists, fileByDefault)
      case Success(d) => r == Success(Some(PathInfo(v, d)))
      case Failure(e) => r == Failure(e)
  {
    PathCodec.DecodeEncode(p);
    ParseBuilt(vols, fs, v, PathCodec.Encode(Some(p)).value, p, createIfNotExists, fileByDefault);
  }

  /** A volume id alone names the volume's root, created on demand as a
      directory or file per the flags when it is missing. */
  lemma ParseVolumeId(vols: seq<Volume>, fs: Tree, v: nat, createIfNotExists: bool, fileByDefault: bool)
    requires v < |vols| && FindVolume(vols, vols[v].volumeId) == Some(v)
    requires var id := vols[v].volumeId; |id| > 0 && IndexOf(id, HashSeparator) == |id| - 1
    ensures var r := ParsePath(vols, fs, vols[v].volumeId, createIfNotExists, fileByDefault);
      r.Success? ==> r.value.Some? && r.value.value.volume == v && r.value.value.IsRoot()
  {
    ParseBuilt(vols, fs, v, "", "", createIfNotExists, fileByDefault);
    assert vols[v].volumeId + "" == vols[v].volumeId;
  }

  /** The hash is decoded before the volume is looked up: a hash the
      decoder rejects is a format fault even when no volume has the id. */
  lemma DecodeBeforeLookup(vols: seq<Volume>, fs: Tree, target: string, createIfNotExists: bool, fileByDefault: bool)
    requires target != "" && PathCodec.Decode(Some(HashPart(target))).Failure?
    ensures ParsePath(vols, fs, target, createIfNotExists, fileByDefault) == Failure(Format)
  {
  }

  /** A well-formed hash whose id part no volume has is a missing file. */
  lemma UnknownVolume(vols: seq<Volume>, fs: Tree, target: string, createIfNotExists: bool, fileByDefault: bool)
    requires target != "" && PathCodec.Decode(Some(HashPart(target))).Success?
    requires forall j :: 0 <= j < |vols| ==> vols[j].volumeId != VolumePart(target)
    ensures ParsePath(vols, fs, target, createIfNotExists, fileByDefault) == Failure(FileNotFoundFault)
  {
  }

  /** A list fails exactly when one of its targets does, and then with the
      fault of the first one that does. */
  lemma {:induction false} ParsePathsFault(vols: seq<Volume>, fs: Tree, targets: seq<string>)
    ensures var r := ParsePaths(vols, fs, targets);
      (r.Failure? <==> exists i :: 0 <= i < |targets| && ParsePath(vols, fs, targets[i], true, true).Failure?)
      && (r.Failure? ==> FirstParseFault(vols, fs, targets, r.error))
  {
    if |targets| > 0 {
      ParsePathsFault(vols, fs, targets[1..]);
      ParsePathsStepFails(vols, fs, targets);
      ParsePathsStepFirst(vols, fs, targets);
    }
  }

  /** How one more target in front changes the outcome of a list. */
  lemma ParsePathsUnfold(vols: seq<Volume>, fs: Tree, targets: seq<string>)
    requires |targets| > 0
    ensures var head := ParsePath(vols, fs, targets[0], true, true);
      var r := ParsePaths(vols, fs, targets);
      var rest := ParsePaths(vols, fs, targets[1..]);
      (head.Failure? ==> r == Failure(head.error))
      && (head.Success? ==> (r.Failure? <==> rest.Failure?) && (r.Failure? ==> r.error == rest.error))
  {
  }

  lemma ParsePathsStepFails(vols: seq<Volume>, fs: Tree, targets: seq<string>)
    requires |targets| > 0
    requires ParsePaths(vols, fs, targets[1..]).Failure?
      <==> exists i :: 0 <= i < |targets[1..]| && ParsePath(vols, fs, targets[1..][i], true, true).Failure?
    ensures ParsePaths(vols, fs, targets).Failure?
      <==> exists i :: 0 <= i < |targets| && ParsePath(vols, fs, targets[i], true, true).Failure?
  {
    ParsePathsUnfold(vols, fs, targets);
    hide ParsePath, ParsePaths;
    var t := targets[1..];
    if exists i :: 0 <= i < |targets| && ParsePath(vols, fs, targets[i], true, true).Failure? {
      var i :| 0 <= i < |targets| && ParsePath(vols, fs, targets[i], true, true).Failure?;
      if i > 0 { assert t[i - 1] == targets[i]; }
    }
    if exists i :: 0 <= i < |t| && ParsePath(vols, fs, t[i], true, true).Failure? {
      var i :| 0 <= i < |t| && ParsePath(vols, fs, t[i], true, true).Failure?;
      assert targets[i + 1] == t[i];
    }
  }

  lemma ParsePathsStepFirst(vols: seq<Volume>, fs: Tree, targets: seq<string>)
    requires |targets| > 0
    requires var rest := ParsePaths(vols, fs, targets[1..]);
      rest.Failure? ==> FirstParseFault(vols, fs, targets[1..], rest.error)
    ensures var r := ParsePaths(vols, fs, targets);
      r.Failure? ==> FirstParseFault(vols, fs, targets, r.error)
  {
    ParsePathsUnfold(vols, fs, targets);
    hide ParsePath, ParsePaths;
    var r := ParsePaths(vols, fs, targets);
    var t := targets[1..];
    var rest := ParsePaths(vols, fs, t);
    if r.Failure? {
      if ParsePath(vols, fs, targets[0], true, true).Failure? {
        assert ParsePath(vols, fs, targets[0], true, true) == Failure(r.error);
      } else {
        var i :| 0 <= i < |t| && ParsePath(vols, fs, t[i], true, true) == Failure(rest.error)
          && forall j :: 0 <= j < i ==> ParsePath(vols, fs, t[j], true, true).Success?;
        assert targets[i + 1] == t[i];
        forall j | 0 <= j < i + 1 ensures ParsePath(vols, fs, targets[j], true, true).Success? {
          if j > 0 { assert targets[j] == t[j - 1]; }
        }
      }
    }
  }
}
