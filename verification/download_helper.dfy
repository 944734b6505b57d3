/** The choice of the file name offered for a zip download of several
    entries (Helpers/DownloadHelper.cs). */
module DownloadHelper {
  import opened Wrappers
  import opened Faults

  /** The directory above an entry, as far as the name choice needs it:
      its name (which may be missing) and whether its volume reports it as
      the volume's root. */
  datatype ParentDir = ParentDir(name: Option<string>, isVolumeRoot: bool)

  /** A resolved target: whether it is its volume's root, the volume's
      name, the entry's own name, and its parent directory if it has one.
      Names are optional because the source's strings may be null. */
  datatype PathEntry = PathEntry(
    isRoot: bool,
    volumeName: Option<string>,
    name: Option<string>,
    parent: Option<ParentDir>)

  /** The name a zip download is offered under. A missing or empty list is
      an argument fault. A single entry gives its volume's name when it is
      a root and its own name otherwise, with no fallback. Several entries
      give the name of the first entry's parent, or the volume's name when
      that parent is missing or is the root, falling back to `defaultName`
      when the chosen name is missing. */
  function GetZipDownloadName(paths: Option<seq<PathEntry>>, defaultName: string): (r: Result<Option<string>, Fault>)
    ensures r.Failure? <==> paths.None? || |paths.value| == 0
    ensures r.Failure? ==> r.error == ArgumentNull
    ensures r.Success? && |paths.value| > 1 ==> r.value.Some?
  {
    if paths.None? || |paths.value| == 0 then Failure(ArgumentNull)
    else
      var first := paths.value[0];
      if |paths.value| == 1 then
        Success(if first.isRoot then first.volumeName else first.name)
      else
        var parent := first.parent;
        var isParentRoot := parent.None? || parent.value.isVolumeRoot;
        var chosen := if isParentRoot then first.volumeName else parent.value.name;
        Success(Some(chosen.GetOr(defaultName)))
  }

  // Properties

  /** A lone entry is named after itself, or after its volume when it is
      the root; the default name is never used for it. */
  lemma SingleEntryName(p: PathEntry, defaultName: string)
    ensures var r := GetZipDownloadName(Some([p]), defaultName);
      r.Success? && r.value == (if p.isRoot then p.volumeName else p.name)
  {
  }

  /** With several entries only the first one matters: the rest of the
      list may be anything. */
  lemma OnlyFirstEntryMatters(p: PathEntry, rest1: seq<PathEntry>, rest2: seq<PathEntry>, defaultName: string)
    requires |rest1| >= 1 && |rest2| >= 1
    ensures GetZipDownloadName(Some([p] + rest1), defaultName) == GetZipDownloadName(Some([p] + rest2), defaultName)
  {
  }

  /** With several entries the name is the volume's name exactly when the
      first entry's parent is missing or is the root (and the volume has a
      name), the parent's name when it has one and is not the root, and
      the default name otherwise. */
  lemma SeveralEntriesName(ps: seq<PathEntry>, defaultName: string)
    requires |ps| >= 2
    ensures var r := GetZipDownloadName(Some(ps), defaultName);
      var p := ps[0];
      var rootLike := p.parent.None? || p.parent.value.isVolumeRoot;
      r.Success?
      && (rootLike && p.volumeName.Some? ==> r.value == p.volumeName)
      && (!rootLike && p.parent.value.name.Some? ==> r.value == p.parent.value.name)
      && (r.value == Some(defaultName) || r.value == p.volumeName
          || (p.parent.Some? && r.value == p.parent.value.name))
      && ((rootLike && p.volumeName.None?) || (!rootLike && p.parent.value.name.None?)
          ==> r.value == Some(defaultName))
  {
  }

  /** The first entry of several leaves no name to use: its parent is
      missing or the root and the volume has no name, or the parent is
      an ordinary directory without a name. */
  predicate NoChosenName(p: PathEntry) {
    var rootLike := p.parent.None? || p.parent.value.isVolumeRoot;
    (rootLike && p.volumeName.None?) || (!rootLike && p.parent.value.name.None?)
  }

  /** The default name is only a fallback: two different defaults give
      the same answer exactly when the list is not one of several entries
      whose first leaves no name, and otherwise each default is itself
      the answer. */
  lemma DefaultOnlyAsFallback(ps: seq<PathEntry>, d1: string, d2: string)
    requires |ps| >= 1 && d1 != d2
    ensures GetZipDownloadName(Some(ps), d1) == GetZipDownloadName(Some(ps), d2)
      <==> !(|ps| >= 2 && NoChosenName(ps[0]))
    ensures |ps| >= 2 && NoChosenName(ps[0]) ==> GetZipDownloadName(Some(ps), d1) == Success(Some(d1))
  {
  }
}
