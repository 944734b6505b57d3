/** Copying and merging a directory tree into a destination
    (FileSystemDriver.CopyToAsync, MergeAsync, SafeCopyToAsync and
    SafeMoveToAsync). The source is a folder value whose listing order is
    the platform's; the destination is the abstract file system keyed by
    resolved segment lists, so a child's destination is its parent's with
    the child's name appended. The walk is breadth-first over a queue of
    pending folders, as in the source: each folder's destination is
    created when missing, its subfolders are queued, and its files are
    copied or moved one by one. */
module DirectoryCopy {
  import opened Wrappers
  import opened Faults
  import opened Utf8
  import opened Storage
  import PathHelper

  /** A source file: its name, bytes, and the answers of CanCopy and
      CanMove for it. */
  datatype Entry = Entry(name: string, content: seq<Byte>, copyable: bool, movable: bool)

  datatype Folder = Folder(name: string, files: seq<Entry>, folders: seq<Folder>)

  /** Copy leaves the source files in place; Move removes them. */
  datatype Transfer = Copy | Move

  /** A pending folder: the folder, its path relative to the source
      root, and its destination. */
  datatype Item = Item(folder: Folder, rel: seq<string>, dest: seq<string>)

  /** The destination after the walk, and the source files (relative to
      the source root) that were moved away, in order. */
  datatype Outcome = Outcome(tree: Tree, removed: seq<seq<string>>)

  /** The name of the copy GetCopyNameAsync picks for a file name in a
      destination directory; it is not part of this model. */
  type CopyNamer = (seq<string>, string) -> string

  // Termination measure of the walk

  /** The number of folders in a forest. */
  function Weight(fs: seq<Folder>): nat
    decreases fs
  {
    if fs == [] then 0 else 1 + Weight(fs[0].folders) + Weight(fs[1..])
  }

  /** The number of folders still to be visited from a queue. */
  function QueueWeight(q: seq<Item>): nat {
    if q == [] then 0 else 1 + Weight(q[0].folder.folders) + QueueWeight(q[1..])
  }

  /** The queue entries for a folder's subfolders. */
  function ChildItems(fs: seq<Folder>, rel: seq<string>, dest: seq<string>): (r: seq<Item>)
    ensures |r| == |fs|
    ensures forall i :: 0 <= i < |fs| ==> r[i] == Item(fs[i], rel + [fs[i].name], dest + [fs[i].name])
  {
    if fs == [] then [] else [Item(fs[0], rel + [fs[0].name], dest + [fs[0].name])] + ChildItems(fs[1..], rel, dest)
  }

  lemma {:induction false} QueueWeightAppend(a: seq<Item>, b: seq<Item>)
    ensures QueueWeight(a + b) == QueueWeight(a) + QueueWeight(b)
    decreases |a|
  {
    if a != [] {
      assert (a + b)[0] == a[0] && (a + b)[1..] == a[1..] + b;
      QueueWeightAppend(a[1..], b);
    } else {
      assert a + b == b;
    }
  }

  lemma {:induction false} ChildWeight(fs: seq<Folder>, rel: seq<string>, dest: seq<string>)
    ensures QueueWeight(ChildItems(fs, rel, dest)) == Weight(fs)
    decreases |fs|
  {
    if fs != [] {
      ChildWeight(fs[1..], rel, dest);
    }
  }

  // One folder

  /** Create the folder's destination unless a directory is already
      there; a file in its place makes the creation fail. */
  function MakeDir(t: Tree, d: seq<string>): (r: Result<Tree, Fault>)
    ensures r.Success? <==> d !in t || t[d].DirNode?
    ensures r.Failure? ==> r.error == OtherIO
    ensures r.Success? ==> r.value == t[d := DirNode]
  {
    if d in t && t[d].DirNode? then Success(t)
    else if d in t then Failure(OtherIO)
    else Success(t[d := DirNode])
  }

  /** The target of one file: its own name in the destination, or the
      copy name when a file of that name exists and overwriting is off. */
  function Target(t: Tree, e: Entry, d: seq<string>, overwrite: bool, copyName: CopyNamer): (target: seq<string>)
    ensures |target| == |d| + 1 && target[..|d|] == d
  {
    var own := d + [e.name];
    if own in t && t[own].FileNode? && !overwrite then d + [copyName(d, e.name)] else own
  }

  /** Copy or move one file into the destination directory `d`. A copy
      onto an existing file overwrites it only when overwriting is on; a
      move onto an existing file with overwriting on copies over it and
      deletes the source; any other occupied target fails. */
  function TransferFile(o: Outcome, e: Entry, rel: seq<string>, d: seq<string>, mode: Transfer,
                        overwrite: bool, copyName: CopyNamer): (r: Result<Outcome, Fault>)
    ensures r.Failure? && mode == Copy && !e.copyable ==> r.error == Raise(PermissionDeniedKind)
    ensures r.Failure? && mode == Move && !e.movable ==> r.error == Raise(PermissionDeniedKind)
    ensures r.Success? ==>
      var target := Target(o.tree, e, d, overwrite, copyName);
      r.value.tree == o.tree[target := FileNode(e.content)]
      && (target in o.tree ==> o.tree[target].FileNode?)
      && r.value.removed == o.removed + (if mode == Move then [rel + [e.name]] else [])
  {
    var t := o.tree;
    var target := Target(t, e, d, overwrite, copyName);
    var written := Outcome(t[target := FileNode(e.content)], o.removed);
    match mode
    case Copy =>
      if !e.copyable then Failure(Raise(PermissionDeniedKind))
      else if target in t && (t[target].DirNode? || !overwrite) then Failure(OtherIO)
      else Success(written)
    case Move =>
      if !e.movable then Failure(Raise(PermissionDeniedKind))
      else if target in t && (t[target].DirNode? || target != d + [e.name] || !overwrite) then Failure(OtherIO)
      else Success(written.(removed := o.removed + [rel + [e.name]]))
  }

  /** Transfer a folder's files in listing order; the first fault stops. */
  function TransferFiles(o: Outcome, es: seq<Entry>, rel: seq<string>, d: seq<string>, mode: Transfer,
                         overwrite: bool, copyName: CopyNamer): (r: Result<Outcome, Fault>)
    decreases |es|
  {
    if es == [] then Success(o)
    else
      var o1 :- TransferFile(o, es[0], rel, d, mode, overwrite, copyName);
      TransferFiles(o1, es[1..], rel, d, mode, overwrite, copyName)
  }

  /** The breadth-first walk: take the first pending folder, create its
      destination, queue its subfolders, transfer its files. */
  function Walk(o: Outcome, q: seq<Item>, mode: Transfer, overwrite: bool, copyName: CopyNamer): (r: Result<Outcome, Fault>)
    decreases QueueWeight(q)
  {
    if q == [] then Success(o)
    else
      var item := q[0];
      var t1 :- MakeDir(o.tree, item.dest);
      var next := q[1..] + ChildItems(item.folder.folders, item.rel, item.dest);
      QueueWeightAppend(q[1..], ChildItems(item.folder.folders, item.rel, item.dest));
      ChildWeight(item.folder.folders, item.rel, item.dest);
      var o2 :- TransferFiles(o.(tree := t1), item.folder.files, item.rel, item.dest, mode, overwrite, copyName);
      Walk(o2, next, mode, overwrite, copyName)
  }

  /** The name of a destination directory. */
  function DestName(dest: seq<string>): string {
    if dest == [] then [PathHelper.DirectorySeparatorChar] else dest[|dest| - 1]
  }

  /** CopyToAsync: the source must be copyable and the destination must
      accept copies; a file in the destination's place is an
      already-exists fault; then the walk copies every folder and file. */
  function CopyDirectory(t: Tree, src: Folder, dest: seq<string>, canCopy: bool, canCopyTo: bool,
                         overwrite: bool, copyName: CopyNamer): (r: Result<Tree, Fault>)
    ensures !canCopy ==> r == Failure(Raise(PermissionDeniedKind))
    ensures canCopy && !canCopyTo ==> r == Failure(Raise(PermissionDeniedKind))
    ensures canCopy && canCopyTo && dest in t && t[dest].FileNode? ==> r == Failure(Raise(ExistsKind(DestName(dest))))
  {
    if !canCopy then Failure(Raise(PermissionDeniedKind))
    else if !canCopyTo then Failure(Raise(PermissionDeniedKind))
    else if dest in t && t[dest].FileNode? then Failure(Raise(ExistsKind(DestName(dest))))
    else
      var o :- Walk(Outcome(t, []), [Item(src, [], dest)], Copy, overwrite, copyName);
      Success(o.tree)
  }

  /** MergeAsync: the destination must accept moves (the source folder is
      not asked); a file in the destination's place is an already-exists
      fault; then the walk moves every file, creating folders as needed. */
  function MergeDirectory(t: Tree, src: Folder, dest: seq<string>, canMoveTo: bool,
                          overwrite: bool, copyName: CopyNamer): (r: Result<Outcome, Fault>)
    ensures !canMoveTo ==> r == Failure(Raise(PermissionDeniedKind))
    ensures canMoveTo && dest in t && t[dest].FileNode? ==> r == Failure(Raise(ExistsKind(DestName(dest))))
  {
    if !canMoveTo then Failure(Raise(PermissionDeniedKind))
    else if dest in t && t[dest].FileNode? then Failure(Raise(ExistsKind(DestName(dest))))
    else Walk(Outcome(t, []), [Item(src, [], dest)], Move, overwrite, copyName)
  }

  // Properties

  /** Nothing that exists is removed, and nothing changes kind. */
  predicate Grows(t: Tree, t': Tree) {
    forall k :: k in t ==> k in t' && (t[k].DirNode? <==> t'[k].DirNode?)
  }

  /** Only keys under `root` differ. */
  ghost predicate SameOutside(t: Tree, t': Tree, root: seq<string>) {
    forall k :: !(root <= k) ==> (k in t <==> k in t') && (k in t ==> t[k] == t'[k])
  }

  /** The folder's destination is a directory, each of its files has a
      file of the same name there, and so on down the tree. */
  predicate Mirrored(f: Folder, d: seq<string>, t: Tree)
    decreases f
  {
    d in t && t[d].DirNode?
    && (forall e :: e in f.files ==> d + [e.name] in t && t[d + [e.name]].FileNode?)
    && (forall i :: 0 <= i < |f.folders| ==> Mirrored(f.folders[i], d + [f.folders[i].name], t))
  }

  /** Every file of the folder, relative to the source root, is listed. */
  predicate AllListed(f: Folder, rel: seq<string>, removed: seq<seq<string>>)
    decreases f
  {
    (forall e :: e in f.files ==> rel + [e.name] in removed)
    && (forall i :: 0 <= i < |f.folders| ==> AllListed(f.folders[i], rel + [f.folders[i].name], removed))
  }

  lemma GrowsTransitive(a: Tree, b: Tree, c: Tree)
    requires Grows(a, b) && Grows(b, c)
    ensures Grows(a, c)
  {
  }

  lemma {:induction false} MirroredGrows(f: Folder, d: seq<string>, t: Tree, t': Tree)
    requires Mirrored(f, d, t) && Grows(t, t')
    ensures Mirrored(f, d, t')
    decreases f
  {
    forall i | 0 <= i < |f.folders|
      ensures Mirrored(f.folders[i], d + [f.folders[i].name], t')
    {
      MirroredGrows(f.folders[i], d + [f.folders[i].name], t, t');
    }
  }

  lemma {:induction false} ListedGrows(f: Folder, rel: seq<string>, removed: seq<seq<string>>, more: seq<seq<string>>)
    requires AllListed(f, rel, removed)
    ensures AllListed(f, rel, removed + more)
    decreases f
  {
    forall i | 0 <= i < |f.folders|
      ensures AllListed(f.folders[i], rel + [f.folders[i].name], removed + more)
    {
      ListedGrows(f.folders[i], rel + [f.folders[i].name], removed, more);
    }
  }

  /** One file lands as a file under its own name, without removing or
      retyping anything, and only under the destination directory. */
  lemma TransferFileSpec(o: Outcome, e: Entry, rel: seq<string>, d: seq<string>, mode: Transfer,
                         overwrite: bool, copyName: CopyNamer)
    requires TransferFile(o, e, rel, d, mode, overwrite, copyName).Success?
    ensures var r := TransferFile(o, e, rel, d, mode, overwrite, copyName).value;
      Grows(o.tree, r.tree) && SameOutside(o.tree, r.tree, d)
      && d + [e.name] in r.tree && r.tree[d + [e.name]].FileNode?
      && r.removed[..|o.removed|] == o.removed
      && (mode == Copy ==> r.removed == o.removed)
      && (mode == Move ==> rel + [e.name] in r.removed)
  {
    var target := Target(o.tree, e, d, overwrite, copyName);
    assert target[..|d|] == d;
  }

  lemma {:induction false} TransferFilesSpec(o: Outcome, es: seq<Entry>, rel: seq<string>, d: seq<string>, mode: Transfer,
                                             overwrite: bool, copyName: CopyNamer)
    requires TransferFiles(o, es, rel, d, mode, overwrite, copyName).Success?
    ensures var r := TransferFiles(o, es, rel, d, mode, overwrite, copyName).value;
      Grows(o.tree, r.tree) && SameOutside(o.tree, r.tree, d)
      && (forall e :: e in es ==> d + [e.name] in r.tree && r.tree[d + [e.name]].FileNode?)
      && |o.removed| <= |r.removed| && r.removed[..|o.removed|] == o.removed
      && (mode == Copy ==> r.removed == o.removed)
      && (mode == Move ==> forall e :: e in es ==> rel + [e.name] in r.removed)
    decreases |es|
  {
    if es != [] {
      var o1 := TransferFile(o, es[0], rel, d, mode, overwrite, copyName).value;
      TransferFileSpec(o, es[0], rel, d, mode, overwrite, copyName);
      TransferFilesSpec(o1, es[1..], rel, d, mode, overwrite, copyName);
      var r := TransferFiles(o1, es[1..], rel, d, mode, overwrite, copyName).value;
      assert r.removed[..|o1.removed|][..|o.removed|] == r.removed[..|o.removed|];
      forall e | e in es
        ensures d + [e.name] in r.tree && r.tree[d + [e.name]].FileNode?
        ensures mode == Move ==> rel + [e.name] in r.removed
      {
        if e != es[0] {
          assert e in es[1..];
        } else if mode == Move {
          var k :| 0 <= k < |o1.removed| && o1.removed[k] == rel + [e.name];
          assert r.removed[k] == r.removed[..|o1.removed|][k];
        }
      }
    }
  }

  /** A folder's own destination is a directory holding its files. */
  predicate Shallow(f: Folder, d: seq<string>, t: Tree) {
    d in t && t[d].DirNode?
    && forall e :: e in f.files ==> d + [e.name] in t && t[d + [e.name]].FileNode?
  }

  /** Every pending destination lies under `root`. */
  predicate AllUnder(q: seq<Item>, root: seq<string>) {
    forall i :: 0 <= i < |q| ==> root <= q[i].dest
  }

  /** One step of the walk: the first folder is done shallowly, and the
      queue it leaves behind. */
  lemma StepSpec(o: Outcome, q: seq<Item>, mode: Transfer, overwrite: bool, copyName: CopyNamer)
    requires q != [] && MakeDir(o.tree, q[0].dest).Success?
    requires TransferFiles(o.(tree := MakeDir(o.tree, q[0].dest).value), q[0].folder.files, q[0].rel, q[0].dest,
                           mode, overwrite, copyName).Success?
    ensures var item := q[0];
      var o2 := TransferFiles(o.(tree := MakeDir(o.tree, item.dest).value), item.folder.files, item.rel, item.dest,
                              mode, overwrite, copyName).value;
      Grows(o.tree, o2.tree) && SameOutside(o.tree, o2.tree, item.dest)
      && Shallow(item.folder, item.dest, o2.tree)
      && |o.removed| <= |o2.removed| && o2.removed[..|o.removed|] == o.removed
      && (mode == Copy ==> o2.removed == o.removed)
      && (mode == Move ==> forall e :: e in item.folder.files ==> item.rel + [e.name] in o2.removed)
  {
    var item := q[0];
    var t1 := MakeDir(o.tree, item.dest).value;
    TransferFilesSpec(o.(tree := t1), item.folder.files, item.rel, item.dest, mode, overwrite, copyName);
  }

  /** The walk removes nothing from the destination, retypes nothing,
      writes only under the destinations it was given, and lists the
      moved files after those listed before. */
  lemma {:induction false} WalkGrows(o: Outcome, q: seq<Item>, root: seq<string>, mode: Transfer,
                                     overwrite: bool, copyName: CopyNamer)
    requires AllUnder(q, root)
    requires Walk(o, q, mode, overwrite, copyName).Success?
    ensures var r := Walk(o, q, mode, overwrite, copyName).value;
      Grows(o.tree, r.tree) && SameOutside(o.tree, r.tree, root)
      && |o.removed| <= |r.removed| && r.removed[..|o.removed|] == o.removed
      && (mode == Copy ==> r.removed == o.removed)
    decreases QueueWeight(q)
  {
    if q != [] {
      var item := q[0];
      var t1 := MakeDir(o.tree, item.dest).value;
      var o2 := TransferFiles(o.(tree := t1), item.folder.files, item.rel, item.dest, mode, overwrite, copyName).value;
      var kids := ChildItems(item.folder.folders, item.rel, item.dest);
      var next := q[1..] + kids;
      QueueWeightAppend(q[1..], kids);
      ChildWeight(item.folder.folders, item.rel, item.dest);
      StepSpec(o, q, mode, overwrite, copyName);
      assert AllUnder(next, root) by {
        forall i | 0 <= i < |next|
          ensures root <= next[i].dest
        {
          if i < |q| - 1 {
            assert next[i] == q[i + 1];
          } else {
            assert next[i].dest[..|item.dest|] == item.dest;
          }
        }
      }
      assert Walk(o, q, mode, overwrite, copyName) == Walk(o2, next, mode, overwrite, copyName);
      WalkGrows(o2, next, root, mode, overwrite, copyName);
      var r := Walk(o2, next, mode, overwrite, copyName).value;
      assert r.removed[..|o2.removed|][..|o.removed|] == r.removed[..|o.removed|];
    }
  }

  /** The queue after the first folder is taken. */
  function Next(q: seq<Item>): (r: seq<Item>)
    requires q != []
    ensures |r| == |q| - 1 + |q[0].folder.folders|
    ensures forall i :: 1 <= i < |q| ==> r[i - 1] == q[i]
    ensures forall j :: 0 <= j < |q[0].folder.folders| ==>
      r[|q| - 1 + j] == Item(q[0].folder.folders[j], q[0].rel + [q[0].folder.folders[j].name],
                             q[0].dest + [q[0].folder.folders[j].name])
  {
    q[1..] + ChildItems(q[0].folder.folders, q[0].rel, q[0].dest)
  }

  /** The outcome after the first folder is done. */
  function AfterFirst(o: Outcome, q: seq<Item>, mode: Transfer, overwrite: bool, copyName: CopyNamer): Result<Outcome, Fault>
    requires q != []
  {
    var t1 :- MakeDir(o.tree, q[0].dest);
    TransferFiles(o.(tree := t1), q[0].folder.files, q[0].rel, q[0].dest, mode, overwrite, copyName)
  }

  /** A successful walk is its first step followed by the walk of the
      rest of the queue. */
  lemma Unfold(o: Outcome, q: seq<Item>, mode: Transfer, overwrite: bool, copyName: CopyNamer)
    requires q != [] && Walk(o, q, mode, overwrite, copyName).Success?
    ensures AfterFirst(o, q, mode, overwrite, copyName).Success?
    ensures var o2 := AfterFirst(o, q, mode, overwrite, copyName).value;
      QueueWeight(Next(q)) < QueueWeight(q)
      && Walk(o, q, mode, overwrite, copyName) == Walk(o2, Next(q), mode, overwrite, copyName)
      && Shallow(q[0].folder, q[0].dest, o2.tree)
      && Grows(o2.tree, Walk(o2, Next(q), mode, overwrite, copyName).value.tree)
      && |o2.removed| <= |Walk(o2, Next(q), mode, overwrite, copyName).value.removed|
      && Walk(o2, Next(q), mode, overwrite, copyName).value.removed[..|o2.removed|] == o2.removed
      && (mode == Move ==> forall e :: e in q[0].folder.files ==> q[0].rel + [e.name] in o2.removed)
  {
    var kids := ChildItems(q[0].folder.folders, q[0].rel, q[0].dest);
    QueueWeightAppend(q[1..], kids);
    ChildWeight(q[0].folder.folders, q[0].rel, q[0].dest);
    StepSpec(o, q, mode, overwrite, copyName);
    var o2 := AfterFirst(o, q, mode, overwrite, copyName).value;
    assert AllUnder(Next(q), []);
    WalkGrows(o2, Next(q), [], mode, overwrite, copyName);
  }

  /** Every folder the walk was given is mirrored in the result. */
  lemma {:induction false} WalkMirrors(o: Outcome, q: seq<Item>, mode: Transfer, overwrite: bool, copyName: CopyNamer)
    requires Walk(o, q, mode, overwrite, copyName).Success?
    ensures var r := Walk(o, q, mode, overwrite, copyName).value;
      forall i :: 0 <= i < |q| ==> Mirrored(q[i].folder, q[i].dest, r.tree)
    decreases QueueWeight(q)
  {
    if q != [] {
      Unfold(o, q, mode, overwrite, copyName);
      var o2 := AfterFirst(o, q, mode, overwrite, copyName).value;
      hide Walk, AfterFirst, Next;
      WalkMirrors(o2, Next(q), mode, overwrite, copyName);
      var r := Walk(o2, Next(q), mode, overwrite, copyName).value;
      forall i | 0 <= i < |q|
        ensures Mirrored(q[i].folder, q[i].dest, r.tree)
      {
        if i > 0 {
          assert q[i] == Next(q)[i - 1];
        } else {
          forall j | 0 <= j < |q[0].folder.folders|
            ensures Mirrored(q[0].folder.folders[j], q[0].dest + [q[0].folder.folders[j].name], r.tree)
          {
            assert Next(q)[|q| - 1 + j].folder == q[0].folder.folders[j];
          }
        }
      }
    }
  }

  /** In a move, every file of every folder the walk was given is listed
      as moved. */
  lemma {:induction false} WalkLists(o: Outcome, q: seq<Item>, overwrite: bool, copyName: CopyNamer)
    requires Walk(o, q, Move, overwrite, copyName).Success?
    ensures var r := Walk(o, q, Move, overwrite, copyName).value;
      forall i :: 0 <= i < |q| ==> AllListed(q[i].folder, q[i].rel, r.removed)
    decreases QueueWeight(q)
  {
    if q != [] {
      Unfold(o, q, Move, overwrite, copyName);
      var o2 := AfterFirst(o, q, Move, overwrite, copyName).value;
      hide Walk, AfterFirst, Next;
      WalkLists(o2, Next(q), overwrite, copyName);
      var r := Walk(o2, Next(q), Move, overwrite, copyName).value;
      forall i | 0 <= i < |q|
        ensures AllListed(q[i].folder, q[i].rel, r.removed)
      {
        if i > 0 {
          assert q[i] == Next(q)[i - 1];
        } else {
          forall j | 0 <= j < |q[0].folder.folders|
            ensures AllListed(q[0].folder.folders[j], q[0].rel + [q[0].folder.folders[j].name], r.removed)
          {
            assert Next(q)[|q| - 1 + j].folder == q[0].folder.folders[j];
          }
          forall e | e in q[0].folder.files
            ensures q[0].rel + [e.name] in r.removed
          {
            var k :| 0 <= k < |o2.removed| && o2.removed[k] == q[0].rel + [e.name];
            assert r.removed[..|o2.removed|][k] == r.removed[k];
          }
        }
      }
    }
  }

  /** A successful copy mirrors the whole source tree under the
      destination: every folder as a directory and every file as a file
      of the same relative path. It removes and retypes nothing that was
      there before, and touches nothing outside the destination. */
  lemma CopyMirrorsSource(t: Tree, src: Folder, dest: seq<string>, canCopy: bool, canCopyTo: bool,
                          overwrite: bool, copyName: CopyNamer)
    requires CopyDirectory(t, src, dest, canCopy, canCopyTo, overwrite, copyName).Success?
    ensures var r := CopyDirectory(t, src, dest, canCopy, canCopyTo, overwrite, copyName).value;
      Mirrored(src, dest, r) && Grows(t, r) && SameOutside(t, r, dest)
  {
    var q := [Item(src, [], dest)];
    assert AllUnder(q, dest);
    WalkMirrors(Outcome(t, []), q, Copy, overwrite, copyName);
    WalkGrows(Outcome(t, []), q, dest, Copy, overwrite, copyName);
  }

  /** A successful merge mirrors the whole source tree under the
      destination and moves every source file, listing each by its path
      relative to the source folder; it removes nothing from the
      destination and touches nothing outside it. */
  lemma MergeMovesEverything(t: Tree, src: Folder, dest: seq<string>, canMoveTo: bool,
                             overwrite: bool, copyName: CopyNamer)
    requires MergeDirectory(t, src, dest, canMoveTo, overwrite, copyName).Success?
    ensures var r := MergeDirectory(t, src, dest, canMoveTo, overwrite, copyName).value;
      Mirrored(src, dest, r.tree) && AllListed(src, [], r.removed)
      && Grows(t, r.tree) && SameOutside(t, r.tree, dest)
  {
    var q := [Item(src, [], dest)];
    assert AllUnder(q, dest);
    WalkMirrors(Outcome(t, []), q, Move, overwrite, copyName);
    WalkLists(Outcome(t, []), q, overwrite, copyName);
    WalkGrows(Outcome(t, []), q, dest, Move, overwrite, copyName);
  }

  /** Neither path lies inside the other. */
  predicate Apart(a: seq<string>, b: seq<string>) {
    !(a <= b) && !(b <= a)
  }

  /** Two prefixes of one path are prefixes of each other. */
  lemma PrefixesNest(a: seq<string>, b: seq<string>, k: seq<string>)
    requires a <= k && b <= k
    ensures a <= b || b <= a
  {
    if |a| <= |b| {
      assert a == k[..|a|] == b[..|a|];
    } else {
      assert b == k[..|b|] == a[..|b|];
    }
  }

  /** When the source folder `srcPath` and the destination lie apart, a
      copy writes nothing at or under the source: every listing of the
      source the walk reads is the one it started from. */
  lemma CopyLeavesSourceAlone(t: Tree, srcPath: seq<string>, src: Folder, dest: seq<string>, canCopy: bool,
                              canCopyTo: bool, overwrite: bool, copyName: CopyNamer)
    requires Apart(srcPath, dest)
    requires CopyDirectory(t, src, dest, canCopy, canCopyTo, overwrite, copyName).Success?
    ensures var r := CopyDirectory(t, src, dest, canCopy, canCopyTo, overwrite, copyName).value;
      forall k :: srcPath <= k ==> (k in t <==> k in r) && (k in t ==> t[k] == r[k])
  {
    var r := CopyDirectory(t, src, dest, canCopy, canCopyTo, overwrite, copyName).value;
    CopyMirrorsSource(t, src, dest, canCopy, canCopyTo, overwrite, copyName);
    forall k | srcPath <= k
      ensures (k in t <==> k in r) && (k in t ==> t[k] == r[k])
    {
      if dest <= k {
        PrefixesNest(srcPath, dest, k);
      }
    }
  }

  /** The same for a merge: the moved files are recorded, and nothing is
      written at or under a source lying apart from the destination. */
  lemma MergeLeavesSourceAlone(t: Tree, srcPath: seq<string>, src: Folder, dest: seq<string>, canMoveTo: bool,
                               overwrite: bool, copyName: CopyNamer)
    requires Apart(srcPath, dest)
    requires MergeDirectory(t, src, dest, canMoveTo, overwrite, copyName).Success?
    ensures var r := MergeDirectory(t, src, dest, canMoveTo, overwrite, copyName).value;
      forall k :: srcPath <= k ==> (k in t <==> k in r.tree) && (k in t ==> t[k] == r.tree[k])
  {
    var r := MergeDirectory(t, src, dest, canMoveTo, overwrite, copyName).value;
    MergeMovesEverything(t, src, dest, canMoveTo, overwrite, copyName);
    forall k | srcPath <= k
      ensures (k in t <==> k in r.tree) && (k in t ==> t[k] == r.tree[k])
    {
      if dest <= k {
        PrefixesNest(srcPath, dest, k);
      }
    }
  }

  /** A copy moves nothing away. */
  lemma CopyRemovesNothing(o: Outcome, q: seq<Item>, overwrite: bool, copyName: CopyNamer)
    requires Walk(o, q, Copy, overwrite, copyName).Success?
    ensures Walk(o, q, Copy, overwrite, copyName).value.removed == o.removed
  {
    assert AllUnder(q, []);
    WalkGrows(o, q, [], Copy, overwrite, copyName);
  }
}
