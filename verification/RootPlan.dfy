/** Planning one root: which directories to create, which files to upload, what to delete. */
module RootPlan {
  import opened Paths
  import opened PathMapping
  import opened LocalNames
  import opened NameMapping
  import opened Sorting
  import opened LiveScan
  import opened LiveSet
  import opened DeletePlan

  datatype UploadJob = UploadJob(file: FileEntry, isUpdate: bool)

  datatype Plan = Plan(creates: seq<DirectoryEntry>, uploads: seq<UploadJob>, deletes: seq<DeleteOp>)

  predicate HasKind(inventory: Tree, p: Path, kind: Kind) {
    p in inventory && inventory[p] == kind
  }

  function MissingDirectories(dirs: seq<DirectoryEntry>, inventory: Tree): (r: seq<DirectoryEntry>)
    ensures forall d :: d in r <==> d in dirs && !HasKind(inventory, d.remote, Directory)
  {
    if dirs == [] then []
    else
      var last := dirs[|dirs| - 1];
      assert dirs == dirs[..|dirs| - 1] + [last];
      MissingDirectories(dirs[..|dirs| - 1], inventory)
      + (if HasKind(inventory, last.remote, Directory) then [] else [last])
  }

  /** A file is left alone only if its fingerprint was reused and the remote has a file there. */
  predicate NeedsUpload(f: FileEntry, inventory: Tree) {
    !f.fingerprint.reusedFromState || !HasKind(inventory, f.remote, File)
  }

  function NeededUploads(files: seq<FileEntry>, inventory: Tree): (r: seq<UploadJob>)
    ensures forall j :: j in r <==>
      j.file in files && NeedsUpload(j.file, inventory) && j.isUpdate == HasKind(inventory, j.file.remote, File)
  {
    if files == [] then []
    else
      var last := files[|files| - 1];
      assert files == files[..|files| - 1] + [last];
      NeededUploads(files[..|files| - 1], inventory)
      + (if NeedsUpload(last, inventory) then [UploadJob(last, HasKind(inventory, last.remote, File))] else [])
  }

  /** The managed root itself: its relative text is empty. */
  function RootEntry(root: Path, normalized: string): DirectoryEntry {
    DirectoryEntry([], ROOT_REL, root, normalized)
  }

  function JobBytes(jobs: seq<UploadJob>): nat {
    if jobs == [] then 0 else jobs[0].file.size + JobBytes(jobs[1..])
  }

  method PlanCreates(root: Path, rootNormalized: string, dirs: seq<DirectoryEntry>, inventory: Tree)
    returns (creates: seq<DirectoryEntry>)
    ensures creates == MissingDirectories([RootEntry(root, rootNormalized)] + dirs, inventory)
    ensures !HasKind(inventory, root, Directory) ==>
      creates != [] && creates[0] == DirectoryEntry([], [""], root, rootNormalized)
  {
    var rootEntry := RootEntry(root, rootNormalized);
    ghost var seen := [rootEntry];
    MissingStep([], rootEntry, inventory);
    assert [] + [rootEntry] == seen;
    creates := [];
    if !HasKind(inventory, root, Directory) {
      creates := [rootEntry];
    }
    for i := 0 to |dirs|
      invariant creates == MissingDirectories(seen, inventory)
      invariant !HasKind(inventory, root, Directory) ==> creates != [] && creates[0] == rootEntry
      invariant seen == [rootEntry] + dirs[..i]
    {
      MissingStep(seen, dirs[i], inventory);
      TakeOneMore([rootEntry], dirs, i);
      seen := seen + [dirs[i]];
      if !HasKind(inventory, dirs[i].remote, Directory) {
        creates := creates + [dirs[i]];
      }
    }
    assert dirs[..|dirs|] == dirs;
  }

  lemma TakeOneMore<T>(head: seq<T>, s: seq<T>, i: nat)
    requires i < |s|
    ensures head + s[..i + 1] == head + s[..i] + [s[i]]
  {
  }

  lemma MissingStep(dirs: seq<DirectoryEntry>, d: DirectoryEntry, inventory: Tree)
    ensures MissingDirectories(dirs + [d], inventory) ==
      MissingDirectories(dirs, inventory) + (if HasKind(inventory, d.remote, Directory) then [] else [d])
  {
    assert (dirs + [d])[..|dirs|] == dirs;
  }

  method PlanUploads(files: seq<FileEntry>, inventory: Tree) returns (uploads: seq<UploadJob>)
    ensures uploads == NeededUploads(files, inventory)
  {
    uploads := [];
    for i := 0 to |files|
      invariant uploads == NeededUploads(files[..i], inventory)
    {
      assert files[..i + 1][..i] == files[..i];
      if NeedsUpload(files[i], inventory) {
        uploads := uploads + [UploadJob(files[i], HasKind(inventory, files[i].remote, File))];
      }
    }
    assert files[..|files|] == files;
  }

  method BuildRootPlan(root: Path, rootNormalized: string, plan: LiveScanPlan, inventory: Tree) returns (r: Plan)
    ensures r.creates == MissingDirectories([RootEntry(root, rootNormalized)] + plan.directories, inventory)
    ensures r.uploads == NeededUploads(plan.files, inventory)
    ensures OpPaths(r.deletes) ==
      Targets(root, KnownLive(root, plan.directories, plan.files, plan.deleted), inventory)
    ensures Sorted(r.deletes, OpOrder) && forall o | o in r.deletes :: OpFits(root, inventory, o)
  {
    var creates := PlanCreates(root, rootNormalized, plan.directories, inventory);
    var uploads := PlanUploads(plan.files, inventory);
    var known := KnownLive(root, plan.directories, plan.files, plan.deleted);
    var deletes := CollectCoalescedDeletes(root, known, inventory);
    r := Plan(creates, uploads, deletes);
  }

  /** The depth levels of the create phase: `relative_depth`. */
  function RelativeDepth(rel: Path): nat {
    if rel == ROOT_REL then 0 else |rel|
  }

  /** The root comes before all else, a directory before those under it. */
  predicate Before(e: DirectoryEntry, d: DirectoryEntry) {
    RelativeDepth(d.rel) > 0 && e.rel != [] && (e.rel == ROOT_REL || e.rel < d.rel)
  }

  /** Planned creates hang from directories that exist or are planned to come before them. */
  ghost predicate CreatesClosed(root: Path, creates: seq<DirectoryEntry>, inventory: Tree) {
    forall d | d in creates && root < d.remote ::
      || HasKind(inventory, Parent(d.remote), Directory)
      || exists e | e in creates :: Before(e, d) && e.remote == Parent(d.remote)
  }

  /** The parent of each directory's remote path is the root or the remote path of a directory above it. */
  ghost predicate ParentsRecorded(root: Path, dirs: seq<DirectoryEntry>) {
    forall d | d in dirs && root < d.remote ::
      && RelativeDepth(d.rel) > 0
      && (Parent(d.remote) == root || exists e | e in dirs :: Before(e, d) && e.remote == Parent(d.remote))
  }

  ghost predicate AlwaysClosed(root: Path, normalized: string, dirs: seq<DirectoryEntry>) {
    forall inventory: Tree ::
      CreatesClosed(root, MissingDirectories([RootEntry(root, normalized)] + dirs, inventory), inventory)
  }

  /** Exactly when parents are planned before children, whatever the remote holds. */
  lemma PlannedCreatesClosedIff(root: Path, normalized: string, dirs: seq<DirectoryEntry>)
    ensures AlwaysClosed(root, normalized, dirs) <==> ParentsRecorded(root, dirs)
  {
    if ParentsRecorded(root, dirs) {
      forall inventory: Tree
        ensures CreatesClosed(root, MissingDirectories([RootEntry(root, normalized)] + dirs, inventory), inventory)
      {
        PlannedCreatesClosed(root, normalized, dirs, inventory);
      }
    }
    if AlwaysClosed(root, normalized, dirs) {
      var all := [RootEntry(root, normalized)] + dirs;
      var creates := MissingDirectories(all, map[]);
      assert CreatesClosed(root, creates, map[]);
      forall d | d in dirs && root < d.remote
        ensures RelativeDepth(d.rel) > 0
        ensures Parent(d.remote) == root || exists e | e in dirs :: Before(e, d) && e.remote == Parent(d.remote)
      {
        assert d in all && d in creates;
        var e :| e in creates && Before(e, d) && e.remote == Parent(d.remote);
        assert e == RootEntry(root, normalized) || e in dirs;
      }
    }
  }

  lemma PlannedCreatesClosed(root: Path, normalized: string, dirs: seq<DirectoryEntry>, inventory: Tree)
    requires ParentsRecorded(root, dirs)
    ensures CreatesClosed(root, MissingDirectories([RootEntry(root, normalized)] + dirs, inventory), inventory)
  {
    var all := [RootEntry(root, normalized)] + dirs;
    var creates := MissingDirectories(all, inventory);
    forall d | d in creates && root < d.remote
      ensures HasKind(inventory, Parent(d.remote), Directory)
        || exists e | e in creates :: Before(e, d) && e.remote == Parent(d.remote)
    {
      assert d in dirs;
      assert RootEntry(root, normalized) in all;
      if Parent(d.remote) == root {
        assert Before(RootEntry(root, normalized), d);
      } else {
        var e :| e in dirs && Before(e, d) && e.remote == Parent(d.remote);
        assert e in all;
      }
    }
  }

  /** Recorded ancestors with plain names are enough. */
  lemma ClosedParents(root: Path, dirs: seq<DirectoryEntry>, files: seq<FileEntry>)
    requires Mapped(root, dirs, files) && LiveClosed(dirs, files, [])
    ensures ParentsRecorded(root, dirs)
  {
    forall d | d in dirs && root < d.remote
      ensures RelativeDepth(d.rel) > 0
      ensures Parent(d.remote) == root || exists e | e in dirs :: Before(e, d) && e.remote == Parent(d.remote)
    {
      ParentRecorded(root, dirs, files, d);
    }
  }

  lemma ParentRecorded(root: Path, dirs: seq<DirectoryEntry>, files: seq<FileEntry>, d: DirectoryEntry)
    requires Mapped(root, dirs, files) && LiveClosed(dirs, files, []) && d in dirs && root < d.remote
    ensures RelativeDepth(d.rel) > 0
    ensures Parent(d.remote) == root || exists e | e in dirs :: Before(e, d) && e.remote == Parent(d.remote)
  {
    var k := |Image(d.rel)| - 1;
    ImageShape(d.rel);
    assert Image(ROOT_REL) == [];
    assert Parent(d.remote) == root + Image(d.rel)[..k];
    if k > 0 {
      assert d.rel in Rels(dirs, files) && StoredBelow(d.rel, k);
      assert AncestorRecorded(dirs, d.rel, k);
      var e :| e in dirs && e.rel == d.rel[..k];
      PlainIff(e.rel);
      assert Before(e, d);
    }
  }

  /** Not so for a directory "a " with a directory "b" in it: nothing is planned at the parent of the latter. */
  lemma SpacedParent(normalized: string, d: DirectoryEntry, e: DirectoryEntry)
    requires d.rel == ["a "] && e.rel == ["a ", "b"] && Mapped(["disk:", "r"], [d, e], [])
    ensures var creates := MissingDirectories([RootEntry(["disk:", "r"], normalized), d, e], map[]);
      !CreatesClosed(["disk:", "r"], creates, map[])
  {
    var root: Path := ["disk:", "r"];
    SpacedBelow();
    assert d in [d, e] && e in [d, e];
    assert d.remote == ["disk:", "r", "a"] && e.remote == ["disk:", "r", "a ", "b"];
    var all := [RootEntry(root, normalized), d, e];
    assert e in all && Parent(e.remote) == ["disk:", "r", "a "];
    assert "a " != "a" && forall x | x in all :: x.remote != Parent(e.remote);
  }

  lemma SpacedBelow()
    ensures Image(["a "]) == ["a"] && Image(["a ", "b"]) == ["a ", "b"]
  {
    SpacedImages();
    SpacedNames();
    assert "b"[1..] == "" && TrimEnd("b") == "b" && FilterSegment("b") == "b";
    assert Cut(["a ", "b"]) == ["a ", "b"];
  }
}
