/**
 * The mirror theorem: a root run in which every remote call succeeds and the local tree
 * stays as scanned leaves exactly the live tree under the managed root.
 */
module Mirror {
  import opened Paths
  import opened PathMapping
  import opened NameMapping
  import opened Sorting
  import opened LiveScan
  import opened LiveSet
  import opened DeletePlan
  import opened DeleteSafety
  import opened RootPlan
  import opened Remote
  import opened RootRun

  /** What a fresh listing of the managed root returns: nothing if the root is missing. */
  function FreshInventory(remote: Tree, root: Path, prefixes: set<Path>): Tree {
    if root !in remote then map[]
    else map p | p in remote && root <= p && !StrictlyBelow(p, prefixes) :: remote[p]
  }

  /**
   * A scan as the live plan holds it: entries stored where their names say, no collision, no
   * tombstone at an entry, and no file stored at the root itself.
   */
  ghost predicate LivePlanOk(root: Path, dirs: seq<DirectoryEntry>, files: seq<FileEntry>, deleted: seq<Tombstone>) {
    && Mapped(root, dirs, files) && TombstonesMapped(root, deleted)
    && (forall d | d in dirs :: !Covered(deleted, d.rel))
    && (forall f | f in files :: !Covered(deleted, f.rel) && f.remote != root)
    && (forall d, f | d in dirs && f in files :: d.remote != f.remote)
  }

  /** The facts about a finished, undisturbed run: `s` is the summary of its trace. */
  ghost predicate AllDone(root: Path, normalized: string, dirs: seq<DirectoryEntry>, files: seq<FileEntry>,
                          inventory: Tree, targets: set<Path>, s: Summary)
  {
    var creates := MissingDirectories([RootEntry(root, normalized)] + dirs, inventory);
    var uploads := NeededUploads(files, inventory);
    && CreateSet(creates) <= s.done && UploadSet(uploads) <= s.done
    && s.done <= CreateSet(creates) + UploadSet(uploads) + DeleteSet(targets)
    && (forall p: Path :: InsertedFromDone(s, p))
  }

  /** The root, each live directory and each live file is on the remote with its kind. */
  ghost predicate LiveKinds(root: Path, dirs: seq<DirectoryEntry>, files: seq<FileEntry>, remote: Tree) {
    && HasKind(remote, root, Directory)
    && (forall d | d in dirs :: HasKind(remote, d.remote, Directory))
    && (forall f | f in files :: HasKind(remote, f.remote, File))
  }

  ghost predicate UploadedOrReused(f: FileEntry, before: Tree, s: Summary) {
    Upload(f.remote, f.size) in s.done || (f.fingerprint.reusedFromState && HasKind(before, f.remote, File))
  }

  ghost predicate Mirrored(root: Path, dirs: seq<DirectoryEntry>, files: seq<FileEntry>, known: set<Path>,
                           targets: set<Path>, before: Tree, after: Tree)
  {
    && (forall p | root <= p ::
          p in after <==> p in known || (p in before && HasPhantomSegment(p[|root|..]) && !CoveredBy(p, targets)))
    && LiveKinds(root, dirs, files, after)
    && (forall p | !(root <= p) :: p in after <==> p in before)
    && (forall p | p in after && p !in known :: p in before && after[p] == before[p])
  }

  // ----- what the creates and uploads leave

  /** Every insertion comes from a planned create or a planned upload. */
  lemma InsertedPlanned(root: Path, normalized: string, dirs: seq<DirectoryEntry>, files: seq<FileEntry>,
                        inventory: Tree, targets: set<Path>, s: Summary, p: Path)
    requires AllDone(root, normalized, dirs, files, inventory, targets, s) && p in s.inserted
    ensures var creates := CreateSet(MissingDirectories([RootEntry(root, normalized)] + dirs, inventory));
      s.inserted[p] == Directory ==> CreateDirectory(p) in creates
    ensures s.inserted[p] == File ==> exists n :: Upload(p, n) in UploadSet(NeededUploads(files, inventory))
  {
    assert InsertedFromDone(s, p);
    if s.inserted[p] == File {
      var n :| Upload(p, n) in s.done;
      assert Upload(p, n) in UploadSet(NeededUploads(files, inventory));
    }
  }

  lemma InsertedKinds(root: Path, normalized: string, dirs: seq<DirectoryEntry>, files: seq<FileEntry>,
                      inventory: Tree, targets: set<Path>, s: Summary, p: Path)
    requires AllDone(root, normalized, dirs, files, inventory, targets, s) && p in s.inserted
    ensures s.inserted[p] == Directory ==> p == root || exists d | d in dirs :: d.remote == p
    ensures s.inserted[p] == File ==> exists f | f in files :: f.remote == p
  {
    InsertedPlanned(root, normalized, dirs, files, inventory, targets, s, p);
    if s.inserted[p] == Directory {
      var creates := MissingDirectories([RootEntry(root, normalized)] + dirs, inventory);
      var d :| d in creates && d.remote == p;
      assert d == RootEntry(root, normalized) || d in dirs;
    } else {
      var n :| Upload(p, n) in UploadSet(NeededUploads(files, inventory));
      var j :| j in NeededUploads(files, inventory) && UploadRequest(j) == Upload(p, n);
      assert j.file in files;
    }
  }

  lemma LiveDirectoryPresent(root: Path, normalized: string, dirs: seq<DirectoryEntry>, files: seq<FileEntry>,
                             deleted: seq<Tombstone>, inventory: Tree, targets: set<Path>, s: Summary,
                             before: Tree, d: DirectoryEntry)
    requires LivePlanOk(root, dirs, files, deleted)
    requires AllDone(root, normalized, dirs, files, inventory, targets, s)
    requires forall p | p in inventory :: p in before && before[p] == inventory[p]
    requires d in dirs || d == RootEntry(root, normalized)
    ensures HasKind(before + s.inserted, d.remote, Directory)
  {
    assert d in [RootEntry(root, normalized)] + dirs;
    assert InsertedFromDone(s, d.remote);
    if !HasKind(inventory, d.remote, Directory) {
      assert CreateDirectory(d.remote) in s.done;
    }
    if d.remote in s.inserted {
      InsertedKinds(root, normalized, dirs, files, inventory, targets, s, d.remote);
      assert forall f | f in files :: f.remote != d.remote;
    }
  }

  lemma LiveFilePresent(root: Path, normalized: string, dirs: seq<DirectoryEntry>, files: seq<FileEntry>,
                        deleted: seq<Tombstone>, inventory: Tree, targets: set<Path>, s: Summary,
                        before: Tree, f: FileEntry)
    requires LivePlanOk(root, dirs, files, deleted)
    requires AllDone(root, normalized, dirs, files, inventory, targets, s)
    requires forall p | p in inventory :: p in before && before[p] == inventory[p]
    requires f in files
    ensures HasKind(before + s.inserted, f.remote, File)
    ensures NeedsUpload(f, inventory) ==> Upload(f.remote, f.size) in s.done
    ensures !NeedsUpload(f, inventory) ==> f.fingerprint.reusedFromState && HasKind(before, f.remote, File)
  {
    assert InsertedFromDone(s, f.remote);
    if NeedsUpload(f, inventory) {
      assert UploadJob(f, HasKind(inventory, f.remote, File)) in NeededUploads(files, inventory);
    }
    if f.remote in s.inserted {
      InsertedKinds(root, normalized, dirs, files, inventory, targets, s, f.remote);
      assert f.remote != root;
    }
  }

  // ----- what the deletes leave

  lemma FreshTargets(root: Path, dirs: seq<DirectoryEntry>, files: seq<FileEntry>, deleted: seq<Tombstone>,
                     before: Tree)
    requires LivePlanOk(root, dirs, files, deleted) && WellRooted(before, root)
    requires PrunedPrefixesDead(root, KnownLive(root, dirs, files, deleted), before, TombstonePrefixes(deleted))
    ensures var known := KnownLive(root, dirs, files, deleted);
      Targets(root, known, FreshInventory(before, root, TombstonePrefixes(deleted))) == Targets(root, known, before)
  {
    var known, prefixes := KnownLive(root, dirs, files, deleted), TombstonePrefixes(deleted);
    TombstonePruningIff(root, dirs, files, deleted, before);
    var listed, pruned := FreshInventory(before, root, prefixes), Prune(before, prefixes);
    forall p | Extra(root, known, p) ensures p in listed <==> p in pruned {
      if p in pruned && root !in before {
        AncestorsPresent(before, root, root, p);
      }
    }
    assert Targets(root, known, listed) == Targets(root, known, pruned);
  }

  lemma TargetsRemovable(root: Path, known: set<Path>, inventory: Tree, before: Tree, inserted: Tree)
    requires Safe(root, known, inventory) && WellRooted(before, root)
    requires inserted.Keys <= known
    ensures Removable(before + inserted, Targets(root, known, inventory))
  {
    var targets := Targets(root, known, inventory);
    forall t, q | t in targets && q in before + inserted && t < q
      ensures t in before + inserted && (before + inserted)[t] == Directory
    {
      TargetsInside(root, known, inventory, t);
      assert Dead(known, t);
      assert q !in known && t !in known;
      AncestorsPresent(before, root, t, q);
    }
  }

  lemma InsertedKnown(root: Path, normalized: string, dirs: seq<DirectoryEntry>, files: seq<FileEntry>,
                      deleted: seq<Tombstone>, inventory: Tree, targets: set<Path>, s: Summary)
    requires AllDone(root, normalized, dirs, files, inventory, targets, s)
    requires forall d | d in dirs :: !Covered(deleted, d.rel)
    requires forall f | f in files :: !Covered(deleted, f.rel)
    ensures s.inserted.Keys <= KnownLive(root, dirs, files, deleted)
  {
    forall p | p in s.inserted ensures p in KnownLive(root, dirs, files, deleted) {
      InsertedKinds(root, normalized, dirs, files, inventory, targets, s, p);
      if s.inserted[p] == File {
        var f :| f in files && f.remote == p;
      } else if p != root {
        var d :| d in dirs && d.remote == p;
      }
    }
  }

  /** All that creates and uploads had to do has been done, and nothing else. */
  lemma AllPresent(root: Path, normalized: string, dirs: seq<DirectoryEntry>, files: seq<FileEntry>,
                   deleted: seq<Tombstone>, inventory: Tree, targets: set<Path>, s: Summary, before: Tree)
    requires LivePlanOk(root, dirs, files, deleted)
    requires AllDone(root, normalized, dirs, files, inventory, targets, s)
    requires forall p | p in inventory :: p in before && before[p] == inventory[p]
    ensures LiveKinds(root, dirs, files, before + s.inserted)
    ensures s.inserted.Keys <= KnownLive(root, dirs, files, deleted) <= (before + s.inserted).Keys
    ensures forall f | f in files :: UploadedOrReused(f, before, s)
  {
    InsertedKnown(root, normalized, dirs, files, deleted, inventory, targets, s);
    forall d | d in dirs || d == RootEntry(root, normalized) ensures HasKind(before + s.inserted, d.remote, Directory) {
      LiveDirectoryPresent(root, normalized, dirs, files, deleted, inventory, targets, s, before, d);
    }
    assert HasKind(before + s.inserted, RootEntry(root, normalized).remote, Directory);
    forall f | f in files ensures HasKind(before + s.inserted, f.remote, File) && UploadedOrReused(f, before, s) {
      LiveFilePresent(root, normalized, dirs, files, deleted, inventory, targets, s, before, f);
    }
  }

  /**
   * Before the run the remote is `before`, which holds no extra with a live path below it; the
   * plan was made from a fresh listing pruned at the tombstones, which hides no extra under a
   * live path; everything the plan asked for was done, and `after` is what the deletes left.
   */
  lemma MirrorTheorem(root: Path, normalized: string, dirs: seq<DirectoryEntry>, files: seq<FileEntry>,
                      deleted: seq<Tombstone>, before: Tree, s: Summary, after: Tree)
    requires LivePlanOk(root, dirs, files, deleted) && WellRooted(before, root)
    requires NoLiveBelowExtras(root, KnownLive(root, dirs, files, deleted), before)
    requires PrunedPrefixesDead(root, KnownLive(root, dirs, files, deleted), before, TombstonePrefixes(deleted))
    requires var known := KnownLive(root, dirs, files, deleted);
      var inventory := FreshInventory(before, root, TombstonePrefixes(deleted));
      var targets := Targets(root, known, inventory);
      && AllDone(root, normalized, dirs, files, inventory, targets, s)
      && (Removable(before + s.inserted, targets) ==> after == WithoutSubtrees(before + s.inserted, targets))
    ensures var known := KnownLive(root, dirs, files, deleted);
      Mirrored(root, dirs, files, known, Targets(root, known, before), before, after)
    ensures forall f | f in files :: UploadedOrReused(f, before, s)
  {
    var known := KnownLive(root, dirs, files, deleted);
    var inventory := FreshInventory(before, root, TombstonePrefixes(deleted));
    var targets := Targets(root, known, inventory);
    SafeIff(root, known, before);
    SafeIff(root, known, inventory);
    AllPresent(root, normalized, dirs, files, deleted, inventory, targets, s, before);
    TargetsRemovable(root, known, inventory, before, s.inserted);
    FreshTargets(root, dirs, files, deleted, before);
    MirrorContents(root, dirs, files, deleted, before, s.inserted, targets, after);
  }

  lemma MirrorContents(root: Path, dirs: seq<DirectoryEntry>, files: seq<FileEntry>, deleted: seq<Tombstone>,
                       before: Tree, inserted: Tree, targets: set<Path>, after: Tree)
    requires Mapped(root, dirs, files)
    requires var known := KnownLive(root, dirs, files, deleted);
      && targets == Targets(root, known, before) && Safe(root, known, before)
      && inserted.Keys <= known <= (before + inserted).Keys
    requires LiveKinds(root, dirs, files, before + inserted)
    requires forall d | d in dirs :: !Covered(deleted, d.rel)
    requires forall f | f in files :: !Covered(deleted, f.rel)
    requires after == WithoutSubtrees(before + inserted, targets)
    ensures Mirrored(root, dirs, files, KnownLive(root, dirs, files, deleted), targets, before, after)
  {
    var known := KnownLive(root, dirs, files, deleted);
    forall k | k in known ensures !CoveredBy(k, targets) && root <= k {
      if k != root {
        var rel := LiveRel(root, dirs, files, deleted, k);
      }
    }
    forall p | root <= p && p !in known
      ensures p in after <==> p in before && HasPhantomSegment(p[|root|..]) && !CoveredBy(p, targets)
    {
      if p in before && !HasPhantomSegment(p[|root|..]) {
        assert p != root;
        TargetsCover(root, known, before, p);
      }
    }
    forall p | !(root <= p) ensures p in after <==> p in before {
      if t :| t in targets && t <= p {
        TargetsInside(root, known, before, t);
        PrefixTransitive(root, t, p);
      }
    }
  }

  /** The premises can be met: a new file at the top of any well-formed managed root is mirrored. */
  lemma NewFileIsMirrored(root: Path, normalized: string, f: FileEntry, before: Tree) returns (s: Summary, after: Tree)
    requires |f.rel| == 1 && !Blank(f.rel[0]) && f.remote == root + Image(f.rel) && !f.fingerprint.reusedFromState
    requires HasKind(before, root, Directory) && WellRooted(before, root)
    ensures s.inserted == map[f.remote := File] && HasKind(after, f.remote, File)
    ensures var known := KnownLive(root, [], [f], []);
      Mirrored(root, [], [f], known, Targets(root, known, before), before, after)
  {
    var known, inventory := KnownLive(root, [], [f], []), FreshInventory(before, root, TombstonePrefixes([]));
    var targets := Targets(root, known, inventory);
    s := START.(done := {Upload(f.remote, f.size)}, inserted := map[f.remote := File]);
    NewFilePlan(root, f);
    LivePlanIsSafe(root, [], [f], [], before);
    NewFileDone(root, normalized, f, inventory, targets, s);
    after := WithoutSubtrees(before + s.inserted, targets);
    MirrorTheorem(root, normalized, [], [f], [], before, s, after);
    assert f in [f];
  }

  lemma NewFilePlan(root: Path, f: FileEntry)
    requires |f.rel| == 1 && !Blank(f.rel[0]) && f.remote == root + Image(f.rel)
    ensures LivePlanOk(root, [], [f], []) && LiveClosed([], [f], [])
  {
    ImageShape(f.rel);
  }

  lemma NewFileDone(root: Path, normalized: string, f: FileEntry, inventory: Tree, targets: set<Path>, s: Summary)
    requires HasKind(inventory, root, Directory) && !f.fingerprint.reusedFromState
    requires s == START.(done := {Upload(f.remote, f.size)}, inserted := map[f.remote := File])
    ensures AllDone(root, normalized, [], [f], inventory, targets, s)
  {
    var u := Upload(f.remote, f.size);
    var uploads := NeededUploads([f], inventory);
    assert UploadJob(f, HasKind(inventory, f.remote, File)) in uploads;
    assert UploadSet(uploads) == {u};
    var creates := MissingDirectories([RootEntry(root, normalized)] + [], inventory);
    assert forall d | d in creates :: d == RootEntry(root, normalized);
    assert CreateSet(creates) == {};
    assert CreateDirectory(f.remote) !in s.done;
    assert u in s.done;
  }
}
