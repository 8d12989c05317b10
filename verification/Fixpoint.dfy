/**
 * The fixpoint theorem: once a run has mirrored the local tree, scanning and planning again
 * asks for nothing.
 */
module Fixpoint {
  import opened Paths
  import opened PathMapping
  import opened LocalNames
  import opened NameMapping
  import opened Sorting
  import opened LiveScan
  import opened LiveSet
  import opened DeletePlan
  import opened DeleteSafety
  import opened RootPlan
  import opened Remote
  import opened RootRun
  import opened Mirror
  import opened RootExecution
  import opened Scanner

  function RecordOf(f: FileEntry): FileState {
    FileState(SaturateI64(f.size), f.mtime, f.normalized, f.fingerprint.kind, Some(f.fingerprint.value),
              f.fingerprint.fullSha256, f.fingerprint.localMd5)
  }

  /** Marking a row as deleted changes its status only; a new row gets placeholder values. */
  function ApplyOp(states: States, op: StateOp): States {
    match op
    case Recorded(f) => states[f.rel := RecordOf(f)]
    case MarkedDeleted(rel, text) =>
      if rel in states then states else states[rel := FileState(0, None, text, DeletedKind, None, None, None)]
  }

  function ApplyOps(states: States, ops: seq<StateOp>): States {
    if ops == [] then states else ApplyOp(ApplyOps(states, ops[..|ops| - 1]), ops[|ops| - 1])
  }

  /** A recorded file is recognised by the next scan exactly if its size is below 2^63. */
  lemma RecordMatchesIff(f: FileEntry)
    requires f.size < 2 * TWO_63
    ensures StateMatches(RecordOf(f), f.size, f.mtime, f.normalized) <==> f.size < TWO_63
  {
    SizeRoundTripIff(f.size);
  }

  lemma {:induction false} StateKept(states: States, ops: seq<StateOp>, f: FileEntry)
    requires f.size < TWO_63
    requires forall op | op in ops && op.Recorded? && op.file.rel == f.rel :: op.file == f
    requires Recorded(f) in ops || (f.rel in states && StateMatches(states[f.rel], f.size, f.mtime, f.normalized))
    ensures f.rel in ApplyOps(states, ops)
    ensures StateMatches(ApplyOps(states, ops)[f.rel], f.size, f.mtime, f.normalized)
  {
    if ops != [] {
      var last, rest := ops[|ops| - 1], ops[..|ops| - 1];
      assert ops == rest + [last];
      if last.Recorded? && last.file.rel == f.rel {
        assert last.file == f;
        RecordMatchesIff(f);
      } else {
        assert Recorded(f) in ops ==> Recorded(f) in rest;
        StateKept(states, rest, f);
      }
    }
  }

  lemma {:induction false} RecordedRow(states: States, ops: seq<StateOp>, f: FileEntry)
    requires Recorded(f) in ops && forall op | op in ops && op.Recorded? && op.file.rel == f.rel :: op.file == f
    ensures f.rel in ApplyOps(states, ops) && ApplyOps(states, ops)[f.rel] == RecordOf(f)
  {
    var last, rest := ops[|ops| - 1], ops[..|ops| - 1];
    assert ops == rest + [last];
    if last != Recorded(f) {
      RecordedRow(states, rest, f);
    }
  }

  /**
   * The change law: once a run has recorded a file, a scan of a tree in which it has another
   * size or another modification time reports it, if at all, with a new fingerprint, and it
   * is uploaded whatever the remote holds.
   */
  lemma ChangedFileIsUploaded(cfg: Settings, local: LocalTree, states: States, ops: seq<StateOp>, f: FileEntry,
                              files: seq<FileEntry>, g: FileEntry, inventory: Tree)
    requires f.rel == RelOf(f.local) && f.size < TWO_63
    requires Recorded(f) in ops && forall op | op in ops && op.Recorded? && op.file.rel == f.rel :: op.file == f
    requires FilesAre(cfg, local, ApplyOps(states, ops), files, ReachedSet(cfg, local))
    requires g in files && g.local == f.local && local[f.local].size < TWO_63
    requires local[f.local].size != f.size || local[f.local].mtime != f.mtime
    ensures !g.fingerprint.reusedFromState
    ensures exists j | j in NeededUploads(files, inventory) :: j.file == g
  {
    RecordedRow(states, ops, f);
    ReusedIff(cfg, ApplyOps(states, ops), f.local, local[f.local].size, local[f.local].mtime);
    assert UploadJob(g, HasKind(inventory, g.remote, File)) in NeededUploads(files, inventory);
  }

  /** And if neither has changed, the recorded fingerprint comes back as it was. */
  lemma RecordedFingerprint(cfg: Settings, local: LocalTree, states: States, ops: seq<StateOp>, f: FileEntry,
                            files: seq<FileEntry>, g: FileEntry)
    requires f.rel == RelOf(f.local) && f.size < TWO_63 && f.normalized == cfg.normalize(cfg.root + Image(f.rel))
    requires Recorded(f) in ops && forall op | op in ops && op.Recorded? && op.file.rel == f.rel :: op.file == f
    requires FilesAre(cfg, local, ApplyOps(states, ops), files, ReachedSet(cfg, local))
    requires g in files && g.local == f.local && local[f.local].size == f.size && local[f.local].mtime == f.mtime
    ensures g.fingerprint == f.fingerprint.(reusedFromState := true)
  {
    RecordedRow(states, ops, f);
    ReusedIff(cfg, ApplyOps(states, ops), f.local, f.size, f.mtime);
  }

  /** The table after a run that uploaded what is in `done`: those files are recorded, no other file is. */
  ghost predicate RunRecorded(files: seq<FileEntry>, done: set<Request>, ops: seq<StateOp>) {
    && (forall f | f in files && Upload(f.remote, f.size) in done :: Recorded(f) in ops)
    && (forall op | op in ops && op.Recorded? :: op.file in files)
  }

  /** The file at p would be reported if a fingerprint were at hand. */
  predicate Wanted(cfg: Settings, local: LocalTree, p: Path) {
    && Reached(cfg, local, p) && local[p].LocalFile? && !cfg.excluded(p, false)
    && cfg.readable(p) && Maps(RelOf(p)) && local[p].size <= cfg.maxFileSize
  }

  predicate Fingerprinted(cfg: Settings, local: LocalTree, p: Path)
    requires p in local && local[p].LocalFile?
  {
    FingerprintFor(cfg, p, local[p].size, local[p].mtime).Some?
  }

  /**
   * The sizes of reported files fit a signed 64-bit number, and one whose fingerprint cannot
   * be computed is not empty or has a modification time, and shares its relative path with
   * no other.
   */
  ghost predicate Healthy(cfg: Settings, local: LocalTree) {
    && (forall p | Wanted(cfg, local, p) ::
          local[p].size < TWO_63 && (Fingerprinted(cfg, local, p) || local[p].size > 0 || local[p].mtime.Some?))
    && (forall p, q | Wanted(cfg, local, p) && !Fingerprinted(cfg, local, p) && Wanted(cfg, local, q) && q != p ::
          RelOf(q) != RelOf(p))
  }

  /** No two entries share a relative path. */
  ghost predicate DistinctFiles(files: seq<FileEntry>) {
    forall f, g | f in files && g in files && f.rel == g.rel :: f == g
  }

  /** The recorded row of a path is the one of the file there now. */
  predicate RowFits(cfg: Settings, local: LocalTree, states: States, p: Path)
    requires p in local && local[p].LocalFile?
  {
    var rel := RelOf(p);
    rel in states && StateMatches(states[rel], local[p].size, local[p].mtime, NormalizedOf(cfg, rel))
  }

  /** A run that does not record the path leaves open whether its row fits. */
  lemma RowKept(cfg: Settings, local: LocalTree, states: States, ops: seq<StateOp>, p: Path)
    requires p in local && local[p].LocalFile?
    requires 0 < local[p].size < TWO_63 || local[p].mtime.Some?
    requires forall op | op in ops && op.Recorded? :: op.file.rel != RelOf(p)
    ensures RowFits(cfg, local, ApplyOps(states, ops), p) <==> RowFits(cfg, local, states, p)
  {
    MatchKept(states, ops, RelOf(p), local[p].size, local[p].mtime, NormalizedOf(cfg, RelOf(p)));
  }

  lemma {:induction false} MatchKept(states: States, ops: seq<StateOp>, rel: Path, size: nat, mtime: Option<int>,
                                     normalized: string)
    requires 0 < size < TWO_63 || mtime.Some?
    requires forall op | op in ops && op.Recorded? :: op.file.rel != rel
    ensures var after := ApplyOps(states, ops);
      (rel in after && StateMatches(after[rel], size, mtime, normalized))
      <==> (rel in states && StateMatches(states[rel], size, mtime, normalized))
  {
    if ops != [] {
      assert ops == ops[..|ops| - 1] + [ops[|ops| - 1]];
      MatchKept(states, ops[..|ops| - 1], rel, size, mtime, normalized);
    }
  }

  predicate SameFile(f: FileEntry, g: FileEntry) {
    && f.local == g.local && f.rel == g.rel && f.remote == g.remote && f.normalized == g.normalized
    && f.size == g.size && f.mtime == g.mtime
  }

  /** The entry of a wanted file is there exactly if its row fits or its fingerprint can be computed. */
  lemma LiveIff(cfg: Settings, local: LocalTree, states: States, p: Path)
    requires Wanted(cfg, local, p)
    ensures var live := LiveFile(cfg, local, states, p);
      && (live.Some? <==> RowFits(cfg, local, states, p) || Fingerprinted(cfg, local, p))
      && (live.Some? ==> (live.value.fingerprint.reusedFromState <==> RowFits(cfg, local, states, p)))
  {
  }

  lemma UnwantedIsNotLive(cfg: Settings, local: LocalTree, states: States, p: Path)
    requires Reached(cfg, local, p) && !Wanted(cfg, local, p)
    ensures LiveFile(cfg, local, states, p).None?
  {
  }

  /** A wanted file without fingerprint whose row did not fit is recorded under no name of its own. */
  lemma NotRecorded(cfg: Settings, local: LocalTree, before: States, ops: seq<StateOp>, done: set<Request>,
                    files: seq<FileEntry>, p: Path)
    requires Healthy(cfg, local) && Wanted(cfg, local, p) && LiveFile(cfg, local, before, p).None?
    requires FilesAre(cfg, local, before, files, ReachedSet(cfg, local)) && RunRecorded(files, done, ops)
    ensures forall op | op in ops && op.Recorded? :: op.file.rel != RelOf(p)
  {
    LiveIff(cfg, local, before, p);
    forall op | op in ops && op.Recorded? ensures op.file.rel != RelOf(p) {
      var f := op.file;
      assert f in files && LiveFile(cfg, local, before, f.local) == Some(f);
      FileFacts(cfg, local, before, f);
      if !Wanted(cfg, local, f.local) {
        UnwantedIsNotLive(cfg, local, before, f.local);
      }
    }
  }

  /**
   * Whether an entry is live, and what it is apart from its fingerprint, does not depend on
   * what the run wrote; of a live file the row fits if it was recorded or had fitted before.
   */
  lemma SameLiveFile(cfg: Settings, local: LocalTree, before: States, ops: seq<StateOp>, done: set<Request>,
                     files: seq<FileEntry>, p: Path)
    requires Healthy(cfg, local) && Reached(cfg, local, p) && DistinctFiles(files)
    requires FilesAre(cfg, local, before, files, ReachedSet(cfg, local)) && RunRecorded(files, done, ops)
    ensures var a, b := LiveFile(cfg, local, before, p), LiveFile(cfg, local, ApplyOps(before, ops), p);
      && (a.Some? <==> b.Some?)
      && (a.Some? ==> SameFile(a.value, b.value))
      && (a.Some? && (Recorded(a.value) in ops || a.value.fingerprint.reusedFromState) ==>
            b.value.fingerprint.reusedFromState)
  {
    var after := ApplyOps(before, ops);
    if !Wanted(cfg, local, p) {
      UnwantedIsNotLive(cfg, local, before, p);
      UnwantedIsNotLive(cfg, local, after, p);
    } else {
      LiveIff(cfg, local, before, p);
      LiveIff(cfg, local, after, p);
      var live := LiveFile(cfg, local, before, p);
      if live.None? {
        NotRecorded(cfg, local, before, ops, done, files, p);
        RowKept(cfg, local, before, ops, p);
      } else if Recorded(live.value) in ops || RowFits(cfg, local, before, p) {
        assert live.value in files;
        FileFacts(cfg, local, before, live.value);
        StateKept(before, ops, live.value);
      }
    }
  }

  /** The second scan finds the same entries and reuses every fingerprint. */
  lemma RescanReuses(cfg: Settings, local: LocalTree, before: States, ops: seq<StateOp>, done: set<Request>,
                     files: seq<FileEntry>, again: seq<FileEntry>, g: FileEntry)
    requires Healthy(cfg, local) && DistinctFiles(files)
    requires FilesAre(cfg, local, before, files, ReachedSet(cfg, local))
    requires FilesAre(cfg, local, ApplyOps(before, ops), again, ReachedSet(cfg, local))
    requires RunRecorded(files, done, ops)
    requires forall f | f in files :: Upload(f.remote, f.size) in done || f.fingerprint.reusedFromState
    requires g in again
    ensures g.fingerprint.reusedFromState
    ensures exists f | f in files :: SameFile(f, g)
  {
    SameLiveFile(cfg, local, before, ops, done, files, g.local);
    var f := LiveFile(cfg, local, before, g.local).value;
    assert f in files && SameFile(f, g);
  }

  /**
   * The files left out of Healthy: when a path is marked as deleted, a file there that could
   * not be fingerprinted becomes live by the placeholder row exactly if the path had no row,
   * the file is empty and without modification time, and its remote text is normalised.  If
   * the remote file is gone, the next run uploads it.
   */
  lemma RevivedIff(cfg: Settings, local: LocalTree, before: States, p: Path, text: string, inventory: Tree)
    requires Wanted(cfg, local, p) && local[p].size < 2 * TWO_63 && LiveFile(cfg, local, before, p).None?
    ensures var rel := RelOf(p);
      var live := LiveFile(cfg, local, ApplyOp(before, MarkedDeleted(rel, text)), p);
      && (live.Some? <==>
            rel !in before && local[p].size == 0 && local[p].mtime.None? && text == NormalizedOf(cfg, rel))
      && (live.Some? ==> (NeedsUpload(live.value, inventory) <==> !HasKind(inventory, live.value.remote, File)))
  {
    LiveIff(cfg, local, before, p);
    LiveIff(cfg, local, ApplyOp(before, MarkedDeleted(RelOf(p), text)), p);
    assert WrapI64(local[p].size) == 0 <==> local[p].size == 0;
  }

  /** An input with such a file: the first scan reports nothing, so its remote file goes; the second one reports it. */
  lemma EmptyFileRevived(cfg: Settings, local: LocalTree)
    requires cfg.root == ["disk:", "r"] && local == map[["e"] := LocalFile(0, None)]
    requires forall p, d :: !cfg.excluded(p, d)
    requires forall p :: cfg.readable(p) && cfg.hash(p).None?
    requires cfg.normalize(["disk:", "r", "e"]) == "disk:/r/e"
    ensures LiveFile(cfg, local, map[], ["e"]).None?
    ensures ["disk:", "r", "e"] in Targets(cfg.root, KnownLive(cfg.root, [], [], []), map[["disk:", "r", "e"] := File])
    ensures var live := LiveFile(cfg, local, ApplyOp(map[], MarkedDeleted(["e"], "disk:/r/e")), ["e"]);
      live.Some? && NeedsUpload(live.value, map[])
  {
    var p: Path := ["e"];
    PlainE();
    OrdinaryRel(p);
    assert RemoteOf(cfg, p) == ["disk:", "r", "e"];
    assert Reached(cfg, local, p) && Wanted(cfg, local, p);
    RevivedIff(cfg, local, map[], p, "disk:/r/e", map[]);
    LoneExtra(cfg.root, p);
  }

  lemma PlainE()
    ensures Maps(["e"]) && Image(["e"]) == ["e"] && Sanitized(["e"]) == ["e"]
  {
    assert "e"[1..] == "" && TrimEnd("e") == "e" && FilterSegment("e") == "e";
    assert Cut(["e"]) == ["e"];
  }

  /** On an empty live tree, whatever lies below the root is deleted. */
  lemma LoneExtra(root: Path, rel: Path)
    requires rel == ["e"]
    ensures root + rel in Targets(root, KnownLive(root, [], [], []), map[root + rel := File])
  {
    var known, extra := KnownLive(root, [], [], []), root + rel;
    assert known == {root} && extra[|root|..] == rel;
    PlainE();
    SanitizedNotPhantom(rel);
    var inventory: Tree := map[extra := File];
    assert extra in inventory && Extra(root, known, extra);
    TargetFacts(root, known, extra);
    assert Target(root, known, extra) in Targets(root, known, inventory);
    assert Target(root, known, extra) == extra by {
      assert |extra| == |root| + 1;
    }
  }

  /** The second scan finds the same files. */
  lemma SameFiles(cfg: Settings, local: LocalTree, before: States, ops: seq<StateOp>, done: set<Request>,
                  files: seq<FileEntry>, files': seq<FileEntry>)
    requires Healthy(cfg, local) && RunRecorded(files, done, ops) && DistinctFiles(files)
    requires FilesAre(cfg, local, before, files, ReachedSet(cfg, local))
    requires FilesAre(cfg, local, ApplyOps(before, ops), files', ReachedSet(cfg, local))
    ensures forall f | f in files :: exists g | g in files' :: g.remote == f.remote
    ensures forall g | g in files' :: exists f | f in files :: f.remote == g.remote
  {
    forall f | f in files ensures exists g | g in files' :: g.remote == f.remote {
      SameLiveFile(cfg, local, before, ops, done, files, f.local);
      var g := LiveFile(cfg, local, ApplyOps(before, ops), f.local).value;
      FileFacts(cfg, local, ApplyOps(before, ops), g);
      assert g in files';
    }
    forall g | g in files' ensures exists f | f in files :: f.remote == g.remote {
      SameLiveFile(cfg, local, before, ops, done, files, g.local);
      var f := LiveFile(cfg, local, before, g.local).value;
      FileFacts(cfg, local, before, f);
      assert f in files;
    }
  }

  lemma SameKnown(root: Path, dirs: seq<DirectoryEntry>, files: seq<FileEntry>,
                  dirs': seq<DirectoryEntry>, files': seq<FileEntry>)
    requires forall d :: d in dirs <==> d in dirs'
    requires forall f | f in files :: exists g | g in files' :: g.remote == f.remote
    requires forall g | g in files' :: exists f | f in files :: f.remote == g.remote
    ensures KnownLive(root, dirs, files, []) == KnownLive(root, dirs', files', [])
  {
    assert forall rel :: !Covered([], rel);
  }

  lemma {:induction false} NothingMissing(dirs: seq<DirectoryEntry>, inventory: Tree)
    requires forall d | d in dirs :: HasKind(inventory, d.remote, Directory)
    ensures MissingDirectories(dirs, inventory) == []
  {
    if dirs != [] {
      NothingMissing(dirs[..|dirs| - 1], inventory);
    }
  }

  lemma {:induction false} NothingNeeded(files: seq<FileEntry>, inventory: Tree)
    requires forall f | f in files :: !NeedsUpload(f, inventory)
    ensures NeededUploads(files, inventory) == []
  {
    if files != [] {
      NothingNeeded(files[..|files| - 1], inventory);
    }
  }

  /**
   * After a run that mirrored the scan, a second scan of the unchanged local tree plans no
   * creates, no uploads and no deletes against a fresh listing.
   */
  lemma FixpointTheorem(cfg: Settings, local: LocalTree, before: States, ops: seq<StateOp>, done: set<Request>,
                        dirs: seq<DirectoryEntry>, files: seq<FileEntry>,
                        dirs': seq<DirectoryEntry>, files': seq<FileEntry>,
                        targets: set<Path>, disk: Tree, after: Tree, normalized: string)
    requires Healthy(cfg, local) && DistinctFiles(files)
    requires DirsAre(cfg, local, dirs, ReachedSet(cfg, local)) && DirsAre(cfg, local, dirs', ReachedSet(cfg, local))
    requires FilesAre(cfg, local, before, files, ReachedSet(cfg, local))
    requires FilesAre(cfg, local, ApplyOps(before, ops), files', ReachedSet(cfg, local))
    requires RunRecorded(files, done, ops)
    requires forall f | f in files :: Upload(f.remote, f.size) in done || f.fingerprint.reusedFromState
    requires Mirrored(cfg.root, dirs, files, KnownLive(cfg.root, dirs, files, []), targets, disk, after)
    ensures var inventory := FreshInventory(after, cfg.root, {});
      && MissingDirectories([RootEntry(cfg.root, normalized)] + dirs', inventory) == []
      && NeededUploads(files', inventory) == []
      && Targets(cfg.root, KnownLive(cfg.root, dirs', files', []), inventory) == {}
  {
    ReportEntries(cfg, local, before, dirs, files);
    forall g | g in files' ensures g.fingerprint.reusedFromState {
      RescanReuses(cfg, local, before, ops, done, files, files', g);
    }
    SameFiles(cfg, local, before, ops, done, files, files');
    SameKnown(cfg.root, dirs, files, dirs', files');
    SecondPlanEmpty(cfg.root, normalized, dirs, files, dirs', files', targets, disk, after);
  }

  /** The same entries, all of them known, need nothing on a remote that mirrors them. */
  lemma SecondPlanEmpty(root: Path, normalized: string, dirs: seq<DirectoryEntry>, files: seq<FileEntry>,
                        dirs': seq<DirectoryEntry>, files': seq<FileEntry>, targets: set<Path>, disk: Tree, after: Tree)
    requires Mapped(root, dirs, files) && forall d | d in dirs' :: d in dirs
    requires forall g | g in files' :: g.fingerprint.reusedFromState && exists f | f in files :: f.remote == g.remote
    requires KnownLive(root, dirs, files, []) == KnownLive(root, dirs', files', [])
    requires Mirrored(root, dirs, files, KnownLive(root, dirs, files, []), targets, disk, after)
    ensures var inventory := FreshInventory(after, root, {});
      && MissingDirectories([RootEntry(root, normalized)] + dirs', inventory) == []
      && NeededUploads(files', inventory) == []
      && Targets(root, KnownLive(root, dirs', files', []), inventory) == {}
  {
    var inventory := FreshInventory(after, root, {});
    assert forall p | root <= p :: p in after <==> p in inventory;
    forall d | d in [RootEntry(root, normalized)] + dirs' ensures HasKind(inventory, d.remote, Directory) {
      assert d == RootEntry(root, normalized) || d in dirs;
    }
    NothingMissing([RootEntry(root, normalized)] + dirs', inventory);
    forall g | g in files' ensures !NeedsUpload(g, inventory) {
      var f :| f in files && f.remote == g.remote;
    }
    NothingNeeded(files', inventory);
    assert forall p | p in inventory :: root <= p && p in after;
  }

  // ----- from the scan through the run to the next plan

  /** What the scanner reports is what the execution of a root relies on. */
  lemma ScanSuitsExecution(cfg: Settings, local: LocalTree, states: States, dirs: seq<DirectoryEntry>,
                           files: seq<FileEntry>, input: RootInput)
    requires DirsFit(cfg, local, dirs, ReachedSet(cfg, local))
    requires FilesFit(cfg, local, states, files, ReachedSet(cfg, local))
    requires input.root == cfg.root && input.scan == Scanned(dirs, files)
    ensures ScannerFacts(input)
  {
    ReportIsClosed(cfg, local, states, dirs, files);
  }

  /** A view without tombstones holds exactly the scanned entries. */
  lemma WholeView(cfg: Settings, local: LocalTree, states: States, input: RootInput, v: View)
    requires input.scan.Scanned? && ViewFits(input, v) && v.deleted == []
    requires DirsAre(cfg, local, input.scan.dirs, ReachedSet(cfg, local))
    requires FilesAre(cfg, local, states, input.scan.files, ReachedSet(cfg, local))
    ensures DirsAre(cfg, local, v.dirs, ReachedSet(cfg, local))
      && FilesAre(cfg, local, states, v.files, ReachedSet(cfg, local))
  {
    LiveFilesMembers(input.scan.files, v.deleted);
    assert forall rel :: !Covered(v.deleted, rel);
  }

  lemma DistinctFromRemotes(root: Path, dirs: seq<DirectoryEntry>, files: seq<FileEntry>)
    requires Mapped(root, dirs, files)
    requires forall i, j | 0 <= i < j < |files| :: files[i].remote != files[j].remote
    ensures DistinctFiles(files)
  {
  }

  /** The log of a run records what it uploaded, and no file twice. */
  lemma LogRecords(run: Run)
    requires run.Valid()
    requires forall i, j | 0 <= i < j < |run.plan.files| :: run.plan.files[i].remote != run.plan.files[j].remote
    ensures RunRecorded(run.plan.files, run.s.done, run.log)
  {
    var files := run.plan.files;
    forall f | f in files && Upload(f.remote, f.size) in run.s.done ensures Recorded(f) in run.log {
      DoneAnswered(run.trace, Upload(f.remote, f.size));
      var excused :| Joined(Upload(f.remote, f.size), Done, excused) in run.trace;
      var e := Joined(Upload(f.remote, f.size), Done, excused);
      assert MustWrite(run.inventory, e);
      var op :| op in run.log && Writes(run.root, run.inventory, files, e, op);
      assert op.file in files && op.file.remote == f.remote;
      assert op.file == f;
    }
  }

  /**
   * A clean run of a root, then a second scan of the same local tree with the file states the
   * run wrote, and a fresh listing of the disk it left: nothing is left to do.
   */
  lemma NothingLeftAfterRun(run: Run, input: RootInput, v: View, available: Option<nat>, disk: Tree, cfg: Settings,
                            local: LocalTree, before: States, dirs': seq<DirectoryEntry>, files': seq<FileEntry>)
    requires input.root == cfg.root && ViewFits(input, v) && v.deleted == []
    requires DirsAre(cfg, local, input.scan.dirs, ReachedSet(cfg, local))
    requires FilesAre(cfg, local, before, input.scan.files, ReachedSet(cfg, local))
    requires MayRun(input, v, available) && RunOf(run, input, v, available, disk)
    requires RunMirrors(run, v, disk) && run.plan.deleted == []
    requires Healthy(cfg, local)
    requires DirsAre(cfg, local, dirs', ReachedSet(cfg, local))
    requires FilesAre(cfg, local, ApplyOps(before, run.log), files', ReachedSet(cfg, local))
    ensures var inventory := FreshInventory(run.remote, cfg.root, {});
      && MissingDirectories([RootEntry(cfg.root, input.normalized)] + dirs', inventory) == []
      && NeededUploads(files', inventory) == []
      && Targets(cfg.root, KnownLive(cfg.root, dirs', files', []), inventory) == {}
  {
    WholeView(cfg, local, before, input, v);
    ReportIsClosed(cfg, local, before, v.dirs, v.files);
    NoCollisionDistinctRemotes(v.dirs, v.files);
    LogRecords(run);
    DistinctFromRemotes(cfg.root, v.dirs, v.files);
    FixpointTheorem(cfg, local, before, run.log, run.s.done, v.dirs, v.files, dirs', files',
                    Targets(run.root, FinalKnown(run), disk), disk, run.remote, input.normalized);
  }

  /**
   * A skipped upload is recorded like a finished one.  The next run tries it again exactly
   * if the remote has no file there: an outdated remote file stays.
   */
  lemma SkippedUploadRetriedIff(cfg: Settings, f: FileEntry, states: States, inventory: Tree)
    requires f.rel == RelOf(f.local) && Maps(f.rel) && cfg.readable(f.local)
    requires f.size < TWO_63 && f.size <= cfg.maxFileSize
    requires f.remote == RemoteOf(cfg, f.rel) && f.normalized == NormalizedOf(cfg, f.rel)
    ensures var next := FileEntryOf(cfg, ApplyOp(states, Recorded(f)), f.local, f.size, f.mtime);
      next.Some? && (NeedsUpload(next.value, inventory) <==> !HasKind(inventory, f.remote, File))
  {
    RecordMatchesIff(f);
  }
}
