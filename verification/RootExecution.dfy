/**
 * One sync run over its roots.  For each root: the guards, the plan, the three phases.
 * The quota of the disk is shared by the roots.
 */
module RootExecution {
  import opened Paths
  import opened PathMapping
  import opened LocalNames
  import opened NameMapping
  import opened Sorting
  import opened LiveScan
  import opened LiveSet
  import opened DeletePlan
  import opened DeleteSafety
  import opened RootPlan
  import opened Remote
  import opened RootRun
  import opened Scanner
  import opened Mirror

  datatype ScanOutcome = ScanFailed | Scanned(dirs: seq<DirectoryEntry>, files: seq<FileEntry>)

  datatype InventoryOutcome = Loaded(resources: Tree, fromCache: bool) | InventoryFailed(kind: ErrorKind)

  /**
   * A configured root and what its environment answers: whether the local root is there,
   * the scan, which scanned directories are still there, the inventory for the pruned
   * prefixes asked for, and the file system while the phases run.
   */
  datatype RootInput = RootInput(root: Path, normalized: string, present: bool, scan: ScanOutcome,
                                 isDir: Path -> bool, list: set<Path> -> InventoryOutcome, world: World)

  datatype Limits = Limits(createConcurrency: nat, uploadConcurrency: nat, largeThreshold: nat)

  /** The live plan at the moment the guards are checked. */
  datatype View = View(dirs: seq<DirectoryEntry>, files: seq<FileEntry>, deleted: seq<Tombstone>)

  const TWO_64: nat := 0x1_0000_0000_0000_0000

  /** The planned upload size, an unsigned 64-bit sum. */
  function PlannedBytes(jobs: seq<UploadJob>): nat {
    JobBytes(jobs) % TWO_64
  }

  function FileBytes(files: seq<FileEntry>): nat {
    if files == [] then 0 else FileBytes(files[..|files| - 1]) + files[|files| - 1].size
  }

  /** What the scanner guarantees of a report. */
  ghost predicate ScannerFacts(input: RootInput) {
    input.scan.Scanned? ==>
      && Named(input.scan.dirs, input.scan.files)
      && Mapped(input.root, input.scan.dirs, input.scan.files)
      && NormalizedFromRemote(input.scan.dirs, input.scan.files)
  }

  ghost predicate ViewFits(input: RootInput, v: View) {
    && input.scan.Scanned?
    && RetainedFrom(v.dirs, v.files, v.deleted, input.scan.dirs, input.scan.files)
    && FromScanned(input.scan.dirs, v.deleted)
  }

  function Listing(input: RootInput, v: View): InventoryOutcome {
    input.list(TombstonePrefixes(v.deleted))
  }

  ghost predicate FitsQuota(input: RootInput, v: View, available: Option<nat>)
    requires Listing(input, v).Loaded?
  {
    available.Some? ==> PlannedBytes(NeededUploads(v.files, Listing(input, v).resources)) <= available.value
  }

  /** All guards pass: no collision, the inventory is there, the uploads fit the quota. */
  ghost predicate MayRun(input: RootInput, v: View, available: Option<nat>) {
    && Distinct(Keys(v.dirs, v.files))
    && Listing(input, v).Loaded?
    && FitsQuota(input, v, available)
  }

  /** Only a stop error of the inventory or the quota ends the whole run before the phases. */
  ghost predicate StopsRun(input: RootInput, v: View, available: Option<nat>) {
    && Distinct(Keys(v.dirs, v.files))
    && (if Listing(input, v).Loaded? then !FitsQuota(input, v, available) else EndsRuns(Listing(input, v).kind))
  }

  /** The fact that a guard stands for. */
  ghost predicate GuardHolds(input: RootInput, v: View, available: Option<nat>, g: Guard) {
    match g
    case LocalRootPresent => input.present
    case ScanSucceeded => input.scan.Scanned?
    case NoCollision => Distinct(Keys(v.dirs, v.files))
    case InventoryLoaded => Listing(input, v).Loaded?
    case QuotaSufficient => Listing(input, v).Loaded? && FitsQuota(input, v, available)
  }

  ghost function TrueGuards(input: RootInput, v: View, available: Option<nat>): set<Guard> {
    set g | g in ALL_GUARDS && GuardHolds(input, v, available, g)
  }

  // ----- what a trace leaves alone

  predicate SameAt(a: Tree, b: Tree, p: Path) {
    (p in a <==> p in b) && (p in a && p in b ==> a[p] == b[p])
  }

  lemma AnsweredGrows(s: Summary, e: Event)
    ensures s.answered <= After(s, e).answered
    ensures e.Joined? ==> e.answered in After(s, e).answered
  {
  }

  /** Only a delete at or above k removes it. */
  lemma EffectKeeps(t: Tree, e: Event, k: Path)
    requires k in t && (e.Joined? && e.answered.DeletePermanently? ==> !(e.answered.path <= k))
    ensures k in Effect(t, e)
  {
  }

  /** The requests of a root stay inside it, so nothing outside changes. */
  lemma {:induction false} OutsideUntouched(initial: Tree, trace: Trace, root: Path, p: Path)
    requires forall r | r in Summarize(trace).answered :: root <= r.path
    requires !(root <= p)
    ensures var remote := Replay(initial, trace);
      (p in initial <==> p in remote) && (p in initial ==> initial[p] == remote[p])
  {
    if trace != [] {
      var before, e := trace[..|trace| - 1], trace[|trace| - 1];
      LastEvent(trace);
      AnsweredGrows(Summarize(before), e);
      OutsideUntouched(initial, before, root, p);
      if e.Joined? {
        assert root <= e.answered.path;
        assert !(e.answered.path <= p);
      }
    }
  }

  /** A path that no delete is at or above survives, whatever else a trace did. */
  lemma {:induction false} LiveKept(initial: Tree, trace: Trace, k: Path)
    requires forall p | DeletePermanently(p) in Summarize(trace).answered :: !(p <= k)
    requires k in initial
    ensures k in Replay(initial, trace)
  {
    if trace != [] {
      var before, e := trace[..|trace| - 1], trace[|trace| - 1];
      LastEvent(trace);
      AnsweredGrows(Summarize(before), e);
      LiveKept(initial, before, k);
      EffectKeeps(Replay(initial, before), e, k);
    }
  }

  /** The planned creates and uploads of entries that are still there when their turn comes. */
  function Allowed(world: World, creates: seq<DirectoryEntry>, uploads: seq<UploadJob>): set<Request> {
    AllowedCreates(world, creates) + AllowedUploads(world, uploads)
  }

  /** All requests of a run come from its plan and the deletes of its final live set. */
  ghost predicate RequestsPlanned(run: Run, creates: seq<DirectoryEntry>, uploads: seq<UploadJob>)
    reads run, run.plan
  {
    run.s.issued + run.s.answered <= Allowed(run.world, creates, uploads) + DeleteSet(run.DeleteTargets())
  }

  ghost function FinalKnown(run: Run): set<Path>
    reads run, run.plan
  {
    KnownLive(run.root, run.plan.directories, run.plan.files, run.plan.deleted)
  }

  /** For all names: deletes stay strictly inside the root, and nothing outside changes. */
  lemma RunStaysInside(run: Run, creates: seq<DirectoryEntry>, uploads: seq<UploadJob>)
    requires run.Valid() && RequestsPlanned(run, creates, uploads)
    requires forall d | d in creates :: run.root <= d.remote
    requires forall j | j in uploads :: run.root <= j.file.remote
    ensures forall p | DeletePermanently(p) in run.s.issued :: run.root < p
    ensures forall p | !(run.root <= p) :: SameAt(run.initial, run.remote, p)
  {
    forall t | t in run.DeleteTargets() ensures run.root < t {
      TargetsInside(run.root, FinalKnown(run), run.inventory, t);
    }
    forall p | !(run.root <= p) ensures SameAt(run.initial, run.remote, p) {
      OutsideUntouched(run.initial, run.trace, run.root, p);
    }
  }

  /** If no extra has a live path below it: no delete reaches a live path, and live paths stay. */
  lemma RunSparesLive(run: Run, creates: seq<DirectoryEntry>, uploads: seq<UploadJob>)
    requires run.Valid() && RequestsPlanned(run, creates, uploads)
    requires NoLiveBelowExtras(run.root, FinalKnown(run), run.inventory)
    ensures forall p | DeletePermanently(p) in run.s.issued :: Dead(FinalKnown(run), p)
    ensures forall k | k in FinalKnown(run) && k in run.initial :: k in run.remote
  {
    var known := FinalKnown(run);
    SafeIff(run.root, known, run.inventory);
    assert forall t | t in run.DeleteTargets() :: Dead(known, t);
    forall k | k in known && k in run.initial ensures k in run.remote {
      LiveKept(run.initial, run.trace, k);
    }
  }

  // ----- the phases

  function Consumed(bytes: Option<nat>): nat {
    if bytes.Some? then bytes.value else 0
  }

  /** The five guards, all of which hold, are recorded in the order in which they are checked. */
  method PassGuards(run: Run)
    requires run.Valid() && run.s == START && run.trace == [] && run.holds == ALL_GUARDS
    modifies run
    ensures run.Valid() && run.s == START.(passed := ALL_GUARDS)
    ensures run.remote == old(run.remote)
  {
    run.Emit(Passed(LocalRootPresent));
    run.Emit(Passed(ScanSucceeded));
    run.Emit(Passed(NoCollision));
    run.Emit(Passed(InventoryLoaded));
    run.Emit(Passed(QuotaSufficient));
  }

  /** All that was planned has been answered; without a failure, done. */
  ghost predicate AllAnswered(run: Run, creates: seq<DirectoryEntry>, uploads: seq<UploadJob>)
    reads run, run.plan
  {
    && (forall d | d in creates :: Handled(run.world, d, run.plan.deleted, run.s))
    && (forall j | j in uploads :: Sent(run.world, j, run.plan.deleted, run.s))
  }

  method CreateAndUpload(run: Run, creates: seq<DirectoryEntry>, uploads: seq<UploadJob>, limits: Limits)
    returns (stopped: bool, bytes: Option<nat>)
    requires run.Valid() && run.s == START.(passed := ALL_GUARDS) && run.remote == run.initial
    requires run.orderly ==> Ordered(run.root, creates, run.inventory, run.plan.deleted)
    requires Named(creates, []) && JobsOf(uploads, run.plan.files)
    modifies run, run.plan`deleted
    ensures run.Valid() && run.remote == run.initial + run.s.inserted
    ensures Grows(START.(passed := ALL_GUARDS), run.s, Allowed(run.world, creates, uploads))
    ensures TombstonesTrack(START, run.s, old(run.plan.deleted), run.plan.deleted)
    ensures run.s.uploaded == Consumed(bytes) <= JobBytes(uploads) && run.s.issuedBytes <= JobBytes(uploads)
    ensures stopped ==> run.s.stopped || run.s.cancelled
    ensures !stopped ==> Quiet(run.s) && bytes.Some? && AllAnswered(run, creates, uploads)
  {
    var stop := run.ApplyCreateDirectories(creates, limits.createConcurrency);
    if stop {
      return true, None;
    }
    var cancelled := run.Poll();
    if cancelled {
      return true, None;
    }
    var n;
    stop, n := run.ApplyUploads(uploads, limits.uploadConcurrency, limits.largeThreshold);
    if stop {
      return true, Some(n);
    }
    cancelled := run.Poll();
    return cancelled, Some(n);
  }

  /** Everything planned was done, nothing else was, and the deletes removed their subtrees. */
  ghost predicate FullyDone(run: Run, creates: seq<DirectoryEntry>, uploads: seq<UploadJob>)
    reads run, run.plan
  {
    && CreateSet(creates) <= run.s.done && UploadSet(uploads) <= run.s.done
    && run.s.done <= CreateSet(creates) + UploadSet(uploads) + DeleteSet(run.DeleteTargets())
    && (forall p: Path :: InsertedFromDone(run.s, p))
    && (Removable(run.initial + run.s.inserted, run.DeleteTargets()) ==>
          run.remote == WithoutSubtrees(run.initial + run.s.inserted, run.DeleteTargets()))
  }

  lemma AllowedPlanned(world: World, creates: seq<DirectoryEntry>, uploads: seq<UploadJob>)
    ensures Allowed(world, creates, uploads) <= CreateSet(creates) + UploadSet(uploads)
  {
  }

  /** Nothing that was planned lies under a tombstone. */
  ghost predicate Untouched(run: Run, creates: seq<DirectoryEntry>, uploads: seq<UploadJob>)
    reads run, run.plan
  {
    && (forall d | d in creates :: !Covered(run.plan.deleted, d.rel))
    && (forall j | j in uploads :: !Covered(run.plan.deleted, j.file.rel))
  }

  lemma AnsweredIsDone(run: Run, creates: seq<DirectoryEntry>, uploads: seq<UploadJob>)
    requires run.s == Summarize(run.trace) && !run.s.failed && AllAnswered(run, creates, uploads)
    requires Untouched(run, creates, uploads)
    ensures CreateSet(creates) <= run.s.done && UploadSet(uploads) <= run.s.done
    ensures forall p: Path :: InsertedFromDone(run.s, p)
  {
    forall r | r in run.s.answered && (r.CreateDirectory? || r.Upload?) ensures r in run.s.done {
      DoneMeaning(run.trace, r);
    }
    forall p: Path ensures InsertedFromDone(run.s, p) {
      InsertedMeaning(run.trace, p);
    }
  }

  /** The uploads are over: delete, unless something stopped the run. */
  method FinishWithDeletes(run: Run, creates: seq<DirectoryEntry>, uploads: seq<UploadJob>) returns (stopped: bool)
    requires run.Valid() && Quiet(run.s) && run.remote == run.initial + run.s.inserted
    requires Grows(START.(passed := ALL_GUARDS), run.s, Allowed(run.world, creates, uploads))
    requires AllAnswered(run, creates, uploads)
    modifies run
    ensures run.Valid() && RequestsPlanned(run, creates, uploads)
    ensures SameBytes(old(run.s), run.s) && (old(run.s).tombstoned ==> run.s.tombstoned)
    ensures stopped ==> run.s.stopped || run.s.cancelled
    ensures !stopped ==> Quiet(run.s) && AllAnswered(run, creates, uploads)
    ensures !stopped && !run.s.failed && run.honest ==>
      (Removable(run.initial + run.s.inserted, run.DeleteTargets()) ==>
         run.remote == WithoutSubtrees(run.initial + run.s.inserted, run.DeleteTargets()))
    ensures run.s.done <= Allowed(run.world, creates, uploads) + DeleteSet(run.DeleteTargets())
  {
    stopped := run.ApplyDeletes();
  }

  method RunPhases(run: Run, creates: seq<DirectoryEntry>, uploads: seq<UploadJob>, limits: Limits)
    returns (stopped: bool, bytes: Option<nat>)
    requires run.Valid() && run.s == START && run.trace == [] && run.holds == ALL_GUARDS
    requires run.orderly ==> Ordered(run.root, creates, run.inventory, run.plan.deleted)
    requires Named(creates, []) && JobsOf(uploads, run.plan.files)
    modifies run, run.plan`deleted
    ensures run.Valid()
    ensures RequestsPlanned(run, creates, uploads)
    ensures run.s.uploaded == Consumed(bytes) <= JobBytes(uploads) && run.s.issuedBytes <= JobBytes(uploads)
    ensures TombstonesTrack(START, run.s, old(run.plan.deleted), run.plan.deleted)
    ensures if stopped then run.s.stopped || run.s.cancelled else Quiet(run.s) && AllAnswered(run, creates, uploads)
    ensures !stopped && !run.s.failed && run.honest && !run.s.tombstoned && Untouched(run, creates, uploads) ==>
      FullyDone(run, creates, uploads)
  {
    PassGuards(run);
    stopped, bytes := CreateAndUpload(run, creates, uploads, limits);
    if stopped {
      return;
    }
    stopped := FinishWithDeletes(run, creates, uploads);
    if !stopped && !run.s.failed && run.honest && !run.s.tombstoned && Untouched(run, creates, uploads) {
      AnsweredIsDone(run, creates, uploads);
      AllowedPlanned(run.world, creates, uploads);
    }
  }

  // ----- one root

  lemma ViewFacts(input: RootInput, v: View)
    requires ScannerFacts(input) && ViewFits(input, v)
    ensures Mapped(input.root, v.dirs, v.files) && Named(v.dirs, v.files)
    ensures TombstonesMapped(input.root, v.deleted) && NormalizedFromRemote(v.dirs, v.files)
    ensures forall f | f in v.files :: !Covered(v.deleted, f.rel)
  {
    LiveFilesMembers(input.scan.files, v.deleted);
  }

  /**
   * No entry that was retained is tombstoned or stored in the place of the root.  It can be
   * when names with backslashes give two directories the same relative path, or none at all.
   */
  ghost predicate Undisturbed(input: RootInput, v: View) {
    && (forall d | d in v.dirs :: !Covered(v.deleted, d.rel)) && !Covered(v.deleted, ROOT_REL)
    && (forall f | f in v.files :: f.remote != input.root)
  }

  /** A plan without collisions meets the premises of the mirror theorem. */
  lemma ViewIsLivePlan(input: RootInput, v: View)
    requires ScannerFacts(input) && ViewFits(input, v) && Distinct(Keys(v.dirs, v.files)) && Undisturbed(input, v)
    ensures LivePlanOk(input.root, v.dirs, v.files, v.deleted)
  {
    ViewFacts(input, v);
    NoCollisionDistinctRemotes(v.dirs, v.files);
  }

  function Creates(input: RootInput, v: View, inventory: Tree): seq<DirectoryEntry> {
    MissingDirectories([RootEntry(input.root, input.normalized)] + v.dirs, inventory)
  }

  /** Parents are planned before children, and the root is not tombstoned. */
  ghost predicate OrderedView(input: RootInput, v: View) {
    ParentsRecorded(input.root, v.dirs) && !Covered(v.deleted, ROOT_REL)
  }

  /** The run object belongs to this root, this view, this quota and this disk. */
  ghost predicate RunOf(run: Run, input: RootInput, v: View, available: Option<nat>, disk: Tree)
    reads run, run.plan
  {
    && run.Valid()
    && run.root == input.root && run.world == input.world && run.initial == disk
    && run.holds == TrueGuards(input, v, available) && (run.orderly <==> OrderedView(input, v))
    && Listing(input, v) == Loaded(run.inventory, run.fromCache)
    && run.plan.directories == v.dirs && run.plan.files == v.files
    && (forall rel | Covered(v.deleted, rel) :: Covered(run.plan.deleted, rel))
    && RequestsPlanned(run, Creates(input, v, run.inventory), NeededUploads(v.files, run.inventory))
  }

  /** Whatever the names: deletes strictly inside the root only, the outside untouched. */
  ghost predicate RunInside(run: Run)
    reads run, run.plan
  {
    && (forall p | DeletePermanently(p) in run.s.issued :: run.root < p)
    && (forall p | !(run.root <= p) :: SameAt(run.initial, run.remote, p))
  }

  /** If no extra has a live path below it: deletes only dead paths, live paths kept. */
  ghost predicate RunSafe(run: Run)
    reads run, run.plan
  {
    NoLiveBelowExtras(run.root, FinalKnown(run), run.inventory) ==>
      && (forall p | DeletePermanently(p) in run.s.issued :: Dead(FinalKnown(run), p))
      && (forall k | k in FinalKnown(run) && k in run.initial :: k in run.remote)
  }

  /** When a delete is issued, the facts behind all guards hold: they were checked before. */
  lemma DeletesAreGuarded(run: Run, input: RootInput, v: View, available: Option<nat>, disk: Tree, i: nat)
    requires RunOf(run, input, v, available, disk)
    requires i < |run.trace| && run.trace[i].Issued? && run.trace[i].request.DeletePermanently?
    ensures input.present && input.scan.Scanned? && MayRun(input, v, available)
    ensures forall g: Guard :: Passed(g) in run.trace[..i]
  {
    GatedMeans(run.trace, run.fromCache, run.holds, i);
    assert {LocalRootPresent, ScanSucceeded, NoCollision, InventoryLoaded, QuotaSufficient} <= run.holds;
    assert GuardHolds(input, v, available, LocalRootPresent) && GuardHolds(input, v, available, ScanSucceeded);
    assert GuardHolds(input, v, available, NoCollision) && GuardHolds(input, v, available, InventoryLoaded);
    assert GuardHolds(input, v, available, QuotaSufficient);
  }

  lemma AllGuardsTrue(input: RootInput, v: View, available: Option<nat>)
    requires input.present && input.scan.Scanned? && MayRun(input, v, available)
    ensures TrueGuards(input, v, available) == ALL_GUARDS
  {
  }

  function ViewKnown(input: RootInput, v: View): set<Path> {
    KnownLive(input.root, v.dirs, v.files, v.deleted)
  }

  /**
   * The listing is fresh and pruned at no prefix that hides an extra under a live path, and
   * the disk is well formed and holds no extra with a live path below it.
   */
  ghost predicate CleanStart(input: RootInput, v: View, disk: Tree) {
    && ViewFits(input, v) && Undisturbed(input, v)
    && NoLiveBelowExtras(input.root, ViewKnown(input, v), disk)
    && Listing(input, v) == Loaded(FreshInventory(disk, input.root, TombstonePrefixes(v.deleted)), false)
    && WellRooted(disk, input.root)
    && PrunedPrefixesDead(input.root, ViewKnown(input, v), disk, TombstonePrefixes(v.deleted))
  }

  ghost predicate RunMirrors(run: Run, v: View, disk: Tree)
    reads run, run.plan
  {
    && Mirrored(run.root, v.dirs, v.files, FinalKnown(run), Targets(run.root, FinalKnown(run), disk), disk, run.remote)
    && (forall f | f in v.files :: UploadedOrReused(f, disk, run.s))
  }

  /**
   * A run that was not stopped, saw no failure and no false "not found", and recorded no
   * tombstone has mirrored the live tree.
   */
  ghost predicate CleanRunMirrors(run: Run, input: RootInput, v: View, disk: Tree, shouldStop: bool)
    reads run, run.plan
  {
    !shouldStop && !run.s.failed && run.honest && !run.s.tombstoned && CleanStart(input, v, disk) ==>
      RunMirrors(run, v, disk)
  }

  /** A run ends early exactly on a stop error or a cancellation; else all creates and uploads were answered. */
  ghost predicate RunEnds(run: Run, input: RootInput, v: View, shouldStop: bool)
    reads run, run.plan
  {
    && (shouldStop <==> Interrupted(run.trace))
    && (!shouldStop ==>
          Quiet(run.s) && AllAnswered(run, Creates(input, v, run.inventory), NeededUploads(v.files, run.inventory)))
  }

  lemma CompletedRunMirrors(run: Run, input: RootInput, v: View, available: Option<nat>, disk: Tree)
    requires ScannerFacts(input) && RunOf(run, input, v, available, disk) && CleanStart(input, v, disk)
    requires Distinct(Keys(v.dirs, v.files))
    requires run.plan.deleted == v.deleted
    requires FullyDone(run, Creates(input, v, run.inventory), NeededUploads(v.files, run.inventory))
    ensures RunMirrors(run, v, disk)
  {
    ViewIsLivePlan(input, v);
    MirrorTheorem(input.root, input.normalized, v.dirs, v.files, v.deleted, disk, run.s, run.remote);
  }

  lemma PlanOrdered(input: RootInput, v: View, inventory: Tree)
    ensures OrderedView(input, v) ==> Ordered(input.root, Creates(input, v, inventory), inventory, v.deleted)
  {
    if OrderedView(input, v) {
      PlannedCreatesClosed(input.root, input.normalized, v.dirs, inventory);
    }
  }

  lemma CreatesNamed(input: RootInput, v: View, inventory: Tree)
    requires Named(v.dirs, v.files)
    ensures Named(Creates(input, v, inventory), [])
  {
    assert Slashes("") == "" && TrimSlashStart("") == "" && TrimSlashEnd("") == "";
    assert RelOf([]) == ROOT_REL;
    assert forall d | d in [RootEntry(input.root, input.normalized)] + v.dirs :: d.rel == RelOf(d.local);
  }

  /** What is planned to be created or uploaded lies at or under the root. */
  lemma PlannedInside(input: RootInput, v: View, inventory: Tree)
    requires Mapped(input.root, v.dirs, v.files)
    ensures forall d | d in Creates(input, v, inventory) :: input.root <= d.remote
    ensures forall j | j in NeededUploads(v.files, inventory) :: input.root <= j.file.remote
  {
    assert forall d | d in [RootEntry(input.root, input.normalized)] + v.dirs :: input.root <= d.remote;
  }

  lemma ViewUntouched(run: Run, input: RootInput, v: View)
    requires ScannerFacts(input) && ViewFits(input, v) && Undisturbed(input, v) && run.plan.deleted == v.deleted
    ensures Untouched(run, Creates(input, v, run.inventory), NeededUploads(v.files, run.inventory))
  {
    ViewFacts(input, v);
    assert forall d | d in Creates(input, v, run.inventory) :: d in [RootEntry(input.root, input.normalized)] + v.dirs;
  }

  lemma RunCompletes(run: Run, input: RootInput, v: View, available: Option<nat>, disk: Tree, shouldStop: bool)
    requires ScannerFacts(input) && RunOf(run, input, v, available, disk) && Distinct(Keys(v.dirs, v.files))
    requires TombstonesTrack(START, run.s, v.deleted, run.plan.deleted)
    requires var creates, uploads := Creates(input, v, run.inventory), NeededUploads(v.files, run.inventory);
      !shouldStop && !run.s.failed && run.honest && !run.s.tombstoned && Untouched(run, creates, uploads) ==>
      FullyDone(run, creates, uploads)
    ensures CleanRunMirrors(run, input, v, disk, shouldStop)
  {
    if !shouldStop && !run.s.failed && run.honest && !run.s.tombstoned && CleanStart(input, v, disk) {
      ViewUntouched(run, input, v);
      CompletedRunMirrors(run, input, v, available, disk);
    }
  }

  lemma RunOfIsSafe(run: Run, input: RootInput, v: View, available: Option<nat>, disk: Tree)
    requires ScannerFacts(input) && ViewFits(input, v) && RunOf(run, input, v, available, disk)
    ensures RunInside(run) && RunSafe(run)
  {
    var creates, uploads := Creates(input, v, run.inventory), NeededUploads(v.files, run.inventory);
    ViewFacts(input, v);
    PlannedInside(input, v, run.inventory);
    RunStaysInside(run, creates, uploads);
    if NoLiveBelowExtras(run.root, FinalKnown(run), run.inventory) {
      RunSparesLive(run, creates, uploads);
    }
  }

  lemma AfterPhases(run: Run, input: RootInput, v: View, available: Option<nat>, disk: Tree, shouldStop: bool)
    requires ScannerFacts(input) && ViewFits(input, v) && RunOf(run, input, v, available, disk)
    requires Distinct(Keys(v.dirs, v.files)) && TombstonesTrack(START, run.s, v.deleted, run.plan.deleted)
    requires var creates, uploads := Creates(input, v, run.inventory), NeededUploads(v.files, run.inventory);
      && (if shouldStop then run.s.stopped || run.s.cancelled else Quiet(run.s) && AllAnswered(run, creates, uploads))
      && (!shouldStop && !run.s.failed && run.honest && !run.s.tombstoned && Untouched(run, creates, uploads) ==>
            FullyDone(run, creates, uploads))
    ensures RunInside(run) && RunSafe(run)
    ensures RunEnds(run, input, v, shouldStop) && CleanRunMirrors(run, input, v, disk, shouldStop)
  {
    RunOfIsSafe(run, input, v, available, disk);
    RunCompletes(run, input, v, available, disk, shouldStop);
    InterruptedIff(run.trace);
  }

  /** The plan is made and carried out; all guards have passed. */
  method RunRoot(input: RootInput, ghost v: View, plan: LiveScanPlan, inventory: Tree, fromCache: bool,
                 rootPlan: Plan, ghost available: Option<nat>, limits: Limits, ghost disk: Tree)
    returns (shouldStop: bool, bytes: Option<nat>, run: Run)
    requires ScannerFacts(input) && ViewFits(input, v) && plan.Valid()
    requires v == View(plan.directories, plan.files, plan.deleted)
    requires input.present && MayRun(input, v, available) && Listing(input, v) == Loaded(inventory, fromCache)
    requires rootPlan.creates == Creates(input, v, inventory)
    requires rootPlan.uploads == NeededUploads(v.files, inventory)
    modifies plan`deleted
    ensures fresh(run) && run.plan == plan && RunOf(run, input, v, available, disk) && RunInside(run) && RunSafe(run)
    ensures run.s.uploaded == Consumed(bytes) <= JobBytes(rootPlan.uploads)
    ensures run.s.issuedBytes <= JobBytes(rootPlan.uploads)
    ensures RunEnds(run, input, v, shouldStop) && CleanRunMirrors(run, input, v, disk, shouldStop)
  {
    ViewFacts(input, v);
    ghost var orderly := OrderedView(input, v);
    PlanOrdered(input, v, inventory);
    CreatesNamed(input, v, inventory);
    AllGuardsTrue(input, v, available);
    run := new Run(input.root, inventory, fromCache, plan, input.world, disk, TrueGuards(input, v, available), orderly);
    shouldStop, bytes := RunPhases(run, rootPlan.creates, rootPlan.uploads, limits);
    AfterPhases(run, input, v, available, disk, shouldStop);
  }

  /** The outcome of a root for which no run was started. */
  ghost predicate Refused(input: RootInput, view: Option<View>, available: Option<nat>, shouldStop: bool) {
    && (view.Some? ==> !MayRun(input, view.value, available))
    && (shouldStop <==> view.Some? && StopsRun(input, view.value, available))
  }

  datatype Ready = Ready(rootPlan: Plan, inventory: Tree, fromCache: bool)

  /** Scans, checks the guards and plans; `ready` is there exactly when all guards pass. */
  method PrepareRoot(input: RootInput, available: Option<nat>)
    returns (shouldStop: bool, plan: LiveScanPlan?, ready: Option<Ready>, ghost view: Option<View>)
    requires ScannerFacts(input)
    ensures view.Some? <==> input.present && input.scan.Scanned?
    ensures view.Some? ==> ViewFits(input, view.value)
    ensures ready.Some? <==> view.Some? && MayRun(input, view.value, available)
    ensures ready.None? ==> Refused(input, view, available, shouldStop)
    ensures ready.Some? ==> plan != null && fresh(plan) && plan.Valid()
    ensures ready.Some? ==> view.value == View(plan.directories, plan.files, plan.deleted)
    ensures ready.Some? ==> Listing(input, view.value) == Loaded(ready.value.inventory, ready.value.fromCache)
    ensures ready.Some? ==> ready.value.rootPlan.creates == Creates(input, view.value, ready.value.inventory)
    ensures ready.Some? ==> ready.value.rootPlan.uploads == NeededUploads(view.value.files, ready.value.inventory)
  {
    shouldStop, plan, ready, view := false, null, None, None;
    if !input.present || input.scan.ScanFailed? {
      return;
    }
    plan := new LiveScanPlan.FromScanReport(input.root, input.scan.dirs, input.scan.files, input.isDir);
    view := Some(View(plan.directories, plan.files, plan.deleted));
    assert ViewFits(input, view.value);
    var collides := LocalRemoteCollision(plan.directories, plan.files);
    if collides {
      return;
    }
    var listed := input.list(TombstonePrefixes(plan.deleted));
    if listed.InventoryFailed? {
      shouldStop := IsStopError(listed.kind);
      return;
    }
    var rootPlan := BuildRootPlan(input.root, input.normalized, plan, listed.resources);
    if available.Some? && PlannedBytes(rootPlan.uploads) > available.value {
      shouldStop := true;
      return;
    }
    ready := Some(Ready(rootPlan, listed.resources, listed.fromCache));
  }

  /** A root is run exactly when all guards pass; whatever it does is safe, and a clean run mirrors. */
  method ExecuteRoot(input: RootInput, available: Option<nat>, limits: Limits, ghost disk: Tree)
    returns (shouldStop: bool, bytes: Option<nat>, run: Run?, ghost view: Option<View>)
    requires ScannerFacts(input)
    ensures view.Some? <==> input.present && input.scan.Scanned?
    ensures view.Some? ==> ViewFits(input, view.value)
    ensures run != null <==> view.Some? && MayRun(input, view.value, available)
    ensures run == null ==> Consumed(bytes) == 0 && Refused(input, view, available, shouldStop)
    ensures run != null ==> fresh(run) && fresh(run.plan)
    ensures run != null ==> RunOf(run, input, view.value, available, disk) && RunInside(run) && RunSafe(run)
    ensures run != null ==> run.s.uploaded == Consumed(bytes)
    ensures available.Some? && input.scan.Scanned? && FileBytes(input.scan.files) < TWO_64 ==>
      Consumed(bytes) <= available.value && (run != null ==> run.s.issuedBytes <= available.value)
    ensures run != null ==> RunEnds(run, input, view.value, shouldStop)
    ensures run != null ==> CleanRunMirrors(run, input, view.value, disk, shouldStop)
  {
    var plan, ready;
    shouldStop, plan, ready, view := PrepareRoot(input, available);
    if ready.None? {
      return shouldStop, None, null, view;
    }
    PlannedWithin(input, view.value, available);
    shouldStop, bytes, run := RunRoot(input, view.value, plan, ready.value.inventory, ready.value.fromCache,
                                      ready.value.rootPlan, available, limits, disk);
  }

  /** The 64-bit sum is the true one exactly if that fits. */
  lemma PlannedBytesExactIff(jobs: seq<UploadJob>)
    ensures PlannedBytes(jobs) == JobBytes(jobs) <==> JobBytes(jobs) < TWO_64
  {
  }

  /** The quota check bounds the planned bytes as long as the scanned bytes fit 64 bits. */
  lemma PlannedWithin(input: RootInput, v: View, available: Option<nat>)
    requires ViewFits(input, v) && MayRun(input, v, available)
    ensures available.Some? && FileBytes(input.scan.files) < TWO_64 ==>
      JobBytes(NeededUploads(v.files, Listing(input, v).resources)) <= available.value
  {
    var inventory := Listing(input, v).resources;
    NeededWithin(v.files, inventory);
    LiveWithin(input.scan.files, v.deleted);
    PlannedBytesExactIff(NeededUploads(v.files, inventory));
  }

  lemma {:induction false} NeededWithin(files: seq<FileEntry>, inventory: Tree)
    ensures JobBytes(NeededUploads(files, inventory)) <= FileBytes(files)
  {
    if files != [] {
      var rest, last := files[..|files| - 1], files[|files| - 1];
      NeededWithin(rest, inventory);
      JobBytesConcat(NeededUploads(rest, inventory), [UploadJob(last, HasKind(inventory, last.remote, File))]);
      assert NeededUploads(rest, inventory) + [] == NeededUploads(rest, inventory);
    }
  }

  lemma {:induction false} LiveWithin(files: seq<FileEntry>, deleted: seq<Tombstone>)
    ensures FileBytes(LiveFiles(files, deleted)) <= FileBytes(files)
  {
    if files != [] {
      var rest, last := files[..|files| - 1], files[|files| - 1];
      LiveWithin(rest, deleted);
      assert (LiveFiles(rest, deleted) + [last])[..|LiveFiles(rest, deleted)|] == LiveFiles(rest, deleted);
      assert LiveFiles(rest, deleted) + [] == LiveFiles(rest, deleted);
    }
  }

  /** The check lets the jobs pass. */
  predicate CheckPasses(jobs: seq<UploadJob>, available: nat) {
    PlannedBytes(jobs) <= available
  }

  /**
   * Exactly when the check means what it says: for one limit, unless the sum wraps and the
   * wrapped sum passes; for all limits, if the sum does not wrap.
   */
  lemma QuotaCheckRightIff(jobs: seq<UploadJob>, available: nat)
    requires available < TWO_64
    ensures (CheckPasses(jobs, available) ==> JobBytes(jobs) <= available)
      <==> JobBytes(jobs) < TWO_64 || !CheckPasses(jobs, available)
    ensures (forall n: nat | n < TWO_64 && CheckPasses(jobs, n) :: JobBytes(jobs) <= n) <==> JobBytes(jobs) < TWO_64
  {
    PlannedBytesExactIff(jobs);
    assert CheckPasses(jobs, PlannedBytes(jobs));
  }

  /** Two scanned files of 2^63 bytes each: the sum wraps to zero and passes under every limit. */
  lemma QuotaCheckWraps(cfg: Settings, local: LocalTree, files: seq<FileEntry>, inventory: Tree)
    requires local == map[["a"] := LocalFile(TWO_63, None), ["b"] := LocalFile(TWO_63, None)]
    requires cfg.maxFileSize >= TWO_63 && forall p, d :: !cfg.excluded(p, d)
    requires forall p :: cfg.readable(p) && cfg.staged(p) && cfg.hash(p).Some?
    requires FilesFit(cfg, local, map[], files, ReachedSet(cfg, local))
    ensures var jobs := NeededUploads(files, inventory);
      JobBytes(jobs) == TWO_64 && forall available: nat :: CheckPasses(jobs, available)
  {
    OneLetter("a");
    OneLetter("b");
    BothReported(cfg, local, files, ["a"]);
    BothReported(cfg, local, files, ["b"]);
    forall x | x in files
      ensures x.size == TWO_63 && NeedsUpload(x, inventory) && (x.local == ["a"] || x.local == ["b"])
    {
      ReportedFile(cfg, local, files, x);
    }
    TwoEntries(files);
    NeededAll(files, inventory);
    BytesOfTwo(files);
  }

  /** What is reported without earlier states carries a new fingerprint. */
  lemma ReportedFile(cfg: Settings, local: LocalTree, files: seq<FileEntry>, f: FileEntry)
    requires FilesAre(cfg, local, map[], files, ReachedSet(cfg, local)) && f in files
    ensures f.local in local && local[f.local].LocalFile? && f.size == local[f.local].size
    ensures !f.fingerprint.reusedFromState
  {
    FileFacts(cfg, local, map[], f);
  }

  lemma BytesOfTwo(files: seq<FileEntry>)
    requires |files| == 2
    ensures FileBytes(files) == files[0].size + files[1].size
  {
    assert files[..1][..0] == [];
    assert FileBytes(files[..1]) == files[0].size;
  }

  /** If every file needs an upload, the planned bytes are those of all files. */
  lemma {:induction false} NeededAll(files: seq<FileEntry>, inventory: Tree)
    requires forall f | f in files :: NeedsUpload(f, inventory)
    ensures JobBytes(NeededUploads(files, inventory)) == FileBytes(files)
  {
    if files != [] {
      var rest, last := files[..|files| - 1], files[|files| - 1];
      NeededAll(rest, inventory);
      JobBytesConcat(NeededUploads(rest, inventory), [UploadJob(last, HasKind(inventory, last.remote, File))]);
    }
  }

  lemma OneLetter(name: string)
    requires name == "a" || name == "b"
    ensures Maps(RelOf([name]))
  {
    OrdinaryRel([name]);
    LetterKept(name[0]);
    assert name == [name[0]] && Cut([name]) == [name];
  }

  lemma LetterKept(c: char)
    requires c == 'a' || c == 'b'
    ensures TrimEnd([c]) == [c] && FilterSegment([c]) == [c]
  {
    assert !IsWhitespace(c) && Kept(c) && [c][1..] == "";
  }

  /** A top-level file that maps is reported, unless something else keeps it back. */
  lemma BothReported(cfg: Settings, local: LocalTree, files: seq<FileEntry>, p: Path)
    requires |p| == 1 && p in local && local[p].LocalFile? && local[p].size <= cfg.maxFileSize
    requires Maps(RelOf(p)) && !cfg.excluded(p, false) && cfg.readable(p) && cfg.staged(p) && cfg.hash(p).Some?
    requires FilesAre(cfg, local, map[], files, ReachedSet(cfg, local))
    ensures exists f | f in files :: f.local == p
  {
    var live := LiveFile(cfg, local, map[], p);
    assert Reached(cfg, local, p) && live.Some? && live.value.local == p;
    assert live.value in files;
  }

  function LocalAt(files: seq<FileEntry>, k: nat): Path {
    if k < |files| then files[k].local else []
  }

  /** Different entries, of which there are two. */
  lemma TwoEntries(files: seq<FileEntry>)
    requires forall i, j | 0 <= i < j < |files| :: files[i].local != files[j].local
    requires forall f | f in files :: f.local == ["a"] || f.local == ["b"]
    requires (exists f | f in files :: f.local == ["a"]) && (exists f | f in files :: f.local == ["b"])
    ensures |files| == 2
  {
    var i :| 0 <= i < |files| && files[i].local == ["a"];
    var j :| 0 <= j < |files| && files[j].local == ["b"];
    var first, second, third := LocalAt(files, 0), LocalAt(files, 1), LocalAt(files, 2);
    assert forall k | 0 <= k < |files| :: files[k].local == ["a"] || files[k].local == ["b"];
  }

  // ----- all roots

  ghost predicate InputsOk(inputs: seq<RootInput>) {
    forall input | input in inputs :: ScannerFacts(input)
  }

  ghost predicate NoWrap(inputs: seq<RootInput>) {
    forall input | input in inputs && input.scan.Scanned? :: FileBytes(input.scan.files) < TWO_64
  }

  function SaturatingSub(a: nat, b: nat): nat {
    if b <= a then a - b else 0
  }

  /** When the cancellation token is looked at. */
  datatype Look = BeforeRoot | AfterRoot

  datatype RootOutcome = RootOutcome(shouldStop: bool, uploaded: nat)

  /** What a root was given, what it looked at, its run if there was one, and the disk it left. */
  datatype RootStep = RootStep(available: Option<nat>, before: Tree, view: Option<View>, run: Run?, after: Tree)

  /** The root was run exactly if all guards passed, and all that holds of a run holds of this one. */
  ghost predicate Taken(input: RootInput, o: RootOutcome, t: RootStep)
    reads t.run, if t.run == null then {} else {t.run.plan}
  {
    && (t.view.Some? <==> input.present && input.scan.Scanned?)
    && (t.view.Some? ==> ViewFits(input, t.view.value))
    && (t.run != null <==> t.view.Some? && MayRun(input, t.view.value, t.available))
    && (t.run == null ==> o.uploaded == 0 && t.after == t.before && Refused(input, t.view, t.available, o.shouldStop))
    && (t.run != null ==>
          && RunOf(t.run, input, t.view.value, t.available, t.before) && RunInside(t.run) && RunSafe(t.run)
          && t.run.s.uploaded == o.uploaded && t.after == t.run.remote
          && RunEnds(t.run, input, t.view.value, o.shouldStop)
          && CleanRunMirrors(t.run, input, t.view.value, t.before, o.shouldStop))
  }

  /** One root of the run: what it did, and the quota left over. */
  method TakeRoot(input: RootInput, available: Option<nat>, limits: Limits, ghost disk: Tree)
    returns (o: RootOutcome, left: Option<nat>, ghost issued: nat, ghost t: RootStep)
    requires ScannerFacts(input)
    ensures Taken(input, o, t) && t.available == available && t.before == disk
    ensures t.run != null ==> fresh(t.run) && fresh(t.run.plan)
    ensures left == match available case None => None case Some(n) => Some(SaturatingSub(n, o.uploaded))
    ensures available.Some? && (input.scan.Scanned? ==> FileBytes(input.scan.files) < TWO_64) ==>
      o.uploaded + left.value == available.value && issued <= available.value
    ensures t.run != null ==> issued == t.run.s.issuedBytes
    ensures forall p | !(input.root <= p) :: SameAt(disk, t.after, p)
  {
    left, issued := available, 0;
    var shouldStop, bytes, run;
    ghost var view;
    shouldStop, bytes, run, view := ExecuteRoot(input, available, limits, disk);
    o := RootOutcome(shouldStop, Consumed(bytes));
    if bytes.Some? && left.Some? {
      left := Some(SaturatingSub(left.value, bytes.value));
    }
    t := RootStep(available, disk, view, run, disk);
    if run != null {
      t, issued := t.(after := run.remote), run.s.issuedBytes;
    }
  }

  function TotalUploaded(outcomes: seq<RootOutcome>): nat {
    if outcomes == [] then 0 else TotalUploaded(outcomes[..|outcomes| - 1]) + outcomes[|outcomes| - 1].uploaded
  }

  /** The disk after these roots. */
  ghost function DiskAfter(disk: Tree, steps: seq<RootStep>): Tree {
    if steps == [] then disk else steps[|steps| - 1].after
  }

  /** Each root started from what the one before it left, on the disk and of the quota. */
  ghost predicate Chained(disk: Tree, available: Option<nat>, outcomes: seq<RootOutcome>, steps: seq<RootStep>) {
    && |steps| == |outcomes|
    && forall i | 0 <= i < |steps| ::
      && steps[i].before == DiskAfter(disk, steps[..i])
      && steps[i].available == Remaining(available, outcomes[..i])
  }

  /** What the roots so far have left of the quota. */
  function Remaining(available: Option<nat>, outcomes: seq<RootOutcome>): Option<nat> {
    match available
    case None => None
    case Some(n) => Some(SaturatingSub(n, TotalUploaded(outcomes)))
  }

  lemma ChainStep(disk: Tree, available: Option<nat>, outcomes: seq<RootOutcome>, steps: seq<RootStep>, o: RootOutcome,
                  t: RootStep)
    requires Chained(disk, available, outcomes, steps)
    requires t.before == DiskAfter(disk, steps) && t.available == Remaining(available, outcomes)
    ensures Chained(disk, available, outcomes + [o], steps + [t])
    ensures TotalUploaded(outcomes + [o]) == TotalUploaded(outcomes) + o.uploaded
    ensures Remaining(available, outcomes + [o]) ==
      match t.available case None => None case Some(n) => Some(SaturatingSub(n, o.uploaded))
  {
    assert forall i | 0 <= i <= |steps| :: (steps + [t])[..i] == steps[..i];
    assert forall i | 0 <= i <= |outcomes| :: (outcomes + [o])[..i] == outcomes[..i];
    assert steps[..|steps|] == steps && outcomes[..|outcomes|] == outcomes;
  }

  /** What a root left at a path outside all later roots is there at the end. */
  ghost predicate LastWordStays(inputs: seq<RootInput>, steps: seq<RootStep>, end: Tree) {
    forall i, p | 0 <= i < |steps| <= |inputs| && Outside(inputs[i + 1..|steps|], p) :: SameAt(steps[i].after, end, p)
  }

  lemma LastWordStep(inputs: seq<RootInput>, steps: seq<RootStep>, end: Tree, t: RootStep)
    requires |steps| < |inputs| && LastWordStays(inputs, steps, end)
    requires forall p | !(inputs[|steps|].root <= p) :: SameAt(end, t.after, p)
    ensures LastWordStays(inputs, steps + [t], t.after)
  {
    var n := |steps|;
    forall i, p | 0 <= i < n + 1 && Outside(inputs[i + 1..n + 1], p)
      ensures SameAt((steps + [t])[i].after, t.after, p)
    {
      if i < n {
        assert inputs[i + 1..n + 1] == inputs[i + 1..n] + [inputs[n]];
        assert inputs[n] in inputs[i + 1..n + 1] && Outside(inputs[i + 1..n], p);
        assert SameAt(steps[i].after, end, p) && SameAt(end, t.after, p);
      }
    }
  }

  ghost predicate AllTaken(inputs: seq<RootInput>, outcomes: seq<RootOutcome>, steps: seq<RootStep>)
    reads set t | t in steps :: t.run
    reads set t | t in steps && t.run != null :: t.run.plan
  {
    && |steps| == |outcomes| <= |inputs|
    && forall i | 0 <= i < |steps| :: Taken(inputs[i], outcomes[i], steps[i])
  }

  lemma TakenStep(inputs: seq<RootInput>, outcomes: seq<RootOutcome>, steps: seq<RootStep>, o: RootOutcome, t: RootStep)
    requires AllTaken(inputs, outcomes, steps) && |steps| < |inputs| && Taken(inputs[|steps|], o, t)
    ensures AllTaken(inputs, outcomes + [o], steps + [t])
  {
  }

  /** Where the run is, apart from what the single roots did. */
  ghost predicate RunProgress(inputs: seq<RootInput>, available: Option<nat>, disk: Tree, outcomes: seq<RootOutcome>,
                              issued: seq<nat>, steps: seq<RootStep>)
  {
    && |outcomes| <= |inputs| && Chained(disk, available, outcomes, steps)
    && (available.Some? && NoWrap(inputs) ==>
          TotalUploaded(outcomes) <= available.value && IssuedWithin(outcomes, issued, available.value))
    && (forall p | Outside(inputs, p) :: SameAt(disk, DiskAfter(disk, steps), p))
    && LastWordStays(inputs, steps, DiskAfter(disk, steps))
  }

  lemma ProgressStep(inputs: seq<RootInput>, available: Option<nat>, disk: Tree, outcomes: seq<RootOutcome>,
                     issued: seq<nat>, steps: seq<RootStep>, o: RootOutcome, started: nat, t: RootStep)
    requires RunProgress(inputs, available, disk, outcomes, issued, steps) && |outcomes| < |inputs|
    requires t.before == DiskAfter(disk, steps) && t.available == Remaining(available, outcomes)
    requires available.Some? && NoWrap(inputs) ==>
      o.uploaded <= t.available.value && started <= t.available.value
    requires forall p | !(inputs[|outcomes|].root <= p) :: SameAt(t.before, t.after, p)
    ensures RunProgress(inputs, available, disk, outcomes + [o], issued + [started], steps + [t])
    ensures Remaining(available, outcomes + [o]) ==
      match t.available case None => None case Some(n) => Some(SaturatingSub(n, o.uploaded))
  {
    ChainStep(disk, available, outcomes, steps, o, t);
    LastWordStep(inputs, steps, t.before, t);
    if available.Some? {
      IssuedStep(outcomes, issued, available, o, started);
    }
    assert inputs[|outcomes|] in inputs;
    forall p | Outside(inputs, p) ensures SameAt(disk, t.after, p) {
      assert SameAt(disk, t.before, p) && SameAt(t.before, t.after, p);
    }
  }

  /** The roots in `outcomes` were taken: no cancellation before them, and nothing ended the run between two of them. */
  ghost predicate WentOn(outcomes: seq<RootOutcome>, cancelledAt: (Look, nat) -> bool) {
    && (forall i | 0 <= i < |outcomes| :: !cancelledAt(BeforeRoot, i))
    && forall i | 0 <= i < |outcomes| - 1 :: !outcomes[i].shouldStop && !cancelledAt(AfterRoot, i)
  }

  /** The last root ended the run. */
  predicate Ended(outcomes: seq<RootOutcome>, cancelledAt: (Look, nat) -> bool) {
    outcomes != [] && (outcomes[|outcomes| - 1].shouldStop || cancelledAt(AfterRoot, |outcomes| - 1))
  }

  lemma WentOnStep(outcomes: seq<RootOutcome>, cancelledAt: (Look, nat) -> bool, o: RootOutcome)
    requires WentOn(outcomes, cancelledAt) && !Ended(outcomes, cancelledAt) && !cancelledAt(BeforeRoot, |outcomes|)
    ensures WentOn(outcomes + [o], cancelledAt)
  {
  }

  /**
   * Roots one after the other; what one uploads is taken from what the next may use.  The run
   * ends before the last root exactly if a root stops it or a cancellation is seen, for which the
   * token is looked at before and after each root.
   */
  method ExecuteRun(inputs: seq<RootInput>, available: Option<nat>, limits: Limits, cancelledAt: (Look, nat) -> bool,
                    ghost disk: Tree)
    returns (outcomes: seq<RootOutcome>, left: Option<nat>, ghost issued: seq<nat>, ghost steps: seq<RootStep>)
    requires InputsOk(inputs)
    ensures AllTaken(inputs, outcomes, steps) && Chained(disk, available, outcomes, steps)
    ensures WentOn(outcomes, cancelledAt)
    ensures |outcomes| < |inputs| ==> cancelledAt(BeforeRoot, |outcomes|) || Ended(outcomes, cancelledAt)
    ensures left == Remaining(available, outcomes)
    ensures available.Some? && NoWrap(inputs) ==>
      TotalUploaded(outcomes) <= available.value && IssuedWithin(outcomes, issued, available.value)
    ensures forall p | Outside(inputs, p) :: SameAt(disk, DiskAfter(disk, steps), p)
    ensures LastWordStays(inputs, steps, DiskAfter(disk, steps))
  {
    outcomes, left, issued, steps := TakeRoots(inputs, available, limits, cancelledAt, disk);
  }

  /** Everything that holds after some roots. */
  ghost predicate RunAt(inputs: seq<RootInput>, available: Option<nat>, disk: Tree, cancelledAt: (Look, nat) -> bool,
                        outcomes: seq<RootOutcome>, left: Option<nat>, issued: seq<nat>, steps: seq<RootStep>)
    reads set t | t in steps :: t.run
    reads set t | t in steps && t.run != null :: t.run.plan
  {
    && AllTaken(inputs, outcomes, steps) && RunProgress(inputs, available, disk, outcomes, issued, steps)
    && WentOn(outcomes, cancelledAt) && left == Remaining(available, outcomes)
  }

  method TakeRoots(inputs: seq<RootInput>, available: Option<nat>, limits: Limits, cancelledAt: (Look, nat) -> bool,
                   ghost disk: Tree)
    returns (outcomes: seq<RootOutcome>, left: Option<nat>, ghost issued: seq<nat>, ghost steps: seq<RootStep>)
    requires InputsOk(inputs)
    ensures RunAt(inputs, available, disk, cancelledAt, outcomes, left, issued, steps)
    ensures |outcomes| < |inputs| ==> cancelledAt(BeforeRoot, |outcomes|) || Ended(outcomes, cancelledAt)
  {
    outcomes, left, issued, steps := [], available, [], [];
    for i := 0 to |inputs|
      invariant |outcomes| == i && RunAt(inputs, available, disk, cancelledAt, outcomes, left, issued, steps)
      invariant !Ended(outcomes, cancelledAt)
    {
      if cancelledAt(BeforeRoot, i) {
        return;
      }
      outcomes, left, issued, steps :=
        TakeNext(inputs, available, limits, cancelledAt, disk, outcomes, left, issued, steps);
      if outcomes[i].shouldStop || cancelledAt(AfterRoot, i) {
        return;
      }
    }
  }

  lemma RunStep(inputs: seq<RootInput>, available: Option<nat>, disk: Tree, cancelledAt: (Look, nat) -> bool,
                outcomes: seq<RootOutcome>, left: Option<nat>, issued: seq<nat>, steps: seq<RootStep>,
                o: RootOutcome, started: nat, t: RootStep, left': Option<nat>)
    requires RunAt(inputs, available, disk, cancelledAt, outcomes, left, issued, steps)
    requires InputsOk(inputs) && |outcomes| < |inputs| && Taken(inputs[|outcomes|], o, t)
    requires !Ended(outcomes, cancelledAt) && !cancelledAt(BeforeRoot, |outcomes|)
    requires t.before == DiskAfter(disk, steps) && t.available == left
    requires left' == match left case None => None case Some(n) => Some(SaturatingSub(n, o.uploaded))
    requires available.Some? && NoWrap(inputs) ==> o.uploaded <= left.value && started <= left.value
    requires forall p | !(inputs[|outcomes|].root <= p) :: SameAt(t.before, t.after, p)
    ensures RunAt(inputs, available, disk, cancelledAt, outcomes + [o], left', issued + [started], steps + [t])
  {
    ProgressStep(inputs, available, disk, outcomes, issued, steps, o, started, t);
    TakenStep(inputs, outcomes, steps, o, t);
    WentOnStep(outcomes, cancelledAt, o);
  }

  method TakeNext(inputs: seq<RootInput>, ghost available: Option<nat>, limits: Limits,
                  ghost cancelledAt: (Look, nat) -> bool, ghost disk: Tree, outcomes: seq<RootOutcome>,
                  left: Option<nat>, ghost issued: seq<nat>, ghost steps: seq<RootStep>)
    returns (outcomes': seq<RootOutcome>, left': Option<nat>, ghost issued': seq<nat>, ghost steps': seq<RootStep>)
    requires InputsOk(inputs) && |outcomes| < |inputs|
    requires RunAt(inputs, available, disk, cancelledAt, outcomes, left, issued, steps)
    requires !Ended(outcomes, cancelledAt) && !cancelledAt(BeforeRoot, |outcomes|)
    ensures RunAt(inputs, available, disk, cancelledAt, outcomes', left', issued', steps')
    ensures |outcomes'| == |outcomes| + 1
  {
    var o;
    ghost var started, t;
    assert inputs[|outcomes|] in inputs;
    o, left', started, t := TakeRoot(inputs[|outcomes|], left, limits, DiskAfter(disk, steps));
    assert RunAt(inputs, available, disk, cancelledAt, outcomes, left, issued, steps);
    RunStep(inputs, available, disk, cancelledAt, outcomes, left, issued, steps, o, started, t, left');
    outcomes', issued', steps' := outcomes + [o], issued + [started], steps + [t];
  }

  /** What a root starts to upload fits beside all that earlier roots have uploaded. */
  ghost predicate IssuedWithin(outcomes: seq<RootOutcome>, issued: seq<nat>, available: nat) {
    |issued| == |outcomes| && forall i | 0 <= i < |issued| :: TotalUploaded(outcomes[..i]) + issued[i] <= available
  }

  lemma IssuedStep(outcomes: seq<RootOutcome>, issued: seq<nat>, available: Option<nat>, o: RootOutcome, started: nat)
    requires available.Some?
    ensures IssuedWithin(outcomes, issued, available.value) && TotalUploaded(outcomes) + started <= available.value ==>
      IssuedWithin(outcomes + [o], issued + [started], available.value)
  {
    assert forall i | 0 <= i <= |outcomes| :: (outcomes + [o])[..i] == outcomes[..i];
    assert outcomes[..|outcomes|] == outcomes;
  }

  /** Under none of the managed roots. */
  ghost predicate Outside(inputs: seq<RootInput>, p: Path) {
    forall input | input in inputs :: !(input.root <= p)
  }
}
