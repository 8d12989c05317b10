/**
 * One root of a sync run: creates, then uploads, then deletes, each phase in batches whose
 * tasks finish in any order and with any outcome.  The local tree may change and the run
 * may be cancelled at any point.
 */
module RootRun {
  import opened Paths
  import opened PathMapping
  import opened LocalNames
  import opened Sorting
  import opened LiveScan
  import opened LiveSet
  import opened DeletePlan
  import opened RootPlan
  import opened Remote
  import opened Scanner
  import PathText
  import UploadBatch

  // ----- what a phase may do to the summary of a run

  /** Only allowed requests were issued, answered or done; nothing is forgotten. */
  predicate Grows(s0: Summary, s1: Summary, allowed: set<Request>) {
    && s0.issued <= s1.issued <= s0.issued + allowed
    && s0.answered <= s1.answered <= s0.answered + allowed
    && s0.done <= s1.done <= s0.done + allowed
    && s1.passed == s0.passed
    && (s0.failed ==> s1.failed)
    && (s0.tombstoned ==> s1.tombstoned)
  }

  /** Coverage grows, never to the root; as long as no tombstone was recorded it stays. */
  ghost predicate TombstonesTrack(s0: Summary, s1: Summary, before: seq<Tombstone>, after: seq<Tombstone>) {
    && (forall rel | Covered(before, rel) :: Covered(after, rel))
    && (Covered(after, ROOT_REL) ==> Covered(before, ROOT_REL))
    && (!s1.tombstoned ==> after == before)
  }

  function CreateSet(ds: seq<DirectoryEntry>): set<Request> {
    set d | d in ds :: CreateDirectory(d.remote)
  }

  function CreateRequests(ds: seq<DirectoryEntry>): seq<Request> {
    seq(|ds|, i requires 0 <= i < |ds| => CreateDirectory(ds[i].remote))
  }

  /** The creates of directories that are still there when their turn comes. */
  function AllowedCreates(world: World, ds: seq<DirectoryEntry>): set<Request> {
    set d | d in ds && Present(world, BeforeCreate(d.local)) :: CreateDirectory(d.remote)
  }

  /** The uploads of files whose directories are still there when their turn comes. */
  function AllowedUploads(world: World, jobs: seq<UploadJob>): set<Request> {
    set j | j in jobs && Present(world, BeforeUpload(j.file.local)) :: UploadRequest(j)
  }

  /** A directory is handled once it is tombstoned, or it was there and its create has been answered. */
  predicate Handled(world: World, d: DirectoryEntry, deleted: seq<Tombstone>, s: Summary) {
    Covered(deleted, d.rel) || (Present(world, BeforeCreate(d.local)) && CreateDirectory(d.remote) in s.answered)
  }

  /** The same for a file. */
  predicate Sent(world: World, j: UploadJob, deleted: seq<Tombstone>, s: Summary) {
    Covered(deleted, j.file.rel) || (Present(world, BeforeUpload(j.file.local)) && UploadRequest(j) in s.answered)
  }

  /** After a failed upload: an ancestor is missing that was not tombstoned before. */
  predicate Excuses(world: World, local: Path, deleted: seq<Tombstone>) {
    !Present(world, AfterFailure(local)) && !Covered(deleted, Gone(world(AfterFailure(local)), local).value)
  }

  /** What has gone lies above the entry, so an entry not covered has no covered ancestor. */
  lemma GoneCovers(deleted: seq<Tombstone>, world: World, m: Moment, rel: Path)
    requires rel == RelOf(m.local)
    ensures !Present(world, m) && Covered(deleted, Gone(world(m), m.local).value) ==> Covered(deleted, rel)
  {
    if !Present(world, m) && Covered(deleted, Gone(world(m), m.local).value) {
      var start := SearchStart(m.local, world(m).directories);
      var q := TopMissing(start, world(m).existing);
      StartAbove(m.local, world(m).directories, q);
      AncestorRel(q, m.local);
      CoverTransitive(deleted, RelOf(q));
    }
  }

  /** The parent is ready, or an ancestor is tombstoned and so is the directory. */
  predicate ParentSettled(root: Path, d: DirectoryEntry, deleted: seq<Tombstone>, s: Summary, inventory: Tree) {
    root < d.remote ==>
      ParentReady(s, inventory, d.remote) || Covered(deleted, d.rel)
  }

  /** The parents of all these directories are ready. */
  ghost predicate AllReady(root: Path, ds: seq<DirectoryEntry>, s: Summary, inventory: Tree) {
    forall d | d in ds && root < d.remote :: ParentReady(s, inventory, d.remote)
  }

  ghost predicate AllSettled(root: Path, ds: seq<DirectoryEntry>, deleted: seq<Tombstone>, s: Summary, inventory: Tree)
  {
    forall d | d in ds :: ParentSettled(root, d, deleted, s, inventory)
  }

  /** The bytes of uploads neither issued nor counted as uploaded have changed. */
  predicate SameBytes(s0: Summary, s1: Summary) {
    s1.uploaded == s0.uploaded && s1.issuedBytes == s0.issuedBytes
  }

  function UploadOf(f: FileEntry): Request {
    Upload(f.remote, f.size)
  }

  /**
   * The event writes this entry: a file that was uploaded, or skipped without being excused, is
   * recorded; a deleted file, or one found to be gone, is marked.  Directories are marked elsewhere.
   */
  ghost predicate Writes(root: Path, inventory: Tree, files: seq<FileEntry>, e: Event, op: StateOp) {
    e.Joined? &&
    match op
    case Recorded(f) =>
      f in files && UploadOf(f) == e.answered && (e.outcome == Done || (e.outcome == Skipped && !e.excused))
    case MarkedDeleted(rel, text) =>
      var p := e.answered.path;
      && e.answered.DeletePermanently? && (e.outcome == Done || e.outcome == Failed(NotFound))
      && root < p && rel == p[|root|..] && text == PathText.Text(p)
      && (FilesAreLeaves(inventory) ==> KindAt(inventory, p) == File)
  }

  ghost predicate MustWrite(inventory: Tree, e: Event) {
    e.Joined? &&
    match e.answered
    case Upload(_, _) => e.outcome == Done || (e.outcome == Skipped && !e.excused)
    case DeletePermanently(p) =>
      (e.outcome == Done || e.outcome == Failed(NotFound)) && FilesAreLeaves(inventory) && KindAt(inventory, p) == File
    case _ => false
  }

  /** The file-state table was written to by the events of the trace, by each that must, and by nothing else. */
  ghost predicate Logged(root: Path, inventory: Tree, files: seq<FileEntry>, trace: Trace, log: seq<StateOp>) {
    && (forall op | op in log :: exists e | e in trace :: Writes(root, inventory, files, e, op))
    && (forall e | e in trace && MustWrite(inventory, e) ::
          exists op | op in log :: Writes(root, inventory, files, e, op))
  }

  /** What is logged together with an event. */
  ghost predicate LogStep(root: Path, inventory: Tree, files: seq<FileEntry>, e: Event, entries: seq<StateOp>) {
    && (forall op | op in entries :: Writes(root, inventory, files, e, op))
    && (MustWrite(inventory, e) ==> entries != [])
  }

  lemma LogKeeps(root: Path, inventory: Tree, files: seq<FileEntry>, trace: Trace, log: seq<StateOp>, e: Event,
                 entries: seq<StateOp>)
    requires Logged(root, inventory, files, trace, log) && LogStep(root, inventory, files, e, entries)
    ensures Logged(root, inventory, files, trace + [e], log + entries)
  {
    forall op | op in log + entries ensures exists x | x in trace + [e] :: Writes(root, inventory, files, x, op) {
      if op in log {
        var x :| x in trace && Writes(root, inventory, files, x, op);
        assert x in trace + [e];
      } else {
        assert e in trace + [e];
      }
    }
    forall x | x in trace + [e] && MustWrite(inventory, x)
      ensures exists op | op in log + entries :: Writes(root, inventory, files, x, op)
    {
      if x in trace {
        var op :| op in log && Writes(root, inventory, files, x, op);
        assert op in log + entries;
      } else {
        assert entries[0] in log + entries;
      }
    }
  }

  function AtDepth(ds: seq<DirectoryEntry>, depth: nat): (r: seq<DirectoryEntry>)
    ensures forall d :: d in r <==> d in ds && RelativeDepth(d.rel) == depth
  {
    if ds == [] then []
    else
      assert ds == [ds[0]] + ds[1..];
      (if RelativeDepth(ds[0].rel) == depth then [ds[0]] else []) + AtDepth(ds[1..], depth)
  }

  function DepthBound(ds: seq<DirectoryEntry>): (n: nat)
    ensures forall d | d in ds :: RelativeDepth(d.rel) < n
  {
    if ds == [] then 0
    else
      assert ds == [ds[0]] + ds[1..];
      var rest := DepthBound(ds[1..]);
      var depth := RelativeDepth(ds[0].rel);
      if depth < rest then rest else depth + 1
  }

  /** When the file system is asked about an entry: once before its create or upload, once after a failed upload. */
  datatype Moment = BeforeCreate(local: Path) | BeforeUpload(local: Path) | AfterFailure(local: Path)

  /** What the file system answers at each of these moments; it may have changed in any way between them. */
  type World = Moment -> FileSystem

  /** No ancestor of the entry is missing at that moment; above the managed root nothing is registered. */
  predicate Present(world: World, m: Moment) {
    m.local == [] || Gone(world(m), m.local).None?
  }

  class Run {
    const root: Path
    const inventory: Tree
    const fromCache: bool
    const plan: LiveScanPlan
    const world: World
    ghost const initial: Tree
    /** The guards that are true of this run, and whether parents must come before children. */
    ghost const holds: set<Guard>
    ghost const orderly: bool
    var trace: Trace
    /** The summary of the trace, the remote it leads to, and whether "not found" was always true. */
    ghost var s: Summary
    ghost var remote: Tree
    ghost var honest: bool
    /** What was written to the file-state table. */
    ghost var log: seq<StateOp>

    constructor (root: Path, inventory: Tree, fromCache: bool, plan: LiveScanPlan, world: World, ghost initial: Tree,
                 ghost holds: set<Guard>, ghost orderly: bool)
      requires plan.Valid() && Named([], plan.files)
      ensures Valid() && trace == [] && s == START && remote == initial && log == []
      ensures this.root == root && this.inventory == inventory && this.fromCache == fromCache
      ensures this.plan == plan && this.world == world && this.initial == initial
      ensures this.holds == holds && this.orderly == orderly
    {
      this.root, this.inventory, this.fromCache, this.plan, this.world := root, inventory, fromCache, plan, world;
      this.initial, this.holds, this.orderly := initial, holds, orderly;
      trace, s, remote, honest, log := [], START, initial, true, [];
    }

    ghost predicate Valid()
      reads this, plan
    {
      && plan.Valid() && Named([], plan.files)
      && s == Summarize(trace) && remote == Replay(initial, trace) && honest == Honest(initial, trace)
      && Gated(trace, fromCache) && GuardsTrue(trace, holds)
      && (orderly ==> ParentsFirst(trace, inventory, root))
      && Logged(root, inventory, plan.files, trace, log)
    }

    /** Records an event, and what is written to the file-state table with it. */
    method Emit(e: Event, ghost entries: seq<StateOp> := [])
      requires Valid() && MayEmit(trace, e, fromCache, inventory, root, holds, orderly)
      requires LogStep(root, inventory, plan.files, e, entries)
      modifies this
      ensures Valid()
      ensures trace == old(trace) + [e] && log == old(log) + entries
      ensures s == After(old(s), e)
      ensures remote == Effect(old(remote), e)
      ensures honest == (old(honest) && HonestAt(old(remote), e))
    {
      EmitKeeps(trace, e, fromCache, inventory, root, holds, orderly);
      SummarizeAppend(trace, e);
      ReplayAppend(initial, trace, e);
      HonestAppend(initial, trace, e);
      LogKeeps(root, inventory, plan.files, trace, log, e, entries);
      trace := trace + [e];
      honest := honest && HonestAt(remote, e);
      s, remote, log := After(s, e), Effect(remote, e), log + entries;
    }

    /** A request that is not an upload is answered, in any way; a delete may be marked in the table. */
    method Answer(r: Request, ghost mark: seq<StateOp> := []) returns (outcome: Outcome)
      requires Valid() && !r.Upload? && LogStep(root, inventory, plan.files, Joined(r, Done, false), mark)
      modifies this
      ensures Valid() && trace == old(trace) + [Joined(r, outcome, false)] && !outcome.Aborted?
      ensures s == After(old(s), Joined(r, outcome, false))
      ensures remote == if outcome.Done? then Apply(old(remote), r) else old(remote)
      ensures honest == (old(honest) && (outcome == Failed(NotFound) ==> r.path !in old(remote)))
      ensures log == old(log) + (if outcome.Done? || outcome == Failed(NotFound) then mark else [])
    {
      var kind: ErrorKind := *;
      var ok: bool := *;
      outcome := if ok then Done else Failed(kind);
      Emit(Joined(r, outcome, false), if outcome.Done? || outcome == Failed(NotFound) then mark else []);
    }

    /** `cancellation.is_cancelled()`: may turn true at any check. */
    method Poll() returns (cancelled: bool)
      requires Valid()
      modifies this
      ensures Valid() && remote == old(remote) && honest == old(honest) && log == old(log)
      ensures s == if cancelled then old(s).(cancelled := true) else old(s)
    {
      cancelled := *;
      if cancelled {
        Emit(CancelSeen);
      }
    }

    /** Asks the file system, as it is at this moment, whether an ancestor of the entry has vanished. */
    method RegisterMissing(m: Moment, rel: Path, remotePath: Path) returns (found: bool)
      requires Valid() && rel == RelOf(m.local)
      modifies this, plan`deleted
      ensures Valid() && remote == old(remote) && log == old(log)
      ensures s == if found then old(s).(tombstoned := true) else old(s)
      ensures found <==> !Present(world, m) && !Covered(old(plan.deleted), Gone(world(m), m.local).value)
      ensures !Present(world, m) ==> Covered(plan.deleted, rel)
      ensures !found ==> plan.deleted == old(plan.deleted)
      ensures forall r | Covered(old(plan.deleted), r) :: Covered(plan.deleted, r)
      ensures Covered(plan.deleted, ROOT_REL) ==> Covered(old(plan.deleted), ROOT_REL)
      ensures TombstonesTrack(old(s), s, old(plan.deleted), plan.deleted)
    {
      if m.local == [] {
        // The search starts above the managed root; whatever it finds is not below it.
        return false;
      }
      var t := plan.RegisterMissingLocalPath(world(m), m.local, rel, remotePath);
      if t.None? {
        return false;
      }
      NotRoot(t.value, plan.deleted);
      Emit(Tombstoned(t.value.rel));
      return true;
    }

    // ----- directories

    /** Asks of one directory whether its subtree has vanished. */
    method TakeCreate(d: DirectoryEntry) returns (taken: bool)
      requires Valid() && d.rel == RelOf(d.local)
      modifies this, plan`deleted
      ensures Valid() && remote == old(remote)
      ensures taken <==> !Covered(old(plan.deleted), d.rel) && Present(world, BeforeCreate(d.local))
      ensures taken ==> s == old(s) && !Covered(plan.deleted, d.rel)
      ensures !taken ==> s == old(s).(tombstoned := s.tombstoned) && Covered(plan.deleted, d.rel)
      ensures TombstonesTrack(old(s), s, old(plan.deleted), plan.deleted) && (old(s).tombstoned ==> s.tombstoned)
    {
      if plan.IsDeleted(d.rel) {
        return false;
      }
      var found := RegisterMissing(BeforeCreate(d.local), d.rel, d.remote);
      GoneCovers(old(plan.deleted), world, BeforeCreate(d.local), d.rel);
      return !found;
    }

    method TakeCreateBatch(pending: seq<DirectoryEntry>, limit: nat)
      returns (batch: seq<DirectoryEntry>, rest: seq<DirectoryEntry>)
      requires Valid() && limit > 0 && Named(pending, [])
      requires orderly ==> AllSettled(root, pending, plan.deleted, s, inventory)
      modifies this, plan`deleted
      ensures Valid() && remote == old(remote)
      ensures Taking(world, old(s), s, old(plan.deleted), plan.deleted, pending, batch, rest)
      ensures (pending != [] ==> |rest| < |pending|) && |batch| <= limit
      ensures orderly ==> AllReady(root, batch, s, inventory)
    {
      batch, rest := [], pending;
      while |batch| < limit && rest != []
        invariant Valid() && remote == old(remote)
        invariant TakingReady(world, root, inventory, old(s), s, old(plan.deleted), plan.deleted, pending, batch, rest,
                              orderly)
        invariant |batch| <= limit && (batch != [] ==> |rest| < |pending|)
        decreases |rest|
      {
        ghost var before, deletedBefore := s, plan.deleted;
        var taken := TakeCreate(rest[0]);
        ReadyStep(world, root, inventory, old(s), before, s, old(plan.deleted), deletedBefore, plan.deleted,
                  pending, batch, rest, taken, orderly);
        batch, rest := if taken then batch + [rest[0]] else batch, rest[1..];
      }
    }

    method StartCreates(requests: seq<Request>)
      requires Valid() && forall r | r in requests :: r.CreateDirectory?
      requires orderly ==> CreatesReady(root, inventory, requests, s.answered)
      modifies this
      ensures Valid() && remote == old(remote)
      ensures s == AllIssued(old(s), requests)
    {
      for i := 0 to |requests|
        invariant Valid() && remote == old(remote)
        invariant s == AllIssued(old(s), requests[..i])
      {
        AllIssuedStep(old(s), requests, i);
        assert requests[i] in requests;
        if orderly {
          ReadyAt(root, inventory, requests, s, i);
        }
        Emit(Issued(requests[i]));
      }
      assert requests[..|requests|] == requests;
    }

    /** One task finishes, in any way. */
    method JoinCreate(r: Request) returns (stop: bool)
      requires Valid() && !s.stopped && r.CreateDirectory? && remote == initial + s.inserted
      modifies this
      ensures Valid() && remote == initial + s.inserted
      ensures Grows(old(s), s, {r}) && s.issued == old(s).issued && r in s.answered
      ensures s.outstanding == old(s).outstanding - multiset{r}
      ensures SameBytes(old(s), s) && s.tombstoned == old(s).tombstoned && s.cancelled == old(s).cancelled
      ensures s.stopped == stop
    {
      InsertLast(initial, s.inserted, r);
      var outcome := Answer(r);
      stop := IsStopOutcome(outcome);
    }

    /** Joins the tasks of a batch in whatever order they finish. */
    method JoinCreates(requests: seq<Request>) returns (stop: bool)
      requires Valid() && !s.stopped && !s.cancelled && s.outstanding == multiset(requests)
      requires forall r | r in requests :: r.CreateDirectory?
      requires remote == initial + s.inserted
      modifies this
      ensures Valid() && remote == initial + s.inserted
      ensures Grows(old(s), s, RequestSet(requests))
      ensures SameBytes(old(s), s) && s.tombstoned == old(s).tombstoned
      ensures stop ==> s.stopped
      ensures !stop ==> Quiet(s) && RequestSet(requests) <= s.answered
    {
      var running := requests;
      while running != []
        invariant Valid() && remote == initial + s.inserted
        invariant !s.stopped && !s.cancelled && s.outstanding == multiset(running)
        invariant Grows(old(s), s, RequestSet(requests))
        invariant SameBytes(old(s), s) && s.tombstoned == old(s).tombstoned
        invariant RequestSet(running) <= RequestSet(requests) <= s.answered + RequestSet(running)
        decreases |running|
      {
        var k :| 0 <= k < |running|;
        RemoveAt(running, k);
        assert running[k] in RequestSet(requests);
        stop := JoinCreate(running[k]);
        if stop {
          return;
        }
        running := running[..k] + running[k + 1..];
      }
      return false;
    }

    /** One batch of creates: all are started, then joined. */
    method CreateRound(batch: seq<DirectoryEntry>, ghost concurrency: nat) returns (stop: bool)
      requires |batch| <= concurrency
      requires Valid() && Quiet(s) && remote == initial + s.inserted
      requires orderly ==> AllReady(root, batch, s, inventory)
      modifies this
      ensures Valid() && remote == initial + s.inserted
      ensures Grows(old(s), s, CreateSet(batch)) && SameBytes(old(s), s) && s.tombstoned == old(s).tombstoned
      ensures stop ==> s.stopped
      ensures !stop ==> Quiet(s) && CreateSet(batch) <= s.answered
    {
      var requests := CreateRequests(batch);
      RequestsMembers(batch);
      NoUploadBytes(requests);
      if orderly {
        BatchReady(root, inventory, batch, s);
      }
      StartCreates(requests);
      stop := JoinCreates(requests);
    }

    method CreateLevel(level: seq<DirectoryEntry>, concurrency: nat) returns (stop: bool)
      requires Valid() && Quiet(s) && concurrency > 0 && remote == initial + s.inserted && Named(level, [])
      requires orderly ==> AllSettled(root, level, plan.deleted, s, inventory)
      modifies this, plan`deleted
      ensures Valid() && remote == initial + s.inserted
      ensures Grows(old(s), s, AllowedCreates(world, level)) && SameBytes(old(s), s)
      ensures TombstonesTrack(old(s), s, old(plan.deleted), plan.deleted)
      ensures stop ==> s.stopped || s.cancelled
      ensures !stop ==> Quiet(s)
      ensures !stop ==> forall d | d in level :: Handled(world, d, plan.deleted, s)
    {
      var pending := level;
      while pending != []
        invariant Valid() && Quiet(s) && remote == initial + s.inserted && Named(pending, [])
        invariant LevelAt(world, old(s), s, old(plan.deleted), plan.deleted, level, pending)
        invariant orderly ==> AllSettled(root, pending, plan.deleted, s, inventory)
        decreases |pending|
      {
        var cancelled := Poll();
        if cancelled {
          return true;
        }
        ghost var before, deletedBefore := s, plan.deleted;
        var batch, rest := TakeCreateBatch(pending, concurrency);
        ghost var taken := s;
        if batch != [] {
          stop := CreateRound(batch, concurrency);
          LevelGrows(world, old(s), before, taken, s, old(plan.deleted), deletedBefore, plan.deleted,
                     level, pending, batch, rest);
          if stop {
            return;
          }
        }
        LevelStep(world, old(s), before, taken, s, old(plan.deleted), deletedBefore, plan.deleted,
                  level, pending, batch, rest);
        if orderly {
          StillSettled(root, inventory, before, s, deletedBefore, plan.deleted, pending, rest);
        }
        pending := rest;
      }
      return false;
    }

    method ApplyCreateDirectories(creates: seq<DirectoryEntry>, concurrency: nat) returns (stop: bool)
      requires Valid() && Quiet(s) && remote == initial + s.inserted
      requires Named(creates, []) && (orderly ==> Ordered(root, creates, inventory, plan.deleted))
      modifies this, plan`deleted
      ensures Valid() && remote == initial + s.inserted
      ensures Grows(old(s), s, AllowedCreates(world, creates)) && SameBytes(old(s), s)
      ensures TombstonesTrack(old(s), s, old(plan.deleted), plan.deleted)
      ensures stop ==> s.stopped || s.cancelled
      ensures !stop ==> Quiet(s)
      ensures !stop ==> forall d | d in creates :: Handled(world, d, plan.deleted, s)
    {
      var bound := DepthBound(creates);
      for depth := 0 to bound
        invariant Valid() && Quiet(s) && remote == initial + s.inserted
        invariant Grows(old(s), s, AllowedCreates(world, creates)) && SameBytes(old(s), s)
        invariant TombstonesTrack(old(s), s, old(plan.deleted), plan.deleted)
        invariant forall d | d in creates && RelativeDepth(d.rel) < depth :: Handled(world, d, plan.deleted, s)
      {
        var level := AtDepth(creates, depth);
        if orderly {
          ParentsSettled(world, root, creates, inventory, depth, plan.deleted, s);
        }
        assert AllowedCreates(world, level) <= AllowedCreates(world, creates);
        stop := CreateLevel(level, if concurrency > 0 then concurrency else 1);
        if stop {
          return;
        }
      }
      return false;
    }

    // ----- uploads

    /** Starts one upload unless its subtree has vanished. */
    method StartUpload(job: UploadJob) returns (started: bool)
      requires Valid() && job.file in plan.files
      modifies this, plan`deleted
      ensures Valid() && remote == old(remote)
      ensures started <==> !Covered(old(plan.deleted), job.file.rel) && Present(world, BeforeUpload(job.file.local))
      ensures started ==> s == After(old(s), Issued(UploadRequest(job))) && plan.deleted == old(plan.deleted)
      ensures !started ==> s == old(s).(tombstoned := s.tombstoned) && Covered(plan.deleted, job.file.rel)
      ensures TombstonesTrack(old(s), s, old(plan.deleted), plan.deleted) && (old(s).tombstoned ==> s.tombstoned)
    {
      if plan.IsDeleted(job.file.rel) {
        return false;
      }
      var found := RegisterMissing(BeforeUpload(job.file.local), job.file.rel, job.file.remote);
      GoneCovers(old(plan.deleted), world, BeforeUpload(job.file.local), job.file.rel);
      if found {
        return false;
      }
      Emit(Issued(UploadRequest(job)));
      return true;
    }

    /** Starts the tasks of a batch, leaving out files whose subtree has vanished. */
    method StartUploads(batch: seq<UploadJob>) returns (running: seq<UploadJob>)
      requires Valid() && Quiet(s) && JobsOf(batch, plan.files)
      modifies this, plan`deleted
      ensures Valid() && remote == old(remote) && forall j | j in running :: j in batch
      ensures UploadsStarted(world, old(s), s, old(plan.deleted), plan.deleted, batch, running)
    {
      running := [];
      StartedNone(world, s, plan.deleted);
      assert batch[..0] == [];
      for i := 0 to |batch|
        invariant Valid() && remote == old(remote)
        invariant UploadsStarted(world, old(s), s, old(plan.deleted), plan.deleted, batch[..i], running)
        invariant forall j | j in running :: j in batch
      {
        assert batch[..i + 1] == batch[..i] + [batch[i]];
        ghost var before, deletedBefore := s, plan.deleted;
        var started := StartUpload(batch[i]);
        StartedStep(world, old(s), before, s, old(plan.deleted), deletedBefore, plan.deleted,
                    batch[..i], running, batch[i], started);
        if started {
          running := running + [batch[i]];
        }
      }
      assert batch[..|batch|] == batch;
    }

    /** One upload finishes.  A failed upload whose local subtree has vanished is excused. */
    method JoinUpload(job: UploadJob) returns (stop: bool, bytes: nat)
      requires Valid() && !s.stopped && remote == initial + s.inserted && job.file in plan.files
      modifies this, plan`deleted
      ensures Valid() && remote == initial + s.inserted
      ensures UploadJoined(old(s), s, old(plan.deleted), plan.deleted, job, stop, bytes)
      ensures trace != [] && Judged(trace[|trace| - 1], job, plan.deleted, stop, bytes)
      ensures log == old(log) + RecordsOf(trace[|trace| - 1], job)
      ensures !trace[|trace| - 1].outcome.Done? ==>
        (trace[|trace| - 1].excused <==> Excuses(world, job.file.local, old(plan.deleted)))
    {
      var r := UploadRequest(job);
      var outcome: Outcome := *;
      InsertLast(initial, s.inserted, r);
      if !outcome.Done? {
        stop := FailUpload(job, outcome);
        return stop, 0;
      }
      RecordsFit(root, inventory, Joined(r, outcome, false), job, plan.files);
      Emit(Joined(r, outcome, false), RecordsOf(Joined(r, outcome, false), job));
      return false, job.file.size;
    }

    /** The reaction to an upload that was not done.  One that is skipped is recorded all the same. */
    method FailUpload(job: UploadJob, outcome: Outcome) returns (stop: bool)
      requires Valid() && !s.stopped && !outcome.Done? && job.file in plan.files
      modifies this, plan`deleted
      ensures Valid() && remote == old(remote) && s.inserted == old(s).inserted
      ensures UploadJoined(old(s), s, old(plan.deleted), plan.deleted, job, stop, 0)
      ensures trace != [] && Judged(trace[|trace| - 1], job, plan.deleted, stop, 0)
      ensures trace[|trace| - 1].outcome == outcome && log == old(log) + RecordsOf(trace[|trace| - 1], job)
      ensures trace[|trace| - 1].excused <==> Excuses(world, job.file.local, old(plan.deleted))
    {
      var found := RegisterMissing(AfterFailure(job.file.local), job.file.rel, job.file.remote);
      ghost var asked := s;
      var e := Joined(UploadRequest(job), outcome, found);
      RecordsFit(root, inventory, e, job, plan.files);
      Emit(e, RecordsOf(e, job));
      FailJoined(old(s), asked, s, old(plan.deleted), plan.deleted, job, outcome, found);
      return !found && IsStopOutcome(outcome);
    }

    method JoinUploads(jobs: seq<UploadJob>) returns (stop: bool, bytes: nat)
      requires Valid() && !s.stopped && !s.cancelled && s.outstanding == multiset(UploadRequests(jobs))
      requires remote == initial + s.inserted && JobsOf(jobs, plan.files)
      modifies this, plan`deleted
      ensures Valid() && remote == initial + s.inserted && s.issuedBytes == old(s).issuedBytes
      ensures Grows(old(s), s, RequestSet(UploadRequests(jobs)))
      ensures TombstonesTrack(old(s), s, old(plan.deleted), plan.deleted)
      ensures s.uploaded == old(s).uploaded + bytes && bytes <= JobBytes(jobs)
      ensures stop ==> s.stopped
      ensures !stop ==> Quiet(s) && RequestSet(UploadRequests(jobs)) <= s.answered
    {
      var running := jobs;
      bytes := 0;
      while running != []
        invariant Valid() && remote == initial + s.inserted && !s.stopped && JobsOf(running, plan.files)
        invariant UploadsJoining(old(s), s, old(plan.deleted), plan.deleted, jobs, running, bytes)
        decreases |running|
      {
        var k :| 0 <= k < |running|;
        FewerJobs(running, k, plan.files);
        ghost var before, deletedBefore := s, plan.deleted;
        var finished, n := JoinUpload(running[k]);
        JoiningStep(old(s), before, s, old(plan.deleted), deletedBefore, plan.deleted,
                    jobs, running, k, bytes, finished, n);
        bytes := bytes + n;
        running := running[..k] + running[k + 1..];
        if finished {
          JoiningMeans(old(s), s, old(plan.deleted), plan.deleted, jobs, running, bytes);
          return true, bytes;
        }
      }
      JoiningMeans(old(s), s, old(plan.deleted), plan.deleted, jobs, running, bytes);
      stop := false;
    }

    method ApplyUploads(jobs: seq<UploadJob>, concurrency: nat, largeThreshold: nat) returns (stop: bool, bytes: nat)
      requires Valid() && Quiet(s) && remote == initial + s.inserted && JobsOf(jobs, plan.files)
      modifies this, plan`deleted
      ensures Valid() && remote == initial + s.inserted
      ensures Grows(old(s), s, AllowedUploads(world, jobs)) && s.issuedBytes <= old(s).issuedBytes + JobBytes(jobs)
      ensures TombstonesTrack(old(s), s, old(plan.deleted), plan.deleted)
      ensures s.uploaded == old(s).uploaded + bytes && bytes <= JobBytes(jobs)
      ensures stop ==> s.stopped || s.cancelled
      ensures !stop ==> Quiet(s)
      ensures !stop ==> forall j | j in jobs :: Sent(world, j, plan.deleted, s)
    {
      var pending := jobs;
      bytes := 0;
      while pending != []
        invariant Valid() && Quiet(s) && remote == initial + s.inserted && JobsOf(pending, plan.files)
        invariant Sending(world, old(s), s, old(plan.deleted), plan.deleted, jobs, pending, bytes)
        decreases |pending|
      {
        var cancelled := Poll();
        if cancelled {
          return true, bytes;
        }
        ghost var before, deletedBefore, batch := s, plan.deleted, pending;
        var finished, n, deferred;
        finished, n, deferred, batch := NextRound(pending, concurrency, largeThreshold);
        SendGrows(world, old(s), before, s, old(plan.deleted), deletedBefore, plan.deleted,
                  jobs, pending, bytes, batch, deferred, n);
        if finished {
          return true, bytes + n;
        }
        SendStep(world, old(s), before, s, old(plan.deleted), deletedBefore, plan.deleted,
                 jobs, pending, bytes, batch, deferred, n);
        pending, bytes := deferred, bytes + n;
      }
      stop := false;
    }

    /** Takes a batch off the queue and uploads it. */
    method NextRound(pending: seq<UploadJob>, concurrency: nat, largeThreshold: nat)
      returns (stop: bool, bytes: nat, deferred: seq<UploadJob>, ghost batch: seq<UploadJob>)
      requires Valid() && Quiet(s) && remote == initial + s.inserted && JobsOf(pending, plan.files)
      requires pending != []
      modifies this, plan`deleted
      ensures Valid() && remote == initial + s.inserted
      ensures RoundSent(world, old(s), s, old(plan.deleted), plan.deleted, batch, bytes)
      ensures |deferred| < |pending| && JobBytes(batch) + JobBytes(deferred) == JobBytes(pending)
      ensures (forall j :: j in pending <==> j in batch || j in deferred) && JobsOf(deferred, plan.files)
      ensures stop ==> s.stopped
      ensures !stop ==> Quiet(s) && forall j | j in batch :: Sent(world, j, plan.deleted, s)
    {
      var large := (j: UploadJob) => j.file.size >= largeThreshold;
      var limit: nat := if concurrency > 0 then concurrency else 1;
      var scheduled;
      scheduled, deferred := UploadBatch.TakeBatch(pending, limit, large);
      SplitJobs(pending, limit, large);
      UploadBatch.OneLarge(scheduled, large);
      batch := scheduled;
      stop, bytes := UploadRound(scheduled, concurrency, largeThreshold);
    }

    /** At most `concurrency` uploads run at once, one if that is zero, and at most one large file among them. */
    method UploadRound(batch: seq<UploadJob>, ghost concurrency: nat, ghost largeThreshold: nat)
      returns (stop: bool, bytes: nat)
      requires |batch| <= 1 || |batch| <= concurrency
      requires forall i, j | 0 <= i < j < |batch| ::
        batch[i].file.size < largeThreshold || batch[j].file.size < largeThreshold
      requires Valid() && Quiet(s) && remote == initial + s.inserted && JobsOf(batch, plan.files)
      modifies this, plan`deleted
      ensures Valid() && remote == initial + s.inserted
      ensures RoundSent(world, old(s), s, old(plan.deleted), plan.deleted, batch, bytes)
      ensures stop ==> s.stopped
      ensures !stop ==> Quiet(s)
      ensures !stop ==> forall j | j in batch :: Sent(world, j, plan.deleted, s)
    {
      var running := StartUploads(batch);
      UploadMembers(running);
      RequestBytes(running);
      stop, bytes := JoinUploads(running);
    }

    // ----- deletes

    /** A check or a delete is issued and answered. */
    method Ask(r: Request, ghost mark: seq<StateOp> := []) returns (outcome: Outcome)
      requires Valid() && Quiet(s) && (r.CheckMetadata? || r.DeletePermanently?)
      requires r.DeletePermanently? ==> DeleteAllowed(trace, fromCache, r.path)
      requires LogStep(root, inventory, plan.files, Joined(r, Done, false), mark)
      modifies this
      ensures Valid() && AskedAnswered(old(s), s, r, outcome)
      ensures trace != [] && trace[|trace| - 1] == Joined(r, outcome, false)
      ensures remote == if outcome.Done? then Apply(old(remote), r) else old(remote)
      ensures honest == (old(honest) && (outcome == Failed(NotFound) ==> r.path !in old(remote)))
      ensures log == old(log) + (if outcome.Done? || outcome == Failed(NotFound) then mark else [])
    {
      Emit(Issued(r));
      outcome := Answer(r, mark);
      AskedStep(old(s), r, outcome);
    }

    /** The check of a cached path: `present` lets the delete go ahead. */
    method CheckCached(p: Path) returns (present: bool, stop: bool)
      requires Valid() && Quiet(s)
      modifies this
      ensures Valid() && remote == old(remote) && log == old(log) && (honest ==> old(honest))
      ensures Grows(old(s), s, {CheckMetadata(p)}) && SameBytes(old(s), s) && s.inserted == old(s).inserted
      ensures CheckMetadata(p) in s.answered
      ensures stop ==> s.stopped
      ensures !stop ==> Quiet(s)
      ensures !present && !s.failed && honest ==> p !in remote
      ensures present ==> !stop && trace != [] && trace[|trace| - 1] == Joined(CheckMetadata(p), Done, false)
    {
      var outcome := Ask(CheckMetadata(p));
      present, stop := outcome.Done?, IsStopOutcome(outcome);
    }

    /** Deletes the path.  That it is not there counts as success; a deleted file is marked in the table. */
    method DeleteNow(op: DeleteOp) returns (stop: bool)
      requires Valid() && Quiet(s) && DeleteAllowed(trace, fromCache, op.path) && OpFits(root, inventory, op)
      modifies this
      ensures Valid() && (honest ==> old(honest))
      ensures Grows(old(s), s, {DeletePermanently(op.path)}) && SameBytes(old(s), s) && s.inserted == old(s).inserted
      ensures DeletePermanently(op.path) in s.answered
      ensures stop ==> s.stopped
      ensures !stop ==> Quiet(s)
      ensures !s.failed && honest ==> remote == Apply(old(remote), DeletePermanently(op.path))
      ensures !s.failed ==> log == old(log) + Mark(op)
    {
      var outcome := Ask(DeletePermanently(op.path), Mark(op));
      GoneIsDeleted(old(remote), op.path);
      stop := IsStopOutcome(outcome);
    }

    /** One delete; on a cached inventory the path is checked first. */
    method DeleteOne(op: DeleteOp) returns (stop: bool)
      requires Valid() && Quiet(s) && s.passed == ALL_GUARDS && OpFits(root, inventory, op)
      modifies this
      ensures Valid() && (honest ==> old(honest))
      ensures DeleteGrows(old(s), s, op.path)
      ensures DeleteAnswered(s, op.path, fromCache)
      ensures stop ==> s.stopped
      ensures !stop ==> Quiet(s)
      ensures !stop && !s.failed && honest ==> remote == Apply(old(remote), DeletePermanently(op.path))
    {
      if fromCache {
        var present;
        present, stop := CheckCached(op.path);
        CheckGrows(old(s), s, op.path);
        if !present {
          return;
        }
      }
      ghost var checked := s;
      stop := DeleteNow(op);
      NowGrows(old(s), checked, s, op.path);
    }

    /** The next delete, unless the run has been cancelled. */
    method DeleteNext(op: DeleteOp) returns (stop: bool)
      requires Valid() && Quiet(s) && s.passed == ALL_GUARDS && OpFits(root, inventory, op)
      modifies this
      ensures Valid() && (honest ==> old(honest))
      ensures DeleteGrows(old(s), s, op.path)
      ensures stop ==> s.stopped || s.cancelled
      ensures !stop ==> Quiet(s) && DeleteAnswered(s, op.path, fromCache)
      ensures !stop && !s.failed && honest ==> remote == Apply(old(remote), DeletePermanently(op.path))
    {
      var cancelled := Poll();
      if cancelled {
        return true;
      }
      stop := DeleteOne(op);
    }

    /** What the delete phase removes, for the tombstones recorded by then. */
    ghost function DeleteTargets(): set<Path>
      reads this, plan
    {
      Targets(root, KnownLive(root, plan.directories, plan.files, plan.deleted), inventory)
    }

    method ApplyDeletes() returns (stop: bool)
      requires Valid() && Quiet(s) && s.passed == ALL_GUARDS
      modifies this
      ensures Valid()
      ensures Grows(old(s), s, DeleteSet(DeleteTargets())) && SameBytes(old(s), s) && s.inserted == old(s).inserted
      ensures stop ==> s.stopped || s.cancelled
      ensures !stop ==> Quiet(s) && forall p | p in DeleteTargets() :: DeleteAnswered(s, p, fromCache)
      ensures !stop && !s.failed && honest && Removable(old(remote), DeleteTargets()) ==>
        remote == WithoutSubtrees(old(remote), DeleteTargets())
    {
      var known := KnownLive(root, plan.directories, plan.files, plan.deleted);
      var ops := CollectCoalescedDeletes(root, known, inventory);
      ghost var targets := DeleteTargets();
      NothingRemoved(remote);
      for i := 0 to |ops|
        invariant Valid() && Quiet(s)
        invariant DeletesDone(old(s), s, old(remote), remote, honest, targets, OpPaths(ops[..i]), fromCache)
      {
        assert ops[i] in ops && ops[i].path in targets;
        OpPathsStep(ops, i);
        ghost var before, remoteBefore, honestBefore := s, remote, honest;
        stop := DeleteNext(ops[i]);
        DeletesStep(old(s), before, s, old(remote), remoteBefore, remote, honestBefore, honest,
                    targets, OpPaths(ops[..i]), ops[i].path, fromCache, stop);
        if stop {
          return;
        }
      }
      assert ops[..|ops|] == ops;
      return false;
    }
  }

  /** A deleted file is marked in the file-state table, a directory in another one. */
  function Mark(op: DeleteOp): seq<StateOp> {
    if op.kind == File then [MarkedDeleted(op.relative, PathText.Text(op.path))] else []
  }

  /** One check or delete has been issued and answered. */
  predicate AskedAnswered(s: Summary, s': Summary, r: Request, o: Outcome) {
    && Grows(s, s', {r}) && SameBytes(s, s') && s'.inserted == s.inserted && r in s'.answered
    && s'.stopped == IsStopOutcome(o) && (IsStopOutcome(o) || Quiet(s'))
    && (!s'.failed ==> o.Done? || o == Failed(NotFound))
  }

  lemma AskedStep(s: Summary, r: Request, o: Outcome)
    requires Quiet(s) && (r.CheckMetadata? || r.DeletePermanently?)
    ensures AskedAnswered(s, After(After(s, Issued(r)), Joined(r, o, false)), r, o)
  {
    assert multiset{r} - multiset{r} == multiset{};
  }

  lemma GoneIsDeleted(t: Tree, p: Path)
    ensures p !in t ==> Apply(t, DeletePermanently(p)) == t
  {
  }

  /** One path was checked or deleted, nothing else happened. */
  predicate DeleteGrows(s0: Summary, s: Summary, p: Path) {
    && Grows(s0, s, {CheckMetadata(p), DeletePermanently(p)})
    && SameBytes(s0, s) && s.inserted == s0.inserted
  }

  lemma CheckGrows(s0: Summary, s: Summary, p: Path)
    requires Grows(s0, s, {CheckMetadata(p)}) && SameBytes(s0, s) && s.inserted == s0.inserted
    ensures DeleteGrows(s0, s, p)
  {
  }

  lemma NowGrows(s0: Summary, s1: Summary, s2: Summary, p: Path)
    requires s1 == s0 || DeleteGrows(s0, s1, p)
    requires Grows(s1, s2, {DeletePermanently(p)}) && SameBytes(s1, s2) && s2.inserted == s1.inserted
    ensures DeleteGrows(s0, s2, p)
  {
  }

  /** The deletes of the paths in `done` are through, nothing else happened. */
  ghost predicate DeletesDone(s0: Summary, s: Summary, r0: Tree, r: Tree, honest: bool, targets: set<Path>,
                              done: set<Path>, fromCache: bool)
  {
    && Grows(s0, s, DeleteSet(targets)) && SameBytes(s0, s) && s.inserted == s0.inserted
    && (forall p | p in done :: DeleteAnswered(s, p, fromCache))
    && (!s.failed && honest && Removable(r0, targets) ==> r == WithoutSubtrees(r0, done))
  }

  lemma DeletesStep(s0: Summary, s: Summary, s': Summary, r0: Tree, r: Tree, r': Tree, honest: bool, honest': bool,
                    targets: set<Path>, done: set<Path>, p: Path, fromCache: bool, stop: bool)
    requires DeletesDone(s0, s, r0, r, honest, targets, done, fromCache) && p in targets
    requires DeleteGrows(s, s', p) && (honest' ==> honest)
    requires !stop ==> DeleteAnswered(s', p, fromCache)
    requires !stop && !s'.failed && honest' ==> r' == Apply(r, DeletePermanently(p))
    ensures Grows(s0, s', DeleteSet(targets)) && SameBytes(s0, s') && s'.inserted == s0.inserted
    ensures !stop ==> DeletesDone(s0, s', r0, r', honest', targets, done + {p}, fromCache)
  {
    assert {CheckMetadata(p), DeletePermanently(p)} <= DeleteSet(targets);
    if Removable(r0, targets) {
      RemoveStep(r0, targets, done, p);
    }
  }

  /** The delete was answered, or the check before it was and kept it back. */
  predicate DeleteAnswered(s: Summary, p: Path, fromCache: bool) {
    DeletePermanently(p) in s.answered || (fromCache && CheckMetadata(p) in s.answered)
  }

  /** The upload phase under way: each job is still queued or has been sent. */
  ghost predicate Sending(world: World, s0: Summary, s: Summary, deleted0: seq<Tombstone>, deleted: seq<Tombstone>,
                          jobs: seq<UploadJob>, pending: seq<UploadJob>, bytes: nat)
  {
    && Grows(s0, s, AllowedUploads(world, jobs)) && TombstonesTrack(s0, s, deleted0, deleted)
    && s.uploaded == s0.uploaded + bytes && bytes + JobBytes(pending) <= JobBytes(jobs)
    && s.issuedBytes + JobBytes(pending) <= s0.issuedBytes + JobBytes(jobs)
    && (forall j | j in pending :: j in jobs)
    && (forall j | j in jobs :: j in pending || Sent(world, j, deleted, s))
  }

  /** A round of uploads: those of `batch`, with `n` bytes counted. */
  ghost predicate RoundSent(world: World, s: Summary, s': Summary, deleted: seq<Tombstone>, deleted': seq<Tombstone>,
                            batch: seq<UploadJob>, n: nat)
  {
    && Grows(s, s', AllowedUploads(world, batch)) && TombstonesTrack(s, s', deleted, deleted')
    && s'.uploaded == s.uploaded + n && n <= JobBytes(batch) && s'.issuedBytes <= s.issuedBytes + JobBytes(batch)
  }

  lemma SendGrows(world: World, s0: Summary, s: Summary, s': Summary, deleted0: seq<Tombstone>, deleted: seq<Tombstone>,
                  deleted': seq<Tombstone>, jobs: seq<UploadJob>, pending: seq<UploadJob>, bytes: nat,
                  batch: seq<UploadJob>, deferred: seq<UploadJob>, n: nat)
    requires Sending(world, s0, s, deleted0, deleted, jobs, pending, bytes)
    requires RoundSent(world, s, s', deleted, deleted', batch, n) && forall j | j in batch :: j in pending
    requires JobBytes(batch) + JobBytes(deferred) == JobBytes(pending)
    ensures Grows(s0, s', AllowedUploads(world, jobs)) && TombstonesTrack(s0, s', deleted0, deleted')
    ensures s'.uploaded == s0.uploaded + bytes + n && bytes + n + JobBytes(deferred) <= JobBytes(jobs)
    ensures s'.issuedBytes + JobBytes(deferred) <= s0.issuedBytes + JobBytes(jobs)
  {
    assert AllowedUploads(world, batch) <= AllowedUploads(world, jobs);
  }

  lemma SendStep(world: World, s0: Summary, s: Summary, s': Summary, deleted0: seq<Tombstone>, deleted: seq<Tombstone>,
                 deleted': seq<Tombstone>, jobs: seq<UploadJob>, pending: seq<UploadJob>, bytes: nat,
                 batch: seq<UploadJob>, deferred: seq<UploadJob>, n: nat)
    requires Sending(world, s0, s, deleted0, deleted, jobs, pending, bytes)
    requires RoundSent(world, s, s', deleted, deleted', batch, n)
    requires forall j :: j in pending <==> j in batch || j in deferred
    requires JobBytes(batch) + JobBytes(deferred) == JobBytes(pending)
    requires forall j | j in batch :: Sent(world, j, deleted', s')
    ensures Sending(world, s0, s', deleted0, deleted', jobs, deferred, bytes + n)
  {
    SendGrows(world, s0, s, s', deleted0, deleted, deleted', jobs, pending, bytes, batch, deferred, n);
    forall j | j in jobs ensures j in deferred || Sent(world, j, deleted', s') {
      assert j in pending || Sent(world, j, deleted, s);
    }
  }

  /** One upload has been answered. */
  ghost predicate UploadJoined(s0: Summary, s: Summary, deleted0: seq<Tombstone>, deleted: seq<Tombstone>,
                               job: UploadJob, stop: bool, bytes: nat)
  {
    && Grows(s0, s, {UploadRequest(job)}) && s.issued == s0.issued && UploadRequest(job) in s.answered
    && s.outstanding == s0.outstanding - multiset{UploadRequest(job)}
    && TombstonesTrack(s0, s, deleted0, deleted)
    && s.uploaded == s0.uploaded + bytes && bytes <= job.file.size && s.issuedBytes == s0.issuedBytes
    && s.cancelled == s0.cancelled && s.stopped == stop
  }

  /** A finished upload is recorded, and so is a skipped one unless its subtree has vanished. */
  function RecordsOf(e: Event, job: UploadJob): seq<StateOp>
    requires e.Joined?
  {
    if e.outcome.Done? || (e.outcome.Skipped? && !e.excused) then [Recorded(job.file)] else []
  }

  lemma RecordsFit(root: Path, inventory: Tree, e: Event, job: UploadJob, files: seq<FileEntry>)
    requires e.Joined? && e.answered == UploadRequest(job) && job.file in files
    ensures LogStep(root, inventory, files, e, RecordsOf(e, job))
  {
  }

  lemma FailJoined(s0: Summary, s1: Summary, s2: Summary, deleted0: seq<Tombstone>, deleted: seq<Tombstone>,
                   job: UploadJob, outcome: Outcome, found: bool)
    requires !s0.stopped && !outcome.Done? && TombstonesTrack(s0, s1, deleted0, deleted)
    requires s1 == s0.(tombstoned := s1.tombstoned) && (s0.tombstoned ==> s1.tombstoned)
    requires s2 == After(s1, Joined(UploadRequest(job), outcome, found))
    ensures UploadJoined(s0, s2, deleted0, deleted, job, !found && IsStopOutcome(outcome), 0)
    ensures s2.inserted == s0.inserted
  {
  }

  /** All uploads of the round but those in `running` have been answered. */
  ghost predicate UploadsJoining(s0: Summary, s: Summary, deleted0: seq<Tombstone>, deleted: seq<Tombstone>,
                                 jobs: seq<UploadJob>, running: seq<UploadJob>, bytes: nat)
  {
    var all, open := RequestSet(UploadRequests(jobs)), RequestSet(UploadRequests(running));
    && Grows(s0, s, all) && TombstonesTrack(s0, s, deleted0, deleted)
    && !s.cancelled && s.outstanding == multiset(UploadRequests(running))
    && s.uploaded == s0.uploaded + bytes && bytes + JobBytes(running) <= JobBytes(jobs)
    && s.issuedBytes == s0.issuedBytes
    && open <= all <= s.answered + open
  }

  lemma JoiningStep(s0: Summary, s: Summary, s': Summary, deleted0: seq<Tombstone>, deleted: seq<Tombstone>,
                    deleted': seq<Tombstone>, jobs: seq<UploadJob>, running: seq<UploadJob>, k: nat,
                    bytes: nat, stop: bool, n: nat)
    requires k < |running| && UploadsJoining(s0, s, deleted0, deleted, jobs, running, bytes)
    requires UploadJoined(s, s', deleted, deleted', running[k], stop, n)
    ensures UploadsJoining(s0, s', deleted0, deleted', jobs, running[..k] + running[k + 1..], bytes + n)
  {
    RemoveJob(running, k);
  }

  lemma JoiningMeans(s0: Summary, s: Summary, deleted0: seq<Tombstone>, deleted: seq<Tombstone>,
                     jobs: seq<UploadJob>, running: seq<UploadJob>, bytes: nat)
    requires UploadsJoining(s0, s, deleted0, deleted, jobs, running, bytes)
    ensures bytes <= JobBytes(jobs)
    ensures running == [] ==> s.outstanding == multiset{} && RequestSet(UploadRequests(jobs)) <= s.answered
  {
    if running == [] {
      assert UploadRequests(running) == [];
    }
  }

  lemma FewerJobs(jobs: seq<UploadJob>, k: nat, files: seq<FileEntry>)
    requires k < |jobs| && JobsOf(jobs, files)
    ensures jobs[k].file in files && JobsOf(jobs[..k] + jobs[k + 1..], files)
  {
    assert jobs[k] in jobs;
    assert forall j | j in jobs[..k] + jobs[k + 1..] :: j in jobs;
  }

  /** The answer to an upload: its bytes count if it is done; it stops unless its subtree has vanished. */
  predicate Judged(e: Event, job: UploadJob, deleted: seq<Tombstone>, stop: bool, bytes: nat) {
    && IsAnswer(e, UploadRequest(job))
    && bytes == (if e.outcome.Done? then job.file.size else 0)
    && stop == Ends(e)
    && (e.excused ==> Covered(deleted, job.file.rel))
  }

  function DeleteSet(ps: set<Path>): set<Request> {
    (set p | p in ps :: DeletePermanently(p)) + (set p | p in ps :: CheckMetadata(p))
  }

  function WithoutSubtrees(t: Tree, ps: set<Path>): Tree {
    map q | q in t && !CoveredBy(q, ps) :: t[q]
  }

  /** Each of these paths is a directory in t or has nothing below it. */
  ghost predicate Removable(t: Tree, ps: set<Path>) {
    forall p, q | p in ps && q in t && p < q :: p in t && t[p] == Directory
  }

  lemma NothingRemoved(t: Tree)
    ensures WithoutSubtrees(t, {}) == t
  {
  }

  lemma OpPathsStep(ops: seq<DeleteOp>, i: nat)
    requires i < |ops|
    ensures OpPaths(ops[..i + 1]) == OpPaths(ops[..i]) + {ops[i].path}
    ensures OpPaths(ops[..0]) == {}
  {
    assert ops[..i + 1] == ops[..i] + [ops[i]];
  }

  /** Deleting one more target removes exactly one more subtree. */
  lemma RemoveStep(t: Tree, targets: set<Path>, done: set<Path>, p: Path)
    requires Removable(t, targets) && p in targets
    ensures Apply(WithoutSubtrees(t, done), DeletePermanently(p)) == WithoutSubtrees(t, done + {p})
  {
    var before := WithoutSubtrees(t, done);
    var after := Apply(before, DeletePermanently(p));
    forall q | q in before && p <= q ensures p in before && (before[p] == Directory || q == p) {
      CoverInherited(p, q, done);
      assert !CoveredBy(q, done);
      assert !CoveredBy(p, done);
      if q != p {
        assert q in t && p < q;
        assert p in t && t[p] == Directory;
      }
    }
    forall q ensures CoveredBy(q, done + {p}) <==> CoveredBy(q, done) || p <= q {
    }
    assert after == WithoutSubtrees(t, done + {p});
  }

  function UploadRequest(j: UploadJob): Request {
    UploadOf(j.file)
  }

  /** A level under way: each directory is still queued or has been handled. */
  ghost predicate LevelAt(world: World, s0: Summary, s: Summary, deleted0: seq<Tombstone>, deleted: seq<Tombstone>,
                          level: seq<DirectoryEntry>, pending: seq<DirectoryEntry>)
  {
    && Grows(s0, s, AllowedCreates(world, level)) && SameBytes(s0, s) && TombstonesTrack(s0, s, deleted0, deleted)
    && (forall d | d in pending :: d in level)
    && (forall d | d in level :: d in pending || Handled(world, d, deleted, s))
  }

  /** A batch was taken and its creates were issued: `s1` before, `s2` after. */
  ghost predicate RoundDone(s1: Summary, s2: Summary, batch: seq<DirectoryEntry>) {
    s2 == s1 || (Grows(s1, s2, CreateSet(batch)) && SameBytes(s1, s2) && s2.tombstoned == s1.tombstoned)
  }

  lemma LevelGrows(world: World, s0: Summary, s: Summary, s1: Summary, s2: Summary,
                   deleted0: seq<Tombstone>, deleted: seq<Tombstone>, deleted': seq<Tombstone>,
                   level: seq<DirectoryEntry>, pending: seq<DirectoryEntry>,
                   batch: seq<DirectoryEntry>, rest: seq<DirectoryEntry>)
    requires LevelAt(world, s0, s, deleted0, deleted, level, pending) && RoundDone(s1, s2, batch)
    requires Taking(world, s, s1, deleted, deleted', pending, batch, rest)
    ensures Grows(s0, s2, AllowedCreates(world, level)) && SameBytes(s0, s2)
    ensures TombstonesTrack(s0, s2, deleted0, deleted')
  {
    assert CreateSet(batch) <= AllowedCreates(world, level);
  }

  lemma LevelStep(world: World, s0: Summary, s: Summary, s1: Summary, s2: Summary,
                  deleted0: seq<Tombstone>, deleted: seq<Tombstone>, deleted': seq<Tombstone>,
                  level: seq<DirectoryEntry>, pending: seq<DirectoryEntry>,
                  batch: seq<DirectoryEntry>, rest: seq<DirectoryEntry>)
    requires LevelAt(world, s0, s, deleted0, deleted, level, pending) && RoundDone(s1, s2, batch)
    requires Taking(world, s, s1, deleted, deleted', pending, batch, rest) && CreateSet(batch) <= s2.answered
    ensures LevelAt(world, s0, s2, deleted0, deleted', level, rest)
  {
    LevelGrows(world, s0, s, s1, s2, deleted0, deleted, deleted', level, pending, batch, rest);
    assert s.answered <= s2.answered;
    forall d | d in level ensures d in rest || Handled(world, d, deleted', s2) {
      assert d in batch ==> CreateDirectory(d.remote) in CreateSet(batch);
    }
  }

  lemma StillSettled(root: Path, inventory: Tree, s: Summary, s': Summary, deleted: seq<Tombstone>,
                     deleted': seq<Tombstone>, pending: seq<DirectoryEntry>, rest: seq<DirectoryEntry>)
    requires AllSettled(root, pending, deleted, s, inventory) && s.answered <= s'.answered
    requires forall rel | Covered(deleted, rel) :: Covered(deleted', rel)
    requires forall d | d in rest :: d in pending
    ensures AllSettled(root, rest, deleted', s', inventory)
  {
    forall d | d in rest ensures ParentSettled(root, d, deleted', s', inventory) {
      assert ParentSettled(root, d, deleted, s, inventory);
    }
  }

  /** Taking directories off the queue: each is in the batch, still queued, or lies under a tombstone. */
  ghost predicate Taking(world: World, s0: Summary, s: Summary, deleted0: seq<Tombstone>, deleted: seq<Tombstone>,
                         pending: seq<DirectoryEntry>, batch: seq<DirectoryEntry>, rest: seq<DirectoryEntry>)
  {
    && s == s0.(tombstoned := s.tombstoned) && (s0.tombstoned ==> s.tombstoned)
    && TombstonesTrack(s0, s, deleted0, deleted)
    && |rest| <= |pending|
    && (forall d | d in batch || d in rest :: d in pending)
    && (forall d | d in batch :: Present(world, BeforeCreate(d.local)) && !Covered(deleted0, d.rel))
    && (forall d | d in pending :: d in batch || d in rest || Covered(deleted, d.rel))
  }

  lemma TakingStep(world: World, s0: Summary, s: Summary, s': Summary,
                   deleted0: seq<Tombstone>, deleted: seq<Tombstone>, deleted': seq<Tombstone>,
                   pending: seq<DirectoryEntry>, batch: seq<DirectoryEntry>, rest: seq<DirectoryEntry>, taken: bool)
    requires rest != [] && Taking(world, s0, s, deleted0, deleted, pending, batch, rest)
    requires TombstonesTrack(s, s', deleted, deleted') && (s.tombstoned ==> s'.tombstoned)
    requires s' == s.(tombstoned := s'.tombstoned) && (!taken ==> Covered(deleted', rest[0].rel))
    requires taken ==> Present(world, BeforeCreate(rest[0].local)) && !Covered(deleted', rest[0].rel)
    ensures Taking(world, s0, s', deleted0, deleted', pending, if taken then batch + [rest[0]] else batch, rest[1..])
  {
    assert rest == [rest[0]] + rest[1..];
  }

  /** And the parents of the batch are ready, if they must be. */
  ghost predicate TakingReady(world: World, root: Path, inventory: Tree, s0: Summary, s: Summary,
                              deleted0: seq<Tombstone>, deleted: seq<Tombstone>, pending: seq<DirectoryEntry>,
                              batch: seq<DirectoryEntry>, rest: seq<DirectoryEntry>, orderly: bool)
  {
    && Taking(world, s0, s, deleted0, deleted, pending, batch, rest)
    && (orderly ==> AllSettled(root, pending, deleted0, s0, inventory) && AllReady(root, batch, s, inventory))
  }

  /** A directory that is not under a tombstone has a parent that is ready. */
  lemma ReadyStep(world: World, root: Path, inventory: Tree, s0: Summary, s: Summary, s': Summary,
                  deleted0: seq<Tombstone>, deleted: seq<Tombstone>, deleted': seq<Tombstone>,
                  pending: seq<DirectoryEntry>, batch: seq<DirectoryEntry>, rest: seq<DirectoryEntry>, taken: bool,
                  orderly: bool)
    requires rest != []
    requires TakingReady(world, root, inventory, s0, s, deleted0, deleted, pending, batch, rest, orderly)
    requires TombstonesTrack(s, s', deleted, deleted') && (s.tombstoned ==> s'.tombstoned)
    requires s' == s.(tombstoned := s'.tombstoned) && (!taken ==> Covered(deleted', rest[0].rel))
    requires taken ==> Present(world, BeforeCreate(rest[0].local)) && !Covered(deleted', rest[0].rel)
    ensures TakingReady(world, root, inventory, s0, s', deleted0, deleted', pending,
                        if taken then batch + [rest[0]] else batch, rest[1..], orderly)
  {
    TakingStep(world, s0, s, s', deleted0, deleted, deleted', pending, batch, rest, taken);
    var d := rest[0];
    assert orderly ==> ParentSettled(root, d, deleted0, s0, inventory);
  }

  /** The jobs upload files of the plan. */
  ghost predicate JobsOf(jobs: seq<UploadJob>, files: seq<FileEntry>) {
    forall j | j in jobs :: j.file in files
  }

  /** The bytes that these requests upload. */
  function BytesOf(rs: seq<Request>): nat {
    if rs == [] then 0 else BytesOf(rs[..|rs| - 1]) + UploadSize(rs[|rs| - 1])
  }

  lemma {:induction false} RequestBytes(jobs: seq<UploadJob>)
    ensures BytesOf(UploadRequests(jobs)) == JobBytes(jobs)
  {
    if jobs != [] {
      var rest, last := jobs[..|jobs| - 1], jobs[|jobs| - 1];
      RequestBytes(rest);
      assert UploadRequests(jobs)[..|jobs| - 1] == UploadRequests(rest);
      assert jobs == rest + [last];
      JobBytesConcat(rest, [last]);
    }
  }

  lemma {:induction false} NoUploadBytes(rs: seq<Request>)
    requires forall r | r in rs :: r.CreateDirectory?
    ensures BytesOf(rs) == 0
  {
    if rs != [] {
      assert rs[|rs| - 1] in rs;
      NoUploadBytes(rs[..|rs| - 1]);
    }
  }

  function UploadRequests(jobs: seq<UploadJob>): seq<Request> {
    seq(|jobs|, i requires 0 <= i < |jobs| => UploadRequest(jobs[i]))
  }

  function UploadSet(jobs: seq<UploadJob>): set<Request> {
    set j | j in jobs :: UploadRequest(j)
  }

  lemma UploadMembers(jobs: seq<UploadJob>)
    ensures RequestSet(UploadRequests(jobs)) == UploadSet(jobs)
  {
    var rs := UploadRequests(jobs);
    forall j | j in jobs ensures UploadRequest(j) in rs {
      var i :| 0 <= i < |jobs| && jobs[i] == j;
      assert rs[i] == UploadRequest(j);
    }
    forall r | r in rs ensures r in UploadSet(jobs) {
      var i :| 0 <= i < |rs| && rs[i] == r;
      assert jobs[i] in jobs;
    }
  }

  lemma UploadRequestsAppend(jobs: seq<UploadJob>, j: UploadJob)
    ensures UploadRequests(jobs + [j]) == UploadRequests(jobs) + [UploadRequest(j)]
    ensures RequestSet(UploadRequests(jobs + [j])) == RequestSet(UploadRequests(jobs)) + {UploadRequest(j)}
    ensures multiset(UploadRequests(jobs + [j])) == multiset(UploadRequests(jobs)) + multiset{UploadRequest(j)}
  {
    assert UploadRequests(jobs + [j]) == UploadRequests(jobs) + [UploadRequest(j)];
  }

  /** The jobs in `running` have been issued, the rest of `done` lies under a tombstone. */
  ghost predicate UploadsStarted(world: World, s0: Summary, s: Summary,
                                 deleted0: seq<Tombstone>, deleted: seq<Tombstone>,
                                 done: seq<UploadJob>, running: seq<UploadJob>)
  {
    && s == AllIssued(s0, UploadRequests(running)).(tombstoned := s.tombstoned)
    && (s0.tombstoned ==> s.tombstoned)
    && TombstonesTrack(s0, s, deleted0, deleted)
    && UploadSet(running) <= AllowedUploads(world, done)
    && JobBytes(running) <= JobBytes(done)
    && (forall j | j in done :: Started(world, j, RequestSet(UploadRequests(running)), deleted))
  }

  predicate Started(world: World, j: UploadJob, running: set<Request>, deleted: seq<Tombstone>) {
    Covered(deleted, j.file.rel) || (Present(world, BeforeUpload(j.file.local)) && UploadRequest(j) in running)
  }

  lemma StartedNone(world: World, s: Summary, deleted: seq<Tombstone>)
    ensures UploadsStarted(world, s, s, deleted, deleted, [], [])
  {
    assert AllIssued(s, UploadRequests([])) == s;
  }

  lemma UploadSetAppend(jobs: seq<UploadJob>, j: UploadJob)
    ensures UploadSet(jobs + [j]) == UploadSet(jobs) + {UploadRequest(j)}
    ensures JobBytes(jobs + [j]) == JobBytes(jobs) + j.file.size
  {
    JobBytesConcat(jobs, [j]);
    assert forall x :: x in jobs + [j] <==> x in jobs || x == j;
  }

  lemma AllowedAppend(world: World, jobs: seq<UploadJob>, j: UploadJob)
    ensures AllowedUploads(world, jobs + [j]) ==
      AllowedUploads(world, jobs) + (if Present(world, BeforeUpload(j.file.local)) then {UploadRequest(j)} else {})
  {
    assert forall x :: x in jobs + [j] <==> x in jobs || x == j;
  }

  lemma StartedStep(world: World, s0: Summary, s: Summary, s': Summary,
                    deleted0: seq<Tombstone>, deleted: seq<Tombstone>, deleted': seq<Tombstone>,
                    done: seq<UploadJob>, running: seq<UploadJob>, j: UploadJob, started: bool)
    requires UploadsStarted(world, s0, s, deleted0, deleted, done, running)
    requires TombstonesTrack(s, s', deleted, deleted')
    requires started ==> s' == After(s, Issued(UploadRequest(j))) && Present(world, BeforeUpload(j.file.local))
    requires !started ==> s' == s.(tombstoned := s'.tombstoned) && Covered(deleted', j.file.rel)
    requires s.tombstoned ==> s'.tombstoned
    ensures UploadsStarted(world, s0, s', deleted0, deleted', done + [j], if started then running + [j] else running)
  {
    UploadSetAppend(done, j);
    AllowedAppend(world, done, j);
    if started {
      UploadSetAppend(running, j);
      UploadRequestsAppend(running, j);
      StartedIssued(s0, s, running, j);
    }
    StartedMore(world, done, j, RequestSet(UploadRequests(running)),
                RequestSet(UploadRequests(if started then running + [j] else running)), deleted, deleted');
  }

  lemma StartedMore(world: World, done: seq<UploadJob>, j: UploadJob, running: set<Request>, running': set<Request>,
                    deleted: seq<Tombstone>, deleted': seq<Tombstone>)
    requires running <= running' && forall rel | Covered(deleted, rel) :: Covered(deleted', rel)
    requires (forall x | x in done :: Started(world, x, running, deleted)) && Started(world, j, running', deleted')
    ensures forall x | x in done + [j] :: Started(world, x, running', deleted')
  {
    forall x | x in done + [j] ensures Started(world, x, running', deleted') {
      assert x in done ==> Started(world, x, running, deleted);
    }
  }

  lemma StartedIssued(s0: Summary, s: Summary, running: seq<UploadJob>, j: UploadJob)
    requires s == AllIssued(s0, UploadRequests(running)).(tombstoned := s.tombstoned)
    ensures After(s, Issued(UploadRequest(j))) ==
      AllIssued(s0, UploadRequests(running + [j])).(tombstoned := s.tombstoned)
  {
    var rs, r := UploadRequests(running), UploadRequest(j);
    UploadRequestsAppend(running, j);
    AllIssuedAppend(s0, rs, r);
    TombstoneAside(AllIssued(s0, rs), s.tombstoned, r);
  }

  lemma TombstoneAside(s: Summary, tombstoned: bool, r: Request)
    ensures After(s.(tombstoned := tombstoned), Issued(r)) == After(s, Issued(r)).(tombstoned := tombstoned)
  {
  }

  lemma AllIssuedAppend(s: Summary, rs: seq<Request>, r: Request)
    ensures AllIssued(s, rs + [r]) == After(AllIssued(s, rs), Issued(r))
  {
    var all := rs + [r];
    AllIssuedStep(s, all, |rs|);
    assert all[..|rs|] == rs && all[..|rs| + 1] == all;
  }

  lemma {:induction false} JobBytesConcat(a: seq<UploadJob>, b: seq<UploadJob>)
    ensures JobBytes(a + b) == JobBytes(a) + JobBytes(b)
  {
    if a == [] {
      assert a + b == b;
    } else {
      JobBytesConcat(a[1..], b);
      assert (a + b)[1..] == a[1..] + b;
    }
  }

  lemma RemoveJob(jobs: seq<UploadJob>, k: nat)
    requires k < |jobs|
    ensures var rest, r := jobs[..k] + jobs[k + 1..], UploadRequest(jobs[k]);
      && multiset(UploadRequests(rest)) == multiset(UploadRequests(jobs)) - multiset{r}
      && RequestSet(UploadRequests(jobs)) == RequestSet(UploadRequests(rest)) + {r}
      && JobBytes(jobs) == JobBytes(rest) + jobs[k].file.size
  {
    var rest := jobs[..k] + jobs[k + 1..];
    var rs := UploadRequests(jobs);
    RemoveAt(rs, k);
    assert UploadRequests(rest) == rs[..k] + rs[k + 1..];
    JobBytesConcat(jobs[..k], jobs[k + 1..]);
    JobBytesConcat(jobs[..k], jobs[k..]);
    assert jobs == jobs[..k] + jobs[k..];
  }

  /** Splitting the queue keeps the jobs and their bytes. */
  lemma SplitJobs(queue: seq<UploadJob>, limit: nat, large: UploadJob -> bool)
    ensures var x := UploadBatch.SplitQueue(queue, limit, true, large);
      && JobBytes(x.selected) + JobBytes(x.deferred) == JobBytes(queue)
      && (forall j :: j in queue <==> j in x.selected || j in x.deferred)
      && (limit > 0 && queue != [] ==> |x.deferred| < |queue|)
      && |x.selected| <= limit && UploadBatch.LargeCount(x.selected, large) <= 1
  {
    var x := UploadBatch.SplitQueue(queue, limit, true, large);
    SplitBytes(queue, limit, true, large);
    UploadBatch.SplitKeepsAll(queue, limit, true, large);
    UploadBatch.SplitCounts(queue, limit, true, large);
    forall j ensures j in queue <==> j in x.selected || j in x.deferred {
      assert j in queue <==> j in multiset(queue);
      assert j in x.selected <==> j in multiset(x.selected);
      assert j in x.deferred <==> j in multiset(x.deferred);
    }
  }

  lemma {:induction false} SplitBytes(queue: seq<UploadJob>, room: nat, free: bool, large: UploadJob -> bool)
    ensures var x := UploadBatch.SplitQueue(queue, room, free, large);
      JobBytes(x.selected) + JobBytes(x.deferred) == JobBytes(queue)
  {
    if queue != [] {
      var c := queue[0];
      if room > 0 && (!large(c) || free) {
        SplitBytes(queue[1..], room - 1, free && !large(c), large);
        JobBytesConcat([c], UploadBatch.SplitQueue(queue[1..], room - 1, free && !large(c), large).selected);
      } else {
        SplitBytes(queue[1..], room, free, large);
        JobBytesConcat([c], UploadBatch.SplitQueue(queue[1..], room, free, large).deferred);
      }
    }
  }

  lemma RequestsMembers(ds: seq<DirectoryEntry>)
    ensures RequestSet(CreateRequests(ds)) == CreateSet(ds)
    ensures forall r | r in CreateRequests(ds) :: r.CreateDirectory?
  {
    var rs := CreateRequests(ds);
    forall d | d in ds ensures CreateDirectory(d.remote) in rs {
      var i :| 0 <= i < |ds| && ds[i] == d;
      assert rs[i] == CreateDirectory(d.remote);
    }
    forall r | r in rs ensures r in CreateSet(ds) {
      var i :| 0 <= i < |rs| && rs[i] == r;
      assert ds[i] in ds;
    }
  }

  function RequestSet(rs: seq<Request>): set<Request> {
    set r | r in rs
  }

  /** The summary once all these requests are issued. */
  function AllIssued(s: Summary, rs: seq<Request>): Summary {
    s.(issued := s.issued + RequestSet(rs), outstanding := s.outstanding + multiset(rs),
       issuedBytes := s.issuedBytes + BytesOf(rs))
  }

  predicate CreatesReady(root: Path, inventory: Tree, rs: seq<Request>, answered: set<Request>) {
    forall i | 0 <= i < |rs| ::
      rs[i].CreateDirectory? &&
      (root < rs[i].path ==>
         || (Parent(rs[i].path) in inventory && inventory[Parent(rs[i].path)] == Directory)
         || CreateDirectory(Parent(rs[i].path)) in answered)
  }

  lemma ReadyAt(root: Path, inventory: Tree, rs: seq<Request>, s: Summary, i: nat)
    requires i < |rs| && CreatesReady(root, inventory, rs, s.answered)
    ensures rs[i].CreateDirectory? && (root < rs[i].path ==> ParentReady(s, inventory, rs[i].path))
  {
  }

  lemma BatchReady(root: Path, inventory: Tree, batch: seq<DirectoryEntry>, s: Summary)
    requires AllReady(root, batch, s, inventory)
    ensures CreatesReady(root, inventory, CreateRequests(batch), s.answered)
  {
    forall i | 0 <= i < |batch| ensures batch[i] in batch {
    }
  }

  lemma AllIssuedStep(s: Summary, rs: seq<Request>, i: nat)
    requires i < |rs|
    ensures AllIssued(s, rs[..i + 1]) == After(AllIssued(s, rs[..i]), Issued(rs[i]))
  {
    var before, after := rs[..i], rs[..i + 1];
    assert after == before + [rs[i]];
    assert RequestSet(after) == RequestSet(before) + {rs[i]};
    assert multiset(after) == multiset(before) + multiset{rs[i]};
    assert after[..i] == before;
    assert s.issued + RequestSet(after) == s.issued + RequestSet(before) + {rs[i]};
  }

  lemma RemoveAt(rs: seq<Request>, k: nat)
    requires k < |rs|
    ensures var rest := rs[..k] + rs[k + 1..];
      && multiset(rest) == multiset(rs) - multiset{rs[k]}
      && RequestSet(rs) == RequestSet(rest) + {rs[k]}
  {
    assert rs == rs[..k] + [rs[k]] + rs[k + 1..];
  }

  lemma InsertLast(t: Tree, inserted: Tree, r: Request)
    requires r.CreateDirectory? || r.Upload?
    ensures Apply(t + inserted, r) == t + Insert(inserted, r)
  {
  }

  /** What the order of creates rests on: parents are planned first, and the root is not tombstoned. */
  ghost predicate Ordered(root: Path, creates: seq<DirectoryEntry>, inventory: Tree, deleted: seq<Tombstone>) {
    CreatesClosed(root, creates, inventory) && !Covered(deleted, ROOT_REL)
  }

  /** The empty relative text lies under no recorded tombstone. */
  lemma NotRoot(t: Tombstone, deleted: seq<Tombstone>)
    requires t.rel != [] && t.rel != ROOT_REL
    ensures !(t.rel <= ROOT_REL)
  {
    var cut := if |t.rel| <= 1 then ROOT_REL[..|t.rel|] else [];
  }

  /** Once all shallower creates are handled, each parent at this depth is settled. */
  lemma ParentsSettled(world: World, root: Path, creates: seq<DirectoryEntry>, inventory: Tree, depth: nat,
                       deleted: seq<Tombstone>, s: Summary)
    requires Ordered(root, creates, inventory, deleted)
    requires forall d | d in creates && RelativeDepth(d.rel) < depth :: Handled(world, d, deleted, s)
    ensures forall d | d in creates && RelativeDepth(d.rel) == depth :: ParentSettled(root, d, deleted, s, inventory)
  {
    forall d | d in creates && RelativeDepth(d.rel) == depth ensures ParentSettled(root, d, deleted, s, inventory) {
      if root < d.remote && !HasKind(inventory, Parent(d.remote), Directory) {
        var e :| e in creates && Before(e, d) && e.remote == Parent(d.remote);
        assert RelativeDepth(e.rel) < RelativeDepth(d.rel);
        assert Handled(world, e, deleted, s);
        if Covered(deleted, e.rel) {
          CoverTransitive(deleted, e.rel);
        }
      }
    }
  }
}
