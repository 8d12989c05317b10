/**
 * The scanner: a walk over the local tree that leaves out excluded subtrees, and for each
 * file the decision whether the fingerprint of an earlier run is still good.
 */
module Scanner {
  import opened Paths
  import opened PathText
  import opened PathMapping
  import opened LocalNames
  import opened NameMapping
  import opened Sorting
  import opened LiveScan
  import opened LiveSet
  import opened DeletePlan
  import opened DeleteSafety

  datatype LocalEntry = LocalDirectory | LocalFile(size: nat, mtime: Option<int>) | LocalOther

  /** The local tree below the managed root, by the names on the file system. */
  type LocalTree = map<Path, LocalEntry>

  datatype FileState = FileState(size: int, mtime: Option<int>, normalized: string, kind: FingerprintKind,
                                 value: Option<string>, fullSha256: Option<string>, remoteMd5: Option<string>)

  /** The rows of the file-state table, by relative path. */
  type States = map<Path, FileState>

  datatype Digests = Digests(sha256: string, md5: string)

  /**
   * The managed root, the limits, and what the outside world answers about a local path:
   * `staged` says that no database backup is needed or that it succeeds.
   */
  datatype Settings = Settings(
    root: Path, maxFileSize: nat, fullHashMax: nat,
    excluded: (Path, bool) -> bool, normalize: Path -> string, readable: Path -> bool, staged: Path -> bool,
    hash: Path -> Option<Digests>, metadataValue: (nat, Option<int>) -> string)

  /** What a run writes to the file-state table. */
  datatype StateOp = Recorded(file: FileEntry) | MarkedDeleted(rel: Path, remoteText: string)

  const TWO_63: nat := 0x8000_0000_0000_0000

  /** `size as i64`: wraps. */
  function WrapI64(n: nat): int {
    var low := n % (2 * TWO_63);
    if low < TWO_63 then low else low - 2 * TWO_63
  }

  /** `i64::try_from(size).unwrap_or(i64::MAX)`: saturates. */
  function SaturateI64(n: nat): int {
    if n < TWO_63 then n else TWO_63 - 1
  }

  /** The cast keeps the low 64 bits and reads them as a signed number. */
  lemma WrapRange(n: nat)
    ensures 0 <= WrapI64(n) + TWO_63 && WrapI64(n) < TWO_63
    ensures exists k: nat :: n == WrapI64(n) + k * (2 * TWO_63)
  {
    var k := n / (2 * TWO_63);
    assert n == n % (2 * TWO_63) + k * (2 * TWO_63);
    assert WrapI64(n) + k * (2 * TWO_63) == n || WrapI64(n) + (k + 1) * (2 * TWO_63) == n;
  }

  /** A recorded size compares equal to the size it came from exactly below 2^63. */
  lemma SizeRoundTripIff(n: nat)
    requires n < 2 * TWO_63
    ensures WrapI64(n) == SaturateI64(n) <==> n < TWO_63
  {
    assert n % (2 * TWO_63) == n;
  }

  // ----- entries

  function RemoteOf(cfg: Settings, rel: Path): Path
    requires rel != []
  {
    cfg.root + Image(rel)
  }

  function NormalizedOf(cfg: Settings, rel: Path): string
    requires rel != []
  {
    cfg.normalize(RemoteOf(cfg, rel))
  }

  function DirEntryOf(cfg: Settings, local: Path): DirectoryEntry {
    var rel := RelOf(local);
    DirectoryEntry(local, rel, RemoteOf(cfg, rel), NormalizedOf(cfg, rel))
  }

  predicate StateMatches(state: FileState, size: nat, mtime: Option<int>, normalized: string) {
    state.size == WrapI64(size) && state.mtime == mtime && state.normalized == normalized
  }

  function FingerprintFor(cfg: Settings, local: Path, size: nat, mtime: Option<int>): Option<Fingerprint> {
    if !cfg.staged(local) then None
    else if size <= cfg.fullHashMax then
      match cfg.hash(local)
      case None => None
      case Some(d) => Some(Fingerprint(Sha256, d.sha256, Some(d.sha256), Some(d.md5), false))
    else Some(Fingerprint(Metadata, cfg.metadataValue(size, mtime), None, None, false))
  }

  function ReusedFingerprint(state: FileState): Fingerprint {
    var value := if state.value.Some? then state.value.value else "";
    Fingerprint(state.kind, value, state.fullSha256, state.remoteMd5, true)
  }

  /** The live entry for a file, or nothing if it is skipped or fails. */
  function FileEntryOf(cfg: Settings, previous: States, local: Path, size: nat, mtime: Option<int>): Option<FileEntry> {
    var rel := RelOf(local);
    if !cfg.readable(local) || !Maps(rel) || size > cfg.maxFileSize then None
    else
      var remote, normalized := RemoteOf(cfg, rel), NormalizedOf(cfg, rel);
      if rel in previous && StateMatches(previous[rel], size, mtime, normalized) then
        Some(FileEntry(local, rel, remote, normalized, size, mtime, ReusedFingerprint(previous[rel])))
      else
        match FingerprintFor(cfg, local, size, mtime)
        case None => None
        case Some(f) => Some(FileEntry(local, rel, remote, normalized, size, mtime, f))
  }

  /** A reused fingerprint is that of a row with the same size, modification time and normalised path, and only then. */
  lemma ReusedIff(cfg: Settings, previous: States, local: Path, size: nat, mtime: Option<int>)
    requires size < TWO_63 && FileEntryOf(cfg, previous, local, size, mtime).Some?
    ensures var f, rel := FileEntryOf(cfg, previous, local, size, mtime).value, RelOf(local);
      && (f.fingerprint.reusedFromState <==>
            && rel in previous && previous[rel].size == size && previous[rel].mtime == mtime
            && previous[rel].normalized == cfg.normalize(cfg.root + Image(rel)))
      && (f.fingerprint.reusedFromState ==>
            && f.fingerprint.kind == previous[rel].kind && f.fingerprint.fullSha256 == previous[rel].fullSha256
            && f.fingerprint.localMd5 == previous[rel].remoteMd5
            && f.fingerprint.value == match previous[rel].value case Some(value) => value case None => "")
  {
  }

  function FullFingerprint(d: Digests): Fingerprint {
    Fingerprint(Sha256, d.sha256, Some(d.sha256), Some(d.md5), false)
  }

  /** A new fingerprint is the digest of a small file, or made of size and time for a large one. */
  lemma NewFingerprint(cfg: Settings, previous: States, local: Path, size: nat, mtime: Option<int>)
    requires FileEntryOf(cfg, previous, local, size, mtime).Some?
    requires !FileEntryOf(cfg, previous, local, size, mtime).value.fingerprint.reusedFromState
    ensures var p := FileEntryOf(cfg, previous, local, size, mtime).value.fingerprint;
      && cfg.staged(local)
      && (size <= cfg.fullHashMax ==> cfg.hash(local).Some? && p == FullFingerprint(cfg.hash(local).value))
      && (size > cfg.fullHashMax ==> p == Fingerprint(Metadata, cfg.metadataValue(size, mtime), None, None, false))
  {
  }

  predicate LiveDirectory(cfg: Settings, local: LocalTree, p: Path) {
    p != [] && p in local && local[p].LocalDirectory? && !cfg.excluded(p, true) && Maps(RelOf(p))
  }

  function LiveFile(cfg: Settings, local: LocalTree, previous: States, p: Path): Option<FileEntry> {
    if p != [] && p in local && local[p].LocalFile? && !cfg.excluded(p, false)
    then FileEntryOf(cfg, previous, p, local[p].size, local[p].mtime)
    else None
  }

  // ----- the walk

  /** The walk goes below p unless p is excluded; a directory that cannot be mapped is entered. */
  predicate Descends(cfg: Settings, local: LocalTree, p: Path) {
    p in local && local[p].LocalDirectory? && !cfg.excluded(p, true)
  }

  /** An entry is reached when the walk descends into all its ancestors. */
  predicate Reached(cfg: Settings, local: LocalTree, p: Path) {
    p in local && p != [] && forall n | 1 <= n < |p| :: Descends(cfg, local, p[..n])
  }

  function Children(local: LocalTree, p: Path): set<Path> {
    set q | q in local && |q| == |p| + 1 && p < q
  }

  /** The directory entries are those of the live directories visited. */
  ghost predicate DirsAre(cfg: Settings, local: LocalTree, dirs: seq<DirectoryEntry>, visited: set<Path>) {
    forall d :: d in dirs <==> d.local in visited && LiveDirectory(cfg, local, d.local) && d == DirEntryOf(cfg, d.local)
  }

  /** The file entries are those of the live files visited. */
  ghost predicate FilesAre(cfg: Settings, local: LocalTree, previous: States, files: seq<FileEntry>, visited: set<Path>)
  {
    forall f :: f in files <==> f.local in visited && LiveFile(cfg, local, previous, f.local) == Some(f)
  }

  /** ... each once. */
  ghost predicate DirsFit(cfg: Settings, local: LocalTree, dirs: seq<DirectoryEntry>, visited: set<Path>) {
    && (forall i, j | 0 <= i < j < |dirs| :: dirs[i].local != dirs[j].local)
    && DirsAre(cfg, local, dirs, visited)
  }

  ghost predicate FilesFit(cfg: Settings, local: LocalTree, previous: States, files: seq<FileEntry>, visited: set<Path>)
  {
    && (forall i, j | 0 <= i < j < |files| :: files[i].local != files[j].local)
    && FilesAre(cfg, local, previous, files, visited)
  }

  /** Where the walk is: what it has visited, what it has found and not yet visited. */
  ghost predicate WalkState(cfg: Settings, local: LocalTree, visited: set<Path>, pending: set<Path>) {
    && visited !! pending
    && Children(local, []) <= visited + pending
    && (forall p | p in visited && Descends(cfg, local, p) :: Children(local, p) <= visited + pending)
    && (forall p | p in visited + pending :: p in local && p != [])
    && (forall p | p in visited + pending && |p| > 1 :: Parent(p) in visited && Descends(cfg, local, Parent(p)))
  }

  lemma ReachedStep(cfg: Settings, local: LocalTree, p: Path)
    requires |p| > 1
    ensures Reached(cfg, local, p) <==> p in local && Reached(cfg, local, Parent(p)) && Descends(cfg, local, Parent(p))
  {
    var up := Parent(p);
    assert forall n | 1 <= n < |up| :: up[..n] == p[..n];
    assert p[..|up|] == up;
  }

  lemma {:induction false} WalkReaches(cfg: Settings, local: LocalTree, visited: set<Path>, p: Path)
    requires WalkState(cfg, local, visited, {})
    ensures p in visited <==> Reached(cfg, local, p)
    decreases |p|
  {
    if |p| > 1 {
      ReachedStep(cfg, local, p);
      WalkReaches(cfg, local, visited, Parent(p));
      assert p in local && Descends(cfg, local, Parent(p)) ==> p in Children(local, Parent(p));
    } else {
      assert p in local && |p| == 1 ==> p in Children(local, []);
    }
  }

  lemma WalkStep(cfg: Settings, local: LocalTree, visited: set<Path>, pending: set<Path>, p: Path)
    requires WalkState(cfg, local, visited, pending) && p in pending
    ensures WalkState(cfg, local, visited + {p},
                      pending - {p} + (if Descends(cfg, local, p) then Children(local, p) else {}))
  {
    var found := if Descends(cfg, local, p) then Children(local, p) else {};
    var v, n := visited + {p}, pending - {p} + found;
    forall q | q in found ensures q !in v && q in local && |q| > 1 && Parent(q) == p && Descends(cfg, local, p) {
      assert |q| > 1 && Parent(q) == p;
    }
    assert visited + pending <= v + n;
    forall q | q in v + n && |q| > 1 ensures Parent(q) in v && Descends(cfg, local, Parent(q)) {
      assert q in visited + pending || q in found;
    }
    forall q | q in v && Descends(cfg, local, q) ensures Children(local, q) <= v + n {
      assert q in visited || q == p;
    }
  }

  /** Handles one entry of the walk. */
  method HandleWalkEntry(cfg: Settings, local: LocalTree, previous: States, p: Path, ghost visited: set<Path>,
                         dirs: seq<DirectoryEntry>, files: seq<FileEntry>)
    returns (dirs': seq<DirectoryEntry>, files': seq<FileEntry>, descend: bool)
    requires p != [] && p in local && p !in visited
    requires DirsFit(cfg, local, dirs, visited) && FilesFit(cfg, local, previous, files, visited)
    ensures DirsFit(cfg, local, dirs', visited + {p}) && FilesFit(cfg, local, previous, files', visited + {p})
    ensures descend <==> Descends(cfg, local, p)
  {
    dirs', files' := dirs, files;
    match local[p]
    case LocalDirectory =>
      descend := !cfg.excluded(p, true);
      if descend && Maps(RelOf(p)) {
        dirs' := dirs + [DirEntryOf(cfg, p)];
      }
    case LocalFile(size, mtime) =>
      descend := false;
      if !cfg.excluded(p, false) {
        var entry := FileEntryOf(cfg, previous, p, size, mtime);
        if entry.Some? {
          files' := files + [entry.value];
        }
      }
    case LocalOther =>
      descend := false;
  }

  /** The report holds exactly the live entries that the walk reaches, whatever its order. */
  method ScanRoot(cfg: Settings, local: LocalTree, previous: States)
    returns (dirs: seq<DirectoryEntry>, files: seq<FileEntry>)
    ensures DirsFit(cfg, local, dirs, ReachedSet(cfg, local))
    ensures FilesFit(cfg, local, previous, files, ReachedSet(cfg, local))
  {
    var pending := Children(local, []);
    var visited: set<Path> := {};
    dirs, files := [], [];
    while pending != {}
      invariant WalkState(cfg, local, visited, pending)
      invariant visited <= local.Keys
      invariant DirsFit(cfg, local, dirs, visited) && FilesFit(cfg, local, previous, files, visited)
      decreases local.Keys - visited
    {
      var p :| p in pending;
      WalkStep(cfg, local, visited, pending, p);
      var descend;
      dirs, files, descend := HandleWalkEntry(cfg, local, previous, p, visited, dirs, files);
      visited := visited + {p};
      pending := pending - {p} + (if descend then Children(local, p) else {});
    }
    assert visited == ReachedSet(cfg, local) by {
      forall p ensures p in visited <==> Reached(cfg, local, p) {
        WalkReaches(cfg, local, visited, p);
      }
    }
  }

  function ReachedSet(cfg: Settings, local: LocalTree): set<Path> {
    set p | p in local && Reached(cfg, local, p)
  }

  /** No reached name holds a backslash; names on a file system are not empty and hold no slash. */
  ghost predicate OrdinaryNames(cfg: Settings, local: LocalTree) {
    forall p | Reached(cfg, local, p) :: Ordinary(p)
  }

  /**
   * What every report gives the sync engine: entries carry the relative paths of their local
   * ones and are stored under the images of these.  Without backslashes in names, every
   * ancestor of an entry with a plain name is itself a reported directory.
   */
  lemma ReportIsClosed(cfg: Settings, local: LocalTree, previous: States, dirs: seq<DirectoryEntry>,
                       files: seq<FileEntry>)
    requires DirsAre(cfg, local, dirs, ReachedSet(cfg, local))
    requires FilesAre(cfg, local, previous, files, ReachedSet(cfg, local))
    ensures Named(dirs, files) && Mapped(cfg.root, dirs, files) && NormalizedFromRemote(dirs, files)
    ensures OrdinaryNames(cfg, local) ==> WalkClosed(dirs, files)
  {
    ReportEntries(cfg, local, previous, dirs, files);
    if OrdinaryNames(cfg, local) {
      forall r, q | r in Rels(dirs, files) && q != [] && q < r && Plain(q) ensures q in DirRels(dirs) {
        OrdinaryReport(cfg, local, previous, dirs, files, r);
        OrdinaryAncestor(cfg, local, dirs, r, q);
      }
    }
  }

  /** What a file entry says about itself. */
  lemma FileFacts(cfg: Settings, local: LocalTree, previous: States, f: FileEntry)
    requires LiveFile(cfg, local, previous, f.local) == Some(f)
    ensures f.local in local && local[f.local] == LocalFile(f.size, f.mtime)
    ensures f.rel == RelOf(f.local) && Maps(f.rel) && f.remote == RemoteOf(cfg, f.rel)
    ensures f.normalized == NormalizedOf(cfg, f.rel)
  {
  }

  lemma ReportEntries(cfg: Settings, local: LocalTree, previous: States, dirs: seq<DirectoryEntry>,
                      files: seq<FileEntry>)
    requires DirsAre(cfg, local, dirs, ReachedSet(cfg, local))
    requires FilesAre(cfg, local, previous, files, ReachedSet(cfg, local))
    ensures Named(dirs, files) && Mapped(cfg.root, dirs, files) && NormalizedFromRemote(dirs, files)
    ensures forall d | d in dirs :: Reached(cfg, local, d.local) && Maps(RelOf(d.local))
    ensures forall f | f in files :: Reached(cfg, local, f.local) && Maps(RelOf(f.local))
  {
    forall f | f in files
      ensures f.rel == RelOf(f.local) && f.remote == RemoteOf(cfg, f.rel) && f.normalized == cfg.normalize(f.remote)
      ensures Reached(cfg, local, f.local) && Maps(RelOf(f.local))
    {
      FileFacts(cfg, local, previous, f);
    }
    forall d | d in dirs
      ensures d.rel == RelOf(d.local) && d.remote == RemoteOf(cfg, d.rel) && d.normalized == cfg.normalize(d.remote)
      ensures Reached(cfg, local, d.local) && Maps(RelOf(d.local))
    {
      assert d == DirEntryOf(cfg, d.local);
    }
  }

  /** Without backslashes, a directory with a plain name above what the walk reaches is reported. */
  lemma OrdinaryAncestor(cfg: Settings, local: LocalTree, dirs: seq<DirectoryEntry>, r: Path, q: Path)
    requires DirsAre(cfg, local, dirs, ReachedSet(cfg, local)) && OrdinaryNames(cfg, local)
    requires r != [] && Reached(cfg, local, r) && Maps(r) && q != [] && q < r && Plain(q)
    ensures q in DirRels(dirs)
  {
    AncestorReached(cfg, local, r, q);
    OrdinaryRel(q);
    AncestorMaps(r, q);
    assert DirEntryOf(cfg, q) in dirs;
  }

  /** No directory above the entry is excluded. */
  ghost predicate NothingExcludedAbove(cfg: Settings, p: Path) {
    forall n | 1 <= n < |p| :: !cfg.excluded(p[..n], true)
  }

  /**
   * What is reported, said of the tree and the settings: a directory exactly if it is there,
   * neither it nor a directory above it is excluded, all above it are directories, and its
   * path maps; a file exactly if the same holds of it, it is readable and not too large, and a
   * fingerprint can be had.
   */
  lemma ReportedIff(cfg: Settings, local: LocalTree, previous: States, dirs: seq<DirectoryEntry>,
                    files: seq<FileEntry>, p: Path)
    requires DirsAre(cfg, local, dirs, ReachedSet(cfg, local)) && p != [] && p in local
    requires FilesAre(cfg, local, previous, files, ReachedSet(cfg, local))
    ensures (exists d | d in dirs :: d.local == p) <==>
      && local[p].LocalDirectory? && !cfg.excluded(p, true) && AllDirectories(local, p) && NothingExcludedAbove(cfg, p)
      && Maps(RelOf(p))
    ensures var wanted := local[p].LocalFile? && !cfg.excluded(p, false) && AllDirectories(local, p)
        && NothingExcludedAbove(cfg, p) && Maps(RelOf(p)) && cfg.readable(p) && local[p].size <= cfg.maxFileSize;
      && ((exists f | f in files :: f.local == p) ==> wanted)
      && (wanted && cfg.staged(p) && cfg.hash(p).Some? ==> exists f | f in files :: f.local == p)
  {
    ReachedIff(cfg, local, p);
    if p in ReachedSet(cfg, local) && LiveDirectory(cfg, local, p) {
      assert DirEntryOf(cfg, p) in dirs && DirEntryOf(cfg, p).local == p;
    }
    var live := LiveFile(cfg, local, previous, p);
    if p in ReachedSet(cfg, local) && live.Some? {
      assert live.value.local == p && live.value in files;
    }
  }

  /** All above the entry are directories. */
  predicate AllDirectories(local: LocalTree, p: Path) {
    forall n | 1 <= n < |p| :: p[..n] in local && local[p[..n]].LocalDirectory?
  }

  lemma ReachedIff(cfg: Settings, local: LocalTree, p: Path)
    requires p != [] && p in local
    ensures p in ReachedSet(cfg, local) <==> AllDirectories(local, p) && NothingExcludedAbove(cfg, p)
  {
    assert Reached(cfg, local, p) <==> forall n | 1 <= n < |p| :: Descends(cfg, local, p[..n]);
  }

  /** Without backslashes the relative path of an entry is its local one. */
  lemma OrdinaryReport(cfg: Settings, local: LocalTree, previous: States, dirs: seq<DirectoryEntry>,
                       files: seq<FileEntry>, r: Path)
    requires DirsAre(cfg, local, dirs, ReachedSet(cfg, local)) && OrdinaryNames(cfg, local)
    requires FilesAre(cfg, local, previous, files, ReachedSet(cfg, local)) && r in Rels(dirs, files)
    ensures r != [] && Reached(cfg, local, r) && Maps(r)
  {
    ReportEntries(cfg, local, previous, dirs, files);
    if d :| d in dirs && d.rel == r {
      OrdinaryRel(d.local);
    } else {
      var f :| f in files && f.rel == r;
      OrdinaryRel(f.local);
    }
  }

  /** The walk descends into every directory above what it reaches. */
  lemma AncestorReached(cfg: Settings, local: LocalTree, r: Path, q: Path)
    requires Reached(cfg, local, r) && q != [] && q < r
    ensures Reached(cfg, local, q) && Descends(cfg, local, q)
  {
    assert q == r[..|q|];
    assert forall n | 1 <= n < |q| :: q[..n] == r[..n];
  }

  /** Of a tree without backslashes and with plain names the live set is closed, whatever vanishes. */
  lemma PlainTreeIsClosed(cfg: Settings, local: LocalTree, previous: States, dirs: seq<DirectoryEntry>,
                          files: seq<FileEntry>, deleted: seq<Tombstone>)
    requires DirsAre(cfg, local, dirs, ReachedSet(cfg, local))
    requires FilesAre(cfg, local, previous, files, ReachedSet(cfg, local))
    requires OrdinaryNames(cfg, local) && forall p | Reached(cfg, local, p) && local[p].LocalDirectory? :: Plain(p)
    ensures LiveClosed(dirs, files, deleted)
  {
    ReportIsClosed(cfg, local, previous, dirs, files);
    forall r, q | r in Rels(dirs, files) && !Covered(deleted, r) && q != [] && q < r ensures Plain(q) {
      OrdinaryReport(cfg, local, previous, dirs, files, r);
      AncestorReached(cfg, local, r, q);
    }
    ClosedIfPlain(dirs, files, deleted);
  }

  // ----- names that lose data

  /** Settings that let every file through. */
  ghost predicate TakesAll(cfg: Settings) {
    && cfg.root == ["disk:", "r"] && cfg.maxFileSize > 0 && (forall p, d :: !cfg.excluded(p, d))
    && forall p :: cfg.readable(p) && cfg.staged(p) && cfg.hash(p).Some?
  }

  lemma TakenIsLive(cfg: Settings, local: LocalTree, previous: States, files: seq<FileEntry>, p: Path)
    requires TakesAll(cfg) && FilesAre(cfg, local, previous, files, ReachedSet(cfg, local))
    requires Reached(cfg, local, p) && local[p] == LocalFile(1, None) && Maps(RelOf(p))
    ensures exists f | f in files :: f.rel == RelOf(p)
  {
    assert LiveFile(cfg, local, previous, p).Some?;
    assert LiveFile(cfg, local, previous, p).value in files;
  }

  /** A report has no other relative paths than the tree. */
  lemma ReportedRels(cfg: Settings, local: LocalTree, previous: States, dirs: seq<DirectoryEntry>,
                     files: seq<FileEntry>, rels: set<Path>)
    requires DirsAre(cfg, local, dirs, ReachedSet(cfg, local))
    requires FilesAre(cfg, local, previous, files, ReachedSet(cfg, local))
    requires forall p | p in local :: RelOf(p) in rels
    ensures Rels(dirs, files) <= rels && Mapped(cfg.root, dirs, files)
  {
    ReportEntries(cfg, local, previous, dirs, files);
  }

  lemma NotStored(root: Path, dirs: seq<DirectoryEntry>, files: seq<FileEntry>, rels: set<Path>, p: Path)
    requires Mapped(root, dirs, files) && Rels(dirs, files) <= rels && p != root
    requires forall r | r in rels && r != [] :: root + Image(r) != p
    ensures p !in KnownLive(root, dirs, files, [])
  {
    if p in KnownLive(root, dirs, files, []) {
      var rel := LiveRel(root, dirs, files, [], p);
    }
  }

  /** A live file is stored below a path that is not live: a remote directory there is deleted. */
  lemma GapLosesData(root: Path, dirs: seq<DirectoryEntry>, files: seq<FileEntry>, rel: Path, extra: Path)
    requires Mapped(root, dirs, files) && rel in Rels(dirs, files) && rel != []
    requires root < extra && extra < root + Image(rel) && |extra| == |root| + 1
    requires extra !in KnownLive(root, dirs, files, [])
    ensures var known := KnownLive(root, dirs, files, []);
      root + Image(rel) in known && extra in Targets(root, known, map[extra := Directory])
  {
    var known := KnownLive(root, dirs, files, []);
    LiveRemote(root, dirs, files, [], rel);
    AncestorRemote(root, rel, extra);
    SanitizedNotPhantom(rel[..|extra| - |root|]);
    assert extra[|root|..] == Sanitized(rel[..|extra| - |root|]);
    var inventory: Tree := map[extra := Directory];
    assert extra in inventory && Extra(root, known, extra);
    TargetFacts(root, known, extra);
    assert Target(root, known, extra) == extra && extra in Targets(root, known, inventory);
  }

  /** A directory named "a " with a file "f" in it, as the walk finds it below any root. */
  function SpacedTree(): LocalTree {
    map[["a "] := LocalDirectory, ["a ", "f"] := LocalFile(1, None)]
  }

  /**
   * Of a directory "a " with a file "f", the directory is stored as "a" and the file below
   * "a ".  A remote directory "a " is then deleted with the live file in it.
   */
  lemma SpacedNameLosesData(cfg: Settings, previous: States, dirs: seq<DirectoryEntry>, files: seq<FileEntry>)
    requires TakesAll(cfg) && DirsAre(cfg, SpacedTree(), dirs, ReachedSet(cfg, SpacedTree()))
    requires FilesAre(cfg, SpacedTree(), previous, files, ReachedSet(cfg, SpacedTree()))
    ensures var live, extra := ["disk:", "r", "a ", "f"], ["disk:", "r", "a "];
      var known := KnownLive(cfg.root, dirs, files, []);
      live in known && extra < live && extra in Targets(cfg.root, known, map[extra := Directory])
  {
    SpacedRels(cfg, previous, dirs, files);
    SpacedLoss(cfg.root, dirs, files);
  }

  lemma SpacedLoss(root: Path, dirs: seq<DirectoryEntry>, files: seq<FileEntry>)
    requires root == ["disk:", "r"] && Mapped(root, dirs, files)
    requires ["a ", "f"] in Rels(dirs, files) && Rels(dirs, files) <= {["a "], ["a ", "f"]}
    ensures var live, extra := ["disk:", "r", "a ", "f"], ["disk:", "r", "a "];
      var known := KnownLive(root, dirs, files, []);
      live in known && extra < live && extra in Targets(root, known, map[extra := Directory])
  {
    SpacedImages();
    assert root + Image(["a ", "f"]) == ["disk:", "r", "a ", "f"] && root + Image(["a "]) == ["disk:", "r", "a"];
    NotStored(root, dirs, files, {["a "], ["a ", "f"]}, ["disk:", "r", "a "]);
    GapLosesData(root, dirs, files, ["a ", "f"], ["disk:", "r", "a "]);
  }

  lemma SpacedRels(cfg: Settings, previous: States, dirs: seq<DirectoryEntry>, files: seq<FileEntry>)
    requires TakesAll(cfg) && DirsAre(cfg, SpacedTree(), dirs, ReachedSet(cfg, SpacedTree()))
    requires FilesAre(cfg, SpacedTree(), previous, files, ReachedSet(cfg, SpacedTree()))
    ensures Mapped(cfg.root, dirs, files) && ["a ", "f"] in Rels(dirs, files)
    ensures Rels(dirs, files) <= {["a "], ["a ", "f"]}
  {
    var local := SpacedTree();
    SpacedLocals();
    SpacedReached(cfg);
    SpacedImages();
    TakenIsLive(cfg, local, previous, files, ["a ", "f"]);
    ReportedRels(cfg, local, previous, dirs, files, {["a "], ["a ", "f"]});
  }

  lemma SpacedLocals()
    ensures forall p | p in SpacedTree() :: RelOf(p) == p
  {
    OrdinaryRel(["a "]);
    OrdinaryRel(["a ", "f"]);
  }

  lemma SpacedReached(cfg: Settings)
    requires TakesAll(cfg)
    ensures Reached(cfg, SpacedTree(), ["a ", "f"])
  {
    assert ["a ", "f"][..1] == ["a "] && Descends(cfg, SpacedTree(), ["a "]);
  }

  /** A Linux file named "a\b" at the top. */
  function BackslashTree(): LocalTree {
    map[["a\\b"] := LocalFile(1, None)]
  }

  /**
   * It is reported and stored as "a/b", and no directory "a" is reported.  A remote directory
   * "a" is then deleted with the live file in it.
   */
  lemma BackslashNameLosesData(cfg: Settings, previous: States, dirs: seq<DirectoryEntry>, files: seq<FileEntry>)
    requires TakesAll(cfg) && DirsAre(cfg, BackslashTree(), dirs, ReachedSet(cfg, BackslashTree()))
    requires FilesAre(cfg, BackslashTree(), previous, files, ReachedSet(cfg, BackslashTree()))
    ensures var live, extra := ["disk:", "r", "a", "b"], ["disk:", "r", "a"];
      var known := KnownLive(cfg.root, dirs, files, []);
      live in known && extra < live && extra in Targets(cfg.root, known, map[extra := Directory])
  {
    BackslashRels(cfg, previous, dirs, files);
    BackslashLoss(cfg.root, dirs, files);
  }

  lemma BackslashLoss(root: Path, dirs: seq<DirectoryEntry>, files: seq<FileEntry>)
    requires root == ["disk:", "r"] && Mapped(root, dirs, files)
    requires ["a", "b"] in Rels(dirs, files) && Rels(dirs, files) <= {["a", "b"]}
    ensures var live, extra := ["disk:", "r", "a", "b"], ["disk:", "r", "a"];
      var known := KnownLive(root, dirs, files, []);
      live in known && extra < live && extra in Targets(root, known, map[extra := Directory])
  {
    LetterImages();
    assert root + Image(["a", "b"]) == ["disk:", "r", "a", "b"];
    NotStored(root, dirs, files, {["a", "b"]}, ["disk:", "r", "a"]);
    GapLosesData(root, dirs, files, ["a", "b"], ["disk:", "r", "a"]);
  }

  lemma BackslashRels(cfg: Settings, previous: States, dirs: seq<DirectoryEntry>, files: seq<FileEntry>)
    requires TakesAll(cfg) && DirsAre(cfg, BackslashTree(), dirs, ReachedSet(cfg, BackslashTree()))
    requires FilesAre(cfg, BackslashTree(), previous, files, ReachedSet(cfg, BackslashTree()))
    ensures Mapped(cfg.root, dirs, files) && ["a", "b"] in Rels(dirs, files)
    ensures Rels(dirs, files) <= {["a", "b"]}
  {
    var p: Path := ["a\\b"];
    BackslashNames();
    LetterImages();
    assert Reached(cfg, BackslashTree(), p);
    TakenIsLive(cfg, BackslashTree(), previous, files, p);
    ReportedRels(cfg, BackslashTree(), previous, dirs, files, {["a", "b"]});
  }

  lemma LetterImages()
    ensures Maps(["a", "b"]) && Image(["a", "b"]) == ["a", "b"]
  {
    assert "a"[1..] == "" && "b"[1..] == "" && TrimEnd("b") == "b";
    assert FilterSegment("a") == "a" && FilterSegment("b") == "b";
    assert Cut(["a", "b"]) == ["a", "b"];
  }
}
