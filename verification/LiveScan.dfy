/**
 * The live view of a local root: what the scan found, minus subtrees that have vanished
 * since.  Tombstones are added while a run is under way.
 */
module LiveScan {
  import opened Paths
  import opened PathText
  import opened PathMapping
  import opened LocalNames
  import opened NameMapping
  import opened Sorting

  /** The local path of an entry, its relative path, and where it is stored. */
  datatype DirectoryEntry = DirectoryEntry(local: Path, rel: Path, remote: Path, normalized: string)

  datatype FingerprintKind = Sha256 | Metadata | DeletedKind | UnknownKind

  datatype Fingerprint = Fingerprint(kind: FingerprintKind, value: string, fullSha256: Option<string>,
                                     localMd5: Option<string>, reusedFromState: bool)

  datatype FileEntry = FileEntry(local: Path, rel: Path, remote: Path, normalized: string, size: nat,
                                 mtime: Option<int>, fingerprint: Fingerprint)

  datatype Tombstone = Tombstone(rel: Path, remote: Path)

  predicate Covered(deleted: seq<Tombstone>, rel: Path) {
    exists t | t in deleted :: t.rel <= rel
  }

  predicate TombstoneOrder(a: Tombstone, b: Tombstone) {
    TextOrder(a.rel, b.rel)
  }

  /** Tombstones are sorted by text, never the root itself, and none covers another. */
  ghost predicate TombstonesValid(deleted: seq<Tombstone>) {
    && Sorted(deleted, TombstoneOrder)
    && (forall t | t in deleted :: t.rel != [])
    && Uncovered(deleted)
  }

  method SortTombstones(ts: seq<Tombstone>) returns (r: seq<Tombstone>)
    ensures Sorted(r, TombstoneOrder)
    ensures multiset(r) == multiset(ts)
  {
    PathOrders();
    assert forall a, b :: TombstoneOrder(a, b) == TextOrder(a.rel, b.rel);
    r := Sort(ts, TombstoneOrder);
  }

  /** No pair of tombstones covers one another. */
  ghost predicate Uncovered(ts: seq<Tombstone>) {
    forall i, j | 0 <= i < |ts| && 0 <= j < |ts| && i != j :: !(ts[i].rel <= ts[j].rel)
  }

  lemma UncoveredPermutation(a: seq<Tombstone>, b: seq<Tombstone>)
    requires Uncovered(a) && multiset(a) == multiset(b)
    ensures Uncovered(b)
  {
    assert Distinct(a) by {
      forall i, j | 0 <= i < j < |a| ensures a[i] != a[j] {
        assert !(a[i].rel <= a[j].rel);
      }
    }
    PermutationFacts(a, b);
    forall i, j | 0 <= i < |b| && 0 <= j < |b| && i != j ensures !(b[i].rel <= b[j].rel) {
      assert b[i] in a && b[j] in a;
      assert b[i] != b[j];
    }
  }

  /** The relative path of each entry is that of its local path. */
  ghost predicate Named(ds: seq<DirectoryEntry>, fs: seq<FileEntry>) {
    (forall d | d in ds :: d.rel == RelOf(d.local)) && forall f | f in fs :: f.rel == RelOf(f.local)
  }

  /** The scanned files that no tombstone covers, in scan order. */
  function LiveFiles(fs: seq<FileEntry>, deleted: seq<Tombstone>): seq<FileEntry> {
    if fs == [] then []
    else
      var last := fs[|fs| - 1];
      LiveFiles(fs[..|fs| - 1], deleted) + (if Covered(deleted, last.rel) then [] else [last])
  }

  lemma {:induction false} LiveFilesMembers(fs: seq<FileEntry>, deleted: seq<Tombstone>)
    ensures forall f :: f in LiveFiles(fs, deleted) <==> f in fs && !Covered(deleted, f.rel)
  {
    if fs != [] {
      LiveFilesMembers(fs[..|fs| - 1], deleted);
      assert fs == fs[..|fs| - 1] + [fs[|fs| - 1]];
    }
  }

  /** rel is at or under a scanned directory that is no longer there. */
  ghost predicate Vanished(ds: seq<DirectoryEntry>, isDir: Path -> bool, rel: Path) {
    exists d | d in ds :: !isDir(d.local) && d.rel <= rel
  }

  ghost predicate FromScanned(ds: seq<DirectoryEntry>, deleted: seq<Tombstone>) {
    forall t | t in deleted :: exists d | d in ds :: t == Tombstone(d.rel, d.remote)
  }

  method KeepLiveFiles(fs: seq<FileEntry>, deleted: seq<Tombstone>) returns (r: seq<FileEntry>)
    ensures r == LiveFiles(fs, deleted)
  {
    r := [];
    for i := 0 to |fs|
      invariant r == LiveFiles(fs[..i], deleted)
    {
      assert fs[..i + 1][..i] == fs[..i];
      if !Covered(deleted, fs[i].rel) {
        r := r + [fs[i]];
      }
    }
    assert fs[..|fs|] == fs;
  }

  predicate ByRelDepth(a: DirectoryEntry, b: DirectoryEntry) {
    ShallowestFirst(a.rel, b.rel)
  }

  method SortDirectories(ds: seq<DirectoryEntry>) returns (r: seq<DirectoryEntry>)
    ensures Sorted(r, ByRelDepth)
    ensures forall d :: d in r <==> d in ds
  {
    PathOrders();
    assert forall a, b :: ByRelDepth(a, b) == ShallowestFirst(a.rel, b.rel);
    r := Sort(ds, ByRelDepth);
    forall d ensures d in r <==> d in ds {
      assert d in r <==> d in multiset(r);
      assert d in ds <==> d in multiset(ds);
    }
  }

  /**
   * After the directories in `done`: coverage is what vanished; what is not covered is
   * retained; a retained directory is covered only by a namesake that has vanished.
   */
  ghost predicate ScanProgress(done: seq<DirectoryEntry>, isDir: Path -> bool,
                               directories: seq<DirectoryEntry>, deleted: seq<Tombstone>)
  {
    && (forall rel :: Covered(deleted, rel) <==> Vanished(done, isDir, rel))
    && Retained(directories, deleted, done)
  }

  /** Names with backslashes can give two directories the same relative path. */
  ghost predicate Retained(directories: seq<DirectoryEntry>, deleted: seq<Tombstone>, scanned: seq<DirectoryEntry>) {
    && (forall d | d in directories :: d in scanned)
    && (forall d | d in scanned && !Covered(deleted, d.rel) :: d in directories)
    && (forall d, t | d in directories && t in deleted && t.rel <= d.rel :: t.rel == d.rel)
  }

  lemma VanishedStep(done: seq<DirectoryEntry>, d: DirectoryEntry, isDir: Path -> bool)
    ensures forall rel :: Vanished(done + [d], isDir, rel) <==>
      Vanished(done, isDir, rel) || (!isDir(d.local) && d.rel <= rel)
    ensures Vanished(done, isDir, d.rel) ==>
      forall rel :: Vanished(done + [d], isDir, rel) <==> Vanished(done, isDir, rel)
  {
    if e :| e in done && !isDir(e.local) && e.rel <= d.rel {
      forall rel | d.rel <= rel ensures Vanished(done, isDir, rel) {
        PrefixTransitive(e.rel, d.rel, rel);
      }
    }
  }

  lemma VanishedSame(a: seq<DirectoryEntry>, b: seq<DirectoryEntry>, isDir: Path -> bool)
    requires forall d :: d in a <==> d in b
    ensures forall rel :: Vanished(a, isDir, rel) <==> Vanished(b, isDir, rel)
  {
  }

  /** Parents come first, so a later tombstone covers a directory already retained only by the same name. */
  lemma RetainedKept(order: seq<DirectoryEntry>, i: nat, directories: seq<DirectoryEntry>)
    requires i < |order| && Sorted(order, ByRelDepth)
    requires forall d | d in directories :: d in order[..i]
    ensures forall d | d in directories && order[i].rel <= d.rel :: order[i].rel == d.rel
  {
    forall d | d in directories && order[i].rel <= d.rel ensures order[i].rel == d.rel {
      var j :| 0 <= j < i && order[j] == d;
      assert ByRelDepth(order[j], order[i]);
    }
  }

  class LiveScanPlan {
    const root: Path
    var directories: seq<DirectoryEntry>
    var files: seq<FileEntry>
    var deleted: seq<Tombstone>

    ghost predicate Valid()
      reads this
    {
      TombstonesValid(deleted)
    }

    predicate IsDeleted(rel: Path)
      reads this
    {
      Covered(deleted, rel)
    }

    /**
     * Builds the plan from a scan.  `isDir` answers the check that a scanned directory is
     * still there; it may contradict the scan in any way.
     */
    constructor FromScanReport(root: Path, scannedDirectories: seq<DirectoryEntry>,
                               scannedFiles: seq<FileEntry>, isDir: Path -> bool)
      requires forall d | d in scannedDirectories :: d.rel != []
      ensures Valid() && this.root == root
      ensures forall rel :: Covered(deleted, rel) <==> Vanished(scannedDirectories, isDir, rel)
      ensures Retained(directories, deleted, scannedDirectories)
      ensures files == LiveFiles(scannedFiles, deleted)
      ensures FromScanned(scannedDirectories, deleted)
    {
      this.root := root;
      directories, files, deleted := [], [], [];
      new;
      RetainDirectories(scannedDirectories, isDir);
      files := KeepLiveFiles(scannedFiles, deleted);
    }

    method RetainDirectories(scanned: seq<DirectoryEntry>, isDir: Path -> bool)
      requires Valid() && directories == [] && deleted == []
      requires forall d | d in scanned :: d.rel != []
      modifies this`directories, this`deleted
      ensures Valid()
      ensures ScanProgress(scanned, isDir, directories, deleted)
      ensures FromScanned(scanned, deleted)
    {
      var order := SortDirectories(scanned);
      for i := 0 to |order|
        invariant Valid()
        invariant ScanProgress(order[..i], isDir, directories, deleted)
        invariant FromScanned(scanned, deleted)
      {
        var d := order[i];
        assert order[..i + 1] == order[..i] + [d];
        assert d in order;
        VanishedStep(order[..i], d, isDir);
        if IsDeleted(d.rel) {
          continue;
        }
        if !isDir(d.local) {
          RetainedKept(order, i, directories);
          var added := AddDeletedSubtree(Tombstone(d.rel, d.remote));
          continue;
        }
        directories := directories + [d];
      }
      assert order[..|order|] == order;
      VanishedSame(order, scanned, isDir);
    }

    method AddDeletedSubtree(t: Tombstone) returns (added: bool)
      requires Valid() && t.rel != []
      modifies this`deleted
      ensures Valid()
      ensures added == !Covered(old(deleted), t.rel)
      ensures !added ==> deleted == old(deleted)
      ensures added ==> t in deleted
      ensures forall s | s in deleted :: s in old(deleted) || s == t
      ensures forall rel :: Covered(deleted, rel) <==> Covered(old(deleted), rel) || t.rel <= rel
    {
      if IsDeleted(t.rel) {
        CoverTransitive(deleted, t.rel);
        return false;
      }
      var kept: seq<Tombstone> := [];
      for i := 0 to |deleted|
        invariant deleted == old(deleted)
        invariant Uncovered(kept)
        invariant forall s :: s in kept <==> s in deleted[..i] && !(t.rel <= s.rel)
      {
        if !(t.rel <= deleted[i].rel) {
          AppendUncovered(kept, deleted, i);
          kept := kept + [deleted[i]];
        }
      }
      assert deleted[..|deleted|] == deleted;
      var unsorted := kept + [t];
      assert Uncovered(unsorted) by {
        forall s | s in kept ensures !(s.rel <= t.rel) && !(t.rel <= s.rel) {
          assert s in deleted;
        }
      }
      CoverageGrows(deleted, unsorted, t);
      var sorted := SortTombstones(unsorted);
      UncoveredPermutation(unsorted, sorted);
      PermutationFacts(unsorted, sorted);
      deleted := sorted;
      return true;
    }

    /**
     * Looks for a vanished ancestor of an entry about to be processed.  `fs` is what the file
     * system answers at this moment.
     */
    method RegisterMissingLocalPath(fs: FileSystem, local: Path, rel: Path, remote: Path) returns (r: Option<Tombstone>)
      requires Valid() && local != [] && rel == RelOf(local)
      modifies this`deleted
      ensures Valid()
      ensures r.Some? <==> Gone(fs, local).Some? && !Covered(old(deleted), Gone(fs, local).value)
      ensures r.None? ==> deleted == old(deleted)
      ensures r.Some? ==>
        && r.value == Tombstone(Gone(fs, local).value, MissingRemotePrefix(rel, remote, Gone(fs, local).value))
        && r.value in deleted && r.value.rel <= rel && r.value.rel != ROOT_REL
      ensures Gone(fs, local).Some? ==> Covered(deleted, rel)
      ensures forall p :: Covered(deleted, p) <==>
        Covered(old(deleted), p) || (r.Some? && r.value.rel <= p)
      ensures forall s | s in deleted :: s in old(deleted) || (r.Some? && s == r.value)
    {
      var missing := NearestMissingDirectory(local, fs.existing, fs.directories);
      if missing.None? || RelOf(missing.value) == ROOT_REL {
        return None;
      }
      var prefix := RelOf(missing.value);
      StartAbove(local, fs.directories, missing.value);
      AncestorRel(missing.value, local);
      var t := Tombstone(prefix, MissingRemotePrefix(rel, remote, prefix));
      var added := AddDeletedSubtree(t);
      r := if added then Some(t) else None;
      if !added {
        CoverTransitive(old(deleted), t.rel);
      }
    }
  }

  lemma StartAbove(local: Path, directoriesNow: set<Path>, q: Path)
    requires local != [] && q <= SearchStart(local, directoriesNow)
    ensures q <= local
  {
    PrefixTransitive(q, SearchStart(local, directoriesNow), local);
  }

  lemma CoverTransitive(deleted: seq<Tombstone>, rel: Path)
    requires Covered(deleted, rel)
    ensures forall r | rel <= r :: Covered(deleted, r)
  {
    var t :| t in deleted && t.rel <= rel;
    forall r | rel <= r ensures Covered(deleted, r) {
      PrefixTransitive(t.rel, rel, r);
    }
  }

  lemma AppendUncovered(kept: seq<Tombstone>, all: seq<Tombstone>, i: nat)
    requires i < |all| && Uncovered(all) && Uncovered(kept)
    requires forall s | s in kept :: s in all[..i]
    ensures Uncovered(kept + [all[i]])
  {
    forall s | s in kept ensures !(s.rel <= all[i].rel) && !(all[i].rel <= s.rel) {
      var j :| 0 <= j < i && all[j] == s;
    }
  }

  lemma CoverageGrows(before: seq<Tombstone>, after: seq<Tombstone>, t: Tombstone)
    requires forall s :: s in after <==> (s in before && !(t.rel <= s.rel)) || s == t
    ensures forall rel :: Covered(after, rel) <==> Covered(before, rel) || t.rel <= rel
  {
    forall rel ensures Covered(after, rel) <==> Covered(before, rel) || t.rel <= rel {
      if s :| s in before && s.rel <= rel {
        if t.rel <= s.rel {
          PrefixTransitive(t.rel, s.rel, rel);
        }
      }
    }
  }

  // ----- the missing-ancestor search

  /** Where the search starts: the entry if it is a directory now, its parent otherwise. */
  function SearchStart(rel: Path, directoriesNow: set<Path>): Path
    requires rel != []
  {
    if rel in directoriesNow then rel else Parent(rel)
  }

  ghost predicate PrefixClosed(existing: set<Path>) {
    forall p, q | p in existing && q <= p && q != [] :: q in existing
  }

  /** The answers of the file system at one moment: what exists, and which of it are directories. */
  datatype FileSystem = FileSystem(existing: set<Path>, directories: set<Path>)

  /** Upwards from a missing path to the last missing one before the root or one that exists. */
  function TopMissing(p: Path, existing: set<Path>): (r: Path)
    requires p != [] && p !in existing
    ensures r != [] && r <= p && r !in existing && (|r| > 1 ==> Parent(r) in existing)
    decreases |p|
  {
    var parent := Parent(p);
    if parent == [] || parent in existing then p
    else
      PrefixTransitive(TopMissing(parent, existing), parent, p);
      TopMissing(parent, existing)
  }

  /** Everything from the directory found down to the start of the search is missing. */
  lemma {:induction false} TopMissingBelow(p: Path, existing: set<Path>, q: Path)
    requires p != [] && p !in existing && TopMissing(p, existing) <= q && q <= p
    ensures q !in existing
    decreases |p|
  {
    if q != p {
      assert q <= Parent(p) && TopMissing(p, existing) != p;
      TopMissingBelow(Parent(p), existing, q);
    }
  }

  method NearestMissingDirectory(rel: Path, existing: set<Path>, directoriesNow: set<Path>)
    returns (r: Option<Path>)
    requires rel != []
    ensures var start := SearchStart(rel, directoriesNow);
      r == if start == [] || start in existing then None else Some(TopMissing(start, existing))
  {
    var candidate := SearchStart(rel, directoriesNow);
    ghost var start := candidate;
    r := None;
    while candidate != []
      invariant r.None? ==> candidate == start
      invariant r.Some? ==> candidate != [] && candidate !in existing && start != [] && start !in existing
      invariant r.Some? ==> TopMissing(start, existing) == TopMissing(candidate, existing)
      decreases |candidate|
    {
      if candidate in existing {
        break;
      }
      r := Some(candidate);
      var parent := Parent(candidate);
      if parent == [] || parent in existing {
        break;
      }
      candidate := parent;
    }
  }

  /** In a prefix-closed file system the search finds the topmost missing directory. */
  lemma {:induction false} NearestIsTopmost(existing: set<Path>, start: Path, q: Path)
    requires PrefixClosed(existing) && start != [] && start !in existing && q != [] && q <= start
    ensures q in existing <==> q < TopMissing(start, existing)
  {
    var found := TopMissing(start, existing);
    PrefixesChain(q, found, start);
    if q < found {
      assert q <= Parent(found);
    } else {
      TopMissingBelow(start, existing, q);
    }
  }

  /** The relative path of the ancestor that is registered as missing, if there is one. */
  function Gone(fs: FileSystem, local: Path): Option<Path>
    requires local != []
  {
    var start := SearchStart(local, fs.directories);
    if start == [] || start in fs.existing then None
    else
      var rel := RelOf(TopMissing(start, fs.existing));
      if rel == ROOT_REL then None else Some(rel)
  }

  /** Nothing is registered while the entry's directory exists. */
  lemma NothingGone(fs: FileSystem, local: Path)
    requires local != [] && (if local in fs.directories then local in fs.existing else Parent(local) in fs.existing)
    ensures Gone(fs, local) == None
  {
  }

  /**
   * In a prefix-closed file system, if the directory of an entry is missing, what is registered
   * is the topmost missing one, unless its relative path is empty.
   */
  lemma TopmostGone(fs: FileSystem, local: Path, q: Path)
    requires local != [] && PrefixClosed(fs.existing) && q != [] && q !in fs.existing
    requires q <= Parent(local) || (q == local && local in fs.directories)
    requires forall a | a != [] && a < q :: a in fs.existing
    ensures Gone(fs, local) == if RelOf(q) == ROOT_REL then None else Some(RelOf(q))
  {
    var start := SearchStart(local, fs.directories);
    assert q <= local && q <= start;
    assert start in fs.existing ==> q in fs.existing;
    var found := TopMissing(start, fs.existing);
    PrefixesChain(q, found, start);
    NearestIsTopmost(fs.existing, start, q);
    assert found < q ==> found in fs.existing;
    assert q <= found || found < q;
    assert q == found;
  }

  /** The remote prefix recorded for a vanished ancestor. */
  function MissingRemotePrefix(rel: Path, remote: Path, prefix: Path): Path {
    if prefix == rel then remote
    else if |rel| <= |remote| && remote[|remote| - |rel|..] == rel then remote[..|remote| - |rel|] + prefix
    else remote + prefix
  }

  /** No name of the managed root is blank. */
  predicate NoBlank(root: Path) {
    forall i | 0 <= i < |root| :: !Blank(root[i])
  }

  /**
   * The recorded prefix is where the ancestor is stored exactly if it is the entry itself or
   * both are stored under their own names.
   */
  lemma MissingRemotePrefixIff(root: Path, rel: Path, prefix: Path)
    requires prefix != [] && prefix <= rel && rel[0] != ""
    requires Blank(Last(rel)) ==> Sanitized(root) == root && forall i | 0 <= i < |root| :: !Blank(root[i])
    ensures MissingRemotePrefix(rel, root + Image(rel), prefix) == root + Image(prefix)
      <==> prefix == rel || (Image(rel) == rel && Image(prefix) == prefix)
  {
    if prefix < rel {
      var remote := root + Image(rel);
      ImageShape(rel);
      ImageShape(prefix);
      AncestorCut(rel, rel[..1]);
      if |Image(rel)| == |rel| {
        assert remote[|remote| - |rel|..] == Image(rel) && remote[..|remote| - |rel|] == root;
        assert (root + prefix)[|root|..] == prefix && (root + Image(prefix))[|root|..] == Image(prefix);
      } else if |rel| <= |remote| && remote[|remote| - |rel|..] == rel {
        BlankSuffix(root, rel, |rel| - |Image(rel)|);
      }
    }
  }

  /** The name at k, if the path is the end of where it is stored. */
  function ShiftedAt(root: Path, rel: Path, j: nat, k: nat): Segment
    requires 0 < j <= |root| && k < |rel|
  {
    if k < j then root[|root| - j + k] else FilterSegment(rel[k - j])
  }

  ghost predicate Shifted(root: Path, rel: Path, j: nat) {
    0 < j <= |root| && forall k | 0 <= k < |rel| :: rel[k] == ShiftedAt(root, rel, j, k)
  }

  lemma SuffixShifted(root: Path, rel: Path, j: nat)
    requires rel != [] && Blank(Last(rel)) && 0 < j <= |root| && j == |rel| - |Image(rel)|
    requires (root + Image(rel))[|root| - j..] == rel
    ensures Shifted(root, rel, j)
  {
    var suffix := (root + Image(rel))[|root| - j..];
    assert Cut(rel) <= rel;
    forall i | 0 <= i < |rel| ensures rel[i] == ShiftedAt(root, rel, j, i) {
      assert suffix[i] == if i < j then root[|root| - j + i] else Image(rel)[i - j];
    }
  }

  /** The names of an entry with a blank last name are not the end of where it is stored. */
  lemma BlankSuffix(root: Path, rel: Path, j: nat)
    requires rel != [] && Blank(Last(rel)) && NoBlank(root) && Sanitized(root) == root
    requires 0 < j == |rel| - |Image(rel)| && j <= |root|
    ensures (root + Image(rel))[|root| - j..] != rel
  {
    if (root + Image(rel))[|root| - j..] == rel {
      SuffixShifted(root, rel, j);
      NeverBlank(root, rel, j, |rel| - 1);
      assert false;
    }
  }

  lemma {:induction false} NeverBlank(root: Path, rel: Path, j: nat, i: nat)
    requires Shifted(root, rel, j) && i < |rel| && NoBlank(root) && Sanitized(root) == root
    ensures !Blank(rel[i])
  {
    assert rel[i] == ShiftedAt(root, rel, j, i);
    if i >= j {
      NeverBlank(root, rel, j, i - j);
      assert rel[i - j] == ShiftedAt(root, rel, j, i - j);
      if i - j < j {
        var k := |root| - j + (i - j);
        assert Sanitized(root)[k] == FilterSegment(root[k]) == root[k];
      } else {
        FilterKeeps(rel[i - 2 * j]);
      }
    }
  }

  /** Two entries for which it is not: a file below the directory "a ", and a file "f " below "a". */
  lemma MissingPrefixWrong(root: Path)
    ensures MissingRemotePrefix(["a ", "f"], root + Image(["a ", "f"]), ["a "]) != root + Image(["a "])
    ensures MissingRemotePrefix(["a", "f "], root + Image(["a", "f "]), ["a"]) != root + Image(["a"])
  {
    SpacedImages();
    assert !Blank("f") && !Blank("f ") by {
      SpacedNames();
    }
    MissingRemotePrefixIff(root, ["a ", "f"], ["a "]);
    MissingRemotePrefixIff(root, ["a", "f "], ["a"]);
    assert "a " != "a" && "f " != "f";
  }
}
