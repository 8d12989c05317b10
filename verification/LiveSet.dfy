/** The set of remote paths that are live, and why no planned delete can touch it. */
module LiveSet {
  import opened Paths
  import opened PathMapping
  import opened NameMapping
  import opened Sorting
  import opened LiveScan
  import opened DeletePlan
  import opened DeleteSafety

  function KnownLive(root: Path, dirs: seq<DirectoryEntry>, files: seq<FileEntry>, deleted: seq<Tombstone>): set<Path> {
    {root}
    + (set d | d in dirs && !Covered(deleted, d.rel) :: d.remote)
    + (set f | f in files && !Covered(deleted, f.rel) :: f.remote)
  }

  function DirRels(dirs: seq<DirectoryEntry>): set<Path> {
    set d | d in dirs :: d.rel
  }

  function Rels(dirs: seq<DirectoryEntry>, files: seq<FileEntry>): set<Path> {
    DirRels(dirs) + set f | f in files :: f.rel
  }

  /** Each entry is stored at the managed root plus the image of its relative path. */
  ghost predicate Mapped(root: Path, dirs: seq<DirectoryEntry>, files: seq<FileEntry>) {
    && (forall d | d in dirs :: d.rel != [] && d.remote == root + Image(d.rel))
    && (forall f | f in files :: f.rel != [] && f.remote == root + Image(f.rel))
  }

  /** A walk closed under ancestors: those of an entry with plain names are recorded. */
  ghost predicate WalkClosed(dirs: seq<DirectoryEntry>, files: seq<FileEntry>) {
    forall r, q | r in Rels(dirs, files) && q != [] && q < r && Plain(q) :: q in DirRels(dirs)
  }

  /** Every proper prefix under which a live entry is stored is a recorded directory with a plain name. */
  ghost predicate LiveClosed(dirs: seq<DirectoryEntry>, files: seq<FileEntry>, deleted: seq<Tombstone>) {
    forall r, k | r in Rels(dirs, files) && !Covered(deleted, r) && StoredBelow(r, k) :: AncestorRecorded(dirs, r, k)
  }

  /** The first k names of the entry are a proper prefix under which it is stored. */
  predicate StoredBelow(r: Path, k: nat) {
    r != [] && 0 < k < |Image(r)| <= |r|
  }

  predicate AncestorRecorded(dirs: seq<DirectoryEntry>, r: Path, k: nat)
    requires 0 < k < |r|
  {
    r[..k] in DirRels(dirs) && Plain(r[..k])
  }

  /** What the constructor of the live plan keeps of a scan. */
  ghost predicate RetainedFrom(dirs: seq<DirectoryEntry>, files: seq<FileEntry>, deleted: seq<Tombstone>,
                               scannedDirs: seq<DirectoryEntry>, scannedFiles: seq<FileEntry>)
  {
    Retained(dirs, deleted, scannedDirs) && files == LiveFiles(scannedFiles, deleted)
  }

  /** What is not covered is retained, nothing new is, and closure survives. */
  lemma RetainedClosed(dirs: seq<DirectoryEntry>, files: seq<FileEntry>, deleted: seq<Tombstone>,
                       scannedDirs: seq<DirectoryEntry>, scannedFiles: seq<FileEntry>)
    requires RetainedFrom(dirs, files, deleted, scannedDirs, scannedFiles)
    ensures LiveClosed(scannedDirs, scannedFiles, deleted) ==> LiveClosed(dirs, files, deleted)
    ensures forall d | d in scannedDirs :: d in dirs || Covered(deleted, d.rel)
    ensures forall f | f in scannedFiles :: f in files <==> !Covered(deleted, f.rel)
  {
    LiveFilesMembers(scannedFiles, deleted);
    assert forall r | r in Rels(dirs, files) :: r in Rels(scannedDirs, scannedFiles);
    forall r, k | LiveClosed(scannedDirs, scannedFiles, deleted) && r in Rels(dirs, files)
                  && !Covered(deleted, r) && StoredBelow(r, k)
      ensures AncestorRecorded(dirs, r, k)
    {
      assert AncestorRecorded(scannedDirs, r, k);
      var d :| d in scannedDirs && d.rel == r[..k];
      if Covered(deleted, d.rel) {
        CoverTransitive(deleted, d.rel);
      }
    }
  }

  /** What lies between the root and an entry is the sanitised form of its ancestors. */
  lemma AncestorRemote(root: Path, rel: Path, q: Path)
    requires rel != [] && root < q && q < root + Image(rel)
    ensures var k := |q| - |root|;
      StoredBelow(rel, k) && q == root + Sanitized(rel[..k])
  {
    var k := |q| - |root|;
    ImageShape(rel);
    assert q == (root + Image(rel))[..|q|];
    assert (root + Image(rel))[..|q|] == root + Image(rel)[..k];
  }

  /** The live entries have only plain names above them. */
  ghost predicate LivePlain(dirs: seq<DirectoryEntry>, files: seq<FileEntry>, deleted: seq<Tombstone>) {
    forall r, q | r in Rels(dirs, files) && !Covered(deleted, r) && q != [] && q < r :: Plain(q)
  }

  /** A closed walk with plain names above the live entries. */
  lemma ClosedIfPlain(dirs: seq<DirectoryEntry>, files: seq<FileEntry>, deleted: seq<Tombstone>)
    requires WalkClosed(dirs, files) && LivePlain(dirs, files, deleted)
    ensures LiveClosed(dirs, files, deleted)
  {
    forall r, k | r in Rels(dirs, files) && !Covered(deleted, r) && StoredBelow(r, k)
      ensures AncestorRecorded(dirs, r, k)
    {
      assert r[..k] != [] && r[..k] < r;
    }
  }

  /** The live set is ancestor-closed whatever tombstones a run has added. */
  lemma KnownClosed(root: Path, dirs: seq<DirectoryEntry>, files: seq<FileEntry>, deleted: seq<Tombstone>)
    requires Mapped(root, dirs, files) && LiveClosed(dirs, files, deleted)
    ensures AncestorClosed(KnownLive(root, dirs, files, deleted), root)
  {
    var known := KnownLive(root, dirs, files, deleted);
    forall p, q | p in known && root <= q && q <= p ensures q in known {
      if q != root && q != p {
        var rel := LiveRel(root, dirs, files, deleted, p);
        AncestorRemote(root, rel, q);
        AncestorLive(root, dirs, files, deleted, rel, |q| - |root|);
      }
    }
  }

  /** A recorded ancestor of a live entry is live. */
  lemma AncestorLive(root: Path, dirs: seq<DirectoryEntry>, files: seq<FileEntry>, deleted: seq<Tombstone>,
                     rel: Path, k: nat)
    requires Mapped(root, dirs, files) && LiveClosed(dirs, files, deleted)
    requires rel in Rels(dirs, files) && !Covered(deleted, rel) && StoredBelow(rel, k)
    ensures root + Sanitized(rel[..k]) in KnownLive(root, dirs, files, deleted)
  {
    var q := rel[..k];
    assert AncestorRecorded(dirs, rel, k);
    var d :| d in dirs && d.rel == q;
    if Covered(deleted, q) {
      CoverTransitive(deleted, q);
    }
    PlainIff(q);
    assert d.remote == root + Sanitized(q);
  }

  lemma LiveRel(root: Path, dirs: seq<DirectoryEntry>, files: seq<FileEntry>, deleted: seq<Tombstone>, p: Path)
    returns (rel: Path)
    requires Mapped(root, dirs, files) && p in KnownLive(root, dirs, files, deleted) && p != root
    ensures rel in Rels(dirs, files) && rel != [] && !Covered(deleted, rel) && p == root + Image(rel)
  {
    if d :| d in dirs && !Covered(deleted, d.rel) && d.remote == p {
      rel := d.rel;
    } else {
      var f :| f in files && !Covered(deleted, f.rel) && f.remote == p;
      rel := f.rel;
    }
  }

  /** No planned delete of a closed live plan reaches a live path. */
  lemma LivePlanIsSafe(root: Path, dirs: seq<DirectoryEntry>, files: seq<FileEntry>, deleted: seq<Tombstone>,
                       inventory: Tree)
    requires Mapped(root, dirs, files) && LiveClosed(dirs, files, deleted)
    ensures Safe(root, KnownLive(root, dirs, files, deleted), inventory)
    ensures NoLiveBelowExtras(root, KnownLive(root, dirs, files, deleted), inventory)
  {
    KnownClosed(root, dirs, files, deleted);
    ClosedIsSafe(root, KnownLive(root, dirs, files, deleted), inventory);
    SafeIff(root, KnownLive(root, dirs, files, deleted), inventory);
  }

  lemma LiveRemote(root: Path, dirs: seq<DirectoryEntry>, files: seq<FileEntry>, deleted: seq<Tombstone>, r: Path)
    requires Mapped(root, dirs, files) && r in Rels(dirs, files) && !Covered(deleted, r)
    ensures r != [] && root + Image(r) in KnownLive(root, dirs, files, deleted)
  {
    if d :| d in dirs && d.rel == r {
      assert d.remote in KnownLive(root, dirs, files, deleted);
    } else {
      var f :| f in files && f.rel == r;
      assert f.remote in KnownLive(root, dirs, files, deleted);
    }
  }

  /** A sanitised segment holds no colon. */
  lemma SanitizedNotPhantom(q: Path)
    ensures !HasPhantomSegment(Sanitized(q))
  {
    forall i | 0 <= i < |q| ensures !EqIgnoreAsciiCase(Sanitized(q)[i], "disk:") {
      FilterKeeps(q[i]);
      var s := Sanitized(q)[i];
      assert |s| == 5 ==> Kept(s[4]) && AsciiLower(s[4]) != ':';
      assert "disk:"[4] == ':';
    }
  }

  /** No planned delete reaches a live path, whatever the remote holds. */
  ghost predicate AlwaysSafe(root: Path, known: set<Path>) {
    forall inventory: Tree :: Safe(root, known, inventory)
  }

  /** Exactly when nothing live can be deleted, whatever the remote holds. */
  lemma AlwaysSafeIff(root: Path, dirs: seq<DirectoryEntry>, files: seq<FileEntry>, deleted: seq<Tombstone>)
    requires Mapped(root, dirs, files)
    ensures var known := KnownLive(root, dirs, files, deleted);
      AlwaysSafe(root, known) <==> AncestorClosed(known, root)
  {
    var known := KnownLive(root, dirs, files, deleted);
    if AncestorClosed(known, root) {
      forall inventory: Tree ensures Safe(root, known, inventory) {
        ClosedIsSafe(root, known, inventory);
      }
    } else {
      var p, q :| p in known && root <= q && q <= p && q !in known;
      assert root in known && (p == root ==> q == root);
      var rel := LiveRel(root, dirs, files, deleted, p);
      GapIsUnsafe(root, known, rel, q);
    }
  }

  /** A remote directory in a gap of the live set is deleted. */
  lemma GapIsUnsafe(root: Path, known: set<Path>, rel: Path, q: Path)
    requires rel != [] && root in known && root + Image(rel) in known
    requires root <= q && q <= root + Image(rel) && q !in known
    ensures !Safe(root, known, map[q := Directory])
  {
    assert q != root && q != root + Image(rel);
    AncestorRemote(root, rel, q);
    var prefix := rel[..|q| - |root|];
    SanitizedNotPhantom(prefix);
    assert q[|root|..] == Sanitized(prefix);
    var inventory: Tree := map[q := Directory];
    assert q in inventory && Extra(root, known, q) && LiveBelow(known, q);
    SafeIff(root, known, inventory);
  }

  /** No other entry is stored where an ancestor of a live entry would be. */
  ghost predicate NoStandIn(root: Path, dirs: seq<DirectoryEntry>, files: seq<FileEntry>, deleted: seq<Tombstone>) {
    forall r, k | r in Rels(dirs, files) && !Covered(deleted, r) && StoredBelow(r, k) ::
      StandsAlone(root, dirs, files, r[..k])
  }

  ghost predicate StandsAlone(root: Path, dirs: seq<DirectoryEntry>, files: seq<FileEntry>, q: Path) {
    && (forall d | d in dirs && d.remote == root + Sanitized(q) :: d.rel == q)
    && (forall f | f in files :: f.remote != root + Sanitized(q))
  }

  /**
   * Exactly when the live set is ancestor-closed, in terms of the entries: provided no other
   * entry takes the place of an ancestor, if and only if the ancestors are recorded and plain.
   */
  lemma KnownClosedIff(root: Path, dirs: seq<DirectoryEntry>, files: seq<FileEntry>, deleted: seq<Tombstone>)
    requires Mapped(root, dirs, files) && NoStandIn(root, dirs, files, deleted)
    ensures AncestorClosed(KnownLive(root, dirs, files, deleted), root) <==> LiveClosed(dirs, files, deleted)
  {
    var known := KnownLive(root, dirs, files, deleted);
    if LiveClosed(dirs, files, deleted) {
      KnownClosed(root, dirs, files, deleted);
    }
    if AncestorClosed(known, root) {
      forall r, k | r in Rels(dirs, files) && !Covered(deleted, r) && StoredBelow(r, k)
        ensures AncestorRecorded(dirs, r, k)
      {
        ClosedRecorded(root, dirs, files, deleted, r, k);
      }
    }
  }

  /** In a closed live set the directory in the place of an ancestor is that ancestor. */
  lemma ClosedRecorded(root: Path, dirs: seq<DirectoryEntry>, files: seq<FileEntry>, deleted: seq<Tombstone>,
                       r: Path, k: nat)
    requires Mapped(root, dirs, files) && NoStandIn(root, dirs, files, deleted)
    requires AncestorClosed(KnownLive(root, dirs, files, deleted), root)
    requires r in Rels(dirs, files) && !Covered(deleted, r) && StoredBelow(r, k)
    ensures AncestorRecorded(dirs, r, k)
  {
    var q, p := r[..k], root + Sanitized(r[..k]);
    LiveRemote(root, dirs, files, deleted, r);
    AncestorPlace(root, r, k);
    assert p in KnownLive(root, dirs, files, deleted);
    assert StandsAlone(root, dirs, files, q);
    var d := Holder(root, dirs, files, deleted, p);
    OwnPlace(root, dirs, files, d);
  }

  lemma Holder(root: Path, dirs: seq<DirectoryEntry>, files: seq<FileEntry>, deleted: seq<Tombstone>, p: Path)
    returns (d: DirectoryEntry)
    requires p in KnownLive(root, dirs, files, deleted) && p != root && forall f | f in files :: f.remote != p
    ensures d in dirs && d.remote == p
  {
    d :| d in dirs && d.remote == p;
  }

  /** A directory that is stored where its sanitised names say has a plain name. */
  lemma OwnPlace(root: Path, dirs: seq<DirectoryEntry>, files: seq<FileEntry>, d: DirectoryEntry)
    requires Mapped(root, dirs, files) && d in dirs && d.remote == root + Sanitized(d.rel)
    ensures Plain(d.rel)
  {
    SameTail(root, Image(d.rel), Sanitized(d.rel));
    PlainIff(d.rel);
  }

  lemma AncestorPlace(root: Path, r: Path, k: nat)
    requires StoredBelow(r, k)
    ensures root < root + Sanitized(r[..k]) && root + Sanitized(r[..k]) < root + Image(r)
  {
    ImageShape(r);
    assert Image(r)[..k] == Sanitized(r[..k]);
    assert (root + Image(r))[..|root| + k] == root + Image(r)[..k];
  }

  lemma SameTail(root: Path, a: Path, b: Path)
    ensures root + a == root + b ==> a == b
  {
    assert (root + a)[|root|..] == a && (root + b)[|root|..] == b;
  }

  // ----- pruning at the tombstones

  function TombstonePrefixes(deleted: seq<Tombstone>): set<Path> {
    set t | t in deleted :: t.remote
  }

  /** Tombstones are stored where their directory was mapped. */
  ghost predicate TombstonesMapped(root: Path, deleted: seq<Tombstone>) {
    forall t | t in deleted :: t.rel != [] && t.remote == root + Image(t.rel)
  }

  /** No tombstone is stored at the root, or at or above an entry that it does not cover. */
  ghost predicate InjectiveAcross(dirs: seq<DirectoryEntry>, files: seq<FileEntry>, deleted: seq<Tombstone>) {
    && (forall t | t in deleted && t.rel != [] :: Image(t.rel) != [])
    && (forall t, r | t in deleted && t.rel != [] && r in Rels(dirs, files) && r != [] &&
          Image(t.rel) <= Image(r) :: t.rel <= r)
  }

  /** Then every tombstone is dead on the remote. */
  lemma TombstonesDead(root: Path, dirs: seq<DirectoryEntry>, files: seq<FileEntry>, deleted: seq<Tombstone>,
                       t: Tombstone)
    requires Mapped(root, dirs, files) && TombstonesMapped(root, deleted) && InjectiveAcross(dirs, files, deleted)
    requires t in deleted
    ensures root < t.remote && Dead(KnownLive(root, dirs, files, deleted), t.remote)
  {
    var known := KnownLive(root, dirs, files, deleted);
    forall k | k in known ensures !(t.remote <= k) {
      if k != root {
        var rel := LiveRel(root, dirs, files, deleted, k);
        assert !(t.rel <= rel);
        assert !(Image(t.rel) <= Image(rel));
        PrefixUnderRoot(root, Image(t.rel), Image(rel));
      }
    }
  }

  lemma PrefixUnderRoot(root: Path, a: Path, b: Path)
    ensures root + a <= root + b <==> a <= b
  {
    if root + a <= root + b {
      assert a == (root + a)[|root|..] && b == (root + b)[|root|..];
      assert (root + b)[..|root + a|] == root + a;
      assert b[..|a|] == (root + b)[..|root| + |a|][|root|..];
    }
    if a <= b {
      assert b == a + b[|a|..];
      assert root + b == root + a + b[|a|..];
    }
  }

  /**
   * Listing the remote pruned at the tombstones plans the same deletes as a full listing if
   * and only if every tombstone that hides an extra is dead on the remote.
   */
  lemma TombstonePruningIff(root: Path, dirs: seq<DirectoryEntry>, files: seq<FileEntry>,
                            deleted: seq<Tombstone>, remote: Tree)
    requires TombstonesMapped(root, deleted) && WellRooted(remote, root)
    ensures var known := KnownLive(root, dirs, files, deleted);
      var prefixes := TombstonePrefixes(deleted);
      Targets(root, known, Prune(remote, prefixes)) == Targets(root, known, remote)
      <==> PrunedPrefixesDead(root, known, remote, prefixes)
  {
    PruningLosesNoDeletesIff(root, KnownLive(root, dirs, files, deleted), remote, TombstonePrefixes(deleted));
  }

  /** In particular for names that are injective across the tombstones, and without tombstones. */
  lemma TombstonePruningLosesNothing(root: Path, dirs: seq<DirectoryEntry>, files: seq<FileEntry>,
                                     deleted: seq<Tombstone>, remote: Tree)
    requires Mapped(root, dirs, files) && TombstonesMapped(root, deleted)
    requires InjectiveAcross(dirs, files, deleted) && WellRooted(remote, root)
    ensures var known, prefixes := KnownLive(root, dirs, files, deleted), TombstonePrefixes(deleted);
      && PrunedPrefixesDead(root, known, remote, prefixes)
      && Targets(root, known, Prune(remote, prefixes)) == Targets(root, known, remote)
  {
    var known, prefixes := KnownLive(root, dirs, files, deleted), TombstonePrefixes(deleted);
    forall p | p in prefixes ensures Dead(known, p) {
      var t :| t in deleted && t.remote == p;
      TombstonesDead(root, dirs, files, deleted, t);
    }
    TombstonePruningIff(root, dirs, files, deleted, remote);
  }

  /**
   * Two names that sanitise alike: "a?" has vanished while "a" is live.  Pruning at the
   * shared remote prefix hides an extra below the live directory.
   */
  lemma PruningAcrossCollision(root: Path, extra: Path, dir: DirectoryEntry, tomb: Tombstone)
    requires root == ["disk:", "r"] && extra == ["disk:", "r", "a", "x"]
    requires dir.rel == ["a"] && dir.remote == ["disk:", "r", "a"]
    requires tomb == Tombstone(["a?"], ["disk:", "r", "a"])
    ensures var remote := map[root := Directory, dir.remote := Directory, extra := File];
      var known := KnownLive(root, [dir], [], [tomb]);
      && Mapped(root, [dir], []) && TombstonesMapped(root, [tomb]) && WellRooted(remote, root)
      && Targets(root, known, Prune(remote, TombstonePrefixes([tomb]))) != Targets(root, known, remote)
  {
    var remote := map[root := Directory, dir.remote := Directory, extra := File];
    var known := KnownLive(root, [dir], [], [tomb]);
    CollisionPlan(root, dir, tomb);
    CollisionExtra(root, extra, dir, known, tomb);
    TombstonePruningIff(root, [dir], [], [tomb], remote);
  }

  lemma CollisionPlan(root: Path, dir: DirectoryEntry, tomb: Tombstone)
    requires root == ["disk:", "r"]
    requires dir.rel == ["a"] && dir.remote == ["disk:", "r", "a"]
    requires tomb == Tombstone(["a?"], ["disk:", "r", "a"])
    ensures Mapped(root, [dir], []) && TombstonesMapped(root, [tomb])
    ensures KnownLive(root, [dir], [], [tomb]) == {root, dir.remote}
  {
    assert "a"[1..] == "" && FilterSegment("a") == "a";
    assert "a?"[1..] == "?" && "?"[1..] == "" && FilterSegment("?") == "" && FilterSegment("a?") == "a";
    assert TrimEnd("a") == "a" && TrimEnd("a?") == "a?";
    assert Image(["a"]) == ["a"] && Image(["a?"]) == ["a"];
    assert ["a?"][0] != ["a"][0];
    assert !Covered([tomb], dir.rel);
    assert dir in [dir];
  }

  lemma CollisionExtra(root: Path, extra: Path, dir: DirectoryEntry, known: set<Path>, tomb: Tombstone)
    requires root == ["disk:", "r"] && extra == ["disk:", "r", "a", "x"]
    requires dir.remote == ["disk:", "r", "a"] && known == {root, dir.remote} && tomb.remote == dir.remote
    ensures var remote := map[root := Directory, dir.remote := Directory, extra := File];
      WellRooted(remote, root) && !PrunedPrefixesDead(root, known, remote, TombstonePrefixes([tomb]))
  {
    assert extra[|root|..] == ["a", "x"];
    assert Extra(root, known, extra) && tomb.remote < extra;
    assert dir.remote in known && dir.remote <= dir.remote;
    assert Parent(extra) == dir.remote && Parent(dir.remote) == root;
    assert tomb in [tomb] && tomb.remote in TombstonePrefixes([tomb]);
  }

  // ----- collisions

  function Keys(dirs: seq<DirectoryEntry>, files: seq<FileEntry>): seq<string> {
    seq(|dirs|, i requires 0 <= i < |dirs| => dirs[i].normalized)
    + seq(|files|, i requires 0 <= i < |files| => files[i].normalized)
  }

  /** The normalised form is computed from the remote path. */
  ghost predicate NormalizedFromRemote(dirs: seq<DirectoryEntry>, files: seq<FileEntry>) {
    && (forall d, e | d in dirs && e in dirs && d.remote == e.remote :: d.normalized == e.normalized)
    && (forall d, f | d in dirs && f in files && d.remote == f.remote :: d.normalized == f.normalized)
    && (forall f, g | f in files && g in files && f.remote == g.remote :: f.normalized == g.normalized)
  }

  function KeySet(keys: seq<string>): set<string> {
    set k | k in keys
  }

  /** True exactly when two entries share a normalised remote path. */
  method LocalRemoteCollision(dirs: seq<DirectoryEntry>, files: seq<FileEntry>) returns (collides: bool)
    ensures collides <==> !Distinct(Keys(dirs, files))
  {
    var dirKeys := seq(|dirs|, i requires 0 <= i < |dirs| => dirs[i].normalized);
    var fileKeys := seq(|files|, i requires 0 <= i < |files| => files[i].normalized);
    var seen: set<string>;
    assert [] + dirKeys == dirKeys;
    collides, seen := See({}, [], dirKeys);
    if collides {
      NotDistinctMore(dirKeys, fileKeys);
      return;
    }
    collides, seen := See(seen, dirKeys, fileKeys);
  }

  lemma NotDistinctMore(a: seq<string>, b: seq<string>)
    requires !Distinct(a)
    ensures !Distinct(a + b)
  {
    var i, j :| 0 <= i < j < |a| && a[i] == a[j];
    assert (a + b)[i] == (a + b)[j];
  }

  /** Adds keys to those seen until one of them is there already. */
  method See(seen: set<string>, ghost done: seq<string>, keys: seq<string>) returns (collides: bool, seen': set<string>)
    requires Distinct(done) && seen == KeySet(done)
    ensures collides <==> !Distinct(done + keys)
    ensures !collides ==> seen' == KeySet(done + keys)
  {
    seen' := seen;
    ghost var all := done + keys;
    assert all[..|done|] == done;
    for i := 0 to |keys|
      invariant Distinct(all[..|done| + i]) && seen' == KeySet(all[..|done| + i])
    {
      SeenStep(all, |done| + i);
      if keys[i] in seen' {
        return true, seen';
      }
      seen' := seen' + {keys[i]};
    }
    assert all[..|all|] == all;
    return false, seen';
  }

  lemma SeenStep(keys: seq<string>, n: nat)
    requires n < |keys| && Distinct(keys[..n])
    ensures KeySet(keys[..n + 1]) == KeySet(keys[..n]) + {keys[n]}
    ensures keys[n] in KeySet(keys[..n]) ==> !Distinct(keys)
    ensures keys[n] !in KeySet(keys[..n]) ==> Distinct(keys[..n + 1])
  {
    assert keys[..n + 1] == keys[..n] + [keys[n]];
    if keys[n] in KeySet(keys[..n]) {
      var j :| 0 <= j < n && keys[..n][j] == keys[n];
      assert keys[j] == keys[n];
    }
  }

  /** No collision: distinct entries have distinct remote paths, also across kinds. */
  lemma NoCollisionDistinctRemotes(dirs: seq<DirectoryEntry>, files: seq<FileEntry>)
    requires Distinct(Keys(dirs, files)) && NormalizedFromRemote(dirs, files)
    ensures forall i, j | 0 <= i < j < |dirs| :: dirs[i].remote != dirs[j].remote
    ensures forall i, j | 0 <= i < j < |files| :: files[i].remote != files[j].remote
    ensures forall d, f | d in dirs && f in files :: d.remote != f.remote
  {
    var keys := Keys(dirs, files);
    assert forall i | 0 <= i < |dirs| :: keys[i] == dirs[i].normalized;
    assert forall i | 0 <= i < |files| :: keys[|dirs| + i] == files[i].normalized;
    forall d, f | d in dirs && f in files ensures d.remote != f.remote {
      var i :| 0 <= i < |dirs| && dirs[i] == d;
      var j :| 0 <= j < |files| && files[j] == f;
      assert keys[i] != keys[|dirs| + j];
    }
    forall i, j | 0 <= i < j < |files| ensures files[i].remote != files[j].remote {
      assert keys[|dirs| + i] != keys[|dirs| + j];
    }
  }
}
