/**
 * Moving a legacy layout into the canonical one.  Files whose content already lies under a
 * legacy root are moved instead of uploaded; the inventories follow every move.
 */
module Migration {
  import opened Paths
  import opened PathText
  import opened PathMapping
  import opened LocalNames
  import opened NameMapping
  import opened LiveScan
  import opened LiveSet
  import opened DeletePlan
  import opened DeleteSafety
  import opened LegacyDeletes
  import opened Sorting

  datatype Meta = Meta(kind: Kind, size: Option<nat>, md5: Option<string>)

  type Inventory = map<Path, Meta>

  datatype LegacyInventory = LegacyInventory(root: Path, resources: Inventory)

  const DIRECTORY := Meta(Directory, None, None)

  function Kinds(inventory: Inventory): Tree {
    map p | p in inventory :: inventory[p].kind
  }

  predicate IsFile(inventory: Inventory, p: Path) {
    p in inventory && inventory[p].kind == File
  }

  predicate IsDirectory(inventory: Inventory, p: Path) {
    p in inventory && inventory[p].kind == Directory
  }

  /** What a comparison of a local file with a legacy resource can answer. */
  datatype Comparison = Same | Different | FileError | FatalError

  /** How a phase ends: it goes on, it was cancelled or stopped, or an error ends the run. */
  datatype Flow = Continue | Stopped | Aborted

  /** The canonical inventory grew by directories at proper ancestors of p, nothing else changed. */
  ghost predicate GrownAbove(before: Inventory, after: Inventory, p: Path) {
    && before.Keys <= after.Keys
    && (forall q | q in before && !(q < p) :: after[q] == before[q])
    && (forall q | q in before && before[q].kind == Directory :: after[q] == before[q])
    && (forall q | q in after && q !in before :: q < p && after[q] == DIRECTORY)
  }

  /** Where a legacy root would hold the file. */
  function LegacyPath(legacy: LegacyInventory, f: FileEntry): Path {
    if f.rel == ROOT_REL then legacy.root else legacy.root + f.rel
  }

  /** On the text: the legacy root, and after a slash the relative text unless that is empty. */
  lemma LegacyPathText(legacy: LegacyInventory, f: FileEntry)
    requires Clean(legacy.root) && legacy.root != [] && f.rel == RelOf(f.local)
    ensures var relative := RelativeText(f.local);
      Text(LegacyPath(legacy, f)) ==
        if relative == "" then Text(legacy.root) else TrimSlashEnd(Text(legacy.root)) + "/" + relative
  {
    var root := legacy.root;
    RelShape(f.local);
    CleanTextEnds(root);
    PrefixGivesUnder(root + f.rel, root);
    assert (root + f.rel)[|root|..] == f.rel;
    if f.rel != ROOT_REL {
      TextHead(f.rel);
    }
  }

  /** What processing one file did: nothing moved, or the resource of the legacy inventory at an index did. */
  datatype Move = NoMove | Moved(index: nat)

  function WithoutResource(legacy: LegacyInventory, p: Path): LegacyInventory {
    LegacyInventory(legacy.root, legacy.resources - {p})
  }

  /** Parents were created first; then the legacy file, if any, became the canonical one. */
  ghost predicate FileStep(f: FileEntry, move: Move, c0: Inventory, l0: seq<LegacyInventory>, mid: Inventory,
                           c1: Inventory, l1: seq<LegacyInventory>)
  {
    && GrownAbove(c0, mid, f.remote)
    && match move
       case NoMove => c1 == mid && l1 == l0
       case Moved(i) =>
         && i < |l0| && !IsFile(c0, f.remote)
         && (var path := LegacyPath(l0[i], f);
             && IsFile(l0[i].resources, path)
             && c1 == mid[f.remote := l0[i].resources[path]]
             && l1 == l0[i := WithoutResource(l0[i], path)])
  }

  /** Nothing is lost: each legacy resource is still there or is the canonical resource of some file. */
  ghost predicate Conserved(files: seq<FileEntry>, l0: seq<LegacyInventory>, c1: Inventory, l1: seq<LegacyInventory>) {
    && |l1| == |l0|
    && (forall i | 0 <= i < |l0| :: l1[i].root == l0[i].root && l1[i].resources.Keys <= l0[i].resources.Keys)
    && (forall i, p | 0 <= i < |l0| && p in l1[i].resources :: l1[i].resources[p] == l0[i].resources[p])
    && (forall i, p | 0 <= i < |l0| && p in l0[i].resources && p !in l1[i].resources :: HasNewHome(files, l0[i], p, c1))
  }

  ghost predicate HasNewHome(files: seq<FileEntry>, legacy: LegacyInventory, p: Path, c: Inventory)
    requires p in legacy.resources
  {
    exists f | f in files :: p == LegacyPath(legacy, f) && IsFile(c, f.remote) && c[f.remote] == legacy.resources[p]
  }

  /** No file lies at or above another live file. */
  ghost predicate FilesApart(files: seq<FileEntry>) {
    forall i, j | 0 <= i < |files| && 0 <= j < |files| && i != j :: !(files[i].remote <= files[j].remote)
  }

  /** A file that has found its home keeps it while a later file is processed. */
  lemma HomeKept(files: seq<FileEntry>, n: nat, move: Move, l0: seq<LegacyInventory>, c1: Inventory,
                 l1: seq<LegacyInventory>,
                 mid: Inventory, c2: Inventory, l2: seq<LegacyInventory>, legacy: LegacyInventory, p: Path)
    requires n < |files| && FilesApart(files)
    requires FileStep(files[n], move, c1, l1, mid, c2, l2)
    requires p in legacy.resources && HasNewHome(files[..n], legacy, p, c1)
    ensures HasNewHome(files[..n + 1], legacy, p, c2)
  {
    var f :| f in files[..n] && p == LegacyPath(legacy, f) && IsFile(c1, f.remote)
      && c1[f.remote] == legacy.resources[p];
    var k :| 0 <= k < n && files[k] == f;
    assert !(f.remote <= files[n].remote);
    assert mid[f.remote] == c1[f.remote] && c2[f.remote] == c1[f.remote];
    assert files[..n + 1][k] == f;
  }

  lemma ConservedStep(files: seq<FileEntry>, n: nat, move: Move, l0: seq<LegacyInventory>, c1: Inventory,
                      l1: seq<LegacyInventory>, mid: Inventory, c2: Inventory, l2: seq<LegacyInventory>)
    requires n < |files| && FilesApart(files)
    requires Conserved(files[..n], l0, c1, l1) && FileStep(files[n], move, c1, l1, mid, c2, l2)
    ensures Conserved(files[..n + 1], l0, c2, l2)
  {
    forall i, p | 0 <= i < |l0| && p in l0[i].resources && p !in l2[i].resources
      ensures HasNewHome(files[..n + 1], l0[i], p, c2)
    {
      if p !in l1[i].resources {
        HomeKept(files, n, move, l0, c1, l1, mid, c2, l2, l0[i], p);
      } else {
        assert files[..n + 1][n] == files[n];
        assert p == LegacyPath(l0[i], files[n]);
      }
    }
  }

  lemma ConservedMore(files: seq<FileEntry>, n: nat, l0: seq<LegacyInventory>, c: Inventory, l: seq<LegacyInventory>)
    requires n <= |files| && Conserved(files[..n], l0, c, l)
    ensures Conserved(files, l0, c, l)
  {
    forall i, p | 0 <= i < |l0| && p in l0[i].resources && p !in l[i].resources ensures HasNewHome(files, l0[i], p, c) {
      assert HasNewHome(files[..n], l0[i], p, c);
    }
  }

  /** Between the root and a live entry lie stored directories only. */
  lemma StoredAbove(root: Path, dirs: seq<DirectoryEntry>, files: seq<FileEntry>, rel: Path, p: Path)
    requires Mapped(root, dirs, files) && LiveClosed(dirs, files, [])
    requires rel in Rels(dirs, files) && rel != [] && root < p && p < root + Image(rel)
    ensures exists d | d in dirs :: d.remote == p
  {
    AncestorRemote(root, rel, p);
    assert AncestorRecorded(dirs, rel, |p| - |root|);
    var q := rel[..|p| - |root|];
    var d :| d in dirs && d.rel == q;
    PlainIff(q);
  }

  /** Live files of a closed scan without collisions do not lie at or above one another. */
  lemma LiveFilesApart(root: Path, dirs: seq<DirectoryEntry>, files: seq<FileEntry>)
    requires Mapped(root, dirs, files) && LiveClosed(dirs, files, [])
    requires forall i, j | 0 <= i < j < |files| :: files[i].remote != files[j].remote
    requires forall d, f | d in dirs && f in files :: d.remote != f.remote
    requires forall f | f in files :: f.remote != root
    ensures FilesApart(files)
  {
    forall i, j | 0 <= i < |files| && 0 <= j < |files| && i != j ensures !(files[i].remote <= files[j].remote) {
      var f, g := files[i], files[j];
      assert f in files && g in files;
      assert f.remote != g.remote && g.rel in Rels(dirs, files);
      if f.remote <= g.remote {
        StoredAbove(root, dirs, files, g.rel, f.remote);
      }
    }
  }

  /** All proper ancestors of p below the disk root are directories. */
  ghost predicate ParentsPresent(inventory: Inventory, p: Path) {
    forall q | q < p && |q| >= 2 :: IsDirectory(inventory, q)
  }

  /** The directories that creating parents of the first n segments of p leaves. */
  ghost predicate ParentsMade(outside: Outside, c0: Inventory, c1: Inventory, p: Path, n: nat) {
    && GrownAbove(c0, c1, p) && OnlyCreated(outside, c0, c1)
    && forall m | 2 <= m < n <= |p| :: IsDirectory(c1, p[..m])
  }

  lemma ParentStep(outside: Outside, c0: Inventory, c1: Inventory, p: Path, n: nat)
    requires 2 <= n < |p| && ParentsMade(outside, c0, c1, p, n)
    ensures IsDirectory(c1, p[..n]) ==> ParentsMade(outside, c0, c1, p, n + 1)
    ensures !IsDirectory(c1, p[..n]) ==> !IsDirectory(c0, p[..n])
    ensures !IsDirectory(c1, p[..n]) && outside.creates(p[..n]) ==>
      ParentsMade(outside, c0, c1[p[..n] := DIRECTORY], p, n + 1)
  {
    assert p[..n] < p;
  }

  /** Index i is the first legacy root that holds a file at the relative path of f. */
  ghost predicate FirstHolder(legacy: seq<LegacyInventory>, f: FileEntry, i: nat) {
    && i < |legacy|
    && (var path := LegacyPath(legacy[i], f); path in legacy[i].resources && legacy[i].resources[path].kind == File)
    && forall k | 0 <= k < i :: !IsFile(legacy[k].resources, LegacyPath(legacy[k], f))
  }

  /** The file has no canonical file, and comparing it with the first legacy file gives this answer. */
  ghost predicate Compares(f: FileEntry, canonical: Inventory, legacy: seq<LegacyInventory>,
                           compare: (FileEntry, Meta) -> Comparison, answer: Comparison)
  {
    && (f.remote in canonical ==> canonical[f.remote].kind == Directory)
    && exists i: nat ::
      FirstHolder(legacy, f, i) && compare(f, legacy[i].resources[LegacyPath(legacy[i], f)]) == answer
  }

  /** The file is to be moved: it has no canonical file and the first legacy file compares equal. */
  ghost predicate Wanted(f: FileEntry, canonical: Inventory, legacy: seq<LegacyInventory>,
                         compare: (FileEntry, Meta) -> Comparison)
  {
    Compares(f, canonical, legacy, compare, Same)
  }

  /** How a request to move a file is answered: done, failed, or failed with an error that stops the phase. */
  datatype MoveAnswer = MoveDone | MoveFails | MoveStops

  /** The answers of the outside world: which directories can be created, and how moves end. */
  datatype Outside = Outside(creates: Path -> bool, moves: FileEntry -> MoveAnswer)

  /** What is a directory now and was none before could be created. */
  ghost predicate OnlyCreated(outside: Outside, before: Inventory, after: Inventory) {
    forall q | IsDirectory(after, q) && !IsDirectory(before, q) :: outside.creates(q)
  }

  /** Some directory at or above p that is missing cannot be created. */
  ghost predicate Blocked(outside: Outside, inventory: Inventory, p: Path) {
    exists q | q <= p :: !IsDirectory(inventory, q) && !outside.creates(q)
  }

  /** No two files have the same relative path, and none has none. */
  ghost predicate DistinctRels(files: seq<FileEntry>) {
    && (forall f | f in files :: f.rel != [])
    && forall i, j | 0 <= i < |files| && 0 <= j < |files| && i != j :: files[i].rel != files[j].rel
  }

  /** These files are where they belong, or their moves failed. */
  ghost predicate Settled(files: seq<FileEntry>, outside: Outside, compare: (FileEntry, Meta) -> Comparison,
                          canonical: Inventory, legacy: seq<LegacyInventory>)
  {
    forall f | f in files && Wanted(f, canonical, legacy, compare) :: outside.moves(f) == MoveFails
  }

  lemma LegacyPathApart(legacy: LegacyInventory, f: FileEntry, g: FileEntry)
    requires f.rel != [] && g.rel != []
    ensures LegacyPath(legacy, f) == LegacyPath(legacy, g) ==> f.rel == g.rel
  {
    assert (legacy.root + f.rel)[|legacy.root|..] == f.rel && (legacy.root + g.rel)[|legacy.root|..] == g.rel;
  }

  /** Processing one file makes no other file wanted. */
  lemma StaysUnwanted(f: FileEntry, g: FileEntry, move: Move, compare: (FileEntry, Meta) -> Comparison, c0: Inventory,
                      l0: seq<LegacyInventory>, mid: Inventory, c1: Inventory, l1: seq<LegacyInventory>)
    requires FileStep(g, move, c0, l0, mid, c1, l1) && Wanted(f, c1, l1, compare)
    requires f == g || (f.rel != g.rel && f.rel != [] && g.rel != [] && !(f.remote <= g.remote))
    ensures Wanted(f, c0, l0, compare)
  {
    assert f.remote in c0 && c0[f.remote].kind == File ==> f.remote in c1 && c1[f.remote].kind == File;
    var i: nat :| FirstHolder(l1, f, i) && compare(f, l1[i].resources[LegacyPath(l1[i], f)]) == Same;
    if move.Moved? {
      var j := move.index;
      LegacyPathApart(l0[j], f, g);
      assert f == g ==> IsFile(c1, f.remote);
    }
    forall k | 0 <= k <= i ensures IsFile(l0[k].resources, LegacyPath(l0[k], f)) <==> k == i {
      assert IsFile(l1[k].resources, LegacyPath(l1[k], f)) <==> k == i;
    }
    assert FirstHolder(l0, f, i);
  }

  /** Where the merge phase is: after n files. */
  ghost predicate MergedTo(files: seq<FileEntry>, n: nat, outside: Outside,
                           compare: (FileEntry, Meta) -> Comparison, l0: seq<LegacyInventory>, c: Inventory,
                           l: seq<LegacyInventory>)
    requires n <= |files|
  {
    && Conserved(files[..n], l0, c, l)
    && (DistinctRels(files) ==> Settled(files[..n], outside, compare, c, l))
  }

  lemma MergeStep(files: seq<FileEntry>, n: nat, outside: Outside, move: Move,
                  compare: (FileEntry, Meta) -> Comparison, start: seq<LegacyInventory>, c0: Inventory,
                  l0: seq<LegacyInventory>, mid: Inventory, c1: Inventory, l1: seq<LegacyInventory>, goesOn: bool)
    requires n < |files| && FilesApart(files) && MergedTo(files, n, outside, compare, start, c0, l0)
    requires FileStep(files[n], move, c0, l0, mid, c1, l1)
    requires goesOn && Wanted(files[n], c0, l0, compare) && !move.Moved? ==> outside.moves(files[n]) == MoveFails
    ensures goesOn ==> MergedTo(files, n + 1, outside, compare, start, c1, l1)
    ensures Conserved(files, start, c1, l1)
  {
    ConservedStep(files, n, move, start, c0, l0, mid, c1, l1);
    ConservedMore(files, n + 1, start, c1, l1);
    if goesOn && DistinctRels(files) {
      SettledStep(files, n, outside, move, compare, c0, l0, mid, c1, l1);
    }
  }

  lemma SettledStep(files: seq<FileEntry>, n: nat, outside: Outside, move: Move,
                    compare: (FileEntry, Meta) -> Comparison, c0: Inventory, l0: seq<LegacyInventory>, mid: Inventory,
                    c1: Inventory, l1: seq<LegacyInventory>)
    requires n < |files| && FilesApart(files) && DistinctRels(files)
    requires Settled(files[..n], outside, compare, c0, l0) && FileStep(files[n], move, c0, l0, mid, c1, l1)
    requires Wanted(files[n], c0, l0, compare) && !move.Moved? ==> outside.moves(files[n]) == MoveFails
    ensures Settled(files[..n + 1], outside, compare, c1, l1)
  {
    forall f | f in files[..n + 1] && Wanted(f, c1, l1, compare) ensures outside.moves(f) == MoveFails {
      var k :| 0 <= k <= n && f == files[k];
      StaysUnwanted(f, files[n], move, compare, c0, l0, mid, c1, l1);
      if k < n {
        assert f in files[..n];
      }
    }
  }

  // ----- the inventories and the disk

  /** The legacy roots lie apart from the canonical root. */
  ghost predicate LegacyApart(root: Path, legacy: seq<LegacyInventory>) {
    forall i | 0 <= i < |legacy| :: Apart(root, legacy[i].root)
  }

  /** The legacy roots lie apart from the canonical root and from one another. */
  ghost predicate RootsApart(root: Path, legacy: seq<LegacyInventory>) {
    && LegacyApart(root, legacy)
    && forall i, j | 0 <= i < |legacy| && 0 <= j < |legacy| && i != j :: Apart(legacy[i].root, legacy[j].root)
  }

  /** What the inventories hold is on the disk: at, under or above the canonical root, and under the legacy roots. */
  ghost predicate OnDisk(root: Path, canonical: Inventory, legacy: seq<LegacyInventory>, disk: Inventory) {
    && (forall p | p in canonical :: (root <= p || p <= root) && p in disk && disk[p] == canonical[p])
    && (forall i | 0 <= i < |legacy| :: LegacyOnDisk(legacy[i], disk))
  }

  ghost predicate LegacyOnDisk(legacy: LegacyInventory, disk: Inventory) {
    forall p | p in legacy.resources :: legacy.root <= p && p in disk && disk[p] == legacy.resources[p]
  }

  /** Nothing under one of two disjoint roots is comparable with the other. */
  lemma ApartBelow(a: Path, b: Path, p: Path)
    requires Apart(a, b) && b <= p
    ensures Apart(a, p)
  {
    if a <= p {
      PrefixesChain(a, b, p);
    }
    if p <= a {
      PrefixTransitive(b, p, a);
    }
  }

  /** Two roots are disjoint exactly if no path lies at or under both. */
  lemma ApartIff(a: Path, b: Path)
    ensures Apart(a, b) <==> forall p :: !(CoveredBy(p, {a}) && CoveredBy(p, {b}))
  {
    forall p | CoveredBy(p, {a}) && CoveredBy(p, {b}) ensures !Apart(a, b) {
      PrefixesChain(a, b, p);
    }
    assert CoveredBy(a, {a}) && CoveredBy(b, {b});
    assert (a <= b ==> CoveredBy(b, {a})) && (b <= a ==> CoveredBy(a, {b}));
  }

  lemma LegacyElsewhere(root: Path, canonical: Inventory, legacy: seq<LegacyInventory>, disk: Inventory, i: nat,
                        p: Path)
    requires LegacyApart(root, legacy) && OnDisk(root, canonical, legacy, disk)
    requires i < |legacy| && p in legacy[i].resources
    ensures Apart(root, p) && legacy[i].root <= p
  {
    assert LegacyOnDisk(legacy[i], disk);
    ApartBelow(root, legacy[i].root, p);
  }

  /** A directory created above or in the canonical tree. */
  lemma CreateOnDisk(root: Path, canonical: Inventory, legacy: seq<LegacyInventory>, disk: Inventory, p: Path, q: Path)
    requires LegacyApart(root, legacy) && OnDisk(root, canonical, legacy, disk)
    requires root <= p && q <= p
    ensures OnDisk(root, canonical[q := DIRECTORY], legacy, disk[q := DIRECTORY])
  {
    PrefixesChain(root, q, p);
    forall i | 0 <= i < |legacy| ensures LegacyOnDisk(legacy[i], disk[q := DIRECTORY]) {
      assert LegacyOnDisk(legacy[i], disk);
      forall x | x in legacy[i].resources ensures x != q {
        LegacyElsewhere(root, canonical, legacy, disk, i, x);
      }
    }
  }

  /** A legacy file moved into the canonical tree. */
  lemma MoveOnDisk(root: Path, canonical: Inventory, legacy: seq<LegacyInventory>, disk: Inventory, i: nat, from: Path,
                   to: Path)
    requires RootsApart(root, legacy) && OnDisk(root, canonical, legacy, disk)
    requires i < |legacy| && from in legacy[i].resources && root <= to
    ensures var meta := legacy[i].resources[from];
      OnDisk(root, canonical[to := meta], legacy[i := WithoutResource(legacy[i], from)], (disk - {from})[to := meta])
  {
    var meta, after := legacy[i].resources[from], legacy[i := WithoutResource(legacy[i], from)];
    LegacyElsewhere(root, canonical, legacy, disk, i, from);
    assert from !in canonical;
    forall k | 0 <= k < |after| ensures LegacyOnDisk(after[k], (disk - {from})[to := meta]) {
      MoveKeeps(root, canonical, legacy, disk, i, from, to, k);
    }
  }

  lemma MoveKeeps(root: Path, canonical: Inventory, legacy: seq<LegacyInventory>, disk: Inventory, i: nat, from: Path,
                  to: Path, k: nat)
    requires RootsApart(root, legacy) && OnDisk(root, canonical, legacy, disk)
    requires i < |legacy| && from in legacy[i].resources && root <= to && k < |legacy|
    ensures var meta := legacy[i].resources[from];
      LegacyOnDisk(if k == i then WithoutResource(legacy[i], from) else legacy[k], (disk - {from})[to := meta])
  {
    assert LegacyOnDisk(legacy[k], disk) && LegacyOnDisk(legacy[i], disk);
    forall p | p in legacy[k].resources ensures p != to && (p == from ==> k == i) {
      LegacyElsewhere(root, canonical, legacy, disk, k, p);
      ApartIff(legacy[i].root, legacy[k].root);
      assert CoveredBy(p, {legacy[k].root});
    }
  }

  lemma SameRoots(root: Path, legacy: seq<LegacyInventory>, i: nat, p: Path)
    requires i < |legacy| && RootsApart(root, legacy[i := WithoutResource(legacy[i], p)])
    ensures RootsApart(root, legacy)
  {
    var after := legacy[i := WithoutResource(legacy[i], p)];
    assert forall k | 0 <= k < |legacy| :: legacy[k].root == after[k].root;
  }

  /** Each resource that the legacy inventories held is on the disk, at its place or as the file it belongs to. */
  ghost predicate NothingLost(files: seq<FileEntry>, l0: seq<LegacyInventory>, disk: Inventory) {
    forall i, p | 0 <= i < |l0| && p in l0[i].resources ::
      (p in disk && disk[p] == l0[i].resources[p]) || HasNewHome(files, l0[i], p, disk)
  }

  lemma ConservedOnDisk(root: Path, files: seq<FileEntry>, l0: seq<LegacyInventory>, c: Inventory,
                        l: seq<LegacyInventory>, disk: Inventory)
    requires Conserved(files, l0, c, l) && OnDisk(root, c, l, disk)
    ensures NothingLost(files, l0, disk)
  {
    forall i, p | 0 <= i < |l0| && p in l0[i].resources && p !in l[i].resources
      ensures HasNewHome(files, l0[i], p, disk)
    {
      var f :| f in files && p == LegacyPath(l0[i], f) && IsFile(c, f.remote) && c[f.remote] == l0[i].resources[p];
      assert IsFile(disk, f.remote);
    }
  }

  class RemoteSets {
    const root: Path
    const outside: Outside
    var cancelled: bool
    var canonical: Inventory
    var legacy: seq<LegacyInventory>
    ghost var disk: Inventory

    constructor (root: Path, outside: Outside, canonical: Inventory, legacy: seq<LegacyInventory>,
                 ghost disk: Inventory)
      ensures this.root == root && this.outside == outside && !cancelled
      ensures this.canonical == canonical && this.legacy == legacy && this.disk == disk
    {
      this.root, this.outside, cancelled := root, outside, false;
      this.canonical, this.legacy, this.disk := canonical, legacy, disk;
    }

    /** Looks at the cancellation token; it may have been set by now, and stays set. */
    method Poll() returns (stop: bool)
      modifies this`cancelled
      ensures stop == cancelled && (old(cancelled) ==> cancelled)
    {
      if * {
        cancelled := true;
      }
      return cancelled;
    }

    /** With disjoint roots the inventories are true of the disk. */
    ghost predicate Tracks()
      reads this
    {
      RootsApart(root, legacy) ==> OnDisk(root, canonical, legacy, disk)
    }

    /** The root and the directories of the scan were there or could be created. */
    ghost predicate Creatable(before: Inventory, dirs: seq<DirectoryEntry>)
      reads this
    {
      && (IsDirectory(before, root) || outside.creates(root))
      && forall d | d in dirs :: IsDirectory(before, d.remote) || outside.creates(d.remote)
    }

    /** Stopped by a cancellation or the answer to a move, or ended by a create or a comparison that failed. */
    ghost predicate EndsForAReason(flow: Flow, files: seq<FileEntry>, compare: (FileEntry, Meta) -> Comparison)
      reads this
    {
      match flow
      case Continue => true
      case Stopped => cancelled || exists f | f in files :: outside.moves(f) == MoveStops
      case Aborted =>
        (exists q :: !outside.creates(q)) || exists f, meta | f in files :: compare(f, meta) == FatalError
    }

    /** A successful request for a directory at or above p. */
    ghost method Created(p: Path, q: Path)
      requires root <= p && q <= p
      modifies this`disk
      ensures disk == old(disk)[q := DIRECTORY]
      ensures old(Tracks()) && RootsApart(root, legacy) ==> OnDisk(root, canonical[q := DIRECTORY], legacy, disk)
    {
      if Tracks() && RootsApart(root, legacy) {
        CreateOnDisk(root, canonical, legacy, disk, p, q);
      }
      disk := disk[q := DIRECTORY];
    }

    /** Creates the missing ancestors of p from the top, one request each. */
    method EnsureParentDirectories(p: Path) returns (flow: Flow)
      requires Tracks() && root <= p
      modifies this`canonical, this`disk, this`cancelled
      ensures Tracks() && (old(cancelled) ==> cancelled)
      ensures GrownAbove(old(canonical), canonical, p) && OnlyCreated(outside, old(canonical), canonical)
      ensures flow.Continue? ==> ParentsPresent(canonical, p) && cancelled == old(cancelled)
      ensures flow.Stopped? ==> cancelled
      ensures flow.Aborted? ==> exists q | q < p :: !IsDirectory(old(canonical), q) && !outside.creates(q)
    {
      if |p| <= 2 {
        return Continue;
      }
      for n := 2 to |p|
        invariant Tracks() && ParentsMade(outside, old(canonical), canonical, p, n) && cancelled == old(cancelled)
      {
        var stop := Poll();
        if stop {
          return Stopped;
        }
        var parent := p[..n];
        ParentStep(outside, old(canonical), canonical, p, n);
        if parent in canonical && canonical[parent].kind == Directory {
          continue;
        }
        if !outside.creates(parent) {
          return Aborted;
        }
        Created(p, parent);
        canonical := canonical[parent := DIRECTORY];
      }
      forall q | q < p && |q| >= 2 ensures IsDirectory(canonical, q) {
        assert q == p[..|q|];
      }
      return Continue;
    }

    method EnsureDirectory(p: Path) returns (flow: Flow)
      requires Tracks() && root <= p
      modifies this`canonical, this`disk, this`cancelled
      ensures Tracks() && (old(cancelled) ==> cancelled)
      ensures old(canonical).Keys <= canonical.Keys
      ensures forall q | q in old(canonical) && (!(q <= p) || old(canonical)[q].kind == Directory) ::
        canonical[q] == old(canonical)[q]
      ensures forall q | q in canonical && q !in old(canonical) :: q <= p && canonical[q] == DIRECTORY
      ensures OnlyCreated(outside, old(canonical), canonical)
      ensures flow.Continue? ==> IsDirectory(canonical, p) && cancelled == old(cancelled)
      ensures !flow.Continue? ==> (p in canonical <==> p in old(canonical))
      ensures flow.Stopped? ==> cancelled
      ensures flow.Aborted? ==> Blocked(outside, old(canonical), p)
    {
      if p in canonical && canonical[p].kind == Directory {
        return Continue;
      }
      flow := EnsureParentDirectories(p);
      if !flow.Continue? {
        return;
      }
      var stop := Poll();
      if stop {
        return Stopped;
      }
      if !outside.creates(p) {
        return Aborted;
      }
      Created(p, p);
      canonical := canonical[p := DIRECTORY];
    }

    /** The first legacy root that holds a file at the same relative path. */
    method FindLegacyFile(f: FileEntry) returns (r: Option<nat>)
      ensures r.Some? ==> FirstHolder(legacy, f, r.value)
      ensures r.None? ==> forall i: nat :: !FirstHolder(legacy, f, i)
    {
      for i := 0 to |legacy|
        invariant forall k | 0 <= k < i :: !IsFile(legacy[k].resources, LegacyPath(legacy[k], f))
      {
        if IsFile(legacy[i].resources, LegacyPath(legacy[i], f)) {
          return Some(i);
        }
      }
      return None;
    }

    /** One request to move a legacy file to its canonical place. */
    method MoveFile(f: FileEntry, i: nat) returns (answer: MoveAnswer)
      requires Tracks() && root <= f.remote
      requires i < |legacy| && IsFile(legacy[i].resources, LegacyPath(legacy[i], f))
      modifies this`canonical, this`legacy, this`disk
      ensures Tracks() && answer == outside.moves(f)
      ensures var path := LegacyPath(old(legacy)[i], f);
        if answer.MoveDone?
        then
          && canonical == old(canonical)[f.remote := old(legacy)[i].resources[path]]
          && legacy == old(legacy)[i := WithoutResource(old(legacy)[i], path)]
        else canonical == old(canonical) && legacy == old(legacy)
    {
      answer := outside.moves(f);
      if !answer.MoveDone? {
        return;
      }
      var path := LegacyPath(legacy[i], f);
      var meta := legacy[i].resources[path];
      if RootsApart(root, legacy[i := WithoutResource(legacy[i], path)]) {
        SameRoots(root, legacy, i, path);
        MoveOnDisk(root, canonical, legacy, disk, i, path, f.remote);
      }
      disk := (disk - {path})[f.remote := meta];
      canonical, legacy := canonical[f.remote := meta], legacy[i := WithoutResource(legacy[i], path)];
    }

    /**
     * One file of the merge phase.  If the phase goes on, the file was moved exactly if it was
     * wanted and its move was answered with success; it ends for a reason only.
     */
    method MergeFile(f: FileEntry, compare: (FileEntry, Meta) -> Comparison)
      returns (flow: Flow, failed: bool, ghost move: Move, ghost mid: Inventory)
      requires Tracks() && root <= f.remote
      modifies this
      ensures Tracks() && (old(cancelled) ==> cancelled)
      ensures FileStep(f, move, old(canonical), old(legacy), mid, canonical, legacy)
      ensures move.Moved? ==> FirstHolder(old(legacy), f, move.index) && compare(f, canonical[f.remote]) == Same
      ensures move.Moved? ==> flow.Continue? && ParentsPresent(mid, f.remote)
      ensures OnlyCreated(outside, old(canonical), mid) && (flow.Continue? ==> cancelled == old(cancelled))
      ensures var wanted := Wanted(f, old(canonical), old(legacy), compare);
        && (flow.Continue? ==> (move.Moved? <==> wanted && outside.moves(f) == MoveDone))
        && (flow.Continue? ==> (failed <==>
              || Compares(f, old(canonical), old(legacy), compare, FileError)
              || (wanted && outside.moves(f) == MoveFails)))
        && (flow.Continue? && wanted ==> outside.moves(f) != MoveStops)
        && (flow.Continue? ==> !Compares(f, old(canonical), old(legacy), compare, FatalError))
        && (flow.Stopped? ==> cancelled || (wanted && outside.moves(f) == MoveStops))
        && (flow.Aborted? ==>
              || Compares(f, old(canonical), old(legacy), compare, FatalError)
              || (wanted && Blocked(outside, old(canonical), f.remote)))
    {
      failed, move, mid := false, NoMove, canonical;
      if IsFile(canonical, f.remote) {
        return Continue, failed, move, mid;
      }
      var found := FindLegacyFile(f);
      if found.None? {
        return Continue, failed, move, mid;
      }
      var i := found.value;
      var answer := compare(f, legacy[i].resources[LegacyPath(legacy[i], f)]);
      assert forall k: nat :: FirstHolder(legacy, f, k) ==> k == i;
      if answer.FatalError? {
        return Aborted, failed, move, mid;
      }
      if !answer.Same? {
        return Continue, answer.FileError?, move, mid;
      }
      flow := EnsureParentDirectories(f.remote);
      mid := canonical;
      if !flow.Continue? {
        return;
      }
      var stop := Poll();
      if stop {
        return Stopped, failed, move, mid;
      }
      var moved := MoveFile(f, i);
      match moved {
        case MoveDone => move := Moved(i);
        case MoveFails => failed := true;
        case MoveStops => flow := Stopped;
      }
    }

    /** The managed root and the directories of the scan. */
    method EnsureDirectories(dirs: seq<DirectoryEntry>) returns (flow: Flow)
      requires Tracks() && forall d | d in dirs :: root <= d.remote
      modifies this`canonical, this`disk, this`cancelled
      ensures Tracks() && (old(cancelled) ==> cancelled)
      ensures old(canonical).Keys <= canonical.Keys
      ensures flow.Continue? ==> IsDirectory(canonical, root) && cancelled == old(cancelled)
      ensures flow.Continue? ==> forall d | d in dirs :: IsDirectory(canonical, d.remote)
      ensures OnlyCreated(outside, old(canonical), canonical)
      ensures flow.Stopped? ==> cancelled
      ensures flow.Aborted? ==> exists q :: !outside.creates(q)
    {
      flow := EnsureDirectory(root);
      if !flow.Continue? {
        return;
      }
      var stop := Poll();
      if stop {
        return Stopped;
      }
      for n := 0 to |dirs|
        invariant Tracks() && old(canonical).Keys <= canonical.Keys && cancelled == old(cancelled)
        invariant IsDirectory(canonical, root) && OnlyCreated(outside, old(canonical), canonical)
        invariant forall k | 0 <= k < n :: IsDirectory(canonical, dirs[k].remote)
      {
        assert dirs[n] in dirs;
        flow := EnsureDirectory(dirs[n].remote);
        if !flow.Continue? {
          return;
        }
        stop := Poll();
        if stop {
          return Stopped;
        }
      }
      return Continue;
    }

    /**
     * The merge phase: whatever fails or is cancelled, no legacy resource is lost, from the
     * inventories or, with disjoint roots, from the disk.  If it goes on to its end, no file is
     * left to be moved but those whose moves failed; it ends early for a reason only.
     */
    method ApplyMergeMoves(dirs: seq<DirectoryEntry>, files: seq<FileEntry>, compare: (FileEntry, Meta) -> Comparison)
      returns (flow: Flow)
      requires Tracks() && FilesApart(files)
      requires (forall d | d in dirs :: root <= d.remote) && forall f | f in files :: root <= f.remote
      modifies this
      ensures Tracks()
      ensures Conserved(files, old(legacy), canonical, legacy)
      ensures RootsApart(root, old(legacy)) ==> NothingLost(files, old(legacy), disk)
      ensures old(canonical).Keys <= canonical.Keys
      ensures flow.Continue? ==> cancelled == old(cancelled) && Creatable(old(canonical), dirs)
      ensures flow.Continue? && DistinctRels(files) ==> Settled(files, outside, compare, canonical, legacy)
      ensures EndsForAReason(flow, files, compare)
    {
      flow := MergeAll(dirs, files, compare);
      if RootsApart(root, old(legacy)) {
        assert RootsApart(root, legacy);
        ConservedOnDisk(root, files, old(legacy), canonical, legacy, disk);
      }
    }

    method MergeAll(dirs: seq<DirectoryEntry>, files: seq<FileEntry>, compare: (FileEntry, Meta) -> Comparison)
      returns (flow: Flow)
      requires Tracks() && FilesApart(files)
      requires (forall d | d in dirs :: root <= d.remote) && forall f | f in files :: root <= f.remote
      modifies this
      ensures Tracks()
      ensures Conserved(files, old(legacy), canonical, legacy)
      ensures old(canonical).Keys <= canonical.Keys
      ensures flow.Continue? ==> cancelled == old(cancelled) && Creatable(old(canonical), dirs)
      ensures flow.Continue? && DistinctRels(files) ==> Settled(files, outside, compare, canonical, legacy)
      ensures EndsForAReason(flow, files, compare)
    {
      flow := EnsureDirectories(dirs);
      if !flow.Continue? {
        return;
      }
      for n := 0 to |files|
        invariant Tracks() && MergedTo(files, n, outside, compare, old(legacy), canonical, legacy)
        invariant old(canonical).Keys <= canonical.Keys
        invariant cancelled == old(cancelled) && Creatable(old(canonical), dirs)
      {
        var stop := Poll();
        if stop {
          ConservedMore(files, n, old(legacy), canonical, legacy);
          return Stopped;
        }
        ghost var before, legacyBefore, move, mid := canonical, legacy, NoMove, canonical;
        var failed;
        assert files[n] in files;
        flow, failed, move, mid := MergeFile(files[n], compare);
        MergeStep(files, n, outside, move, compare, old(legacy), before, legacyBefore, mid, canonical, legacy,
                  flow.Continue?);
        if !flow.Continue? {
          return;
        }
      }
      assert files[..|files|] == files;
      return Continue;
    }
  }

  // ----- the delete phase

  /** Everything the delete phase of a migration removes. */
  function MigrationDeletes(root: Path, known: set<Path>, canonical: Inventory, legacy: seq<LegacyInventory>): set<Path>
  {
    Targets(root, known, Kinds(canonical)) +
    (set i, p | 0 <= i < |legacy| && p in Leftovers(legacy[i].root, Kinds(legacy[i].resources)) :: p)
  }

  method PlanDeletes(root: Path, known: set<Path>, canonical: Inventory, legacy: seq<LegacyInventory>)
    returns (ops: seq<DeleteOp>)
    ensures OpPaths(ops) == MigrationDeletes(root, known, canonical, legacy)
    ensures Sorted(ops, OpOrder)
  {
    ops := CollectCoalescedDeletes(root, known, Kinds(canonical));
    for i := 0 to |legacy|
      invariant OpPaths(ops) == MigrationDeletes(root, known, canonical, legacy[..i])
    {
      var ds := CollectLegacyDeleteCandidates(legacy[i].root, root, Kinds(legacy[i].resources));
      var more := Ops(ds);
      OpsPaths(ds);
      assert OpPaths(ops + more) == OpPaths(ops) + OpPaths(more);
      ops := ops + more;
      DeletesStep(root, known, canonical, legacy, i);
    }
    assert legacy[..|legacy|] == legacy;
    ops := SortOps(ops);
  }

  function Ops(ds: seq<LegacyDelete>): seq<DeleteOp> {
    seq(|ds|, i requires 0 <= i < |ds| => ds[i].op)
  }

  lemma OpsPaths(ds: seq<LegacyDelete>)
    ensures OpPaths(Ops(ds)) == LegacyPaths(ds)
  {
    forall d | d in ds ensures d.op in Ops(ds) {
      var i :| 0 <= i < |ds| && ds[i] == d;
      assert Ops(ds)[i] == d.op;
    }
    forall o | o in Ops(ds) ensures o.path in LegacyPaths(ds) {
      var i :| 0 <= i < |ds| && Ops(ds)[i] == o;
      assert ds[i] in ds;
    }
  }

  lemma DeletesStep(root: Path, known: set<Path>, canonical: Inventory, legacy: seq<LegacyInventory>, i: nat)
    requires i < |legacy|
    ensures MigrationDeletes(root, known, canonical, legacy[..i + 1]) ==
      MigrationDeletes(root, known, canonical, legacy[..i]) + Leftovers(legacy[i].root, Kinds(legacy[i].resources))
  {
    var before, after := legacy[..i], legacy[..i + 1];
    assert after == before + [legacy[i]];
    assert after[i] == legacy[i];
    assert forall k | 0 <= k < i :: after[k] == before[k];
  }

  lemma DeadSparesFiles(root: Path, dirs: seq<DirectoryEntry>, files: seq<FileEntry>, deleted: seq<Tombstone>, p: Path)
    requires Dead(KnownLive(root, dirs, files, deleted), p)
    ensures forall f | f in files && !Covered(deleted, f.rel) :: !(p <= f.remote)
  {
    forall f | f in files && !Covered(deleted, f.rel) ensures !(p <= f.remote) {
      assert f.remote in KnownLive(root, dirs, files, deleted);
    }
  }

  lemma KnownUnderRoot(root: Path, dirs: seq<DirectoryEntry>, files: seq<FileEntry>, deleted: seq<Tombstone>)
    requires Mapped(root, dirs, files)
    ensures forall k | k in KnownLive(root, dirs, files, deleted) :: root <= k
  {
  }

  lemma LegacyDeleteSafe(root: Path, known: set<Path>, legacy: LegacyInventory, p: Path)
    requires Apart(root, legacy.root) && forall k | k in known :: root <= k
    requires p in Leftovers(legacy.root, Kinds(legacy.resources))
    ensures legacy.root < p && Dead(known, p)
  {
    LeftoversCover(legacy.root, Kinds(legacy.resources), p);
    DisjointRootsSpareLive(root, legacy.root, Kinds(legacy.resources), known);
  }

  /**
   * With disjoint roots the delete phase stays strictly inside the canonical and the legacy
   * roots.  If no canonical extra has a live path below it, nothing live, such as a file that
   * has just been moved, is at or under a delete; whatever directories above the root the
   * earlier phases put into the inventory.
   */
  lemma MigrationDeletesAreSafe(root: Path, dirs: seq<DirectoryEntry>, files: seq<FileEntry>, deleted: seq<Tombstone>,
                                canonical: Inventory, legacy: seq<LegacyInventory>, p: Path)
    requires Mapped(root, dirs, files) && LegacyApart(root, legacy)
    requires p in MigrationDeletes(root, KnownLive(root, dirs, files, deleted), canonical, legacy)
    ensures root < p || exists i | 0 <= i < |legacy| :: legacy[i].root < p
    ensures var known := KnownLive(root, dirs, files, deleted);
      NoLiveBelowExtras(root, known, Kinds(canonical)) || !(root <= p) ==>
      Dead(known, p) && forall f | f in files && !Covered(deleted, f.rel) :: !(p <= f.remote)
  {
    var known := KnownLive(root, dirs, files, deleted);
    if p in Targets(root, known, Kinds(canonical)) {
      TargetsInside(root, known, Kinds(canonical), p);
      SafeIff(root, known, Kinds(canonical));
    } else {
      var i :| 0 <= i < |legacy| && p in Leftovers(legacy[i].root, Kinds(legacy[i].resources));
      KnownUnderRoot(root, dirs, files, deleted);
      LegacyDeleteSafe(root, known, legacy[i], p);
    }
    if Dead(known, p) {
      DeadSparesFiles(root, dirs, files, deleted, p);
    }
  }

  /** Whose delete it is: of the canonical root, or of the legacy root at an index. */
  ghost predicate DeletesOf(root: Path, known: set<Path>, canonical: Inventory, legacy: seq<LegacyInventory>,
                            owner: Option<nat>, p: Path)
  {
    match owner
    case None => p in Targets(root, known, Kinds(canonical))
    case Some(i) => i < |legacy| && p in Leftovers(legacy[i].root, Kinds(legacy[i].resources))
  }

  function OwnerRoot(root: Path, legacy: seq<LegacyInventory>, owner: Option<nat>): Path
    requires owner.Some? ==> owner.value < |legacy|
  {
    if owner.Some? then legacy[owner.value].root else root
  }

  lemma DeleteOwner(root: Path, known: set<Path>, canonical: Inventory, legacy: seq<LegacyInventory>, p: Path)
    returns (owner: Option<nat>)
    requires p in MigrationDeletes(root, known, canonical, legacy)
    ensures DeletesOf(root, known, canonical, legacy, owner, p) && OwnerRoot(root, legacy, owner) < p
  {
    if p in Targets(root, known, Kinds(canonical)) {
      TargetsInside(root, known, Kinds(canonical), p);
      owner := None;
    } else {
      var i :| 0 <= i < |legacy| && p in Leftovers(legacy[i].root, Kinds(legacy[i].resources));
      owner := Some(i);
    }
  }

  /** With pairwise disjoint roots no delete of the phase, of whatever root, covers another one. */
  lemma DeletesAntichain(root: Path, known: set<Path>, canonical: Inventory, legacy: seq<LegacyInventory>)
    requires Safe(root, known, Kinds(canonical)) && RootsApart(root, legacy)
    requires forall i | 0 <= i < |legacy| :: FilesAreLeaves(Kinds(legacy[i].resources))
    ensures Antichain(MigrationDeletes(root, known, canonical, legacy))
  {
    var all := MigrationDeletes(root, known, canonical, legacy);
    TargetsAntichain(root, known, Kinds(canonical));
    forall a, b | a in all && b in all && a <= b ensures a == b {
      var x := DeleteOwner(root, known, canonical, legacy, a);
      var y := DeleteOwner(root, known, canonical, legacy, b);
      PrefixTransitive(OwnerRoot(root, legacy, x), a, b);
      PrefixesChain(OwnerRoot(root, legacy, x), OwnerRoot(root, legacy, y), b);
      assert x == y;
      if x.Some? {
        LeftoversAntichain(legacy[x.value].root, Kinds(legacy[x.value].resources));
      }
    }
  }

  /** Creating directories at or above the root leaves the canonical deletes as they were. */
  lemma ParentsLeaveDeletes(root: Path, known: set<Path>, before: Inventory, after: Inventory)
    requires GrownAbove(before, after, root)
    ensures Targets(root, known, Kinds(after)) == Targets(root, known, Kinds(before))
  {
    AncestorsDoNotMatter(root, known, Kinds(before), Kinds(after));
  }

  /** Every leftover of a legacy root that was not moved is deleted. */
  lemma LeftoversAreDeleted(root: Path, known: set<Path>, canonical: Inventory, legacy: seq<LegacyInventory>, i: nat,
                            p: Path)
    requires i < |legacy| && p in legacy[i].resources && Candidate(legacy[i].root, p)
    ensures CoveredBy(p, MigrationDeletes(root, known, canonical, legacy))
  {
    LeftoversCover(legacy[i].root, Kinds(legacy[i].resources), p);
    var d :| d in Leftovers(legacy[i].root, Kinds(legacy[i].resources)) && d <= p;
    assert d in MigrationDeletes(root, known, canonical, legacy);
  }

  // ----- inventories from the cache

  /** A cached row goes to the canonical root if it lies in it, else to the first legacy root that holds it. */
  predicate Holds(root: Path, legacyRoots: seq<Path>, p: Path, i: nat)
    requires i < |legacyRoots|
  {
    !(root <= p) && legacyRoots[i] <= p && forall k | 0 <= k < i :: !(legacyRoots[k] <= p)
  }

  function Share(root: Path, legacyRoots: seq<Path>, rows: Inventory, taken: set<Path>, i: nat): LegacyInventory
    requires i < |legacyRoots|
  {
    LegacyInventory(legacyRoots[i], map p | p in rows && p in taken && Holds(root, legacyRoots, p, i) :: rows[p])
  }

  method SplitCachedRemoteSets(root: Path, legacyRoots: seq<Path>, rows: Inventory)
    returns (canonical: Inventory, legacy: seq<LegacyInventory>)
    ensures canonical == map p | p in rows && root <= p :: rows[p]
    ensures |legacy| == |legacyRoots|
    ensures forall i | 0 <= i < |legacyRoots| :: legacy[i] == Share(root, legacyRoots, rows, rows.Keys, i)
  {
    canonical := map[];
    legacy := seq(|legacyRoots|, i requires 0 <= i < |legacyRoots| => LegacyInventory(legacyRoots[i], map[]));
    var rest := rows.Keys;
    while rest != {}
      invariant rest <= rows.Keys && |legacy| == |legacyRoots|
      invariant canonical == map p | p in rows && p !in rest && root <= p :: rows[p]
      invariant forall i | 0 <= i < |legacyRoots| :: legacy[i] == Share(root, legacyRoots, rows, rows.Keys - rest, i)
    {
      var p :| p in rest;
      ghost var taken := rows.Keys - rest;
      rest := rest - {p};
      assert rows.Keys - rest == taken + {p};
      if root <= p {
        canonical := canonical[p := rows[p]];
      } else {
        legacy := GiveToFirst(root, legacyRoots, rows, taken, legacy, p);
      }
    }
  }

  method GiveToFirst(root: Path, legacyRoots: seq<Path>, rows: Inventory, ghost taken: set<Path>,
                     legacy: seq<LegacyInventory>, p: Path)
    returns (legacy': seq<LegacyInventory>)
    requires p in rows && p !in taken && !(root <= p) && |legacy| == |legacyRoots|
    requires forall i | 0 <= i < |legacyRoots| :: legacy[i] == Share(root, legacyRoots, rows, taken, i)
    ensures |legacy'| == |legacyRoots|
    ensures forall i | 0 <= i < |legacyRoots| :: legacy'[i] == Share(root, legacyRoots, rows, taken + {p}, i)
  {
    legacy' := legacy;
    for i := 0 to |legacyRoots|
      invariant legacy' == legacy
      invariant forall k | 0 <= k < i :: !(legacyRoots[k] <= p)
    {
      if legacyRoots[i] <= p {
        legacy' := legacy[i := LegacyInventory(legacyRoots[i], legacy[i].resources[p := rows[p]])];
        break;
      }
    }
  }
}
