/**
 * Coalesced remote deletes.  The planner walks the inventory once, keeps a list of
 * suppressed prefixes, and emits one delete for a whole dead subtree.  It refines the
 * plain rule "for every extra entry, delete its topmost ancestor with nothing live at or
 * under it".
 */
module DeletePlan {
  import opened Paths
  import opened PathText
  import opened Sorting

  datatype Rejection = EmptyRelativePath | OutsideManagedRoot | PhantomDiskSegment

  datatype CandidateResult = Accepted(relative: Path) | Rejected(reason: Rejection)

  datatype DeleteOp = DeleteOp(path: Path, relative: Path, kind: Kind)

  function AsciiLower(c: char): char {
    if 'A' <= c <= 'Z' then c - 'A' + 'a' else c
  }

  predicate EqIgnoreAsciiCase(a: string, b: string) {
    |a| == |b| && forall i | 0 <= i < |a| :: AsciiLower(a[i]) == AsciiLower(b[i])
  }

  predicate HasPhantomSegment(relative: Path) {
    exists i | 0 <= i < |relative| :: EqIgnoreAsciiCase(relative[i], "disk:")
  }

  function CandidateRelativePath(root: Path, p: Path): CandidateResult {
    if p == root then Rejected(EmptyRelativePath)
    else if !(root <= p) then Rejected(OutsideManagedRoot)
    else if HasPhantomSegment(p[|root|..]) then Rejected(PhantomDiskSegment)
    else Accepted(p[|root|..])
  }

  /** A delete candidate lies strictly inside the managed root and is not a phantom entry. */
  predicate Candidate(root: Path, p: Path) {
    root < p && !HasPhantomSegment(p[|root|..])
  }

  /** Nothing live at or under q. */
  predicate Dead(known: set<Path>, q: Path) {
    !exists k | k in known :: q <= k
  }

  predicate LiveBelow(known: set<Path>, q: Path) {
    exists k | k in known :: q < k
  }

  predicate Extra(root: Path, known: set<Path>, p: Path) {
    Candidate(root, p) && p !in known
  }

  // ----- phantom entries

  /** ASCII letters in lower case, all else as it is. */
  function Lower(s: string): string {
    seq(|s|, i requires 0 <= i < |s| => AsciiLower(s[i]))
  }

  lemma EqIsLower(a: string, b: string)
    ensures EqIgnoreAsciiCase(a, b) <==> Lower(a) == Lower(b)
  {
    if Lower(a) == Lower(b) {
      assert |Lower(a)| == |Lower(b)|;
      forall i | 0 <= i < |a| ensures AsciiLower(a[i]) == AsciiLower(b[i]) {
        assert Lower(a)[i] == Lower(b)[i];
      }
    }
    if EqIgnoreAsciiCase(a, b) {
      assert Lower(a) == Lower(b);
    }
  }

  /** Exactly the 26 capital letters change. */
  lemma AsciiCase(c: char)
    ensures Lower("ABCDEFGHIJKLMNOPQRSTUVWXYZ") == "abcdefghijklmnopqrstuvwxyz"
    ensures c !in "ABCDEFGHIJKLMNOPQRSTUVWXYZ" ==> Lower([c]) == [c]
  {
    var capitals := "ABCDEFGHIJKLMNOPQRSTUVWXYZ";
    if 'A' <= c <= 'Z' {
      assert capitals[c as int - 'A' as int] == c;
    }
  }

  /** Some name below the root reads "disk:" in lower case. */
  predicate Phantom(root: Path, p: Path) {
    exists i | |root| <= i < |p| :: Lower(p[i]) == "disk:"
  }

  /** A path is a delete candidate exactly if it lies strictly inside the root and no name below it reads "disk:". */
  lemma CandidateIff(root: Path, p: Path)
    ensures Candidate(root, p) <==> root < p && !Phantom(root, p)
    ensures CandidateRelativePath(root, p) ==
      if !(root <= p) then Rejected(OutsideManagedRoot)
      else if p == root then Rejected(EmptyRelativePath)
      else if Phantom(root, p) then Rejected(PhantomDiskSegment)
      else Accepted(p[|root|..])
  {
    assert Lower("disk:") == "disk:";
    if root < p {
      var rel := p[|root|..];
      forall i | |root| <= i < |p| ensures Lower(p[i]) == "disk:" <==> EqIgnoreAsciiCase(rel[i - |root|], "disk:") {
        EqIsLower(p[i], "disk:");
      }
      if HasPhantomSegment(rel) {
        var k :| 0 <= k < |rel| && EqIgnoreAsciiCase(rel[k], "disk:");
        assert rel[k] == p[|root| + k];
      }
    }
  }

  // ----- the plain rule

  /** The shortest dead prefix of p of length at least n, or p itself. */
  function TargetFrom(known: set<Path>, p: Path, n: nat): Path
    requires n <= |p|
    decreases |p| - n
  {
    if n == |p| || Dead(known, p[..n]) then p[..n] else TargetFrom(known, p, n + 1)
  }

  function Target(root: Path, known: set<Path>, p: Path): Path
    requires root < p
  {
    TargetFrom(known, p, |root| + 1)
  }

  function Targets(root: Path, known: set<Path>, inventory: Tree): set<Path> {
    set p | p in inventory && Extra(root, known, p) :: Target(root, known, p)
  }

  /** Phantom entries make nothing a target, and hide nothing that others make one. */
  lemma PhantomsAreIgnored(root: Path, known: set<Path>, inventory: Tree, phantoms: set<Path>)
    requires forall p | p in phantoms :: Phantom(root, p)
    ensures Targets(root, known, inventory) == Targets(root, known, inventory - phantoms)
    ensures inventory.Keys <= phantoms ==> Targets(root, known, inventory) == {}
  {
    forall p | p in phantoms ensures !Candidate(root, p) {
      CandidateIff(root, p);
    }
  }

  /** The entries "disk:/r/disk:" and "disk:/r/a/DISK:/x", as a faulty listing reports them. */
  lemma PhantomInputs()
    ensures var root: Path := ["disk:", "r"];
      var inventory: Tree := map[["disk:", "r", "disk:"] := Directory, ["disk:", "r", "a", "DISK:", "x"] := File];
      Targets(root, {root}, inventory) == {}
  {
    var root: Path := ["disk:", "r"];
    var p: Path, q: Path := ["disk:", "r", "disk:"], ["disk:", "r", "a", "DISK:", "x"];
    assert Lower("disk:") == "disk:" && Lower("DISK:") == "disk:";
    assert Lower(p[2]) == "disk:" && Lower(q[3]) == "disk:";
    PhantomsAreIgnored(root, {root}, map[p := Directory, q := File], {p, q});
  }

  lemma {:induction false} TargetFromFacts(known: set<Path>, p: Path, n: nat)
    requires n <= |p|
    ensures var t := TargetFrom(known, p, n);
      && n <= |t| && t <= p
      && (forall m | n <= m < |t| :: !Dead(known, p[..m]))
      && (t == p || Dead(known, t))
    decreases |p| - n
  {
    if n != |p| && !Dead(known, p[..n]) {
      TargetFromFacts(known, p, n + 1);
    }
  }

  lemma TargetFacts(root: Path, known: set<Path>, p: Path)
    requires root < p
    ensures var t := Target(root, known, p);
      && root < t && t <= p
      && (forall a | root < a < t :: !Dead(known, a))
      && (Dead(known, p) ==> Dead(known, t))
      && (!Dead(known, p) ==> t == p)
  {
    TargetFromFacts(known, p, |root| + 1);
    var t := Target(root, known, p);
    forall a | root < a < t ensures !Dead(known, a) {
      assert a == p[..|a|];
    }
    if Dead(known, t) {
      DeadBelow(known, t, p);
    }
  }

  lemma DeadBelow(known: set<Path>, q: Path, p: Path)
    requires Dead(known, q) && q <= p
    ensures Dead(known, p)
  {
  }

  lemma DeadIff(known: set<Path>, q: Path)
    ensures Dead(known, q) <==> q !in known && !LiveBelow(known, q)
  {
    if k :| k in known && q <= k {
      assert q == k || q < k;
    }
  }

  /** A dead path with no dead ancestor below the root is the target of all extras under it. */
  lemma TopmostIsTarget(root: Path, known: set<Path>, t: Path, p: Path)
    requires root < t <= p && Dead(known, t)
    requires forall a | root < a < t :: !Dead(known, a)
    ensures Target(root, known, p) == t
  {
    TargetFacts(root, known, p);
    var u := Target(root, known, p);
    DeadBelow(known, t, p);
    PrefixesChain(t, u, p);
    assert t < u || u < t || t == u;
  }

  // ----- the planner

  /** The ancestor scan: the first dead proper prefix of p below the root. */
  method TopMissingDirectoryPrefix(root: Path, p: Path, known: set<Path>) returns (r: Option<Path>)
    requires root < p
    ensures r.Some? ==> r.value == Target(root, known, p) && r.value < p && Dead(known, r.value)
    ensures r.None? ==> Target(root, known, p) == p
  {
    var relative := p[|root|..];
    if |relative| < 2 {
      assert p[..|root| + 1] == p;
      return None;
    }
    var prefix := root;
    for i := 0 to |relative| - 1
      invariant prefix == p[..|root| + i]
      invariant Target(root, known, p) == TargetFrom(known, p, |root| + i + 1)
    {
      assert p[..|root| + i + 1] == p[..|root| + i] + [relative[i]];
      prefix := prefix + [relative[i]];
      if prefix in known {
        continue;
      }
      if !LiveBelow(known, prefix) {
        DeadIff(known, prefix);
        return Some(prefix);
      }
    }
    assert p[..|p|] == p;
    return None;
  }

  /** The sort key of the planner, total on all paths so that it can be passed to Sort. */
  function ByKindThenDepth(inventory: Tree): (Path, Path) -> bool {
    (a: Path, b: Path) =>
      var fa := a in inventory && inventory[a].File?;
      var fb := b in inventory && inventory[b].File?;
      (!fa && fb) || (fa == fb && ShallowestFirst(a, b))
  }

  lemma ByKindThenDepthTotal(inventory: Tree)
    ensures TotalPreorder(ByKindThenDepth(inventory))
  {
    PathOrders();
  }

  function OpOrder(a: DeleteOp, b: DeleteOp): bool {
    DeepestFirst(a.path, b.path)
  }

  function OpPaths(ops: seq<DeleteOp>): set<Path> {
    set o | o in ops :: o.path
  }

  ghost predicate DistinctPaths(ops: seq<DeleteOp>) {
    forall i, j | 0 <= i < j < |ops| :: ops[i].path != ops[j].path
  }

  ghost function Processed(root: Path, known: set<Path>, done: seq<Path>): set<Path> {
    set p | p in done && Extra(root, known, p) :: Target(root, known, p)
  }

  /** The kind of the entry at p; a missing entry above others can only be a directory. */
  function KindAt(inventory: Tree, p: Path): Kind {
    if p in inventory then inventory[p] else Directory
  }

  /** What each emitted operation says besides its path. */
  ghost predicate OpFits(root: Path, inventory: Tree, o: DeleteOp) {
    && root < o.path
    && o.relative == o.path[|root|..]
    && (FilesAreLeaves(inventory) ==> o.kind == KindAt(inventory, o.path))
  }

  /** Suppressed prefixes are dead, topmost, and already emitted. */
  ghost predicate SuppressedFits(root: Path, known: set<Path>, suppressed: set<Path>, ops: seq<DeleteOp>) {
    forall s | s in suppressed ::
      root < s && Dead(known, s) && s in OpPaths(ops) && forall a | root < a < s :: !Dead(known, a)
  }

  method InventoryOrder(root: Path, inventory: Tree) returns (order: seq<Path>)
    ensures Distinct(order)
    ensures forall p :: p in order <==> p in inventory && p != root
    ensures Sorted(order, ByKindThenDepth(inventory))
  {
    var rest := inventory.Keys - {root};
    order := [];
    while rest != {}
      invariant Distinct(order)
      invariant forall p :: p in order <==> p in inventory.Keys - {root} - rest
      invariant rest <= inventory.Keys - {root}
    {
      var p :| p in rest;
      assert p !in order;
      order, rest := order + [p], rest - {p};
    }
    ByKindThenDepthTotal(inventory);
    var sorted := Sort(order, ByKindThenDepth(inventory));
    PermutationFacts(order, sorted);
    order := sorted;
  }

  lemma ProcessedStep(root: Path, known: set<Path>, done: seq<Path>, p: Path)
    ensures Processed(root, known, done + [p]) ==
      Processed(root, known, done) + (if Extra(root, known, p) then {Target(root, known, p)} else {})
  {
  }

  /** Under a suppressed prefix nothing new is to be deleted. */
  lemma SuppressedTarget(root: Path, known: set<Path>, p: Path, suppressed: set<Path>, ops: seq<DeleteOp>)
    requires root < p && SuppressedFits(root, known, suppressed, ops) && CoveredBy(p, suppressed)
    ensures Target(root, known, p) in OpPaths(ops)
  {
    var s :| s in suppressed && s <= p;
    TopmostIsTarget(root, known, s, p);
  }

  lemma EmitStep(ops: seq<DeleteOp>, op: DeleteOp)
    ensures OpPaths(ops + [op]) == OpPaths(ops) + {op.path}
    ensures DistinctPaths(ops) && op.path !in OpPaths(ops) ==> DistinctPaths(ops + [op])
  {
    forall i | 0 <= i < |ops| ensures ops[i].path in OpPaths(ops) {
      assert ops[i] in ops;
    }
    assert forall o :: o in ops + [op] <==> o in ops || o == op;
  }

  /** The state of the planner after the entries in `done`. */
  ghost predicate Progress(root: Path, known: set<Path>, inventory: Tree, done: seq<Path>,
                           suppressed: set<Path>, ops: seq<DeleteOp>)
  {
    && OpPaths(ops) == Processed(root, known, done)
    && (forall o | o in ops :: OpFits(root, inventory, o))
    && SuppressedFits(root, known, suppressed, ops)
    && (FilesAreLeaves(inventory) ==> DistinctPaths(ops))
    && EmittedFits(known, inventory, done, suppressed, ops)
  }

  /** What is emitted without being suppressed is a dead file or a path that stays alive. */
  ghost predicate EmittedFits(known: set<Path>, inventory: Tree, done: seq<Path>, suppressed: set<Path>,
                              ops: seq<DeleteOp>)
  {
    forall q | q in OpPaths(ops) && q !in suppressed ::
      q in done && q in inventory && (Dead(known, q) ==> inventory[q] == File)
  }

  /** A target that no suppressed prefix covers has not been emitted before. */
  lemma EmittedOnce(root: Path, known: set<Path>, inventory: Tree, done: seq<Path>, p: Path,
                    suppressed: set<Path>, ops: seq<DeleteOp>, t: Path)
    requires EmittedFits(known, inventory, done, suppressed, ops)
    requires p in inventory && p !in done && root < p
    requires t == Target(root, known, p) && !CoveredBy(t, suppressed)
    requires FilesAreLeaves(inventory)
    ensures t !in OpPaths(ops)
  {
    TargetFacts(root, known, p);
    assert t in suppressed ==> CoveredBy(t, suppressed) by {
      assert t <= t;
    }
    assert t == p || t < p;
    assert t == p || Dead(known, t);
  }

  lemma EmitKeepsProgress(root: Path, known: set<Path>, inventory: Tree, done: seq<Path>, p: Path,
                          suppressed: set<Path>, suppressed': set<Path>, ops: seq<DeleteOp>, op: DeleteOp)
    requires Progress(root, known, inventory, done, suppressed, ops)
    requires p in inventory && p !in done && Extra(root, known, p)
    requires !CoveredBy(p, suppressed) && !CoveredBy(op.path, suppressed)
    requires op.path == Target(root, known, p) && OpFits(root, inventory, op)
    requires suppressed' == suppressed || (suppressed' == suppressed + {op.path} && Dead(known, op.path))
    requires op.path < p ==> op.path in suppressed'
    requires op.path == p && op.path !in suppressed' && Dead(known, p) ==> inventory[p] == File
    ensures Progress(root, known, inventory, done + [p], suppressed', ops + [op])
  {
    ProcessedStep(root, known, done, p);
    EmitStep(ops, op);
    TargetFacts(root, known, p);
    if FilesAreLeaves(inventory) {
      EmittedOnce(root, known, inventory, done, p, suppressed, ops, op.path);
    }
    assert SuppressedFits(root, known, suppressed', ops + [op]);
    forall q | q in OpPaths(ops + [op]) && q !in suppressed'
      ensures q in done + [p] && q in inventory && (Dead(known, q) ==> inventory[q] == File)
    {
      assert q in OpPaths(ops) || q == p;
    }
  }

  /** One turn of the planner's loop. */
  method Consider(root: Path, known: set<Path>, inventory: Tree, p: Path, ghost done: seq<Path>,
                  suppressed: set<Path>, ops: seq<DeleteOp>)
    returns (suppressed': set<Path>, ops': seq<DeleteOp>)
    requires Progress(root, known, inventory, done, suppressed, ops)
    requires p in inventory && p !in done
    ensures Progress(root, known, inventory, done + [p], suppressed', ops')
  {
    suppressed', ops' := suppressed, ops;
    ProcessedStep(root, known, done, p);
    if CandidateRelativePath(root, p).Rejected? {
      return;
    }
    if CoveredBy(p, suppressed) {
      SuppressedTarget(root, known, p, suppressed, ops);
      return;
    }
    if p in known {
      return;
    }
    TargetFacts(root, known, p);
    var top := TopMissingDirectoryPrefix(root, p, known);
    if top.Some? {
      var directory := top.value;
      CoverInherited(directory, p, suppressed);
      if !CoveredBy(directory, suppressed) {
        suppressed' := suppressed + {directory};
        var op := DeleteOp(directory, directory[|root|..], Directory);
        EmitKeepsProgress(root, known, inventory, done, p, suppressed, suppressed', ops, op);
        ops' := ops + [op];
      }
      return;
    }
    DeadIff(known, p);
    if inventory[p] == Directory && !LiveBelow(known, p) {
      suppressed' := suppressed + {p};
    }
    var op := DeleteOp(p, p[|root|..], inventory[p]);
    EmitKeepsProgress(root, known, inventory, done, p, suppressed, suppressed', ops, op);
    ops' := ops + [op];
  }

  method CollectCoalescedDeletes(root: Path, known: set<Path>, inventory: Tree)
    returns (ops: seq<DeleteOp>)
    ensures OpPaths(ops) == Targets(root, known, inventory)
    ensures forall o | o in ops :: OpFits(root, inventory, o)
    ensures FilesAreLeaves(inventory) ==> DistinctPaths(ops)
    ensures Sorted(ops, OpOrder)
  {
    var order := InventoryOrder(root, inventory);
    var suppressed: set<Path> := {};
    ops := [];
    for i := 0 to |order|
      invariant Progress(root, known, inventory, order[..i], suppressed, ops)
    {
      assert order[..i + 1] == order[..i] + [order[i]];
      assert order[i] in order;
      assert order[i] !in order[..i];
      suppressed, ops := Consider(root, known, inventory, order[i], order[..i], suppressed, ops);
    }
    assert order[..|order|] == order;
    assert Processed(root, known, order) == Targets(root, known, inventory);
    ops := SortOps(ops);
  }

  lemma CoverInherited(q: Path, p: Path, tops: set<Path>)
    requires q <= p
    ensures CoveredBy(q, tops) ==> CoveredBy(p, tops)
  {
    if t :| t in tops && t <= q {
      PrefixTransitive(t, q, p);
    }
  }

  method SortOps(ops: seq<DeleteOp>) returns (r: seq<DeleteOp>)
    ensures Sorted(r, OpOrder)
    ensures forall o :: o in r <==> o in ops
    ensures OpPaths(r) == OpPaths(ops)
    ensures DistinctPaths(ops) ==> DistinctPaths(r)
  {
    PathOrders();
    assert forall a, b :: OpOrder(a, b) == DeepestFirst(a.path, b.path);
    r := Sort(ops, OpOrder);
    PermutationFacts(ops, r);
    if DistinctPaths(ops) {
      assert Distinct(ops);
      forall i, j | 0 <= i < j < |r| ensures r[i].path != r[j].path {
        assert r[i] in ops && r[j] in ops;
      }
    }
  }
}
