/**
 * Deletes of a migration: extras under the canonical root, and everything left over under
 * the legacy roots once their files have been moved or matched.
 */
module LegacyDeletes {
  import opened Paths
  import opened PathText
  import opened Sorting
  import opened DeletePlan
  import opened DeleteSafety

  datatype LegacyDelete = LegacyDelete(op: DeleteOp, canonical: Path)

  function LegacyToCanonical(legacyRoot: Path, canonicalRoot: Path, p: Path): Path
    requires legacyRoot <= p
  {
    canonicalRoot + p[|legacyRoot|..]
  }

  /** The counterpart of a leftover in the canonical root has the same relative path, and is a candidate there. */
  lemma CounterpartKeepsRelative(legacyRoot: Path, canonicalRoot: Path, p: Path)
    requires Candidate(legacyRoot, p)
    ensures var q := LegacyToCanonical(legacyRoot, canonicalRoot, p);
      && Candidate(canonicalRoot, q) && CandidateRelativePath(canonicalRoot, q) == CandidateRelativePath(legacyRoot, p)
      && LegacyToCanonical(canonicalRoot, legacyRoot, q) == p
  {
    var q := LegacyToCanonical(legacyRoot, canonicalRoot, p);
    assert q[|canonicalRoot|..] == p[|legacyRoot|..];
  }

  /** A valid leftover that is not strictly below a valid leftover directory. */
  predicate TopLeftover(legacyRoot: Path, resources: Tree, p: Path) {
    && p in resources && Candidate(legacyRoot, p)
    && !exists q | q in resources :: Candidate(legacyRoot, q) && resources[q] == Directory && q < p
  }

  function Leftovers(legacyRoot: Path, resources: Tree): set<Path> {
    set p | p in resources && TopLeftover(legacyRoot, resources, p)
  }

  ghost predicate LegacyFits(legacyRoot: Path, canonicalRoot: Path, resources: Tree, d: LegacyDelete) {
    && legacyRoot < d.op.path && d.op.path in resources
    && d.op == DeleteOp(d.op.path, d.op.path[|legacyRoot|..], resources[d.op.path])
    && d.canonical == LegacyToCanonical(legacyRoot, canonicalRoot, d.op.path)
  }

  function LegacyPaths(ds: seq<LegacyDelete>): set<Path> {
    set d | d in ds :: d.op.path
  }

  ghost predicate DistinctLegacy(ds: seq<LegacyDelete>) {
    forall i, j | 0 <= i < j < |ds| :: ds[i].op.path != ds[j].op.path
  }

  /** After the entries in `done`: exactly their top leftovers are emitted, the directories among them suppress. */
  ghost predicate LegacyProgress(legacyRoot: Path, canonicalRoot: Path, resources: Tree, done: seq<Path>,
                                 suppressed: set<Path>, ds: seq<LegacyDelete>)
  {
    && (forall p :: p in LegacyPaths(ds) <==> p in done && TopLeftover(legacyRoot, resources, p))
    && (forall p :: p in suppressed <==>
          p in done && TopLeftover(legacyRoot, resources, p) && resources[p] == Directory)
    && (forall d | d in ds :: LegacyFits(legacyRoot, canonicalRoot, resources, d))
    && DistinctLegacy(ds)
  }

  /** Directories come first and shallow ones before deep ones, so what covers p has been seen. */
  lemma CoveringSeenBefore(legacyRoot: Path, resources: Tree, order: seq<Path>, i: nat, q: Path)
    requires i < |order| && Sorted(order, ByKindThenDepth(resources))
    requires forall p :: p in order <==> p in resources && p != legacyRoot
    requires q in resources && resources[q] == Directory && q < order[i] && q != legacyRoot
    ensures q in order[..i]
  {
    var j :| 0 <= j < |order| && order[j] == q;
    assert order[i] in order;
    assert !ByKindThenDepth(resources)(order[i], q);
    assert j <= i;
  }

  /** The topmost valid leftover directory above p. */
  lemma {:induction false} TopCover(legacyRoot: Path, resources: Tree, q: Path, p: Path) returns (t: Path)
    requires q in resources && Candidate(legacyRoot, q) && resources[q] == Directory && q < p
    ensures t <= q && t < p && TopLeftover(legacyRoot, resources, t) && resources[t] == Directory
    decreases |q|
  {
    if r :| r in resources && Candidate(legacyRoot, r) && resources[r] == Directory && r < q {
      t := TopCover(legacyRoot, resources, r, q);
      PrefixTransitive(t, q, p);
    } else {
      t := q;
    }
  }

  lemma SuppressedIff(legacyRoot: Path, canonicalRoot: Path, resources: Tree, order: seq<Path>, i: nat,
                      suppressed: set<Path>, ds: seq<LegacyDelete>)
    requires i < |order| && Sorted(order, ByKindThenDepth(resources)) && Distinct(order)
    requires forall p :: p in order <==> p in resources && p != legacyRoot
    requires LegacyProgress(legacyRoot, canonicalRoot, resources, order[..i], suppressed, ds)
    requires Candidate(legacyRoot, order[i])
    ensures order[i] in resources && order[i] !in order[..i]
    ensures CoveredBy(order[i], suppressed) <==> !TopLeftover(legacyRoot, resources, order[i])
  {
    var p := order[i];
    assert p in order;
    if q :| q in resources && Candidate(legacyRoot, q) && resources[q] == Directory && q < p {
      var t := TopCover(legacyRoot, resources, q, p);
      CoveringSeenBefore(legacyRoot, resources, order, i, t);
    }
    if CoveredBy(p, suppressed) {
      var s :| s in suppressed && s <= p;
      assert s != p;
    }
  }

  lemma LegacyEmit(legacyRoot: Path, canonicalRoot: Path, resources: Tree, done: seq<Path>, p: Path,
                   suppressed: set<Path>, ds: seq<LegacyDelete>, d: LegacyDelete)
    requires LegacyProgress(legacyRoot, canonicalRoot, resources, done, suppressed, ds)
    requires p !in done && TopLeftover(legacyRoot, resources, p)
    requires d.op.path == p && LegacyFits(legacyRoot, canonicalRoot, resources, d)
    ensures LegacyProgress(legacyRoot, canonicalRoot, resources, done + [p],
                           if resources[p] == Directory then suppressed + {p} else suppressed, ds + [d])
  {
    forall i | 0 <= i < |ds| ensures ds[i].op.path in LegacyPaths(ds) {
      assert ds[i] in ds;
    }
    assert LegacyPaths(ds + [d]) == LegacyPaths(ds) + {p} by {
      assert forall x :: x in ds + [d] <==> x in ds || x == d;
    }
  }

  method CollectLegacyDeleteCandidates(legacyRoot: Path, canonicalRoot: Path, resources: Tree)
    returns (ds: seq<LegacyDelete>)
    ensures LegacyPaths(ds) == Leftovers(legacyRoot, resources)
    ensures forall d | d in ds :: LegacyFits(legacyRoot, canonicalRoot, resources, d)
    ensures DistinctLegacy(ds)
  {
    var order := InventoryOrder(legacyRoot, resources);
    var suppressed: set<Path> := {};
    ds := [];
    for i := 0 to |order|
      invariant LegacyProgress(legacyRoot, canonicalRoot, resources, order[..i], suppressed, ds)
    {
      var p := order[i];
      assert order[..i + 1] == order[..i] + [p];
      if CandidateRelativePath(legacyRoot, p).Rejected? {
        continue;
      }
      SuppressedIff(legacyRoot, canonicalRoot, resources, order, i, suppressed, ds);
      if CoveredBy(p, suppressed) {
        continue;
      }
      var op := DeleteOp(p, p[|legacyRoot|..], resources[p]);
      var d := LegacyDelete(op, LegacyToCanonical(legacyRoot, canonicalRoot, p));
      LegacyEmit(legacyRoot, canonicalRoot, resources, order[..i], p, suppressed, ds, d);
      if resources[p] == Directory {
        suppressed := suppressed + {p};
      }
      ds := ds + [d];
    }
    assert order[..|order|] == order;
  }

  // ----- what the legacy deletes guarantee

  /** Phantom entries are no leftovers, and hide none. */
  lemma PhantomLeftovers(legacyRoot: Path, resources: Tree, phantoms: set<Path>)
    requires forall p | p in phantoms :: Phantom(legacyRoot, p)
    ensures Leftovers(legacyRoot, resources) == Leftovers(legacyRoot, resources - phantoms)
    ensures resources.Keys <= phantoms ==> Leftovers(legacyRoot, resources) == {}
  {
    forall p | p in phantoms ensures !Candidate(legacyRoot, p) {
      CandidateIff(legacyRoot, p);
    }
    var fewer := resources - phantoms;
    forall p | p in resources ensures TopLeftover(legacyRoot, resources, p) <==> TopLeftover(legacyRoot, fewer, p) {
      if q :| q in resources && Candidate(legacyRoot, q) && resources[q] == Directory && q < p {
        assert q in fewer;
      }
    }
  }

  /** Every valid leftover is covered; the deletes lie strictly inside the legacy root. */
  lemma LeftoversCover(legacyRoot: Path, resources: Tree, p: Path)
    requires p in resources && Candidate(legacyRoot, p)
    ensures CoveredBy(p, Leftovers(legacyRoot, resources))
    ensures forall d | d in Leftovers(legacyRoot, resources) :: legacyRoot < d && d in resources
  {
    if q :| q in resources && Candidate(legacyRoot, q) && resources[q] == Directory && q < p {
      var t := TopCover(legacyRoot, resources, q, p);
      assert t in Leftovers(legacyRoot, resources);
    } else {
      assert p in Leftovers(legacyRoot, resources);
    }
  }

  lemma LeftoversAntichain(legacyRoot: Path, resources: Tree)
    requires FilesAreLeaves(resources)
    ensures Antichain(Leftovers(legacyRoot, resources))
  {
  }

  /** No legacy delete is at or above a live path. */
  ghost predicate SparesLive(legacyRoot: Path, resources: Tree, known: set<Path>) {
    forall d | d in Leftovers(legacyRoot, resources) :: Dead(known, d)
  }

  /** Checkable beforehand: no valid leftover is at or above a live path. */
  lemma SparesLiveIff(legacyRoot: Path, resources: Tree, known: set<Path>)
    ensures SparesLive(legacyRoot, resources, known)
      <==> forall p | p in resources && Candidate(legacyRoot, p) :: Dead(known, p)
  {
    forall p | p in resources && Candidate(legacyRoot, p) && SparesLive(legacyRoot, resources, known)
      ensures Dead(known, p)
    {
      LeftoversCover(legacyRoot, resources, p);
      var d :| d in Leftovers(legacyRoot, resources) && d <= p;
      DeadBelow(known, d, p);
    }
  }

  predicate Apart(a: Path, b: Path) {
    !(a <= b) && !(b <= a)
  }

  /** With disjoint roots no legacy delete touches anything at or under the canonical root. */
  lemma DisjointRootsSpareLive(canonicalRoot: Path, legacyRoot: Path, resources: Tree, known: set<Path>)
    requires Apart(canonicalRoot, legacyRoot) && forall k | k in known :: canonicalRoot <= k
    ensures SparesLive(legacyRoot, resources, known)
  {
    forall p | p in resources && Candidate(legacyRoot, p) ensures Dead(known, p) {
      forall k | k in known ensures !(p <= k) {
        if p <= k {
          PrefixTransitive(legacyRoot, p, k);
          PrefixesChain(legacyRoot, canonicalRoot, k);
        }
      }
    }
    SparesLiveIff(legacyRoot, resources, known);
  }

  /** A legacy root above the canonical root deletes the canonical tree. */
  lemma NestedLegacyRootLosesData()
    ensures var legacyRoot, canonicalRoot := ["disk:", "old"], ["disk:", "old", "new"];
      var resources := map[legacyRoot := Directory, canonicalRoot := Directory];
      !SparesLive(legacyRoot, resources, {canonicalRoot})
  {
    var legacyRoot, canonicalRoot := ["disk:", "old"], ["disk:", "old", "new"];
    var resources := map[legacyRoot := Directory, canonicalRoot := Directory];
    assert canonicalRoot[|legacyRoot|..] == ["new"];
    assert canonicalRoot in resources && Candidate(legacyRoot, canonicalRoot);
    assert canonicalRoot <= canonicalRoot;
    assert !Dead({canonicalRoot}, canonicalRoot);
    SparesLiveIff(legacyRoot, resources, {canonicalRoot});
  }

  /** Entries that are not strictly inside the canonical root do not change the canonical deletes. */
  lemma AncestorsDoNotMatter(root: Path, known: set<Path>, inventory: Tree, grown: Tree)
    requires forall p | root < p :: p in inventory <==> p in grown
    ensures Targets(root, known, grown) == Targets(root, known, inventory)
  {
  }
}
