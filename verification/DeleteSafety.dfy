/** What the coalesced deletes guarantee, and exactly when. */
module DeleteSafety {
  import opened Paths
  import opened DeletePlan

  /** No planned delete is a live path or an ancestor of one. */
  ghost predicate Safe(root: Path, known: set<Path>, inventory: Tree) {
    forall t | t in Targets(root, known, inventory) :: Dead(known, t)
  }

  /** Checkable before planning: no extra entry has a live path below it. */
  ghost predicate NoLiveBelowExtras(root: Path, known: set<Path>, inventory: Tree) {
    forall p | p in inventory && Extra(root, known, p) :: !LiveBelow(known, p)
  }

  /** The planner's fall-through branch deletes live data exactly when that check fails. */
  lemma SafeIff(root: Path, known: set<Path>, inventory: Tree)
    ensures Safe(root, known, inventory) <==> NoLiveBelowExtras(root, known, inventory)
  {
    if Safe(root, known, inventory) {
      forall p | p in inventory && Extra(root, known, p) ensures !LiveBelow(known, p) {
        TargetFacts(root, known, p);
        assert Target(root, known, p) in Targets(root, known, inventory);
        DeadIff(known, p);
      }
    }
    if NoLiveBelowExtras(root, known, inventory) {
      forall t | t in Targets(root, known, inventory) ensures Dead(known, t) {
        var p :| p in inventory && Extra(root, known, p) && t == Target(root, known, p);
        DeadIff(known, p);
        TargetFacts(root, known, p);
      }
    }
  }

  lemma ClosedMembership(root: Path, known: set<Path>, p: Path)
    requires AncestorClosed(known, root) && root <= p
    ensures LiveBelow(known, p) ==> p in known
  {
  }

  /** With an ancestor-closed live set nothing live is ever deleted. */
  lemma ClosedIsSafe(root: Path, known: set<Path>, inventory: Tree)
    requires AncestorClosed(known, root)
    ensures Safe(root, known, inventory)
  {
    forall p | p in inventory && Extra(root, known, p) ensures !LiveBelow(known, p) {
      ClosedMembership(root, known, p);
    }
    SafeIff(root, known, inventory);
  }

  /** Each extra is covered by a planned delete; every delete is strictly inside the root. */
  lemma TargetsCover(root: Path, known: set<Path>, inventory: Tree, p: Path)
    requires p in inventory && Extra(root, known, p)
    ensures CoveredBy(p, Targets(root, known, inventory))
  {
    TargetFacts(root, known, p);
    assert Target(root, known, p) in Targets(root, known, inventory);
  }

  lemma TargetsInside(root: Path, known: set<Path>, inventory: Tree, t: Path)
    requires t in Targets(root, known, inventory)
    ensures root < t
  {
    var p :| p in inventory && Extra(root, known, p) && t == Target(root, known, p);
    TargetFacts(root, known, p);
  }

  /** The plain rule, said without the scan: topmost dead, with an extra at or under it. */
  ghost predicate TopmostMissing(root: Path, known: set<Path>, inventory: Tree, t: Path) {
    && root < t && Dead(known, t)
    && (forall a | root < a < t :: !Dead(known, a))
    && (exists p | p in inventory :: Extra(root, known, p) && t <= p)
  }

  lemma TargetsAreTopmostMissing(root: Path, known: set<Path>, inventory: Tree, t: Path)
    requires Safe(root, known, inventory)
    ensures t in Targets(root, known, inventory) <==> TopmostMissing(root, known, inventory, t)
  {
    if t in Targets(root, known, inventory) {
      var p :| p in inventory && Extra(root, known, p) && t == Target(root, known, p);
      TargetFacts(root, known, p);
    }
    if TopmostMissing(root, known, inventory, t) {
      var p :| p in inventory && Extra(root, known, p) && t <= p;
      TopmostIsTarget(root, known, t, p);
    }
  }

  lemma TargetsAntichain(root: Path, known: set<Path>, inventory: Tree)
    requires Safe(root, known, inventory)
    ensures Antichain(Targets(root, known, inventory))
  {
    var ts := Targets(root, known, inventory);
    forall a, b | a in ts && b in ts && a <= b ensures a == b {
      TargetsAreTopmostMissing(root, known, inventory, a);
      TargetsAreTopmostMissing(root, known, inventory, b);
    }
  }

  // ----- pruned listings

  /** The inventory without the entries strictly below a pruned prefix. */
  function Prune(inventory: Tree, prefixes: set<Path>): Tree {
    map p | p in inventory && !StrictlyBelow(p, prefixes) :: inventory[p]
  }

  /** Every pruned prefix that hides an extra is itself dead. */
  ghost predicate PrunedPrefixesDead(root: Path, known: set<Path>, inventory: Tree, prefixes: set<Path>) {
    forall t, p | t in prefixes && p in inventory && t < p && Extra(root, known, p) :: Dead(known, t)
  }

  lemma HiddenTargetKept(root: Path, known: set<Path>, inventory: Tree, prefixes: set<Path>, p: Path)
    requires WellRooted(inventory, root) && root in known
    requires forall t | t in prefixes :: root <= t
    requires PrunedPrefixesDead(root, known, inventory, prefixes)
    requires p in inventory && Extra(root, known, p) && StrictlyBelow(p, prefixes)
    ensures Target(root, known, p) in Targets(root, known, Prune(inventory, prefixes))
  {
    var t := ShortestPrefix(prefixes, p);
    AncestorsPresent(inventory, root, t, p);
    assert Dead(known, t);
    assert t !in known && t != root;
    assert p[|root|..][..|t| - |root|] == t[|root|..];
    assert Extra(root, known, t);
    assert t in Prune(inventory, prefixes);
    TargetFacts(root, known, t);
    var u := Target(root, known, t);
    TopmostIsTarget(root, known, u, p);
  }

  /** The shortest of the prefixes above p is not below another one. */
  lemma {:induction false} ShortestPrefix(prefixes: set<Path>, p: Path) returns (t: Path)
    requires StrictlyBelow(p, prefixes)
    ensures t in prefixes && t < p && !StrictlyBelow(t, prefixes)
    decreases |p|
  {
    t :| t in prefixes && t < p;
    if StrictlyBelow(t, prefixes) {
      t := ShortestPrefix(prefixes, t);
    }
  }

  /**
   * Listing the remote pruned at the given prefixes plans the same deletes as a full
   * listing exactly when every prefix that hides an extra is dead.
   */
  lemma PruningLosesNoDeletesIff(root: Path, known: set<Path>, inventory: Tree, prefixes: set<Path>)
    requires WellRooted(inventory, root) && root in known
    requires forall t | t in prefixes :: root <= t
    ensures Targets(root, known, Prune(inventory, prefixes)) == Targets(root, known, inventory)
      <==> PrunedPrefixesDead(root, known, inventory, prefixes)
  {
    var full, pruned := Targets(root, known, inventory), Targets(root, known, Prune(inventory, prefixes));
    assert pruned <= full;
    if PrunedPrefixesDead(root, known, inventory, prefixes) {
      forall u | u in full ensures u in pruned {
        var p :| p in inventory && Extra(root, known, p) && u == Target(root, known, p);
        if StrictlyBelow(p, prefixes) {
          HiddenTargetKept(root, known, inventory, prefixes, p);
        }
      }
    }
    if full == pruned {
      forall t, p | t in prefixes && p in inventory && t < p && Extra(root, known, p) ensures Dead(known, t) {
        TargetFacts(root, known, p);
        var u := Target(root, known, p);
        assert u in full;
        var q :| q in Prune(inventory, prefixes) && Extra(root, known, q) && u == Target(root, known, q);
        TargetFacts(root, known, q);
        PrefixesChain(t, u, p);
        assert !(t < q);
        assert u <= t;
        assert u < p;
        DeadBelow(known, u, t);
      }
    }
  }
}
