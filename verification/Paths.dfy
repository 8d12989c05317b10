/**
 * Paths as sequences of segments.  `a <= p` (sequence prefix) reads "p is at or under a".
 * The text forms the program works on are tied to these relations in PathText.
 */
module Paths {
  type Segment = string
  type Path = seq<Segment>

  datatype Kind = File | Directory

  /** An inventory, a local tree, or the remote disk itself. */
  type Tree = map<Path, Kind>

  datatype Option<+T> = None | Some(value: T)

  function Parent(p: Path): Path
    requires p != []
  {
    p[..|p| - 1]
  }

  /** Some member of `tops` is p or an ancestor of p. */
  predicate CoveredBy(p: Path, tops: set<Path>) {
    exists t | t in tops :: t <= p
  }

  /** Some member of `tops` is a proper ancestor of p. */
  predicate StrictlyBelow(p: Path, tops: set<Path>) {
    exists t | t in tops :: t < p
  }

  ghost predicate Antichain(s: set<Path>) {
    forall a, b | a in s && b in s && a <= b :: a == b
  }

  /** Every ancestor of a member, from the root down, is a member. */
  ghost predicate AncestorClosed(s: set<Path>, root: Path) {
    forall p, q | p in s && root <= q && q <= p :: q in s
  }

  /** Files have no entries below them. */
  ghost predicate FilesAreLeaves(t: Tree) {
    forall p, q | p in t && q in t && p < q :: t[p] == Directory
  }

  /** Below the root, every entry hangs from directories that are present. */
  ghost predicate WellRooted(t: Tree, root: Path) {
    forall p | p in t && root < p :: Parent(p) in t && t[Parent(p)] == Directory
  }

  lemma PrefixesChain(a: Path, b: Path, p: Path)
    requires a <= p && b <= p
    ensures |a| <= |b| ==> a <= b
    ensures |b| <= |a| ==> b <= a
  {
  }

  lemma PrefixTransitive(a: Path, b: Path, c: Path)
    requires a <= b && b <= c
    ensures a <= c
    ensures a < b || b < c ==> a < c
  {
  }

  /** In a well-rooted tree all ancestors below the root are present directories. */
  lemma {:induction false} AncestorsPresent(t: Tree, root: Path, q: Path, p: Path)
    requires WellRooted(t, root) && p in t && root <= q && q < p
    ensures q in t && t[q] == Directory
    decreases |p|
  {
    var up := Parent(p);
    assert root < p && up in t && t[up] == Directory;
    if q != up {
      assert q < up;
      AncestorsPresent(t, root, q, up);
    }
  }

  lemma WellRootedLeaves(t: Tree, root: Path, p: Path, q: Path)
    requires WellRooted(t, root) && p in t && q in t && root <= p && p < q
    ensures t[p] == Directory
  {
    AncestorsPresent(t, root, p, q);
  }
}
