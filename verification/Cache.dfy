/**
 * The cached inventory of a managed root: a table of remote paths that follows what the
 * engine did, so that a later run can plan without listing the remote.
 */
module Cache {
  import opened Paths
  import opened PathText
  import opened LiveScan
  import opened DeletePlan
  import opened RootPlan
  import opened Remote
  import opened Mirror

  // ----- the SQL pattern match

  /** SQL `LIKE`: `%` is any text, `_` any character, ASCII letters match in either case. */
  predicate Like(s: string, pattern: string)
    decreases |s| + |pattern|
  {
    if pattern == "" then s == ""
    else if pattern[0] == '%' then Like(s, pattern[1..]) || (s != "" && Like(s[1..], pattern))
    else s != "" && (pattern[0] == '_' || AsciiLower(pattern[0]) == AsciiLower(s[0])) && Like(s[1..], pattern[1..])
  }

  lemma {:induction false} LikeAnything(s: string)
    ensures Like(s, "%")
  {
    if s != "" {
      LikeAnything(s[1..]);
    }
  }

  /** A text used as a pattern matches itself, wildcards included. */
  lemma {:induction false} LikeSelf(a: string, t: string, pattern: string)
    requires Like(t, pattern)
    ensures Like(a + t, a + pattern)
  {
    if a == "" {
      assert a + t == t && a + pattern == pattern;
    } else {
      LikeSelf(a[1..], t, pattern);
      assert (a + t)[1..] == a[1..] + t && (a + pattern)[1..] == a[1..] + pattern;
      if a[0] == '%' {
        assert Like((a + t)[1..], (a + pattern)[1..]);
        LikePercent((a + t)[1..], (a + pattern)[1..]);
        assert (a + pattern) == "%" + (a + pattern)[1..];
      }
    }
  }

  lemma LikePercent(s: string, pattern: string)
    requires Like(s, pattern)
    ensures Like(s, "%" + pattern)
  {
    assert ("%" + pattern)[1..] == pattern;
  }

  /** The rows a subtree delete removes. */
  predicate RowMatches(q: Path, prefix: Path) {
    Text(q) == Text(prefix) || Like(Text(q), Text(prefix) + "/%")
  }

  /** Everything at or under the prefix is removed. */
  lemma SubtreeMatches(q: Path, prefix: Path)
    requires prefix != [] && prefix <= q
    ensures RowMatches(q, prefix)
  {
    if q != prefix {
      PrefixGivesUnder(q, prefix);
      var rest := Text(q[|prefix|..]);
      LikeAnything(rest);
      LikeSelf("/", rest, "%");
      LikeSelf(Text(prefix), "/" + rest, "/%");
      assert Text(prefix) + "/" + rest == Text(prefix) + ("/" + rest);
    }
  }

  // ----- exactly which rows those are

  predicate NoWildcards(s: string) {
    forall i | 0 <= i < |s| :: s[i] != '%' && s[i] != '_'
  }

  /** Text without wildcards matches itself, in either case of its letters. */
  lemma {:induction false} LikeLiteral(s: string, a: string, pattern: string)
    requires NoWildcards(a)
    ensures Like(s, a + pattern) <==> |a| <= |s| && EqIgnoreAsciiCase(s[..|a|], a) && Like(s[|a|..], pattern)
  {
    if a == "" {
      assert a + pattern == pattern && s[..0] == "" && s[0..] == s;
    } else {
      assert (a + pattern)[0] == a[0] && (a + pattern)[1..] == a[1..] + pattern;
      if s != "" {
        LikeLiteral(s[1..], a[1..], pattern);
        if |a| <= |s| {
          EqHeadTail(s[..|a|], a);
          assert s[..|a|][1..] == s[1..][..|a| - 1] && s[1..][|a| - 1..] == s[|a|..];
        }
      }
    }
  }

  lemma EqHeadTail(s: string, a: string)
    requires |s| == |a| > 0
    ensures EqIgnoreAsciiCase(s, a) <==> AsciiLower(s[0]) == AsciiLower(a[0]) && EqIgnoreAsciiCase(s[1..], a[1..])
  {
    if EqIgnoreAsciiCase(s[1..], a[1..]) && AsciiLower(s[0]) == AsciiLower(a[0]) {
      forall i | 0 <= i < |s| ensures AsciiLower(s[i]) == AsciiLower(a[i]) {
        assert i > 0 ==> s[i] == s[1..][i - 1] && a[i] == a[1..][i - 1];
      }
    }
  }

  /** In texts: a prefix without wildcards takes the rows that start with it and a slash, in either case. */
  lemma RowMatchesText(q: Path, prefix: Path)
    requires NoWildcards(Text(prefix))
    ensures var t, head := Text(q), Text(prefix) + "/";
      RowMatches(q, prefix) <==> t == Text(prefix) || (|head| <= |t| && EqIgnoreAsciiCase(t[..|head|], head))
  {
    var t, head := Text(q), Text(prefix) + "/";
    assert head + "%" == Text(prefix) + "/%";
    LikeLiteral(t, head, "%");
    if |head| <= |t| {
      LikeAnything(t[|head|..]);
    }
  }

  function LowerPath(p: Path): Path {
    seq(|p|, i requires 0 <= i < |p| => Lower(p[i]))
  }

  lemma {:induction false} LowerText(p: Path)
    ensures Text(LowerPath(p)) == Lower(Text(p))
  {
    if |p| > 1 {
      LowerText(p[1..]);
      assert LowerPath(p)[1..] == LowerPath(p[1..]);
      assert Lower(p[0] + "/" + Text(p[1..])) == Lower(p[0]) + "/" + Lower(Text(p[1..]));
    }
  }

  lemma LowerClean(p: Path)
    requires Clean(p)
    ensures Clean(LowerPath(p))
  {
  }

  /** In paths: those at the prefix, and those strictly under it up to the case of ASCII letters. */
  lemma RowMatchesIff(q: Path, prefix: Path)
    requires Clean(q) && Clean(prefix) && prefix != [] && NoWildcards(Text(prefix))
    ensures RowMatches(q, prefix) <==> q == prefix || LowerPath(prefix) < LowerPath(q)
  {
    var t, head := Text(q), Text(prefix) + "/";
    RowMatchesText(q, prefix);
    if Text(q) == Text(prefix) {
      TextInjective(q, prefix);
    }
    LowerText(q);
    LowerText(prefix);
    LowerClean(q);
    LowerClean(prefix);
    TextStrictlyUnder(LowerPath(q), LowerPath(prefix));
    StartsWithLower(t, Text(prefix));
  }

  lemma StartsWithLower(t: string, a: string)
    ensures |a| < |t| && EqIgnoreAsciiCase(t[..|a| + 1], a + "/") <==> StartsWith(Lower(t), Lower(a) + "/")
  {
    if |a| < |t| {
      assert Lower(t)[..|a| + 1] == Lower(t[..|a| + 1]);
      assert Lower(a + "/") == Lower(a) + "/";
      EqIsLower(t[..|a| + 1], a + "/");
    }
  }

  /**
   * For a prefix without wildcards the delete removes exactly the subtree if and only if no
   * row lies under another spelling of the prefix.
   */
  lemma SubtreeExactIff(rows: Tree, prefix: Path)
    requires Clean(prefix) && prefix != [] && NoWildcards(Text(prefix)) && forall q | q in rows :: Clean(q)
    ensures SubtreeRemoved(rows, prefix) == WithoutSubtree(rows, prefix)
      <==> forall q | q in rows && LowerPath(prefix) < LowerPath(q) :: prefix <= q
  {
    forall q | q in rows ensures RowMatches(q, prefix) <==> q == prefix || LowerPath(prefix) < LowerPath(q) {
      RowMatchesIff(q, prefix);
    }
    forall q | q in rows && prefix <= q ensures RowMatches(q, prefix) {
      SubtreeMatches(q, prefix);
    }
    var removed, exact := SubtreeRemoved(rows, prefix), WithoutSubtree(rows, prefix);
    forall q | q in rows && LowerPath(prefix) < LowerPath(q) && removed == exact ensures prefix <= q {
      assert q !in removed;
      assert q !in exact;
    }
  }

  /** Another spelling of the prefix: the delete takes its rows too. */
  lemma OtherSpellingRemoved()
    ensures RowMatches(["A", "c"], ["a"]) && !(["a"] <= ["A", "c"])
  {
    var q: Path, p: Path := ["A", "c"], ["a"];
    assert Lower("A") == "a" && Lower("a") == "a";
    assert LowerPath(q)[0] == "a" && LowerPath(p) == ["a"];
    assert Text(p) == "a" && NoWildcards(Text(p));
    RowMatchesIff(q, p);
  }

  /** With a wildcard it is not exact either: an underscore in the prefix also matches another name. */
  lemma SubtreeDeleteTakesMore()
    ensures RowMatches(["axb", "c"], ["a_b"]) && !(["a_b"] <= ["axb", "c"])
  {
    var q: Path := ["axb", "c"];
    assert q[1..] == ["c"];
    assert Text(q) == "axb/c";
    assert "axb/c"[1..] == "xb/c" && "xb/c"[1..] == "b/c" && "b/c"[1..] == "/c" && "/c"[1..] == "c";
    assert "a_b/%"[1..] == "_b/%" && "_b/%"[1..] == "b/%" && "b/%"[1..] == "/%" && "/%"[1..] == "%";
    LikeAnything("c");
    assert Like("/c", "/%") && Like("b/c", "b/%") && Like("xb/c", "_b/%") && Like("axb/c", "a_b/%");
    assert Text(["a_b"]) + "/%" == "a_b/%";
    assert ["a_b"][0] != q[0];
  }

  // ----- the table

  function Upserted(rows: Tree, p: Path, kind: Kind): Tree {
    rows[p := kind]
  }

  function SubtreeRemoved(rows: Tree, prefix: Path): Tree {
    map q | q in rows && !RowMatches(q, prefix) :: rows[q]
  }

  /** What an answered request changes in the table. */
  datatype Change = Unchanged | Entered(path: Path, kind: Kind) | Dropped(prefix: Path)

  /** Successful creates and uploads enter a row; a subtree that is gone from the remote is dropped. */
  function ChangeOf(e: Event): Change {
    if !e.Joined? then Unchanged
    else
      match e.answered
      case CreateDirectory(p) => if e.outcome.Done? then Entered(p, Directory) else Unchanged
      case Upload(p, _) => if e.outcome.Done? then Entered(p, File) else Unchanged
      case DeletePermanently(p) => if e.outcome.Done? || e.outcome == Failed(NotFound) then Dropped(p) else Unchanged
      case CheckMetadata(p) => if e.outcome == Failed(NotFound) then Dropped(p) else Unchanged
  }

  /** The rows of one root in `remote_resource_state`. */
  class ResourceTable {
    var rows: Tree

    constructor ()
      ensures rows == map[]
    {
      rows := map[];
    }

    method Upsert(p: Path, kind: Kind)
      modifies this
      ensures rows == Upserted(old(rows), p, kind)
    {
      rows := rows[p := kind];
    }

    method ReplaceForRoot(records: Tree)
      modifies this
      ensures rows == records
    {
      rows := map[];
      var rest := records.Keys;
      while rest != {}
        invariant rest <= records.Keys
        invariant rows.Keys == records.Keys - rest
        invariant forall p | p in rows :: rows[p] == records[p]
      {
        var p :| p in rest;
        rows := rows[p := records[p]];
        rest := rest - {p};
      }
    }

    method DeleteSubtree(prefix: Path)
      modifies this
      ensures rows == SubtreeRemoved(old(rows), prefix)
    {
      var rest := rows.Keys;
      while rest != {}
        invariant rest <= old(rows).Keys
        invariant forall q :: q in rows <==> q in old(rows) && (q in rest || !RowMatches(q, prefix))
        invariant forall q | q in rows :: rows[q] == old(rows)[q]
      {
        var q :| q in rest;
        if RowMatches(q, prefix) {
          rows := rows - {q};
        }
        rest := rest - {q};
      }
    }

    /** What the engine writes after an answered request. */
    method Record(e: Event)
      modifies this
      ensures rows == RowsEffect(old(rows), e)
    {
      match ChangeOf(e)
      case Unchanged =>
      case Entered(p, kind) =>
        Upsert(p, kind);
      case Dropped(p) =>
        DeleteSubtree(p);
    }
  }

  function CachedInventory(rows: Tree, root: Path): Tree {
    map p | p in rows && root <= p :: rows[p]
  }

  function RowsEffect(rows: Tree, e: Event): Tree {
    match ChangeOf(e)
    case Unchanged => rows
    case Entered(p, kind) => Upserted(rows, p, kind)
    case Dropped(p) => SubtreeRemoved(rows, p)
  }

  // ----- soundness over all histories

  /** Every cached row under the root is on the remote, with its kind. */
  ghost predicate Sound(root: Path, rows: Tree, remote: Tree) {
    forall p | p in rows && root <= p :: HasKind(remote, p, rows[p])
  }

  /**
   * What can happen: a fresh listing is stored, a request of this root is answered, or a
   * request elsewhere succeeds.
   */
  datatype Step = Snapshot(prefixes: set<Path>) | Happened(event: Event) | Elsewhere(request: Request)

  datatype World = World(rows: Tree, remote: Tree)

  function Next(root: Path, w: World, step: Step): World {
    match step
    case Snapshot(prefixes) => World(FreshInventory(w.remote, root, prefixes), w.remote)
    case Happened(e) => World(RowsEffect(w.rows, e), Effect(w.remote, e))
    case Elsewhere(r) => World(w.rows, Apply(w.remote, r))
  }

  function History(root: Path, w: World, steps: seq<Step>): World {
    if steps == [] then w else Next(root, History(root, w, steps[..|steps| - 1]), steps[|steps| - 1])
  }

  lemma StepKeepsSound(root: Path, w: World, step: Step)
    requires Sound(root, w.rows, w.remote)
    requires step.Happened? && step.event.Joined? ==> step.event.answered.path != []
    requires step.Elsewhere? ==> !(root <= step.request.path) && !(step.request.path <= root)
    ensures Sound(root, Next(root, w, step).rows, Next(root, w, step).remote)
  {
    var next := Next(root, w, step);
    forall p | p in next.rows && root <= p ensures HasKind(next.remote, p, next.rows[p]) {
      if step.Happened? && step.event.Joined? && step.event.answered.DeletePermanently? {
        var q := step.event.answered.path;
        if q <= p {
          SubtreeMatches(p, q);
        }
      }
      if step.Elsewhere? {
        assert !(step.request.path <= p) by {
          if step.request.path <= p {
            PrefixesChain(step.request.path, root, p);
          }
        }
      }
    }
  }

  /** The cache never claims what the remote does not hold, whatever the order of steps. */
  lemma {:induction false} CacheSound(root: Path, w: World, steps: seq<Step>)
    requires Sound(root, w.rows, w.remote)
    requires forall s | s in steps && s.Happened? && s.event.Joined? :: s.event.answered.path != []
    requires forall s | s in steps && s.Elsewhere? :: !(root <= s.request.path) && !(s.request.path <= root)
    ensures Sound(root, History(root, w, steps).rows, History(root, w, steps).remote)
  {
    if steps != [] {
      CacheSound(root, w, steps[..|steps| - 1]);
      StepKeepsSound(root, History(root, w, steps[..|steps| - 1]), steps[|steps| - 1]);
    }
  }

  function RowOf(w: World, p: Path): Option<Kind> {
    if p in w.rows then Some(w.rows[p]) else None
  }

  /** The step changes the row of p in some state of the table. */
  ghost predicate Touches(root: Path, step: Step, p: Path) {
    exists w :: RowOf(Next(root, w, step), p) != RowOf(w, p)
  }

  /**
   * Only a new snapshot, a successful create or upload of p, and a delete or check that found
   * the path to be gone and whose pattern matches p can change the row of p.
   */
  lemma TouchesIff(root: Path, step: Step, p: Path)
    ensures Touches(root, step, p) <==>
      || step.Snapshot?
      || (step.Happened? && step.event.Joined? &&
            var r, o := step.event.answered, step.event.outcome;
            || (o == Done && (r.CreateDirectory? || r.Upload?) && r.path == p)
            || (o == Done && r.DeletePermanently? && RowMatches(p, r.path))
            || (o == Failed(NotFound) && (r.DeletePermanently? || r.CheckMetadata?) && RowMatches(p, r.path)))
  {
    var bare, full := World(map[], map[]), World(map[p := File], map[]);
    assert RowOf(Next(root, bare, step), p) != RowOf(bare, p) ==> Touches(root, step, p);
    assert RowOf(Next(root, full, step), p) != RowOf(full, p) ==> Touches(root, step, p);
  }

  /** What the engine has created or uploaded stays in the table until something touches its row. */
  lemma {:induction false} RowStays(root: Path, w: World, steps: seq<Step>, i: nat, r: Request, excused: bool)
    requires i < |steps| && (r.CreateDirectory? || r.Upload?) && steps[i] == Happened(Joined(r, Done, excused))
    requires forall k | i < k < |steps| :: !Touches(root, steps[k], r.path)
    ensures HasKind(History(root, w, steps).rows, r.path, if r.CreateDirectory? then Directory else File)
  {
    var n := |steps| - 1;
    if i < n {
      RowStays(root, w, steps[..n], i, r, excused);
      var before := History(root, w, steps[..n]);
      assert RowOf(Next(root, before, steps[n]), r.path) == RowOf(before, r.path);
    }
  }

  /** So a plan from the cache creates no directory and, with reused fingerprints, uploads no file again. */
  lemma CachedPlanRepeatsNothing(root: Path, w: World, steps: seq<Step>, i: nat, r: Request, excused: bool,
                                 f: FileEntry, d: DirectoryEntry)
    requires i < |steps| && steps[i] == Happened(Joined(r, Done, excused)) && root <= r.path
    requires forall k | i < k < |steps| :: !Touches(root, steps[k], r.path)
    ensures var inventory := CachedInventory(History(root, w, steps).rows, root);
      && (r.CreateDirectory? && d.remote == r.path ==> MissingDirectories([d], inventory) == [])
      && (r.Upload? && f.remote == r.path && f.fingerprint.reusedFromState ==> NeededUploads([f], inventory) == [])
  {
    if r.CreateDirectory? || r.Upload? {
      RowStays(root, w, steps, i, r, excused);
    }
    assert [d][..0] == [] && [f][..0] == [];
  }

  /** A path that is found to be gone, or deleted, leaves no row at or under it; any other failure changes no row. */
  lemma GoneRows(rows: Tree, r: Request, o: Outcome, excused: bool, q: Path)
    requires r.path != [] && r.path <= q
    ensures var after := RowsEffect(rows, Joined(r, o, excused));
      && (o == Failed(NotFound) && (r.DeletePermanently? || r.CheckMetadata?) ==> q !in after)
      && (o == Done && r.DeletePermanently? ==> q !in after)
      && (o != Done && o != Failed(NotFound) ==> after == rows)
      && (o == Failed(NotFound) && (r.CreateDirectory? || r.Upload?) ==> after == rows)
  {
    SubtreeMatches(q, r.path);
  }

  /** An upload or a create that a cached inventory makes unnecessary is unnecessary. */
  lemma CachedPlanIsRight(root: Path, w: World, steps: seq<Step>, f: FileEntry, d: DirectoryEntry)
    requires Sound(root, w.rows, w.remote)
    requires forall s | s in steps && s.Happened? && s.event.Joined? :: s.event.answered.path != []
    requires forall s | s in steps && s.Elsewhere? :: !(root <= s.request.path) && !(s.request.path <= root)
    ensures var now := History(root, w, steps);
      var inventory := CachedInventory(now.rows, root);
      && (!NeedsUpload(f, inventory) ==> HasKind(now.remote, f.remote, File))
      && (HasKind(inventory, d.remote, Directory) ==> HasKind(now.remote, d.remote, Directory))
  {
    CacheSound(root, w, steps);
  }

  /**
   * A request that took effect without being recorded, because the process ended, leaves
   * the cache sound exactly if no cached row tells otherwise.
   */
  lemma InterruptedSoundIff(root: Path, rows: Tree, remote: Tree, r: Request)
    requires Sound(root, rows, remote) && r.path != []
    ensures Sound(root, rows, Apply(remote, r)) <==>
      match r
      case CreateDirectory(p) => !(root <= p) || !HasKind(rows, p, File)
      case Upload(p, _) => !(root <= p) || !HasKind(rows, p, Directory)
      case CheckMetadata(_) => true
      case DeletePermanently(p) =>
        forall q | q in rows && root <= q && p <= q :: q != p && !HasKind(remote, p, Directory)
  {
  }
}
