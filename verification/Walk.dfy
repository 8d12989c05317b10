/**
 * The recursive listing: directories are listed page by page, up to eight at a time, and
 * directories at or under a pruned prefix are not entered.  It refines a plain filter over
 * the whole remote.
 */
module Walk {
  import opened Paths
  import opened PathText
  import opened Sorting
  import opened LiveScan
  import opened LiveSet
  import opened DeletePlan
  import opened RootPlan
  import opened Remote
  import opened Mirror

  datatype Resource = Resource(path: Path, kind: Kind)

  datatype Page = Page(items: seq<Resource>, total: Option<nat>)

  /** An answer of the server, or the error in its place. */
  datatype Reply<T> = Answered(value: T) | Refused(kind: ErrorKind)

  const LIST_DIRECTORY_CONCURRENCY: nat := 8

  predicate ByPath(a: Resource, b: Resource) {
    TextOrder(a.path, b.path)
  }

  /** The plain form: everything strictly under the root that is not strictly below a pruned prefix. */
  predicate InFilter(remote: Tree, root: Path, prefixes: set<Path>, r: Resource) {
    && r.path in remote && remote[r.path] == r.kind
    && root < r.path && !StrictlyBelow(r.path, prefixes)
  }

  predicate IsChild(remote: Tree, d: Path, r: Resource) {
    && r.path in remote && remote[r.path] == r.kind
    && r.path != [] && Parent(r.path) == d
  }

  /** What the server answers for a directory, in its own order. */
  ghost predicate Lists(remote: Tree, d: Path, items: seq<Resource>) {
    && Distinct(items)
    && (forall r :: r in items <==> IsChild(remote, d, r))
  }

  // ----- paging

  /**
   * A server that answers a page at each offset: the items from there on, at least one
   * while any are left, and the total if it reports one.
   */
  ghost predicate PagesOf(items: seq<Resource>, total: Option<nat>, page: nat -> Page) {
    && (total.Some? ==> total.value == |items|)
    && (forall offset: nat | offset <= |items| ::
          && page(offset).total == total
          && |page(offset).items| <= |items| - offset
          && page(offset).items == items[offset..offset + |page(offset).items|]
          && (offset < |items| ==> page(offset).items != []))
  }

  /** Directories to enter: those on the page that are not pruned. */
  function Subdirectories(items: seq<Resource>, prefixes: set<Path>): seq<Path> {
    if items == [] then []
    else
      var last := items[|items| - 1];
      Subdirectories(items[..|items| - 1], prefixes)
      + (if last.kind == Directory && !CoveredBy(last.path, prefixes) then [last.path] else [])
  }

  lemma {:induction false} SubdirectoriesConcat(a: seq<Resource>, b: seq<Resource>, prefixes: set<Path>)
    ensures Subdirectories(a + b, prefixes) == Subdirectories(a, prefixes) + Subdirectories(b, prefixes)
  {
    if b == [] {
      assert a + b == a;
    } else {
      SubdirectoriesConcat(a, b[..|b| - 1], prefixes);
      assert (a + b)[..|a + b| - 1] == a + b[..|b| - 1];
    }
  }

  method CollectEmbeddedPage(page: Page, prefixes: set<Path>, pending: seq<Path>, listed: seq<Resource>)
    returns (pending': seq<Path>, listed': seq<Resource>)
    ensures listed' == listed + page.items
    ensures pending' == pending + Subdirectories(page.items, prefixes)
  {
    pending', listed' := pending, listed;
    for i := 0 to |page.items|
      invariant listed' == listed + page.items[..i]
      invariant pending' == pending + Subdirectories(page.items[..i], prefixes)
    {
      var item := page.items[i];
      assert page.items[..i + 1] == page.items[..i] + [item];
      if item.kind == Directory && !CoveredBy(item.path, prefixes) {
        pending' := pending' + [item.path];
      }
      listed' := listed' + [item];
    }
    assert page.items[..|page.items|] == page.items;
  }

  /**
   * Reads pages until an empty one, or until the reported total is reached; a total that is
   * not reported counts as zero, so then only the first page is read.
   */
  method ListDirectoryChildren(ghost items: seq<Resource>, ghost total: Option<nat>, page: nat -> Page,
                               prefixes: set<Path>)
    returns (pending: seq<Path>, listed: seq<Resource>)
    requires PagesOf(items, total, page)
    ensures listed == if total.Some? then items else page(0).items
    ensures pending == Subdirectories(listed, prefixes)
  {
    pending, listed := [], [];
    var offset: nat := 0;
    while true
      invariant offset <= |items|
      invariant listed == items[..offset] && pending == Subdirectories(listed, prefixes)
      invariant offset > 0 ==> total.Some?
      decreases |items| - offset
    {
      var p := page(offset);
      var reported := if p.total.Some? then p.total.value else 0;
      var returned := |p.items|;
      SubdirectoriesConcat(listed, p.items, prefixes);
      assert items[..offset + returned] == items[..offset] + items[offset..offset + returned];
      pending, listed := CollectEmbeddedPage(p, prefixes, pending, listed);
      offset := offset + returned;
      if returned == 0 || offset >= reported {
        break;
      }
    }
    assert items[..|items|] == items;
  }

  /** Without a reported total a directory is listed completely exactly if its first page holds everything. */
  lemma MissingTotalIff(items: seq<Resource>, page: nat -> Page)
    requires PagesOf(items, None, page)
    ensures page(0).items == items <==> |page(0).items| == |items|
  {
    assert page(0).items == items[0..0 + |page(0).items|];
  }

  // ----- the walk

  /** Directories whose listing is asked for. */
  predicate Entered(remote: Tree, root: Path, prefixes: set<Path>, d: Path) {
    root <= d && d in remote && remote[d] == Directory && !CoveredBy(d, prefixes)
  }

  function Members(s: seq<Path>): set<Path> {
    set p | p in s
  }

  /** `expanded` has been listed, `frontier` is waiting or being listed. */
  ghost predicate WalkInvariant(remote: Tree, root: Path, prefixes: set<Path>, expanded: set<Path>, frontier: set<Path>)
  {
    && expanded !! frontier
    && (forall d | d in expanded :: Entered(remote, root, prefixes, d))
    && (forall d | d in frontier :: d == root || Entered(remote, root, prefixes, d))
    && (forall d | d in expanded + frontier && d != root :: d != [] && Parent(d) in expanded)
    && (forall d | d != root && d != [] && Entered(remote, root, prefixes, d)
      && Parent(d) in expanded :: d in expanded + frontier)
    && (CoveredBy(root, prefixes) || root in expanded + frontier)
  }

  /** The list holds the children of the expanded directories, each once. */
  ghost predicate ListedChildren(remote: Tree, expanded: set<Path>, listed: seq<Resource>) {
    && Distinct(listed)
    && (forall r :: r in listed <==> r.path != [] && Parent(r.path) in expanded && IsChild(remote, Parent(r.path), r))
  }

  /** Everything the walk must enter has been entered once the frontier is empty. */
  lemma {:induction false} WalkComplete(remote: Tree, root: Path, prefixes: set<Path>, expanded: set<Path>, d: Path)
    requires WalkInvariant(remote, root, prefixes, expanded, {})
    requires WellRooted(remote, root)
    ensures d in expanded <==> Entered(remote, root, prefixes, d)
    decreases |d|
  {
    if Entered(remote, root, prefixes, d) && d != root {
      assert root < d;
      var up := Parent(d);
      assert up in remote && remote[up] == Directory && root <= up && up <= d;
      if t :| t in prefixes && t <= up {
        PrefixTransitive(t, up, d);
      }
      WalkComplete(remote, root, prefixes, expanded, up);
    }
  }

  /** The list of a complete walk is the plain filter. */
  lemma ListedIsFilter(remote: Tree, root: Path, prefixes: set<Path>, expanded: set<Path>, listed: seq<Resource>,
                       r: Resource)
    requires WalkInvariant(remote, root, prefixes, expanded, {}) && ListedChildren(remote, expanded, listed)
    requires WellRooted(remote, root)
    ensures r in listed <==> InFilter(remote, root, prefixes, r)
  {
    if r.path != [] {
      var up := Parent(r.path);
      WalkComplete(remote, root, prefixes, expanded, up);
      assert root < r.path <==> root <= up && r.path != [];
      StrictlyBelowIsParentCovered(r.path, prefixes);
    }
  }

  lemma StrictlyBelowIsParentCovered(p: Path, prefixes: set<Path>)
    requires p != []
    ensures StrictlyBelow(p, prefixes) <==> CoveredBy(Parent(p), prefixes)
  {
    if t :| t in prefixes && t < p {
      assert t <= Parent(p);
    }
    if t :| t in prefixes && t <= Parent(p) {
      assert t < p;
    }
  }

  lemma {:induction false} SubdirectoriesFacts(items: seq<Resource>, prefixes: set<Path>)
    requires forall i, j | 0 <= i < j < |items| :: items[i].path != items[j].path
    ensures Distinct(Subdirectories(items, prefixes))
    ensures var found := Subdirectories(items, prefixes);
      forall p :: p in found <==> Resource(p, Directory) in items && !CoveredBy(p, prefixes)
  {
    if items != [] {
      var rest := items[..|items| - 1];
      assert items == rest + [items[|items| - 1]];
      SubdirectoriesFacts(rest, prefixes);
    }
  }

  lemma ChildPathsDistinct(remote: Tree, d: Path, items: seq<Resource>)
    requires Lists(remote, d, items)
    ensures forall i, j | 0 <= i < j < |items| :: items[i].path != items[j].path
  {
    forall i, j | 0 <= i < j < |items| ensures items[i].path != items[j].path {
      assert items[i] in items && items[j] in items;
    }
  }

  /** The subdirectories found in d are exactly those to enter below it. */
  lemma FoundIsEntered(remote: Tree, root: Path, prefixes: set<Path>, d: Path, items: seq<Resource>, c: Path)
    requires Entered(remote, root, prefixes, d) && Lists(remote, d, items)
    ensures c in Subdirectories(items, prefixes) <==>
      c != [] && c != root && Parent(c) == d && Entered(remote, root, prefixes, c)
    ensures Distinct(Subdirectories(items, prefixes))
  {
    ChildPathsDistinct(remote, d, items);
    SubdirectoriesFacts(items, prefixes);
    assert Resource(c, Directory) in items <==> IsChild(remote, d, Resource(c, Directory));
  }

  /** One directory has been listed: its subdirectories join the frontier. */
  lemma ExpandStep(remote: Tree, root: Path, prefixes: set<Path>, expanded: set<Path>, frontier: set<Path>,
                   d: Path, items: seq<Resource>)
    requires WalkInvariant(remote, root, prefixes, expanded, frontier)
    requires d in frontier && Entered(remote, root, prefixes, d) && Lists(remote, d, items)
    ensures var found := Subdirectories(items, prefixes);
      && Distinct(found) && Members(found) !! frontier
      && WalkInvariant(remote, root, prefixes, expanded + {d}, frontier - {d} + Members(found))
  {
    var found := Members(Subdirectories(items, prefixes));
    forall c ensures c in found <==> c != [] && c != root && Parent(c) == d && Entered(remote, root, prefixes, c) {
      FoundIsEntered(remote, root, prefixes, d, items, c);
    }
    FoundIsEntered(remote, root, prefixes, d, items, []);
    assert found !! expanded + frontier;
    ExpandFrontier(remote, root, prefixes, expanded, frontier, d, found);
  }

  lemma ExpandFrontier(remote: Tree, root: Path, prefixes: set<Path>, expanded: set<Path>, frontier: set<Path>,
                       d: Path, found: set<Path>)
    requires WalkInvariant(remote, root, prefixes, expanded, frontier)
    requires d in frontier && Entered(remote, root, prefixes, d) && found !! expanded + frontier
    requires forall c :: c in found <==> c != [] && c != root && Parent(c) == d && Entered(remote, root, prefixes, c)
    ensures WalkInvariant(remote, root, prefixes, expanded + {d}, frontier - {d} + found)
  {
    var e, f := expanded + {d}, frontier - {d} + found;
    assert e + f == expanded + frontier + found;
    assert e !! f;
    forall c | c in e + f && c != root ensures c != [] && Parent(c) in e {
      assert c in expanded + frontier || c in found;
    }
    forall c | c != root && c != [] && Entered(remote, root, prefixes, c) && Parent(c) in e ensures c in e + f {
      assert Parent(c) in expanded || Parent(c) == d;
    }
  }

  /** ... and its children the list. */
  lemma ListedStep(remote: Tree, expanded: set<Path>, listed: seq<Resource>, d: Path, items: seq<Resource>)
    requires ListedChildren(remote, expanded, listed) && d !in expanded && Lists(remote, d, items)
    ensures ListedChildren(remote, expanded + {d}, listed + items)
  {
    forall r | r in items ensures r !in listed {
      assert IsChild(remote, d, r);
    }
  }

  /** A pruned root is dropped; nothing else on the frontier is pruned. */
  lemma DropPruned(remote: Tree, root: Path, prefixes: set<Path>, expanded: set<Path>, frontier: set<Path>,
                   kept: set<Path>)
    requires WalkInvariant(remote, root, prefixes, expanded, frontier)
    requires kept <= frontier && forall d | d in frontier - kept :: CoveredBy(d, prefixes)
    ensures WalkInvariant(remote, root, prefixes, expanded, kept)
  {
    forall d | d in frontier - kept ensures d == root {
      assert CoveredBy(d, prefixes);
    }
  }

  /** Starts tasks from the top of the stack until eight are active or the stack is empty. */
  method FillTasks(pending: seq<Path>, active: seq<Path>, prefixes: set<Path>)
    returns (pending': seq<Path>, active': seq<Path>)
    requires |active| <= LIST_DIRECTORY_CONCURRENCY && Distinct(active + pending)
    requires forall d | d in active :: !CoveredBy(d, prefixes)
    ensures |active'| <= LIST_DIRECTORY_CONCURRENCY && Distinct(active' + pending')
    ensures |active'| == 8 || pending' == []
    ensures forall d | d in active' :: !CoveredBy(d, prefixes)
    ensures Members(active' + pending') <= Members(active + pending)
    ensures forall d | d in Members(active + pending) - Members(active' + pending') :: CoveredBy(d, prefixes)
  {
    pending', active' := pending, active;
    while |active'| < LIST_DIRECTORY_CONCURRENCY && pending' != []
      invariant |active'| <= LIST_DIRECTORY_CONCURRENCY && Distinct(active' + pending')
      invariant forall d | d in active' :: !CoveredBy(d, prefixes)
      invariant Members(active' + pending') <= Members(active + pending)
      invariant forall d | d in Members(active + pending) - Members(active' + pending') :: CoveredBy(d, prefixes)
      decreases |pending'|
    {
      var path := pending'[|pending'| - 1];
      PopStep(active', pending');
      pending' := pending'[..|pending'| - 1];
      if !CoveredBy(path, prefixes) {
        active' := active' + [path];
      }
    }
  }

  lemma PopStep(active: seq<Path>, pending: seq<Path>)
    requires pending != [] && Distinct(active + pending)
    ensures var path, rest := pending[|pending| - 1], pending[..|pending| - 1];
      && Distinct(active + rest) && Distinct(active + [path] + rest)
      && Members(active + pending) == Members(active + [path] + rest) == Members(active + rest) + {path}
  {
    var path, rest := pending[|pending| - 1], pending[..|pending| - 1];
    var all, popped := active + rest + [path], active + [path] + rest;
    assert active + pending == all && all[..|active + rest|] == active + rest;
    assert multiset(all) == multiset(popped);
    PermutationFacts(all, popped);
  }

  /** A task that finished is taken out of the active ones. */
  lemma JoinStep(active: seq<Path>, pending: seq<Path>, k: nat)
    requires k < |active| && Distinct(active + pending)
    ensures var rest := active[..k] + active[k + 1..];
      Distinct(rest + pending) && Members(rest + pending) == Members(active + pending) - {active[k]}
  {
    var rest := active[..k] + active[k + 1..];
    var all, moved := active + pending, [active[k]] + (rest + pending);
    assert active == active[..k] + [active[k]] + active[k + 1..];
    assert multiset(all) == multiset(moved);
    PermutationFacts(all, moved);
    assert moved[1..] == rest + pending;
    assert forall x | x in rest + pending :: x in moved[1..];
  }

  lemma PushStep(open: seq<Path>, found: seq<Path>)
    requires Distinct(open) && Distinct(found) && Members(found) !! Members(open)
    ensures Distinct(open + found) && Members(open + found) == Members(open) + Members(found)
  {
    forall i, j | 0 <= i < |open| && 0 <= j < |found| ensures open[i] != found[j] {
      assert open[i] in Members(open) && found[j] in Members(found);
    }
  }

  /** Some directory the walk enters cannot be listed, with this error. */
  ghost predicate FailsWith(remote: Tree, root: Path, prefixes: set<Path>, fails: Path -> Option<ErrorKind>,
                            kind: ErrorKind)
  {
    exists d :: Entered(remote, root, prefixes, d) && fails(d) == Some(kind)
  }

  ghost predicate SomeFails(remote: Tree, root: Path, prefixes: set<Path>, fails: Path -> Option<ErrorKind>) {
    exists d :: Entered(remote, root, prefixes, d) && fails(d).Some?
  }

  /** The state between two tasks. */
  ghost predicate Walking(remote: Tree, root: Path, prefixes: set<Path>, expanded: set<Path>,
                          active: seq<Path>, pending: seq<Path>, listed: seq<Resource>)
  {
    && |active| <= LIST_DIRECTORY_CONCURRENCY && Distinct(active + pending)
    && (forall d | d in active :: !CoveredBy(d, prefixes))
    && WalkInvariant(remote, root, prefixes, expanded, Members(active + pending))
    && ListedChildren(remote, expanded, listed)
  }

  /** The task at position k has listed its directory. */
  lemma JoinedStep(remote: Tree, root: Path, prefixes: set<Path>, expanded: set<Path>,
                   active: seq<Path>, pending: seq<Path>, listed: seq<Resource>, k: nat, items: seq<Resource>)
    requires Walking(remote, root, prefixes, expanded, active, pending, listed) && k < |active|
    requires root in remote && remote[root] == Directory && Lists(remote, active[k], items)
    ensures Walking(remote, root, prefixes, expanded + {active[k]}, active[..k] + active[k + 1..],
                    pending + Subdirectories(items, prefixes), listed + items)
  {
    var d, rest, found := active[k], active[..k] + active[k + 1..], Subdirectories(items, prefixes);
    assert d in active && d in active + pending;
    assert !CoveredBy(d, prefixes);
    JoinStep(active, pending, k);
    ExpandStep(remote, root, prefixes, expanded, Members(active + pending), d, items);
    ListedStep(remote, expanded, listed, d, items);
    PushStep(rest + pending, found);
    assert rest + (pending + found) == rest + pending + found;
  }

  lemma WalkDone(remote: Tree, root: Path, prefixes: set<Path>, expanded: set<Path>, listed: seq<Resource>)
    requires WalkInvariant(remote, root, prefixes, expanded, {}) && ListedChildren(remote, expanded, listed)
    requires WellRooted(remote, root)
    ensures forall d :: d in expanded <==> Entered(remote, root, prefixes, d)
    ensures forall x :: x in listed <==> InFilter(remote, root, prefixes, x)
  {
    forall d ensures d in expanded <==> Entered(remote, root, prefixes, d) {
      WalkComplete(remote, root, prefixes, expanded, d);
    }
    forall x ensures x in listed <==> InFilter(remote, root, prefixes, x) {
      ListedIsFilter(remote, root, prefixes, expanded, listed, x);
    }
  }

  /** The server holds `items` for each directory and answers with `page`. */
  ghost predicate Serves(remote: Tree, items: Path -> seq<Resource>, page: Path -> nat -> Page) {
    forall d :: Lists(remote, d, items(d)) && PagesOf(items(d), Some(|items(d)|), page(d))
  }

  /**
   * The walk.  `fails` says which directories cannot be listed in time, and why.  Tasks
   * finish in any order; the first failure ends the walk.
   */
  method ListRecursiveByDirectoryWalk(ghost remote: Tree, root: Path, prefixes: set<Path>,
                                      ghost items: Path -> seq<Resource>,
                                      page: Path -> nat -> Page, fails: Path -> Option<ErrorKind>)
    returns (r: Reply<seq<Resource>>)
    requires root in remote && remote[root] == Directory && WellRooted(remote, root)
    requires Serves(remote, items, page)
    ensures r.Refused? <==> SomeFails(remote, root, prefixes, fails)
    ensures r.Refused? ==> FailsWith(remote, root, prefixes, fails, r.kind)
    ensures r.Answered? ==> Distinct(r.value) && Sorted(r.value, ByPath)
    ensures r.Answered? ==> forall x :: x in r.value <==> InFilter(remote, root, prefixes, x)
  {
    var pending, active: seq<Path> := [root], [];
    var listed: seq<Resource> := [];
    ghost var expanded: set<Path> := {};
    assert active + pending == [root];
    while active != [] || pending != []
      invariant Walking(remote, root, prefixes, expanded, active, pending, listed)
      invariant forall d | d in expanded :: fails(d).None?
      decreases remote.Keys - expanded, |active| + |pending|
    {
      ghost var frontier := Members(active + pending);
      pending, active := FillTasks(pending, active, prefixes);
      DropPruned(remote, root, prefixes, expanded, frontier, Members(active + pending));
      if active == [] {
        break;
      }
      var k :| 0 <= k < |active|;
      var d := active[k];
      assert d in Members(active + pending);
      if fails(d).Some? {
        return Refused(fails(d).value);
      }
      JoinedStep(remote, root, prefixes, expanded, active, pending, listed, k, items(d));
      var found, children := ListDirectoryChildren(items(d), Some(|items(d)|), page(d), prefixes);
      active, pending, listed := active[..k] + active[k + 1..], pending + found, listed + children;
      expanded := expanded + {d};
    }
    assert Members(active + pending) == {};
    WalkDone(remote, root, prefixes, expanded, listed);
    var sorted := SortByPath(listed);
    return Answered(sorted);
  }

  method SortByPath(listed: seq<Resource>) returns (r: seq<Resource>)
    requires Distinct(listed)
    ensures Sorted(r, ByPath) && Distinct(r)
    ensures forall x :: x in r <==> x in listed
  {
    PathOrders();
    assert forall a, b :: ByPath(a, b) == TextOrder(a.path, b.path);
    r := Sort(listed, ByPath);
    PermutationFacts(listed, r);
  }

  // ----- the inventory built from a listing

  function FromList(start: Tree, listed: seq<Resource>): Tree {
    if listed == [] then start
    else FromList(start, listed[..|listed| - 1])[listed[|listed| - 1].path := listed[|listed| - 1].kind]
  }

  lemma {:induction false} FromListMembers(start: Tree, listed: seq<Resource>, remote: Tree)
    requires forall p | p in start :: p in remote && start[p] == remote[p]
    requires forall r | r in listed :: r.path in remote && remote[r.path] == r.kind
    ensures var built := FromList(start, listed);
      forall p :: p in built <==> p in start || (p in remote && Resource(p, remote[p]) in listed)
    ensures forall p | p in FromList(start, listed) :: p in remote && FromList(start, listed)[p] == remote[p]
  {
    if listed != [] {
      var rest, last := listed[..|listed| - 1], listed[|listed| - 1];
      assert listed == rest + [last];
      FromListMembers(start, rest, remote);
    }
  }

  /**
   * The fresh branch of the inventory: the root is looked up, then listed.  A directory that
   * is no longer there when it is listed ends the listing, and the root alone is kept.
   */
  method FetchInventory(ghost remote: Tree, root: Path, lookup: Reply<Option<Kind>>, prefixes: set<Path>,
                        ghost items: Path -> seq<Resource>, page: Path -> nat -> Page, fails: Path -> Option<ErrorKind>)
    returns (r: Reply<Tree>)
    requires lookup.Answered? ==> lookup.value == if root in remote then Some(remote[root]) else None
    requires WellRooted(remote, root) && Serves(remote, items, page)
    requires forall t | t in prefixes :: root <= t
    ensures lookup.Refused? ==> r == Refused(lookup.kind)
    ensures lookup.Answered? && r.Refused? ==>
      root in remote && r.kind != NotFound && FailsWith(remote, root, prefixes, fails, r.kind)
    ensures var whole := FreshInventory(remote, root, prefixes);
      && (r.Answered? ==> r.value == whole || VanishedIn(remote, root, prefixes, fails, r.value))
      && (lookup.Answered? && !SomeFails(remote, root, prefixes, fails) ==> r == Answered(whole))
  {
    if lookup.Refused? {
      return Refused(lookup.kind);
    }
    if lookup.value.None? {
      return Answered(map[]);
    }
    var rootKind := lookup.value.value;
    var resources: Tree := map[root := rootKind];
    var listed: seq<Resource>;
    if rootKind == Directory {
      var walked := ListRecursiveByDirectoryWalk(remote, root, prefixes, items, page, fails);
      if walked == Refused(NotFound) {
        return Answered(resources);
      }
      if walked.Refused? {
        return Refused(walked.kind);
      }
      listed := walked.value;
    } else {
      listed := [Resource(root, rootKind)];
    }
    InventoryIsFresh(remote, root, prefixes, listed);
    resources := InsertAll(resources, listed);
    return Answered(resources);
  }

  /** Some directory vanished while the root was listed: only the root is left of the inventory. */
  ghost predicate VanishedIn(remote: Tree, root: Path, prefixes: set<Path>, fails: Path -> Option<ErrorKind>,
                             inventory: Tree)
  {
    inventory == map[root := Directory] && FailsWith(remote, root, prefixes, fails, NotFound)
  }

  /** Such an inventory is safe, but every live directory is created and every live file uploaded again. */
  lemma VanishedPlansEverything(root: Path, dirs: seq<DirectoryEntry>, files: seq<FileEntry>, deleted: seq<Tombstone>)
    requires forall d | d in dirs :: d.remote != root
    requires forall f | f in files :: f.remote != root
    ensures var inventory: Tree := map[root := Directory];
      && Targets(root, KnownLive(root, dirs, files, deleted), inventory) == {}
      && (forall d | d in dirs :: d in MissingDirectories(dirs, inventory))
      && (forall f | f in files :: UploadJob(f, false) in NeededUploads(files, inventory))
  {
  }

  method InsertAll(start: Tree, listed: seq<Resource>) returns (resources: Tree)
    ensures resources == FromList(start, listed)
  {
    resources := start;
    for i := 0 to |listed|
      invariant resources == FromList(start, listed[..i])
    {
      assert listed[..i + 1][..i] == listed[..i];
      resources := resources[listed[i].path := listed[i].kind];
    }
    assert listed[..|listed|] == listed;
  }

  lemma InventoryIsFresh(remote: Tree, root: Path, prefixes: set<Path>, listed: seq<Resource>)
    requires root in remote && WellRooted(remote, root) && forall t | t in prefixes :: root <= t
    requires remote[root] == Directory ==> forall x :: x in listed <==> InFilter(remote, root, prefixes, x)
    requires remote[root] == File ==> listed == [Resource(root, File)]
    ensures FromList(map[root := remote[root]], listed) == FreshInventory(remote, root, prefixes)
  {
    var start := map[root := remote[root]];
    FromListMembers(start, listed, remote);
    var built, expected := FromList(start, listed), FreshInventory(remote, root, prefixes);
    assert !StrictlyBelow(root, prefixes);
    forall p ensures p in built <==> p in expected {
      if p in remote && p != root {
        var r := Resource(p, remote[p]);
        assert root <= p ==> root < p;
        if root < p {
          WellRootedLeaves(remote, root, root, p);
        }
        if remote[root] == Directory {
          assert r in listed <==> InFilter(remote, root, prefixes, r);
        } else {
          assert r !in listed;
        }
      }
    }
  }
}
