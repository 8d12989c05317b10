/**
 * The remote disk as the in-memory client defines it, the requests the engine issues, and
 * traces of what a run did.
 */
module Remote {
  import opened Paths
  import opened DeletePlan

  datatype ErrorKind = Transient | Permanent | AuthUnavailable | QuotaExceeded | RateLimited | NotFound | Critical

  predicate IsStopError(kind: ErrorKind) {
    kind.AuthUnavailable? || kind.QuotaExceeded? || kind.Critical?
  }

  datatype Request =
    | CreateDirectory(path: Path)
    | Upload(path: Path, size: nat)
    | CheckMetadata(path: Path)
    | DeletePermanently(path: Path)

  /**
   * `Aborted` is an upload task that saw the cancellation before it called the client;
   * `Skipped` is one whose local file could not be read any more.
   */
  datatype Outcome = Done | Failed(kind: ErrorKind) | Skipped | Aborted

  predicate IsStopOutcome(o: Outcome) {
    o.Aborted? || (o.Failed? && IsStopError(o.kind))
  }

  function WithoutSubtree(t: Tree, p: Path): Tree {
    map q | q in t && !(p <= q) :: t[q]
  }

  /** The effect of a request that succeeds. */
  function Apply(t: Tree, r: Request): Tree {
    match r
    case CreateDirectory(p) => t[p := Directory]
    case Upload(p, _) => t[p := File]
    case CheckMetadata(_) => t
    case DeletePermanently(p) =>
      if p in t && t[p] == Directory then WithoutSubtree(t, p) else t - {p}
  }

  datatype Guard = LocalRootPresent | ScanSucceeded | NoCollision | InventoryLoaded | QuotaSufficient

  /** `excused`: while handling a failed upload its local subtree was found to have vanished. */
  datatype Event =
    | Passed(guard: Guard)
    | CancelSeen
    | Tombstoned(rel: Path)
    | Issued(request: Request)
    | Joined(answered: Request, outcome: Outcome, excused: bool)

  type Trace = seq<Event>

  /** The remote after a trace, if failed requests change nothing. */
  function Replay(t: Tree, trace: Trace): Tree {
    if trace == [] then t
    else Effect(Replay(t, trace[..|trace| - 1]), trace[|trace| - 1])
  }

  function Effect(t: Tree, e: Event): Tree {
    if e.Joined? && e.outcome.Done? then Apply(t, e.answered) else t
  }

  lemma ReplayAppend(t: Tree, trace: Trace, e: Event)
    ensures Replay(t, trace + [e]) == Effect(Replay(t, trace), e)
  {
    assert (trace + [e])[..|trace|] == trace;
  }

  /** That a path to delete is not there is no failure. */
  predicate IsFailure(r: Request, o: Outcome) {
    !o.Done? && !(o == Failed(NotFound) && (r.DeletePermanently? || r.CheckMetadata?))
  }

  /** The answer "not found" is honest if the path is not on the remote. */
  predicate HonestAt(t: Tree, e: Event) {
    e.Joined? && e.outcome == Failed(NotFound) ==> e.answered.path !in t
  }

  predicate Honest(t: Tree, trace: Trace) {
    trace == [] || (Honest(t, trace[..|trace| - 1]) && HonestAt(Replay(t, trace[..|trace| - 1]), trace[|trace| - 1]))
  }

  lemma HonestAppend(t: Tree, trace: Trace, e: Event)
    ensures Honest(t, trace + [e]) <==> Honest(t, trace) && HonestAt(Replay(t, trace), e)
  {
    assert (trace + [e])[..|trace|] == trace;
  }

  /** An error that ends the phase: a stop error that was not excused. */
  predicate IsStopEvent(e: Event) {
    e.Joined? && IsStopOutcome(e.outcome) && !e.excused
  }

  /** The errors that end a run, by name: no authorisation, no space, a critical error. */
  predicate EndsRuns(kind: ErrorKind) {
    kind == AuthUnavailable || kind == QuotaExceeded || kind == Critical
  }

  /** An answer that ends the phase, by name. */
  predicate Ends(e: Event) {
    e.Joined? && !e.excused && (e.outcome == Aborted || (e.outcome.Failed? && EndsRuns(e.outcome.kind)))
  }

  /** The trace holds a cancellation or an answer that ends the phase. */
  ghost predicate Interrupted(trace: Trace) {
    CancelSeen in trace || exists e | e in trace :: Ends(e)
  }

  /** Errors of any other kind never end a run. */
  lemma InterruptedIff(trace: Trace)
    ensures Summarize(trace).stopped || Summarize(trace).cancelled <==> Interrupted(trace)
    ensures forall e | e in trace :: IsStopEvent(e) <==> Ends(e)
  {
    StopMeaning(trace);
    CancelMeaning(trace);
    forall e | e in trace ensures IsStopEvent(e) <==> Ends(e) {
    }
  }

  /** What a trace amounts to; the lemmas below read the fields back as facts about events. */
  datatype Summary = Summary(
    passed: set<Guard>, issued: set<Request>, outstanding: multiset<Request>,
    answered: set<Request>, done: set<Request>, inserted: Tree, uploaded: nat, issuedBytes: nat,
    failed: bool, stopped: bool, cancelled: bool, tombstoned: bool)

  const START := Summary({}, {}, multiset{}, {}, {}, map[], 0, 0, false, false, false, false)

  function After(s: Summary, e: Event): Summary {
    match e
    case Passed(g) => s.(passed := s.passed + {g})
    case CancelSeen => s.(cancelled := true)
    case Tombstoned(_) => s.(tombstoned := true)
    case Issued(r) =>
      s.(issued := s.issued + {r}, outstanding := s.outstanding + multiset{r},
         issuedBytes := s.issuedBytes + UploadSize(r))
    case Joined(r, o, _) =>
      s.(outstanding := s.outstanding - multiset{r}, answered := s.answered + {r},
         done := if o.Done? then s.done + {r} else s.done,
         inserted := if o.Done? then Insert(s.inserted, r) else s.inserted,
         uploaded := if o.Done? then s.uploaded + UploadSize(r) else s.uploaded,
         failed := s.failed || IsFailure(r, o), stopped := s.stopped || IsStopEvent(e))
  }

  function Insert(t: Tree, r: Request): Tree {
    match r
    case CreateDirectory(p) => t[p := Directory]
    case Upload(p, _) => t[p := File]
    case _ => t
  }

  function UploadSize(r: Request): nat {
    if r.Upload? then r.size else 0
  }

  function Summarize(trace: Trace): Summary {
    if trace == [] then START else After(Summarize(trace[..|trace| - 1]), trace[|trace| - 1])
  }

  lemma SummarizeAppend(trace: Trace, e: Event)
    ensures Summarize(trace + [e]) == After(Summarize(trace), e)
  {
    assert (trace + [e])[..|trace|] == trace;
  }

  lemma LastEvent(trace: Trace)
    requires trace != []
    ensures var before, e := trace[..|trace| - 1], trace[|trace| - 1];
      && Summarize(trace) == After(Summarize(before), e)
      && (forall x :: x in trace <==> x in before || x == e)
  {
    assert trace == trace[..|trace| - 1] + [trace[|trace| - 1]];
  }

  predicate IsAnswer(e: Event, r: Request) {
    e.Joined? && e.answered == r
  }

  lemma AfterSets(s: Summary, e: Event, g: Guard, r: Request)
    ensures g in After(s, e).passed <==> g in s.passed || e == Passed(g)
    ensures r in After(s, e).issued <==> r in s.issued || e == Issued(r)
    ensures r in After(s, e).answered <==> r in s.answered || IsAnswer(e, r)
    ensures After(s, e).cancelled <==> s.cancelled || e == CancelSeen
  {
    match e
    case Passed(_) =>
    case CancelSeen =>
    case Tombstoned(_) =>
    case Issued(x) => assert After(s, e).issued == s.issued + {x};
    case Joined(x, _, _) => assert After(s, e).answered == s.answered + {x} && After(s, e).issued == s.issued;
  }

  lemma {:induction false} PassedMeaning(trace: Trace, g: Guard)
    ensures g in Summarize(trace).passed <==> Passed(g) in trace
  {
    if trace != [] {
      var before, e := trace[..|trace| - 1], trace[|trace| - 1];
      LastEvent(trace);
      PassedMeaning(before, g);
      AfterSets(Summarize(before), e, g, CheckMetadata([]));
    }
  }

  lemma {:induction false} IssuedMeaning(trace: Trace, r: Request)
    ensures r in Summarize(trace).issued <==> Issued(r) in trace
  {
    if trace != [] {
      var before, e := trace[..|trace| - 1], trace[|trace| - 1];
      LastEvent(trace);
      IssuedMeaning(before, r);
      AfterSets(Summarize(before), e, LocalRootPresent, r);
    }
  }

  lemma {:induction false} CancelMeaning(trace: Trace)
    ensures Summarize(trace).cancelled <==> CancelSeen in trace
  {
    if trace != [] {
      var before, e := trace[..|trace| - 1], trace[|trace| - 1];
      LastEvent(trace);
      CancelMeaning(before);
      AfterSets(Summarize(before), e, LocalRootPresent, CheckMetadata([]));
    }
  }

  lemma {:induction false} AnswerMeaning(trace: Trace, r: Request)
    ensures r in Summarize(trace).answered <==> exists e | e in trace :: IsAnswer(e, r)
  {
    if trace != [] {
      var before, e := trace[..|trace| - 1], trace[|trace| - 1];
      LastEvent(trace);
      AnswerMeaning(before, r);
      AfterSets(Summarize(before), e, LocalRootPresent, r);
      assert e in trace;
    }
  }

  lemma AfterFlags(s: Summary, e: Event)
    ensures After(s, e).stopped <==> s.stopped || IsStopEvent(e)
    ensures After(s, e).failed <==> s.failed || (e.Joined? && IsFailure(e.answered, e.outcome))
  {
  }

  lemma {:induction false} StopMeaning(trace: Trace)
    ensures Summarize(trace).stopped <==> exists e | e in trace :: IsStopEvent(e)
  {
    if trace != [] {
      var before, e := trace[..|trace| - 1], trace[|trace| - 1];
      LastEvent(trace);
      StopMeaning(before);
      AfterFlags(Summarize(before), e);
      assert e in trace;
    }
  }

  /** An answer that is a failure, by name: not done, unless a path to delete or check is not there. */
  predicate Fails(e: Event) {
    && e.Joined? && e.outcome != Done
    && !(e.outcome == Failed(NotFound) && (e.answered.DeletePermanently? || e.answered.CheckMetadata?))
  }

  lemma {:induction false} FailureMeaning(trace: Trace)
    ensures Summarize(trace).failed <==> exists e | e in trace :: Fails(e)
  {
    if trace != [] {
      var before, e := trace[..|trace| - 1], trace[|trace| - 1];
      LastEvent(trace);
      FailureMeaning(before);
      AfterFlags(Summarize(before), e);
      assert e in trace;
    }
  }

  /** Each issued request is outstanding or answered; what is outstanding was issued. */
  predicate Accounted(s: Summary, r: Request) {
    && (r in s.issued ==> r in s.outstanding || r in s.answered)
    && (r in s.outstanding ==> r in s.issued)
  }

  lemma AfterAccounted(s: Summary, e: Event, r: Request)
    requires Accounted(s, r)
    ensures Accounted(After(s, e), r)
  {
    if e.Joined? && e.answered != r {
      assert (s.outstanding - multiset{e.answered})[r] == s.outstanding[r];
    }
  }

  lemma {:induction false} OutstandingMeaning(trace: Trace, r: Request)
    ensures Accounted(Summarize(trace), r)
  {
    if trace != [] {
      LastEvent(trace);
      OutstandingMeaning(trace[..|trace| - 1], r);
      AfterAccounted(Summarize(trace[..|trace| - 1]), trace[|trace| - 1], r);
    }
  }

  /** Without a failure, answered means done; for a delete or a check the path may also have been gone. */
  predicate AnsweredDone(s: Summary, r: Request) {
    && (r in s.done ==> r in s.answered)
    && (!s.failed && r in s.answered && (r.CreateDirectory? || r.Upload?) ==> r in s.done)
  }

  lemma AfterDone(s: Summary, e: Event, r: Request)
    requires AnsweredDone(s, r)
    ensures AnsweredDone(After(s, e), r)
  {
  }

  lemma {:induction false} DoneMeaning(trace: Trace, r: Request)
    ensures AnsweredDone(Summarize(trace), r)
  {
    if trace != [] {
      LastEvent(trace);
      DoneMeaning(trace[..|trace| - 1], r);
      AfterDone(Summarize(trace[..|trace| - 1]), trace[|trace| - 1], r);
    }
  }

  lemma NewlyDone(s: Summary, e: Event, r: Request)
    requires r !in s.done && r in After(s, e).done
    ensures e.Joined? && e == Joined(r, Done, e.excused)
  {
  }

  lemma {:induction false} DoneAnswered(trace: Trace, r: Request)
    requires r in Summarize(trace).done
    ensures exists excused :: Joined(r, Done, excused) in trace
  {
    var before, e := trace[..|trace| - 1], trace[|trace| - 1];
    if r in Summarize(before).done {
      DoneAnswered(before, r);
      var excused :| Joined(r, Done, excused) in before;
      assert Joined(r, Done, excused) in trace;
    } else {
      NewlyDone(Summarize(before), e, r);
      assert e in trace;
    }
  }

  /** The entry at p was inserted by a successful create or upload of p. */
  ghost predicate InsertedFromDone(s: Summary, p: Path) {
    && (CreateDirectory(p) in s.done ==> p in s.inserted)
    && (forall n :: Upload(p, n) in s.done ==> p in s.inserted)
    && (p in s.inserted && s.inserted[p] == Directory ==> CreateDirectory(p) in s.done)
    && (p in s.inserted && s.inserted[p] == File ==> exists n :: Upload(p, n) in s.done)
  }

  lemma AfterInserted(s: Summary, e: Event, p: Path)
    requires InsertedFromDone(s, p)
    ensures InsertedFromDone(After(s, e), p)
  {
    if e.Joined? && e.outcome.Done? {
      InsertedOne(s, After(s, e), e.answered, p);
    } else {
      InsertedSame(s, After(s, e), p);
    }
  }

  lemma InsertedOne(s: Summary, t: Summary, r: Request, p: Path)
    requires InsertedFromDone(s, p) && t.done == s.done + {r} && t.inserted == Insert(s.inserted, r)
    ensures InsertedFromDone(t, p)
  {
    assert r in t.done && s.done <= t.done;
  }

  lemma InsertedSame(s: Summary, t: Summary, p: Path)
    requires InsertedFromDone(s, p) && t.done == s.done && t.inserted == s.inserted
    ensures InsertedFromDone(t, p)
  {
  }

  lemma {:induction false} InsertedMeaning(trace: Trace, p: Path)
    ensures InsertedFromDone(Summarize(trace), p)
  {
    if trace != [] {
      LastEvent(trace);
      InsertedMeaning(trace[..|trace| - 1], p);
      AfterInserted(Summarize(trace[..|trace| - 1]), trace[|trace| - 1], p);
    }
  }

  const ALL_GUARDS := {LocalRootPresent, ScanSucceeded, NoCollision, InventoryLoaded, QuotaSufficient}

  /** No error or cancellation so far, and nothing in flight. */
  predicate Quiet(s: Summary) {
    s.outstanding == multiset{} && !s.stopped && !s.cancelled
  }

  /** Everything that must have happened before a permanent delete is issued. */
  predicate DeleteAllowed(before: Trace, fromCache: bool, p: Path) {
    var s := Summarize(before);
    && Quiet(s)
    && s.passed == ALL_GUARDS
    && (fromCache ==> before != [] && before[|before| - 1] == Joined(CheckMetadata(p), Done, false))
  }

  ghost predicate Gated(trace: Trace, fromCache: bool) {
    forall i | 0 <= i < |trace| && trace[i].Issued? && trace[i].request.DeletePermanently? ::
      DeleteAllowed(trace[..i], fromCache, trace[i].request.path)
  }

  /** The parent of c is a directory already, or its creation has been issued and joined. */
  predicate ParentReady(before: Summary, inventory: Tree, c: Path)
    requires c != []
  {
    || (Parent(c) in inventory && inventory[Parent(c)] == Directory)
    || CreateDirectory(Parent(c)) in before.answered
  }

  ghost predicate ParentsFirst(trace: Trace, inventory: Tree, root: Path) {
    forall i | 0 <= i < |trace| && trace[i].Issued? && trace[i].request.CreateDirectory? &&
      root < trace[i].request.path ::
      ParentReady(Summarize(trace[..i]), inventory, trace[i].request.path)
  }

  /** Each guard recorded as passed is one that holds. */
  ghost predicate GuardsTrue(trace: Trace, holds: set<Guard>) {
    forall e | e in trace && e.Passed? :: e.guard in holds
  }

  /**
   * The condition under which an event may be added.  `holds` are the guards that are true of
   * this run; `orderly` says whether parents must come first.
   */
  predicate MayEmit(trace: Trace, e: Event, fromCache: bool, inventory: Tree, root: Path, holds: set<Guard>,
                    orderly: bool)
  {
    && (e.Passed? ==> e.guard in holds)
    && (e.Issued? && e.request.DeletePermanently? ==> DeleteAllowed(trace, fromCache, e.request.path))
    && (orderly && e.Issued? && e.request.CreateDirectory? && root < e.request.path ==>
          ParentReady(Summarize(trace), inventory, e.request.path))
  }

  lemma EmitKeeps(trace: Trace, e: Event, fromCache: bool, inventory: Tree, root: Path, holds: set<Guard>,
                  orderly: bool)
    requires MayEmit(trace, e, fromCache, inventory, root, holds, orderly)
    requires Gated(trace, fromCache) && GuardsTrue(trace, holds)
    requires orderly ==> ParentsFirst(trace, inventory, root)
    ensures Gated(trace + [e], fromCache) && GuardsTrue(trace + [e], holds)
    ensures orderly ==> ParentsFirst(trace + [e], inventory, root)
  {
    var t := trace + [e];
    assert trace[..|trace|] == trace;
    assert forall i | 0 <= i <= |trace| :: t[..i] == trace[..i];
  }

  /**
   * What the gate says about a delete: every guard holds of the run and was passed before,
   * no cancellation and no stop error was seen, every request has been answered, and on a
   * cached inventory the very last event is the successful check of the same path.
   */
  lemma GatedMeans(trace: Trace, fromCache: bool, holds: set<Guard>, i: nat)
    requires Gated(trace, fromCache) && GuardsTrue(trace, holds) && i < |trace|
    requires trace[i].Issued? && trace[i].request.DeletePermanently?
    ensures var before := trace[..i];
      && (forall g: Guard :: g in holds && Passed(g) in before)
      && !Interrupted(before)
      && (forall r | Issued(r) in before :: exists e | e in before :: IsAnswer(e, r))
      && (fromCache ==> i > 0 && trace[i - 1] == Joined(CheckMetadata(trace[i].request.path), Done, false))
  {
    var before := trace[..i];
    forall g: Guard ensures g in holds && Passed(g) in before {
      PassedMeaning(before, g);
      assert g.LocalRootPresent? || g.ScanSucceeded? || g.NoCollision? || g.InventoryLoaded? || g.QuotaSufficient?;
      assert g in ALL_GUARDS;
      assert Passed(g) in trace;
    }
    InterruptedIff(before);
    forall r | Issued(r) in before ensures exists e | e in before :: IsAnswer(e, r) {
      IssuedMeaning(before, r);
      OutstandingMeaning(before, r);
      AnswerMeaning(before, r);
    }
  }

  /** A created directory hangs from a directory of the inventory or from one whose create has been answered. */
  lemma ParentsFirstMeans(trace: Trace, inventory: Tree, root: Path, i: nat)
    requires ParentsFirst(trace, inventory, root) && i < |trace|
    requires trace[i].Issued? && trace[i].request.CreateDirectory? && root < trace[i].request.path
    ensures var parent := Parent(trace[i].request.path);
      || (parent in inventory && inventory[parent] == Directory)
      || exists e | e in trace[..i] :: IsAnswer(e, CreateDirectory(parent))
  {
    AnswerMeaning(trace[..i], CreateDirectory(Parent(trace[i].request.path)));
  }

  predicate IsStopAnswer(e: Event) {
    e.Joined? && IsStopOutcome(e.outcome)
  }

  /** Deletes follow a trace without any stop error exactly when no stop error was excused. */
  lemma NoStopAnswerIff(before: Trace, fromCache: bool, p: Path)
    requires DeleteAllowed(before, fromCache, p)
    ensures (forall e | e in before :: !IsStopAnswer(e))
      <==> (forall e | e in before && e.Joined? && e.excused :: !IsStopAnswer(e))
  {
    StopMeaning(before);
    forall e | e in before && IsStopAnswer(e) ensures e.excused {
      assert !IsStopEvent(e);
    }
  }

  /** The trace once all guards have passed. */
  function GuardTrace(): Trace {
    [Passed(LocalRootPresent), Passed(ScanSucceeded), Passed(NoCollision), Passed(InventoryLoaded),
     Passed(QuotaSufficient)]
  }

  lemma GuardTraceSummary()
    ensures Summarize(GuardTrace()) == START.(passed := ALL_GUARDS)
  {
    var t0: Trace := [];
    SummarizeAppend(t0, Passed(LocalRootPresent));
    var t1 := t0 + [Passed(LocalRootPresent)];
    SummarizeAppend(t1, Passed(ScanSucceeded));
    var t2 := t1 + [Passed(ScanSucceeded)];
    SummarizeAppend(t2, Passed(NoCollision));
    var t3 := t2 + [Passed(NoCollision)];
    SummarizeAppend(t3, Passed(InventoryLoaded));
    var t4 := t3 + [Passed(InventoryLoaded)];
    SummarizeAppend(t4, Passed(QuotaSufficient));
    assert t4 + [Passed(QuotaSufficient)] == GuardTrace();
  }

  /** An upload fails for want of authorisation while its subtree vanishes: the deletes still go ahead. */
  lemma ExcusedStopStillDeletes(q: Path, p: Path)
    ensures var u := Upload(q, 1);
      var failed := Joined(u, Failed(AuthUnavailable), true);
      IsStopAnswer(failed) && DeleteAllowed(GuardTrace() + [Issued(u)] + [Tombstoned(q)] + [failed], false, p)
  {
    var u := Upload(q, 1);
    GuardTraceSummary();
    SummarizeAppend(GuardTrace(), Issued(u));
    SummarizeAppend(GuardTrace() + [Issued(u)], Tombstoned(q));
    SummarizeAppend(GuardTrace() + [Issued(u)] + [Tombstoned(q)], Joined(u, Failed(AuthUnavailable), true));
  }
}
