/**
 * The upload side of a migration: which remote files are adopted or resumed instead of
 * uploaded, and how the uploads stay within the quota.
 */
module MigrationUpload {
  import opened Paths
  import opened LiveScan
  import opened DeletePlan
  import opened Scanner
  import opened Migration
  import UploadBatch

  // ----- unsigned 64-bit sums that saturate

  const U64_MAX: nat := 0xffff_ffff_ffff_ffff

  function SatAdd(a: nat, b: nat): nat {
    if a + b <= U64_MAX then a + b else U64_MAX
  }

  function Sizes(batch: seq<FileEntry>): nat {
    if batch == [] then 0 else Sizes(batch[..|batch| - 1]) + batch[|batch| - 1].size
  }

  function SatSizes(batch: seq<FileEntry>): nat {
    if batch == [] then 0 else SatAdd(SatSizes(batch[..|batch| - 1]), batch[|batch| - 1].size)
  }

  lemma {:induction false} SatSizesIsCapped(batch: seq<FileEntry>)
    ensures SatSizes(batch) == if Sizes(batch) <= U64_MAX then Sizes(batch) else U64_MAX
  {
    if batch != [] {
      SatSizesIsCapped(batch[..|batch| - 1]);
    }
  }

  /** The check made before a file is queued. */
  predicate FitsQuota(uploaded: nat, batch: seq<FileEntry>, size: nat, available: nat) {
    SatAdd(SatAdd(uploaded, SatSizes(batch)), size) <= available
  }

  /** The saturating check is the plain one exactly if the true sum or the limit is below the 64-bit maximum. */
  lemma FitsQuotaIff(uploaded: nat, batch: seq<FileEntry>, size: nat, available: nat)
    requires uploaded <= U64_MAX && size <= U64_MAX && available <= U64_MAX
    ensures (FitsQuota(uploaded, batch, size, available) <==> uploaded + Sizes(batch) + size <= available)
      <==> available < 0xffff_ffff_ffff_ffff || uploaded + Sizes(batch) + size < 0x1_0000_0000_0000_0000
  {
    SatSizesIsCapped(batch);
  }

  lemma {:induction false} SizesConcat(a: seq<FileEntry>, b: seq<FileEntry>)
    ensures Sizes(a + b) == Sizes(a) + Sizes(b)
  {
    if b == [] {
      assert a + b == a;
    } else {
      SizesConcat(a, b[..|b| - 1]);
      assert (a + b)[..|a + b| - 1] == a + b[..|b| - 1];
    }
  }

  lemma {:induction false} SplitSizes(queue: seq<FileEntry>, room: nat, free: bool, large: FileEntry -> bool)
    ensures var x := UploadBatch.SplitQueue(queue, room, free, large);
      Sizes(x.selected) + Sizes(x.deferred) == Sizes(queue)
  {
    if queue != [] {
      var c := queue[0];
      SizesConcat([c], queue[1..]);
      assert [c] + queue[1..] == queue;
      if room > 0 && (!large(c) || free) {
        SplitSizes(queue[1..], room - 1, free && !large(c), large);
        SizesConcat([c], UploadBatch.SplitQueue(queue[1..], room - 1, free && !large(c), large).selected);
      } else {
        SplitSizes(queue[1..], room, free, large);
        SizesConcat([c], UploadBatch.SplitQueue(queue[1..], room, free, large).deferred);
      }
    }
  }

  // ----- the upload batch

  /** The byte counter: the sum of the sizes, capped at the 64-bit maximum. */
  function Capped(n: nat): nat {
    if n <= U64_MAX then n else U64_MAX
  }

  /** What becomes of an upload: done, skipped or failed, or failed with an error that ends the phase. */
  datatype Answer = Uploaded | NotUploaded | StopError

  /** Exactly the tried files that were answered with success are done. */
  ghost predicate DoneOf(answers: FileEntry -> Answer, tried: seq<FileEntry>, done: seq<FileEntry>) {
    forall f :: multiset(done)[f] == if answers(f) == Uploaded then multiset(tried)[f] else 0
  }

  ghost predicate NoStop(answers: FileEntry -> Answer, tried: seq<FileEntry>) {
    forall f | f in tried :: answers(f) != StopError
  }

  /** `upload_concurrency.max(1)` */
  function Limit(concurrency: nat): (n: nat)
    ensures n == 1 || n == concurrency
    ensures 1 <= n && concurrency <= n
  {
    if concurrency > 0 then concurrency else 1
  }

  /** At most `concurrency` uploads, one if that is zero, and at most one large file among them. */
  predicate FitsRound(scheduled: seq<FileEntry>, concurrency: nat, largeThreshold: nat) {
    && (|scheduled| <= 1 || |scheduled| <= concurrency)
    && forall i, j | 0 <= i < j < |scheduled| ::
      scheduled[i].size < largeThreshold || scheduled[j].size < largeThreshold
  }

  /** One round: each scheduled file is tried, in any order. */
  method UploadRound(answers: FileEntry -> Answer, scheduled: seq<FileEntry>, ghost concurrency: nat,
                     ghost largeThreshold: nat)
    returns (stop: bool, bytes: nat, done: seq<FileEntry>)
    requires FitsRound(scheduled, concurrency, largeThreshold)
    ensures DoneOf(answers, scheduled, done) && bytes == Capped(Sizes(done)) && Sizes(done) <= Sizes(scheduled)
    ensures stop <==> !NoStop(answers, scheduled)
  {
    stop, bytes, done := false, 0, [];
    var running := scheduled;
    ghost var joined := [];
    while running != []
      invariant BatchProgress(answers, scheduled, running, joined, done, bytes, stop)
      decreases |running|
    {
      var k :| 0 <= k < |running|;
      var f := running[k];
      JoinOne(answers, scheduled, running, joined, done, bytes, stop, k);
      running, joined := running[..k] + running[k + 1..], joined + [f];
      match answers(f) {
        case Uploaded => bytes, done := SatAdd(bytes, f.size), done + [f];
        case NotUploaded =>
        case StopError => stop := true;
      }
    }
    SameFilesTried(answers, joined, scheduled, done);
  }

  lemma JoinOne(answers: FileEntry -> Answer, scheduled: seq<FileEntry>, running: seq<FileEntry>,
                joined: seq<FileEntry>, done: seq<FileEntry>, bytes: nat, stop: bool, k: nat)
    requires BatchProgress(answers, scheduled, running, joined, done, bytes, stop) && k < |running|
    ensures var f, rest := running[k], running[..k] + running[k + 1..];
      match answers(f)
      case Uploaded =>
        BatchProgress(answers, scheduled, rest, joined + [f], done + [f], SatAdd(bytes, f.size), stop)
      case NotUploaded => BatchProgress(answers, scheduled, rest, joined + [f], done, bytes, stop)
      case StopError => BatchProgress(answers, scheduled, rest, joined + [f], done, bytes, true)
  {
    var f, rest := running[k], running[..k] + running[k + 1..];
    var more := if answers(f) == Uploaded then [f] else [];
    RemoveSize(running, k);
    assert Sizes([f]) == f.size;
    assert multiset([f]) == multiset{f} && (NoStop(answers, [f]) <==> answers(f) != StopError) by {
      assert f in [f];
    }
    RoundStep(answers, scheduled, running, joined, done, bytes, stop, [f], rest, more, answers(f) == StopError);
    assert done + [] == done;
  }

  lemma SameFilesTried(answers: FileEntry -> Answer, a: seq<FileEntry>, b: seq<FileEntry>, done: seq<FileEntry>)
    requires multiset(a) == multiset(b)
    ensures DoneOf(answers, a, done) <==> DoneOf(answers, b, done)
    ensures NoStop(answers, a) <==> NoStop(answers, b)
  {
    forall f ensures f in a <==> f in b {
      assert f in a <==> f in multiset(a);
      assert f in b <==> f in multiset(b);
    }
  }

  lemma MoreTried(answers: FileEntry -> Answer, a: seq<FileEntry>, b: seq<FileEntry>, done: seq<FileEntry>,
                  more: seq<FileEntry>)
    requires DoneOf(answers, a, done) && DoneOf(answers, b, more)
    ensures DoneOf(answers, a + b, done + more)
    ensures NoStop(answers, a + b) <==> NoStop(answers, a) && NoStop(answers, b)
  {
    forall f ensures multiset(done + more)[f] == multiset(done)[f] + multiset(more)[f]
                  && multiset(a + b)[f] == multiset(a)[f] + multiset(b)[f] {
    }
    forall f ensures f in a + b <==> f in a || f in b {
    }
  }

  lemma RemoveSize(batch: seq<FileEntry>, k: nat)
    requires k < |batch|
    ensures var rest := batch[..k] + batch[k + 1..];
      Sizes(rest) + batch[k].size == Sizes(batch) && multiset(rest) + multiset{batch[k]} == multiset(batch)
  {
    SizesConcat(batch[..k], batch[k + 1..]);
    SizesConcat(batch[..k], [batch[k]]);
    SizesConcat(batch[..k] + [batch[k]], batch[k + 1..]);
    assert batch == batch[..k] + [batch[k]] + batch[k + 1..];
  }

  /** Rounds until the batch is empty; a stop error does not end the rounds, it is reported at the end. */
  method ApplyMigrationUploadBatch(answers: FileEntry -> Answer, batch: seq<FileEntry>, concurrency: nat,
                                   largeThreshold: nat)
    returns (stop: bool, bytes: nat, tried: seq<FileEntry>, done: seq<FileEntry>)
    ensures multiset(tried) == multiset(batch) && DoneOf(answers, tried, done)
    ensures bytes == Capped(Sizes(done)) && Sizes(done) <= Sizes(batch)
    ensures stop <==> !NoStop(answers, tried)
  {
    stop, bytes, tried, done := false, 0, [], [];
    var pending := batch;
    var limit := Limit(concurrency);
    while pending != []
      invariant BatchProgress(answers, batch, pending, tried, done, bytes, stop)
      decreases |pending|
    {
      var large := (f: FileEntry) => f.size >= largeThreshold;
      var scheduled, deferred := UploadBatch.TakeBatch(pending, limit, large);
      RoundSplit(pending, limit, largeThreshold, large);
      var roundStop, n;
      var more;
      roundStop, n, more := UploadRound(answers, scheduled, concurrency, largeThreshold);
      RoundStep(answers, batch, pending, tried, done, bytes, stop, scheduled, deferred, more, roundStop);
      stop := stop || roundStop;
      bytes, tried, done := SatAdd(bytes, n), tried + scheduled, done + more;
      pending := deferred;
    }
  }

  /** Where the rounds are: what was tried and what is pending make up the batch. */
  ghost predicate BatchProgress(answers: FileEntry -> Answer, batch: seq<FileEntry>, pending: seq<FileEntry>,
                                tried: seq<FileEntry>, done: seq<FileEntry>, bytes: nat, stop: bool)
  {
    && multiset(tried) + multiset(pending) == multiset(batch)
    && DoneOf(answers, tried, done) && (stop <==> !NoStop(answers, tried))
    && Sizes(done) + Sizes(pending) <= Sizes(batch) && bytes == Capped(Sizes(done))
  }

  lemma RoundStep(answers: FileEntry -> Answer, batch: seq<FileEntry>, pending: seq<FileEntry>,
                  tried: seq<FileEntry>, done: seq<FileEntry>, bytes: nat, stop: bool, scheduled: seq<FileEntry>,
                  deferred: seq<FileEntry>, more: seq<FileEntry>, roundStop: bool)
    requires BatchProgress(answers, batch, pending, tried, done, bytes, stop)
    requires multiset(scheduled) + multiset(deferred) == multiset(pending)
    requires Sizes(scheduled) + Sizes(deferred) == Sizes(pending) && Sizes(more) <= Sizes(scheduled)
    requires DoneOf(answers, scheduled, more) && (roundStop <==> !NoStop(answers, scheduled))
    ensures BatchProgress(answers, batch, deferred, tried + scheduled, done + more,
                          SatAdd(bytes, Capped(Sizes(more))), stop || roundStop)
  {
    SizesConcat(done, more);
    MoreTried(answers, tried, scheduled, done, more);
    assert multiset(tried + scheduled) == multiset(tried) + multiset(scheduled);
  }

  /** A round takes at least one file off the queue and loses none. */
  lemma RoundSplit(queue: seq<FileEntry>, limit: nat, largeThreshold: nat, large: FileEntry -> bool)
    requires limit > 0 && queue != [] && forall f :: large(f) <==> f.size >= largeThreshold
    ensures var x := UploadBatch.SplitQueue(queue, limit, true, large);
      && (forall n: nat | limit == 1 || limit <= n :: FitsRound(x.selected, n, largeThreshold))
      && |x.deferred| < |queue|
      && multiset(x.selected) + multiset(x.deferred) == multiset(queue)
      && Sizes(x.selected) + Sizes(x.deferred) == Sizes(queue)
  {
    SplitSizes(queue, limit, true, large);
    UploadBatch.SplitCounts(queue, limit, true, large);
    UploadBatch.SplitKeepsAll(queue, limit, true, large);
    UploadBatch.OneLarge(UploadBatch.SplitQueue(queue, limit, true, large).selected, large);
    assert UploadBatch.SplitQueue(queue, limit, true, large).selected != [];
  }

  // ----- adopting and resuming

  datatype StateStatus = Synced | SyncedChangedDuringUpload | Skipped | DeletedState | OtherState

  /** A row of the file-state table, with what resuming looks at besides the scanner's part. */
  datatype StateRow = StateRow(state: FileState, status: StateStatus, remote: Path)

  /** How a remote file compares: decided, or only by reading both contents. */
  datatype MatchOutcome = Decided(matches: bool) | CompareContents

  function RemoteMatchesLocal(f: FileEntry, remote: Meta, fullHashMax: nat): MatchOutcome {
    if remote.kind != File || remote.size != Some(f.size) then Decided(false)
    else if f.size <= fullHashMax then
      if remote.md5.Some? then
        Decided(f.fingerprint.localMd5.Some? && EqIgnoreAsciiCase(f.fingerprint.localMd5.value, remote.md5.value))
      else CompareContents
    else Decided(true)
  }

  predicate SameRecord(previous: StateRow, f: FileEntry) {
    && previous.remote == f.remote && previous.state.normalized == f.normalized
    && previous.state.size == SaturateI64(f.size) && previous.state.mtime == f.mtime
    && previous.state.kind == f.fingerprint.kind && previous.state.value == Some(f.fingerprint.value)
    && previous.state.fullSha256 == f.fingerprint.fullSha256
  }

  predicate CanResumeSyncedFile(previous: StateRow, f: FileEntry, remote: Meta, fullHashMax: nat) {
    if !previous.status.Synced? || !SameRecord(previous, f) then false
    else if remote.kind != File || remote.size != Some(f.size) then false
    else if f.size <= fullHashMax then
      if remote.md5.None? then false
      else if f.fingerprint.localMd5.Some? then EqIgnoreAsciiCase(f.fingerprint.localMd5.value, remote.md5.value)
      else if previous.state.remoteMd5.Some? then EqIgnoreAsciiCase(previous.state.remoteMd5.value, remote.md5.value)
      else false
    else true
  }

  /** The row written for a file, with the digest the remote has or is given. */
  function RowWritten(f: FileEntry, status: StateStatus, md5: Option<string>): StateRow {
    var p := f.fingerprint;
    StateRow(FileState(SaturateI64(f.size), f.mtime, f.normalized, p.kind, Some(p.value), p.fullSha256, md5), status,
             f.remote)
  }

  /**
   * After a row was written for g, a file f is resumed exactly if the row says synced, f has all
   * that was recorded of g, and the remote has its size and, if it is small, its digest; a file
   * without local digest goes by the one recorded.  Sizes from 2^63 - 1 on are recorded alike.
   */
  lemma ResumeIff(g: FileEntry, status: StateStatus, md5: Option<string>, f: FileEntry, remote: Meta, fullHashMax: nat)
    ensures CanResumeSyncedFile(RowWritten(g, status, md5), f, remote, fullHashMax) <==>
      var digest := if f.fingerprint.localMd5.Some? then f.fingerprint.localMd5 else md5;
      && status == Synced && f.remote == g.remote && f.normalized == g.normalized && f.mtime == g.mtime
      && (f.size == g.size || (f.size >= TWO_63 - 1 && g.size >= TWO_63 - 1))
      && f.fingerprint.kind == g.fingerprint.kind && f.fingerprint.value == g.fingerprint.value
      && f.fingerprint.fullSha256 == g.fingerprint.fullSha256
      && remote.kind == File && remote.size == Some(f.size)
      && (f.size > fullHashMax || (digest.Some? && remote.md5.Some? && Lower(digest.value) == Lower(remote.md5.value)))
  {
    if remote.md5.Some? && f.fingerprint.localMd5.Some? {
      EqIsLower(f.fingerprint.localMd5.value, remote.md5.value);
    } else if remote.md5.Some? && md5.Some? {
      EqIsLower(md5.value, remote.md5.value);
    }
  }

  /** Resuming agrees with the full comparison exactly if a small file has a local digest. */
  lemma ResumeRefinesMatchIff(previous: StateRow, f: FileEntry, remote: Meta, fullHashMax: nat)
    requires CanResumeSyncedFile(previous, f, remote, fullHashMax)
    ensures RemoteMatchesLocal(f, remote, fullHashMax) == Decided(true)
      <==> f.size > fullHashMax || f.fingerprint.localMd5.Some?
  {
  }

  /** What the scanner says about digests. */
  lemma ScannedDigests(cfg: Settings, states: States, local: Path, size: nat, mtime: Option<int>)
    requires FileEntryOf(cfg, states, local, size, mtime).Some?
    ensures var f := FileEntryOf(cfg, states, local, size, mtime).value;
      && (f.fingerprint.reusedFromState ==> f.rel in states && f.fingerprint.localMd5 == states[f.rel].remoteMd5)
      && (!f.fingerprint.reusedFromState && size <= cfg.fullHashMax ==> f.fingerprint.localMd5.Some?)
  {
  }

  /** On what the scanner produces from the same table, the fast path never says more than the comparison. */
  lemma ResumeRefinesMatch(cfg: Settings, states: States, previous: StateRow, f: FileEntry, remote: Meta,
                           size: nat, mtime: Option<int>)
    requires FileEntryOf(cfg, states, f.local, size, mtime) == Some(f)
    requires f.rel in states && previous.state == states[f.rel]
    requires CanResumeSyncedFile(previous, f, remote, cfg.fullHashMax)
    ensures RemoteMatchesLocal(f, remote, cfg.fullHashMax) == Decided(true)
  {
    ScannedDigests(cfg, states, f.local, size, mtime);
    ResumeRefinesMatchIff(previous, f, remote, cfg.fullHashMax);
  }

  // ----- the phase

  /**
   * What the phase looks at: the canonical inventory, the file-state rows, and the answers
   * of the outside world for each file at the moment it is considered.
   */
  datatype AdoptView = AdoptView(canonical: Inventory, previous: map<Path, StateRow>, fullHashMax: nat,
                                 gone: FileEntry -> bool, readable: FileEntry -> bool,
                                 sameContent: FileEntry -> Comparison,
                                 cancelled: FileEntry -> bool, answers: FileEntry -> Answer)

  datatype Decision = Gone | Unreadable | Resumed | Adopted | NeedsUpload | Fatal

  function Decide(view: AdoptView, f: FileEntry): Decision {
    if view.gone(f) then Gone
    else if !view.readable(f) then Unreadable
    else if !IsFile(view.canonical, f.remote) then NeedsUpload
    else
      var remote := view.canonical[f.remote];
      if f.rel in view.previous && CanResumeSyncedFile(view.previous[f.rel], f, remote, view.fullHashMax) then Resumed
      else
        match RemoteMatchesLocal(f, remote, view.fullHashMax)
        case Decided(matches) => if matches then Adopted else NeedsUpload
        case CompareContents =>
          match view.sameContent(f)
          case FileError => Unreadable
          case FatalError => Fatal
          case Same => Adopted
          case Different => NeedsUpload
  }

  /** The table the view was read from is the one the scanner used for this file. */
  ghost predicate ScannedFromSameTable(view: AdoptView, cfg: Settings, states: States, f: FileEntry) {
    && view.fullHashMax == cfg.fullHashMax
    && (exists size, mtime :: FileEntryOf(cfg, states, f.local, size, mtime) == Some(f))
    && (f.rel in view.previous ==> f.rel in states && view.previous[f.rel].state == states[f.rel])
  }

  /** A file is left alone only if the remote has a file there that matches, by digest, size or content. */
  lemma LeftAloneMatches(view: AdoptView, cfg: Settings, states: States, f: FileEntry)
    requires ScannedFromSameTable(view, cfg, states, f)
    requires Decide(view, f).Resumed? || Decide(view, f).Adopted?
    ensures IsFile(view.canonical, f.remote)
    ensures var outcome := RemoteMatchesLocal(f, view.canonical[f.remote], view.fullHashMax);
      outcome == Decided(true) || (outcome == CompareContents && view.sameContent(f) == Same)
  {
    if Decide(view, f).Resumed? {
      var size, mtime :| FileEntryOf(cfg, states, f.local, size, mtime) == Some(f);
      ResumeRefinesMatch(cfg, states, view.previous[f.rel], f, view.canonical[f.remote], size, mtime);
    }
  }

  /**
   * The same on the data: the sizes agree; a small file agrees with a remote digest up to the
   * case of ASCII letters, and without one its content was compared.
   */
  lemma LeftAloneAgrees(view: AdoptView, cfg: Settings, states: States, f: FileEntry)
    requires ScannedFromSameTable(view, cfg, states, f)
    requires Decide(view, f).Resumed? || Decide(view, f).Adopted?
    ensures f.remote in view.canonical && view.canonical[f.remote].kind == File && !view.gone(f) && view.readable(f)
    ensures view.canonical[f.remote].size == Some(f.size)
    ensures var digest := view.canonical[f.remote].md5;
      && (f.size <= view.fullHashMax && digest.Some? ==>
            f.fingerprint.localMd5.Some? && Lower(f.fingerprint.localMd5.value) == Lower(digest.value))
      && (f.size <= view.fullHashMax && digest.None? ==> view.sameContent(f) == Same)
  {
    LeftAloneMatches(view, cfg, states, f);
    var digest := view.canonical[f.remote].md5;
    if f.fingerprint.localMd5.Some? && digest.Some? {
      EqIsLower(f.fingerprint.localMd5.value, digest.value);
    }
  }

  /** A readable file is uploaded if the remote has no file there, one of another size or another digest. */
  lemma DifferingIsUploaded(view: AdoptView, files: seq<FileEntry>, f: FileEntry)
    requires f in files && !view.gone(f) && view.readable(f)
    requires f.remote in view.canonical && view.canonical[f.remote].kind == File ==>
      var remote := view.canonical[f.remote];
      || remote.size != Some(f.size)
      || (f.size <= view.fullHashMax && remote.md5.Some? && f.fingerprint.localMd5.Some?
            && Lower(f.fingerprint.localMd5.value) != Lower(remote.md5.value))
    ensures f in Uploads(view, files)
  {
    if IsFile(view.canonical, f.remote) {
      var digest := view.canonical[f.remote].md5;
      if f.fingerprint.localMd5.Some? && digest.Some? {
        EqIsLower(f.fingerprint.localMd5.value, digest.value);
      }
    }
    UploadsMembers(view, files, f);
  }

  /** A scanned file is uploaded exactly if it is there, can be read and the remote has no file that matches it. */
  lemma UploadedIff(view: AdoptView, cfg: Settings, states: States, files: seq<FileEntry>, f: FileEntry)
    requires ScannedFromSameTable(view, cfg, states, f)
    ensures f in Uploads(view, files) <==>
      && f in files && !view.gone(f) && view.readable(f)
      && (|| f.remote !in view.canonical || view.canonical[f.remote].kind == Directory
          || view.canonical[f.remote].size != Some(f.size)
          || (f.size <= view.fullHashMax &&
                match view.canonical[f.remote].md5
                case Some(digest) =>
                  f.fingerprint.localMd5.None? || Lower(f.fingerprint.localMd5.value) != Lower(digest)
                case None => view.sameContent(f) == Different))
  {
    UploadsMembers(view, files, f);
    if f.remote in view.canonical && view.canonical[f.remote].md5.Some? && f.fingerprint.localMd5.Some? {
      EqIsLower(f.fingerprint.localMd5.value, view.canonical[f.remote].md5.value);
    }
    if Decide(view, f).Resumed? {
      LeftAloneAgrees(view, cfg, states, f);
    }
  }

  /** The next run resumes what was adopted, without a comparison, exactly if it is large or the remote has a digest. */
  lemma AdoptedIsResumedIff(view: AdoptView, f: FileEntry)
    requires Decide(view, f).Adopted?
    ensures var remote := view.canonical[f.remote];
      var next := view.(previous := view.previous[f.rel := RowWritten(f, Synced, remote.md5)]);
      Decide(next, f).Resumed? <==> f.size > view.fullHashMax || remote.md5.Some?
  {
    var remote := view.canonical[f.remote];
    ResumeIff(f, Synced, remote.md5, f, remote, view.fullHashMax);
    if remote.md5.Some? && f.fingerprint.localMd5.Some? {
      EqIsLower(f.fingerprint.localMd5.value, remote.md5.value);
    }
  }

  lemma {:induction false} UploadsMembers(view: AdoptView, files: seq<FileEntry>, f: FileEntry)
    ensures f in Uploads(view, files) <==> f in files && Decide(view, f).NeedsUpload?
  {
    if files != [] {
      UploadsMembers(view, files[..|files| - 1], f);
      assert files == files[..|files| - 1] + [files[|files| - 1]];
    }
  }

  /** The files to upload, in scan order. */
  function Uploads(view: AdoptView, files: seq<FileEntry>): seq<FileEntry> {
    if files == [] then []
    else
      var last := files[|files| - 1];
      Uploads(view, files[..|files| - 1]) + (if Decide(view, last).NeedsUpload? then [last] else [])
  }

  /** What the quota promises, as long as it is below the 64-bit maximum. */
  predicate WithinQuota(available: Option<nat>, done: seq<FileEntry>, batch: seq<FileEntry>) {
    available.Some? && available.value < U64_MAX ==> Sizes(done) + Sizes(batch) <= available.value
  }

  /** The state of the phase after the files in `seen`. */
  ghost predicate AdoptProgress(view: AdoptView, seen: seq<FileEntry>, available: Option<nat>, bytes: nat,
                                batch: seq<FileEntry>, tried: seq<FileEntry>, done: seq<FileEntry>)
  {
    && WithinQuota(available, done, batch)
    && bytes == Capped(Sizes(done)) && DoneOf(view.answers, tried, done)
    && multiset(tried) + multiset(batch) == multiset(Uploads(view, seen))
  }

  lemma QueueStep(view: AdoptView, files: seq<FileEntry>, i: nat, available: Option<nat>, bytes: nat,
                  batch: seq<FileEntry>, tried: seq<FileEntry>, done: seq<FileEntry>)
    requires i < |files| && AdoptProgress(view, files[..i], available, bytes, batch, tried, done)
    requires available.Some? ==> available.value <= U64_MAX
    requires files[i].size <= U64_MAX
    ensures var f, seen := files[i], files[..i + 1];
      && (!Decide(view, f).NeedsUpload? ==> AdoptProgress(view, seen, available, bytes, batch, tried, done))
      && (Decide(view, f).NeedsUpload? && (available.Some? ==> FitsQuota(bytes, batch, f.size, available.value)) ==>
            AdoptProgress(view, seen, available, bytes, batch + [f], tried, done))
  {
    assert files[..i + 1][..i] == files[..i];
    SizesConcat(batch, [files[i]]);
    if available.Some? {
      FitsQuotaIff(bytes, batch, files[i].size, available.value);
    }
  }

  lemma FlushStep(view: AdoptView, seen: seq<FileEntry>, available: Option<nat>, bytes: nat, batch: seq<FileEntry>,
                  tried: seq<FileEntry>, done: seq<FileEntry>, n: nat, moreTried: seq<FileEntry>,
                  moreDone: seq<FileEntry>)
    requires AdoptProgress(view, seen, available, bytes, batch, tried, done)
    requires multiset(moreTried) == multiset(batch) && DoneOf(view.answers, moreTried, moreDone)
    requires n == Capped(Sizes(moreDone)) && Sizes(moreDone) <= Sizes(batch)
    ensures AdoptProgress(view, seen, available, SatAdd(bytes, n), [], tried + moreTried, done + moreDone)
    ensures NoStop(view.answers, tried + moreTried) <==>
      NoStop(view.answers, tried) && NoStop(view.answers, moreTried)
  {
    SizesConcat(done, moreDone);
    MoreTried(view.answers, tried, moreTried, done, moreDone);
    assert multiset(tried + moreTried) == multiset(tried) + multiset(moreTried);
  }

  /** The file does not fit the quota beside what was uploaded and is queued. */
  predicate OverQuota(view: AdoptView, f: FileEntry, available: Option<nat>, bytes: nat, queued: seq<FileEntry>) {
    Decide(view, f).NeedsUpload? && available.Some? && !FitsQuota(bytes, queued, f.size, available.value)
  }

  /** Nothing has ended the phase at these files. */
  ghost predicate Unstopped(view: AdoptView, seen: seq<FileEntry>, tried: seq<FileEntry>) {
    && (forall f | f in seen :: !view.cancelled(f) && !Decide(view, f).Fatal?)
    && NoStop(view.answers, tried)
  }

  /**
   * The phase over all live files.  Whenever it ends, uploaded and queued bytes are within the
   * quota and exactly the successful uploads are counted.  It goes on to the end exactly if
   * there was no cancellation, no error in a comparison, no stop error of an upload and no file
   * over the quota; then exactly the files that need it were tried, each once.
   */
  method ApplyAdoptOrUpload(view: AdoptView, files: seq<FileEntry>, available: Option<nat>, concurrency: nat,
                            largeThreshold: nat)
    returns (flow: Flow, bytes: nat, queued: seq<FileEntry>, tried: seq<FileEntry>, done: seq<FileEntry>)
    requires available.Some? ==> available.value <= U64_MAX
    requires forall f | f in files :: f.size <= U64_MAX
    ensures available.Some? && available.value < U64_MAX ==> Sizes(done) + Sizes(queued) <= available.value
    ensures bytes == Capped(Sizes(done)) && DoneOf(view.answers, tried, done)
    ensures |queued| < concurrency || queued == []
    ensures flow.Continue? ==> queued == [] && multiset(tried) == multiset(Uploads(view, files))
    ensures flow.Continue? ==> Unstopped(view, files, tried)
    ensures flow.Aborted? ==> exists f | f in files :: Decide(view, f).Fatal? && !view.cancelled(f)
    ensures flow.Stopped? && NoStop(view.answers, tried) ==>
      exists f | f in files :: view.cancelled(f) || OverQuota(view, f, available, bytes, queued)
  {
    flow, bytes, queued, tried, done := Continue, 0, [], [], [];
    for i := 0 to |files|
      invariant AdoptProgress(view, files[..i], available, bytes, queued, tried, done)
      invariant flow.Continue? && Unstopped(view, files[..i], tried) && |queued| < Limit(concurrency)
    {
      assert files[i] in files;
      assert files[..i + 1] == files[..i] + [files[i]];
      flow, bytes, queued, tried, done :=
        AdoptFile(view, files, i, available, bytes, queued, tried, done, concurrency, largeThreshold);
      if !flow.Continue? {
        return;
      }
    }
    assert files[..|files|] == files;
    if queued != [] {
      var stop;
      stop, bytes, tried, done :=
        Flush(view, files, available, bytes, queued, tried, done, concurrency, largeThreshold);
      queued := [];
      flow := if stop then Stopped else Continue;
    }
  }

  /** One file: left alone, queued, or queued and the queue uploaded. */
  method AdoptFile(view: AdoptView, files: seq<FileEntry>, i: nat, available: Option<nat>, bytes: nat,
                   queued: seq<FileEntry>, tried: seq<FileEntry>, done: seq<FileEntry>, concurrency: nat,
                   largeThreshold: nat)
    returns (flow: Flow, bytes': nat, queued': seq<FileEntry>, tried': seq<FileEntry>, done': seq<FileEntry>)
    requires i < |files| && AdoptProgress(view, files[..i], available, bytes, queued, tried, done)
    requires (available.Some? ==> available.value <= U64_MAX) && files[i].size <= U64_MAX
    requires NoStop(view.answers, tried)
    ensures AdoptProgress(view, files[..if flow.Continue? then i + 1 else i], available, bytes', queued', tried', done')
      || (flow.Stopped? && AdoptProgress(view, files[..i + 1], available, bytes', queued', tried', done'))
    ensures flow.Aborted? <==> Decide(view, files[i]).Fatal? && !view.cancelled(files[i])
    requires |queued| < Limit(concurrency)
    ensures |queued'| < Limit(concurrency)
    ensures flow.Continue? && |queued| + 1 < Limit(concurrency) ==>
      tried' == tried && queued' == if Decide(view, files[i]).NeedsUpload? then queued + [files[i]] else queued
    ensures flow.Stopped? <==>
      view.cancelled(files[i]) || OverQuota(view, files[i], available, bytes, queued) || !NoStop(view.answers, tried')
    ensures view.cancelled(files[i]) || OverQuota(view, files[i], available, bytes, queued) ==>
      bytes' == bytes && queued' == queued
  {
    var f := files[i];
    bytes', queued', tried', done' := bytes, queued, tried, done;
    QueueStep(view, files, i, available, bytes, queued, tried, done);
    if view.cancelled(f) {
      flow := Stopped;
    } else if Decide(view, f).Fatal? {
      flow := Aborted;
    } else if !Decide(view, f).NeedsUpload? {
      flow := Continue;
    } else if available.Some? && !FitsQuota(bytes, queued, f.size, available.value) {
      flow := Stopped;
    } else {
      flow, queued' := Continue, queued + [f];
      if |queued'| >= Limit(concurrency) {
        var stop;
        stop, bytes', tried', done' :=
          Flush(view, files[..i + 1], available, bytes, queued', tried, done, concurrency, largeThreshold);
        queued' := [];
        flow := if stop then Stopped else Continue;
      }
    }
  }

  /** Uploads the queue. */
  method Flush(view: AdoptView, ghost seen: seq<FileEntry>, ghost available: Option<nat>, bytes: nat,
               batch: seq<FileEntry>,
               tried: seq<FileEntry>, done: seq<FileEntry>, concurrency: nat, largeThreshold: nat)
    returns (stop: bool, bytes': nat, tried': seq<FileEntry>, done': seq<FileEntry>)
    requires AdoptProgress(view, seen, available, bytes, batch, tried, done) && NoStop(view.answers, tried)
    ensures AdoptProgress(view, seen, available, bytes', [], tried', done')
    ensures stop <==> !NoStop(view.answers, tried')
  {
    var n;
    var moreTried, moreDone;
    stop, n, moreTried, moreDone := ApplyMigrationUploadBatch(view.answers, batch, concurrency, largeThreshold);
    FlushStep(view, seen, available, bytes, batch, tried, done, n, moreTried, moreDone);
    bytes', tried', done' := SatAdd(bytes, n), tried + moreTried, done + moreDone;
  }
}
