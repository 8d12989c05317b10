/**
 * The run lock: one row of a table, taken over when its last heartbeat is too old.  Times
 * are nanoseconds; the row keeps whole seconds.  Acquiring is two statements, an insert and,
 * if that fails, a replacement of a stale row; statements of other sessions may come between
 * them, so histories are sequences of statements.
 */
module RunLock {
  import opened Paths

  datatype LockRow = LockRow(owner: string, heartbeat: int)

  const NANOS: int := 1_000_000_000

  function UnixSeconds(now: int): int {
    now / NANOS
  }

  /** `Duration::whole_seconds`: drops the fraction; stale limits are not negative. */
  function WholeSeconds(d: nat): nat {
    d / NANOS
  }

  datatype Step =
    | Insert(owner: string, now: int)
    | Replace(owner: string, now: int, staleAfter: nat)
    | Heartbeat(owner: string, now: int)
    | Release(owner: string)

  /** The heartbeat is more than the stale limit before the whole second of `now`. */
  predicate Stale(row: LockRow, now: int, staleAfter: nat) {
    row.heartbeat < UnixSeconds(now) - WholeSeconds(staleAfter)
  }

  predicate Succeeds(row: Option<LockRow>, step: Step) {
    match step
    case Insert(_, _) => row.None?
    case Replace(_, now, stale) => row.Some? && Stale(row.value, now, stale)
    case Heartbeat(owner, _) => row.Some? && row.value.owner == owner
    case Release(owner) => row.Some? && row.value.owner == owner
  }

  function Next(row: Option<LockRow>, step: Step): Option<LockRow> {
    if !Succeeds(row, step) then row
    else
      match step
      case Insert(owner, now) => Some(LockRow(owner, UnixSeconds(now)))
      case Replace(owner, now, _) => Some(LockRow(owner, UnixSeconds(now)))
      case Heartbeat(owner, now) => Some(LockRow(owner, UnixSeconds(now)))
      case Release(_) => None
  }

  class StateLocks {
    var row: Option<LockRow>

    constructor ()
      ensures row == None
    {
      row := None;
    }

    method InsertRow(owner: string, now: int) returns (inserted: bool)
      modifies this
      ensures row == Next(old(row), Insert(owner, now)) && inserted == Succeeds(old(row), Insert(owner, now))
    {
      inserted := row.None?;
      if inserted {
        row := Some(LockRow(owner, UnixSeconds(now)));
      }
    }

    method ReplaceStaleRow(owner: string, now: int, staleAfter: nat) returns (replaced: bool)
      modifies this
      ensures row == Next(old(row), Replace(owner, now, staleAfter))
      ensures replaced == Succeeds(old(row), Replace(owner, now, staleAfter))
    {
      var staleBefore := UnixSeconds(now) - WholeSeconds(staleAfter);
      replaced := row.Some? && row.value.heartbeat < staleBefore;
      if replaced {
        row := Some(LockRow(owner, UnixSeconds(now)));
      }
    }

    /** Without interference: the lock is taken exactly if it is free or stale. */
    method TryAcquireRunLock(owner: string, now: int, staleAfter: nat) returns (acquired: bool)
      modifies this
      ensures acquired <==> old(row).None? || Stale(old(row).value, now, staleAfter)
      ensures row == if acquired then Some(LockRow(owner, UnixSeconds(now))) else old(row)
    {
      acquired := InsertRow(owner, now);
      if !acquired {
        acquired := ReplaceStaleRow(owner, now, staleAfter);
      }
    }

    method HeartbeatRunLock(owner: string, now: int) returns (updated: bool)
      modifies this
      ensures row == Next(old(row), Heartbeat(owner, now))
      ensures updated == Succeeds(old(row), Heartbeat(owner, now))
    {
      updated := row.Some? && row.value.owner == owner;
      if updated {
        row := Some(row.value.(heartbeat := UnixSeconds(now)));
      }
    }

    method ReleaseRunLock(owner: string) returns (deleted: bool)
      modifies this
      ensures row == Next(old(row), Release(owner))
      ensures deleted == Succeeds(old(row), Release(owner))
    {
      deleted := row.Some? && row.value.owner == owner;
      if deleted {
        row := None;
      }
    }
  }

  /**
   * Exactly when a lock may be taken over, by whole seconds: surely if its last beat is older
   * than the limit by a second, and surely not if it is younger by a second.
   */
  lemma StaleIsTaken(row: LockRow, beat: int, now: int, staleAfter: nat)
    requires row.heartbeat == UnixSeconds(beat)
    ensures Stale(row, now, staleAfter) <==>
      now >= (beat / 1_000_000_000 + staleAfter / 1_000_000_000 + 1) * 1_000_000_000
    ensures now - beat >= staleAfter + 1_000_000_000 ==> Stale(row, now, staleAfter)
    ensures now - beat <= staleAfter - 1_000_000_000 ==> !Stale(row, now, staleAfter)
    ensures staleAfter % 1_000_000_000 == 0 && now - beat <= staleAfter ==> !Stale(row, now, staleAfter)
  {
    var limit := WholeSeconds(staleAfter);
    assert UnixSeconds(beat) * NANOS <= beat < (UnixSeconds(beat) + 1) * NANOS;
    assert UnixSeconds(now) * NANOS <= now < (UnixSeconds(now) + 1) * NANOS;
    if now - beat >= (limit + 1) * NANOS {
      assert (UnixSeconds(now) + 1) * NANOS > (UnixSeconds(beat) + limit + 1) * NANOS;
    }
    if Stale(row, now, staleAfter) {
      StaleIsOld(row, beat, now, staleAfter);
    }
  }

  // ----- histories

  type History = seq<Step>

  function RowAfter(h: History): Option<LockRow> {
    if h == [] then None else Next(RowAfter(h[..|h| - 1]), h[|h| - 1])
  }

  predicate Holds(h: History, owner: string) {
    RowAfter(h).Some? && RowAfter(h).value.owner == owner
  }

  /** Step b is the owner's last successful beat before step j: an acquisition or a heartbeat. */
  ghost predicate LastBeat(h: History, b: nat, j: nat, owner: string) {
    && b < j <= |h| && (h[b].Insert? || h[b].Replace? || h[b].Heartbeat?) && h[b].owner == owner
    && Succeeds(RowAfter(h[..b]), h[b])
    && forall m | b < m < j :: !Succeeds(RowAfter(h[..m]), h[m])
  }

  /** The row holds the time of the holder's last beat, and nothing has changed it since. */
  lemma {:induction false} RowIsLastBeat(h: History, owner: string) returns (k: nat)
    requires Holds(h, owner)
    ensures LastBeat(h, k, |h|, owner) && RowAfter(h).value.heartbeat == UnixSeconds(h[k].now)
    ensures forall m | k < m <= |h| :: RowAfter(h[..m]) == RowAfter(h)
  {
    var before, last := h[..|h| - 1], h[|h| - 1];
    assert h[..|h|] == h;
    if Succeeds(RowAfter(before), last) {
      k := |h| - 1;
    } else {
      k := RowIsLastBeat(before, owner);
      assert forall m | 0 <= m <= |before| :: h[..m] == before[..m];
    }
  }

  /** Step j takes the lock from its holder: a release, or a takeover by another owner of a stale row. */
  predicate LosesAt(h: History, j: nat, owner: string)
    requires j < |h| && Holds(h[..j], owner)
  {
    || h[j] == Release(owner)
    || (h[j].Replace? && h[j].owner != owner && Stale(RowAfter(h[..j]).value, h[j].now, h[j].staleAfter))
  }

  /**
   * Whoever held the lock after step i and does not hold it now has released it since, or
   * has let it go stale before another owner took it.
   */
  lemma {:induction false} Exclusion(h: History, i: nat, owner: string) returns (j: nat)
    requires i < |h| && Holds(h[..i + 1], owner) && !Holds(h, owner)
    ensures i < j < |h| && Holds(h[..j], owner) && LosesAt(h, j, owner)
  {
    var n := |h| - 1;
    var before := h[..n];
    assert h[..|h|] == h;
    assert i < n;
    if Holds(before, owner) {
      j := n;
    } else {
      assert before[..i + 1] == h[..i + 1];
      j := Exclusion(before, i, owner);
      assert before[..j] == h[..j];
    }
  }

  /** Step k takes the lock for its owner. */
  predicate Acquires(h: History, k: nat)
    requires k < |h|
  {
    (h[k].Insert? || h[k].Replace?) && Succeeds(RowAfter(h[..k]), h[k])
  }

  /** Between two acquisitions by different owners the first lost the lock in one of these two ways. */
  lemma TakeoverNeedsReleaseOrStale(h: History, i: nat, k: nat) returns (j: nat)
    requires i < k < |h| && Acquires(h, i) && Acquires(h, k) && h[i].owner != h[k].owner
    ensures i < j <= k && Holds(h[..j], h[i].owner) && LosesAt(h, j, h[i].owner)
  {
    var prefix := h[..k + 1];
    assert prefix[..i + 1] == h[..i + 1] && h[..i + 1][..i] == h[..i];
    assert prefix[..k] == h[..k];
    j := Exclusion(prefix, i, h[i].owner);
    assert prefix[..j] == h[..j];
  }

  /** With a limit of whole seconds, a stale row really is older than the limit. */
  lemma StaleIsOld(row: LockRow, beat: int, now: int, staleAfter: nat)
    requires row.heartbeat == UnixSeconds(beat) && Stale(row, now, staleAfter)
    ensures now - beat > WholeSeconds(staleAfter) * NANOS
    ensures staleAfter % NANOS == 0 ==> now - beat > staleAfter
  {
    assert beat < (UnixSeconds(beat) + 1) * NANOS && UnixSeconds(now) * NANOS <= now;
    assert UnixSeconds(now) - UnixSeconds(beat) >= WholeSeconds(staleAfter) + 1;
  }

  /** At step j another owner took the lock, later than the limit allows after the last beat of this one. */
  ghost predicate TakenStale(h: History, b: nat, j: nat, owner: string) {
    && j < |h| && h[j].Replace? && h[j].owner != owner && LastBeat(h, b, j, owner)
    && h[j].now - h[b].now > WholeSeconds(h[j].staleAfter) * NANOS
  }

  /**
   * Between two acquisitions by different owners the first released the lock, or another
   * owner took it when more than the limit had passed since its last successful beat.
   */
  lemma TakeoverMeans(h: History, i: nat, k: nat) returns (j: nat, b: nat)
    requires i < k < |h| && Acquires(h, i) && Acquires(h, k) && h[i].owner != h[k].owner
    ensures i < j <= k && Holds(h[..j], h[i].owner)
    ensures h[j] == Release(h[i].owner) || TakenStale(h, b, j, h[i].owner)
  {
    b := 0;
    j := TakeoverNeedsReleaseOrStale(h, i, k);
    if h[j] != Release(h[i].owner) {
      b := RowIsLastBeat(h[..j], h[i].owner);
      assert forall m | 0 <= m <= j :: h[..j][..m] == h[..m];
      StaleIsOld(RowAfter(h[..j]).value, h[b].now, h[j].now, h[j].staleAfter);
    }
  }

  /** Owners must be distinct: a displaced session releases the lock of a second one with its name. */
  lemma SameOwnerReleasesOther(owner: string)
    ensures var h := [Insert(owner, 0), Replace(owner, 2 * NANOS, 0)];
      && Acquires(h, 0) && Acquires(h, 1)
      && Succeeds(RowAfter(h), Release(owner)) && Next(RowAfter(h), Release(owner)) == None
  {
    var first, second := Insert(owner, 0), Replace(owner, 2 * NANOS, 0);
    assert [first, second][..0] == [] && [first][..0] == [] && [first, second][..1] == [first];
    assert RowAfter([first]) == Next(RowAfter([]), first);
    assert RowAfter([first, second]) == Next(RowAfter([first]), second);
  }

  /** One attempt: the insert is statement i, and if that fails, the replacement is statement k. */
  predicate Attempt(h: History, i: nat, k: nat) {
    i < k < |h| && h[i].Insert? && h[k].Replace? && h[k].owner == h[i].owner && h[k].now == h[i].now
  }

  predicate Fails(h: History, i: nat, k: nat)
    requires Attempt(h, i, k)
  {
    !Succeeds(RowAfter(h[..i]), h[i]) && !Succeeds(RowAfter(h[..k]), h[k])
  }

  /** An attempt fails exactly if the lock is held at its first statement and free or not stale at its second. */
  lemma AttemptFailsIff(h: History, i: nat, k: nat)
    requires Attempt(h, i, k)
    ensures Fails(h, i, k) <==>
      && RowAfter(h[..i]).Some?
      && (RowAfter(h[..k]).None? || !Stale(RowAfter(h[..k]).value, h[i].now, h[k].staleAfter))
  {
  }

  /** Statement j released the lock, and nobody took it before statement k. */
  ghost predicate FreedUntil(h: History, j: nat, k: nat) {
    && j < k <= |h| && h[j].Release? && Succeeds(RowAfter(h[..j]), h[j])
    && forall m | j < m <= k :: RowAfter(h[..m]).None?
  }

  /** A lock that was held and is free now has been released, and has been free since. */
  lemma {:induction false} LastRelease(h: History, i: nat, k: nat) returns (j: nat)
    requires i < k <= |h| && RowAfter(h[..i]).Some? && RowAfter(h[..k]).None?
    ensures i <= j && FreedUntil(h, j, k)
    decreases k
  {
    var before := h[..k - 1];
    assert h[..k][..k - 1] == before && h[..k][k - 1] == h[k - 1];
    if RowAfter(before).Some? {
      j := k - 1;
    } else {
      j := LastRelease(h, i, k - 1);
    }
  }

  /**
   * Exactly when an attempt fails although the lock is free at its end: the holder released
   * it between the two statements and nobody has taken it since.
   */
  lemma FreeLockMissedIff(h: History, i: nat, k: nat)
    requires Attempt(h, i, k)
    ensures Fails(h, i, k) && RowAfter(h[..k]).None? <==>
      RowAfter(h[..i]).Some? && exists j | i < j :: FreedUntil(h, j, k)
  {
    if Fails(h, i, k) && RowAfter(h[..k]).None? {
      var j := LastRelease(h, i, k);
      assert h[i].Insert?;
    }
  }

  /** Such a history: a holds the lock, b inserts in vain, a releases, b finds nothing to replace. */
  lemma FreeLockMissed(a: string, b: string, now: int, staleAfter: nat)
    ensures var h := [Insert(a, now), Insert(b, now), Release(a), Replace(b, now, staleAfter)];
      Attempt(h, 1, 3) && Fails(h, 1, 3) && RowAfter(h[..3]).None?
  {
    var h1 := [Insert(a, now)];
    var h2 := h1 + [Insert(b, now)];
    var h3 := h2 + [Release(a)];
    assert h1[..0] == [] && h2[..1] == h1 && h3[..2] == h2;
    assert RowAfter(h1) == Next(None, h1[0]);
    assert RowAfter(h2) == Next(RowAfter(h1), Insert(b, now));
    assert RowAfter(h3) == Next(RowAfter(h2), Release(a));
    var h := [Insert(a, now), Insert(b, now), Release(a), Replace(b, now, staleAfter)];
    assert h[..1] == h1 && h[..3] == h3;
  }
}
