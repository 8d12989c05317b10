/**
 * Splitting the upload queue into rounds: at most `limit` files a round and at most one
 * large file among them.  The sync and the migration queue use the same scheme.
 */
module UploadBatch {

  datatype Split<T> = Split(selected: seq<T>, deferred: seq<T>)

  /** The split of a queue with `room` places left, a large file allowed only if `largeFree`. */
  function SplitQueue<T>(queue: seq<T>, room: nat, largeFree: bool, large: T -> bool): Split<T> {
    if queue == [] then Split([], [])
    else
      var c := queue[0];
      if room > 0 && (!large(c) || largeFree) then
        var rest := SplitQueue(queue[1..], room - 1, largeFree && !large(c), large);
        Split([c] + rest.selected, rest.deferred)
      else
        var rest := SplitQueue(queue[1..], room, largeFree, large);
        Split(rest.selected, [c] + rest.deferred)
  }

  function LargeCount<T>(s: seq<T>, large: T -> bool): nat {
    if s == [] then 0 else (if large(s[0]) then 1 else 0) + LargeCount(s[1..], large)
  }

  method TakeBatch<T>(pending: seq<T>, limit: nat, large: T -> bool) returns (selected: seq<T>, deferred: seq<T>)
    ensures Split(selected, deferred) == SplitQueue(pending, limit, true, large)
  {
    var queue := pending;
    var largeUsed := false;
    selected, deferred := [], [];
    while queue != []
      invariant |selected| <= limit
      invariant SplitQueue(pending, limit, true, large) ==
        Prepend(selected, deferred, SplitQueue(queue, limit - |selected|, !largeUsed, large))
      decreases |queue|
    {
      var candidate := queue[0];
      queue := queue[1..];
      if |selected| < limit && (!large(candidate) || !largeUsed) {
        if large(candidate) {
          largeUsed := true;
        }
        PrependSelected(selected, deferred, candidate, SplitQueue(queue, limit - |selected| - 1, !largeUsed, large));
        selected := selected + [candidate];
      } else {
        PrependDeferred(selected, deferred, candidate, SplitQueue(queue, limit - |selected|, !largeUsed, large));
        deferred := deferred + [candidate];
      }
    }
    assert selected + [] == selected && deferred + [] == deferred;
  }

  function Prepend<T>(selected: seq<T>, deferred: seq<T>, rest: Split<T>): Split<T> {
    Split(selected + rest.selected, deferred + rest.deferred)
  }

  lemma PrependSelected<T>(selected: seq<T>, deferred: seq<T>, c: T, rest: Split<T>)
    ensures Prepend(selected, deferred, Split([c] + rest.selected, rest.deferred)) ==
      Prepend(selected + [c], deferred, rest)
  {
    assert selected + ([c] + rest.selected) == selected + [c] + rest.selected;
  }

  lemma PrependDeferred<T>(selected: seq<T>, deferred: seq<T>, c: T, rest: Split<T>)
    ensures Prepend(selected, deferred, Split(rest.selected, [c] + rest.deferred)) ==
      Prepend(selected, deferred + [c], rest)
  {
    assert deferred + ([c] + rest.deferred) == deferred + [c] + rest.deferred;
  }

  /** Nothing is lost or duplicated. */
  lemma {:induction false} SplitKeepsAll<T>(queue: seq<T>, room: nat, largeFree: bool, large: T -> bool)
    ensures var s := SplitQueue(queue, room, largeFree, large);
      multiset(s.selected) + multiset(s.deferred) == multiset(queue)
  {
    if queue != [] {
      var c := queue[0];
      assert multiset(queue) == multiset{c} + multiset(queue[1..]) by {
        assert queue == [c] + queue[1..];
      }
      if room > 0 && (!large(c) || largeFree) {
        SplitKeepsAll(queue[1..], room - 1, largeFree && !large(c), large);
      } else {
        SplitKeepsAll(queue[1..], room, largeFree, large);
      }
    }
  }

  /** The limits hold. */
  lemma {:induction false} SplitCounts<T>(queue: seq<T>, room: nat, largeFree: bool, large: T -> bool)
    ensures var s := SplitQueue(queue, room, largeFree, large);
      && |s.selected| + |s.deferred| == |queue|
      && |s.selected| <= room
      && LargeCount(s.selected, large) <= (if largeFree then 1 else 0)
      && LargeCount(s.selected, large) + LargeCount(s.deferred, large) == LargeCount(queue, large)
  {
    if queue != [] {
      var c := queue[0];
      if room > 0 && (!large(c) || largeFree) {
        var rest := SplitQueue(queue[1..], room - 1, largeFree && !large(c), large);
        SplitCounts(queue[1..], room - 1, largeFree && !large(c), large);
        assert ([c] + rest.selected)[1..] == rest.selected;
      } else {
        var rest := SplitQueue(queue[1..], room, largeFree, large);
        SplitCounts(queue[1..], room, largeFree, large);
        assert ([c] + rest.deferred)[1..] == rest.deferred;
      }
    }
  }

  /** Of any two members of a batch with at most one large file, one is not large. */
  lemma {:induction false} OneLarge<T>(s: seq<T>, large: T -> bool)
    requires LargeCount(s, large) <= 1
    ensures forall i, j | 0 <= i < j < |s| :: !large(s[i]) || !large(s[j])
  {
    if s != [] {
      OneLarge(s[1..], large);
      if large(s[0]) {
        NoneLarge(s[1..], large);
      }
      forall i, j | 0 <= i < j < |s| ensures !large(s[i]) || !large(s[j]) {
        if i > 0 {
          assert s[i] == s[1..][i - 1] && s[j] == s[1..][j - 1];
        } else {
          assert s[j] == s[1..][j - 1];
        }
      }
    }
  }

  lemma {:induction false} NoneLarge<T>(s: seq<T>, large: T -> bool)
    requires LargeCount(s, large) == 0
    ensures forall i | 0 <= i < |s| :: !large(s[i])
  {
    if s != [] {
      NoneLarge(s[1..], large);
      forall i | 0 <= i < |s| ensures !large(s[i]) {
        if i > 0 {
          assert s[i] == s[1..][i - 1];
        }
      }
    }
  }

  /** When places are left over, only large files were deferred, because one was selected. */
  lemma {:induction false} NotFull<T>(queue: seq<T>, room: nat, largeFree: bool, large: T -> bool)
    requires |SplitQueue(queue, room, largeFree, large).selected| < room
    ensures var s := SplitQueue(queue, room, largeFree, large);
      && LargeCount(s.deferred, large) == |s.deferred|
      && (largeFree && s.deferred != [] ==> LargeCount(s.selected, large) == 1)
  {
    if queue != [] {
      var c := queue[0];
      if room > 0 && (!large(c) || largeFree) {
        var rest := SplitQueue(queue[1..], room - 1, largeFree && !large(c), large);
        NotFull(queue[1..], room - 1, largeFree && !large(c), large);
        SplitCounts(queue[1..], room - 1, largeFree && !large(c), large);
        assert ([c] + rest.selected)[1..] == rest.selected;
      } else {
        var rest := SplitQueue(queue[1..], room, largeFree, large);
        NotFull(queue[1..], room, largeFree, large);
        assert ([c] + rest.deferred)[1..] == rest.deferred;
      }
    }
  }

  /** The rounds that empty the queue. */
  function Rounds<T>(queue: seq<T>, limit: nat, large: T -> bool): seq<seq<T>>
    requires limit > 0
    decreases |queue|
  {
    if queue == [] then []
    else
      SplitCounts(queue, limit, true, large);
      var s := SplitQueue(queue, limit, true, large);
      [s.selected] + Rounds(s.deferred, limit, large)
  }

  function Flat<T>(rounds: seq<seq<T>>): seq<T> {
    if rounds == [] then [] else rounds[0] + Flat(rounds[1..])
  }

  /** All rounds together run every file exactly once; each runs some, and within the limits. */
  lemma {:induction false} ScheduledOnce<T>(queue: seq<T>, limit: nat, large: T -> bool)
    requires limit > 0
    ensures multiset(Flat(Rounds(queue, limit, large))) == multiset(queue)
    ensures forall round | round in Rounds(queue, limit, large) ::
      1 <= |round| <= limit && LargeCount(round, large) <= 1
    decreases |queue|
  {
    if queue != [] {
      SplitCounts(queue, limit, true, large);
      SplitKeepsAll(queue, limit, true, large);
      var s := SplitQueue(queue, limit, true, large);
      var rest := Rounds(s.deferred, limit, large);
      ScheduledOnce(s.deferred, limit, large);
      assert ([s.selected] + rest)[1..] == rest;
    }
  }

  lemma {:induction false} Quotient(q: nat, r: nat, d: nat)
    requires r < d
    ensures (q * d + r) / d == q
  {
    var n: int := q * d + r;
    var off: int := n / d - q;
    assert off * d == r - n % d;
    assert off > 0 ==> off * d >= d;
    assert off < 0 ==> off * d + d <= 0;
  }

  lemma DivideOff(n: nat, d: nat)
    requires d > 0 && n >= d
    ensures (n - d) / d == n / d - 1
  {
    var q, r := n / d, n % d;
    assert q >= 1;
    assert n - d == (q - 1) * d + r;
    Quotient(q - 1, r, d);
  }

  lemma {:induction false} DivideLess(a: nat, b: nat, d: nat)
    requires d > 0 && a <= b
    ensures a / d <= b / d
    decreases b
  {
    if a >= d {
      DivideLess(a - d, b - d, d);
      DivideOff(a, d);
      DivideOff(b, d);
    }
  }

  /** n files, L of them large, need at most n / limit + L + 1 rounds. */
  lemma {:induction false} RoundsBound<T>(queue: seq<T>, limit: nat, large: T -> bool)
    requires limit > 0
    ensures |Rounds(queue, limit, large)| <= |queue| / limit + LargeCount(queue, large) + 1
    ensures queue == [] ==> Rounds(queue, limit, large) == []
    decreases |queue|
  {
    if queue != [] {
      SplitCounts(queue, limit, true, large);
      var s := SplitQueue(queue, limit, true, large);
      RoundsBound(s.deferred, limit, large);
      if |s.selected| == limit {
        DivideOff(|queue|, limit);
      } else {
        NotFull(queue, limit, true, large);
        DivideLess(|s.deferred|, |queue|, limit);
      }
    }
  }

  /** The round in which the file at position i runs. */
  function RoundOf<T>(queue: seq<T>, i: nat, limit: nat, large: T -> bool): nat
    requires limit > 0 && i < |queue|
    decreases |queue|
  {
    SplitCounts(queue, limit, true, large);
    var place := Place(queue, i, limit, true, large);
    if place.Selected? then 0
    else 1 + RoundOf(SplitQueue(queue, limit, true, large).deferred, place.at, limit, large)
  }

  datatype Where = Selected(at: nat) | Deferred(at: nat)

  /** Where the split puts the file at position i. */
  function Place<T>(queue: seq<T>, i: nat, room: nat, largeFree: bool, large: T -> bool): (w: Where)
    requires i < |queue|
    ensures var s := SplitQueue(queue, room, largeFree, large);
      match w
      case Selected(k) => k < |s.selected| && k <= i && s.selected[k] == queue[i]
      case Deferred(k) => k < |s.deferred| && k <= i && s.deferred[k] == queue[i]
  {
    var c := queue[0];
    var take := room > 0 && (!large(c) || largeFree);
    if i == 0 then (if take then Selected(0) else Deferred(0))
    else
      var w := if take then Place(queue[1..], i - 1, room - 1, largeFree && !large(c), large)
               else Place(queue[1..], i - 1, room, largeFree, large);
      match w
      case Selected(k) => Selected(if take then k + 1 else k)
      case Deferred(k) => Deferred(if take then k else k + 1)
  }

  /** The head of the queue always runs, so everything behind it moves up. */
  lemma {:induction false} RunsWithin<T>(queue: seq<T>, i: nat, limit: nat, large: T -> bool)
    requires limit > 0 && i < |queue|
    ensures var n := RoundOf(queue, i, limit, large);
      n <= i && n < |Rounds(queue, limit, large)| && queue[i] in Rounds(queue, limit, large)[n]
    decreases |queue|
  {
    SplitCounts(queue, limit, true, large);
    var s := SplitQueue(queue, limit, true, large);
    var w := Place(queue, i, limit, true, large);
    if w.Deferred? {
      assert i > 0;
      var rest := SplitQueue(queue[1..], limit - 1, !large(queue[0]), large);
      assert s.deferred == rest.deferred;
      RunsWithin(s.deferred, w.at, limit, large);
    }
  }
}
