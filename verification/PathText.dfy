/**
 * The text forms of paths.  The planners compare paths with `strip_prefix` followed by
 * `starts_with('/')` and measure depth by counting slashes; on clean paths these are the
 * segment relations the other modules use.
 */
module PathText {
  import opened Paths
  import opened Sorting

  predicate NoSlash(s: Segment) {
    forall i | 0 <= i < |s| :: s[i] != '/'
  }

  /** Segments hold no slash; those of a clean path are not empty either. */
  predicate SlashFree(p: Path) {
    forall i | 0 <= i < |p| :: NoSlash(p[i])
  }

  predicate Clean(p: Path) {
    forall i | 0 <= i < |p| :: p[i] != "" && NoSlash(p[i])
  }

  function Text(p: Path): string {
    if p == [] then ""
    else if |p| == 1 then p[0]
    else p[0] + "/" + Text(p[1..])
  }

  function Split(s: string): Path {
    if s == "" then [""]
    else if s[0] == '/' then [""] + Split(s[1..])
    else var rest := Split(s[1..]); if rest == [] then [[s[0]]] else [[s[0]] + rest[0]] + rest[1..]
  }

  predicate StartsWith(s: string, prefix: string) {
    |prefix| <= |s| && s[..|prefix|] == prefix
  }

  /** `path == prefix || path.strip_prefix(prefix).is_some_and(|s| s.starts_with('/'))` */
  predicate TextAtOrUnder(path: string, prefix: string) {
    path == prefix || (StartsWith(path, prefix) && StartsWith(path[|prefix|..], "/"))
  }

  function SlashCount(s: string): nat {
    if s == "" then 0 else (if s[0] == '/' then 1 else 0) + SlashCount(s[1..])
  }

  /** The comparison `matches('/').count()` descending, then text, used to order deletes. */
  predicate DeepestFirst(a: Path, b: Path) {
    |a| > |b| || (|a| == |b| && StringLeq(Text(a), Text(b)))
  }

  predicate ShallowestFirst(a: Path, b: Path) {
    |a| < |b| || (|a| == |b| && StringLeq(Text(a), Text(b)))
  }

  predicate TextOrder(a: Path, b: Path) {
    StringLeq(Text(a), Text(b))
  }

  lemma PathOrders()
    ensures TotalPreorder(DeepestFirst)
    ensures TotalPreorder(ShallowestFirst)
    ensures TotalPreorder(TextOrder)
  {
    forall a: Path, b: Path ensures StringLeq(Text(a), Text(b)) || StringLeq(Text(b), Text(a)) {
      StringLeqTotal(Text(a), Text(b));
    }
    forall a: Path, b: Path, c: Path | StringLeq(Text(a), Text(b)) && StringLeq(Text(b), Text(c))
      ensures StringLeq(Text(a), Text(c))
    {
      StringLeqTransitive(Text(a), Text(b), Text(c));
    }
  }

  // ----- bridging lemmas

  /** A slash-free head is determined by the text. */
  lemma {:induction false} HeadSplits(a: Segment, x: string, b: Segment, y: string)
    requires NoSlash(a) && NoSlash(b)
    requires x == "" || x[0] == '/'
    requires y == "" || y[0] == '/'
    requires a + x == b + y
    ensures a == b && x == y
  {
    assert CharAt(a + x, |a|) == CharAt(b + y, |a|);
    assert CharAt(a + x, |b|) == CharAt(b + y, |b|);
    assert |a| == |b|;
    assert a == (a + x)[..|a|] == b;
    assert x == (a + x)[|a|..] == y;
  }

  function CharAt(s: string, i: nat): char {
    if i < |s| then s[i] else ' '
  }

  /** What follows the first segment. */
  function Tail(p: Path): string
    requires p != []
  {
    if |p| == 1 then "" else "/" + Text(p[1..])
  }

  lemma {:induction false} TextUnder(p: Path, q: Path)
    requires SlashFree(p) && SlashFree(q) && p != [] && q != []
    ensures TextAtOrUnder(Text(p), Text(q)) <==> q <= p
  {
    if TextAtOrUnder(Text(p), Text(q)) {
      UnderGivesPrefix(p, q);
    }
    if q <= p {
      PrefixGivesUnder(p, q);
    }
  }

  lemma UnderGivesPrefix(p: Path, q: Path)
    requires SlashFree(p) && SlashFree(q) && p != [] && q != []
    requires TextAtOrUnder(Text(p), Text(q))
    ensures q <= p
  {
    var rest := Text(p)[|Text(q)|..];
    assert Text(p) == Text(q) + rest;
    RestGivesPrefix(p, q, rest);
  }

  lemma Regroup(a: string, b: string, c: string)
    ensures (a + b) + c == a + (b + c)
  {
  }

  lemma AfterSlash(s: string)
    ensures ("/" + s)[1..] == s
  {
  }

  lemma {:induction false} RestGivesPrefix(p: Path, q: Path, rest: string)
    requires SlashFree(p) && SlashFree(q) && p != [] && q != []
    requires Text(p) == Text(q) + rest
    requires rest == "" || rest[0] == '/'
    ensures q <= p
  {
    TextHead(q);
    TextHead(p);
    Regroup(q[0], Tail(q), rest);
    HeadSplits(p[0], Tail(p), q[0], Tail(q) + rest);
    if |q| > 1 {
      Regroup("/", Text(q[1..]), rest);
      AfterSlash(Text(q[1..]) + rest);
      AfterSlash(Text(p[1..]));
      RestGivesPrefix(p[1..], q[1..], rest);
      assert p == [p[0]] + p[1..] && q == [q[0]] + q[1..];
    }
  }

  lemma TextHead(p: Path)
    requires p != []
    ensures Text(p) == p[0] + Tail(p) && (Clean(p) ==> Text(p) != "")
  {
    assert p[0] + "" == p[0];
    assert Clean(p) ==> p[0] != "";
    assert |p| > 1 ==> p[0] + "/" + Text(p[1..]) == p[0] + ("/" + Text(p[1..]));
  }

  lemma {:induction false} PrefixGivesUnder(p: Path, q: Path)
    requires q != [] && q <= p
    ensures TextAtOrUnder(Text(p), Text(q))
    ensures q < p ==> Text(p) == Text(q) + "/" + Text(p[|q|..])
  {
    if q == p {
    } else if |q| == 1 {
      assert p[0] == q[0];
    } else {
      PrefixGivesUnder(p[1..], q[1..]);
      assert p[0] == q[0];
      assert p[1..][|q[1..]|..] == p[|q|..];
      assert Text(p) == q[0] + "/" + (Text(q[1..]) + "/" + Text(p[|q|..]));
      assert Text(p) == Text(q) + "/" + Text(p[|q|..]);
    }
  }

  /** `path.starts_with(prefix + "/")` is the proper-descendant test of the live-descendant scans. */
  lemma TextStrictlyUnder(p: Path, q: Path)
    requires Clean(p) && Clean(q) && q != []
    ensures StartsWith(Text(p), Text(q) + "/") <==> q < p
  {
    if StartsWith(Text(p), Text(q) + "/") && p != [] {
      assert (Text(q) + "/")[..|Text(q)|] == Text(q);
      assert Text(p)[|Text(q)|] == '/';
      UnderGivesPrefix(p, q);
      assert q != p;
    }
    if q < p {
      PrefixGivesUnder(p, q);
    }
  }

  lemma TextInjective(p: Path, q: Path)
    requires Clean(p) && Clean(q) && Text(p) == Text(q)
    ensures p == q
  {
    if p != [] {
      TextHead(p);
    }
    if q != [] {
      TextHead(q);
    }
    if p != [] {
      UnderGivesPrefix(p, q);
      UnderGivesPrefix(q, p);
    }
  }

  lemma {:induction false} SlashCountConcat(a: string, b: string)
    ensures SlashCount(a + b) == SlashCount(a) + SlashCount(b)
  {
    if a == "" {
      assert a + b == b;
    } else {
      assert (a + b)[1..] == a[1..] + b;
      SlashCountConcat(a[1..], b);
    }
  }

  lemma {:induction false} NoSlashCount(s: Segment)
    requires NoSlash(s)
    ensures SlashCount(s) == 0
  {
    if s != "" {
      NoSlashCount(s[1..]);
    }
  }

  /** The slash count of a path text is its depth. */
  lemma {:induction false} DepthIsSlashCount(p: Path)
    requires Clean(p) && p != []
    ensures SlashCount(Text(p)) == |p| - 1
  {
    NoSlashCount(p[0]);
    if |p| > 1 {
      DepthIsSlashCount(p[1..]);
      SlashCountConcat(p[0] + "/", Text(p[1..]));
      SlashCountConcat(p[0], "/");
    }
  }

  /** `split('/')` undoes the joining of segments. */
  /** The sort keys as the program takes them from the texts: slashes counted, then the text. */
  lemma TextOrders(a: Path, b: Path)
    requires a != [] && b != [] && Clean(a) && Clean(b)
    ensures var x, y := Text(a), Text(b);
      && (DeepestFirst(a, b) <==>
            SlashCount(x) > SlashCount(y) || (SlashCount(x) == SlashCount(y) && StringLeq(x, y)))
      && (ShallowestFirst(a, b) <==>
            SlashCount(x) < SlashCount(y) || (SlashCount(x) == SlashCount(y) && StringLeq(x, y)))
      && (TextOrder(a, b) <==> StringLeq(x, y))
  {
    DepthIsSlashCount(a);
    DepthIsSlashCount(b);
  }

  lemma {:induction false} SplitText(p: Path)
    requires Clean(p) && p != []
    ensures Split(Text(p)) == p
  {
    if |p| == 1 {
      SplitSegment(p[0], "");
      assert p[0] + "" == p[0];
    } else {
      SplitText(p[1..]);
      SplitSegment(p[0], "/" + Text(p[1..]));
      assert Text(p) == p[0] + ("/" + Text(p[1..]));
      assert ("/" + Text(p[1..]))[1..] == Text(p[1..]);
    }
  }

  lemma {:induction false} SplitSegment(s: Segment, rest: string)
    requires NoSlash(s)
    requires rest == "" || rest[0] == '/'
    ensures Split(s + rest) == [s] + (if rest == "" then [] else Split(rest[1..]))
  {
    if s == "" {
      assert s + rest == rest;
    } else {
      SplitSegment(s[1..], rest);
      assert (s + rest)[1..] == s[1..] + rest;
      assert [s[0]] + s[1..] == s;
    }
  }
}
