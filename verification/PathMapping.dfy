/**
 * Mapping local names to remote names.  Sanitising works segment by segment, but the text
 * is trimmed first, so a last segment that ends in a space changes more than its
 * characters.
 */
module PathMapping {
  import opened Paths
  import opened PathText

  datatype MappingError = InvalidRemoteRoot | EmptySanitizedSegment(segment: Segment)

  datatype Result<+T> = Ok(value: T) | Err(error: MappingError)

  const REMOTE_PREFIX := "disk:/"

  predicate IsControl(c: char) {
    c as int < 0x20 || 0x7f <= c as int <= 0x9f
  }

  /** The Unicode White_Space property. */
  predicate IsWhitespace(c: char) {
    var n := c as int;
    || 9 <= n <= 13 || n == 0x20 || n == 0x85 || n == 0xa0 || n == 0x1680
    || 0x2000 <= n <= 0x200a || n == 0x2028 || n == 0x2029 || n == 0x202f || n == 0x205f || n == 0x3000
  }

  predicate Kept(c: char) {
    !IsControl(c) && c !in ['<', '>', ':', '"', '|', '?', '*', '\\'] && c != '/'
  }

  function FilterSegment(s: Segment): Segment {
    if s == "" then ""
    else if Kept(s[0]) then [s[0]] + FilterSegment(s[1..])
    else FilterSegment(s[1..])
  }

  function SanitizeSegment(s: Segment): Result<Segment> {
    var kept := FilterSegment(s);
    if kept == "" then Err(EmptySanitizedSegment(s)) else Ok(kept)
  }

  function SanitizeAll(p: Path): Result<Path> {
    if p == [] then Ok([])
    else
      match SanitizeSegment(p[0])
      case Err(e) => Err(e)
      case Ok(s) =>
        match SanitizeAll(p[1..])
        case Err(e) => Err(e)
        case Ok(rest) => Ok([s] + rest)
  }

  function TrimStart(s: string): string {
    if s != "" && IsWhitespace(s[0]) then TrimStart(s[1..]) else s
  }

  function TrimEnd(s: string): string {
    if s != "" && IsWhitespace(s[|s| - 1]) then TrimEnd(s[..|s| - 1]) else s
  }

  function TrimSlashStart(s: string): string {
    if s != "" && s[0] == '/' then TrimSlashStart(s[1..]) else s
  }

  function TrimSlashEnd(s: string): string {
    if s != "" && s[|s| - 1] == '/' then TrimSlashEnd(s[..|s| - 1]) else s
  }

  function RemoteRootSegments(text: string): Result<Path> {
    var trimmed := TrimEnd(TrimStart(text));
    if !StartsWith(trimmed, REMOTE_PREFIX) then Err(InvalidRemoteRoot)
    else
      var body := TrimSlashEnd(TrimSlashStart(trimmed[|REMOTE_PREFIX|..]));
      if body == "" then Err(InvalidRemoteRoot) else SanitizeAll(Split(body))
  }

  function SanitizeRemotePath(text: string): Result<string> {
    match RemoteRootSegments(text)
    case Err(e) => Err(e)
    case Ok(segments) => Ok(REMOTE_PREFIX + Text(segments))
  }

  // ----- the segment-wise mapping

  /** Sanitising each segment on its own. */
  function Sanitized(p: Path): (r: Path)
    ensures |r| == |p|
  {
    seq(|p|, i requires 0 <= i < |p| => FilterSegment(p[i]))
  }

  predicate Mappable(p: Path) {
    Clean(p) && p != [] && forall i | 0 <= i < |p| :: FilterSegment(p[i]) != ""
  }

  lemma {:induction false} SanitizeAllIsSegmentwise(p: Path)
    ensures SanitizeAll(p).Ok? <==> forall i | 0 <= i < |p| :: FilterSegment(p[i]) != ""
    ensures SanitizeAll(p).Ok? ==> SanitizeAll(p).value == Sanitized(p)
  {
    if p != [] {
      SanitizeAllIsSegmentwise(p[1..]);
      assert p == [p[0]] + p[1..];
      assert forall i | 0 <= i < |p[1..]| :: p[1..][i] == p[i + 1];
      assert Sanitized(p) == [FilterSegment(p[0])] + Sanitized(p[1..]);
      assert forall i | 1 <= i < |p| :: p[i] == p[1..][i - 1];
    }
  }

  // ----- what is trimmed and refused

  /** The code points trimmed from the ends of a text: those with the Unicode property White_Space. */
  lemma WhitespaceIff(c: char)
    ensures IsWhitespace(c) <==>
      c as int in {
        0x9, 0xa, 0xb, 0xc, 0xd, 0x20, 0x85, 0xa0, 0x1680, 0x2000, 0x2001, 0x2002, 0x2003, 0x2004, 0x2005, 0x2006,
        0x2007, 0x2008, 0x2009, 0x200a, 0x2028, 0x2029, 0x202f, 0x205f, 0x3000}
  {
  }

  /** White space around a remote path is ignored. */
  lemma SurroundingSpace(c: char, text: string)
    requires IsWhitespace(c)
    ensures SanitizeRemotePath([c] + text) == SanitizeRemotePath(text)
    ensures SanitizeRemotePath(text + [c]) == SanitizeRemotePath(text)
  {
    assert ([c] + text)[1..] == text;
    SpaceAfter(text, c);
  }

  lemma {:induction false} SpaceAfter(s: string, c: char)
    requires IsWhitespace(c)
    ensures TrimEnd(TrimStart(s + [c])) == TrimEnd(TrimStart(s))
  {
    if s == "" {
      assert [c][1..] == "";
    } else if IsWhitespace(s[0]) {
      assert (s + [c])[1..] == s[1..] + [c];
      SpaceAfter(s[1..], c);
    } else {
      assert (s + [c])[..|s|] == s;
    }
  }

  /** A text without white space at its ends is refused as a root exactly if nothing follows "disk:" but slashes. */
  lemma InvalidRootIff(text: string)
    requires text != "" ==> !IsWhitespace(text[0]) && !IsWhitespace(text[|text| - 1])
    ensures SanitizeRemotePath(text) == Err(InvalidRemoteRoot) <==>
      !("disk:/" <= text) || forall i | 6 <= i < |text| :: text[i] == '/'
  {
    if "disk:/" <= text {
      var rest := text[6..];
      OnlySlashes(rest);
      assert (forall i | 6 <= i < |text| :: text[i] == '/') <==> forall i | 0 <= i < |rest| :: rest[i] == '/' by {
        assert forall i | 6 <= i < |text| :: text[i] == rest[i - 6];
      }
      NoRootError(Split(TrimSlashEnd(TrimSlashStart(rest))));
    }
  }

  lemma {:induction false} OnlySlashes(s: string)
    ensures TrimSlashEnd(TrimSlashStart(s)) == "" <==> forall i | 0 <= i < |s| :: s[i] == '/'
  {
    if s != "" && s[0] == '/' {
      OnlySlashes(s[1..]);
      assert forall i | 1 <= i < |s| :: s[i] == s[1..][i - 1];
    } else if s != "" {
      KeepsFirst(s);
    }
  }

  lemma {:induction false} KeepsFirst(s: string)
    requires s != "" && s[0] != '/'
    ensures TrimSlashEnd(s) != ""
  {
    if s[|s| - 1] == '/' {
      KeepsFirst(s[..|s| - 1]);
    }
  }

  /** The other error names the first segment that holds nothing to keep. */
  lemma {:induction false} FirstEmptySegment(p: Path, k: nat)
    requires k < |p| && FilterSegment(p[k]) == "" && forall j | 0 <= j < k :: FilterSegment(p[j]) != ""
    ensures SanitizeAll(p) == Err(EmptySanitizedSegment(p[k]))
  {
    if k > 0 {
      assert forall j | 0 <= j < k - 1 :: p[1..][j] == p[j + 1];
      FirstEmptySegment(p[1..], k - 1);
    }
  }

  lemma {:induction false} NoRootError(p: Path)
    ensures SanitizeAll(p) != Err(InvalidRemoteRoot)
  {
    if p != [] {
      NoRootError(p[1..]);
    }
  }

  // ----- kept characters of a text

  /** The text with every character removed that sanitising removes; slashes stay. */
  function Reduce(s: string): string {
    if s == "" then ""
    else if Kept(s[0]) || s[0] == '/' then [s[0]] + Reduce(s[1..])
    else Reduce(s[1..])
  }

  lemma {:induction false} ReduceConcat(a: string, b: string)
    ensures Reduce(a + b) == Reduce(a) + Reduce(b)
  {
    if a == "" {
      assert a + b == b;
    } else {
      assert (a + b)[1..] == a[1..] + b;
      ReduceConcat(a[1..], b);
    }
  }

  lemma {:induction false} ReduceSegment(s: Segment)
    requires NoSlash(s)
    ensures Reduce(s) == FilterSegment(s)
  {
    if s != "" {
      ReduceSegment(s[1..]);
    }
  }

  lemma {:induction false} ReduceText(p: Path)
    requires forall i | 0 <= i < |p| :: NoSlash(p[i])
    ensures Reduce(Text(p)) == Text(Sanitized(p))
  {
    if p != [] {
      ReduceSegment(p[0]);
      assert Sanitized(p) == [FilterSegment(p[0])] + Sanitized(p[1..]);
      if |p| > 1 {
        ReduceText(p[1..]);
        ReduceConcat(p[0] + "/", Text(p[1..]));
        ReduceConcat(p[0], "/");
        assert Sanitized(p)[1..] == Sanitized(p[1..]);
      }
    }
  }

  lemma {:induction false} SplitFacts(s: string)
    ensures Split(s) != [] && Text(Split(s)) == s
    ensures forall i | 0 <= i < |Split(s)| :: NoSlash(Split(s)[i])
  {
    if s != "" {
      SplitFacts(s[1..]);
      var rest := Split(s[1..]);
      assert s == [s[0]] + s[1..];
      if s[0] == '/' {
        assert Split(s)[1..] == rest;
        assert Text(Split(s)) == "" + "/" + Text(rest);
      } else {
        assert Split(s)[1..] == rest[1..];
        SplitHead(s[0], rest);
      }
    }
  }

  lemma SplitHead(c: char, rest: Path)
    requires rest != []
    ensures Text([[c] + rest[0]] + rest[1..]) == [c] + Text(rest)
  {
    var p := [[c] + rest[0]] + rest[1..];
    assert p[1..] == rest[1..];
    if |rest| > 1 {
      assert ([c] + rest[0]) + "/" + Text(rest[1..]) == [c] + (rest[0] + "/" + Text(rest[1..]));
    }
  }

  lemma {:induction false} TrimEndFacts(s: string)
    ensures var t := TrimEnd(s);
      && |t| <= |s| && t == s[..|t|]
      && (t != "" ==> !IsWhitespace(t[|t| - 1]))
      && (forall i | |t| <= i < |s| :: IsWhitespace(s[i]))
  {
    if s != "" && IsWhitespace(s[|s| - 1]) {
      TrimEndFacts(s[..|s| - 1]);
    }
  }

  lemma {:induction false} SlashTrimShrinks(s: string)
    ensures |Reduce(TrimSlashStart(s))| <= |Reduce(s)|
    ensures |Reduce(TrimSlashEnd(s))| <= |Reduce(s)|
    decreases |s|
  {
    if s != "" {
      SlashTrimShrinks(s[1..]);
      SlashTrimShrinks(s[..|s| - 1]);
      ReduceConcat(s[..|s| - 1], [s[|s| - 1]]);
      assert s == s[..|s| - 1] + [s[|s| - 1]];
    }
  }

  lemma {:induction false} TrimEndConcat(a: string, b: string)
    requires a != "" && !IsWhitespace(a[|a| - 1])
    ensures TrimEnd(a + b) == a + TrimEnd(b)
  {
    if b == "" {
      assert a + b == a;
    } else {
      assert (a + b)[..|a + b| - 1] == a + b[..|b| - 1];
      TrimEndConcat(a, b[..|b| - 1]);
    }
  }

  /** The white space that trimming removes at the end of a text. */
  function TrailingSpace(s: string): string {
    TrimEndFacts(s);
    s[|TrimEnd(s)|..]
  }

  lemma SanitizedBody(body: string)
    requires SanitizeAll(Split(body)).Ok?
    ensures Text(SanitizeAll(Split(body)).value) == Reduce(body)
  {
    SplitFacts(body);
    SanitizeAllIsSegmentwise(Split(body));
    ReduceText(Split(body));
  }

  lemma {:induction false} LastSegment(q: Path, s: Segment)
    requires q != []
    ensures Text(q + [s]) == Text(q) + "/" + s
  {
    if |q| == 1 {
      assert (q + [s])[1..] == [s];
    } else {
      LastSegment(q[1..], s);
      assert (q + [s])[1..] == q[1..] + [s];
      assert q[0] + "/" + (Text(q[1..]) + "/" + s) == (q[0] + "/" + Text(q[1..])) + "/" + s;
    }
  }

  /** The remote text of a name path: the prefix, then its segments. */
  function RemoteText(p: Path): string {
    REMOTE_PREFIX + Text(p)
  }

  /** Everything of a remote text but its last segment and the slash before it. */
  function Stem(p: Path): string
    requires p != []
  {
    Text(["disk:"] + p[..|p| - 1])
  }

  function WithLast(p: Path, s: Segment): Path
    requires p != []
  {
    p[..|p| - 1] + [s]
  }

  lemma RemoteTextLast(p: Path, s: Segment)
    requires p != []
    ensures RemoteText(WithLast(p, s)) == Stem(p) + "/" + s
    ensures WithLast(p, p[|p| - 1]) == p
  {
    var q := ["disk:"] + p[..|p| - 1];
    LastSegment(q, s);
    assert (q + [s])[1..] == WithLast(p, s);
    assert "disk:" + "/" + Text((q + [s])[1..]) == RemoteText(WithLast(p, s));
  }

  /** Cutting the end of the last segment cuts the text. */
  lemma CutLast(p: Path, n: nat)
    requires p != [] && n <= |p[|p| - 1]|
    ensures var last := p[|p| - 1];
      && RemoteText(p) == RemoteText(WithLast(p, last[..n])) + last[n..]
      && |RemoteText(WithLast(p, last[..n]))| == |Stem(p)| + 1 + n
  {
    var last := p[|p| - 1];
    RemoteTextLast(p, last);
    RemoteTextLast(p, last[..n]);
    assert last == last[..n] + last[n..];
    assert Stem(p) + "/" + last == (Stem(p) + "/" + last[..n]) + last[n..];
  }

  lemma SlashBeforeLast(p: Path)
    requires p != []
    ensures |Stem(p)| < |RemoteText(p)| && RemoteText(p)[|Stem(p)|] == '/' && RemoteText(p)[0] == 'd'
    ensures |RemoteText(p)| == |Stem(p)| + 1 + |p[|p| - 1]|
  {
    RemoteTextLast(p, p[|p| - 1]);
  }

  lemma TakeDrop(whole: string, head: string, tail: string)
    requires whole == head + tail
    ensures whole[..|head|] == head && whole[|head|..] == tail
  {
  }

  /** Trimming stops inside the last segment. */
  lemma TrimmedRemoteText(p: Path)
    requires Clean(p) && p != []
    ensures var w, last := TrailingSpace(RemoteText(p)), p[|p| - 1];
      && |w| <= |last|
      && w == last[|last| - |w|..]
      && TrimEnd(TrimStart(RemoteText(p))) == RemoteText(WithLast(p, last[..|last| - |w|]))
  {
    var head, last := Stem(p) + "/", p[|p| - 1];
    SlashBeforeLast(p);
    RemoteTextLast(p, last);
    RemoteTextLast(p, TrimEnd(last));
    TrimEndConcat(head, last);
    TrimEndFacts(last);
    TakeDrop(head + last, head + TrimEnd(last), TrailingSpace(last));
  }

  /**
   * Sanitising the text of a clean path is sanitising its segments exactly when the
   * trailing white space of the last segment holds nothing that sanitising keeps.
   */
  lemma SanitizeIsSegmentwiseIff(p: Path)
    requires Mappable(p)
    ensures SanitizeRemotePath(RemoteText(p)) == Ok(RemoteText(Sanitized(p)))
      <==> Reduce(TrailingSpace(RemoteText(p))) == ""
  {
    var t := RemoteText(p);
    var w := TrailingSpace(t);
    if Reduce(w) == "" {
      TrimHarmless(p);
    } else {
      TrimHarmful(p);
    }
  }

  lemma TrimHarmful(p: Path)
    requires Mappable(p) && Reduce(TrailingSpace(RemoteText(p))) != ""
    ensures SanitizeRemotePath(RemoteText(p)) != Ok(RemoteText(Sanitized(p)))
  {
    var w := TrailingSpace(RemoteText(p));
    TrimmedRemoteText(p);
    var last := p[|p| - 1];
    var cut := WithLast(p, last[..|last| - |w|]);
    CutLast(p, |last| - |w|);
    ReduceCut(Text(p), Text(cut), w);
    ReduceText(p);
    if SanitizeRemotePath(RemoteText(p)).Ok? {
      SanitizeShrinks(RemoteText(cut), RemoteText(p));
      assert RemoteText(cut)[|REMOTE_PREFIX|..] == Text(cut);
    }
  }

  lemma SanitizeShrinks(trimmed: string, text: string)
    requires trimmed == TrimEnd(TrimStart(text)) && SanitizeRemotePath(text).Ok?
    ensures |REMOTE_PREFIX| <= |trimmed|
    ensures |SanitizeRemotePath(text).value| <= |REMOTE_PREFIX| + |Reduce(trimmed[|REMOTE_PREFIX|..])|
  {
    var rest := trimmed[|REMOTE_PREFIX|..];
    SlashTrimShrinks(rest);
    SlashTrimShrinks(TrimSlashStart(rest));
    SanitizedBody(TrimSlashEnd(TrimSlashStart(rest)));
  }

  lemma ReduceCut(a: string, b: string, w: string)
    requires REMOTE_PREFIX + a == (REMOTE_PREFIX + b) + w
    ensures Reduce(a) == Reduce(b) + Reduce(w)
  {
    assert a == (REMOTE_PREFIX + a)[|REMOTE_PREFIX|..] == b + w;
    ReduceConcat(b, w);
  }

  lemma TrimHarmless(p: Path)
    requires Mappable(p) && Reduce(TrailingSpace(RemoteText(p))) == ""
    ensures SanitizeRemotePath(RemoteText(p)) == Ok(RemoteText(Sanitized(p)))
  {
    var w := TrailingSpace(RemoteText(p));
    TrimmedRemoteText(p);
    var last := p[|p| - 1];
    var core := last[..|last| - |w|];
    var cut := WithLast(p, core);
    assert last == core + w;
    ReduceConcat(core, w);
    ReduceSegment(last);
    ReduceSegment(core);
    CutKeepsMapping(p, core);
    SanitizeTrimmed(RemoteText(p), cut);
  }

  /** Replacing the last segment by one that sanitises alike changes nothing in the result. */
  lemma CutKeepsMapping(p: Path, core: Segment)
    requires Mappable(p) && NoSlash(core) && FilterSegment(core) == FilterSegment(p[|p| - 1])
    ensures Mappable(WithLast(p, core)) && Sanitized(WithLast(p, core)) == Sanitized(p)
  {
    var cut := WithLast(p, core);
    assert forall i | 0 <= i < |p| - 1 :: cut[i] == p[i];
    assert core != "";
  }

  /** A text that trims to the text of a mappable path sanitises segment by segment. */
  lemma SanitizeTrimmed(text: string, cut: Path)
    requires Mappable(cut) && TrimEnd(TrimStart(text)) == RemoteText(cut)
    ensures SanitizeRemotePath(text) == Ok(RemoteText(Sanitized(cut)))
  {
    CleanTextEnds(cut);
    SplitText(cut);
    SanitizeAllIsSegmentwise(cut);
    assert RemoteText(cut)[|REMOTE_PREFIX|..] == Text(cut);
  }

  lemma {:induction false} CleanTextEnds(p: Path)
    requires Clean(p) && p != []
    ensures Text(p) != "" && Text(p)[0] != '/' && Text(p)[|Text(p)| - 1] != '/'
  {
    assert p[0] != "" && NoSlash(p[0]);
    if |p| > 1 {
      CleanTextEnds(p[1..]);
    }
  }

  lemma RemoteTextUnder(root: Path, rel: Path)
    requires root != [] && rel != []
    ensures RemoteText(root + rel) == RemoteText(root) + "/" + Text(rel)
  {
    PrefixGivesUnder(root + rel, root);
    assert (root + rel)[|root|..] == rel;
    Regroup(REMOTE_PREFIX, Text(root), "/");
    Regroup(REMOTE_PREFIX, Text(root) + "/", Text(rel));
  }

  lemma SanitizedConcat(a: Path, b: Path)
    ensures Sanitized(a + b) == Sanitized(a) + Sanitized(b)
    ensures Mappable(a) && Mappable(b) ==> Mappable(a + b)
  {
  }

  /** A sanitised path text is left alone by a second pass exactly when it does not end in white space. */
  lemma SanitizeIdempotentIff(text: string)
    requires SanitizeRemotePath(text).Ok?
    ensures var t := SanitizeRemotePath(text).value;
      t != "" && (SanitizeRemotePath(t) == Ok(t) <==> !IsWhitespace(t[|t| - 1]))
  {
    var p := RemoteRootSegments(text).value;
    SanitizedOutput(text);
    var t := RemoteText(p);
    SanitizeIsSegmentwiseIff(p);
    TrimmedRemoteText(p);
    var last, w := p[|p| - 1], TrailingSpace(t);
    TrimEndFacts(t);
    assert t[|t| - 1] == last[|last| - 1] by {
      RemoteTextLast(p, last);
    }
    if w != "" {
      assert Kept(w[0]);
      assert Reduce(w)[0] == w[0];
    }
  }

  lemma SanitizedOutput(text: string)
    requires SanitizeRemotePath(text).Ok?
    ensures var p := RemoteRootSegments(text).value;
      && Mappable(p) && Sanitized(p) == p
      && (forall i, j | 0 <= i < |p| && 0 <= j < |p[i]| :: Kept(p[i][j]))
    ensures forall i, c | 0 <= i < |RemoteRootSegments(text).value| && c in RemoteRootSegments(text).value[i] ::
      && c != '<' && c != '>' && c != ':' && c != '"' && c != '|' && c != '?' && c != '*' && c != '\\' && c != '/'
      && ' ' <= c && !(0x7f <= c as int <= 0x9f)
  {
    var trimmed := TrimEnd(TrimStart(text));
    var body := TrimSlashEnd(TrimSlashStart(trimmed[|REMOTE_PREFIX|..]));
    SplitFacts(body);
    var raw := Split(body);
    SanitizeAllIsSegmentwise(raw);
    var p := Sanitized(raw);
    forall i | 0 <= i < |p| ensures FilterSegment(p[i]) == p[i] && forall j | 0 <= j < |p[i]| :: Kept(p[i][j]) {
      FilterKeeps(raw[i]);
    }
    assert Sanitized(p) == p;
  }

  lemma {:induction false} FilterKeeps(s: Segment)
    ensures forall j | 0 <= j < |FilterSegment(s)| :: Kept(FilterSegment(s)[j])
    ensures FilterSegment(FilterSegment(s)) == FilterSegment(s)
  {
    if s != "" {
      FilterKeeps(s[1..]);
      if Kept(s[0]) {
        assert FilterSegment(s)[1..] == FilterSegment(s[1..]);
      }
    }
  }

  /** A name that ends in a space once sanitised does not survive a second pass. */
  lemma SanitizeNotIdempotent()
    ensures SanitizeRemotePath("disk:/a ?") == Ok("disk:/a ")
    ensures SanitizeRemotePath("disk:/a ") != Ok("disk:/a ")
  {
    assert "a ?"[1..] == " ?" && " ?"[1..] == "?" && "?"[1..] == "";
    assert FilterSegment("?") == "" && FilterSegment(" ?") == " " && FilterSegment("a ?") == "a ";
    assert REMOTE_PREFIX + "a ?" == "disk:/a ?" && REMOTE_PREFIX + "a " == "disk:/a ";
    OneSegment("disk:/a ?", "a ?", "a ");
    SanitizeIdempotentIff("disk:/a ?");
  }

  lemma OneSegment(text: string, body: Segment, kept: Segment)
    requires text == REMOTE_PREFIX + body && NoSlash(body) && body != ""
    requires !IsWhitespace(body[|body| - 1])
    requires FilterSegment(body) == kept && kept != ""
    ensures SanitizeRemotePath(text) == Ok(REMOTE_PREFIX + kept)
    ensures TrimEnd(TrimStart(text)) == text
  {
    assert text[0] == 'd' && text[|text| - 1] == body[|body| - 1];
    assert text[|REMOTE_PREFIX|..] == body;
    SplitSegment(body, "");
    assert body + "" == body;
    SanitizeAllIsSegmentwise([body]);
    assert Sanitized([body]) == [kept];
  }
}
