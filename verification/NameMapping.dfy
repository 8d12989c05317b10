/**
 * Where the program puts a local entry: the managed root, a slash and the relative path are
 * joined, the whole text is trimmed, and only then are the segments sanitised.  So the last
 * name of an entry loses its trailing white space, while the same name keeps it in the
 * paths of the entries below.
 */
module NameMapping {
  import opened Paths
  import opened PathText
  import opened PathMapping
  import opened LocalNames

  function Last(p: Path): Segment
    requires p != []
  {
    p[|p| - 1]
  }

  /** A name of white space only: trimming removes it together with the slashes before it. */
  predicate Blank(s: Segment) {
    TrimEnd(s) == ""
  }

  function DropEmpty(p: Path): (r: Path)
    ensures r <= p && (r != [] ==> Last(r) != "")
    ensures forall i | |r| <= i < |p| :: p[i] == ""
  {
    if p != [] && Last(p) == "" then DropEmpty(Parent(p)) else p
  }

  /** The relative path once the text has been trimmed. */
  function Cut(rel: Path): Path
    requires rel != []
  {
    if Blank(Last(rel)) then DropEmpty(Parent(rel)) else WithLast(rel, TrimEnd(Last(rel)))
  }

  /** No segment is empty once sanitised; otherwise the entry cannot be mapped. */
  predicate Maps(rel: Path)
    requires rel != []
  {
    forall i | 0 <= i < |Cut(rel)| :: FilterSegment(Cut(rel)[i]) != ""
  }

  /** The segments below the managed root under which the entry is stored. */
  function Image(rel: Path): Path
    requires rel != []
  {
    Sanitized(Cut(rel))
  }

  // ----- the image is what the text mapping computes

  /** The text of a path trims in its last segment. */
  lemma TrimmedInLast(p: Path)
    requires p != []
    ensures TrimEnd(TrimStart(RemoteText(p))) == RemoteText(WithLast(p, TrimEnd(Last(p))))
    ensures TrailingSpace(RemoteText(p)) == TrailingSpace(Last(p))
  {
    var head, last := Stem(p) + "/", Last(p);
    SlashBeforeLast(p);
    RemoteTextLast(p, last);
    RemoteTextLast(p, TrimEnd(last));
    TrimEndConcat(head, last);
    TrimEndFacts(last);
    TakeDrop(head + last, head + TrimEnd(last), last[|TrimEnd(last)|..]);
  }

  lemma CutOfJoin(root: Path, rel: Path)
    requires rel != []
    ensures Last(root + rel) == Last(rel) && Parent(root + rel) == root + Parent(rel)
    ensures forall s: Segment :: WithLast(root + rel, s) == root + WithLast(rel, s)
  {
  }

  /** Cutting keeps slashes out. */
  lemma CutSlashFree(rel: Path)
    requires SlashFree(rel) && rel != []
    ensures SlashFree(Cut(rel)) && (Cut(rel) != [] ==> Last(Cut(rel)) != "")
  {
    TrimEndFacts(Last(rel));
    var cut := Cut(rel);
    forall i | 0 <= i < |cut| ensures NoSlash(cut[i]) {
      assert i < |rel| - 1 ==> cut[i] == rel[i];
    }
  }

  lemma {:induction false} TextEnds(p: Path)
    requires p != [] && SlashFree(p) && p[0] != "" && Last(p) != ""
    ensures Text(p) != "" && Text(p)[0] != '/' && Text(p)[|Text(p)| - 1] != '/'
  {
    TextHead(p);
    if |p| > 1 {
      LastSegment(Parent(p), Last(p));
      assert p == Parent(p) + [Last(p)];
    }
  }

  /** A text that trims to the text of a path and slashes is sanitised segment by segment. */
  lemma SanitizedAfterTrim(text: string, p: Path, slashes: string)
    requires p != [] && SlashFree(p) && p[0] != "" && Last(p) != "" && AllSlashes(slashes)
    requires TrimEnd(TrimStart(text)) == RemoteText(p) + slashes
    ensures SanitizeRemotePath(text).Ok? <==> forall i | 0 <= i < |p| :: FilterSegment(p[i]) != ""
    ensures SanitizeRemotePath(text).Ok? ==> SanitizeRemotePath(text).value == RemoteText(Sanitized(p))
  {
    TextEnds(p);
    SplitJoin(p);
    SanitizeAllIsSegmentwise(p);
    Regroup(REMOTE_PREFIX, Text(p), slashes);
    TakeDrop(RemoteText(p) + slashes, REMOTE_PREFIX, Text(p) + slashes);
    assert (Text(p) + slashes)[0] == Text(p)[0];
    SlashEndOnly(Text(p), slashes);
  }

  /** Dropped empty segments leave slashes in the text. */
  lemma {:induction false} DropText(root: Path, p: Path) returns (slashes: string)
    requires root != []
    ensures AllSlashes(slashes) && RemoteText(root + p) == RemoteText(root + DropEmpty(p)) + slashes
    decreases |p|
  {
    if p != [] && Last(p) == "" {
      var fewer := DropText(root, Parent(p));
      slashes := fewer + "/";
      CutOfJoin(root, p);
      BlankText(root + p);
      assert WithLast(root + p, "") == root + p;
      Regroup(RemoteText(root + DropEmpty(p)), fewer, "/");
    } else {
      slashes := "";
      assert RemoteText(root + p) + "" == RemoteText(root + p);
    }
  }

  lemma JoinedCut(root: Path, cut: Path)
    requires Mappable(root) && SlashFree(cut) && (cut != [] ==> Last(cut) != "")
    ensures var p := root + cut;
      p != [] && SlashFree(p) && p[0] != "" && Last(p) != ""
  {
    assert forall i | 0 <= i < |root + cut| :: (root + cut)[i] == if i < |root| then root[i] else cut[i - |root|];
  }

  /** `remote_path_for_relative`: the managed root, a slash, the relative text, sanitised. */
  function RemotePathForRelative(rootText: string, relative: string): Result<string> {
    SanitizeRemotePath(TrimSlashEnd(rootText) + "/" + Slashes(relative))
  }

  lemma JoinedText(root: Path, rel: Path, relative: string)
    requires Mappable(root) && rel != [] && Split(Slashes(relative)) == rel
    ensures TrimSlashEnd(RemoteText(root)) + "/" + Slashes(relative) == RemoteText(root + rel)
  {
    CleanTextEnds(root);
    SplitFacts(Slashes(relative));
    RemoteTextUnder(root, rel);
    assert RemoteText(root)[|RemoteText(root)| - 1] == Text(root)[|Text(root)| - 1];
  }

  /**
   * Whatever the text stored for an entry, mapping it succeeds exactly if its segments map,
   * and then yields the root followed by their image.
   */
  lemma TextIsImage(root: Path, rel: Path, relative: string)
    requires Mappable(root) && Sanitized(root) == root && Split(Slashes(relative)) == rel
    ensures rel != [] && (RemotePathForRelative(RemoteText(root), relative).Ok? <==> Maps(rel))
    ensures Maps(rel) ==> RemotePathForRelative(RemoteText(root), relative) == Ok(RemoteText(root + Image(rel)))
  {
    SplitFacts(Slashes(relative));
    JoinedText(root, rel, relative);
    var full, cut := root + rel, root + Cut(rel);
    CutOfJoin(root, rel);
    TrimmedInLast(full);
    CutSlashFree(rel);
    JoinedCut(root, Cut(rel));
    var slashes := "";
    if Blank(Last(rel)) {
      BlankText(full);
      slashes := DropText(root, Parent(rel));
      Regroup(RemoteText(cut), slashes, "/");
      slashes := slashes + "/";
    }
    assert RemoteText(cut) + "" == RemoteText(cut);
    SanitizedAfterTrim(RemoteText(full), cut, slashes);
    SanitizedConcat(root, Cut(rel));
    JoinMaps(root, rel);
  }

  /** For every local entry: mapping succeeds exactly if its relative path maps, and yields its image. */
  lemma MappingIsImage(root: Path, local: Path)
    requires Mappable(root) && Sanitized(root) == root
    ensures RemotePathForRelative(RemoteText(root), RelativeText(local)).Ok? <==> Maps(RelOf(local))
    ensures Maps(RelOf(local)) ==>
      RemotePathForRelative(RemoteText(root), RelativeText(local)) == Ok(RemoteText(root + Image(RelOf(local))))
  {
    RelShape(local);
    assert Slashes(RelativeText(local)) == RelativeText(local);
    TextIsImage(root, RelOf(local), RelativeText(local));
  }

  /** A relative text is stored segment by segment exactly if trimming loses nothing that sanitising keeps. */
  lemma RelativeMappingIff(root: Path, rel: Path, relative: string)
    requires Mappable(root) && Sanitized(root) == root && Mappable(rel) && Split(Slashes(relative)) == rel
    ensures RemotePathForRelative(RemoteText(root), relative) == Ok(RemoteText(root + Sanitized(rel)))
      <==> Reduce(TrailingSpace(RemoteText(root + rel))) == ""
  {
    JoinedText(root, rel, relative);
    SanitizedConcat(root, rel);
    SanitizeIsSegmentwiseIff(root + rel);
  }

  lemma JoinMaps(root: Path, rel: Path)
    requires Mappable(root) && rel != []
    ensures Maps(rel) <==>
      forall i | 0 <= i < |root + Cut(rel)| :: FilterSegment((root + Cut(rel))[i]) != ""
  {
    var cut := root + Cut(rel);
    assert forall i | 0 <= i < |cut| :: cut[i] == if i < |root| then root[i] else Cut(rel)[i - |root|];
    assert forall i | 0 <= i < |Cut(rel)| :: Cut(rel)[i] == cut[|root| + i];
  }

  lemma BlankText(p: Path)
    requires |p| > 1
    ensures RemoteText(WithLast(p, "")) == RemoteText(Parent(p)) + "/"
  {
    var q := Parent(p);
    RemoteTextUnder(q, [""]);
    assert q + [""] == WithLast(p, "");
    assert RemoteText(q) + "/" + "" == RemoteText(q) + "/";
  }

  // ----- the shape of images

  /** Above its last name an entry is mapped segment by segment. */
  lemma ImageShape(rel: Path)
    requires rel != []
    ensures |Image(rel)| <= |rel| && (|Image(rel)| < |rel| <==> Blank(Last(rel)))
    ensures forall k | 0 <= k <= |Image(rel)| && k < |rel| :: Image(rel)[..k] == Sanitized(rel[..k])
  {
    forall k | 0 <= k <= |Image(rel)| && k < |rel| ensures Image(rel)[..k] == Sanitized(rel[..k]) {
      assert Cut(rel)[..k] == rel[..k];
    }
  }

  /** The trailing white space of the last name holds nothing that sanitising keeps. */
  predicate Plain(rel: Path)
    requires rel != []
  {
    !Blank(Last(rel)) && FilterSegment(TrailingSpace(Last(rel))) == ""
  }

  /** An entry is stored segment by segment exactly if its name is plain. */
  lemma PlainIff(rel: Path)
    requires rel != []
    ensures Plain(rel) <==> Image(rel) == Sanitized(rel)
  {
    if !Blank(Last(rel)) {
      var last, n := Last(rel), |rel| - 1;
      TrimEndFacts(last);
      assert last == TrimEnd(last) + TrailingSpace(last);
      FilterConcat(TrimEnd(last), TrailingSpace(last));
      assert forall i | 0 <= i < n :: Cut(rel)[i] == rel[i];
      assert Image(rel)[n] == FilterSegment(TrimEnd(last)) && Sanitized(rel)[n] == FilterSegment(last);
      if Plain(rel) {
        assert FilterSegment(TrimEnd(last)) + "" == FilterSegment(TrimEnd(last));
        assert Image(rel) == Sanitized(rel);
      } else {
        assert |FilterSegment(last)| > |FilterSegment(TrimEnd(last))|;
      }
    }
  }

  lemma {:induction false} FilterConcat(a: string, b: string)
    ensures FilterSegment(a + b) == FilterSegment(a) + FilterSegment(b)
  {
    if a == "" {
      assert a + b == b;
    } else {
      assert (a + b)[1..] == a[1..] + b;
      FilterConcat(a[1..], b);
    }
  }

  /** In terms of the text: a mappable path has a plain name exactly if trimming its text loses nothing kept. */
  lemma PlainText(root: Path, rel: Path)
    requires Mappable(root) && Mappable(rel)
    ensures Plain(rel) <==> Reduce(TrailingSpace(RemoteText(root + rel))) == ""
  {
    var last := Last(rel);
    CutOfJoin(root, rel);
    assert Clean(root + rel);
    TrimmedInLast(root + rel);
    TrimEndFacts(last);
    assert NoSlash(TrailingSpace(last));
    ReduceSegment(TrailingSpace(last));
    if Blank(last) {
      assert TrailingSpace(last) == last;
      assert FilterSegment(rel[|rel| - 1]) != "";
    }
  }

  /**
   * A local entry is stored at the managed root itself exactly if its relative text is blank,
   * as for a top-level name of white space only or of backslashes only.
   */
  lemma AtRootIff(local: Path)
    ensures Image(RelOf(local)) == [] <==> Blank(RelativeText(local))
  {
    var rel, text := RelOf(local), RelativeText(local);
    RelShape(local);
    if |rel| > 1 {
      AncestorCut(rel, rel[..1]);
      TextHead(rel);
      SlashNotBlank(text, |rel[0]|);
    }
  }

  lemma {:induction false} SlashNotBlank(s: string, i: nat)
    requires i < |s| && s[i] == '/'
    ensures !Blank(s)
  {
    if IsWhitespace(s[|s| - 1]) {
      SlashNotBlank(s[..|s| - 1], i);
    }
  }

  /** Plain ancestors of an entry that maps, map. */
  lemma AncestorMaps(rel: Path, q: Path)
    requires rel != [] && Maps(rel) && q != [] && q < rel && Plain(q)
    ensures Maps(q)
  {
    PlainIff(q);
    AncestorCut(rel, q);
    forall i | 0 <= i < |Cut(q)| ensures FilterSegment(Cut(q)[i]) != "" {
      assert Image(q)[i] == Sanitized(q)[i] == FilterSegment(q[i]);
      assert Cut(rel)[i] == q[i];
    }
  }

  /** Cutting does not reach a name above that is not empty. */
  lemma AncestorCut(rel: Path, q: Path)
    requires rel != [] && q != [] && q < rel && Last(q) != ""
    ensures |q| <= |Cut(rel)| && Cut(rel)[..|q|] == q
  {
    var up := Parent(rel);
    assert q <= up && up[|q| - 1] == Last(q);
    assert |DropEmpty(up)| >= |q|;
    assert Cut(rel)[..|q|] == rel[..|q|];
  }

  // ----- names that end in white space

  lemma SpacedNames()
    ensures TrimEnd("a") == "a" && TrimEnd("f") == "f" && TrimEnd("a ") == "a" && TrimEnd("f ") == "f"
    ensures FilterSegment("a") == "a" && FilterSegment("f") == "f" && FilterSegment("a ") == "a "
  {
    assert "a "[..1] == "a" && "f "[..1] == "f" && "a "[1..] == " ";
    assert " "[1..] == "" && "a"[1..] == "" && "f"[1..] == "";
    assert FilterSegment(" ") == " ";
  }

  /** A directory "a " is stored as "a", a file in it below "a "; a file "f " is stored as "f". */
  lemma SpacedImages()
    ensures Image(["a "]) == ["a"] && Image(["a"]) == ["a"]
    ensures Image(["a ", "f"]) == ["a ", "f"] && Image(["a", "f "]) == ["a", "f"]
    ensures Maps(["a "]) && Maps(["a ", "f"]) && !Plain(["a "])
  {
    SpacedNames();
    assert Cut(["a "]) == ["a"] && Cut(["a"]) == ["a"];
    assert Cut(["a ", "f"]) == ["a ", "f"] && Cut(["a", "f "]) == ["a", "f"];
    PlainIff(["a "]);
    assert Sanitized(["a "])[0] == "a ";
  }
}
