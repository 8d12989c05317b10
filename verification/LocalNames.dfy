/**
 * The relative path of a local entry.  The program joins the names with slashes, turns
 * every backslash into a slash and trims slashes at both ends.  On Linux a name may hold
 * backslashes, so one name may become several segments, or none.
 */
module LocalNames {
  import opened Paths
  import opened PathText
  import opened PathMapping

  /** `replace('\\', "/")` */
  function Slashes(s: string): (r: string)
    ensures |r| == |s|
  {
    seq(|s|, i requires 0 <= i < |s| => if s[i] == '\\' then '/' else s[i])
  }

  /** `relative_path`: the text stored with an entry. */
  function RelativeText(local: Path): string {
    TrimSlashEnd(TrimSlashStart(Slashes(Text(local))))
  }

  /** The same as segments. */
  function RelOf(local: Path): (rel: Path)
    ensures rel != []
  {
    SplitNotEmpty(RelativeText(local));
    Split(RelativeText(local))
  }

  /** The empty relative text: that of the managed root, and of a name made of backslashes. */
  const ROOT_REL: Path := [""]

  lemma SplitNotEmpty(s: string)
    ensures Split(s) != []
  {
    SplitFacts(s);
  }

  predicate NoBackslash(s: string) {
    forall i | 0 <= i < |s| :: s[i] != '\\'
  }

  /** No name holds a backslash. */
  predicate Ordinary(p: Path) {
    Clean(p) && forall i | 0 <= i < |p| :: NoBackslash(p[i])
  }

  // ----- splitting

  /** What a first character does to the segments of a text. */
  function WithFirst(c: char, p: Path): Path
    requires p != []
  {
    if c == '/' then [""] + p else [[c] + p[0]] + p[1..]
  }

  lemma SplitFirst(c: char, s: string)
    ensures Split(s) != [] && Split([c] + s) == WithFirst(c, Split(s))
  {
    SplitNotEmpty(s);
    assert ([c] + s)[1..] == s;
  }

  lemma WithFirstConcat(c: char, p: Path, q: Path)
    requires p != []
    ensures WithFirst(c, p + q) == WithFirst(c, p) + q
  {
    assert (p + q)[0] == p[0] && (p + q)[1..] == p[1..] + q;
  }

  lemma {:induction false} SplitConcat(a: string, b: string)
    ensures Split(a + "/" + b) == Split(a) + Split(b)
  {
    if a == "" {
      assert a + "/" + b == ['/'] + b;
      SplitFirst('/', b);
    } else {
      SplitConcat(a[1..], b);
      SplitFirst(a[0], a[1..] + "/" + b);
      SplitFirst(a[0], a[1..]);
      WithFirstConcat(a[0], Split(a[1..]), Split(b));
      assert a + "/" + b == [a[0]] + (a[1..] + "/" + b) && a == [a[0]] + a[1..];
    }
  }

  /** Segments without slashes are those of their text. */
  lemma {:induction false} SplitJoin(p: Path)
    requires p != [] && SlashFree(p)
    ensures Split(Text(p)) == p
  {
    SplitSegment(p[0], "");
    assert p[0] + "" == p[0];
    if |p| > 1 {
      SplitJoin(p[1..]);
      SplitConcat(p[0], Text(p[1..]));
      assert p == [p[0]] + p[1..];
    }
  }

  // ----- trimming slashes

  predicate AllSlashes(s: string) {
    forall i | 0 <= i < |s| :: s[i] == '/'
  }

  lemma {:induction false} SlashStartFacts(s: string)
    ensures var t := TrimSlashStart(s);
      && |t| <= |s| && t == s[|s| - |t|..] && AllSlashes(s[..|s| - |t|])
      && (t != "" ==> t[0] != '/')
  {
    if s != "" && s[0] == '/' {
      SlashStartFacts(s[1..]);
    }
  }

  lemma {:induction false} SlashEndFacts(s: string)
    ensures var t := TrimSlashEnd(s);
      && |t| <= |s| && t == s[..|t|] && AllSlashes(s[|t|..])
      && (t != "" ==> t[|t| - 1] != '/')
  {
    if s != "" && s[|s| - 1] == '/' {
      SlashEndFacts(s[..|s| - 1]);
    }
  }

  /** What stands before the trimmed slashes is what trimming leaves. */
  lemma {:induction false} SlashEndOnly(a: string, s: string)
    requires AllSlashes(s) && (a != "" ==> a[|a| - 1] != '/')
    ensures TrimSlashEnd(a + s) == a
  {
    if s == "" {
      assert a + s == a;
    } else {
      assert (a + s)[..|a + s| - 1] == a + s[..|s| - 1];
      SlashEndOnly(a, s[..|s| - 1]);
    }
  }

  lemma {:induction false} SlashStartConcat(a: string, b: string)
    requires TrimSlashStart(a) != ""
    ensures TrimSlashStart(a + b) == TrimSlashStart(a) + b
  {
    assert (a + b)[0] == a[0];
    if a[0] == '/' {
      assert (a + b)[1..] == a[1..] + b;
      SlashStartConcat(a[1..], b);
    }
  }

  lemma {:induction false} SlashEndKeeps(s: string, i: nat)
    requires i < |s| && s[i] != '/'
    ensures i < |TrimSlashEnd(s)|
  {
    if s[|s| - 1] == '/' {
      SlashEndKeeps(s[..|s| - 1], i);
    }
  }

  /** Trimming a longer text keeps what trimming leaves of the front, up to a slash. */
  lemma {:induction false} SlashEndConcat(a: string, b: string)
    requires TrimSlashEnd(a) != "" && b != "" && b[0] == '/'
    ensures var t, whole := TrimSlashEnd(a), TrimSlashEnd(a + b);
      whole == t || (|t| < |whole| && whole[..|t|] == t && whole[|t|] == '/')
  {
    var t, whole := TrimSlashEnd(a), TrimSlashEnd(a + b);
    SlashEndFacts(a);
    SlashEndFacts(a + b);
    assert (a + b)[..|t|] == t && (a + b)[|t| - 1] == t[|t| - 1];
    assert |t| < |a + b| && (a + b)[|t|] == '/' by {
      assert |t| < |a| ==> (a + b)[|t|] == a[|t|..][0];
    }
    SlashEndKeeps(a + b, |t| - 1);
    assert whole[..|t|] == t;
  }

  // ----- relative paths

  /** The shape of a relative path: empty, or beginning and ending with a name; never a backslash. */
  lemma RelShape(local: Path)
    ensures var rel := RelOf(local);
      && SlashFree(rel) && Text(rel) == RelativeText(local) && NoBackslash(Text(rel))
      && (rel == ROOT_REL || (rel[0] != "" && rel[|rel| - 1] != ""))
  {
    var s := Slashes(Text(local));
    var t := TrimSlashStart(s);
    var text := RelativeText(local);
    SlashStartFacts(s);
    SlashEndFacts(t);
    SplitFacts(text);
    assert forall i | 0 <= i < |text| :: text[i] == t[i] == s[|s| - |t| + i] != '\\';
    if text != "" {
      assert text[0] == t[0] != '/';
      SplitEnds(text);
    }
  }

  lemma {:induction false} SplitEnds(s: string)
    requires s != ""
    ensures var p := Split(s);
      && p != [] && (s[0] != '/' ==> p[0] != "") && (s[|s| - 1] != '/' ==> p[|p| - 1] != "")
  {
    SplitFacts(s);
    if |s| > 1 {
      SplitEnds(s[1..]);
    } else {
      assert s[1..] == "";
    }
  }

  /** Without backslashes the relative path is the local one. */
  lemma OrdinaryRel(local: Path)
    requires local != [] && Ordinary(local)
    ensures RelOf(local) == local
  {
    var t := Text(local);
    OrdinaryText(local);
    assert Slashes(t) == t;
    CleanTextEnds(local);
    SplitJoin(local);
  }

  lemma {:induction false} OrdinaryText(p: Path)
    requires forall i | 0 <= i < |p| :: NoBackslash(p[i])
    ensures NoBackslash(Text(p))
  {
    if |p| > 1 {
      OrdinaryText(p[1..]);
    }
  }

  /** The relative text of an ancestor is continued after a slash, unless it is empty. */
  lemma AncestorText(q: Path, p: Path)
    requires q != [] && q < p && RelativeText(q) != "" && TrimSlashStart(Slashes(Text(q))) != ""
    ensures var t, whole := RelativeText(q), RelativeText(p);
      whole == t || (|t| < |whole| && whole[..|t|] == t && whole[|t|] == '/')
  {
    var rest := Text(p[|q|..]);
    PrefixGivesUnder(p, q);
    assert Text(p) == Text(q) + ("/" + rest);
    SlashesConcat(Text(q), "/" + rest);
    SlashStartConcat(Slashes(Text(q)), Slashes("/" + rest));
    SlashEndConcat(TrimSlashStart(Slashes(Text(q))), Slashes("/" + rest));
  }

  lemma SlashesConcat(a: string, b: string)
    ensures Slashes(a + b) == Slashes(a) + Slashes(b)
  {
  }

  /** The relative path of an ancestor is a prefix, unless it is empty. */
  lemma AncestorRel(q: Path, p: Path)
    requires q != [] && q <= p && RelOf(q) != ROOT_REL
    ensures RelOf(q) <= RelOf(p)
  {
    if q != p {
      TrimmedAway(q);
      AncestorText(q, p);
      SplitExtends(RelativeText(q), RelativeText(p));
    }
  }

  lemma SplitExtends(t: string, whole: string)
    requires whole == t || (|t| < |whole| && whole[..|t|] == t && whole[|t|] == '/')
    ensures Split(t) <= Split(whole)
  {
    if whole != t {
      assert whole == t + "/" + whole[|t| + 1..];
      SplitConcat(t, whole[|t| + 1..]);
    }
  }

  lemma TrimmedAway(q: Path)
    requires RelOf(q) != ROOT_REL
    ensures RelativeText(q) != "" && TrimSlashStart(Slashes(Text(q))) != ""
  {
    assert Split("") == ROOT_REL && TrimSlashEnd("") == "";
  }

  /** A Linux file named "a\b", and one named "\". */
  lemma BackslashNames()
    ensures RelOf(["a\\b"]) == ["a", "b"] && RelOf(["\\"]) == ROOT_REL
  {
    var s := Slashes("a\\b");
    assert s == "a/b";
    assert TrimSlashStart("a/b") == "a/b" && TrimSlashEnd("a/b") == "a/b";
    SplitConcat("a", "b");
    assert "a" + "/" + "b" == "a/b";
    SplitJoin(["a"]);
    SplitJoin(["b"]);
    var t := Slashes("\\");
    assert t == "/" && "/"[1..] == "";
    assert TrimSlashStart("/") == "" && TrimSlashEnd("") == "";
  }
}
