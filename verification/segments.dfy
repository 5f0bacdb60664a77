/** Slash-separated segments: a character-scanning reference for "the segment after the
    first '/'", and the theory of paths assembled as "/s0/s1/.../sn". */
module Segments {
  import opened Wrappers
  import opened PyStr

  /** The longest prefix of `t` that holds no '/'. */
  function UpToSlash(t: string): (r: string)
    ensures '/' !in r && StartsWith(t, r)
    ensures |r| < |t| ==> t[|r|] == '/'
    decreases |t|
  {
    if |t| == 0 || t[0] == '/' then "" else [t[0]] + UpToSlash(t[1..])
  }

  /** Scans `t` for its first '/' and yields the segment that follows it, up to the
      next '/' or the end; `None` when `t` holds no '/'. */
  function AfterSlash(t: string): (r: Option<string>)
    ensures r.None? <==> '/' !in t
    ensures r.Some? ==> '/' !in r.value
    decreases |t|
  {
    if |t| == 0 then None
    else if t[0] == '/' then Some(UpToSlash(t[1..]))
    else AfterSlash(t[1..])
  }

  /** Nothing follows the end of a string. */
  lemma NothingAfterEnd(t: string, k: int)
    requires k == |t|
    ensures AfterSlash(t[k..]) == None
  {
    assert t[k..] == "";
  }

  /** Any slash-free prefix that ends at a '/' (or at the end) is the one `UpToSlash` finds. */
  lemma UpToSlashUnique(t: string, x: string)
    requires '/' !in x && StartsWith(t, x)
    requires |x| == |t| || t[|x|] == '/'
    ensures UpToSlash(t) == x
  {
    var r := UpToSlash(t);
    PrefixChar(t, x, |r|);
    PrefixChar(t, r, |x|);
    assert r == t[..|r|] && x == t[..|x|];
  }

  /** A prefix agrees with the whole string character by character. */
  lemma PrefixChar(t: string, x: string, i: int)
    ensures StartsWith(t, x) && 0 <= i < |x| ==> x[i] == t[i]
  {
    if StartsWith(t, x) && 0 <= i < |x| {
      assert x[i] == t[..|x|][i];
    }
  }

  /** The segment after the first '/' of `a + "/" + v + b` is `v`. */
  lemma {:induction false} AfterSlashOf(a: string, v: string, b: string)
    requires '/' !in a && '/' !in v && (b == "" || b[0] == '/')
    ensures AfterSlash(a + "/" + v + b) == Some(v)
    decreases |a|
  {
    var t := a + "/" + v + b;
    if |a| == 0 {
      assert t[0] == '/' && t[1..] == v + b;
      UpToSlashUnique(v + b, v);
    } else {
      assert t[0] == a[0] != '/';
      assert t[1..] == a[1..] + "/" + v + b;
      AfterSlashOf(a[1..], v, b);
    }
  }

  lemma OccursAtChar(s: string, c: char, j: int)
    requires 0 <= j < |s|
    ensures OccursAt(s, [c], j) <==> s[j] == c
  {
    assert s[j..j + 1] == [s[j]];
  }

  /** Past the rightmost '/' there is none. */
  lemma SlashFreeAfterLast(s: string, pos: int)
    requires pos == RFind(s, "/")
    ensures '/' !in s[pos + 1..]
    ensures pos >= 0 ==> s[pos] == '/'
  {
    forall j | pos < j < |s|
      ensures s[j] != '/'
    {
      OccursAtChar(s, '/', j);
    }
    if pos >= 0 {
      OccursAtChar(s, '/', pos);
    }
  }

  /** The first piece of `split('/')` is the text before the first '/'. */
  lemma SplitSlashHead(s: string)
    ensures Split(s, "/")[0] == UpToSlash(s)
  {
    var i := Find(s, "/");
    FindSpec(s, "/");
    if i < 0 {
      ContainsChar(s, '/');
      UpToSlashUnique(s, s);
    } else {
      SlashFreeBeforeFirst(s, i);
      UpToSlashUnique(s, s[..i]);
    }
  }

  /** Before the first '/' there is none. */
  lemma SlashFreeBeforeFirst(t: string, i: int)
    requires IsFirstOccurrence(t, "/", i)
    ensures '/' !in t[..i] && t[i] == '/'
  {
    forall j | 0 <= j < i
      ensures t[j] != '/'
    {
      OccursAtChar(t, '/', j);
    }
    OccursAtChar(t, '/', i);
  }

  /** Python's `t.split('/')` has a second piece exactly when the scan finds a '/',
      and that piece is the segment the scan returns. */
  lemma SplitSlashSecond(t: string)
    ensures |Split(t, "/")| > 1 <==> AfterSlash(t).Some?
    ensures |Split(t, "/")| > 1 ==> Split(t, "/")[1] == AfterSlash(t).value
  {
    var i := Find(t, "/");
    FindSpec(t, "/");
    ContainsChar(t, '/');
    if i >= 0 {
      SplitSlashSecondAt(t, i);
    }
  }

  lemma SplitSlashSecondAt(t: string, i: int)
    requires i == Find(t, "/") && i >= 0
    ensures |Split(t, "/")| > 1 && AfterSlash(t).Some? && Split(t, "/")[1] == AfterSlash(t).value
  {
    SplitSecondPiece(t, i);
    AfterFirstSlash(t, i);
  }

  lemma SplitSecondPiece(t: string, i: int)
    requires i == Find(t, "/") && i >= 0
    ensures |Split(t, "/")| > 1 && Split(t, "/")[1] == UpToSlash(t[i + 1..])
  {
    var rest := t[i + 1..];
    SplitCut(t, "/", i, Split(rest, "/"));
    SplitSlashHead(rest);
  }

  lemma AfterFirstSlash(t: string, i: int)
    requires i == Find(t, "/") && i >= 0
    ensures AfterSlash(t) == Some(UpToSlash(t[i + 1..]))
  {
    FindSpec(t, "/");
    SlashFreeBeforeFirst(t, i);
    AfterSlashAt(t, i);
  }

  /** The scan stops at the first '/'. */
  lemma {:induction false} AfterSlashAt(t: string, i: int)
    requires 0 <= i < |t| && t[i] == '/' && '/' !in t[..i]
    ensures AfterSlash(t) == Some(UpToSlash(t[i + 1..]))
    decreases i
  {
    if i > 0 {
      assert t[0] == t[..i][0];
      assert t[1..][..i - 1] == t[1..i];
      assert t[1..][i..] == t[i + 1..];
      AfterSlashAt(t[1..], i - 1);
    }
  }

  /** The path "/s0/s1/.../sn" built from its segments. */
  function Path(segs: seq<string>): string
  {
    if |segs| == 0 then "" else "/" + segs[0] + Path(segs[1..])
  }

  /** Every segment is free of '/'. */
  predicate SlashFreeSegments(segs: seq<string>) {
    forall j :: 0 <= j < |segs| ==> '/' !in segs[j]
  }

  /** Each segment lower-cased. */
  function LowerAll(segs: seq<string>): (r: seq<string>)
    ensures |r| == |segs|
    ensures forall j :: 0 <= j < |segs| ==> r[j] == Lower(segs[j])
  {
    seq(|segs|, j requires 0 <= j < |segs| => Lower(segs[j]))
  }

  /** The path of two runs of segments is the two paths joined. */
  lemma {:induction false} PathAppend(a: seq<string>, b: seq<string>)
    ensures Path(a + b) == Path(a) + Path(b)
    decreases |a|
  {
    if |a| > 0 {
      PathAppend(a[1..], b);
      assert (a + b)[1..] == a[1..] + b;
    } else {
      assert a + b == b;
    }
  }

  /** Every run of consecutive segments occurs, as a path, inside the whole path. */
  lemma RunInPath(segs: seq<string>, k: int, m: int)
    requires 0 <= k <= m <= |segs|
    ensures Contains(Path(segs), Path(segs[k..m]))
  {
    PathInThree(segs, k, m);
    ContainsJoin(Path(segs[..k]), Path(segs[k..m]), Path(segs[m..]));
  }

  lemma PathInThree(segs: seq<string>, k: int, m: int)
    requires 0 <= k <= m <= |segs|
    ensures Path(segs) == Path(segs[..k]) + Path(segs[k..m]) + Path(segs[m..])
  {
    var a, b, c := segs[..k], segs[k..m], segs[m..];
    CutInThree(segs, k, m);
    PathAppend(a + b, c);
    PathAppend(a, b);
  }

  lemma CutInThree(segs: seq<string>, k: int, m: int)
    requires 0 <= k <= m <= |segs|
    ensures segs[..k] + segs[k..m] + segs[m..] == segs
  {
    assert segs[..k] + segs[k..m] == segs[..m];
  }

  lemma PathOfTwo(a: string, b: string)
    ensures Path([a, b]) == "/" + a + "/" + b
  {
    assert [a, b][1..] == [b];
    assert Path([b]) == "/" + b by {
      assert [b][1..] == [];
    }
  }

  lemma PathOfThree(a: string, b: string, c: string)
    ensures Path([a, b, c]) == "/" + a + "/" + b + "/" + c
  {
    assert [a, b, c][1..] == [b, c];
    PathOfTwo(b, c);
  }

  lemma PathStartsWithSlash(segs: seq<string>)
    ensures Path(segs) == "" || Path(segs)[0] == '/'
    ensures |segs| > 0 ==> |Path(segs)| > 0
  {
  }

  lemma {:induction false} LowerPath(segs: seq<string>)
    ensures Lower(Path(segs)) == Path(LowerAll(segs))
    decreases |segs|
  {
    if |segs| > 0 {
      LowerPath(segs[1..]);
      LowerAppend("/" + segs[0], Path(segs[1..]));
      LowerAppend("/", segs[0]);
      assert LowerAll(segs)[1..] == LowerAll(segs[1..]);
    }
  }

  lemma LowerKeepsSlashFree(s: string)
    requires '/' !in s
    ensures '/' !in Lower(s)
  {
    forall i | 0 <= i < |s|
      ensures Lower(s)[i] != '/'
    {
      LowerSlash(s[i]);
    }
  }

  /** Cutting a path before its k-th segment. */
  lemma {:induction false} PathAt(segs: seq<string>, k: int)
    requires 0 <= k < |segs|
    ensures Path(segs) == Path(segs[..k]) + "/" + segs[k] + Path(segs[k + 1..])
    decreases k
  {
    if k > 0 {
      PathAt(segs[1..], k - 1);
      assert segs[1..][..k - 1] == segs[1..k];
      assert segs[1..][k - 1] == segs[k];
      assert segs[1..][k..] == segs[k + 1..];
      assert segs[..k][1..] == segs[1..k];
    } else {
      assert segs[..0] == [];
    }
  }

  lemma ShiftOccurrence(x: string, y: string, p: string, j: int)
    requires 0 <= j
    ensures OccursAt(y, p, j) <==> OccursAt(x + y, p, |x| + j)
  {
    if j + |p| <= |y| {
      assert (x + y)[|x| + j..|x| + j + |p|] == y[j..j + |p|];
    }
  }

  /** A slash-free prefix of text that continues with '/' (or ends) is a prefix of the
      first segment. */
  lemma SegmentPrefix(s0: string, y: string, w: string)
    requires '/' !in s0 && '/' !in w
    requires y == "" || y[0] == '/'
    ensures StartsWith(s0 + y, w) <==> StartsWith(s0, w)
  {
    if |w| <= |s0| {
      assert (s0 + y)[..|w|] == s0[..|w|];
    }
    PrefixChar(s0 + y, w, |s0|);
  }

  /** A slash-free word followed by '/' matches at the head of a segment only when the
      word is the whole segment. */
  lemma WholeSegment(s0: string, y: string, a: string, t: string)
    requires '/' !in s0 && '/' !in a
    requires y == "" || y[0] == '/'
    ensures StartsWith(s0 + y, a + "/" + t) <==> s0 == a && StartsWith(y, "/" + t)
  {
    var w := a + "/" + t;
    if StartsWith(s0 + y, w) {
      PrefixChar(s0 + y, w, |s0|);
      PrefixChar(s0 + y, w, |a|);
      if |s0| == |a| {
        assert s0 == (s0 + y)[..|a|] == w[..|a|] == a;
        assert y[..1 + |t|] == (s0 + y)[|a|..|a| + 1 + |t|] == w[|a|..];
      }
    }
    if s0 == a && StartsWith(y, "/" + t) {
      assert (s0 + y)[..|w|] == a + y[..1 + |t|];
    }
  }

  /** Inside "/s0" only position 0 can start a slash-led pattern. */
  lemma NotInsideSegment(s0: string, y: string, p: string, j: int)
    requires '/' !in s0 && |p| > 0 && p[0] == '/'
    requires 1 <= j <= |s0|
    ensures !OccursAt("/" + s0 + y, p, j)
  {
  }

  /** A slash-led pattern matches at the head of "/" + s0 + y exactly when s0 starts with
      the rest of it. */
  lemma HeadOccurrence(s0: string, y: string, k: string)
    requires '/' !in s0 && '/' !in k
    requires y == "" || y[0] == '/'
    ensures OccursAt("/" + s0 + y, "/" + k, 0) <==> StartsWith(s0, k)
  {
    SegmentPrefix(s0, y, k);
    if |k| <= |s0 + y| {
      var x := (s0 + y)[..|k|];
      assert ("/" + s0 + y)[0..1 + |k|] == "/" + x;
      assert ("/" + x)[1..] == x && ("/" + k)[1..] == k;
    }
  }

  /** "/" + a + "/" + k matches at the head of "/" + s0 + y exactly when s0 is a and y
      starts with "/" + k. */
  lemma HeadPairOccurrence(s0: string, y: string, a: string, k: string)
    requires '/' !in s0 && '/' !in a
    requires y == "" || y[0] == '/'
    ensures OccursAt("/" + s0 + y, "/" + a + "/" + k, 0) <==> s0 == a && StartsWith(y, "/" + k)
  {
    WholeSegment(s0, y, a, k);
    var w := a + "/" + k;
    assert "/" + a + "/" + k == "/" + w;
    if |w| <= |s0 + y| {
      var x := (s0 + y)[..|w|];
      assert ("/" + s0 + y)[0..1 + |w|] == "/" + x;
      assert ("/" + x)[1..] == x && ("/" + w)[1..] == w;
    }
  }

  /** No slash-led pattern whose head match fails occurs anywhere inside "/" + s0. */
  lemma NoneInHead(s0: string, y: string, p: string)
    requires '/' !in s0 && |p| > 0 && p[0] == '/'
    requires !OccursAt("/" + s0 + y, p, 0)
    ensures forall j :: 0 <= j <= |s0| ==> !OccursAt("/" + s0 + y, p, j)
  {
    forall j | 1 <= j <= |s0|
      ensures !OccursAt("/" + s0 + y, p, j)
    {
      NotInsideSegment(s0, y, p, j);
    }
  }

  /** "/" + k first occurs in a path at the head of the first segment that starts with k. */
  lemma {:induction false} FirstOccurrenceInPath(segs: seq<string>, k: string, n: int)
    requires SlashFreeSegments(segs) && '/' !in k
    requires 0 <= n < |segs| && StartsWith(segs[n], k)
    requires forall j :: 0 <= j < n ==> !StartsWith(segs[j], k)
    ensures IsFirstOccurrence(Path(segs), "/" + k, |Path(segs[..n])|)
    decreases n
  {
    var s0 := segs[0];
    var y := Path(segs[1..]);
    PathStartsWithSlash(segs[1..]);
    assert Path(segs) == "/" + s0 + y;
    HeadOccurrence(s0, y, k);
    if n == 0 {
      assert segs[..0] == [];
    } else {
      var p := "/" + k;
      var x := "/" + s0;
      FirstOccurrenceInPath(segs[1..], k, n - 1);
      var o := |Path(segs[1..][..n - 1])|;
      assert segs[1..][..n - 1] == segs[..n][1..];
      assert |Path(segs[..n])| == |x| + o;
      NoneInHead(s0, y, p);
      ShiftOccurrence(x, y, p, o);
      forall j | |x| <= j < |x| + o
        ensures !OccursAt(Path(segs), p, j)
      {
        ShiftOccurrence(x, y, p, j - |x|);
      }
    }
  }

  /** "/" + k does not occur in a path none of whose segments starts with k. */
  lemma {:induction false} AbsentFromPath(segs: seq<string>, k: string)
    requires SlashFreeSegments(segs) && '/' !in k
    requires forall j :: 0 <= j < |segs| ==> !StartsWith(segs[j], k)
    ensures !Contains(Path(segs), "/" + k)
    decreases |segs|
  {
    if |segs| > 0 {
      var s0 := segs[0];
      var y := Path(segs[1..]);
      PathStartsWithSlash(segs[1..]);
      assert Path(segs) == "/" + s0 + y;
      AbsentFromPath(segs[1..], k);
      HeadOccurrence(s0, y, k);
      NoneInHead(s0, y, "/" + k);
      forall j | 1 + |s0| <= j
        ensures !OccursAt(Path(segs), "/" + k, j)
      {
        ShiftOccurrence("/" + s0, y, "/" + k, j - 1 - |s0|);
      }
    }
  }

  /** "/" + a + "/" + k does not occur in a path where no segment equal to a is followed
      by a segment starting with k. */
  lemma {:induction false} PairAbsentFromPath(segs: seq<string>, a: string, k: string)
    requires SlashFreeSegments(segs) && '/' !in a && '/' !in k
    requires forall j :: 0 <= j < |segs| - 1 ==> !(segs[j] == a && StartsWith(segs[j + 1], k))
    ensures !Contains(Path(segs), "/" + a + "/" + k)
    decreases |segs|
  {
    if |segs| > 0 {
      var s0 := segs[0];
      var y := Path(segs[1..]);
      PathStartsWithSlash(segs[1..]);
      assert Path(segs) == "/" + s0 + y;
      PairAbsentFromPath(segs[1..], a, k);
      HeadPairOccurrence(s0, y, a, k);
      if |segs| > 1 {
        PathStartsWithSlash(segs[2..]);
        assert y == "/" + segs[1] + Path(segs[2..]);
        HeadOccurrence(segs[1], Path(segs[2..]), k);
      }
      NoneInHead(s0, y, "/" + a + "/" + k);
      forall j | 1 + |s0| <= j
        ensures !OccursAt(Path(segs), "/" + a + "/" + k, j)
      {
        ShiftOccurrence("/" + s0, y, "/" + a + "/" + k, j - 1 - |s0|);
      }
    }
  }
}
