/** The Python `str` operations the resource-ID helpers rely on, over `seq<char>`. */
module PyStr {

  /** Python's `str.isspace()` for a single character. */
  predicate IsSpace(c: char) {
    var n := c as int;
    || n == 0x20
    || 0x09 <= n <= 0x0D
    || 0x1C <= n <= 0x1F
    || n == 0x85
    || n == 0xA0
    || n == 0x1680
    || 0x2000 <= n <= 0x200A
    || n == 0x2028
    || n == 0x2029
    || n == 0x202F
    || n == 0x205F
    || n == 0x3000
  }

  /** Drops leading whitespace. */
  function TrimStart(s: string): (r: string)
    ensures |r| <= |s| && r == s[|s| - |r|..]
    ensures forall i :: 0 <= i < |s| - |r| ==> IsSpace(s[i])
    ensures |r| > 0 ==> !IsSpace(r[0])
    decreases |s|
  {
    if |s| > 0 && IsSpace(s[0]) then TrimStart(s[1..]) else s
  }

  /** Drops trailing whitespace. */
  function TrimEnd(s: string): (r: string)
    ensures |r| <= |s| && r == s[..|r|]
    ensures forall i :: |r| <= i < |s| ==> IsSpace(s[i])
    ensures |r| > 0 ==> !IsSpace(r[|r| - 1])
    decreases |s|
  {
    if |s| > 0 && IsSpace(s[|s| - 1]) then TrimEnd(s[..|s| - 1]) else s
  }

  /** Python's `str.strip()` with no argument. */
  function Strip(s: string): string {
    TrimEnd(TrimStart(s))
  }

  /** Python's `not s.strip()`: the string is empty or whitespace only. */
  predicate IsBlank(s: string) {
    |Strip(s)| == 0
  }

  /** Stripping leaves nothing exactly when every character is whitespace. */
  lemma BlankIffAllSpace(s: string)
    ensures IsBlank(s) <==> forall i :: 0 <= i < |s| ==> IsSpace(s[i])
  {
    var t := TrimStart(s);
    if !IsBlank(s) {
      var u := TrimEnd(t);
      assert !IsSpace(u[0]) || |u| == 0;
      assert u[0] == t[0] == s[|s| - |t|];
    }
  }

  /** A string that starts with a non-space character is never blank. */
  lemma NotBlankWhenFirstIsNotSpace(s: string)
    requires |s| > 0 && !IsSpace(s[0])
    ensures !IsBlank(s)
  {
    BlankIffAllSpace(s);
  }

  /** ASCII-only `str.lower()` for one character. */
  function LowerChar(c: char): char {
    if 'A' <= c <= 'Z' then (c as int + 32) as char else c
  }

  /** ASCII-only `str.lower()`: maps every character, keeps the length. */
  function Lower(s: string): (r: string)
    ensures |r| == |s|
    decreases |s|
  {
    if |s| == 0 then "" else [LowerChar(s[0])] + Lower(s[1..])
  }

  /** Character `i` of the lowered string is character `i` lowered. */
  lemma {:induction false} LowerAt(s: string)
    ensures forall i :: 0 <= i < |s| ==> Lower(s)[i] == LowerChar(s[i])
    decreases |s|
  {
    if |s| > 0 {
      LowerAt(s[1..]);
      assert forall i :: 1 <= i < |s| ==> s[1..][i - 1] == s[i];
    }
  }

  /** `t` is `s` lowered when it is so character by character. */
  lemma LowerOf(s: string, t: string)
    requires |s| == |t| && forall i :: 0 <= i < |s| ==> LowerChar(s[i]) == t[i]
    ensures Lower(s) == t
  {
    LowerAt(s);
  }

  lemma LowerAppend(a: string, b: string)
    ensures Lower(a + b) == Lower(a) + Lower(b)
  {
    LowerAt(a);
    LowerAt(b);
    LowerAt(a + b);
    assert forall i :: 0 <= i < |a + b| ==> Lower(a + b)[i] == (Lower(a) + Lower(b))[i];
  }

  lemma LowerSlice(s: string, i: int, j: int)
    requires 0 <= i <= j <= |s|
    ensures Lower(s[i..j]) == Lower(s)[i..j]
  {
    LowerAt(s);
    assert forall k :: 0 <= k < j - i ==> LowerChar(s[i..j][k]) == Lower(s)[i..j][k];
    LowerOf(s[i..j], Lower(s)[i..j]);
  }

  /** Only '/' lowers to '/'. */
  lemma LowerSlash(c: char)
    ensures LowerChar(c) == '/' <==> c == '/'
  {
  }

  /** Python's `s.startswith(p)`. */
  predicate StartsWith(s: string, p: string) {
    |p| <= |s| && s[..|p|] == p
  }

  /** Python's `s.endswith(p)`. */
  predicate EndsWith(s: string, p: string) {
    |p| <= |s| && s[|s| - |p|..] == p
  }

  /** A suffix occurrence is the rightmost one. */
  lemma EndsWithIsLast(s: string, p: string)
    requires EndsWith(s, p)
    ensures IsLastOccurrence(s, p, |s| - |p|)
  {
    assert s[|s| - |p|..|s|] == s[|s| - |p|..];
  }

  /** `p` occurs in `s` starting at index `i`. */
  predicate OccursAt(s: string, p: string, i: int) {
    0 <= i && i + |p| <= |s| && s[i..i + |p|] == p
  }

  /** Python's `p in s`. */
  predicate Contains(s: string, p: string) {
    exists i :: 0 <= i <= |s| - |p| && OccursAt(s, p, i)
  }

  /** `i` is the leftmost index at which `p` occurs in `s`. */
  predicate IsFirstOccurrence(s: string, p: string, i: int) {
    OccursAt(s, p, i) && forall j :: 0 <= j < i ==> !OccursAt(s, p, j)
  }

  /** `i` is the rightmost index at which `p` occurs in `s`. */
  predicate IsLastOccurrence(s: string, p: string, i: int) {
    OccursAt(s, p, i) && forall j :: i < j <= |s| - |p| ==> !OccursAt(s, p, j)
  }

  lemma OccursInTail(s: string, p: string, j: int)
    requires |s| > 0 && 0 <= j
    ensures OccursAt(s, p, j + 1) <==> OccursAt(s[1..], p, j)
  {
    if 0 <= j && j + 1 + |p| <= |s| {
      assert s[1..][j..j + |p|] == s[j + 1..j + 1 + |p|];
    }
  }

  lemma OccursInPrefix(s: string, p: string, n: int, j: int)
    requires 0 <= n <= |s|
    requires j + |p| <= n
    ensures OccursAt(s, p, j) <==> OccursAt(s[..n], p, j)
  {
    if 0 <= j {
      assert s[..n][j..j + |p|] == s[j..j + |p|];
    }
  }

  /** When `p` does not occur at the front of `s`, it occurs in `s` exactly when it
      occurs in `s[1..]`. */
  lemma ContainsInTail(s: string, p: string)
    requires |s| >= |p| && !OccursAt(s, p, 0)
    ensures Contains(s, p) <==> Contains(s[1..], p)
  {
    if Contains(s, p) {
      var i :| 0 <= i <= |s| - |p| && OccursAt(s, p, i);
      OccursInTail(s, p, i - 1);
    }
    if Contains(s[1..], p) {
      var i :| 0 <= i <= |s[1..]| - |p| && OccursAt(s[1..], p, i);
      OccursInTail(s, p, i);
    }
  }

  /** ... and its leftmost occurrence in `s[1..]`, shifted by one, is its leftmost in `s`. */
  lemma FirstInTail(s: string, p: string, k: int)
    requires |s| > 0 && !OccursAt(s, p, 0) && IsFirstOccurrence(s[1..], p, k)
    ensures IsFirstOccurrence(s, p, k + 1)
  {
    OccursInTail(s, p, k);
    forall j | 0 <= j < k + 1
      ensures !OccursAt(s, p, j)
    {
      if j > 0 {
        OccursInTail(s, p, j - 1);
      }
    }
  }

  /** Python's `s.find(p)`: the leftmost occurrence, or -1. */
  function Find(s: string, p: string): (r: int)
    ensures r == -1 || 0 <= r <= |s| - |p|
    decreases |s|
  {
    if |s| < |p| then -1
    else if s[..|p|] == p then 0
    else
      var k := Find(s[1..], p);
      if k == -1 then -1 else k + 1
  }

  /** `find` gives the leftmost occurrence when there is one, and -1 exactly when
      there is none. */
  lemma {:induction false} FindSpec(s: string, p: string)
    ensures Find(s, p) >= 0 ==> IsFirstOccurrence(s, p, Find(s, p))
    ensures Find(s, p) == -1 <==> !Contains(s, p)
    decreases |s|
  {
    if |s| < |p| {
    } else if s[..|p|] == p {
      assert OccursAt(s, p, 0);
    } else {
      var k := Find(s[1..], p);
      FindSpec(s[1..], p);
      ContainsInTail(s, p);
      if k >= 0 {
        FirstInTail(s, p, k);
      }
    }
  }

  /** Python's `s.rfind(p)`: the rightmost occurrence, or -1. */
  function RFind(s: string, p: string): (r: int)
    ensures r == -1 || 0 <= r <= |s| - |p|
    decreases |s|
  {
    if |s| < |p| then -1
    else if s[|s| - |p|..] == p then |s| - |p|
    else RFind(s[..|s| - 1], p)
  }

  /** `rfind` gives the rightmost occurrence when there is one, and -1 exactly when
      there is none. */
  lemma {:induction false} RFindSpec(s: string, p: string)
    ensures RFind(s, p) >= 0 ==> IsLastOccurrence(s, p, RFind(s, p))
    ensures RFind(s, p) == -1 <==> !Contains(s, p)
    decreases |s|
  {
    if |s| < |p| {
    } else if s[|s| - |p|..] == p {
      assert OccursAt(s, p, |s| - |p|);
    } else {
      RFindSpec(s[..|s| - 1], p);
      PrefixOccurrences(s, p);
    }
  }

  /** Dropping the last character keeps every occurrence but one at the very end. */
  lemma PrefixOccurrences(s: string, p: string)
    requires |s| >= |p| && s[|s| - |p|..] != p
    ensures Contains(s, p) <==> Contains(s[..|s| - 1], p)
    ensures forall j :: 0 <= j <= |s| - |p| ==> (OccursAt(s, p, j) <==> OccursAt(s[..|s| - 1], p, j))
  {
    forall j | 0 <= j <= |s| - |p|
      ensures OccursAt(s, p, j) <==> OccursAt(s[..|s| - 1], p, j)
    {
      if j + |p| <= |s| - 1 {
        OccursInPrefix(s, p, |s| - 1, j);
      }
    }
    if Contains(s[..|s| - 1], p) {
      var j :| 0 <= j <= |s| - 1 - |p| && OccursAt(s[..|s| - 1], p, j);
      assert OccursAt(s, p, j);
    }
  }

  /** Wherever `p` occurs, `find` reports an occurrence no later than that. */
  lemma FindFound(s: string, p: string, j: int)
    requires OccursAt(s, p, j)
    ensures 0 <= Find(s, p) <= j && IsFirstOccurrence(s, p, Find(s, p))
  {
    FindSpec(s, p);
    assert 0 <= j <= |s| - |p|;
  }

  /** `find` and `rfind` agree on whether the pattern is present at all. */
  lemma FindRFindAgree(s: string, p: string)
    ensures Find(s, p) > -1 <==> RFind(s, p) > -1
  {
    FindSpec(s, p);
    RFindSpec(s, p);
  }

  /** `find` returns the leftmost occurrence, whichever way it was identified. */
  lemma FindIsFirst(s: string, p: string, i: int)
    requires IsFirstOccurrence(s, p, i)
    ensures Find(s, p) == i
  {
    FindSpec(s, p);
    assert 0 <= i <= |s| - |p| && OccursAt(s, p, i);
  }

  /** `rfind` returns the rightmost occurrence, whichever way it was identified. */
  lemma RFindIsLast(s: string, p: string, i: int)
    requires IsLastOccurrence(s, p, i)
    ensures RFind(s, p) == i
  {
    RFindSpec(s, p);
    assert 0 <= i <= |s| - |p| && OccursAt(s, p, i);
  }

  /** Whatever contains `a + b` contains `b`. */
  lemma ContainsTail(s: string, a: string, b: string)
    requires Contains(s, a + b)
    ensures Contains(s, b)
  {
    var i :| 0 <= i <= |s| - |a + b| && OccursAt(s, a + b, i);
    assert s[i + |a|..i + |a| + |b|] == (a + b)[|a|..];
    assert OccursAt(s, b, i + |a|);
  }

  /** Whatever contains `a + b` contains `a`. */
  lemma ContainsHead(s: string, a: string, b: string)
    requires Contains(s, a + b)
    ensures Contains(s, a)
  {
    var i :| 0 <= i <= |s| - |a + b| && OccursAt(s, a + b, i);
    assert s[i..i + |a|] == s[i..i + |a + b|][..|a|];
    assert OccursAt(s, a, i);
  }

  /** A text contains every piece it is joined from. */
  lemma ContainsJoin(x: string, p: string, y: string)
    ensures Contains(x + p + y, p)
  {
    assert (x + p + y)[|x|..|x| + |p|] == p;
    assert OccursAt(x + p + y, p, |x|);
  }

  /** A prefix of `s` spelled in upper or lower case is, lower-cased, a prefix of the
      lower-cased `s`. */
  lemma LowerKeepsPrefix(s: string, p: string)
    requires StartsWith(s, p)
    ensures StartsWith(Lower(s), Lower(p))
  {
    LowerSlice(s, 0, |p|);
  }

  /** The first character of `p` occurs nowhere else in `p`, so two occurrences of `p`
      can never overlap. */
  predicate HeadIsUnique(p: string) {
    |p| > 0 && p[0] !in p[1..]
  }

  lemma OverlapChars(s: string, p: string, i: int, j: int)
    ensures OccursAt(s, p, i) && OccursAt(s, p, j) && i < j < i + |p| ==>
      s[j] == p[j - i] == p[1..][j - i - 1] && s[j] == p[0]
  {
    if OccursAt(s, p, i) && OccursAt(s, p, j) && i < j < i + |p| {
      assert s[j] == s[i..i + |p|][j - i];
      assert s[j] == s[j..j + |p|][0];
    }
  }

  lemma ShiftInto(s: string, n: int, p: string, j: int)
    requires 0 <= n <= |s| && n <= j
    ensures OccursAt(s, p, j) <==> OccursAt(s[n..], p, j - n)
  {
    if j + |p| <= |s| {
      assert s[n..][j - n..j - n + |p|] == s[j..j + |p|];
    }
  }

  /** `split` cuts at the leftmost occurrence and carries on after it. */
  lemma SplitCut(s: string, sep: string, i: int, more: seq<string>)
    requires |sep| > 0 && i == Find(s, sep) && i >= 0 && more == Split(s[i + |sep|..], sep)
    ensures Split(s, sep) == [s[..i]] + more
  {
  }

  /** Joining the pieces of `split` with the separator gives back the original string. */
  lemma {:induction false} SplitJoin(s: string, sep: string)
    requires |sep| > 0
    ensures Join(Split(s, sep), sep) == s
    decreases |s|
  {
    var i := Find(s, sep);
    FindSpec(s, sep);
    if i >= 0 {
      var rest := s[i + |sep|..];
      SplitCut(s, sep, i, Split(rest, sep));
      SplitJoin(rest, sep);
      assert ([s[..i]] + Split(rest, sep))[1..] == Split(rest, sep);
      assert s == s[..i] + sep + rest;
    }
  }

  /** The rightmost occurrence, seen from a point before it. */
  lemma LastInRest(s: string, p: string, n: int, r: int)
    requires 0 <= n <= r && IsLastOccurrence(s, p, r)
    ensures IsLastOccurrence(s[n..], p, r - n)
  {
    ShiftInto(s, n, p, r);
    forall j | r - n < j <= |s[n..]| - |p|
      ensures !OccursAt(s[n..], p, j)
    {
      ShiftInto(s, n, p, j + n);
    }
  }

  /** With no occurrence after it, a non-overlapping occurrence is the rightmost. */
  lemma LastWhenNoneBeyond(s: string, p: string, i: int)
    requires HeadIsUnique(p) && OccursAt(s, p, i)
    requires !Contains(s[i + |p|..], p)
    ensures RFind(s, p) == i
  {
    var n := i + |p|;
    forall j | i < j <= |s| - |p|
      ensures !OccursAt(s, p, j)
    {
      OverlapChars(s, p, i, j);
      if n <= j {
        ShiftInto(s, n, p, j);
      }
    }
    RFindIsLast(s, p, i);
  }

  /** The last piece of a list of pieces. */
  function LastPiece(pieces: seq<string>): string
    requires |pieces| > 0
  {
    pieces[|pieces| - 1]
  }

  /** The last piece of `split` is the last piece of what follows the first cut. */
  lemma LastPieceOfRest(s: string, p: string, i: int, more: seq<string>)
    requires |p| > 0 && i == Find(s, p) && i >= 0 && more == Split(s[i + |p|..], p)
    ensures LastPiece(Split(s, p)) == LastPiece(more)
  {
    SplitCut(s, p, i, more);
  }

  /** For a pattern whose occurrences cannot overlap, the last piece of `split` is the
      text after the rightmost occurrence `r`. */
  lemma {:induction false} LastSplitPiece(s: string, p: string, r: int)
    requires HeadIsUnique(p) && IsLastOccurrence(s, p, r)
    ensures LastPiece(Split(s, p)) == s[r + |p|..]
    decreases |s|
  {
    var i := Find(s, p);
    FindFound(s, p, r);
    var n := i + |p|;
    var rest := s[n..];
    if Contains(rest, p) {
      LastAfterFirst(s, p, r, n);
      LastSplitPiece(rest, p, r - n);
    }
    LastPieceCases(s, p, r, i, n, rest);
  }

  lemma LastPieceCases(s: string, p: string, r: int, i: int, n: int, rest: string)
    requires HeadIsUnique(p) && IsLastOccurrence(s, p, r)
    requires i == Find(s, p) && n == i + |p| && rest == s[n..]
    requires Contains(rest, p) ==> n <= r && LastPiece(Split(rest, p)) == rest[r - n + |p|..]
    ensures LastPiece(Split(s, p)) == s[r + |p|..]
  {
    FindFound(s, p, r);
    assert rest == s[i + |p|..];
    if Contains(rest, p) {
      LastPieceStep(s, p, r, i, rest);
    } else {
      LastPieceBase(s, p, r, i, rest);
    }
  }

  /** The inductive step: the last piece of the rest is the last piece overall. */
  lemma LastPieceStep(s: string, p: string, r: int, i: int, rest: string)
    requires |p| > 0 && i == Find(s, p) && i >= 0 && rest == s[i + |p|..]
    requires i + |p| <= r <= |s| - |p|
    requires LastPiece(Split(rest, p)) == rest[r - (i + |p|) + |p|..]
    ensures LastPiece(Split(s, p)) == s[r + |p|..]
  {
    LastPieceOfRest(s, p, i, Split(rest, p));
  }

  /** The base case: no occurrence after the first, so the first is the rightmost. */
  lemma LastPieceBase(s: string, p: string, r: int, i: int, rest: string)
    requires HeadIsUnique(p) && IsLastOccurrence(s, p, r)
    requires i == Find(s, p) && rest == s[i + |p|..] && !Contains(rest, p)
    ensures LastPiece(Split(s, p)) == s[r + |p|..]
  {
    FindFound(s, p, r);
    LastPieceOfRest(s, p, i, Split(rest, p));
    OnlyPiece(rest, p);
    LastWhenNoneBeyond(s, p, i);
    RFindIsLast(s, p, r);
  }

  /** If `p` occurs after `n`, its rightmost occurrence lies after `n` too. */
  lemma LastAfterFirst(s: string, p: string, r: int, n: int)
    requires IsLastOccurrence(s, p, r) && 0 <= n <= |s| && Contains(s[n..], p)
    ensures n <= r && IsLastOccurrence(s[n..], p, r - n)
  {
    RFindSpec(s[n..], p);
    ShiftInto(s, n, p, n + RFind(s[n..], p));
    LastInRest(s, p, n, r);
  }

  /** Without the separator, `split` gives back the whole string as its only piece. */
  lemma OnlyPiece(s: string, sep: string)
    requires |sep| > 0 && !Contains(s, sep)
    ensures Split(s, sep) == [s]
  {
    FindSpec(s, sep);
  }

  /** A one-character pattern occurs exactly when the character is in the string. */
  lemma ContainsChar(s: string, c: char)
    ensures Contains(s, [c]) <==> c in s
  {
    if c in s {
      var i :| 0 <= i < |s| && s[i] == c;
      assert s[i..i + 1] == [c];
      assert OccursAt(s, [c], i);
    }
    if Contains(s, [c]) {
      var i :| 0 <= i <= |s| - 1 && OccursAt(s, [c], i);
      assert s[i] == s[i..i + 1][0] == c;
    }
  }

  /** Rebuilds a string from its `split` pieces; the inverse of `Split`. */
  function Join(pieces: seq<string>, sep: string): string
    requires |pieces| >= 1
  {
    if |pieces| == 1 then pieces[0] else pieces[0] + sep + Join(pieces[1..], sep)
  }

  /** Python's `s.split(sep)` for a non-empty separator: cuts at the leftmost
      occurrence, then continues after it, so occurrences never overlap. */
  function Split(s: string, sep: string): (r: seq<string>)
    requires |sep| > 0
    ensures |r| >= 1
    decreases |s|, 1
  {
    SplitAt(s, sep, Find(s, sep))
  }

  /** `split` once the leftmost occurrence `i` of the separator is known. */
  function SplitAt(s: string, sep: string, i: int): (r: seq<string>)
    requires |sep| > 0 && i == Find(s, sep)
    ensures |r| >= 1
    decreases |s|, 0
  {
    if i < 0 then [s] else [s[..i]] + Split(s[i + |sep|..], sep)
  }

  /** No piece of `split` contains the separator. */
  lemma {:induction false} SplitPiecesFree(s: string, sep: string)
    requires |sep| > 0
    ensures forall k :: 0 <= k < |Split(s, sep)| ==> !Contains(Split(s, sep)[k], sep)
    decreases |s|
  {
    var i := Find(s, sep);
    FindSpec(s, sep);
    if i >= 0 {
      var rest := s[i + |sep|..];
      SplitPiecesFree(rest, sep);
      SplitCut(s, sep, i, Split(rest, sep));
      assert !Contains(s[..i], sep) by {
        forall j | 0 <= j <= i - |sep|
          ensures !OccursAt(s[..i], sep, j)
        {
          OccursInPrefix(s, sep, i, j);
        }
      }
    }
  }
}
