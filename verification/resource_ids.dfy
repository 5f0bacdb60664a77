/** Extracting named values from an Azure resource ID such as
    "/subscriptions/{sub}/resourceGroups/{rg}/providers/Microsoft.NetApp/netAppAccounts/{acct}/capacityPools/{pool}/volumes/{vol}":
    get_resource_value, get_resource_name and the six extractors of HttpTrigger/__init__.py.
    get_resource_value has two branches: the collision branch, taken when "/resourceGroups"
    followed by the label occurs, and the ordinary branch otherwise. */
module ResourceIds {
  import opened Wrappers
  import opened PyStr
  import opened Segments

  /** The one exception the helpers can raise: indexing past the end of a `split` result. */
  datatype Fault = IndexError

  /** The outcome of a lookup: a value, `None`, or a raised exception. */
  type Lookup = Result<Option<string>, Fault>

  const ResourceGroupsLabel: string := "/resourceGroups"
  const SubscriptionsLabel: string := "/subscriptions"
  const AccountsLabel: string := "/netAppAccounts"
  const CapacityPoolsLabel: string := "/capacityPools"
  const VolumesLabel: string := "/volumes"
  const SnapshotsLabel: string := "/snapshots"

  /** Prefixes a '/' unless one is already there. */
  function WithLeadingSlash(s: string): (r: string)
    ensures StartsWith(r, "/")
  {
    if StartsWith(s, "/") then s else "/" + s
  }

  /** "/resourceGroups" followed by the label. It occurs when a resource group's own name
      begins with the label's word (a group called "volumes1", looked up with "/volumes"). */
  function CollisionPattern(name: string): string {
    ResourceGroupsLabel + name
  }

  /** Splits `t` on '/' and indexes element 1, raising IndexError when there is none
      (the last step of the collision branch). */
  function SecondPiece(t: string): (r: Lookup)
    ensures r.Success? ==> r.value.Some? && '/' !in r.value.value
  {
    var parts := Split(t, "/");
    SplitPiecesFree(t, "/");
    ContainsChar(if |parts| > 1 then parts[1] else "", '/');
    if |parts| > 1 then Success(Some(parts[1])) else Failure(IndexError)
  }

  /** The collision branch: split the lower-cased URI on the lower-cased label, take the last
      piece, split it on '/' and index element 1, which raises when there is none. */
  function CollisionValue(lu: string, ln: string): (r: Lookup)
    requires |ln| > 0
    ensures r.Success? ==> r.value.Some? && '/' !in r.value.value
  {
    SecondPiece(LastPiece(Split(lu, ln)))
  }

  /** Indexing element 1 of a split: the element when it exists, IndexError when not. */
  function OrIndexError(v: Option<string>): Lookup {
    match v
    case Some(x) => Success(Some(x))
    case None => Failure(IndexError)
  }

  /** Element 1 of the split on '/' is the segment after the first '/', if any. */
  lemma SecondPieceAfterSlash(t: string)
    ensures SecondPiece(t) == OrIndexError(AfterSlash(t))
  {
    SplitSlashSecond(t);
  }

  /** Splits `t` on '/' and returns element 1 if there is one (the last step of the
      ordinary branch). */
  function SecondPieceOrNone(t: string): (r: Option<string>)
    ensures r.Some? ==> '/' !in r.value
  {
    var res := Split(t, "/");
    SplitPiecesFree(t, "/");
    ContainsChar(if |res| > 1 then res[1] else "", '/');
    if |res| > 1 then Some(res[1]) else None
  }

  /** Element 1 of the split on '/', when present, is the segment after the first '/'. */
  lemma SecondPieceOrNoneAfterSlash(t: string)
    ensures SecondPieceOrNone(t) == AfterSlash(t)
  {
    SplitSlashSecond(t);
  }

  /** The ordinary branch: find the label in the lower-cased URI, split what follows it in the
      original URI on '/', and return element 1 if there is one. */
  function OrdinaryValue(u: string, n: string): (r: Option<string>)
    ensures r.Some? ==> '/' !in r.value
  {
    var index := Find(Lower(u), Lower(n));
    if index > -1 then SecondPieceOrNone(u[index + |n|..]) else None
  }

  /** get_resource_value past its blank test, once URI and label both start with '/'. */
  function Decompose(u: string, n: string): (r: Lookup)
    requires |n| > 0
    ensures r.Failure? ==> Contains(Lower(u), Lower(CollisionPattern(n)))
    ensures r.Success? && r.value.Some? ==> '/' !in r.value.value
  {
    FindSpec(Lower(u), Lower(CollisionPattern(n)));
    if Find(Lower(u), Lower(CollisionPattern(n))) > -1 then CollisionValue(Lower(u), Lower(n))
    else Success(OrdinaryValue(u, n))
  }

  /** The value that follows the label `name` in `uri` (get_resource_value).
      Blank input gives `None`. Label and URI are compared lower-cased.
      When "/resourceGroups" + name occurs, the lower-cased URI is split on the label and
      the segment after the first '/' of the last piece is returned, raising IndexError
      when that piece holds no '/'. Otherwise the segment after the first '/' that follows
      the first occurrence of the label is returned, with its original casing, or `None`. */
  function ResourceValue(uri: string, name: string): (r: Lookup)
    ensures IsBlank(uri) ==> r == Success(None)
    ensures r.Failure? ==>
      !IsBlank(uri) && Contains(Lower(WithLeadingSlash(uri)), Lower(CollisionPattern(WithLeadingSlash(name))))
    ensures r.Success? && r.value.Some? ==> '/' !in r.value.value
  {
    if IsBlank(uri) then Success(None)
    else Decompose(WithLeadingSlash(uri), WithLeadingSlash(name))
  }

  /** A label with a '/' only at its head (after normalisation), like all six labels the
      extractors use. Occurrences of such a label never overlap. */
  predicate SingleSlashLabel(name: string) {
    '/' !in WithLeadingSlash(name)[1..]
  }

  lemma SingleSlashLabelHeadIsUnique(name: string)
    requires SingleSlashLabel(name)
    ensures HeadIsUnique(Lower(WithLeadingSlash(name)))
  {
    var n := WithLeadingSlash(name);
    LowerSlice(n, 1, |n|);
    LowerKeepsSlashFree(n[1..]);
  }

  /** Lower-casing the collision pattern lower-cases its two parts. */
  lemma LowerCollisionPattern(n: string)
    ensures Lower(CollisionPattern(n)) == "/resourcegroups" + Lower(n)
  {
    LowerAppend(ResourceGroupsLabel, n);
    LowerResourceGroupsLabel();
  }

  lemma LowerResourceGroupsLabel()
    ensures Lower(ResourceGroupsLabel) == "/resourcegroups"
  {
    LowerOf(ResourceGroupsLabel, "/resourcegroups");
  }

  /** Blank input is answered with `None` (the blank test of get_resource_value). */
  lemma BlankUriGivesNone(uri: string, name: string)
    requires forall i :: 0 <= i < |uri| ==> IsSpace(uri[i])
    ensures ResourceValue(uri, name) == Success(None)
  {
    BlankIffAllSpace(uri);
  }

  /** Writing the label with or without its leading '/' makes no difference. */
  lemma LabelSlashOptional(uri: string, name: string)
    requires !StartsWith(name, "/")
    ensures ResourceValue(uri, name) == ResourceValue(uri, "/" + name)
  {
    assert WithLeadingSlash("/" + name) == "/" + name;
  }

  /** Writing a non-blank URI with or without its leading '/' makes no difference. */
  lemma UriSlashOptional(uri: string, name: string)
    requires !IsBlank(uri) && !StartsWith(uri, "/")
    ensures ResourceValue(uri, name) == ResourceValue("/" + uri, name)
  {
    NotBlankWhenFirstIsNotSpace("/" + uri);
    assert WithLeadingSlash("/" + uri) == "/" + uri;
  }

  /** Two labels that lower-case alike still do after normalisation. */
  lemma NormalisedLowerAlike(a: string, b: string)
    requires Lower(a) == Lower(b)
    ensures Lower(WithLeadingSlash(a)) == Lower(WithLeadingSlash(b))
    ensures |WithLeadingSlash(a)| == |WithLeadingSlash(b)|
  {
    if |a| > 0 {
      assert Lower(a)[0] == LowerChar(a[0]) && Lower(b)[0] == LowerChar(b[0]);
      LowerSlash(a[0]);
      LowerSlash(b[0]);
      assert a[..1] == [a[0]] && b[..1] == [b[0]];
    }
    LowerAppend("/", a);
    LowerAppend("/", b);
  }

  /** The two branches see the label only through its lower-cased form and its length. */
  lemma DecomposeSeesLowerOnly(u: string, a: string, b: string)
    requires |a| > 0 && Lower(a) == Lower(b)
    ensures Decompose(u, a) == Decompose(u, b)
  {
    LowerCollisionPattern(a);
    LowerCollisionPattern(b);
    OrdinaryValueSeesLowerOnly(u, a, b);
  }

  lemma OrdinaryValueSeesLowerOnly(u: string, a: string, b: string)
    requires Lower(a) == Lower(b)
    ensures OrdinaryValue(u, a) == OrdinaryValue(u, b)
  {
    var i := Find(Lower(u), Lower(a));
    if i > -1 {
      OrdinaryValueFound(u, a, i, i + |a|);
      OrdinaryValueFound(u, b, i, i + |a|);
    }
  }

  /** The label is matched without regard to ASCII case: two labels that lower-case
      alike give the same answer. */
  lemma LabelCaseInsensitive(uri: string, a: string, b: string)
    requires Lower(a) == Lower(b)
    ensures ResourceValue(uri, a) == ResourceValue(uri, b)
  {
    NormalisedLowerAlike(a, b);
    DecomposeSeesLowerOnly(WithLeadingSlash(uri), WithLeadingSlash(a), WithLeadingSlash(b));
  }

  /** Ordinary branch, for a URI and label that already start with '/' (the slash lemmas
      above reduce every other input to this one): without the collision pattern, the
      answer is the segment after the first '/' that follows the first case-insensitive
      occurrence `i` of the label (the text from offset `o` on), cut from the original
      URI with its casing kept; `None` when no '/' follows. */
  lemma OrdinaryBranch(u: string, n: string, i: int, o: int)
    requires WithLeadingSlash(u) == u && WithLeadingSlash(n) == n && !IsBlank(u)
    requires !Contains(Lower(u), Lower(CollisionPattern(n)))
    requires IsFirstOccurrence(Lower(u), Lower(n), i) && o == i + |n|
    ensures o <= |u|
    ensures ResourceValue(u, n) == Success(AfterSlash(u[o..]))
  {
    NormalisedIsDecompose(u, n);
    DecomposeOrdinaryAt(u, n, i, o);
  }

  /** The ordinary branch for a label given as "/" + key. */
  lemma KeyedOrdinary(u: string, key: string, i: int, o: int)
    requires WithLeadingSlash(u) == u && WithLeadingSlash("/" + key) == "/" + key && !IsBlank(u)
    requires !Contains(Lower(u), Lower(CollisionPattern("/" + key)))
    requires IsFirstOccurrence(Lower(u), Lower("/" + key), i) && o == i + 1 + |key|
    ensures o <= |u|
    ensures ResourceValue(u, "/" + key) == Success(AfterSlash(u[o..]))
  {
    OrdinaryBranch(u, "/" + key, i, o);
  }

  /** Non-blank input goes on to the two branches with both strings normalised. */
  lemma ResourceValueIsDecompose(uri: string, name: string)
    requires !IsBlank(uri)
    ensures ResourceValue(uri, name) == Decompose(WithLeadingSlash(uri), WithLeadingSlash(name))
  {
  }

  lemma NormalisedIsDecompose(u: string, n: string)
    requires WithLeadingSlash(u) == u && WithLeadingSlash(n) == n && !IsBlank(u)
    ensures |n| > 0 && ResourceValue(u, n) == Decompose(u, n)
  {
  }

  /** The ordinary branch when the label's first occurrence is at `i`. */
  lemma DecomposeOrdinaryAt(u: string, n: string, i: int, o: int)
    requires |n| > 0 && !Contains(Lower(u), Lower(CollisionPattern(n)))
    requires IsFirstOccurrence(Lower(u), Lower(n), i) && o == i + |n|
    ensures o <= |u| && Decompose(u, n) == Success(AfterSlash(u[o..]))
  {
    DecomposeOrdinary(u, n);
    OrdinaryValueAt(u, n, i, o);
  }

  /** Without the collision pattern, the ordinary branch decides the answer. */
  lemma DecomposeOrdinary(u: string, n: string)
    requires |n| > 0 && !Contains(Lower(u), Lower(CollisionPattern(n)))
    ensures Decompose(u, n) == Success(OrdinaryValue(u, n))
  {
    FindSpec(Lower(u), Lower(CollisionPattern(n)));
  }

  /** With it, the collision branch does. */
  lemma DecomposeCollision(u: string, n: string)
    requires |n| > 0 && Contains(Lower(u), Lower(CollisionPattern(n)))
    ensures Decompose(u, n) == CollisionValue(Lower(u), Lower(n))
  {
    FindSpec(Lower(u), Lower(CollisionPattern(n)));
  }

  /** The ordinary branch gives `None` when the label does not occur. */
  lemma OrdinaryValueAbsent(u: string, n: string)
    requires !Contains(Lower(u), Lower(n))
    ensures OrdinaryValue(u, n) == None
  {
    FindSpec(Lower(u), Lower(n));
  }

  /** The ordinary branch when the label first occurs at `i`, so that its text ends at `o`. */
  lemma OrdinaryValueAt(u: string, n: string, i: int, o: int)
    requires IsFirstOccurrence(Lower(u), Lower(n), i) && o == i + |n|
    ensures o <= |u|
    ensures OrdinaryValue(u, n) == AfterSlash(u[o..])
  {
    FindIsFirst(Lower(u), Lower(n), i);
    OrdinaryValueFound(u, n, i, o);
    SecondPieceOrNoneAfterSlash(u[o..]);
  }

  lemma OrdinaryValueFound(u: string, n: string, i: int, o: int)
    requires Find(Lower(u), Lower(n)) == i >= 0 && o == i + |n| <= |u|
    ensures OrdinaryValue(u, n) == SecondPieceOrNone(u[o..])
  {
  }

  /** A label that does not occur, in any casing, gives `None`. */
  lemma LabelAbsent(uri: string, name: string)
    requires !Contains(Lower(WithLeadingSlash(uri)), Lower(WithLeadingSlash(name)))
    ensures ResourceValue(uri, name) == Success(None)
  {
    var u, n := WithLeadingSlash(uri), WithLeadingSlash(name);
    if !IsBlank(uri) {
      LowerCollisionPattern(n);
      if Contains(Lower(u), Lower(CollisionPattern(n))) {
        ContainsTail(Lower(u), "/resourcegroups", Lower(n));
      }
      ResourceValueIsDecompose(uri, name);
      DecomposeOrdinary(u, n);
      OrdinaryValueAbsent(u, n);
    }
  }

  /** The collision branch for a label whose first character occurs nowhere else in it:
      the segment after the first '/' that follows the rightmost occurrence `r`, or
      IndexError when there is none. */
  lemma CollisionValueAfterLast(lu: string, ln: string, r: int, o: int)
    requires HeadIsUnique(ln) && IsLastOccurrence(lu, ln, r) && o == r + |ln|
    ensures CollisionValue(lu, ln) == OrIndexError(AfterSlash(lu[o..]))
  {
    LastSplitPiece(lu, ln, r);
    SecondPieceAfterSlash(LastPiece(Split(lu, ln)));
  }

  /** Collision branch, for a URI and label that already start with '/': when
      "/resourceGroups" + label occurs in any casing, the answer is the segment after the
      first '/' that follows the LAST occurrence `r` of the label in the lower-cased URI,
      so it comes back lower-cased; when no '/' follows, the call raises IndexError
      instead of returning `None`. */
  lemma CollisionBranch(u: string, n: string, r: int, o: int)
    requires WithLeadingSlash(u) == u && WithLeadingSlash(n) == n && !IsBlank(u)
    requires SingleSlashLabel(n)
    requires Contains(Lower(u), Lower(CollisionPattern(n)))
    requires IsLastOccurrence(Lower(u), Lower(n), r) && o == r + |n|
    ensures o <= |u|
    ensures ResourceValue(u, n) == OrIndexError(AfterSlash(Lower(u)[o..]))
  {
    SingleSlashLabelHeadIsUnique(n);
    CollisionValueAfterLast(Lower(u), Lower(n), r, o);
    TakesCollisionBranch(u, n);
  }

  /** With the collision pattern present, the collision branch decides the answer. */
  lemma TakesCollisionBranch(u: string, n: string)
    requires WithLeadingSlash(u) == u && WithLeadingSlash(n) == n && !IsBlank(u)
    requires Contains(Lower(u), Lower(CollisionPattern(n)))
    ensures ResourceValue(u, n) == CollisionValue(Lower(u), Lower(n))
  {
    ResourceValueIsDecompose(u, n);
    DecomposeCollision(u, n);
  }

  /** In particular, a URI that ends with the label while also holding the collision
      pattern makes the lookup raise IndexError. */
  lemma CollisionAtEndRaises(u: string, n: string)
    requires WithLeadingSlash(u) == u && WithLeadingSlash(n) == n && !IsBlank(u)
    requires SingleSlashLabel(n)
    requires Contains(Lower(u), Lower(CollisionPattern(n)))
    requires EndsWith(Lower(u), Lower(n))
    ensures ResourceValue(u, n) == Failure(IndexError)
  {
    var lu, ln := Lower(u), Lower(n);
    assert |lu| == |u| && |ln| == |n|;
    var r := |lu| - |ln|;
    EndsWithIsLast(lu, ln);
    CollisionBranch(u, n, r, r + |n|);
    NothingAfterEnd(lu, |u|);
  }

  /** A non-empty path already starts with '/' and is not blank. */
  lemma PathIsNormalised(segs: seq<string>)
    requires |segs| > 0
    ensures WithLeadingSlash(Path(segs)) == Path(segs) && !IsBlank(Path(segs))
  {
    var u := Path(segs);
    assert u == "/" + segs[0] + Path(segs[1..]);
    NotBlankWhenFirstIsNotSpace(u);
  }

  /** A key given without its '/' is normalised by prefixing one. */
  lemma KeyIsNormalised(key: string)
    ensures WithLeadingSlash("/" + key) == "/" + key
    ensures Lower("/" + key) == "/" + Lower(key)
  {
    LowerAppend("/", key);
    assert Lower("/") == "/";
  }

  /** Lower-casing a path of slash-free segments lower-cases each segment and keeps
      them slash-free. */
  lemma LowerPathFacts(segs: seq<string>)
    requires SlashFreeSegments(segs)
    ensures SlashFreeSegments(LowerAll(segs))
    ensures Lower(Path(segs)) == Path(LowerAll(segs))
  {
    forall j | 0 <= j < |segs|
      ensures '/' !in LowerAll(segs)[j]
    {
      LowerKeepsSlashFree(segs[j]);
    }
    LowerPath(segs);
  }

  /** The lower-cased collision pattern for "/" + key, written as path text. */
  lemma CollisionPatternOfKey(key: string)
    ensures Lower(CollisionPattern("/" + key)) == "/" + "resourcegroups" + "/" + Lower(key)
  {
    LowerCollisionPattern("/" + key);
    LowerAppend("/", key);
    assert Lower("/") == "/";
    GroupsWordAfterSlash();
  }

  lemma GroupsWordAfterSlash()
    ensures "/resourcegroups" == "/" + "resourcegroups"
  {
  }

  lemma WordIsSlashFree()
    ensures '/' !in "resourcegroups"
  {
  }

  /** The collision pattern for "/" + key is absent from a path where no "resourceGroups"
      segment is followed by one starting with the key. */
  lemma NoCollisionOnPath(segs: seq<string>, key: string)
    requires SlashFreeSegments(segs) && '/' !in key
    requires forall j :: 0 <= j < |segs| - 1 ==>
      !(Lower(segs[j]) == "resourcegroups" && StartsWith(Lower(segs[j + 1]), Lower(key)))
    ensures !Contains(Lower(Path(segs)), Lower(CollisionPattern("/" + key)))
  {
    var ls := LowerAll(segs);
    LowerPathFacts(segs);
    LowerKeepsSlashFree(key);
    CollisionPatternOfKey(key);
    WordIsSlashFree();
    assert forall j :: 0 <= j < |ls| - 1 ==>
      !(ls[j] == "resourcegroups" && StartsWith(ls[j + 1], Lower(key)));
    PairAbsentFromPath(ls, "resourcegroups", Lower(key));
  }

  /** The label "/" + key first occurs, in any casing, at the head of segment n. */
  lemma LabelFirstOnPath(segs: seq<string>, key: string, n: int)
    requires SlashFreeSegments(segs) && '/' !in key
    requires 0 <= n < |segs| && StartsWith(Lower(segs[n]), Lower(key))
    requires forall j :: 0 <= j < n ==> !StartsWith(Lower(segs[j]), Lower(key))
    ensures IsFirstOccurrence(Lower(Path(segs)), Lower("/" + key), |Path(segs[..n])|)
  {
    var ls := LowerAll(segs);
    LowerPathFacts(segs);
    LowerKeepsSlashFree(key);
    LowerAppend("/", key);
    FirstOccurrenceInPath(ls, Lower(key), n);
    LowerPath(segs[..n]);
    assert LowerAll(segs[..n]) == ls[..n];
  }

  /** What follows the head of segment n, past a key it starts with, yields the next
      segment. */
  lemma TextAfterLabel(segs: seq<string>, key: string, n: int, o: int, q: int)
    requires SlashFreeSegments(segs)
    requires 0 <= n < |segs| && |key| <= |segs[n]| && o == |Path(segs[..n])| && q == o + 1 + |key|
    ensures q <= |Path(segs)|
    ensures AfterSlash(Path(segs)[q..]) == if n + 1 < |segs| then Some(segs[n + 1]) else None
  {
    PathAt(segs, n);
    var rest := segs[n][|key|..];
    assert Path(segs)[q..] == rest + Path(segs[n + 1..]);
    if n + 1 < |segs| {
      var tail := segs[n + 1..];
      assert Path(tail) == "/" + segs[n + 1] + Path(tail[1..]);
      PathStartsWithSlash(tail[1..]);
      assert rest + Path(tail) == rest + "/" + segs[n + 1] + Path(tail[1..]);
      AfterSlashOf(rest, segs[n + 1], Path(tail[1..]));
    } else {
      assert Path(segs[n + 1..]) == "";
      assert rest + "" == rest;
    }
  }

  /** On a path "/s0/s1/.../sn" of slash-free segments, with no "resourceGroups" segment
      followed by one that starts with the key, the lookup of "/" + key returns the
      segment after the first segment that starts with the key (in any casing), or `None`
      when that segment is the last. */
  lemma ValueOnPath(segs: seq<string>, key: string, n: int)
    requires SlashFreeSegments(segs) && '/' !in key
    requires 0 <= n < |segs| && StartsWith(Lower(segs[n]), Lower(key))
    requires forall j :: 0 <= j < n ==> !StartsWith(Lower(segs[j]), Lower(key))
    requires forall j :: 0 <= j < |segs| - 1 ==>
      !(Lower(segs[j]) == "resourcegroups" && StartsWith(Lower(segs[j + 1]), Lower(key)))
    ensures ResourceValue(Path(segs), "/" + key) ==
      Success(if n + 1 < |segs| then Some(segs[n + 1]) else None)
  {
    var u, i := Path(segs), |Path(segs[..n])|;
    var q := i + 1 + |key|;
    PathOrdinaryFacts(segs, key, n);
    KeyedOrdinary(u, key, i, q);
    TextAfterLabel(segs, key, n, i, q);
  }

  /** The premises of the ordinary branch hold on such a path, at the head of segment n. */
  lemma PathOrdinaryFacts(segs: seq<string>, key: string, n: int)
    requires SlashFreeSegments(segs) && '/' !in key
    requires 0 <= n < |segs| && StartsWith(Lower(segs[n]), Lower(key))
    requires forall j :: 0 <= j < n ==> !StartsWith(Lower(segs[j]), Lower(key))
    requires forall j :: 0 <= j < |segs| - 1 ==>
      !(Lower(segs[j]) == "resourcegroups" && StartsWith(Lower(segs[j + 1]), Lower(key)))
    ensures WithLeadingSlash(Path(segs)) == Path(segs) && !IsBlank(Path(segs))
    ensures WithLeadingSlash("/" + key) == "/" + key
    ensures !Contains(Lower(Path(segs)), Lower(CollisionPattern("/" + key)))
    ensures IsFirstOccurrence(Lower(Path(segs)), Lower("/" + key), |Path(segs[..n])|)
  {
    PathIsNormalised(segs);
    KeyIsNormalised(key);
    NoCollisionOnPath(segs, key);
    LabelFirstOnPath(segs, key, n);
  }

  /** On a path of slash-free segments none of which starts with the key (in any casing),
      the lookup of "/" + key returns `None`. */
  lemma AbsentOnPath(segs: seq<string>, key: string)
    requires SlashFreeSegments(segs) && '/' !in key
    requires forall j :: 0 <= j < |segs| ==> !StartsWith(Lower(segs[j]), Lower(key))
    ensures ResourceValue(Path(segs), "/" + key) == Success(None)
  {
    if |segs| > 0 {
      LowerPathFacts(segs);
      LowerKeepsSlashFree(key);
      AbsentFromPath(LowerAll(segs), Lower(key));
      PathIsNormalised(segs);
      KeyIsNormalised(key);
      LabelAbsent(Path(segs), "/" + key);
    }
  }

  /** The text after the last '/' (get_resource_name); `None` for blank input. */
  function ResourceName(uri: string): (r: Option<string>)
    ensures r.None? <==> IsBlank(uri)
    ensures r.Some? ==> |r.value| <= |uri| && r.value == uri[|uri| - |r.value|..]
    ensures r.Some? ==> '/' !in r.value
    ensures r.Some? && |r.value| < |uri| ==> uri[|uri| - |r.value| - 1] == '/'
  {
    if IsBlank(uri) then None
    else
      var position := RFind(uri, "/");
      AfterLastSlash(uri, position);
      Some(uri[position + 1..])
  }

  /** The text after the last '/' is a '/'-free suffix, preceded by that '/'. */
  lemma AfterLastSlash(s: string, pos: int)
    requires pos == RFind(s, "/")
    ensures -1 <= pos < |s|
    ensures var v := s[pos + 1..];
      v == s[|s| - |v|..] && '/' !in v && (|v| < |s| ==> s[|s| - |v| - 1] == '/')
  {
    SlashFreeAfterLast(s, pos);
    assert |s| - |s[pos + 1..]| == pos + 1;
  }

  lemma CharIn(s: string, i: int)
    ensures 0 <= i < |s| ==> s[i] in s
  {
  }

  lemma LastCharOfSuffix(s: string, v: string)
    ensures 0 < |v| <= |s| && v == s[|s| - |v|..] ==> v[|v| - 1] == s[|s| - 1]
  {
  }

  /** The name is the whole input when it holds no '/', and empty when it ends in '/'. */
  lemma ResourceNameCases(uri: string)
    requires !IsBlank(uri)
    ensures '/' !in uri ==> ResourceName(uri) == Some(uri)
    ensures |uri| > 0 && uri[|uri| - 1] == '/' ==> ResourceName(uri) == Some("")
  {
    var v := ResourceName(uri).value;
    CharIn(uri, |uri| - |v| - 1);
    LastCharOfSuffix(uri, v);
  }

  /** The name of "<x>/<last>", for a '/'-free last part, is that last part. */
  lemma ResourceNameOfJoin(x: string, last: string)
    requires '/' !in last && !IsBlank(x + "/" + last)
    ensures ResourceName(x + "/" + last) == Some(last)
  {
    var u := x + "/" + last;
    var v := ResourceName(u).value;
    assert u[|u| - |last| - 1] == '/';
    CharIn(v, |v| - |last| - 1);
    CharIn(last, |last| - |v| - 1);
    assert |v| == |last|;
  }

  /** get_resource_group: the value after "/resourceGroups". */
  function ResourceGroup(uri: string): (r: Lookup)
    ensures IsBlank(uri) ==> r == Success(None)
    ensures r == ResourceValue(uri, ResourceGroupsLabel)
  {
    if IsBlank(uri) then Success(None) else ResourceValue(uri, ResourceGroupsLabel)
  }

  /** get_subscription: the value after "/subscriptions". */
  function Subscription(uri: string): (r: Lookup)
    ensures IsBlank(uri) ==> r == Success(None)
    ensures r == ResourceValue(uri, SubscriptionsLabel)
  {
    if IsBlank(uri) then Success(None) else ResourceValue(uri, SubscriptionsLabel)
  }

  /** get_anf_account: the value after "/netAppAccounts". */
  function AnfAccount(uri: string): (r: Lookup)
    ensures IsBlank(uri) ==> r == Success(None)
    ensures r == ResourceValue(uri, AccountsLabel)
  {
    if IsBlank(uri) then Success(None) else ResourceValue(uri, AccountsLabel)
  }

  /** get_anf_capacity_pool: the value after "/capacityPools". */
  function AnfCapacityPool(uri: string): (r: Lookup)
    ensures IsBlank(uri) ==> r == Success(None)
    ensures r == ResourceValue(uri, CapacityPoolsLabel)
  {
    if IsBlank(uri) then Success(None) else ResourceValue(uri, CapacityPoolsLabel)
  }

  /** get_anf_volume: the value after "/volumes". */
  function AnfVolume(uri: string): (r: Lookup)
    ensures IsBlank(uri) ==> r == Success(None)
    ensures r == ResourceValue(uri, VolumesLabel)
  {
    if IsBlank(uri) then Success(None) else ResourceValue(uri, VolumesLabel)
  }

  /** get_anf_snapshot: the value after "/snapshots". */
  function AnfSnapshot(uri: string): (r: Lookup)
    ensures IsBlank(uri) ==> r == Success(None)
    ensures r == ResourceValue(uri, SnapshotsLabel)
  {
    if IsBlank(uri) then Success(None) else ResourceValue(uri, SnapshotsLabel)
  }
}
