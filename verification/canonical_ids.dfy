/** Well-formed Azure NetApp Files resource IDs, assembled from their segments, and what
    the extractors and the classifier make of them: each extractor returns the name that
    follows its word, and the classification follows the depth of the ID -- provided the
    provider segment is spelled exactly as the classifier expects. */
module CanonicalIds {
  import opened Wrappers
  import opened PyStr
  import opened Segments
  import opened ResourceIds
  import opened Classifier

  /** The fixed words of an ID, plus "backupPolicies", which the account test looks for. */
  datatype Word = Subscriptions | ResourceGroups | Providers | NetAppAccounts
    | CapacityPools | Volumes | Snapshots | BackupPolicies

  /** Each word as it is spelled in an ID. */
  function Text(w: Word): string {
    match w
    case Subscriptions => "subscriptions"
    case ResourceGroups => "resourceGroups"
    case Providers => "providers"
    case NetAppAccounts => "netAppAccounts"
    case CapacityPools => "capacityPools"
    case Volumes => "volumes"
    case Snapshots => "snapshots"
    case BackupPolicies => "backupPolicies"
  }

  /** Each word in lower case: what the lookup compares with. It is `Lower(Text(w))`
      written out (KeyIsLower), so that proofs compare with a literal rather than
      lower-case one. */
  function Key(w: Word): string {
    match w
    case Subscriptions => "subscriptions"
    case ResourceGroups => "resourcegroups"
    case Providers => "providers"
    case NetAppAccounts => "netappaccounts"
    case CapacityPools => "capacitypools"
    case Volumes => "volumes"
    case Snapshots => "snapshots"
    case BackupPolicies => "backuppolicies"
  }

  lemma KeyIsLower(w: Word)
    ensures Lower(Text(w)) == Key(w)
  {
    match w
    case Subscriptions => LoweredSubscriptions();
    case ResourceGroups => LoweredResourceGroups();
    case Providers => LoweredProviders();
    case NetAppAccounts => LoweredNetAppAccounts();
    case CapacityPools => LoweredCapacityPools();
    case Volumes => LoweredVolumes();
    case Snapshots => LoweredSnapshots();
    case BackupPolicies => LoweredBackupPolicies();
  }

  lemma LoweredSubscriptions()
    ensures Lower("subscriptions") == "subscriptions"
  {
    LowerOf("subscriptions", "subscriptions");
  }

  lemma LoweredResourceGroups()
    ensures Lower("resourceGroups") == "resourcegroups"
  {
    LowerOf("resourceGroups", "resourcegroups");
  }

  lemma LoweredProviders()
    ensures Lower("providers") == "providers"
  {
    LowerOf("providers", "providers");
  }

  lemma LoweredNetAppAccounts()
    ensures Lower("netAppAccounts") == "netappaccounts"
  {
    LowerOf("netAppAccounts", "netappaccounts");
  }

  lemma LoweredCapacityPools()
    ensures Lower("capacityPools") == "capacitypools"
  {
    LowerOf("capacityPools", "capacitypools");
  }

  lemma LoweredVolumes()
    ensures Lower("volumes") == "volumes"
  {
    LowerOf("volumes", "volumes");
  }

  lemma LoweredSnapshots()
    ensures Lower("snapshots") == "snapshots"
  {
    LowerOf("snapshots", "snapshots");
  }

  lemma LoweredBackupPolicies()
    ensures Lower("backupPolicies") == "backuppolicies"
  {
    LowerOf("backupPolicies", "backuppolicies");
  }

  lemma TextSlashFree(w: Word)
    ensures '/' !in Text(w)
  {
  }

  lemma SharedHead(a: string, b: string)
    requires |b| >= 2 && StartsWith(a, b)
    ensures a[0] == b[0] && a[1] == b[1]
  {
    assert a[..|b|][0] == b[0] && a[..|b|][1] == b[1];
  }

  /** No word's key begins with another's: the first two letters already differ. */
  lemma KeysApart(v: Word, w: Word)
    requires v != w
    ensures !StartsWith(Key(v), Key(w))
  {
    if StartsWith(Key(v), Key(w)) {
      SharedHead(Key(v), Key(w));
    }
  }

  /** A name segment: free of '/' and not beginning, in any casing, with a word. */
  predicate Ordinary(name: string) {
    '/' !in name && forall w: Word :: !StartsWith(Lower(name), Key(w))
  }

  predicate AllOrdinary(names: seq<string>) {
    forall i :: 0 <= i < |names| ==> Ordinary(names[i])
  }

  /** Names free of '/', whatever they begin with. */
  predicate AllSlashFree(names: seq<string>) {
    forall i :: 0 <= i < |names| ==> '/' !in names[i]
  }

  predicate Distinct(ws: seq<Word>) {
    forall i, j :: 0 <= i < j < |ws| ==> ws[i] != ws[j]
  }

  /** The segments of an ID: each word followed by its name. */
  function Interleave(ws: seq<Word>, names: seq<string>): (segs: seq<string>)
    requires |ws| == |names|
    ensures |segs| == 2 * |ws|
  {
    if |ws| == 0 then [] else [Text(ws[0]), names[0]] + Interleave(ws[1..], names[1..])
  }

  /** The i-th word and its name sit at positions 2i and 2i + 1. */
  lemma {:induction false} PairAt(ws: seq<Word>, names: seq<string>, i: int)
    requires |ws| == |names| && 0 <= i < |ws|
    ensures Interleave(ws, names)[2 * i] == Text(ws[i])
    ensures Interleave(ws, names)[2 * i + 1] == names[i]
    decreases i
  {
    if i > 0 {
      PairAt(ws[1..], names[1..], i - 1);
    }
  }

  lemma OrdinaryIsSlashFree(names: seq<string>)
    requires AllOrdinary(names)
    ensures AllSlashFree(names)
  {
    forall i | 0 <= i < |names|
      ensures '/' !in names[i]
    {
      assert Ordinary(names[i]);
    }
  }

  lemma InterleaveSlashFree(ws: seq<Word>, names: seq<string>)
    requires |ws| == |names| && AllSlashFree(names)
    ensures SlashFreeSegments(Interleave(ws, names))
  {
    forall j | 0 <= j < 2 * |ws|
      ensures '/' !in Interleave(ws, names)[j]
    {
      var i := j / 2;
      PairAt(ws, names, i);
      if j % 2 == 0 {
        assert j == 2 * i;
        TextSlashFree(ws[i]);
      } else {
        assert j == 2 * i + 1;
      }
    }
  }

  /** Before the m-th word, no segment begins (in any casing) with a word not among the
      first m. */
  lemma NoneStartsWith(ws: seq<Word>, names: seq<string>, w: Word, m: int)
    requires |ws| == |names| && AllOrdinary(names)
    requires 0 <= m <= |ws| && w !in ws[..m]
    ensures forall j :: 0 <= j < 2 * m ==> !StartsWith(Lower(Interleave(ws, names)[j]), Lower(Text(w)))
  {
    forall j | 0 <= j < 2 * m
      ensures !StartsWith(Lower(Interleave(ws, names)[j]), Lower(Text(w)))
    {
      NotStartingAt(ws, names, w, m, j);
    }
  }

  lemma NotStartingAt(ws: seq<Word>, names: seq<string>, w: Word, m: int, j: int)
    requires |ws| == |names| && AllOrdinary(names)
    requires 0 <= m <= |ws| && w !in ws[..m] && 0 <= j < 2 * m
    ensures !StartsWith(Lower(Interleave(ws, names)[j]), Lower(Text(w)))
  {
    var i := j / 2;
    PairAt(ws, names, i);
    if j % 2 == 0 {
      assert j == 2 * i;
      assert ws[i] in ws[..m];
      WordNotStarting(ws[i], w);
    } else {
      assert j == 2 * i + 1;
      NameNotStarting(names[i], w);
    }
  }

  lemma WordNotStarting(v: Word, w: Word)
    requires v != w
    ensures !StartsWith(Lower(Text(v)), Lower(Text(w)))
  {
    KeyIsLower(v);
    KeyIsLower(w);
    KeysApart(v, w);
  }

  lemma NameNotStarting(name: string, w: Word)
    requires Ordinary(name)
    ensures !StartsWith(Lower(name), Lower(Text(w)))
  {
    KeyIsLower(w);
  }

  /** No segment spelled "resourcegroups" in lower case is followed by one that begins
      with a word: only the word itself is so spelled, and a name follows it. */
  lemma NoGroupCollision(ws: seq<Word>, names: seq<string>, w: Word)
    requires |ws| == |names| && AllOrdinary(names)
    ensures forall j :: 0 <= j < 2 * |ws| - 1 ==>
      !(Lower(Interleave(ws, names)[j]) == "resourcegroups"
        && StartsWith(Lower(Interleave(ws, names)[j + 1]), Lower(Text(w))))
  {
    forall j | 0 <= j < 2 * |ws| - 1 {
      NoCollisionAt(ws, names, w, j);
    }
  }

  lemma NoCollisionAt(ws: seq<Word>, names: seq<string>, w: Word, j: int)
    requires |ws| == |names| && AllOrdinary(names) && 0 <= j < 2 * |ws| - 1
    ensures !(Lower(Interleave(ws, names)[j]) == "resourcegroups"
      && StartsWith(Lower(Interleave(ws, names)[j + 1]), Lower(Text(w))))
  {
    var i := j / 2;
    PairAt(ws, names, i);
    if j % 2 == 0 {
      assert j + 1 == 2 * i + 1;
      NameNotStarting(names[i], w);
    } else {
      assert j == 2 * i + 1;
      NotGroupsWord(names[i]);
    }
  }

  /** No name is the resource-group word, in any casing. */
  lemma NotGroupsWord(name: string)
    requires Ordinary(name)
    ensures Lower(name) != "resourcegroups"
  {
    var g := Key(ResourceGroups);
    assert g[..|g|] == g;
    assert !StartsWith(Lower(name), g);
  }

  /** Looking up a word of the ID returns the name that follows it. */
  lemma WordValue(ws: seq<Word>, names: seq<string>, k: int)
    requires |ws| == |names| && AllOrdinary(names) && Distinct(ws) && 0 <= k < |ws|
    ensures ResourceValue(Path(Interleave(ws, names)), "/" + Text(ws[k])) == Success(Some(names[k]))
  {
    var segs, w := Interleave(ws, names), ws[k];
    TextSlashFree(w);
    OrdinaryIsSlashFree(names);
    InterleaveSlashFree(ws, names);
    PairAt(ws, names, k);
    var l := Lower(Text(w));
    assert l[..|l|] == l;
    assert w !in ws[..k];
    NoneStartsWith(ws, names, w, k);
    NoGroupCollision(ws, names, w);
    ValueOnPath(segs, Text(w), 2 * k);
  }

  /** Looking up a word the ID lacks returns nothing. */
  lemma WordAbsent(ws: seq<Word>, names: seq<string>, w: Word)
    requires |ws| == |names| && AllOrdinary(names) && w !in ws
    ensures ResourceValue(Path(Interleave(ws, names)), "/" + Text(w)) == Success(None)
  {
    TextSlashFree(w);
    OrdinaryIsSlashFree(names);
    InterleaveSlashFree(ws, names);
    assert ws[..|ws|] == ws;
    NoneStartsWith(ws, names, w, |ws|);
    AbsentOnPath(Interleave(ws, names), Text(w));
  }

  /** A word of the ID, followed by '/', occurs in its text, spelled as the ID spells it. */
  lemma WordShown(ws: seq<Word>, names: seq<string>, k: int)
    requires |ws| == |names| && 0 <= k < |ws|
    ensures Contains(Path(Interleave(ws, names)), "/" + Text(ws[k]) + "/")
  {
    var segs := Interleave(ws, names);
    PairAt(ws, names, k);
    RunInPath(segs, 2 * k, 2 * k + 2);
    assert segs[2 * k..2 * k + 2] == [Text(ws[k]), names[k]];
    PathOfTwo(Text(ws[k]), names[k]);
    ContainsHead(Path(segs), "/" + Text(ws[k]) + "/", names[k]);
  }

  /** A word the ID lacks does not occur in its text, not even in the exact spelling. */
  lemma WordHidden(ws: seq<Word>, names: seq<string>, w: Word)
    requires |ws| == |names| && AllOrdinary(names) && w !in ws
    ensures !Contains(Path(Interleave(ws, names)), "/" + Text(w) + "/")
  {
    var segs := Interleave(ws, names);
    TextSlashFree(w);
    OrdinaryIsSlashFree(names);
    InterleaveSlashFree(ws, names);
    assert ws[..|ws|] == ws;
    NoneStartsWith(ws, names, w, |ws|);
    forall j | 0 <= j < |segs|
      ensures !StartsWith(segs[j], Text(w))
    {
      if StartsWith(segs[j], Text(w)) {
        LowerKeepsPrefix(segs[j], Text(w));
      }
    }
    AbsentFromPath(segs, Text(w));
    if Contains(Path(segs), "/" + Text(w) + "/") {
      ContainsHead(Path(segs), "/" + Text(w), "/");
    }
  }

  /** What an ID names below its account. */
  datatype Depth =
    | AccountLevel
    | PoolLevel(pool: string)
    | VolumeLevel(pool: string, volume: string)
    | SnapshotLevel(pool: string, volume: string, snapshot: string)

  /** A NetApp resource ID: subscription, resource group, provider namespace, account, and
      whatever lies below the account. */
  datatype AnfId = AnfId(subscription: string, group: string, provider: string,
    account: string, below: Depth)

  function Words(id: AnfId): (ws: seq<Word>)
    ensures |ws| >= 4
  {
    [Subscriptions, ResourceGroups, Providers, NetAppAccounts] +
    match id.below
    case AccountLevel => []
    case PoolLevel(_) => [CapacityPools]
    case VolumeLevel(_, _) => [CapacityPools, Volumes]
    case SnapshotLevel(_, _, _) => [CapacityPools, Volumes, Snapshots]
  }

  function Names(id: AnfId): (names: seq<string>)
    ensures |names| == |Words(id)|
  {
    [id.subscription, id.group, id.provider, id.account] +
    match id.below
    case AccountLevel => []
    case PoolLevel(p) => [p]
    case VolumeLevel(p, v) => [p, v]
    case SnapshotLevel(p, v, s) => [p, v, s]
  }

  /** The text of an ID: "/subscriptions/<s>/resourceGroups/<g>/providers/<p>/..." */
  function IdText(id: AnfId): string {
    Path(Interleave(Words(id), Names(id)))
  }

  /** Every name in the ID is an ordinary segment. */
  predicate WellFormed(id: AnfId) {
    AllOrdinary(Names(id))
  }

  /** An ID whose names hold no '/': enough for get_resource_name and the gate. */
  predicate SlashFreeNames(id: AnfId) {
    AllSlashFree(Names(id))
  }

  function PoolOf(d: Depth): Option<string> {
    if d.AccountLevel? then None else Some(d.pool)
  }

  function VolumeOf(d: Depth): Option<string> {
    if d.VolumeLevel? || d.SnapshotLevel? then Some(d.volume) else None
  }

  function SnapshotOf(d: Depth): Option<string> {
    if d.SnapshotLevel? then Some(d.snapshot) else None
  }

  lemma WordsDistinct(id: AnfId)
    ensures Distinct(Words(id))
  {
  }

  /** The six extractor labels are "/" followed by their word. */
  lemma LabelsSpelled()
    ensures SubscriptionsLabel == "/" + Text(Subscriptions)
    ensures ResourceGroupsLabel == "/" + Text(ResourceGroups)
    ensures AccountsLabel == "/" + Text(NetAppAccounts)
    ensures CapacityPoolsLabel == "/" + Text(CapacityPools)
    ensures VolumesLabel == "/" + Text(Volumes)
    ensures SnapshotsLabel == "/" + Text(Snapshots)
  {
  }

  /** The extractors take an ID apart: each returns the name its word introduces, and
      `None` for a word the ID does not reach. */
  lemma ExtractorsOnId(id: AnfId)
    requires WellFormed(id)
    ensures Subscription(IdText(id)) == Success(Some(id.subscription))
    ensures ResourceGroup(IdText(id)) == Success(Some(id.group))
    ensures AnfAccount(IdText(id)) == Success(Some(id.account))
    ensures AnfCapacityPool(IdText(id)) == Success(PoolOf(id.below))
    ensures AnfVolume(IdText(id)) == Success(VolumeOf(id.below))
    ensures AnfSnapshot(IdText(id)) == Success(SnapshotOf(id.below))
  {
    SubscriptionOfId(id);
    GroupOfId(id);
    AccountOfId(id);
    PoolOfId(id);
    VolumeOfId(id);
    SnapshotOfId(id);
  }

  lemma ValueAt(id: AnfId, k: int, lab: string)
    requires WellFormed(id) && 0 <= k < |Words(id)| && lab == "/" + Text(Words(id)[k])
    ensures ResourceValue(IdText(id), lab) == Success(Some(Names(id)[k]))
  {
    WordsDistinct(id);
    WordValue(Words(id), Names(id), k);
  }

  lemma AbsentAt(id: AnfId, w: Word, lab: string)
    requires WellFormed(id) && w !in Words(id) && lab == "/" + Text(w)
    ensures ResourceValue(IdText(id), lab) == Success(None)
  {
    WordAbsent(Words(id), Names(id), w);
  }

  lemma SubscriptionOfId(id: AnfId)
    requires WellFormed(id)
    ensures Subscription(IdText(id)) == Success(Some(id.subscription))
  {
    LabelsSpelled();
    ValueAt(id, 0, SubscriptionsLabel);
  }

  lemma GroupOfId(id: AnfId)
    requires WellFormed(id)
    ensures ResourceGroup(IdText(id)) == Success(Some(id.group))
  {
    LabelsSpelled();
    ValueAt(id, 1, ResourceGroupsLabel);
  }

  lemma AccountOfId(id: AnfId)
    requires WellFormed(id)
    ensures AnfAccount(IdText(id)) == Success(Some(id.account))
  {
    LabelsSpelled();
    ValueAt(id, 3, AccountsLabel);
  }

  lemma PoolOfId(id: AnfId)
    requires WellFormed(id)
    ensures AnfCapacityPool(IdText(id)) == Success(PoolOf(id.below))
  {
    LabelsSpelled();
    if id.below.AccountLevel? {
      AbsentAt(id, CapacityPools, CapacityPoolsLabel);
    } else {
      assert Names(id)[4] == id.below.pool;
      ValueAt(id, 4, CapacityPoolsLabel);
    }
  }

  lemma VolumeOfId(id: AnfId)
    requires WellFormed(id)
    ensures AnfVolume(IdText(id)) == Success(VolumeOf(id.below))
  {
    LabelsSpelled();
    if id.below.AccountLevel? || id.below.PoolLevel? {
      AbsentAt(id, Volumes, VolumesLabel);
    } else {
      assert Names(id)[5] == id.below.volume;
      ValueAt(id, 5, VolumesLabel);
    }
  }

  lemma SnapshotOfId(id: AnfId)
    requires WellFormed(id)
    ensures AnfSnapshot(IdText(id)) == Success(SnapshotOf(id.below))
  {
    LabelsSpelled();
    if id.below.SnapshotLevel? {
      assert Names(id)[6] == id.below.snapshot;
      ValueAt(id, 6, SnapshotsLabel);
    } else {
      AbsentAt(id, Snapshots, SnapshotsLabel);
    }
  }

  /** The name of the deepest resource the ID reaches. */
  function LastName(id: AnfId): string {
    match id.below
    case AccountLevel => id.account
    case PoolLevel(p) => p
    case VolumeLevel(_, v) => v
    case SnapshotLevel(_, _, s) => s
  }

  /** get_resource_name of an ID is the name of the deepest resource it reaches. */
  lemma NameOfId(id: AnfId)
    requires SlashFreeNames(id)
    ensures ResourceName(IdText(id)) == Some(LastName(id))
  {
    LastNameIsLast(id);
    LastNameOfPath(Words(id), Names(id));
  }

  lemma LastNameIsLast(id: AnfId)
    ensures LastName(id) == Names(id)[|Names(id)| - 1]
  {
  }

  /** The name of an interleaved path is its last name. */
  lemma LastNameOfPath(ws: seq<Word>, names: seq<string>)
    requires |ws| == |names| > 0 && '/' !in names[|names| - 1]
    ensures ResourceName(Path(Interleave(ws, names))) == Some(names[|names| - 1])
  {
    var segs := Interleave(ws, names);
    var n, m := |segs| - 1, |ws| - 1;
    PairAt(ws, names, m);
    assert n == 2 * m + 1;
    var x, last := Path(segs[..n]), names[m];
    PathAt(segs, n);
    assert Path(segs[n + 1..]) == "" by {
      assert segs[n + 1..] == [];
    }
    var u := Path(segs);
    assert u == x + "/" + last;
    PathStartsWithSlash(segs);
    NotBlankWhenFirstIsNotSpace(u);
    ResourceNameOfJoin(x, last);
  }

  /** The namespace Azure itself writes in resource IDs. */
  const CanonicalProvider: string := "Microsoft.NetApp"

  lemma ProvidersPiece()
    ensures "/" + Text(Providers) + "/" == "/providers/"
  {
  }

  lemma AccountsPiece()
    ensures "/" + Text(NetAppAccounts) == "/netAppAccounts"
  {
  }

  lemma AnfMarkerSpelled()
    ensures AnfMarker == Path([Text(Providers), GateProvider, Text(NetAppAccounts)])
    ensures AnfMarker == "/" + Text(Providers) + "/" + GateProvider + "/netAppAccounts"
  {
    PathOfThree(Text(Providers), GateProvider, Text(NetAppAccounts));
    ProvidersPiece();
    AccountsPiece();
    var p, q := "/" + Text(Providers) + "/", "/" + Text(NetAppAccounts);
    assert "/" + Text(Providers) + "/" + GateProvider + "/" + Text(NetAppAccounts) == p + GateProvider + q;
  }

  /** The five classifier markers are their word between two slashes. */
  lemma MarkersSpelled()
    ensures SnapshotsMarker == "/" + Text(Snapshots) + "/"
    ensures VolumesMarker == "/" + Text(Volumes) + "/"
    ensures CapacityPoolsMarker == "/" + Text(CapacityPools) + "/"
    ensures BackupPoliciesMarker == "/" + Text(BackupPolicies) + "/"
    ensures AccountsMarker == "/" + Text(NetAppAccounts) + "/"
  {
  }

  lemma IdNotBlank(id: AnfId)
    ensures !IsBlank(IdText(id))
  {
    PathStartsWithSlash(Interleave(Words(id), Names(id)));
    NotBlankWhenFirstIsNotSpace(IdText(id));
  }

  /** An ID whose provider segment is exactly the gate's passes the gate. */
  lemma GateOpen(id: AnfId)
    requires id.provider == GateProvider
    ensures IsAnfResource(IdText(id))
  {
    var ws, names := Words(id), Names(id);
    var segs := Interleave(ws, names);
    PairAt(ws, names, 2);
    PairAt(ws, names, 3);
    RunInPath(segs, 4, 7);
    assert segs[4..7] == [Text(Providers), GateProvider, Text(NetAppAccounts)];
    AnfMarkerSpelled();
    IdNotBlank(id);
  }

  /** Only the provider word is spelled "providers". */
  lemma ProvidersSpelledOnce(v: Word)
    ensures Text(v) == "providers" ==> v == Providers
  {
  }

  /** No word begins with the gate's provider spelling: they differ in the first letter. */
  lemma WordNotGate(v: Word)
    ensures !StartsWith(Text(v), GateProvider)
  {
    assert GateProvider[0] == 'm' && Text(v)[0] != 'm';
  }

  lemma ProviderPairAt(id: AnfId, j: int)
    requires !StartsWith(id.provider, GateProvider)
    requires 0 <= j < 2 * |Words(id)| - 1
    ensures !(Interleave(Words(id), Names(id))[j] == "providers"
      && StartsWith(Interleave(Words(id), Names(id))[j + 1], GateProvider))
  {
    var ws, names := Words(id), Names(id);
    var i := j / 2;
    PairAt(ws, names, i);
    if j % 2 == 0 {
      assert j + 1 == 2 * i + 1;
      if i != 2 {
        assert ws[i] != Providers by {
          WordsDistinct(id);
        }
        ProvidersSpelledOnce(ws[i]);
      }
    } else {
      assert j == 2 * i + 1;
      PairAt(ws, names, i + 1);
      WordNotGate(ws[i + 1]);
    }
  }

  /** An ID whose provider segment does not begin with the gate's exact spelling fails the
      gate, and so every one of the four predicates. */
  lemma GateShut(id: AnfId)
    requires SlashFreeNames(id) && !StartsWith(id.provider, GateProvider)
    ensures !IsAnfResource(IdText(id)) && KindCount(IdText(id)) == 0
    ensures Classify(IdText(id)) == Unclassified
  {
    var ws, names := Words(id), Names(id);
    var segs := Interleave(ws, names);
    InterleaveSlashFree(ws, names);
    forall j | 0 <= j < |segs| - 1
      ensures !(segs[j] == "providers" && StartsWith(segs[j + 1], GateProvider))
    {
      ProviderPairAt(id, j);
    }
    PairAbsentFromPath(segs, "providers", GateProvider);
    AnfMarkerSpelled();
    if Contains(IdText(id), AnfMarker) {
      ContainsHead(IdText(id), "/" + Text(Providers) + "/" + GateProvider, "/netAppAccounts");
    }
    GateClosed(IdText(id));
  }

  /** IDs spelled the way Azure spells them are never classified. */
  lemma CanonicalIdUnclassified(id: AnfId)
    requires SlashFreeNames(id) && id.provider == CanonicalProvider
    ensures Classify(IdText(id)) == Unclassified && KindCount(IdText(id)) == 0
  {
    CanonicalMissesGate();
    GateShut(id);
  }

  /** The canonical namespace differs from the gate's spelling in its first letter. */
  lemma CanonicalMissesGate()
    ensures !StartsWith(CanonicalProvider, GateProvider)
  {
    assert CanonicalProvider[0] == 'M' && GateProvider[0] == 'm';
    assert CanonicalProvider[..|GateProvider|][0] == CanonicalProvider[0];
  }

  /** The kind each depth should be classified as. */
  function KindOf(d: Depth): Kind {
    match d
    case AccountLevel => Account
    case PoolLevel(_) => CapacityPool
    case VolumeLevel(_, _) => Volume
    case SnapshotLevel(_, _, _) => Snapshot
  }

  /** Past the gate, an ID is classified by its depth, and exactly one predicate holds. */
  lemma ClassifyId(id: AnfId)
    requires WellFormed(id) && id.provider == GateProvider
    ensures Classify(IdText(id)) == KindOf(id.below)
    ensures KindCount(IdText(id)) == 1
  {
    GateOpen(id);
    match id.below
    case SnapshotLevel(_, _, _) => SnapshotIdFacts(id);
    case VolumeLevel(_, _) => VolumeIdFacts(id);
    case PoolLevel(_) => PoolIdFacts(id);
    case AccountLevel => AccountIdFacts(id);
    AtMostOneKind(IdText(id));
  }

  lemma SnapshotIdFacts(id: AnfId)
    requires WellFormed(id) && id.below.SnapshotLevel?
    ensures Contains(IdText(id), SnapshotsMarker)
  {
    MarkersSpelled();
    WordShown(Words(id), Names(id), 6);
  }

  lemma VolumeIdFacts(id: AnfId)
    requires WellFormed(id) && id.below.VolumeLevel?
    ensures !Contains(IdText(id), SnapshotsMarker) && Contains(IdText(id), VolumesMarker)
  {
    MarkersSpelled();
    WordHidden(Words(id), Names(id), Snapshots);
    WordShown(Words(id), Names(id), 5);
  }

  lemma PoolIdFacts(id: AnfId)
    requires WellFormed(id) && id.below.PoolLevel?
    ensures !Contains(IdText(id), SnapshotsMarker) && !Contains(IdText(id), VolumesMarker)
    ensures Contains(IdText(id), CapacityPoolsMarker)
  {
    MarkersSpelled();
    WordHidden(Words(id), Names(id), Snapshots);
    WordHidden(Words(id), Names(id), Volumes);
    WordShown(Words(id), Names(id), 4);
  }

  lemma AccountIdFacts(id: AnfId)
    requires WellFormed(id) && id.below.AccountLevel?
    ensures !Contains(IdText(id), SnapshotsMarker) && !Contains(IdText(id), VolumesMarker)
    ensures !Contains(IdText(id), CapacityPoolsMarker) && !Contains(IdText(id), BackupPoliciesMarker)
    ensures Contains(IdText(id), AccountsMarker)
  {
    MarkersSpelled();
    WordHidden(Words(id), Names(id), Snapshots);
    WordHidden(Words(id), Names(id), Volumes);
    WordHidden(Words(id), Names(id), CapacityPools);
    WordHidden(Words(id), Names(id), BackupPolicies);
    WordShown(Words(id), Names(id), 3);
  }

  /** A name that is itself a type word derails the classification: a pool-level ID
      whose account is called "volumes" holds "/volumes/capacityPools", so the volume test
      finds "/volumes/" and the ID is never classified as the capacity pool it names. */
  lemma AccountNamedVolumes(id: AnfId)
    requires id.provider == GateProvider && id.below.PoolLevel? && id.account == "volumes"
    ensures IsAnfResource(IdText(id)) && Contains(IdText(id), VolumesMarker)
    ensures !IsAnfCapacityPool(IdText(id)) && Classify(IdText(id)) != KindOf(id.below)
  {
    GateOpen(id);
    AccountNamedVolumesShows(id);
    assert KindOf(id.below) == CapacityPool;
  }

  lemma AccountNamedVolumesShows(id: AnfId)
    requires id.below.PoolLevel? && id.account == "volumes"
    ensures Contains(IdText(id), VolumesMarker)
  {
    var ws, names := Words(id), Names(id);
    assert names[3] == "volumes" && ws[4] == CapacityPools;
    NameThenWord(ws, names, 3);
    VolumesWordThenPools();
    ContainsHead(IdText(id), VolumesMarker, Text(CapacityPools));
  }

  /** A name and the word after it stand together in the ID's text. */
  lemma NameThenWord(ws: seq<Word>, names: seq<string>, i: int)
    requires |ws| == |names| && 0 <= i < |ws| - 1
    ensures Contains(Path(Interleave(ws, names)), Path([names[i], Text(ws[i + 1])]))
  {
    var segs := Interleave(ws, names);
    PairAt(ws, names, i);
    PairAt(ws, names, i + 1);
    RunInPath(segs, 2 * i + 1, 2 * i + 3);
    assert segs[2 * i + 1..2 * i + 3] == [names[i], Text(ws[i + 1])];
  }

  lemma VolumesWordThenPools()
    ensures Path(["volumes", Text(CapacityPools)]) == VolumesMarker + Text(CapacityPools)
  {
    PathOfTwo("volumes", Text(CapacityPools));
  }
}
