/** Deciding which kind of Azure NetApp Files resource an ID names (is_anf_resource and
    the four is_anf_* predicates). Every test is a plain, case-sensitive substring test. */
module Classifier {
  import opened PyStr

  /** The provider namespace as the gate spells it; the canonical "Microsoft.NetApp" does
      not match it. */
  const GateProvider: string := "microsoft.netApp"
  /** The text an ID must hold, spelled exactly so:
      "/providers/microsoft.netApp/netAppAccounts". */
  const AnfMarker: string := "/providers/" + GateProvider + "/netAppAccounts"
  const SnapshotsMarker: string := "/snapshots/"
  const VolumesMarker: string := "/volumes/"
  const CapacityPoolsMarker: string := "/capacityPools/"
  const BackupPoliciesMarker: string := "/backupPolicies/"
  const AccountsMarker: string := "/netAppAccounts/"

  /** Python's `s.find(p) > -1`. */
  function Found(s: string, p: string): (r: bool)
    ensures r <==> Contains(s, p)
  {
    FindSpec(s, p);
    Find(s, p) > -1
  }

  /** Python's `s.rfind(p) > -1`, which the predicates use as an existence test. */
  function FoundLast(s: string, p: string): (r: bool)
    ensures r <==> Contains(s, p)
  {
    RFindSpec(s, p);
    RFind(s, p) > -1
  }

  /** is_anf_resource: false for blank input, otherwise whether the provider text occurs. */
  function IsAnfResource(uri: string): (r: bool)
    ensures r <==> !IsBlank(uri) && Contains(uri, AnfMarker)
  {
    if IsBlank(uri) then false else Found(uri, AnfMarker)
  }

  /** is_anf_snapshot: a gated ID holding "/snapshots/". */
  function IsAnfSnapshot(uri: string): (r: bool)
    ensures r <==> IsAnfResource(uri) && Contains(uri, SnapshotsMarker)
  {
    if IsBlank(uri) || !IsAnfResource(uri) then false
    else FoundLast(uri, SnapshotsMarker)
  }

  /** is_anf_volume: a gated ID that is not a snapshot and holds "/volumes/". */
  function IsAnfVolume(uri: string): (r: bool)
    ensures r <==> IsAnfResource(uri) && !Contains(uri, SnapshotsMarker) && Contains(uri, VolumesMarker)
  {
    if IsBlank(uri) || !IsAnfResource(uri) then false
    else !IsAnfSnapshot(uri) && FoundLast(uri, VolumesMarker)
  }

  /** is_anf_capacity_pool: a gated ID that is neither snapshot nor volume and holds
      "/capacityPools/". */
  function IsAnfCapacityPool(uri: string): (r: bool)
    ensures r <==> (IsAnfResource(uri) && !Contains(uri, SnapshotsMarker)
      && !Contains(uri, VolumesMarker) && Contains(uri, CapacityPoolsMarker))
  {
    if IsBlank(uri) || !IsAnfResource(uri) then false
    else !IsAnfSnapshot(uri) && !IsAnfVolume(uri) && FoundLast(uri, CapacityPoolsMarker)
  }

  /** is_anf_account: a gated ID that is none of the three above, holds no
      "/backupPolicies/" and holds "/netAppAccounts/". */
  function IsAnfAccount(uri: string): (r: bool)
    ensures r <==> (IsAnfResource(uri) && !Contains(uri, SnapshotsMarker)
      && !Contains(uri, VolumesMarker) && !Contains(uri, CapacityPoolsMarker)
      && !Contains(uri, BackupPoliciesMarker) && Contains(uri, AccountsMarker))
  {
    if IsBlank(uri) || !IsAnfResource(uri) then false
    else (!IsAnfSnapshot(uri) && !IsAnfVolume(uri) && !IsAnfCapacityPool(uri)
      && !FoundLast(uri, BackupPoliciesMarker) && FoundLast(uri, AccountsMarker))
  }

  /** The four kinds, most specific first, and the IDs that are none of them. */
  datatype Kind = Snapshot | Volume | CapacityPool | Account | Unclassified

  /** A reference classification: the first kind, in order of precedence, whose text
      occurs in a gated ID. */
  function Classify(uri: string): (k: Kind)
    ensures k != Unclassified ==> IsAnfResource(uri)
  {
    if !IsAnfResource(uri) then Unclassified
    else if Contains(uri, SnapshotsMarker) then Snapshot
    else if Contains(uri, VolumesMarker) then Volume
    else if Contains(uri, CapacityPoolsMarker) then CapacityPool
    else if !Contains(uri, BackupPoliciesMarker) && Contains(uri, AccountsMarker) then Account
    else Unclassified
  }

  /** How many of the four predicates hold. */
  function KindCount(uri: string): nat {
    (if IsAnfSnapshot(uri) then 1 else 0) + (if IsAnfVolume(uri) then 1 else 0)
    + (if IsAnfCapacityPool(uri) then 1 else 0) + (if IsAnfAccount(uri) then 1 else 0)
  }

  /** Each predicate holds exactly when the reference classification picks its kind. */
  lemma ClassifyAgrees(uri: string)
    ensures IsAnfSnapshot(uri) <==> Classify(uri) == Snapshot
    ensures IsAnfVolume(uri) <==> Classify(uri) == Volume
    ensures IsAnfCapacityPool(uri) <==> Classify(uri) == CapacityPool
    ensures IsAnfAccount(uri) <==> Classify(uri) == Account
  {
    var gate, snap, vol := IsAnfResource(uri), Contains(uri, SnapshotsMarker), Contains(uri, VolumesMarker);
    var pool := Contains(uri, CapacityPoolsMarker);
    var backup, acct := Contains(uri, BackupPoliciesMarker), Contains(uri, AccountsMarker);
    assert Classify(uri) == ClassifyFlags(gate, snap, vol, pool, backup, acct);
  }

  /** Classify, on the outcomes of its six substring tests. */
  function ClassifyFlags(gate: bool, snap: bool, vol: bool, pool: bool, backup: bool, acct: bool): Kind {
    if !gate then Unclassified
    else if snap then Snapshot
    else if vol then Volume
    else if pool then CapacityPool
    else if !backup && acct then Account
    else Unclassified
  }

  /** At most one predicate holds, and one holds unless the classification is
      Unclassified. */
  lemma AtMostOneKind(uri: string)
    ensures KindCount(uri) <= 1
    ensures KindCount(uri) == 1 <==> Classify(uri) != Unclassified
  {
    ClassifyAgrees(uri);
  }

  /** Without the exact provider text (or with blank input) every predicate is false,
      whatever else the ID holds. */
  lemma GateClosed(uri: string)
    requires !Contains(uri, AnfMarker) || IsBlank(uri)
    ensures !IsAnfResource(uri) && KindCount(uri) == 0
  {
  }

  /** A gated ID holding "/snapshots/" is a snapshot and nothing else. */
  lemma SnapshotWins(uri: string)
    requires IsAnfResource(uri) && Contains(uri, SnapshotsMarker)
    ensures IsAnfSnapshot(uri) && !IsAnfVolume(uri) && !IsAnfCapacityPool(uri) && !IsAnfAccount(uri)
  {
  }
}
