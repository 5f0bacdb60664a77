# Resource-ID helpers of the ANF capacity-alert function

This project models, in Dafny, the helpers that the Azure NetApp Files (ANF)
capacity-alert HTTP function uses to read Azure resource IDs such as

    /subscriptions/<sub>/resourceGroups/<rg>/providers/Microsoft.NetApp/netAppAccounts/<acct>/capacityPools/<pool>/volumes/<vol>

The helpers do three things:

- `get_resource_value` takes a type label such as "/volumes" and returns the segment that follows it.
- `get_resource_name` returns the last segment of an ID.
- `is_anf_resource` and the four `is_anf_*` predicates decide whether an ID names a snapshot, a volume, a capacity pool or an account.

The model follows the Python code branch by branch. The collision branch can raise an
exception, so a lookup yields `Result<Option<string>, Fault>`. `Success(None)` is the
Python `None`, and `Failure(IndexError)` is the `IndexError` that line 108 can raise.

Modules:

- `Wrappers`: `Option` and `Result`.
- `PyStr`: the Python string operations the helpers use, each with a declarative specification proved against its definition:
  - `str.strip` and `str.isspace` (the blank test)
  - ASCII `str.lower`
  - `str.find` and `str.rfind` (including their -1 answer)
  - `str.split` and its inverse `Join`
- `Segments`: slash-separated segments, and `Path(segs)`, the text "/s0/s1/.../sn". The theory of where a label can first occur in such a path is developed here.
- `ResourceIds`: `get_resource_value` (`ResourceValue`), `get_resource_name` (`ResourceName`) and the six extractors. Separate lemmas cover the blank case, the two slash normalisations, case-insensitive matching, the ordinary branch, the collision branch and the paths built from segments.
- `Classifier`: `is_anf_resource` and the four `is_anf_*` predicates. It also holds an independent reference classification, `Classify`, with its agreement and exclusivity lemmas.
- `CanonicalIds`: IDs built from their components (`AnfId`: subscription, group, provider, account, then optionally pool, volume and snapshot). Its lemmas cover three things:
  - The extractors and `get_resource_name` take such an ID apart again.
  - Past the gate, the predicates classify the ID by its depth.
  - With the provider spelled the way Azure spells it ("Microsoft.NetApp"), the gate is shut and nothing is classified.

Three behaviours of the code are worth knowing, and the model keeps each of them:

- The collision branch (lines 102-108) returns a value cut from the lower-cased URI, so it comes back lower-cased (`ResourceIds.CollisionBranch`).
- For a label whose only '/' is the leading one (all six extractor labels), line 108 raises `IndexError` when no '/' follows the last occurrence of the label. One example is a label that ends a URI which also holds "/resourceGroups" + label (`ResourceIds.CollisionAtEndRaises`). For labels whose occurrences can overlap this need not hold: with the label "/a/a", the URI "/resourceGroups/a/a/a" gives "a".
- The gate on line 239 is a case-sensitive search for "/providers/microsoft.netApp/netAppAccounts". IDs spelled the way Azure spells them, with "Microsoft.NetApp" and names free of '/', never pass it, so all four predicates are false for them (`CanonicalIds.CanonicalIdUnclassified`). For IDs that use the gate's spelling, and whose names do not begin with a type word, the predicates classify by depth (`CanonicalIds.ClassifyId`).
- The predicates look for type words anywhere in the ID, so a name that is a type word misleads them. A pool-level ID whose account is called "volumes" holds "/volumes/capacityPools". The volume test finds "/volumes/" in it, and the ID is never classified as a capacity pool (`CanonicalIds.AccountNamedVolumes`).

## Model

All source paths are `HttpTrigger/__init__.py`.

| member | source | states |
|---|---|---|
| PyStr.BlankIffAllSpace | HttpTrigger/__init__.py:91-92 | `resource_uri.strip()` is empty exactly when every character is Python whitespace |
| PyStr.FindSpec | HttpTrigger/__init__.py:103 | `find` returns -1 exactly when the pattern does not occur, and otherwise the index of its first occurrence |
| PyStr.RFindSpec | HttpTrigger/__init__.py:132 | `rfind` returns -1 exactly when the pattern does not occur, and otherwise the index of its last occurrence |
| PyStr.FindRFindAgree | HttpTrigger/__init__.py:255 | `find(p) > -1` and `rfind(p) > -1` are the same test, so the predicates' use of `rfind` is an existence test |
| PyStr.LowerAt | HttpTrigger/__init__.py:103 | `lower()` keeps the length and lower-cases each character in place |
| PyStr.SplitJoin | HttpTrigger/__init__.py:106-107 | joining the pieces of `split(sep)` with `sep` gives back the original string |
| PyStr.LastSplitPiece | HttpTrigger/__init__.py:106-107 | for a separator whose first character occurs nowhere else in it (every label whose only '/' is the leading one), `split(sep)[-1]` is the text after the last occurrence |
| PyStr.SplitPiecesFree | HttpTrigger/__init__.py:108 | no piece of `split(sep)` contains the separator |
| Segments.SplitSlashSecond | HttpTrigger/__init__.py:108 | `split('/')` has a second piece exactly when the text holds a '/', and that piece is the segment after the first '/' |
| Segments.SlashFreeAfterLast | HttpTrigger/__init__.py:132-133 | the text after the last '/' holds no '/' |
| Segments.FirstOccurrenceInPath | HttpTrigger/__init__.py:110 | in a path of slash-free segments, a label "/key" first occurs at the head of the first segment that starts with key |
| ResourceIds.ResourceValue | HttpTrigger/__init__.py:80-116 | blank input gives None; a failure is only possible when the collision pattern occurs; a returned value never holds a '/' |
| ResourceIds.BlankUriGivesNone | HttpTrigger/__init__.py:91-92 | a URI of whitespace only gives None whatever the label |
| ResourceIds.LabelSlashOptional | HttpTrigger/__init__.py:94-95 | a label with and without its leading '/' gives the same answer |
| ResourceIds.UriSlashOptional | HttpTrigger/__init__.py:97-98 | a non-blank URI with and without its leading '/' gives the same answer |
| ResourceIds.LabelCaseInsensitive | HttpTrigger/__init__.py:102-110 | two labels that lower-case alike give the same answer |
| ResourceIds.OrdinaryBranch | HttpTrigger/__init__.py:110-114 | without the collision pattern, the answer is the original-case segment after the first case-insensitive occurrence of the label, or None when no '/' follows |
| ResourceIds.LabelAbsent | HttpTrigger/__init__.py:110-116 | a label that does not occur in any casing gives None |
| ResourceIds.CollisionBranch | HttpTrigger/__init__.py:102-108 | in the collision branch the answer is the lower-cased segment after the last occurrence of the label, or IndexError when no '/' follows |
| ResourceIds.CollisionAtEndRaises | HttpTrigger/__init__.py:106-108 | for a label whose only '/' is the leading one, a URI that ends with the label and holds the collision pattern raises IndexError |
| ResourceIds.ValueOnPath | HttpTrigger/__init__.py:110-114 | on a path of segments without a "resourceGroups" collision, the lookup returns the segment after the first segment starting with the key, or None at the end |
| ResourceIds.AbsentOnPath | HttpTrigger/__init__.py:110-116 | on a path where no segment starts with the key, the lookup returns None |
| ResourceIds.ResourceName | HttpTrigger/__init__.py:119-133 | None exactly for blank input; otherwise a '/'-free suffix of the URI, preceded by '/' unless it is the whole URI |
| ResourceIds.ResourceNameCases | HttpTrigger/__init__.py:132-133 | a URI without '/' is its own name, and a URI ending in '/' has the empty name |
| ResourceIds.ResourceNameOfJoin | HttpTrigger/__init__.py:132-133 | the name of x + "/" + last, for a '/'-free last, is last |
| ResourceIds.ResourceGroup | HttpTrigger/__init__.py:136-148 | blank input gives None; otherwise the lookup of "/resourceGroups" |
| ResourceIds.Subscription | HttpTrigger/__init__.py:151-163 | blank input gives None; otherwise the lookup of "/subscriptions" |
| ResourceIds.AnfAccount | HttpTrigger/__init__.py:166-178 | blank input gives None; otherwise the lookup of "/netAppAccounts" |
| ResourceIds.AnfCapacityPool | HttpTrigger/__init__.py:181-193 | blank input gives None; otherwise the lookup of "/capacityPools" |
| ResourceIds.AnfVolume | HttpTrigger/__init__.py:196-208 | blank input gives None; otherwise the lookup of "/volumes" |
| ResourceIds.AnfSnapshot | HttpTrigger/__init__.py:211-223 | blank input gives None; otherwise the lookup of "/snapshots" |
| Classifier.IsAnfResource | HttpTrigger/__init__.py:226-239 | true exactly for a non-blank ID that contains "/providers/microsoft.netApp/netAppAccounts" with that exact casing |
| Classifier.IsAnfSnapshot | HttpTrigger/__init__.py:242-255 | true exactly for a gated ID that contains "/snapshots/" |
| Classifier.IsAnfVolume | HttpTrigger/__init__.py:258-276 | true exactly for a gated ID that contains "/volumes/" but not "/snapshots/" |
| Classifier.IsAnfCapacityPool | HttpTrigger/__init__.py:279-294 | true exactly for a gated ID that contains "/capacityPools/" but neither "/snapshots/" nor "/volumes/" |
| Classifier.IsAnfAccount | HttpTrigger/__init__.py:297-314 | true exactly for a gated ID that contains "/netAppAccounts/" and none of the pool, volume, snapshot and backup-policy markers |
| Classifier.ClassifyAgrees | HttpTrigger/__init__.py:242-314 | each predicate holds exactly when the first-match-wins reference classification picks its kind |
| Classifier.AtMostOneKind | HttpTrigger/__init__.py:242-314 | at most one of the four predicates holds, and exactly one unless the ID is unclassified |
| Classifier.GateClosed | HttpTrigger/__init__.py:236-239 | without the exact provider text, or for blank input, the gate and all four predicates are false |
| Classifier.SnapshotWins | HttpTrigger/__init__.py:252-255 | a gated ID holding "/snapshots/" is a snapshot and nothing else |
| CanonicalIds.WordValue | HttpTrigger/__init__.py:110-114 | on an ID built from distinct type words and ordinary names, each word's label yields the name that follows it |
| CanonicalIds.WordAbsent | HttpTrigger/__init__.py:110-116 | on such an ID, the label of a word it does not use yields None |
| CanonicalIds.ExtractorsOnId | HttpTrigger/__init__.py:136-223 | the six extractors return the subscription, group, account, pool, volume and snapshot the ID was built from, and None for the levels it does not reach |
| CanonicalIds.NameOfId | HttpTrigger/__init__.py:119-133 | the resource name of an ID whose names hold no '/' is the name of the deepest resource it reaches |
| CanonicalIds.GateOpen | HttpTrigger/__init__.py:236-239 | an ID whose provider segment is spelled "microsoft.netApp" passes the gate |
| CanonicalIds.GateShut | HttpTrigger/__init__.py:236-239 | an ID with '/'-free names whose provider segment does not begin with "microsoft.netApp" fails the gate, and all four predicates are false |
| CanonicalIds.CanonicalIdUnclassified | HttpTrigger/__init__.py:239 | an ID with '/'-free names and the canonical provider "Microsoft.NetApp" is classified as none of the four kinds |
| CanonicalIds.ClassifyId | HttpTrigger/__init__.py:226-314 | past the gate, an ID is classified by its depth (account, pool, volume or snapshot), and exactly one predicate holds |
| CanonicalIds.AccountNamedVolumes | HttpTrigger/__init__.py:258-294 | a gated pool-level ID whose account is named "volumes" contains "/volumes/", fails the capacity-pool test and is not classified as a capacity pool |

## Left out

- The HTTP entry point `main` (lines 10-76) is not modelled. That covers the request parsing, the Azure SDK calls, logging, the floating-point threshold arithmetic and the HTTP response. It is I/O and foreign code.
- PyStr.Lower: lower-cases ASCII letters only. Python's `str.lower` also folds non-ASCII letters; IDs are ASCII.
- PyStr.IsSpace: covers the code points Python's `str.isspace` accepts, as a fixed list; Unicode database updates are not modelled.
- ResourceIds.OrdinaryBranch: stated for a URI and label that already start with '/'. `ResourceIds.UriSlashOptional` and `ResourceIds.LabelSlashOptional` reduce every other input to that case.
- ResourceIds.CollisionBranch: stated for normalised inputs and for labels whose only '/' is the leading one (all six labels the extractors use). For other labels the model defines the branch (`ResourceIds.CollisionValue`) but states no lemma about its value.
- ResourceIds.CollisionAtEndRaises: stated for a URI and label that already start with '/' and for labels whose only '/' is the leading one (`SingleSlashLabel`). The slash lemmas cover unnormalised inputs. For labels whose occurrences can overlap the claim is false ("/a/a" on "/resourceGroups/a/a/a" gives "a"), so it is not made.
- ResourceIds.WithLeadingSlash: its contract only says the result starts with '/'. What it adds is pinned down by the two slash lemmas.
- ResourceIds.ResourceGroup, ResourceIds.Subscription, ResourceIds.AnfAccount, ResourceIds.AnfCapacityPool, ResourceIds.AnfVolume, ResourceIds.AnfSnapshot: their contracts relate them to `ResourceValue` with their label. What they return on real IDs is stated by `CanonicalIds.ExtractorsOnId`.
- CanonicalIds.ExtractorsOnId: covers IDs whose names hold no '/' and do not start, in any casing, with one of the type words (subscriptions, resourceGroups, providers, netAppAccounts, capacityPools, volumes, snapshots, backupPolicies). A name such as "volumesA" makes the first-occurrence search stop early, and the lemma says nothing about it.
- CanonicalIds.ClassifyId: covers IDs with the gate's exact provider spelling whose names hold no '/' and do not begin, in any casing, with a type word. Every provider spelling that does not begin with the gate's is covered by `CanonicalIds.GateShut`. Names that begin with a type word can mislead the predicates, and the lemma makes no promise for them. `CanonicalIds.AccountNamedVolumes` proves one such case: a pool-level ID whose account is named "volumes" is never classified as a capacity pool.
- Python `None` arguments are not modelled (the helpers would raise `AttributeError` on them). Every argument is a string.
