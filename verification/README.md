# Route 53 Resolver controller: a verified model

The controller compares a desired resource with what it observes in AWS and drives the remote
state towards the desired one, one API call at a time. Any call may fail, and loops over Go maps
visit the keys in any order. This project models the parts that do this for resolver endpoints,
resolver rules, tags and conditions, and proves what holds at every point of every run, over whole
histories of rounds, and what a run without failures achieves.

Each remote side is a class with the remote state, a function that decides which calls fail, and a
ghost log of the calls with the states they lead to. Methods with the control flow of the Go code
are proved to make exactly the calls of a plan up to the first failure; lemmas about plans, runs
and histories then hold for all of them. What a method achieves when nothing fails depends on its
own calls only, whatever failed before. Automatic induction is switched off in every lemma, so that
each proof is the one written down.

| files | what they model |
|---|---|
| `Wrappers.dfy`, `Orders.dfy`, `Runs.dfy` | optional values, enumerations of map keys, runs of calls |
| `EndpointTypes.dfy`, `EndpointBackend.dfy` | the endpoint resource and the remote endpoint |
| `EndpointHook.dfy`, `EndpointRuns.dfy`, `EndpointRounds.dfy` | listing, difference and synchronisation of addresses; their runs; rounds and histories |
| `RuleBackend.dfy`, `RuleHook.dfy`, `RuleRounds.dfy` | VPC associations of a rule; create, read, update and delete; histories |
| `TargetAddresses.dfy` | the 64-bit and 32-bit forms of target ports |
| `TagLists.dfy`, `TagManager.dfy`, `TagSync.dfy` | tags as lists and maps, default and system tags, synchronisation |
| `Conditions.dfy` | the Terminal and Recoverable conditions over sequences of outcomes |
| `References.dfy` | resolving and clearing references |
| `ManagerFactory.dfy` | the manager cache under interleaved callers |
| `ResolvedRounds.dfy` | rounds of an endpoint with references |
| `DeepCopies.dfy` | copying a rule's specification, pointer by pointer |

## Assumptions

- A remote call either fails without effect or takes effect at once, and nobody else changes the
  remote state during a round. A disassociation may leave an association that is being deleted,
  which no longer counts and may disappear between rounds.
- Address IDs are unique and attached addresses have a subnet. Desired addresses have a subnet ID
  when they are compared, because the code dereferences it for each of them.
- Listing the associations of a rule succeeds and fits in one page: the code uses the answer
  without looking at the error and follows no next token.
- A range over a Go map visits its keys in an arbitrary order.
- Library helpers that are not part of the repository have small specifications: `Merge` prefers
  its first argument, `GetTagsDifference` compares key and value, `OmitByKeys` and `PickByKeys` are
  set operations, `DeepEqual` is equality of values, `MapStringStringEqual` equality of maps,
  `HasNilDifference` tells nil from a value.

## What the code does and its comments do not say

- `SyncIPAddresses` may fail without `sdkUpdate` reporting it, and `createAssociation` without
  `sdkCreate` reporting it (`EndpointRounds.SdkUpdate`, `RuleRounds.SdkCreate`). The later rounds
  make up for it.
- The comparison of an endpoint can report its addresses although nothing is left to do. Every order
  of the listing is reported exactly when the desired entries are not, as a multiset, those listed
  (`EndpointRounds.AlwaysReportedIff`): entries that leave the IP open or come from a reference are
  among these (`EndpointRounds.SettledButReported`, `ResolvedRounds.ResolveThenReconcile`). No order is
  reported exactly when they are and are all alike (`EndpointRounds.NeverReportedIff`). Otherwise it
  depends on the order, and goes on for as long as that stays (`EndpointRounds.SettledReportedIff`,
  `EndpointRounds.OtherOrderReported`). The same holds for the associations of a rule
  (`RuleRounds.SettledReportedIff`).
- A change of a rule's endpoint alone is reported but never written; every update asks to be run
  again (`RuleRounds.EndpointAloneNeverWritten`).
- `ResolveReferences` is documented to return a copy; it changes the resource it is given. It also
  resolves before it reports that validation failed, so a resource that gives both an ID and a
  reference is not restored by clearing (`References.RoundTripIff`, `References.RoundTripLoses`), and
  resolving it again can give another result (`References.ResolveClearResolve`).
- With two Terminal conditions in a list only the last is kept up to date, and an earlier one that
  is True makes every error come back as terminal (`Conditions.SentinelIff`,
  `Conditions.StaleTerminal`).
- `FilterSystemTags` after `EnsureTags` is `FilterSystemTags` alone only under a condition on the
  default tags (`TagManager.FilterUndoesEnsure`, `TagManager.FilterLeavesDefault`).
- Two requests with different regions can share a cached manager if a region contains a slash
  (`ManagerFactory.KeyCollision`, `ManagerFactory.EveryCallerServedIff`).

## Model

| member | source | states |
|---|---|---|
| `EndpointHook.ListAttachedIPAddresses` | pkg/resource/resolver_endpoint/hook.go:24-88 | for every finite chain of pages: terminates; it succeeds exactly when none of the calls that ask for its pages fails, and stops at the first that does; on success the entries of both lists describe the attached addresses of one complete listing, field by field and aligned by index; otherwise both lists are as they were |
| `EndpointHook.InIpAddress` | pkg/resource/resolver_endpoint/hook.go:165-176 | true exactly when some address in the list has the subnet |
| `EndpointHook.GetIPAddressDifference` | pkg/resource/resolver_endpoint/hook.go:146-163 | what is to be added and removed; needs only that subnet IDs are given and that the status list reaches the addresses to be removed |
| `EndpointRuns.ToAddMembers` | pkg/resource/resolver_endpoint/hook.go:150-154 | the additions are exactly the desired addresses whose subnet is not attached |
| `EndpointRuns.ToRemoveMembers` | pkg/resource/resolver_endpoint/hook.go:156-160 | the removals are exactly the IDs of attached addresses in undesired subnets, each once, although one list is indexed by positions of the other |
| `EndpointHook.AttachAll` | pkg/resource/resolver_endpoint/hook.go:101-121 | the additions in order up to the first failure, the recorded count following each success |
| `EndpointHook.DetachAll` | pkg/resource/resolver_endpoint/hook.go:123-141 | the removals in order up to the first failure, the recorded count following each success; if none of its calls is made to fail it only stops at an ID that is not attached |
| `EndpointHook.SyncIPAddresses` | pkg/resource/resolver_endpoint/hook.go:90-144 | the calls made are the planned ones, additions first, up to and including the first that fails; endpoint state and recorded count are those the calls lead to; success means that none failed |
| `EndpointRuns.NeverBelowFloor` | pkg/resource/resolver_endpoint/hook.go:90-144 | at every point of every run, also after a failure, at least min(addresses at the start, distinct desired subnets) addresses are attached |
| `EndpointRuns.EveryCallAllowed` | pkg/resource/resolver_endpoint/hook.go:101-141 | in every run each addition is of a desired address and each successful removal is of an address in an undesired subnet |
| `EndpointRuns.NeverUncovers` | pkg/resource/resolver_endpoint/hook.go:90-144 | an address in a desired subnet stays attached unchanged, so a covered desired subnet is never uncovered |
| `EndpointRuns.WorkIsPlanLength` | pkg/resource/resolver_endpoint/hook.go:146-163 | the work left (uncovered desired addresses plus superfluous attached ones) is the number of calls a fresh listing would plan, in whatever order it comes |
| `EndpointRuns.NoWorkIffEqual` | pkg/resource/resolver_endpoint/hook.go:146-163 | nothing is left to do exactly when the attached subnets are the desired ones |
| `EndpointRuns.CallReducesWork` | pkg/resource/resolver_endpoint/hook.go:101-141 | a successful removal lowers the work by exactly one, a successful addition by the number of uncovered desired addresses in its subnet, a failure not at all |
| `EndpointRuns.WorkNeverGrows` | pkg/resource/resolver_endpoint/hook.go:90-144 | a run cut short at any point leaves no more to do than before |
| `EndpointRuns.RunLedger` | pkg/resource/resolver_endpoint/hook.go:90-144 | a run lowers the work by at least the number of its successful calls, wherever it stops |
| `EndpointRuns.CompleteRunConverges` | pkg/resource/resolver_endpoint/hook.go:90-144 | a run without failures ends with exactly the desired subnets attached |
| `EndpointRuns.NextCallPossible` | pkg/resource/resolver_endpoint/hook.go:123-137 | only failures of the backend stop a run: no planned removal ever meets a missing address |
| `EndpointRuns.RecordedCount` | pkg/resource/resolver_endpoint/hook.go:118-119 | if the recorded count was right it is right afterwards, also when the run fails midway: start plus successful additions minus successful removals |
| `EndpointRounds.SdkFind` | pkg/resource/resolver_endpoint/sdk.go:57-172 | found exactly when neither the call for the endpoint nor the one for its tags fails; the count is that of the endpoint; the address lists are both from one complete listing, or, when listing failed, both those of the resource it was asked for |
| `EndpointRounds.ReadComparable` | pkg/resource/resolver_endpoint/sdk.go:162-171 | in either case the status list is indexed within bounds; after a failed listing nothing is planned |
| `EndpointRounds.SdkUpdate` | pkg/resource/resolver_endpoint/sdk.go:363-473 | the desired resource itself when nothing differs, else a copy of it, exactly when the calls before those about addresses succeed; then the addresses are synchronised exactly when the comparison reports them; a failure while doing so is not reported; the count is the one the synchronisation recorded, else that of the answer |
| `EndpointRounds.NewResourceDelta` | pkg/resource/resolver_endpoint/delta.go:52-58 | the addresses are reported exactly when the two lists differ |
| `EndpointRounds.SilentDelta` | pkg/resource/resolver_endpoint/delta.go:52-58 | equal lists mean equal subnets, so whatever needs a call is reported |
| `EndpointRounds.DeltaStaysWithOpenIp` | pkg/resource/resolver_endpoint/delta.go:52-58 | a desired entry that leaves its IP open equals no listed one once the backend has chosen an IP, in whatever order the listing comes |
| `EndpointRounds.DeltaStaysWithReference` | pkg/resource/resolver_endpoint/delta.go:52-58 | nor does one that keeps the reference its subnet came from |
| `EndpointRounds.AlwaysReportedIff` | pkg/resource/resolver_endpoint/delta.go:52-58 | the comparison reports the addresses in whatever order the listing comes if and only if the desired entries and the listed ones differ as multisets |
| `EndpointRounds.NeverReportedIff` | pkg/resource/resolver_endpoint/delta.go:52-58 | no listing order is reported if and only if these multisets are equal and all entries are alike besides |
| `EndpointRounds.SettledReportedIff` | pkg/resource/resolver_endpoint/delta.go:52-58 | so a settled endpoint, which every later round leaves as it is, is reported in every listing order if and only if they differ and in none if and only if they are equal and all alike; otherwise that depends on the order, and a later round with the same order reports it again |
| `EndpointRounds.SettledButReported` | pkg/resource/resolver_endpoint/delta.go:52-58 | three settled endpoints that every listing order reports: an open IP, a reference that was kept after resolving, a second address in the desired subnet |
| `EndpointRounds.OtherOrderReported` | pkg/resource/resolver_endpoint/delta.go:52-58 | a settled endpoint with exactly the desired addresses that any number of rounds report, because it is listed in another order |
| `EndpointRounds.ReconcileRound` | pkg/resource/resolver_endpoint/sdk.go:468-471 | one round of find, compare and update is a round as the histories below have it; if none of its own calls fails, whatever failed before, it ends with exactly the desired subnets; what it returns is the desired resource or a copy of it, with the number of attached addresses |
| `EndpointRounds.ReconcileRounds` | pkg/resource/resolver_endpoint/sdk.go:468-471 | any number of rounds with any failures make a history; from the first round without a failed call on the subnets are the desired ones |
| `EndpointRounds.HistoryFloor` | apis/v1alpha1/resolver_endpoint.go:140-141 | over any number of rounds with any failures the endpoint never has fewer addresses than min(at first, desired subnets) |
| `EndpointRounds.TwoAddressesAtLeast` | apis/v1alpha1/resolver_endpoint.go:140-141 | an endpoint that starts with two addresses and is to have two subnets never drops below two |
| `EndpointRounds.HistoryProgress` | pkg/resource/resolver_endpoint/hook.go:24-163 | from a round to any point of any later one, addresses in desired subnets stay and the work left does not grow |
| `EndpointRounds.HistoryLedger` | pkg/resource/resolver_endpoint/hook.go:90-163 | over any history there are no more successful calls than work at first, and at most one failing call for each round |
| `EndpointRounds.HistorySettles` | pkg/resource/resolver_endpoint/hook.go:90-163 | once the subnets are equal no later round makes a call |
| `RuleHook.GetAttachedVPC` | pkg/resource/resolver_rule/hook.go:34-63 | the listed VPCs are those whose association is not being deleted, each once, in the order of the listing, and every other field is unset |
| `RuleHook.Difference` | pkg/resource/resolver_rule/hook.go:173-195 | the VPCs to associate are those desired but not there, the VPCs to disassociate those there but not desired |
| `RuleHook.UpsertNewAssociations` | pkg/resource/resolver_rule/hook.go:230-249 | each VPC is associated once, in any order, up to the first failure |
| `RuleHook.DeleteOldAssociations` | pkg/resource/resolver_rule/hook.go:209-228 | each VPC is disassociated once, in any order, up to the first failure |
| `RuleHook.SyncAssociation` | pkg/resource/resolver_rule/hook.go:164-207 | all associations, then all disassociations, each group in any order, up to the first failure |
| `RuleRounds.CallReducesDistance` | pkg/resource/resolver_rule/hook.go:209-249 | each successful call shrinks the symmetric difference of associated and desired VPCs by exactly one, a failing one leaves it |
| `RuleRounds.SyncDistance` | pkg/resource/resolver_rule/hook.go:164-207 | at no point of a synchronisation is the symmetric difference larger than at its start; after k successful calls it is smaller by k |
| `RuleRounds.CompleteSyncConverges` | pkg/resource/resolver_rule/hook.go:164-207 | a synchronisation without failures ends with exactly the desired VPCs, from any state |
| `RuleRounds.NextCallPossible` | pkg/resource/resolver_rule/hook.go:191-206 | the calls still to come stay possible, whatever order the maps are visited in |
| `RuleRounds.CustomUpdateResolverRule` | pkg/resource/resolver_rule/hook.go:65-104 | tags, associations and configuration in this order, each only if reported, up to the first failure; the configuration is written for a changed name or target and otherwise left alone, so starting from the configuration that was read it becomes the desired one if and only if name or targets are reported or nothing of it differs; it returns the desired resource when only tags and associations differ, else a copy of it to be requeued |
| `RuleRounds.EndpointAloneNeverWritten` | pkg/resource/resolver_rule/hook.go:83-103 | when only the endpoint differs from the configuration, any number of rounds with any failures leave the configuration as it is, and none of them is done |
| `RuleRounds.SyncResolverRuleConfig` | pkg/resource/resolver_rule/hook.go:118-162 | the configuration written reads back as the desired one; a port out of range is refused before any call |
| `RuleRounds.CreateAssociation` | pkg/resource/resolver_rule/hook.go:106-116 | for a new rule every desired VPC is to be associated and none removed |
| `RuleRounds.ReconcileRound` | pkg/resource/resolver_rule/hook.go:65-104 | one round of find, compare and update; if none of its own calls fails, whatever failed before, the associated VPCs are the desired ones, from any state of a rule that exists, and the configuration is the desired one if and only if the ports fit and the endpoint was right or the name or the targets were not; in any case the configuration is the old or the desired one |
| `RuleRounds.CreateThenReconcile` | pkg/resource/resolver_rule/sdk.go:344-349 | a create with any failures, also ignored ones, and any number of rounds with any failures make a history; from the first of them without a failed call on, the create included, the associated VPCs are the desired ones, and the configuration is the desired one throughout |
| `RuleRounds.HistoryDistance` | pkg/resource/resolver_rule/hook.go:34-116 | over any rounds, failures and map orders the symmetric difference is never larger than at the start of any earlier round |
| `RuleRounds.HistoryLedger` | pkg/resource/resolver_rule/hook.go:164-249 | over any history the symmetric difference at the end and the successful calls add up to that at the start, and there are at most as many calls as that and one for each round |
| `RuleRounds.HistorySettles` | pkg/resource/resolver_rule/hook.go:164-207 | once the sets are equal no later round makes a call |
| `RuleRounds.NewResourceDelta` | pkg/resource/resolver_rule/delta.go:45-93 | associations, name, endpoint and targets are reported exactly when they differ, nil and empty lists being the same |
| `RuleRounds.ReadAsIff` | pkg/resource/resolver_rule/hook.go:53-61 | the lists that reading a rule may give are exactly those with each associated VPC once and nothing but the VPC |
| `RuleRounds.SettledReportedIff` | pkg/resource/resolver_rule/delta.go:45-51 | a settled rule makes no call any more; every reading of it is reported if and only if the desired list has a VPC twice, an entry without a VPC or one with another field, none if and only if it has none of these and at most one entry; otherwise that depends on the order |
| `RuleRounds.DuplicateReported` | pkg/resource/resolver_rule/delta.go:45-51 | a VPC given once by itself and once with a name is reported by every round, though settled |
| `RuleRounds.SdkFind` | pkg/resource/resolver_rule/sdk.go:57-195 | name, endpoint, targets and associations of the result are those of the service; a rule that is not there is not found |
| `RuleRounds.SdkCreate` | pkg/resource/resolver_rule/sdk.go:224-351 | a list with a port out of range makes no call and creates nothing; otherwise the rule exists exactly when the create call succeeds, with the desired configuration; its VPCs are then associated as by a synchronisation of an empty rule, all of them if no call fails; errors while associating are ignored; target addresses come back unaltered |
| `RuleRounds.SdkDelete` | pkg/resource/resolver_rule/sdk.go:425-450 | the listed VPCs are disassociated in any order and only then is the rule deleted, up to the first failure |
| `RuleRounds.DeleteDetachesFirst` | pkg/resource/resolver_rule/sdk.go:434-448 | no association is made on the delete path; the delete call comes last, after a success of every disassociation |
| `RuleRounds.DeleteLeavesNothing` | pkg/resource/resolver_rule/sdk.go:434-448 | for a rule as read from the service no VPC is associated when the delete call is issued |
| `RuleRounds.FindAndDelete` | pkg/resource/resolver_rule/sdk.go:425-450 | reading a rule and deleting it: the same, for any state of the service |
| `TargetAddresses.NewCreateTargetIps` | pkg/resource/resolver_rule/sdk.go:387-408 | accepts a list exactly when every port given fits 32 bits; what it builds agrees with the list field by field and reads back as it |
| `TargetAddresses.ReadTargetIps` | pkg/resource/resolver_rule/sdk.go:161-180 | nil stays nil, IP, IPv6 and port of each address are kept, ports widened |
| `TargetAddresses.WriteThenRead` | pkg/resource/resolver_rule/sdk.go:161-180 | payload and reading compose to the identity on every accepted list, nil or not |
| `TargetAddresses.TruncationExactIffFits` | pkg/resource/resolver_rule/sdk.go:397-404 | the range check refuses exactly the ports that the conversion to int32 would alter |
| `TargetAddresses.NewUpdateTargetIps` | pkg/resource/resolver_rule/hook.go:133-151 | accepts exactly the same lists as the create payload, and what it builds agrees field by field and reads back the same way |
| `TargetAddresses.ReadsBackOnce` | pkg/resource/resolver_rule/hook.go:133-151 | what reads back as a list is determined by it, so both payloads hold the same addresses |
| `TargetAddresses.RepresentableIffFits` | pkg/resource/resolver_rule/sdk.go:387-408 | the lists accepted are exactly those that have any SDK form |
| `TagLists.ConvertToOrderedACKTags` | pkg/resource/resolver_endpoint/tags.go:36-55 | the map and the keys, nil keys dropped, nil values empty, duplicates kept in the key list |
| `TagLists.LastValueWins` | pkg/resource/resolver_endpoint/tags.go:43-52 | the last tag with a key gives its value, nil becoming empty |
| `TagLists.FromACKTags` | pkg/resource/resolver_endpoint/tags.go:61-78 | every entry of the map once: the ordered keys first, in the order of their first appearance, then the others in any order; the ordered keys are gone from the caller's map |
| `TagLists.MapRoundTrip` | pkg/resource/resolver_endpoint/tags.go:36-78 | a map written to a list in any order and read again is the same map |
| `TagLists.ListThroughMap` | pkg/resource/resolver_endpoint/tags.go:36-78 | a list read and written again does not depend on map order |
| `TagLists.ListRoundTrip` | pkg/resource/resolver_endpoint/tags.go:36-78 | a list with distinct keys and no nil comes back unchanged |
| `TagLists.NormalKeys` | pkg/resource/resolver_endpoint/tags.go:36-78 | any list keeps each of its keys exactly once |
| `TagLists.FirstsInOrder` | pkg/resource/resolver_endpoint/tags.go:64-71 | kept keys come in the order of their first appearance |
| `TagManager.IgnoreSystemTags` | pkg/resource/resolver_endpoint/tags.go:85-92 | exactly the AWS and the listed system keys are deleted from the map |
| `TagManager.SyncAWSTags` | pkg/resource/resolver_endpoint/tags.go:113-119 | exactly the AWS tags of the second map are copied over the first |
| `TagManager.EnsureTags` | pkg/resource/resolver_endpoint/manager.go:284-301 | the resource's tags become those of the merged map in the order of its list |
| `TagManager.EnsureKeepsExisting` | pkg/resource/resolver_endpoint/manager.go:277-283 | default tags follow the existing ones, none of which changes value or place |
| `TagManager.EnsureKeepsCleanList` | pkg/resource/resolver_endpoint/manager.go:277-283 | a list with distinct keys and no nil stays as the front of the result |
| `TagManager.FilterSystemTags` | pkg/resource/resolver_endpoint/manager.go:322-332 | the remaining tags in the order of the list, whatever the map order; a nil resource is left alone |
| `TagManager.FilteredByKey` | pkg/resource/resolver_endpoint/tags.go:85-92 | filtering leaves exactly the keys that neither start with "aws:" nor are listed, with their values |
| `TagManager.FilterIdempotent` | pkg/resource/resolver_endpoint/manager.go:303-332 | filtering twice is filtering once |
| `TagManager.FilterUndoesEnsure` | pkg/resource/resolver_endpoint/manager.go:284-332 | filtering undoes the adding of default tags if and only if each default key is a system key or was there before |
| `TagManager.FilterLeavesDefault` | pkg/resource/resolver_endpoint/manager.go:284-332 | one default tag that is no system tag and was not there before stays |
| `TagManager.MirrorAWSTags` | pkg/resource/resolver_endpoint/manager.go:345-357 | the desired tags become those of the map with the AWS tags of the latest resource, unless one of the two is nil |
| `TagManager.MirrorKeepsOthers` | pkg/resource/resolver_endpoint/manager.go:334-344 | tags that are not AWS's keep value and relative order; the AWS tags are those desired, overridden by the latest |
| `TagManager.MirroredByKey` | pkg/resource/resolver_endpoint/tags.go:113-119 | mirroring gives every "aws:" key of the latest resource its value and leaves the other keys of the desired one |
| `TagSync.GetTags` | pkg/tags/sync.go:36-60 | on success the tags of the service, none lost or altered |
| `TagSync.DropChanged` | pkg/tags/sync.go:85-89 | what is set again is taken out of what is to be removed |
| `TagSync.SyncTags` | pkg/tags/sync.go:65-135 | at most one call that sets and then one that removes, in any order of the tags, stopping at a failure |
| `TagSync.CallsOnlyWhatDiffers` | pkg/tags/sync.go:80-121 | set are exactly the new or changed tags, removed exactly the keys no longer desired |
| `TagSync.PointsOfSync` | pkg/tags/sync.go:91-132 | at any point the tags are the old ones, those overridden by all desired ones, or the desired ones; after a run without failure they are the desired ones |
| `TagSync.RetryReaches` | pkg/tags/sync.go:91-134 | after any failure a second run from the tags as they are reaches the desired ones, and after a failed removal it sets nothing again |
| `TagSync.NothingToDoIffEqual` | pkg/resource/resolver_endpoint/delta.go:83-87 | there is a call to make exactly when the maps differ, which is when the comparison reports the tags |
| `TagSync.MirrorProtectsAwsTags` | pkg/resource/resolver_endpoint/manager.go:334-357 | after mirroring no AWS tag is removed, and one is set only if it was desired and the latest lacks it |
| `TagSync.TagRound` | pkg/resource/resolver_endpoint/manager.go:95-115 | adding default tags, reading, mirroring and synchronising: it succeeds exactly when none of its calls fails; the service then has the default tags, overridden by the desired ones, and its own AWS tags; when it has them already no call is made |
| `TagSync.GoalByKey` | pkg/resource/resolver_endpoint/manager.go:345-357 | key by key: an "aws:" tag of the service stays, any other tag is the desired one or else the default one |
| `TagSync.TagRoundTwice` | pkg/resource/resolver_endpoint/manager.go:95-115 | after a successful round the next one makes no call, whether it starts from the desired tags again or from those the round left |
| `Conditions.DeepCopyConditions` | pkg/resource/resolver_query_log_config/sdk.go:355-357 | an equal list of new and pairwise distinct conditions |
| `Conditions.FindConditions` | pkg/resource/resolver_query_log_config/sdk.go:359-372 | the last condition of each kind |
| `Conditions.UpdateConditions` | pkg/resource/resolver_query_log_config/sdk.go:350-423 | a new resource with new conditions that have the updated values, or nothing when no such condition exists; the given resource is unchanged although conditions are written through pointers |
| `Conditions.ConcernedIff` | pkg/resource/resolver_query_log_config/sdk.go:418-422 | nothing is returned only for a success on a resource without any of the three conditions |
| `Conditions.UpdateSays` | pkg/resource/resolver_query_log_config/sdk.go:373-416 | what one outcome makes of both conditions, with the message; a terminal error leaves Recoverable alone |
| `Conditions.OnlyLastTouched` | pkg/resource/resolver_query_log_config/sdk.go:359-415 | an outcome changes only the last Terminal and, unless it is terminal, the last Recoverable condition, and neither kind nor reason; at most one is added, at the end |
| `Conditions.HistoryShape` | pkg/resource/resolver_query_log_config/sdk.go:363-415 | over any outcomes at most one Terminal and one Recoverable condition, existing ones in place, other types untouched |
| `Conditions.TerminalTellsLast` | pkg/resource/resolver_query_log_config/sdk.go:374-395 | Terminal is True exactly when the last outcome was a terminal error, with its text |
| `Conditions.RecoverableTellsLastNonTerminal` | pkg/resource/resolver_query_log_config/sdk.go:396-415 | from any conditions, Recoverable is True exactly when the most recent outcome that was not a terminal error was an error, with its text; after terminal errors only it says what it said at first |
| `Conditions.OnError` | pkg/resource/resolver_query_log_config/manager.go:394-414 | with at most one Terminal condition: a secret error or TerminalError makes Terminal True with its own text and an AWS error with one of the two terminal codes with the AWS text, and both yield the sentinel; any other error clears Terminal, makes Recoverable True with the AWS text if there is one, and is returned itself; with more the sentinel is returned exactly when some Terminal condition is True; nil for nil |
| `Conditions.HistoryTellsError` | pkg/resource/resolver_query_log_config/manager.go:394-414 | the same after any outcomes, from at most one condition of each kind |
| `Conditions.OnSuccess` | pkg/resource/resolver_query_log_config/manager.go:418-429 | the resource with updated values, the given one if nothing had to be recorded; either condition is then missing or False without a message |
| `Conditions.SentinelIff` | pkg/resource/resolver_query_log_config/manager.go:405-412 | for any conditions: the sentinel is returned exactly for terminal errors or when a Terminal condition before the last one is still True |
| `Conditions.StaleTerminal` | pkg/resource/resolver_query_log_config/manager.go:405-412 | with a first Terminal condition that is True and a second one every error comes back as terminal |
| `Conditions.SentinelTellsTerminal` | pkg/resource/resolver_query_log_config/manager.go:394-414 | after any outcomes, from at most one condition of each kind, the sentinel is returned exactly for terminal errors |
| `References.GetReferencedResourceState` | pkg/resource/resolver_endpoint/references.go:154-202 | an ID exactly for a target that exists, is synced, not terminal and has one; else the first failing check |
| `References.LookedByConditions` | pkg/resource/resolver_endpoint/references.go:171-202 | a target with a True Terminal condition is refused first, then one without a True ResourceSynced condition, then one without an ID |
| `References.ResolvedTarget` | pkg/resource/resolver_endpoint/references.go:127-143 | a reference resolves exactly when it has a name, its namespace is allowed and there it leads to such a target, and to its ID; a missing or empty name and a namespace that is not allowed have errors of their own |
| `References.ResolveReferenceForSubnetIDs` | pkg/resource/resolver_endpoint/references.go:115-148 | the references before the first that fails are resolved, everything else is as it was; its error; whether a reference was met |
| `References.ResolveReferenceForSecurityGroupIDs` | pkg/resource/resolver_endpoint/references.go:208-244 | the IDs of the references before the first that fails are appended in order; its error; whether a reference was met |
| `References.ValidateReferenceFields` | pkg/resource/resolver_endpoint/references.go:94-109 | refused for giving both exactly when an address has an ID and a reference or there are IDs and references of groups; else for giving neither exactly when there is neither an ID nor a reference of a group |
| `References.ResolveReferences` | pkg/resource/resolver_endpoint/references.go:68-90 | the error of the first reference that fails, else that of the validation, by the fields, which does not prevent resolving; whether the resource has references |
| `References.ClearResolvedReferences` | pkg/resource/resolver_endpoint/references.go:45-59 | a new resource without the IDs that have a reference, every other field equal |
| `References.SubnetsRoundTripIff` | pkg/resource/resolver_endpoint/references.go:48-52 | for any answers clearing restores the addresses if and only if none gave both an ID and a reference |
| `References.GroupsRoundTripIff` | pkg/resource/resolver_endpoint/references.go:54-56 | clearing restores the security groups, nil and empty being the same, if and only if IDs and references were not both given |
| `References.RoundTripIff` | pkg/resource/resolver_endpoint/references.go:45-90 | clearing after resolving restores exactly the resources that validation does not refuse for giving both, wherever resolving stopped |
| `References.RoundTripLoses` | pkg/resource/resolver_endpoint/references.go:45-90 | an address that gives an ID and a reference comes back without the ID |
| `References.NoErrorMeansResolved` | pkg/resource/resolver_endpoint/references.go:61-90 | no error: nothing was given both ways and the groups one way, and each reference with a From was replaced by the ID of a usable target, the groups at the place of their reference and no more of them |
| `References.SubnetsGivenIff` | pkg/resource/resolver_endpoint/references.go:115-148 | after resolving, every subnet ID that the comparison dereferences is there if and only if each address came with an ID or with a reference that has a From |
| `References.ResolveClearResolve` | pkg/resource/resolver_endpoint/references.go:45-90 | for any resource, resolving again after clearing gives the same addresses if and only if every ID given besides a reference was overwritten at first, the same groups if and only if they were not given both ways, and the same error if and only if a reference fails or nothing was given both ways |
| `ResolvedRounds.ResolveThenReconcile` | pkg/resource/resolver_endpoint/references.go:61-90 | resolving and then a round: after an error nothing is called; without one, and if no call fails, there is an address in the subnet of every target referred to; a resource with such a reference goes on being reported |
| `ManagerFactory.KeyInjective` | pkg/resource/resolver_endpoint/manager_factory.go:58-61 | the key tells requests apart when accounts and regions have no slash, although roles have |
| `ManagerFactory.KeyCollision` | pkg/resource/resolver_endpoint/manager_factory.go:61 | it does not when a region has one |
| `ManagerFactory.ResourceManagerFactory.ManagerFor` | pkg/resource/resolver_endpoint/manager_factory.go:48-79 | alone: the cached manager, or a new one with the account, region, role and client configuration of the caller that is then cached under the key |
| `ManagerFactory.InterleavingKeepsInvariant` | pkg/resource/resolver_endpoint/manager_factory.go:62-78 | in every interleaving whatever is cached or handed out was built for a request with that key, also when two callers both miss and both insert |
| `ManagerFactory.ServedByOne` | pkg/resource/resolver_endpoint/manager_factory.go:62-78 | in every interleaving a caller gets a manager built with the account, region, role and client configuration of one of the callers with its key |
| `ManagerFactory.EveryCallerServedIff` | pkg/resource/resolver_endpoint/manager_factory.go:46-79 | every caller of every interleaving gets a manager of its own account, region and role if and only if requests that share a key share these |
| `ManagerFactory.SlashFreeRequestsAreSeparate` | pkg/resource/resolver_endpoint/manager_factory.go:58-61 | which holds when no account and no region has a slash |
| `DeepCopies.TagObject.DeepCopyInto` | apis/v1alpha1/zz_generated.deepcopy.go:1851-1863 | the same key and value, nil or not, in cells that were not there before |
| `DeepCopies.TargetAddressObject.DeepCopyInto` | apis/v1alpha1/zz_generated.deepcopy.go:1876-1893 | the same for the fields of a target address |
| `DeepCopies.AssociationObject.DeepCopyInto` | apis/v1alpha1/zz_generated.deepcopy.go:1503-1535 | the same for the fields of an association |
| `DeepCopies.CopyTags` | apis/v1alpha1/zz_generated.deepcopy.go:1654-1664 | a list shows the same tags, nil lists and elements stay nil, no element and nothing behind it was there before, and no two elements lead to anything in common |
| `DeepCopies.CopyTargets` | apis/v1alpha1/zz_generated.deepcopy.go:1665-1675 | the same for target addresses |
| `DeepCopies.CopyAssociations` | apis/v1alpha1/zz_generated.deepcopy.go:1618-1627 | the same for associations |
| `DeepCopies.ResolverRuleSpec.DeepCopy` | apis/v1alpha1/zz_generated.deepcopy.go:1616-1687 | the copy of a specification shows the same value, and neither it nor anything behind it was there before |

## Left out

- AWS SDK transport, metrics, tracing, logging, contexts, credentials and wall-clock request IDs: no logic to prove.
- The other fields that `sdkFind`, `sdkCreate` and `sdkUpdate` copy from a response one by one, and the comparisons of the other fields: straight-line assignments and equalities.
- The same generated code in the other resource packages (tags, manager factory, conditions, references): modelled once.
- Late initialisation, identifiers, descriptors and the reconciler of the ACK runtime: the last is not part of this model, its steps are composed explicitly as rounds.
- DeepCopies.CopyTags: the array behind a list is not an object of its own.
- DeepCopies.ResolverRuleSpec.DeepCopy: the reference of a specification is copied in code that is not part of this model, and is one cell here.
- EndpointTypes.Endpoint: the elements of its lists are values, so a list holding the same pointer twice is not captured.
- RuleHook.Rule: likewise, and a nil list of associations is not told from an empty one, which the code treats alike.
- RuleRounds.CustomUpdateResolverRule: the tag synchronisation in it is one call that may fail; what it does to the tags is proved in TagSync.
- EndpointRounds.SdkUpdate: likewise for the tags, and UpdateResolverEndpoint is a call that leaves the addresses alone.
- ManagerFactory.NewResourceManager: never fails here, as in the source; a client configuration is reduced to its role and a number that tells configurations apart.
- References.Resolved: resolving a namespace may also add a condition to the resource, in code that is not part of this model.
