# Weighted placement of pods over node groups

A Dafny model of a Kubernetes placement engine. A propagation policy gives node groups weights. An
allocator divides a deployment's replicas over the groups; a scheduler extender admits a pod only to
a group that runs fewer pods than its share; a controller deletes the pods of groups that run more.
The parts never communicate: each calls the allocator itself, and the allocator hands the rounding
remainder to whichever map key Go iterates first, so two calls may disagree. The project proves what
the parts guarantee together in spite of that, and exactly when they do not.

## Files

| file | content |
|---|---|
| Common.dfy | optional values, Go map reads, int32/int64 addition, finite sums, counting |
| Api.dfy | nodes, groups, pods, deployments, policies, label selectors, a snapshot of the API server |
| Apportionment.dfy | the allocator, with fixed-width arithmetic and a free choice of recipient |
| Floats.dfy | the float64 formula of the source, in the standard model of floating point |
| Shares.dfy | conservation, error bounds, sign, spread, symmetry, overflow, extra names |
| Boundaries.dfy | exact boundaries of negative shares and of int32 overflow, attained error bounds |
| NodeIndex.dfy | the node-to-group index; scheduler's and controller's copy |
| Placement.dfy | pods per group |
| Correction.dfy | which pods a correction deletes |
| Lookups.dfy | finding the deployment and policy of a pod |
| Filtering.dfy | the filter plugins and their chain |
| Controller.dfy | the reconcile loop over the API server's pods |
| Machine.dfy | the cluster of one deployment as a state machine |
| Refinement.dfy | the filter and the reconcile loop are the machine's steps |
| Safety.dfy | bounds that hold after every run |
| Convergence.dfy | progress, and reaching the shares exactly |
| Stability.dfy | when a cluster that meets its shares is left alone |
| Churn.dfy | whole runs from such a cluster: no deletion ever, or deletions without bound |
| Scoring.dfy | accumulation of plugin scores |
| DiffBased.dfy | the diff-based prioritizer: where it panics, and the ranking it was meant to compute |

## How the source is read

- Rounding. `int32(ratio*float64(replicaNum) + 0.5)` is a function parameter `Rounding`; results hold
  for every rounding that is `Nearest` at the entries of the policy at hand, that is, returns an
  integer within one half of each entry's exact quota, ties going either way. `HalfUp`, the same
  formula over exact reals, is always `Nearest`. The float64 formula, each operation being exact up to
  a relative error of 2^-53, is `Nearest` whenever weight sum times replicas is at most 2^50
  (`FloatIsNearest`), and just above eight times that it need not be (`FloatMayMiss`).
- The allocator, the filter, the reconcile loop and the prioritizer ask less of the rounding: it must be
  `Tolerable`, that is, keep every share between 0 and the replicas and round no entry of n up by more
  than 2^31 / n. The float64 formula is so at every valid policy (`FloatIsTolerable`).
- Fixed width. The weight sum (int64), the running total, the remainder and the final addition
  (int32) use wrapping addition. The result is exact for every non-negative int32 replica count,
  although the running total may wrap; `OverflowExactly` says when. The pod counters of the filter and of the
  controller are int32 and wrap, and scores are added in int64. The counters are right exactly below
  2^31 pods in a group (`CountersExactly`, `DeletedInt32Exactly`); the machine and the theorems about
  the correction use true counts, and what links the code to them asks for that.
- Map iteration. The recipient of the remainder is chosen with `:|`; `IsShare` is the set of maps a
  call may return.
- Requirements on inputs: weights are not negative and sum within int64, name lists are not empty
  (the source indexes element 0), replica counts are not negative. API validation demands weights
  of at least 1; weight 0 is allowed here because the repository's own test uses it.
- The log message at pkg/utils/utils.go:122 says names after the first get weight 0. The code gives
  the second name no key and lets the third and later ones receive the remainder; the code is
  followed, and `ExtraNamesGetNothingExactly` says when the message is right.
- An absent label selector selects nothing, an empty one everything, and a selector whose conversion
  fails is `Malformed`.
- Group namespaces. The type comment at pkg/apis/group/v1alpha1/types.go:44 asks for cluster scope, but
  the generated definition at config/crd/bases/group.kubeedge.io_nodegroups.yaml:19 is namespaced. The
  code fetches a policy's groups from the namespace "default" and lists the controller's groups from
  all namespaces; the model keeps the namespace, and `IndexesAgreeExactly` counts it in.
- Failed deletions. The controller collects a deletion's error only when it says "not found"
  (pkg/controllers/policy/propagationpolicy_controller.go:99); any other is dropped. `refused` is the
  set of pods that the API server will not let a reconcile delete. They survive, and no error is
  returned for them.
- The deletion timestamp of a policy is looked at only after the lookup has failed
  (pkg/controllers/policy/propagationpolicy_controller.go:50), when it is never set: a policy that is
  being deleted is reconciled like any other, against the comment and log line there. The model has
  no such field.
- Pods of a deployment are all pods, of any namespace, that its selector matches, as
  pkg/utils/utils.go:145-155 lists them.
- A pod's field `assumed` is scheduler state, not an API field: the node chosen for a pod whose
  binding is still in flight. No modelled function of the source reads it.
- A run of the machine is any sequence of creating a pod, admitting it (the filter, on counts that
  ignore in-flight pods), binding it or giving up, a pod going away, the API server changing its list
  order, and a reconcile, with any set of its deletions refused. At most `k` pods are in flight;
  `k == 1` makes admission and binding atomic. Every admission and every reconcile carries a share map
  of its own.

## Model

| member | source | states |
|---|---|---|
| Apportionment.DesiredPodsNumInTargetNodeGroups | pkg/utils/utils.go:96-143 | with wrapping int32/int64 arithmetic the result is exactly one of the share maps over unbounded integers, for every non-negative int32 replica count and every tolerable rounding |
| Apportionment.AllocateShares | pkg/utils/utils.go:108-129 | the share loop writes the base map; the int32 running total is the exact total up to whole turns of 2^32 |
| Apportionment.AssignEntry | pkg/utils/utils.go:118-126 | an entry writes its first name, and 0 to its third and later names |
| Apportionment.HalfUpExact | pkg/utils/utils.go:110-117 | over exact reals the formula rounds to the nearest integer, ties upwards |
| Apportionment.HalfUpIsNearest | pkg/utils/utils.go:110-117 | the formula over exact reals is a nearest rounding at every policy and replica count |
| Apportionment.NearestIsTolerable | pkg/utils/utils.go:110-117 | every nearest rounding is tolerable |
| Floats.FloatIsTolerable | pkg/utils/utils.go:110-117 | the formula in float64, conversions included, is tolerable at every valid policy of up to 2^31 entries and every replica count |
| Floats.FloatIsNearest | pkg/utils/utils.go:110-117 | it is a nearest rounding at every policy and replica count whose weight sum times replicas is at most 2^50 |
| Floats.FloatMayMiss | pkg/utils/utils.go:110-117 | at 2^53 + 1 it need not be: with weights 2^52 and 2^52+1 and one replica it may give a pod to the first entry, whose quota is below one half |
| Apportionment.AllocationBounds | pkg/utils/utils.go:104-134 | after k entries the total is between 0 and R + k/2; the remainder is at most n/2 in size, or R when all weights are 0 |
| Apportionment.ShareFits | pkg/utils/utils.go:134-140 | base values, remainder and every recipient's sum fit int32 for every non-negative int32 replica count and tolerable rounding; no final share exceeds R |
| Shares.Conservation | pkg/utils/utils.go:98-142 | whatever the recipient, the shares total R minus exactly the amounts overwritten by repeated names |
| Shares.ConservationExact | pkg/utils/utils.go:98-142 | with distinct written names the shares total R, also when all weights are 0 |
| Shares.ShareKeys | pkg/utils/utils.go:118-126 | the keys are the first, third and later names; a name listed only second reads as 0 |
| Shares.LastEntryDecides | pkg/utils/utils.go:118-126 | the last entry that writes a name decides its value before the remainder: its share for its first name, 0 for a third or later one |
| Shares.ExtraNamesGetNothingExactly | pkg/utils/utils.go:119-140 | names after the first get 0 in all calls if and only if there is no remainder or no extra name is written |
| Shares.ThirdNameGetsRemainder | pkg/utils/utils.go:119-140 | a policy, over exact reals, whose third-listed name may be asked for -1 pods |
| Shares.QuotaError | pkg/utils/utils.go:104-140 | every group but the recipient is within 1/2 of its exact quota, the recipient within (n-1)/2, the remainder at most n/2 |
| Boundaries.QuotaErrorAttained | pkg/utils/utils.go:104-140 | for every n from 2 on some policy, replica count and call miss a quota by exactly (n-1)/2, over exact reals |
| Shares.NegativeShare | pkg/utils/utils.go:117-140 | how low a share gets, over exact reals: 2j equal weights and j replicas let a call ask any group for 1 - j pods |
| Boundaries.NonNegativeExactly | pkg/utils/utils.go:104-142 | no policy of n distinct groups with weights of at least 1 ever gets a negative share if and only if n is at most 3 |
| Boundaries.TopHeavyGoesNegative | pkg/utils/utils.go:117-140 | for every n from 4 on weights n, n, n, 1, ..., 1 and two replicas let a call ask a group for -1 pods, whatever nearest rounding is used |
| Boundaries.NonNegativeWithZerosExactly | pkg/utils/utils.go:104-142 | with weight 0 admitted the boundary is two groups, over exact reals |
| Boundaries.NeverNegativeBySmallest | pkg/utils/utils.go:104-142 | a given policy never gets a negative share if and only if rounding, over exact reals, over-allocates by no more than the rounded quota of its smallest weight |
| Shares.NeverNegativeExactly | pkg/utils/utils.go:134-140 | the same for any nearest rounding and all recipients: every base share must outweigh the remainder |
| Shares.SmallPolicyNonNegative | pkg/utils/utils.go:104-140 | with at most three groups of positive weight no share is negative |
| Shares.PositiveTotal | pkg/utils/utils.go:104-142 | the positive shares total between R and R + (n-1)/2, and exactly R when none is negative |
| Shares.Spread | pkg/utils/utils.go:134-142 | two calls agree on the keys and on all values but at most two, which differ by the remainder |
| Shares.OrderFree | pkg/utils/utils.go:104-140 | permuting the weight list leaves the set of possible share maps unchanged |
| Shares.ScaleFree | pkg/utils/utils.go:104-140 | multiplying all weights by a positive constant leaves the set of possible share maps unchanged |
| Shares.WholeQuotasAreMet | pkg/utils/utils_test.go:16-83 | when every quota is a whole number the shares are the quotas and all calls agree |
| Shares.EqualWeightsRemainder | pkg/utils/utils.go:131-134 | equal weights leave no remainder if and only if the number of groups divides R |
| Shares.NoOverflow | pkg/utils/utils.go:97-140 | if R + n/2 is below 2^31 neither a running total nor the remainder nor a share leaves int32, for any nearest rounding |
| Boundaries.OverflowExactly | pkg/utils/utils.go:108-128 | over exact reals no running total of any policy of n entries leaves int32 if and only if R + n/2 is below 2^31 or R is below 2^30, with or without distinct single names |
| Boundaries.TotalsFitBelow | pkg/utils/utils.go:108-128 | the safe half holds for every nearest rounding |
| Boundaries.LastTotalDecides | pkg/utils/utils.go:108-128 | for a given policy it is enough that the last running total fits |
| Shares.RunningTotalMayWrap | pkg/utils/utils.go:108-128 | the smallest policy that wraps: two equal weights and 2^31 - 1 replicas take the running total to 2^31, over exact reals |
| NodeIndex.GetNodesInGroups | pkg/utils/utils.go:32-52 | fails if and only if a selector does not convert, else maps each selected node to the last listed group selecting it |
| NodeIndex.GetNodeGroupsWithName | pkg/utils/utils.go:54-67 | fails if and only if the namespace "default" lacks a name, else returns the stored group of that namespace and name, name by name |
| NodeIndex.LastGroupExact | pkg/utils/utils.go:46-48 | the index names the last listed group that selects the node |
| NodeIndex.IndexesAgree | pkg/utils/utils.go:158-169 | when target groups overlap no group of another name, and no namesake in another namespace selects more, the scheduler's index is the controller's restricted to the policy's groups |
| NodeIndex.IndexesAgreeExactly | pkg/controllers/policy/propagationpolicy_controller.go:60-66 | the two indexes agree for every list order of the groups if and only if that condition holds |
| NodeIndex.IndexOrderFree | pkg/utils/utils.go:32-52 | without overlap the index does not depend on the list order |
| Placement.CountPods | pkg/utils/utils.go:180-193 | each group's entry is an int32 counter of the listed pods scheduled on its nodes; a group has an entry if and only if some scheduled pod runs in it |
| Placement.CountersExactly | pkg/utils/utils.go:180-193 | the counters show the true numbers if and only if no group runs 2^31 pods or more |
| Common.CounterTurns | pkg/utils/utils.go:191 | a counter shows the number counted up to whole turns of 2^32 |
| Placement.CurrentPodsNumInTargetNodeGroups | pkg/utils/utils.go:157-195 | counts and index of the policy's groups; fails if and only if a group of any listed name is missing or a selector does not convert |
| Placement.TargetNamesMembers | pkg/utils/utils.go:158-161 | the names looked up are exactly those that some entry lists, at any position |
| Placement.TargetNamesConcat | pkg/utils/utils.go:158-161 | the names are listed entry by entry, in the order of the entries, which decides overlaps |
| Placement.PolicyIndexExact | pkg/utils/utils.go:158-169 | the scheduler's index holds exactly the nodes that a listed group of the namespace "default" selects, each mapped to such a group |
| Api.MatchesExactly | pkg/utils/utils.go:36-40 | a selector of label pairs selects the label sets that contain them all; an absent or unconvertible one selects nothing |
| Api.PodsOfConcat | pkg/utils/utils.go:145-155 | listing a deployment's pods keeps their order |
| Correction.GetPodsNeedToDelete | pkg/controllers/policy/propagationpolicy_controller.go:160-178 | the loop returns the pods at which their group's int32 counter exceeds its share |
| Correction.DeletedInt32Exactly | pkg/controllers/policy/propagationpolicy_controller.go:164-176 | these are the pods whose rank in their group exceeds its share if and only if no group runs 2^31 pods or more |
| Correction.DeletionExact | pkg/controllers/policy/propagationpolicy_controller.go:164-176 | in each group the first min(c, max(0, d)) pods in list order are kept, all later ones deleted |
| Correction.UngroupedKept | pkg/controllers/policy/propagationpolicy_controller.go:165-168 | pods with no node or on an ungrouped node are never deleted |
| Correction.KeptCount | pkg/controllers/policy/propagationpolicy_controller.go:164-176 | a group keeps min(c, max(0, d)) pods and loses the rest |
| Correction.Partition | pkg/controllers/policy/propagationpolicy_controller.go:160-178 | kept and deleted pods together are the listed pods, each once |
| Correction.InListOrder | pkg/controllers/policy/propagationpolicy_controller.go:160-178 | kept and deleted pods are subsequences of the input |
| Correction.NothingDeletedExactly | pkg/controllers/policy/propagationpolicy_controller.go:169-174 | nothing is deleted if and only if every group is within max(0, share) |
| Correction.Idempotent | pkg/controllers/policy/propagationpolicy_controller.go:160-178 | correcting the survivors again deletes nothing |
| Correction.Monotone | pkg/controllers/policy/propagationpolicy_controller.go:170-173 | raising shares only shrinks the deleted positions and the deleted list |
| Correction.SurvivorBound | pkg/controllers/policy/propagationpolicy_controller.go:95-96 | survivors on grouped nodes number at most R + (n-1)/2, and at most R with at most three positive weights |
| Lookups.GetManifestsDeploys | pkg/utils/utils.go:69-83 | the stored deployments in order, one for each resource, with an error if and only if one is missing |
| Lookups.StoredDeploysConcat | pkg/utils/utils.go:72-81 | the deployments of two resource lists, one after the other, are listed one after the other |
| Lookups.StoredDeploysAll | pkg/utils/utils.go:240-251 | when all resources are stored the list holds the deployment of each, position by position |
| Lookups.StrictExact | pkg/utils/utils.go:203-216 | the first deployment that matches or whose selector does not convert decides |
| Lookups.GetRelativeDeployment | pkg/utils/utils.go:197-217 | the first match, unless an unconvertible selector precedes it; the error also reports missing deployments |
| Lookups.GetRelativeDeployAndPolicy | pkg/utils/utils.go:219-262 | the first policy of the pod's namespace with a match; an incomplete policy before it is an error |
| Lookups.LenientExact | pkg/utils/utils.go:253-257 | the search returns the first match, or there is none |
| Lookups.FirstPolicyExact | pkg/utils/utils.go:239-261 | the lookup stops at the first policy not passed over, one of the pod's namespace: with an error if a resource is unnamed, has no namespace or is not stored, else with its first resource that matches |
| Lookups.PassedOverExactly | pkg/utils/utils.go:231-257 | a policy is passed over if and only if it is of another namespace or all its resources can be fetched and none matches |
| Lookups.LookupAgreement | pkg/schedulerextender/extender/filter/enoughpods_filter.go:30-36 | the plugin's own lookup returns the deployment that selected the policy or an error, never nil without error, and when it errs |
| Filtering.EnoughPodsFilterNodes | pkg/schedulerextender/extender/filter/enoughpods_filter.go:24-53 | keeps, in order, exactly the nodes of target groups whose int32 count is below their share; the unchecked dereference is safe |
| Filtering.NotInNodeGroupsFilterNodes | pkg/schedulerextender/extender/filter/notinclusters_filter.go:23-53 | keeps, in order, exactly the nodes of the policy's groups; fails if a listed name has no group |
| Filtering.ChainIsOnePredicate | pkg/schedulerextender/extender/filter/filter.go:56-74 | the chain equals one filter; the second plugin removes nothing; swapping the plugins gives the same list |
| Filtering.KeepConcat | pkg/schedulerextender/extender/filter/enoughpods_filter.go:44-50 | filtering distributes over concatenation, so it keeps the order of the nodes |
| Filtering.ConstructFilterResult | pkg/schedulerextender/extender/filter/filter.go:78-95 | a nil list gives neither nodes nor names, else the nodes and, position by position, their names |
| Filtering.Filter | pkg/schedulerextender/extender/filter/filter.go:37-76 | the outcome of every request, nil requests and failing plugins included; on success exactly the admissible nodes for one share map, by int32 counters; the names are always those of the nodes returned |
| Filtering.FilterOutcome | pkg/schedulerextender/extender/filter/filter.go:42-75 | a pod without a policy keeps every candidate; for one with a policy only candidates come back, and none at all when a plugin fails, which is exactly when a group of the policy is missing, its selector does not convert, or an unconvertible selector precedes the deployment |
| Controller.ApiServer.CorrectDeployment | pkg/controllers/policy/propagationpolicy_controller.go:84-104 | one deployment's excess pods leave the cluster, for one share map, except those whose deletion is refused |
| Controller.ApiServer.Reconcile | pkg/controllers/policy/propagationpolicy_controller.go:47-107 | it works on a stored policy of the requested namespace and name and on the deployment of each of its resources: when nothing happens, when the request is requeued, and otherwise the whole new pod list; with unique pod identities no error is returned, whatever deletions are refused |
| Controller.FindPolicyExact | pkg/controllers/policy/propagationpolicy_controller.go:48-49 | the policy found has the requested namespace and name; none is found if and only if none has them |
| Controller.CorrectAllConcat | pkg/controllers/policy/propagationpolicy_controller.go:83-104 | deployments are corrected one after another, each on what the earlier ones left, also when they share pods |
| Controller.CorrectAllSpares | pkg/controllers/policy/propagationpolicy_controller.go:83-104 | a reconcile spares every pod that is unscheduled, on an ungrouped node, selected by none of the policy's deployments, or whose deletion is refused |
| Controller.ApiServer.DeleteAll | pkg/controllers/policy/propagationpolicy_controller.go:97-103 | the pods left, and an error if and only if some deletion that is not refused names a pod that never existed or was deleted before; refused deletions are not reported |
| Controller.RemovingDeletedIsKept | pkg/controllers/policy/propagationpolicy_controller.go:97-103 | deleting the excess pods by identity leaves exactly the kept pods and those whose deletion is refused, in order |
| Controller.CorrectOneExact | pkg/controllers/policy/propagationpolicy_controller.go:83-104 | while pods fit the int32 counters a correction leaves the deployment the kept and the refused pods; it touches no other deployment's pods |
| Controller.ReconcileExact | pkg/controllers/policy/propagationpolicy_controller.go:83-106 | when no pod has two deployments, and pods fit the int32 counters, a reconcile corrects each as if it were alone |
| Refinement.FilterIsAdmit | pkg/schedulerextender/extender/filter/filter.go:56-75 | the nodes a request returns are exactly those the machine may admit the pod to, while pods fit the int32 counters |
| Refinement.ReconcileIsCorrection | pkg/controllers/policy/propagationpolicy_controller.go:83-104 | a reconcile, whatever deletions are refused, is one correction event for each deployment of the policy, while pods fit the int32 counters |
| Machine.SameCount | pkg/utils/utils.go:180-193 | scheduler and controller count the pods of a target group alike |
| Machine.AdmitEffect | pkg/schedulerextender/extender/filter/enoughpods_filter.go:44-50 | an admission loads one target group whose bound pods are below the share used |
| Machine.AbortUndoesAdmit | pkg/schedulerextender/extender/filter/enoughpods_filter.go:44-50 | an admission leaves nothing behind when its binding is given up |
| Safety.ChoiceRobustSafety | pkg/schedulerextender/extender/filter/enoughpods_filter.go:44-50 | after every run, whatever the recipients, bound plus in-flight pods of a target group are at most base + max(0, left) + k - 1, or 0 if that share is not positive |
| Safety.DeletionBound | pkg/controllers/policy/propagationpolicy_controller.go:160-178 | every reconcile of such a run deletes at most \|left\| + k - 1 pods of a target group |
| Safety.BoundedOvershoot | pkg/utils/utils.go:181-193 | with one share map bound plus in-flight pods exceed a share by at most k - 1, and a reconcile whose deletions are all granted brings the count back to the share |
| Safety.OvershootAttained | pkg/utils/utils.go:181-193 | a run reaches share + k - 1 bound pods |
| Safety.AdmissionAgreesWithCorrection | pkg/schedulerextender/extender/filter/enoughpods_filter.go:36-50 | with one share map, binding to a node the filter returned never makes the controller delete |
| Convergence.Progress | pkg/schedulerextender/extender/filter/enoughpods_filter.go:45-50 | with at most R pods and a candidate per group the filter never turns every node away from a waiting pod |
| Convergence.PlacingLength | pkg/schedulerextender/extender/filter/enoughpods_filter.go:44-50 | every placement brings the end one step nearer: a run is as long as the decrease of twice the waiting plus the in-flight pods |
| Convergence.EveryPlacingRun | pkg/schedulerextender/extender/filter/enoughpods_filter.go:44-50 | with one non-negative share map and atomic placement: however placements are chosen their number is fixed in advance, another is possible exactly while a pod waits or is in flight, and a run that cannot go on leaves every group exactly at its share |
| Convergence.EveryPlacingRunAnyRecipient | pkg/schedulerextender/extender/filter/enoughpods_filter.go:44-50 | with a recipient of its own for every admission and up to k pods in flight: the number of placements is fixed in advance, another is possible while a pod waits, whatever share map the next call returns, and no group ends above base + max(0, left) + k - 1 |
| Convergence.Converges | pkg/controllers/policy/propagationpolicy_controller.go:95-104 | with one non-negative share map one correction, recreation of its deleted pods and two events per waiting pod end exactly at the shares |
| Stability.StableExactly | pkg/utils/utils.go:131-140 | a cluster exactly at its shares is left alone by every later correction if and only if there is no remainder or only one group |
| Churn.RestsExactly | pkg/controllers/policy/propagationpolicy_controller.go:95-104 | from a cluster exactly at its shares no run with up to k pods in flight deletes a pod, whatever its events, if and only if there are no replicas, or k is at most 1 and there is no remainder or only one group |
| Churn.NeverRests | pkg/controllers/policy/propagationpolicy_controller.go:95-104 | in every other case with k at least 1 and a candidate per group, for every n some run leads back to the same shares and its reconciles delete at least n pods |
| Stability.ConvergedPodIsDeleted | pkg/utils/utils.go:131-140 | two equal groups and one replica: the converged pod is deleted by a correction that picks the other recipient |
| Scoring.CombineScores | pkg/schedulerextender/extender/prioritizer/prioritizer.go:90-104 | int64 scores are added into the first list in place; an empty first list is replaced |
| Scoring.Prioritize | pkg/schedulerextender/extender/prioritizer/prioritizer.go:53-70 | folds the lists of the plugins that did not fail and reports whether one failed |
| Scoring.FoldIsSum | pkg/schedulerextender/extender/prioritizer/prioritizer.go:56-68 | the fold keeps the first list's hosts in order with the int64 sum of their scores over all lists |
| Scoring.ContentsConcat | pkg/schedulerextender/extender/prioritizer/prioritizer.go:56-68 | the lists folded are in the order of the plugins |
| Scoring.ScoreInExact | pkg/schedulerextender/extender/prioritizer/prioritizer.go:96-102 | the last entry of a host counts, an unlisted host adds 0 |
| Scoring.FoldSkipsEmpty | pkg/schedulerextender/extender/prioritizer/prioritizer.go:91-94 | empty lists before the first one with entries change nothing |
| DiffBased.NotScore | pkg/schedulerextender/extender/prioritizer/prioritizer.go:73-88 | the unscored list has twice as many entries as nodes: blank ones first, then one of score 0 per node |
| DiffBased.PrioritizeRequest | pkg/schedulerextender/extender/prioritizer/prioritizer.go:35-71 | the outcome of every prioritize request with the one registered plugin, panics included |
| DiffBased.PanicsWhereFilterSucceeds | pkg/schedulerextender/extender/prioritizer/diffbased_prioritizer.go:40-57 | a prioritize request panics if and only if the filter request for the same pod does not pass it over and succeeds |
| DiffBased.RankAndScore | pkg/schedulerextender/extender/prioritizer/diffbased_prioritizer.go:58-75 | intent, after a real sort: ranks are written in place from 1 on and every node of an indexed group gets its group's score, in order |
| DiffBased.ScoredConcat | pkg/schedulerextender/extender/prioritizer/diffbased_prioritizer.go:66-75 | intent: nodes are scored one by one in their order |
| DiffBased.ScoreRange | pkg/schedulerextender/extender/prioritizer/diffbased_prioritizer.go:72-73 | intent: a ranked group scores 0 to 9, and 10 is the score of exactly the groups without a share |
| DiffBased.LargerDeficitNeverScoresLower | pkg/schedulerextender/extender/prioritizer/diffbased_prioritizer.go:57-73 | intent: in whatever order the sort leaves ties, a larger deficit never scores lower, and scores higher with at most ten groups |

## Left out

- FloatIsNearest: float64 operations are taken with a relative error of 2^-53, not bit by bit; what happens between 2^50 and 2^53 is not settled.
- FilterIsAdmit: for groups of fewer than 2^31 pods, beyond which the int32 counters are wrong.
- CorrectOneExact: the same, and so for ReconcileExact; `CorrectDeployment` and `Reconcile` themselves are stated for any number of pods.
- Prioritize: the plugins' outputs are parameters.
- RankAndScore: states intent. It starts from a list a descending sort has left, where pkg/schedulerextender/extender/prioritizer/diffbased_prioritizer.go:57 asserts the result of `sort.Reverse` to the slice type, which it never has; scores are computed over exact reals.
- DesiredPodsNumInTargetNodeGroups: negative weights or replicas, weight sums beyond int64 and lists of 2^32 entries or more are excluded; API validation and object size limits rule them out.
- Reconcile: lists are current, cache staleness is not modelled; a pod's deletion is refused throughout one reconcile or not at all.
- ReconcileIsCorrection: for groups of fewer than 2^31 pods.
- ScaleFree: stated for the exact rounding; a rounding that breaks ties differently for scaled weights would distinguish them.
- Match expressions in label selectors; only the label pairs are modelled.
- Errors of the Kubernetes client other than a missing object, an unconvertible selector or a refused deletion.
- Nil `Replicas` or `Selector` fields, which the API server's defaulting and validation exclude, and filter requests that carry no node objects.
- HTTP handlers, JSON decoding, start-up, leader election, logging (including the node name list built for a log line), generated code, override policies and the node group status controller.
- The machine follows one deployment with fixed nodes, groups, weights and replicas; changing them is a new run.
