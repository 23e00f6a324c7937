# net-contour Ingress reconciler, modelled in Dafny

net-contour is the Knative networking controller for Project Contour. For each
Knative `Ingress` it writes a set of Contour `HTTPProxy` children, one per
(rule, host) pair. It keeps those children in step with the Ingress as the
Ingress's generation advances. It then reports readiness in the Ingress status.

This project models the two parts of that controller that carry logic.

- **Synthesis.** `MakeHTTPProxies` turns an Ingress into its ordered list of
  children. The model has:
  - the method `Synthesis.MakeHTTPProxies`, with the source's nested loops;
  - the pure function `Synthesis.Synthesize`, which that method is proved to
    equal;
  - lemmas about `Synthesize`: the failure condition, the count and order of
    the children, their labels, class annotation, name, virtual host, route,
    and the routes shared within a rule.
- **Reconcile.** These are `Reconcile`, `reconcile`, `reconcileProxies` and
  `updateStatus`. The model has:
  - the class `Controller.Reconciler`, whose methods act step by step on a store
    object `Store.Cluster`. The store holds the Ingresses as a map and the
    children as a sequence, in lister order.
  - pure specifications of each step, in modules `Sync` and `Reconciliation`.
    Each method is proved equal to its specification.
  - lemmas on those specifications: key handling, the deletion skip, the
    create-or-update-first-match step, errors ending the pass before the sweep,
    the generation sweep, the status guards and write-back, and which error the
    pass returns.
  - lemmas on repeated syncs in module `Resync`: a second sync rewrites every
    child as it is, a sync after a generation bump leaves one child per host,
    and a duplicate child already at the current generation survives.

Store failures are a fixed set `faults` of store calls that fail. Each call site
names its own `Op`: read, reread, status write, list, create, update, delete
collection. A call fails exactly when its op is in the set, so every error path
of the source can be reached and its consequences stated.

Files:

| file | module | contents |
|---|---|---|
| api.dfy | Api | Ingress, HTTPProxy, store errors and ops, label keys and class values, the library calls as parameters |
| decimal.dfy | Decimal | `%d` formatting of the generation and its inverse |
| keys.dfy | Keys | splitting a work-queue key into namespace and name |
| synthesis.dfy | Synthesis | `MakeHTTPProxies` and its specification |
| store.dfy | Store | selectors, the store operations on values, the `Cluster` class |
| sync.dfy | Sync | `reconcileProxies` on values: the loop and the sweep |
| resync.dfy | Resync | repeated syncs: running twice, a generation bump, duplicate children |
| convergence.dfy | Reconciliation | `reconcile`, `updateStatus` and `Reconcile` on values |
| reconciler.dfy | Controller | the `Reconciler` class |

## Model

| member | source | states |
|---|---|---|
| Synthesis.MakeHTTPProxies | pkg/reconciler/contour/resources/httpproxy.go:30-103 | The nested loops over rules, splits and hosts return exactly `Synthesize(ing)`, so every lemma below holds of the method's result |
| Synthesis.MakeServices | pkg/reconciler/contour/resources/httpproxy.go:58-66 | The loop over a path's splits builds exactly `ServicesFor(splits)` |
| Synthesis.AppendHostProxies | pkg/reconciler/contour/resources/httpproxy.go:90-99 | The loop over a rule's hosts appends exactly `HostProxies(base, hosts)` to the list so far |
| Synthesis.ServicesFor | pkg/reconciler/contour/resources/httpproxy.go:58-66 | One service per split, in split order, each built from its own split |
| Synthesis.HostProxies | pkg/reconciler/contour/resources/httpproxy.go:90-99 | One child per host, in host order, each a copy of the shared base made for that host |
| Synthesis.Synthesize | pkg/reconciler/contour/resources/httpproxy.go:30-103 | Synthesis either yields the children or fails with the unsupported-path-count error, never any other error |
| Synthesis.ProxiesUpTo | pkg/reconciler/contour/resources/httpproxy.go:32-40 | The only error synthesis can produce is the unsupported-path-count error |
| Synthesis.FailureSticks | pkg/reconciler/contour/resources/httpproxy.go:38-40 | Once a rule with other than one path is reached, synthesis fails whatever the later rules are |
| Synthesis.ProxiesUpToSucceeds | pkg/reconciler/contour/resources/httpproxy.go:32-100 | Rules that each have one path always synthesize |
| Synthesis.SynthesizeFailsIff | pkg/reconciler/contour/resources/httpproxy.go:38-40 | Synthesis fails if and only if some rule has zero or several paths, and then the error is the unsupported-path-count error and no children are produced |
| Synthesis.SynthesizeIgnoresStatus | pkg/reconciler/contour/resources/httpproxy.go:30-103 | The children do not depend on the Ingress status, so initializing the conditions before the sync changes nothing |
| Synthesis.SynthesizedCount | pkg/reconciler/contour/resources/httpproxy.go:32-99 | A successful synthesis has exactly one child per (rule, host) pair |
| Synthesis.SynthesizedChild | pkg/reconciler/contour/resources/httpproxy.go:68-99 | The child for host j of rule i sits at position `Position(i, j)` and has all of the following: the Ingress namespace; the name `ChildName(ing.name, host)`; exactly the labels parent, decimal generation and fqdn = host; exactly the class annotation, "contour-internal" if and only if the rule is cluster-local and "contour" otherwise; a single controller owner reference; virtual host = host; and one route translated from the rule's only path |
| Synthesis.BaseHostProxyIsChild | pkg/reconciler/contour/resources/httpproxy.go:68-96 | Copying the base for a host yields the child for that host, as above |
| Synthesis.PositionOrder | pkg/reconciler/contour/resources/httpproxy.go:32-99 | Children are ordered by rule first and then by host within a rule: one position precedes another if and only if its (rule, host) pair precedes the other's lexicographically |
| Synthesis.SynthesizedOnlyChildren | pkg/reconciler/contour/resources/httpproxy.go:32-99 | Every synthesized child is the child of some (rule, host) pair |
| Synthesis.RouteDetermined | pkg/reconciler/contour/resources/httpproxy.go:43-86 | A route translated from a path is fully determined by the path. That is: the timeout is present if and only if the path has one; the retry policy is present if and only if the path has retries, with their attempts; there is one service per split with that split's name, port and weight |
| Synthesis.SameRuleSameRoute | pkg/reconciler/contour/resources/httpproxy.go:68-91 | Children of the same rule have identical routes and identical annotations |
| Synthesis.SynthesizedDesired | pkg/reconciler/contour/resources/httpproxy.go:70-96 | Every child has all of the following: the Ingress namespace; parent label = Ingress name; generation label = decimal generation; a virtual host; an fqdn label equal to that host |
| Decimal.DecimalString | pkg/reconciler/contour/resources/httpproxy.go:72 | The `%d` text of a generation is non-empty and starts with a minus sign exactly when the generation is negative |
| Decimal.DecimalRoundTrip | pkg/reconciler/contour/resources/httpproxy.go:72 | The generation label reads back as the generation |
| Decimal.DecimalInjective | pkg/reconciler/contour/contour.go:158-159 | Two generations have the same label value if and only if they are equal, so `generation!=N` spares exactly the children written at generation N |
| Keys.SplitMetaNamespaceKey | pkg/reconciler/contour/contour.go:65-69 | A key without a slash is a name in the empty namespace, and an accepted key's name never contains a slash |
| Keys.KeyRoundTrip | pkg/reconciler/contour/contour.go:65-69 | A key built from a namespace and a name, neither containing a slash, splits back into them |
| Keys.SplitKeyParts | pkg/reconciler/contour/contour.go:65-69 | An accepted key is its name alone, or its namespace and name around one slash, and neither part contains a slash |
| Store.Select | pkg/reconciler/contour/contour.go:130-134 | A child is listed if and only if it is in the store, in the namespace, and carries both the parent label and the fqdn label |
| Store.SelectFirst | pkg/reconciler/contour/contour.go:145 | The first listed child is the first child in store order that the selector matches |
| Store.WithoutStale | pkg/reconciler/contour/contour.go:155-160 | The sweep keeps exactly the children that are not stale. A child is stale when it is owned by the parent in the namespace and its generation label is missing or differs from the current one |
| Store.ReplaceKey | pkg/reconciler/contour/contour.go:149 | An update replaces the child with the same namespace and name in place and keeps every other child and every key |
| Store.CreateKeepsUnique | pkg/reconciler/contour/contour.go:139 | A create keeps (namespace, name) keys unique |
| Store.UpdateKeepsUnique | pkg/reconciler/contour/contour.go:149 | An update keeps keys unique |
| Store.DeleteKeepsUnique | pkg/reconciler/contour/contour.go:155-160 | A delete-collection keeps keys unique |
| Store.Cluster.Get | pkg/reconciler/contour/contour.go:76 | The lister read fails at a faulted call site, reports NotFound for a missing key, and otherwise returns the stored Ingress |
| Store.Cluster.UpdateStatus | pkg/reconciler/contour/contour.go:191 | Writes only the status of the named stored Ingress; fails with the fault or NotFound and changes nothing |
| Store.Cluster.List | pkg/reconciler/contour/contour.go:134 | Lists with the parent and fqdn selector, or fails at a faulted call site |
| Store.Cluster.Create | pkg/reconciler/contour/contour.go:139 | Appends the child unless its call site is faulted or its key is taken (AlreadyExists); keeps keys unique |
| Store.Cluster.Update | pkg/reconciler/contour/contour.go:149 | Replaces the child with the same key, or fails (fault or NotFound) leaving the children as they were |
| Store.Cluster.DeleteCollection | pkg/reconciler/contour/contour.go:155-160 | Removes exactly the stale children of the parent, or fails leaving them all |
| Sync.ApplyOne | pkg/reconciler/contour/contour.go:129-153 | One iteration: a failing step leaves the children as they were, and a step adds at most one child |
| Sync.ApplyAll | pkg/reconciler/contour/contour.go:129-153 | The loop adds at most one child per synthesized child and never removes one |
| Sync.ReconcileProxiesSpec | pkg/reconciler/contour/contour.go:123-163 | reconcileProxies on the children passes only when synthesis succeeded; when synthesis fails it returns that error and the children are unchanged |
| Sync.OverwriteKeepsIdentity | pkg/reconciler/contour/contour.go:145-148 | The update copies the listed child and keeps its namespace, name and owner references, taking the desired labels, annotations and spec |
| Sync.OverwriteCarried | pkg/reconciler/contour/contour.go:145-149 | Updating a child that already carries the desired labels, annotations and spec writes it back unchanged |
| Sync.OverwriteTwice | pkg/reconciler/contour/contour.go:145-148 | A later update of the same child overrides an earlier one completely |
| Sync.ApplyOneUpdateAt | pkg/reconciler/contour/contour.go:144-152 | When child k is the first one listed for the host, a successful step replaces exactly child k by its update, and with no store fault the step succeeds |
| Sync.ApplyOneFailure | pkg/reconciler/contour/contour.go:134-152 | A failing step leaves the children as they were |
| Sync.ApplyOneCreates | pkg/reconciler/contour/contour.go:138-143 | With no child listed for the host, a successful step appends exactly the desired child |
| Sync.ApplyOneUpdatesFirstMatch | pkg/reconciler/contour/contour.go:144-152 | With children listed, a successful step updates the first one in store order in place. It keeps that child's namespace, name and owner references, takes the desired labels, annotations and spec, and leaves every other child as it was |
| Sync.ApplyOneFrame | pkg/reconciler/contour/contour.go:129-153 | A step keeps keys unique, never loses a key, and leaves the children of other parents exactly as they were, in order |
| Sync.ApplyAllFrame | pkg/reconciler/contour/contour.go:129-153 | The whole loop keeps keys unique, never loses a key, and leaves other parents' children as they were |
| Sync.ApplyAllStopsAtFirstError | pkg/reconciler/contour/contour.go:129-153 | A failing loop succeeded on every child before the first failing one and attempted nothing after it |
| Sync.SynthesisFailureLeavesChildren | pkg/reconciler/contour/contour.go:124-127 | When synthesis fails, the sync returns that error and the children are unchanged |
| Sync.FailedLoopSkipsSweep | pkg/reconciler/contour/contour.go:134-163 | When the loop fails, the sweep does not run and the result is the loop's |
| Sync.FailedSyncDeletesNothing | pkg/reconciler/contour/contour.go:134-163 | A failed sync never removes a child |
| Sync.ReconcileProxiesKeepsOthers | pkg/reconciler/contour/contour.go:123-163 | Whatever the outcome, children outside the Ingress's namespace, and children of other parents, stay exactly as they were, and keys stay unique |
| Sync.SyncedChildrenAreCurrent | pkg/reconciler/contour/contour.go:155-163 | After a successful sync, every child of the Ingress in its namespace carries the current generation label |
| Sync.ApplyAllRealizes | pkg/reconciler/contour/contour.go:129-153 | After a successful loop, each desired child that is the last one for its host is carried by some stored child, with the same namespace, labels, annotations and spec |
| Sync.ReconcileProxiesIgnoresStatus | pkg/reconciler/contour/contour.go:113-115 | The sync does not depend on the Ingress status, so initializing the conditions first changes nothing |
| Sync.SyncRealizesDesired | pkg/reconciler/contour/contour.go:123-163 | The same holds after the sweep, for a successful sync |
| Resync.ApplyAllLeads | pkg/reconciler/contour/contour.go:129-153 | After a successful loop, for every host the first child listed for it carries the last synthesized child for that host |
| Resync.SyncLeads | pkg/reconciler/contour/contour.go:123-163 | The same holds after the sweep, for a successful sync |
| Resync.ReplayRestores | pkg/reconciler/contour/contour.go:129-153 | Replaying the loop over the store a successful loop left rewrites every child as it is: the children come back unchanged, and with no store fault the replay succeeds |
| Resync.ReconcileProxiesIdempotent | pkg/reconciler/contour/contour.go:123-163 | reconcileProxies run a second time on the children a successful run left leaves them exactly as they were when it succeeds, and succeeds when no store call fails |
| Resync.ApplyAllCurrentFirst | pkg/reconciler/contour/contour.go:129-153 | Every child of the Ingress at its current generation is the first child listed for its host, and that host is a synthesized one, provided this held before the loop |
| Resync.EveryHostServed | pkg/reconciler/contour/contour.go:123-163 | After a successful sync every synthesized host is listed by at least one child |
| Resync.BumpLeavesOneChildPerHost | pkg/reconciler/contour/contour.go:123-163 | When no child of the Ingress carries the current generation beforehand (a generation bump), a successful sync leaves unique keys, a child for every synthesized host, at most one child per host, and no owned child for any other host |
| Resync.ApplyAllKeepsShadowed | pkg/reconciler/contour/contour.go:129-153 | A child listed after another for the same host is never updated or moved by the loop |
| Resync.DuplicateSurvivesSweep | pkg/reconciler/contour/contour.go:129-163 | A duplicate child for a host that is listed after another and already carries the current generation is still in the store after a successful sync; when the host is synthesized, a different child also serves it |
| Reconciliation.ReconcileSpec | pkg/reconciler/contour/contour.go:107-121 | reconcile initializes the conditions of a live Ingress, and a failing reconcile leaves the observed generation as it was |
| Reconciliation.UpdateStatusSpec | pkg/reconciler/contour/contour.go:179-192 | A successful status update keeps the set of Ingresses and gives the named Ingress the desired status |
| Reconciliation.ReconcileKeySpec | pkg/reconciler/contour/contour.go:61-105 | A pass records at most one event, and none when it succeeds |
| Reconciliation.ReconcileChangesOnlyStatus | pkg/reconciler/contour/contour.go:107-121 | reconcile changes nothing but the copy's status; for an Ingress being deleted it returns success and touches neither the status nor the children |
| Reconciliation.ObservedOnlyOnSuccess | pkg/reconciler/contour/contour.go:107-172 | The conditions are initialized. Only on success are these set: the observed generation, the network-configured and load-balancer-ready marks, and the empty, empty and envoy-internal load balancers. On failure the status differs from the one read only in its initialized conditions |
| Reconciliation.UnsupportedRuleFailsReconcile | pkg/reconciler/contour/contour.go:113-117 | A rule without exactly one path fails reconcile with that error, and the children are untouched |
| Reconciliation.RereadFindsChange | pkg/reconciler/contour/contour.go:180-187 | With no concurrent writer, updateStatus's early return is never taken once the pass has found the status changed |
| Reconciliation.UpdateStatusChangesOnlyStatus | pkg/reconciler/contour/contour.go:179-191 | A successful status update changes only the status of the named Ingress, which becomes the desired status; every other Ingress is untouched |
| Reconciliation.MalformedKeyDropped | pkg/reconciler/contour/contour.go:65-69 | A key that does not split returns success, with no store write and no event |
| Reconciliation.KeyFindsIngress | pkg/reconciler/contour/contour.go:65-89 | The key built from an Ingress's namespace and name makes the pass reconcile that Ingress against the children; when the Ingress is missing, the pass succeeds and changes nothing |
| Reconciliation.ReadFailureHandled | pkg/reconciler/contour/contour.go:76-83 | A missing Ingress returns success. Any other read error is returned. Neither writes anything or records an event |
| Reconciliation.DeletingIngressUntouched | pkg/reconciler/contour/contour.go:108-112 | An Ingress being deleted is neither synced nor written, and the pass succeeds |
| Reconciliation.UnchangedStatusNotWritten | pkg/reconciler/contour/contour.go:90-94 | When reconcile leaves the status equal to the one read, no status is written and reconcile's outcome is returned |
| Reconciliation.StatusErrorTakesPrecedence | pkg/reconciler/contour/contour.go:95-100 | A failed status write is returned instead of reconcile's own outcome, with a single UpdateFailed warning; the children reconcile wrote stay |
| Reconciliation.ReconcileErrorReturned | pkg/reconciler/contour/contour.go:101-104 | Once the status is settled, reconcile's outcome is returned, with an InternalError warning exactly when it is an error |
| Reconciliation.PassChangesOnlyStatus | pkg/reconciler/contour/contour.go:85-100 | A pass stores no Ingress fields other than statuses, and changes no Ingress other than the one its key names |
| Reconciliation.FailedPassObservesNothing | pkg/reconciler/contour/contour.go:89-104 | A failed pass leaves every stored observed generation and readiness mark as it was |
| Reconciliation.ReconcileConverges | pkg/reconciler/contour/contour.go:113-174 | A successful reconcile realizes every desired child that is last for its host, and leaves other parents' children untouched |
| Reconciliation.SuccessfulPassStores | pkg/reconciler/contour/contour.go:85-104 | A successful pass for a live Ingress comes from a successful reconcile: the children are reconcile's, the set of Ingresses is unchanged, and the Ingress is stored with reconcile's status and otherwise as read |
| Reconciliation.PassIdempotent | pkg/reconciler/contour/contour.go:61-105 | A second pass for the same key, over the store a successful pass left, changes nothing and records no event when it succeeds, and succeeds when no store call fails |
| Reconciliation.SuccessfulPassConverges | pkg/reconciler/contour/contour.go:61-105 | A successful pass for a live Ingress stores it observed at its generation and ready, realizes its desired children, and leaves other parents' children untouched |
| Controller.Reconciler.Reconcile | pkg/reconciler/contour/contour.go:61-105 | The method leaves the store, outcome and new events exactly as `ReconcileKeySpec` describes |
| Controller.Reconciler.ReconcileIngress | pkg/reconciler/contour/contour.go:107-121 | The reconciled copy, the children and the outcome are those of `ReconcileSpec`; no Ingress is written |
| Controller.Reconciler.SyncOne | pkg/reconciler/contour/contour.go:130-152 | One iteration of the loop does exactly `ApplyOne` to the children |
| Controller.Reconciler.SyncAll | pkg/reconciler/contour/contour.go:129-153 | The loop over the synthesized children, stopping at the first error, does exactly `ApplyAll` to the children |
| Controller.Reconciler.ReconcileProxies | pkg/reconciler/contour/contour.go:123-175 | The loop and the sweep leave the children and the outcome of `ReconcileProxiesSpec`; the Ingress is marked ready only on success |
| Controller.Reconciler.UpdateStatus | pkg/reconciler/contour/contour.go:179-192 | Rereads the Ingress, skips the write when its status already matches, otherwise writes the status, as `UpdateStatusSpec` describes |

## Left out

- Several children can match a host's selector. The code updates the first of them (contour.go:145) and neither checks for nor reports the others. Child names are derived from the parent and the host, so a duplicate would come from another writer. An unselected duplicate that already carries the current generation is neither updated nor swept, so it stays in the store (Resync.DuplicateSurvivesSweep). A duplicate at an older generation is swept.
- When the status write fails, the pass returns the status error and records only an UpdateFailed event, even when reconcile also failed (contour.go:95-99). The reconcile error is then neither returned nor recorded.
- Synthesis.SynthesizedChild: a service's weight and a retry policy's retry count equal the split's percent and the path's attempts, which the model keeps as unbounded natural numbers. The source's `uint32` conversions (httpproxy.go:53, 63) would wrap a negative value, or one of 2^32 or more; that is not modelled.
- `kmeta.ChildName`, `Duration.String` and `IntOrString.IntValue` are arbitrary functions given as parameters (`Library`). The hashing and truncation of child names is not modelled, and no proof assumes these functions are injective.
- `kmeta.NewControllerRef` is reduced to kind, name and the controller flag; the API version, UID and block-owner-deletion fields are not modelled. Cascade deletion by owner references is the API server's business.
- A rule with no HTTP section, which the source dereferences and would panic on, is not representable: every rule has an `http` field.
- Knative's condition set (`InitializeConditions`, `MarkNetworkConfigured`, `MarkLoadBalancerReady`) is reduced to three boolean flags. Condition reasons, messages and transition times are not modelled.
- Events are reduced to their reason and the Ingress they concern; messages are not modelled. Logging is left out.
- Concurrency is not modelled: concurrent writers, lister cache staleness, resource-version conflicts and context cancellation. The lister reads the same single store the client writes, so the reread in updateStatus sees what the first read saw.
- DeleteCollection is modelled as one atomic removal, not as a series of deletes that can fail part way.
- Lister order is modelled as store order: the first listed child is the first matching child in the store sequence. The informer-backed lister's order is unspecified in the source. Only Store.SelectFirst and Sync.ApplyOneUpdatesFirstMatch depend on this choice directly, and with them the Resync lemmas built on "the first child listed for a host".
- Label selectors are modelled only for the shapes the controller uses: `parent=..,fqdn=..` equality, and `parent=..,generation!=..`, which also matches a child with no generation label.
- A second pass is shown to leave the store as it was (Resync.ReconcileProxiesIdempotent, Reconciliation.PassIdempotent), but it still issues an update per child and a delete-collection call. The model treats these as writes that change nothing; resource versions and watch events they would cause are not modelled.
- The controller wiring (informers, event handlers, class filtering) is not part of this model.
