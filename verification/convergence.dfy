/** One pass of the Ingress reconciler, on values: read the Ingress for a
    work-queue key, reconcile a copy of it (status conditions, children,
    observed generation), write its status back when it changed, and
    report the outcome and the warning events the pass records. */
module Reconciliation {
  import opened Api
  import opened Keys
  import opened Synthesis
  import opened Store
  import opened Sync
  import opened Resync

  /** The private load balancer every reconciled Ingress reports. */
  const InternalDomain := "envoy-internal.projectcontour.svc.cluster.local"

  const UpdateFailedReason := "UpdateFailed"
  const InternalErrorReason := "InternalError"

  /** A warning event recorded against an Ingress. */
  datatype Event = Warning(reason: string, object: ObjectKey)

  /** What reconcile leaves behind: the reconciled copy of the Ingress, the
      children in the store, and the error it returns (if any). */
  datatype Reconciled = Reconciled(resource: Ingress, children: seq<HTTPProxy>, outcome: Outcome)

  /** What a whole pass leaves behind. */
  datatype PassState = PassResult(ingresses: map<ObjectKey, Ingress>, proxies: seq<HTTPProxy>, outcome: Outcome, events: seq<Event>)

  // ---------------------------------------------------------------------
  // Status helpers (the condition set is abstracted to three flags)

  function InitializeConditions(s: IngressStatus): IngressStatus {
    s.(conditionsInitialized := true)
  }

  function MarkNetworkConfigured(s: IngressStatus): IngressStatus {
    s.(networkConfigured := true)
  }

  function MarkLoadBalancerReady(s: IngressStatus, lb: seq<LoadBalancerIngress>, publicLb: seq<LoadBalancerIngress>, privateLb: seq<LoadBalancerIngress>): IngressStatus {
    s.(loadBalancerReady := true, loadBalancer := Some(lb), publicLoadBalancer := Some(publicLb), privateLoadBalancer := Some(privateLb))
  }

  /** The status reconcileProxies writes once the store is in sync. */
  function MarkReady(s: IngressStatus): IngressStatus {
    MarkLoadBalancerReady(MarkNetworkConfigured(s), [], [], [LoadBalancerIngress(InternalDomain)])
  }

  // ---------------------------------------------------------------------
  // The specification of one pass

  /** reconcile: nothing for an Ingress being deleted; otherwise initialize
      the conditions, sync the children, and only when that succeeds mark
      the Ingress ready and record the generation it was reconciled at. */
  function ReconcileSpec(lib: Library, ing: Ingress, cs: seq<HTTPProxy>, faults: set<Op>): (r: Reconciled)
    ensures !ing.deleting ==> r.resource.status.conditionsInitialized
    ensures r.outcome.Fail? ==> r.resource.status.observedGeneration == ing.status.observedGeneration
  {
    if ing.deleting then Reconciled(ing, cs, Pass)
    else
      var initialized := ing.(status := InitializeConditions(ing.status));
      var a := ReconcileProxiesSpec(lib, initialized, cs, faults);
      if a.outcome.Fail? then Reconciled(initialized, a.children, a.outcome)
      else Reconciled(initialized.(status := MarkReady(initialized.status).(observedGeneration := ing.generation)), a.children, Pass)
  }

  /** updateStatus: reread the Ingress, return early when its status already
      equals the desired one, otherwise write the desired status onto it. */
  function UpdateStatusSpec(ingresses: map<ObjectKey, Ingress>, faults: set<Op>, desired: Ingress): (r: Result<map<ObjectKey, Ingress>>)
    ensures r.Success? ==> && r.value.Keys == ingresses.Keys
                           && IngressKey(desired) in r.value
                           && r.value[IngressKey(desired)].status == desired.status
  {
    var key := IngressKey(desired);
    match GetResult(ingresses, faults, RereadIngress(key), key)
    case Failure(e) => Failure(e)
    case Success(actual) =>
      if actual.status == desired.status then Success(ingresses)
      else UpdateStatusResult(ingresses, faults, desired)
  }

  /** The events and the error a pass ends with once the status is settled. */
  function Finish(ingresses: map<ObjectKey, Ingress>, key: ObjectKey, r: Reconciled): PassState {
    PassResult(ingresses, r.children, r.outcome, if r.outcome.Fail? then [Warning(InternalErrorReason, key)] else [])
  }

  /** Reconcile: one pass for a work-queue key against the store. */
  function ReconcileKeySpec(lib: Library, faults: set<Op>, ingresses: map<ObjectKey, Ingress>, cs: seq<HTTPProxy>, key: string): (s: PassState)
    ensures |s.events| <= 1
    ensures s.outcome.Pass? ==> s.events == []
  {
    match SplitMetaNamespaceKey(key)
    case None => PassResult(ingresses, cs, Pass, [])
    case Some((namespace, name)) =>
      var k := ObjectKey(namespace, name);
      match GetResult(ingresses, faults, ReadIngress(k), k)
      case Failure(e) =>
        if e.NotFound? then PassResult(ingresses, cs, Pass, [])
        else PassResult(ingresses, cs, Fail(e), [])
      case Success(original) =>
        var r := ReconcileSpec(lib, original, cs, faults);
        if original.status == r.resource.status then Finish(ingresses, k, r)
        else
          match UpdateStatusSpec(ingresses, faults, r.resource)
          case Failure(e) => PassResult(ingresses, r.children, Fail(e), [Warning(UpdateFailedReason, IngressKey(r.resource))])
          case Success(next) => Finish(next, k, r)
  }

  // ---------------------------------------------------------------------
  // Properties of reconcile

  /** Reconcile changes only the status of its copy of the Ingress; an
      Ingress being deleted is left alone with the store untouched. */
  lemma ReconcileChangesOnlyStatus(lib: Library, ing: Ingress, cs: seq<HTTPProxy>, faults: set<Op>)
    ensures var r := ReconcileSpec(lib, ing, cs, faults);
      && r.resource == ing.(status := r.resource.status)
      && (ing.deleting ==> r == Reconciled(ing, cs, Pass))
  {
  }

  /** The observed generation and the network and load-balancer marks are
      set only when the sync succeeds; when it fails, the status differs
      from the one read only in its initialized conditions. */
  lemma ObservedOnlyOnSuccess(lib: Library, ing: Ingress, cs: seq<HTTPProxy>, faults: set<Op>)
    requires !ing.deleting
    ensures var r := ReconcileSpec(lib, ing, cs, faults);
      && r.resource.status.conditionsInitialized
      && (r.outcome.Pass? ==>
            && r.resource.status.observedGeneration == ing.generation
            && r.resource.status.networkConfigured
            && r.resource.status.loadBalancerReady
            && r.resource.status.loadBalancer == Some([])
            && r.resource.status.publicLoadBalancer == Some([])
            && r.resource.status.privateLoadBalancer == Some([LoadBalancerIngress(InternalDomain)]))
      && (r.outcome.Fail? ==> r.resource.status.(conditionsInitialized := ing.status.conditionsInitialized) == ing.status)
  {
  }

  /** A rule with other than one path fails reconcile before the store is
      touched, and nothing is observed. */
  lemma UnsupportedRuleFailsReconcile(lib: Library, ing: Ingress, cs: seq<HTTPProxy>, faults: set<Op>)
    requires !ing.deleting
    requires exists i :: 0 <= i < |ing.rules| && |ing.rules[i].http.paths| != 1
    ensures ReconcileSpec(lib, ing, cs, faults).outcome == Fail(UnsupportedPathCount)
    ensures ReconcileSpec(lib, ing, cs, faults).children == cs
  {
    var initialized := ing.(status := InitializeConditions(ing.status));
    SynthesisFailureLeavesChildren(lib, initialized, cs, faults);
  }

  // ---------------------------------------------------------------------
  // Properties of updateStatus

  /** In a store that nothing else writes, the reread sees the status that was
      read at the start of the pass, so the early return in updateStatus is
      never taken when the pass has found the status changed. */
  lemma RereadFindsChange(ingresses: map<ObjectKey, Ingress>, faults: set<Op>, original: Ingress, desired: Ingress)
    requires IngressKey(original) in ingresses && ingresses[IngressKey(original)] == original
    requires IngressKey(desired) == IngressKey(original) && desired.status != original.status
    requires RereadIngress(IngressKey(desired)) !in faults
    ensures UpdateStatusSpec(ingresses, faults, desired) == UpdateStatusResult(ingresses, faults, desired)
  {
  }

  /** A status write changes the status of the one Ingress it names and
      nothing else; the other Ingresses are untouched. */
  lemma UpdateStatusChangesOnlyStatus(ingresses: map<ObjectKey, Ingress>, faults: set<Op>, desired: Ingress)
    requires UpdateStatusSpec(ingresses, faults, desired).Success?
    ensures var next := UpdateStatusSpec(ingresses, faults, desired).value;
      && next.Keys == ingresses.Keys
      && IngressKey(desired) in next && next[IngressKey(desired)].status == desired.status
      && (forall k <- ingresses :: next[k] == ingresses[k].(status := next[k].status))
      && (forall k <- ingresses :: k != IngressKey(desired) ==> next[k] == ingresses[k])
  {
  }

  // ---------------------------------------------------------------------
  // Properties of a whole pass

  /** A key that does not split into namespace and name is dropped: no
      error, no event, no change. */
  lemma MalformedKeyDropped(lib: Library, faults: set<Op>, ingresses: map<ObjectKey, Ingress>, cs: seq<HTTPProxy>, key: string)
    requires SplitMetaNamespaceKey(key).None?
    ensures ReconcileKeySpec(lib, faults, ingresses, cs, key) == PassResult(ingresses, cs, Pass, [])
  {
  }

  /** The key the work queue builds for an Ingress leads the pass to that
      Ingress: whatever the pass ends with, the children are those that
      reconciling the Ingress stored under that namespace and name leaves. */
  lemma KeyFindsIngress(lib: Library, faults: set<Op>, ingresses: map<ObjectKey, Ingress>, cs: seq<HTTPProxy>, namespace: string, name: string)
    requires '/' !in namespace && '/' !in name
    ensures var k := ObjectKey(namespace, name);
      var s := ReconcileKeySpec(lib, faults, ingresses, cs, MetaNamespaceKey(namespace, name));
      && (ReadIngress(k) !in faults && k in ingresses ==> s.proxies == ReconcileSpec(lib, ingresses[k], cs, faults).children)
      && (ReadIngress(k) !in faults && k !in ingresses ==> s == PassResult(ingresses, cs, Pass, []))
  {
    KeyRoundTrip(namespace, name);
  }

  /** An Ingress that no longer exists ends the pass quietly; any other
      read error is returned, and neither touches the store. */
  lemma ReadFailureHandled(lib: Library, faults: set<Op>, ingresses: map<ObjectKey, Ingress>, cs: seq<HTTPProxy>, key: string)
    requires SplitMetaNamespaceKey(key).Some?
    ensures var (namespace, name) := SplitMetaNamespaceKey(key).value;
      var k := ObjectKey(namespace, name);
      var s := ReconcileKeySpec(lib, faults, ingresses, cs, key);
      && (ReadIngress(k) in faults ==> s == PassResult(ingresses, cs, Fail(Unavailable(ReadIngress(k))), []))
      && (ReadIngress(k) !in faults && k !in ingresses ==> s == PassResult(ingresses, cs, Pass, []))
  {
  }

  /** An Ingress being deleted is neither synced nor written. */
  lemma DeletingIngressUntouched(lib: Library, faults: set<Op>, ingresses: map<ObjectKey, Ingress>, cs: seq<HTTPProxy>, key: string)
    requires SplitMetaNamespaceKey(key).Some?
    requires var (namespace, name) := SplitMetaNamespaceKey(key).value;
      var k := ObjectKey(namespace, name);
      ReadIngress(k) !in faults && k in ingresses && ingresses[k].deleting
    ensures ReconcileKeySpec(lib, faults, ingresses, cs, key) == PassResult(ingresses, cs, Pass, [])
  {
  }

  /** The status is written only when reconcile changed it. */
  lemma UnchangedStatusNotWritten(lib: Library, faults: set<Op>, ingresses: map<ObjectKey, Ingress>, cs: seq<HTTPProxy>, key: string)
    requires SplitMetaNamespaceKey(key).Some?
    requires var (namespace, name) := SplitMetaNamespaceKey(key).value;
      var k := ObjectKey(namespace, name);
      && ReadIngress(k) !in faults && k in ingresses
      && ReconcileSpec(lib, ingresses[k], cs, faults).resource.status == ingresses[k].status
    ensures var s := ReconcileKeySpec(lib, faults, ingresses, cs, key);
      && s.ingresses == ingresses
      && s.outcome == ReconcileSpec(lib, ingresses[ObjectKey(SplitMetaNamespaceKey(key).value.0, SplitMetaNamespaceKey(key).value.1)], cs, faults).outcome
  {
  }

  /** When the status write fails, its error is what the pass returns, in
      place of whatever reconcile returned; the children reconcile wrote
      stay, and an UpdateFailed warning is recorded. */
  lemma StatusErrorTakesPrecedence(lib: Library, faults: set<Op>, ingresses: map<ObjectKey, Ingress>, cs: seq<HTTPProxy>, key: string)
    requires IngressesKeyed(ingresses)
    requires SplitMetaNamespaceKey(key).Some?
    requires var (namespace, name) := SplitMetaNamespaceKey(key).value;
      var k := ObjectKey(namespace, name);
      && ReadIngress(k) !in faults && k in ingresses
      && ReconcileSpec(lib, ingresses[k], cs, faults).resource.status != ingresses[k].status
      && (RereadIngress(k) in faults || WriteIngressStatus(k) in faults)
    ensures var (namespace, name) := SplitMetaNamespaceKey(key).value;
      var k := ObjectKey(namespace, name);
      var r := ReconcileSpec(lib, ingresses[k], cs, faults);
      var s := ReconcileKeySpec(lib, faults, ingresses, cs, key);
      && s.ingresses == ingresses
      && s.proxies == r.children
      && s.outcome == Fail(Unavailable(if RereadIngress(k) in faults then RereadIngress(k) else WriteIngressStatus(k)))
      && s.events == [Warning(UpdateFailedReason, k)]
  {
    var (namespace, name) := SplitMetaNamespaceKey(key).value;
    var k := ObjectKey(namespace, name);
    ReconcileChangesOnlyStatus(lib, ingresses[k], cs, faults);
  }

  /** When the status is settled (unchanged, or written), the pass returns
      reconcile's own outcome, recording an InternalError warning exactly
      when that outcome is an error. */
  lemma ReconcileErrorReturned(lib: Library, faults: set<Op>, ingresses: map<ObjectKey, Ingress>, cs: seq<HTTPProxy>, key: string)
    requires SplitMetaNamespaceKey(key).Some?
    requires var (namespace, name) := SplitMetaNamespaceKey(key).value;
      var k := ObjectKey(namespace, name);
      && ReadIngress(k) !in faults && k in ingresses
      && var r := ReconcileSpec(lib, ingresses[k], cs, faults);
      (r.resource.status == ingresses[k].status || UpdateStatusSpec(ingresses, faults, r.resource).Success?)
    ensures var (namespace, name) := SplitMetaNamespaceKey(key).value;
      var k := ObjectKey(namespace, name);
      var r := ReconcileSpec(lib, ingresses[k], cs, faults);
      var s := ReconcileKeySpec(lib, faults, ingresses, cs, key);
      && s.outcome == r.outcome
      && s.proxies == r.children
      && (s.events == [Warning(InternalErrorReason, k)] <==> r.outcome.Fail?)
      && (r.outcome.Pass? ==> s.events == [])
  {
  }

  /** A pass stores nothing but statuses: the same Ingresses, each with only
      its status possibly changed, and only the one the key names. */
  lemma PassChangesOnlyStatus(lib: Library, faults: set<Op>, ingresses: map<ObjectKey, Ingress>, cs: seq<HTTPProxy>, key: string)
    requires IngressesKeyed(ingresses)
    ensures var s := ReconcileKeySpec(lib, faults, ingresses, cs, key);
      && s.ingresses.Keys == ingresses.Keys
      && (forall k <- ingresses :: s.ingresses[k] == ingresses[k].(status := s.ingresses[k].status))
      && (SplitMetaNamespaceKey(key).Some? ==>
            forall k <- ingresses :: k != ObjectKey(SplitMetaNamespaceKey(key).value.0, SplitMetaNamespaceKey(key).value.1) ==> s.ingresses[k] == ingresses[k])
      && (SplitMetaNamespaceKey(key).None? ==> s.ingresses == ingresses)
  {
    if SplitMetaNamespaceKey(key).Some? {
      var (namespace, name) := SplitMetaNamespaceKey(key).value;
      var k := ObjectKey(namespace, name);
      if ReadIngress(k) !in faults && k in ingresses {
        var r := ReconcileSpec(lib, ingresses[k], cs, faults);
        ReconcileChangesOnlyStatus(lib, ingresses[k], cs, faults);
        if ingresses[k].status != r.resource.status && UpdateStatusSpec(ingresses, faults, r.resource).Success? {
          UpdateStatusChangesOnlyStatus(ingresses, faults, r.resource);
        }
      }
    }
  }

  /** A failed pass records no progress: every stored observed generation
      and readiness mark is what it was before. */
  lemma FailedPassObservesNothing(lib: Library, faults: set<Op>, ingresses: map<ObjectKey, Ingress>, cs: seq<HTTPProxy>, key: string)
    requires IngressesKeyed(ingresses)
    requires ReconcileKeySpec(lib, faults, ingresses, cs, key).outcome.Fail?
    ensures var s := ReconcileKeySpec(lib, faults, ingresses, cs, key);
      && s.ingresses.Keys == ingresses.Keys
      && forall k <- ingresses ::
           && s.ingresses[k].status.observedGeneration == ingresses[k].status.observedGeneration
           && s.ingresses[k].status.networkConfigured == ingresses[k].status.networkConfigured
           && s.ingresses[k].status.loadBalancerReady == ingresses[k].status.loadBalancerReady
  {
    PassChangesOnlyStatus(lib, faults, ingresses, cs, key);
    var (namespace, name) := SplitMetaNamespaceKey(key).value;
    var k := ObjectKey(namespace, name);
    if ReadIngress(k) !in faults && k in ingresses && !ingresses[k].deleting {
      ObservedOnlyOnSuccess(lib, ingresses[k], cs, faults);
    }
  }

  /** A successful reconcile of a live Ingress realizes every child the
      Ingress asks for (the last one for each host) and leaves the children
      of every other parent exactly as they were. */
  lemma ReconcileConverges(lib: Library, ing: Ingress, cs: seq<HTTPProxy>, faults: set<Op>)
    requires UniqueKeys(cs) && !ing.deleting
    requires ReconcileSpec(lib, ing, cs, faults).outcome.Pass?
    ensures var r := ReconcileSpec(lib, ing, cs, faults);
      && Synthesize(lib, ing).Success?
      && (forall i :: 0 <= i < |Synthesize(lib, ing).value| && LastForHost(Synthesize(lib, ing).value, i) ==>
            Realized(r.children, Synthesize(lib, ing).value[i]))
      && Others(r.children, ing.namespace, ing.name) == Others(cs, ing.namespace, ing.name)
  {
    var initialized := ing.(status := InitializeConditions(ing.status));
    SynthesizeIgnoresStatus(lib, ing, InitializeConditions(ing.status));
    ReconcileProxiesKeepsOthers(lib, initialized, cs, faults);
    SyncRealizesDesired(lib, initialized, cs, faults);
  }

  /** A pass that succeeds for a live Ingress leaves it observed at its
      generation and ready in the store, with every child it asks for
      realized and the children of every other parent as they were. */
  lemma SuccessfulPassConverges(lib: Library, faults: set<Op>, ingresses: map<ObjectKey, Ingress>, cs: seq<HTTPProxy>, key: string)
    requires IngressesKeyed(ingresses) && UniqueKeys(cs)
    requires SplitMetaNamespaceKey(key).Some?
    requires var (namespace, name) := SplitMetaNamespaceKey(key).value;
      var k := ObjectKey(namespace, name);
      k in ingresses && !ingresses[k].deleting
    requires ReconcileKeySpec(lib, faults, ingresses, cs, key).outcome.Pass?
    ensures var (namespace, name) := SplitMetaNamespaceKey(key).value;
      var k := ObjectKey(namespace, name);
      var ing := ingresses[k];
      var s := ReconcileKeySpec(lib, faults, ingresses, cs, key);
      && k in s.ingresses
      && s.ingresses[k].status.observedGeneration == ing.generation
      && s.ingresses[k].status.networkConfigured
      && s.ingresses[k].status.loadBalancerReady
      && Synthesize(lib, ing).Success?
      && (forall i :: 0 <= i < |Synthesize(lib, ing).value| && LastForHost(Synthesize(lib, ing).value, i) ==>
            Realized(s.proxies, Synthesize(lib, ing).value[i]))
      && Others(s.proxies, namespace, name) == Others(cs, namespace, name)
  {
    var (namespace, name) := SplitMetaNamespaceKey(key).value;
    var k := ObjectKey(namespace, name);
    var ing := ingresses[k];
    var r := ReconcileSpec(lib, ing, cs, faults);
    var s := ReconcileKeySpec(lib, faults, ingresses, cs, key);
    assert ReadIngress(k) !in faults;
    assert s.proxies == r.children && r.outcome.Pass?;
    ObservedOnlyOnSuccess(lib, ing, cs, faults);
    ReconcileConverges(lib, ing, cs, faults);
    if ing.status != r.resource.status {
      UpdateStatusChangesOnlyStatus(ingresses, faults, r.resource);
    }
  }

  /** What a successful pass for a live Ingress stores: the Ingress with the
      reconciled status, and the children the sync left. */
  lemma SuccessfulPassStores(lib: Library, faults: set<Op>, ingresses: map<ObjectKey, Ingress>, cs: seq<HTTPProxy>, key: string)
    requires IngressesKeyed(ingresses)
    requires SplitMetaNamespaceKey(key).Some?
    requires var (namespace, name) := SplitMetaNamespaceKey(key).value;
      var k := ObjectKey(namespace, name);
      k in ingresses && !ingresses[k].deleting
    requires ReconcileKeySpec(lib, faults, ingresses, cs, key).outcome.Pass?
    ensures var (namespace, name) := SplitMetaNamespaceKey(key).value;
      var k := ObjectKey(namespace, name);
      var r := ReconcileSpec(lib, ingresses[k], cs, faults);
      var s := ReconcileKeySpec(lib, faults, ingresses, cs, key);
      && r.outcome.Pass?
      && s.proxies == r.children
      && s.ingresses.Keys == ingresses.Keys
      && s.ingresses[k] == ingresses[k].(status := r.resource.status)
  {
    var (namespace, name) := SplitMetaNamespaceKey(key).value;
    var k := ObjectKey(namespace, name);
    var ing := ingresses[k];
    var r := ReconcileSpec(lib, ing, cs, faults);
    assert ReadIngress(k) !in faults;
    ReconcileChangesOnlyStatus(lib, ing, cs, faults);
    if ing.status != r.resource.status {
      UpdateStatusChangesOnlyStatus(ingresses, faults, r.resource);
    }
  }

  /** Reconcile is idempotent: a second pass for the same key, on the store
      a successful pass for a live Ingress left, changes nothing when it
      succeeds (no status write, every child as it was, no event), and it
      does succeed when the store does not fail. */
  lemma PassIdempotent(lib: Library, faults: set<Op>, faults2: set<Op>, ingresses: map<ObjectKey, Ingress>, cs: seq<HTTPProxy>, key: string)
    requires IngressesKeyed(ingresses) && UniqueKeys(cs)
    requires SplitMetaNamespaceKey(key).Some?
    requires var (namespace, name) := SplitMetaNamespaceKey(key).value;
      var k := ObjectKey(namespace, name);
      k in ingresses && !ingresses[k].deleting
    requires ReconcileKeySpec(lib, faults, ingresses, cs, key).outcome.Pass?
    ensures var s1 := ReconcileKeySpec(lib, faults, ingresses, cs, key);
      var s2 := ReconcileKeySpec(lib, faults2, s1.ingresses, s1.proxies, key);
      && (s2.outcome.Pass? ==> s2 == PassResult(s1.ingresses, s1.proxies, Pass, []))
      && (faults2 == {} ==> s2.outcome.Pass?)
  {
    var (namespace, name) := SplitMetaNamespaceKey(key).value;
    var k := ObjectKey(namespace, name);
    var ing := ingresses[k];
    var r1 := ReconcileSpec(lib, ing, cs, faults);
    var s1 := ReconcileKeySpec(lib, faults, ingresses, cs, key);
    SuccessfulPassStores(lib, faults, ingresses, cs, key);
    ObservedOnlyOnSuccess(lib, ing, cs, faults);
    var ing2 := s1.ingresses[k];
    var init1 := ing.(status := InitializeConditions(ing.status));
    assert ReconcileProxiesSpec(lib, init1, cs, faults).outcome.Pass?;
    ReconcileProxiesIdempotent(lib, init1, cs, faults, faults2);
    var init2 := ing2.(status := InitializeConditions(ing2.status));
    assert init2 == init1.(status := ing2.status);
    ReconcileProxiesIgnoresStatus(lib, init1, ing2.status, s1.proxies, faults2);
    var r2 := ReconcileSpec(lib, ing2, s1.proxies, faults2);
    if r2.outcome.Pass? {
      assert r2.children == s1.proxies;
      assert r2.resource.status == ing2.status;
    }
  }
}
