/** The Ingress reconciler itself: an object holding the store it reads and
    writes, the library calls it relies on, and the warning events it has
    recorded. Each method does what the corresponding function of
    Reconciliation (or Sync) specifies, step by step against the store. */
module Controller {
  import opened Api
  import opened Decimal
  import opened Keys
  import opened Synthesis
  import opened Store
  import opened Sync
  import opened Reconciliation

  class Reconciler {
    const cluster: Cluster
    const lib: Library
    var events: seq<Event>

    ghost predicate Valid()
      reads cluster
    {
      cluster.Valid()
    }

    constructor (cluster: Cluster, lib: Library)
      ensures this.cluster == cluster && this.lib == lib && events == []
    {
      this.cluster := cluster;
      this.lib := lib;
      events := [];
    }

    /** Reconcile: one pass for a work-queue key. */
    method Reconcile(key: string) returns (r: Outcome)
      requires Valid()
      modifies this, cluster
      ensures Valid()
      ensures var s := ReconcileKeySpec(lib, cluster.faults, old(cluster.ingresses), old(cluster.proxies), key);
        && cluster.ingresses == s.ingresses
        && cluster.proxies == s.proxies
        && r == s.outcome
        && events == old(events) + s.events
    {
      var parsed := SplitMetaNamespaceKey(key);
      if parsed.None? {
        return Pass;
      }
      var (namespace, name) := parsed.value;
      var k := ObjectKey(namespace, name);
      var read := cluster.Get(ReadIngress(k), k);
      if read.Failure? {
        if read.error.NotFound? {
          return Pass;
        }
        return Fail(read.error);
      }
      var original := read.value;
      var resource, reconcileErr := ReconcileIngress(original);
      if original.status != resource.status {
        var written := UpdateStatus(resource);
        if written.Failure? {
          events := events + [Warning(UpdateFailedReason, IngressKey(resource))];
          return Fail(written.error);
        }
      }
      if reconcileErr.Fail? {
        events := events + [Warning(InternalErrorReason, k)];
      }
      r := reconcileErr;
    }

    /** reconcile: returns the reconciled copy of `ing` and the error. */
    method ReconcileIngress(ing: Ingress) returns (resource: Ingress, r: Outcome)
      requires Valid()
      modifies cluster
      ensures Valid()
      ensures cluster.ingresses == old(cluster.ingresses)
      ensures ReconcileSpec(lib, ing, old(cluster.proxies), cluster.faults) == Reconciled(resource, cluster.proxies, r)
    {
      if ing.deleting {
        return ing, Pass;
      }
      var initialized := ing.(status := InitializeConditions(ing.status));
      var marked, err := ReconcileProxies(initialized);
      if err.Fail? {
        return initialized, err;
      }
      resource := marked.(status := marked.status.(observedGeneration := ing.generation));
      r := Pass;
    }

    /** One iteration of the loop in reconcileProxies: list the children
        for p's host, create p when there are none, otherwise update the
        first one listed. */
    method SyncOne(ing: Ingress, p: HTTPProxy) returns (r: Outcome)
      requires Valid() && p.spec.virtualHost.Some?
      modifies cluster
      ensures Valid()
      ensures cluster.ingresses == old(cluster.ingresses)
      ensures ApplyOne(old(cluster.proxies), cluster.faults, ing, p) == Applied(cluster.proxies, r)
    {
      var listed := cluster.List(ing.namespace, ing.name, p.spec.virtualHost.value.fqdn);
      if listed.Failure? {
        return Fail(listed.error);
      }
      var elts := listed.value;
      if |elts| == 0 {
        r := cluster.Create(p);
      } else {
        r := cluster.Update(Overwrite(elts[0], p));
      }
    }

    /** The loop of reconcileProxies: the children in order, stopping at
        the first error. */
    method SyncAll(ing: Ingress, ps: seq<HTTPProxy>) returns (r: Outcome)
      requires Valid() && forall p <- ps :: p.spec.virtualHost.Some?
      modifies cluster
      ensures Valid()
      ensures cluster.ingresses == old(cluster.ingresses)
      ensures ApplyAll(old(cluster.proxies), cluster.faults, ing, ps) == Applied(cluster.proxies, r)
    {
      var i := 0;
      while i < |ps|
        invariant 0 <= i <= |ps|
        invariant Valid()
        invariant cluster.ingresses == old(cluster.ingresses)
        invariant ApplyAll(cluster.proxies, cluster.faults, ing, ps[i..]) == ApplyAll(old(cluster.proxies), cluster.faults, ing, ps)
      {
        assert ps[i] in ps;
        assert ps[i..][1..] == ps[i + 1..];
        var out := SyncOne(ing, ps[i]);
        if out.Fail? {
          return out;
        }
        i := i + 1;
      }
      r := Pass;
    }

    /** reconcileProxies: returns `ing` marked ready on success, unchanged
        otherwise, and the error. */
    method ReconcileProxies(ing: Ingress) returns (resource: Ingress, r: Outcome)
      requires Valid()
      modifies cluster
      ensures Valid()
      ensures cluster.ingresses == old(cluster.ingresses)
      ensures ReconcileProxiesSpec(lib, ing, old(cluster.proxies), cluster.faults) == Applied(cluster.proxies, r)
      ensures resource == if r.Pass? then ing.(status := MarkReady(ing.status)) else ing
    {
      var synthesized := MakeHTTPProxies(lib, ing);
      if synthesized.Failure? {
        return ing, Fail(synthesized.error);
      }
      var ps := synthesized.value;
      SpecAfterLoop(lib, ing, old(cluster.proxies), cluster.faults);
      var synced := SyncAll(ing, ps);
      if synced.Fail? {
        return ing, synced;
      }
      var deleted := cluster.DeleteCollection(ing.namespace, ing.name, DecimalString(ing.generation));
      if deleted.Fail? {
        return ing, deleted;
      }
      resource := ing.(status := MarkReady(ing.status));
      r := Pass;
    }

    /** updateStatus: reread the Ingress and write the desired status onto it
        unless it already has that status. */
    method UpdateStatus(desired: Ingress) returns (r: Result<Ingress>)
      requires Valid()
      modifies cluster
      ensures Valid()
      ensures cluster.proxies == old(cluster.proxies)
      ensures var u := UpdateStatusSpec(old(cluster.ingresses), cluster.faults, desired);
        && (u.Success? ==> r.Success? && cluster.ingresses == u.value)
        && (u.Failure? ==> r == Failure(u.error) && cluster.ingresses == old(cluster.ingresses))
    {
      var key := IngressKey(desired);
      var actual := cluster.Get(RereadIngress(key), key);
      if actual.Failure? {
        return Failure(actual.error);
      }
      if actual.value.status == desired.status {
        return actual;
      }
      r := cluster.UpdateStatus(desired);
    }
  }
}
