/** The child-set sync of reconcileProxies, as a function of the store's
    children before it runs: synthesize, then for each child list the
    existing children with its parent and fqdn labels and create it or
    update the first match, and only then sweep the children of an older
    generation. Any error stops the sync where it is. */
module Sync {
  import opened Api
  import opened Decimal
  import opened Synthesis
  import opened Store

  /** The children after a (partial) sync, and what it returned. */
  datatype Applied = Applied(children: seq<HTTPProxy>, outcome: Outcome)

  function AsApplied(cs: seq<HTTPProxy>, r: Result<seq<HTTPProxy>>): Applied {
    match r
    case Success(next) => Applied(next, Pass)
    case Failure(e) => Applied(cs, Fail(e))
  }

  /** The update object: a copy of the existing child whose annotations,
      labels and spec are the desired child's. */
  function Overwrite(existing: HTTPProxy, p: HTTPProxy): (u: HTTPProxy)
  {
    HTTPProxy(existing.meta.(annotations := p.meta.annotations, labels := p.meta.labels), p.spec)
  }

  /** One iteration of the loop over the synthesized children. */
  function ApplyOne(cs: seq<HTTPProxy>, faults: set<Op>, ing: Ingress, p: HTTPProxy): (a: Applied)
    requires p.spec.virtualHost.Some?
    ensures a.outcome.Fail? ==> a.children == cs
    ensures |cs| <= |a.children| <= |cs| + 1
  {
    match ListResult(cs, faults, ing.namespace, ing.name, p.spec.virtualHost.value.fqdn)
    case Failure(e) => Applied(cs, Fail(e))
    case Success(elts) =>
      if |elts| == 0 then AsApplied(cs, CreateResult(cs, faults, p))
      else AsApplied(cs, UpdateResult(cs, faults, Overwrite(elts[0], p)))
  }

  /** The loop: children in order, stopping at the first error. */
  function ApplyAll(cs: seq<HTTPProxy>, faults: set<Op>, ing: Ingress, ps: seq<HTTPProxy>): (a: Applied)
    requires forall p <- ps :: p.spec.virtualHost.Some?
    ensures |cs| <= |a.children| <= |cs| + |ps|
    decreases |ps|
  {
    if ps == [] then Applied(cs, Pass)
    else
      var a := ApplyOne(cs, faults, ing, ps[0]);
      if a.outcome.Fail? then a else ApplyAll(a.children, faults, ing, ps[1..])
  }

  /** reconcileProxies on the children: synthesis, the loop, then the sweep. */
  function ReconcileProxiesSpec(lib: Library, ing: Ingress, cs: seq<HTTPProxy>, faults: set<Op>): (a: Applied)
    ensures a.outcome.Pass? ==> Synthesize(lib, ing).Success?
    ensures Synthesize(lib, ing).Failure? ==> a == Applied(cs, Fail(UnsupportedPathCount))
  {
    match Synthesize(lib, ing)
    case Failure(e) => Applied(cs, Fail(e))
    case Success(ps) =>
      SynthesizedDesired(lib, ing);
      var a := ApplyAll(cs, faults, ing, ps);
      if a.outcome.Fail? then a
      else AsApplied(a.children, DeleteCollectionResult(a.children, faults, ing.namespace, ing.name, DecimalString(ing.generation)))
  }

  // ---------------------------------------------------------------------
  // Reference notions

  /** The children that do not belong to parent `parent` in namespace ns, in store order. */
  function Others(cs: seq<HTTPProxy>, ns: string, parent: string): (r: seq<HTTPProxy>)
    ensures forall c <- r :: c in cs && !Owned(c, ns, parent)
    ensures forall c <- cs :: !Owned(c, ns, parent) ==> c in r
  {
    if cs == [] then []
    else (if Owned(cs[0], ns, parent) then [] else [cs[0]]) + Others(cs[1..], ns, parent)
  }

  /** Child c carries what p asks for: namespace, labels, annotations and spec. */
  predicate Carries(c: HTTPProxy, p: HTTPProxy) {
    && c.meta.namespace == p.meta.namespace
    && c.meta.labels == p.meta.labels
    && c.meta.annotations == p.meta.annotations
    && c.spec == p.spec
  }

  ghost predicate Realized(cs: seq<HTTPProxy>, p: HTTPProxy) {
    exists c <- cs :: Carries(c, p)
  }

  /** No later child in ps serves the same host as ps[i]. */
  ghost predicate LastForHost(ps: seq<HTTPProxy>, i: nat)
    requires i < |ps|
  {
    forall j :: i < j < |ps| ==> FqdnOf(ps[j]) != FqdnOf(ps[i])
  }

  // ---------------------------------------------------------------------
  // Helper facts about the store operations

  lemma {:induction false} OthersAppendOwned(cs: seq<HTTPProxy>, p: HTTPProxy, ns: string, parent: string)
    requires Owned(p, ns, parent)
    ensures Others(cs + [p], ns, parent) == Others(cs, ns, parent)
  {
    if cs != [] {
      assert (cs + [p])[1..] == cs[1..] + [p];
      OthersAppendOwned(cs[1..], p, ns, parent);
    } else {
      assert Others([p], ns, parent) == [] + Others([], ns, parent);
    }
  }

  lemma {:induction false} OthersReplaceOwned(cs: seq<HTTPProxy>, u: HTTPProxy, ns: string, parent: string)
    requires Owned(u, ns, parent)
    requires forall c <- cs :: KeyOf(c) == KeyOf(u) ==> Owned(c, ns, parent)
    ensures Others(ReplaceKey(cs, u), ns, parent) == Others(cs, ns, parent)
  {
    if cs != [] {
      assert ReplaceKey(cs, u)[1..] == ReplaceKey(cs[1..], u);
      OthersReplaceOwned(cs[1..], u, ns, parent);
    }
  }

  lemma {:induction false} OthersWithoutStale(cs: seq<HTTPProxy>, ns: string, parent: string, generation: string)
    ensures Others(WithoutStale(cs, ns, parent, generation), ns, parent) == Others(cs, ns, parent)
  {
    if cs != [] {
      OthersWithoutStale(cs[1..], ns, parent, generation);
      if !Stale(cs[0], ns, parent, generation) {
        assert ([cs[0]] + WithoutStale(cs[1..], ns, parent, generation))[1..] == WithoutStale(cs[1..], ns, parent, generation);
      }
    }
  }

  lemma SameKeySameChild(cs: seq<HTTPProxy>, c: HTTPProxy, d: HTTPProxy)
    requires UniqueKeys(cs) && c in cs && d in cs && KeyOf(c) == KeyOf(d)
    ensures c == d
  {
    var i :| 0 <= i < |cs| && cs[i] == c;
    var j :| 0 <= j < |cs| && cs[j] == d;
    assert i == j;
  }

  lemma ReplaceKeyAt(cs: seq<HTTPProxy>, k: nat, u: HTTPProxy)
    requires UniqueKeys(cs) && k < |cs| && KeyOf(cs[k]) == KeyOf(u)
    ensures ReplaceKey(cs, u) == cs[k := u]
  {
  }

  lemma ReplaceKeyKeepsKeys(cs: seq<HTTPProxy>, u: HTTPProxy)
    ensures KeySet(ReplaceKey(cs, u)) == KeySet(cs)
  {
    var r := ReplaceKey(cs, u);
    forall key | key in KeySet(cs) ensures key in KeySet(r) {
      var c :| c in cs && KeyOf(c) == key;
      var k :| 0 <= k < |cs| && cs[k] == c;
      assert KeyOf(r[k]) == key;
    }
    forall key | key in KeySet(r) ensures key in KeySet(cs) {
      var c :| c in r && KeyOf(c) == key;
      var k :| 0 <= k < |r| && r[k] == c;
      assert KeyOf(cs[k]) == key;
    }
  }

  /** A failing step leaves the children as they were. */
  lemma ApplyOneFailure(cs: seq<HTTPProxy>, faults: set<Op>, ing: Ingress, p: HTTPProxy)
    requires p.spec.virtualHost.Some?
    ensures ApplyOne(cs, faults, ing, p).outcome.Fail? ==> ApplyOne(cs, faults, ing, p).children == cs
  {
  }

  /** With no child listed for the host, a successful step creates the
      desired child after all the others. */
  lemma ApplyOneCreates(cs: seq<HTTPProxy>, faults: set<Op>, ing: Ingress, p: HTTPProxy)
    requires p.spec.virtualHost.Some?
    requires Select(cs, ing.namespace, ing.name, FqdnOf(p)) == []
    ensures ApplyOne(cs, faults, ing, p).outcome.Pass? ==> ApplyOne(cs, faults, ing, p).children == cs + [p]
  {
  }

  /** cs[k] is the first child the selector lists. */
  predicate FirstSelected(cs: seq<HTTPProxy>, k: nat, ns: string, parent: string, fqdn: string)
    requires k < |cs|
  {
    && Selected(cs[k], ns, parent, fqdn)
    && forall m :: 0 <= m < k ==> !Selected(cs[m], ns, parent, fqdn)
  }

  /** next is cs with child k updated in place: same namespace, name and
      owner references, and the labels, annotations and spec of p. */
  predicate UpdatedAt(cs: seq<HTTPProxy>, next: seq<HTTPProxy>, k: nat, p: HTTPProxy)
    requires k < |cs|
  {
    && |next| == |cs|
    && next == cs[k := next[k]]
    && next[k].meta.namespace == cs[k].meta.namespace
    && next[k].meta.name == cs[k].meta.name
    && next[k].meta.ownerRefs == cs[k].meta.ownerRefs
    && next[k].meta.labels == p.meta.labels
    && next[k].meta.annotations == p.meta.annotations
    && next[k].spec == p.spec
  }

  /** The first child a selector matches heads the list it returns. */
  lemma {:induction false} FirstSelectedHeads(cs: seq<HTTPProxy>, k: nat, ns: string, parent: string, fqdn: string)
    requires k < |cs| && FirstSelected(cs, k, ns, parent, fqdn)
    ensures Select(cs, ns, parent, fqdn) != [] && Select(cs, ns, parent, fqdn)[0] == cs[k]
  {
    if k > 0 {
      assert FirstSelected(cs[1..], k - 1, ns, parent, fqdn) by {
        forall m | 0 <= m < k - 1 ensures !Selected(cs[1..][m], ns, parent, fqdn) {
          assert cs[1..][m] == cs[m + 1];
        }
      }
      FirstSelectedHeads(cs[1..], k - 1, ns, parent, fqdn);
    }
  }

  /** An update writes the child's identity and owners back unchanged and
      takes the desired labels, annotations and spec. */
  lemma OverwriteKeepsIdentity(existing: HTTPProxy, p: HTTPProxy)
    ensures var u := Overwrite(existing, p);
      && KeyOf(u) == KeyOf(existing) && u.meta.ownerRefs == existing.meta.ownerRefs
      && u.meta.labels == p.meta.labels && u.meta.annotations == p.meta.annotations && u.spec == p.spec
  {
  }

  /** Updating a child that already carries p changes nothing. */
  lemma OverwriteCarried(c: HTTPProxy, p: HTTPProxy)
    requires Carries(c, p)
    ensures Overwrite(c, p) == c
  {
  }

  /** Of two updates of the same child, only the later one shows. */
  lemma OverwriteTwice(c: HTTPProxy, p: HTTPProxy, q: HTTPProxy)
    ensures Overwrite(Overwrite(c, p), q) == Overwrite(c, q)
  {
  }

  /** A successful step whose host has a first match at k updates child k in place. */
  lemma ApplyOneUpdateAt(cs: seq<HTTPProxy>, faults: set<Op>, ing: Ingress, p: HTTPProxy, k: nat)
    requires UniqueKeys(cs) && p.spec.virtualHost.Some?
    requires k < |cs| && FirstSelected(cs, k, ing.namespace, ing.name, FqdnOf(p))
    ensures ApplyOne(cs, faults, ing, p).outcome.Pass? ==> ApplyOne(cs, faults, ing, p).children == cs[k := Overwrite(cs[k], p)]
    ensures faults == {} ==> ApplyOne(cs, faults, ing, p).outcome.Pass?
  {
    FirstSelectedHeads(cs, k, ing.namespace, ing.name, FqdnOf(p));
    var u := Overwrite(cs[k], p);
    if ListProxies(ing.namespace, ing.name, FqdnOf(p)) !in faults {
      assert ListResult(cs, faults, ing.namespace, ing.name, FqdnOf(p)) == Success(Select(cs, ing.namespace, ing.name, FqdnOf(p)));
      assert ApplyOne(cs, faults, ing, p) == AsApplied(cs, UpdateResult(cs, faults, u));
      assert KeyOf(u) == KeyOf(cs[k]);
      ReplaceKeyAt(cs, k, u);
    }
  }

  /** With children listed for the host, a successful step updates the
      first of them in store order, in place: it keeps its namespace, name
      and owner references and takes the desired labels, annotations and
      spec; no child is added. */
  lemma ApplyOneUpdatesFirstMatch(cs: seq<HTTPProxy>, faults: set<Op>, ing: Ingress, p: HTTPProxy)
    requires UniqueKeys(cs) && p.spec.virtualHost.Some?
    requires Select(cs, ing.namespace, ing.name, FqdnOf(p)) != []
    requires ApplyOne(cs, faults, ing, p).outcome.Pass?
    ensures exists k :: (0 <= k < |cs|
      && FirstSelected(cs, k, ing.namespace, ing.name, FqdnOf(p))
      && UpdatedAt(cs, ApplyOne(cs, faults, ing, p).children, k, p))
  {
    var fqdn := FqdnOf(p);
    var elts := Select(cs, ing.namespace, ing.name, fqdn);
    SelectFirst(cs, ing.namespace, ing.name, fqdn);
    var k :| 0 <= k < |cs| && cs[k] == elts[0] && forall m :: 0 <= m < k ==> !Selected(cs[m], ing.namespace, ing.name, fqdn);
    assert elts[0] in elts;
    assert FirstSelected(cs, k, ing.namespace, ing.name, fqdn);
    ApplyOneUpdateAt(cs, faults, ing, p, k);
    var u := Overwrite(cs[k], p);
    var next := cs[k := u];
    assert ApplyOne(cs, faults, ing, p).children == next;
    assert next[k] == u;
    assert UpdatedAt(cs, next, k, p);
  }

  /** One step keeps keys unique, never drops a key, and leaves the children
      of other parents exactly as they were. */
  lemma ApplyOneFrame(cs: seq<HTTPProxy>, faults: set<Op>, ing: Ingress, p: HTTPProxy)
    requires UniqueKeys(cs) && Desired(ing, p)
    ensures var a := ApplyOne(cs, faults, ing, p);
      && UniqueKeys(a.children)
      && KeySet(cs) <= KeySet(a.children)
      && Others(a.children, ing.namespace, ing.name) == Others(cs, ing.namespace, ing.name)
  {
    var a := ApplyOne(cs, faults, ing, p);
    var elts := Select(cs, ing.namespace, ing.name, FqdnOf(p));
    if a.outcome.Pass? {
      assert ListResult(cs, faults, ing.namespace, ing.name, FqdnOf(p)) == Success(elts);
      if elts == [] {
        assert CreateResult(cs, faults, p) == Success(a.children);
        CreateKeepsUnique(cs, faults, p);
        OthersAppendOwned(cs, p, ing.namespace, ing.name);
      } else {
        var u := Overwrite(elts[0], p);
        assert UpdateResult(cs, faults, u) == Success(a.children);
        assert elts[0] in elts;
        UpdateKeepsUnique(cs, faults, u);
        ReplaceKeyKeepsKeys(cs, u);
        forall c <- cs | KeyOf(c) == KeyOf(u) ensures Owned(c, ing.namespace, ing.name) {
          SameKeySameChild(cs, c, elts[0]);
        }
        OthersReplaceOwned(cs, u, ing.namespace, ing.name);
      }
    }
  }

  lemma {:induction false} ApplyAllFrame(cs: seq<HTTPProxy>, faults: set<Op>, ing: Ingress, ps: seq<HTTPProxy>)
    requires UniqueKeys(cs) && AllDesired(ing, ps)
    ensures var a := ApplyAll(cs, faults, ing, ps);
      && UniqueKeys(a.children)
      && KeySet(cs) <= KeySet(a.children)
      && Others(a.children, ing.namespace, ing.name) == Others(cs, ing.namespace, ing.name)
    decreases |ps|
  {
    if ps != [] {
      ApplyOneFrame(cs, faults, ing, ps[0]);
      var a := ApplyOne(cs, faults, ing, ps[0]);
      if a.outcome.Pass? {
        ApplyAllFrame(a.children, faults, ing, ps[1..]);
      }
    }
  }

  // ---------------------------------------------------------------------
  // Properties of reconcileProxies

  /** The sync after a successful synthesis: the loop's result, or the
      sweep applied to it. */
  lemma SpecAfterLoop(lib: Library, ing: Ingress, cs: seq<HTTPProxy>, faults: set<Op>)
    requires Synthesize(lib, ing).Success?
    ensures AllDesired(ing, Synthesize(lib, ing).value)
    ensures var a := ApplyAll(cs, faults, ing, Synthesize(lib, ing).value);
      ReconcileProxiesSpec(lib, ing, cs, faults) ==
        if a.outcome.Fail? then a
        else AsApplied(a.children, DeleteCollectionResult(a.children, faults, ing.namespace, ing.name, DecimalString(ing.generation)))
  {
    SynthesizedDesired(lib, ing);
  }

  lemma {:induction false} ApplyAllIgnoresStatus(cs: seq<HTTPProxy>, faults: set<Op>, ing: Ingress, st: IngressStatus, ps: seq<HTTPProxy>)
    requires forall p <- ps :: p.spec.virtualHost.Some?
    ensures ApplyAll(cs, faults, ing.(status := st), ps) == ApplyAll(cs, faults, ing, ps)
    decreases |ps|
  {
    if ps != [] {
      var a := ApplyOne(cs, faults, ing, ps[0]);
      assert ApplyOne(cs, faults, ing.(status := st), ps[0]) == a;
      if a.outcome.Pass? {
        ApplyAllIgnoresStatus(a.children, faults, ing, st, ps[1..]);
      }
    }
  }

  /** The sync reads the Ingress's metadata and rules, never its status. */
  lemma ReconcileProxiesIgnoresStatus(lib: Library, ing: Ingress, st: IngressStatus, cs: seq<HTTPProxy>, faults: set<Op>)
    ensures ReconcileProxiesSpec(lib, ing.(status := st), cs, faults) == ReconcileProxiesSpec(lib, ing, cs, faults)
  {
    SynthesizeIgnoresStatus(lib, ing, st);
    if Synthesize(lib, ing).Success? {
      SynthesizedDesired(lib, ing);
      ApplyAllIgnoresStatus(cs, faults, ing, st, Synthesize(lib, ing).value);
    }
  }

  /** A rule with other than one path fails the sync before the store is touched. */
  lemma SynthesisFailureLeavesChildren(lib: Library, ing: Ingress, cs: seq<HTTPProxy>, faults: set<Op>)
    requires exists i :: 0 <= i < |ing.rules| && |ing.rules[i].http.paths| != 1
    ensures ReconcileProxiesSpec(lib, ing, cs, faults) == Applied(cs, Fail(UnsupportedPathCount))
  {
    SynthesizeFailsIff(lib, ing);
  }

  /** Whatever happens, the children of other parents (and those outside the
      Ingress's namespace) stay exactly as they were, in the same order, and
      child keys stay unique. */
  lemma ReconcileProxiesKeepsOthers(lib: Library, ing: Ingress, cs: seq<HTTPProxy>, faults: set<Op>)
    requires UniqueKeys(cs)
    ensures var a := ReconcileProxiesSpec(lib, ing, cs, faults);
      && UniqueKeys(a.children)
      && Others(a.children, ing.namespace, ing.name) == Others(cs, ing.namespace, ing.name)
  {
    if Synthesize(lib, ing).Success? {
      var ps := Synthesize(lib, ing).value;
      SynthesizedDesired(lib, ing);
      ApplyAllFrame(cs, faults, ing, ps);
      var a := ApplyAll(cs, faults, ing, ps);
      SpecAfterLoop(lib, ing, cs, faults);
      if a.outcome.Pass? {
        DeleteKeepsUnique(a.children, ing.namespace, ing.name, DecimalString(ing.generation));
        OthersWithoutStale(a.children, ing.namespace, ing.name, DecimalString(ing.generation));
      }
    }
  }

  /** A failed sync deletes nothing: every child it found is still there
      under the same name (the sweep runs only after the whole loop). */
  lemma FailedSyncDeletesNothing(lib: Library, ing: Ingress, cs: seq<HTTPProxy>, faults: set<Op>)
    requires UniqueKeys(cs)
    ensures var a := ReconcileProxiesSpec(lib, ing, cs, faults);
      a.outcome.Fail? ==> KeySet(cs) <= KeySet(a.children)
  {
    if Synthesize(lib, ing).Success? {
      SynthesizedDesired(lib, ing);
      ApplyAllFrame(cs, faults, ing, Synthesize(lib, ing).value);
    }
  }

  /** After a successful sync every child of this Ingress in its namespace
      carries the current generation label. */
  lemma SyncedChildrenAreCurrent(lib: Library, ing: Ingress, cs: seq<HTTPProxy>, faults: set<Op>)
    ensures var a := ReconcileProxiesSpec(lib, ing, cs, faults);
      a.outcome.Pass? ==>
        forall c <- a.children :: Owned(c, ing.namespace, ing.name) ==>
          HasLabel(c.meta.labels, GenerationLabel, DecimalString(ing.generation))
  {
  }

  /** A failing loop ran its children in order up to the first failing one
      and attempted nothing after it; the children are those the earlier
      steps left. */
  lemma {:induction false} ApplyAllStopsAtFirstError(cs: seq<HTTPProxy>, faults: set<Op>, ing: Ingress, ps: seq<HTTPProxy>)
    requires forall p <- ps :: p.spec.virtualHost.Some?
    requires ApplyAll(cs, faults, ing, ps).outcome.Fail?
    ensures exists k :: (0 <= k < |ps|
      && ApplyAll(cs, faults, ing, ps[..k]).outcome.Pass?
      && ApplyOne(ApplyAll(cs, faults, ing, ps[..k]).children, faults, ing, ps[k]) == ApplyAll(cs, faults, ing, ps)
      && ApplyAll(cs, faults, ing, ps).children == ApplyAll(cs, faults, ing, ps[..k]).children)
    decreases |ps|
  {
    var a := ApplyOne(cs, faults, ing, ps[0]);
    if a.outcome.Fail? {
      assert ps[..0] == [];
      assert ApplyAll(cs, faults, ing, ps[..0]) == Applied(cs, Pass);
    } else {
      assert ApplyAll(cs, faults, ing, ps) == ApplyAll(a.children, faults, ing, ps[1..]);
      ApplyAllStopsAtFirstError(a.children, faults, ing, ps[1..]);
      var k :| 0 <= k < |ps[1..]|
        && ApplyAll(a.children, faults, ing, ps[1..][..k]).outcome.Pass?
        && ApplyOne(ApplyAll(a.children, faults, ing, ps[1..][..k]).children, faults, ing, ps[1..][k]) == ApplyAll(a.children, faults, ing, ps[1..])
        && ApplyAll(a.children, faults, ing, ps[1..]).children == ApplyAll(a.children, faults, ing, ps[1..][..k]).children;
      assert ps[..k + 1][0] == ps[0];
      assert ps[..k + 1][1..] == ps[1..][..k];
      assert ps[k + 1] == ps[1..][k];
      assert ApplyAll(cs, faults, ing, ps[..k + 1]) == ApplyAll(a.children, faults, ing, ps[1..][..k]);
    }
  }

  /** When the sync fails in the loop, the sweep did not run: the result is
      the loop's, stopped at its first failing child. */
  lemma FailedLoopSkipsSweep(lib: Library, ing: Ingress, cs: seq<HTTPProxy>, faults: set<Op>)
    requires Synthesize(lib, ing).Success?
    requires forall p <- Synthesize(lib, ing).value :: p.spec.virtualHost.Some?
    requires ApplyAll(cs, faults, ing, Synthesize(lib, ing).value).outcome.Fail?
    ensures ReconcileProxiesSpec(lib, ing, cs, faults) == ApplyAll(cs, faults, ing, Synthesize(lib, ing).value)
  {
  }

  lemma ApplyOneRealizes(cs: seq<HTTPProxy>, faults: set<Op>, ing: Ingress, p: HTTPProxy)
    requires UniqueKeys(cs) && Desired(ing, p)
    requires ApplyOne(cs, faults, ing, p).outcome.Pass?
    ensures Realized(ApplyOne(cs, faults, ing, p).children, p)
  {
    var a := ApplyOne(cs, faults, ing, p);
    var elts := Select(cs, ing.namespace, ing.name, FqdnOf(p));
    if elts == [] {
      assert Carries(a.children[|cs|], p);
    } else {
      var u := Overwrite(elts[0], p);
      assert elts[0] in cs;
      var k :| 0 <= k < |cs| && cs[k] == elts[0];
      ReplaceKeyAt(cs, k, u);
      assert Carries(a.children[k], p);
    }
  }

  /** A child for another host neither creates over nor updates the child
      that carries p. */
  lemma ApplyOneKeepsRealized(cs: seq<HTTPProxy>, faults: set<Op>, ing: Ingress, p: HTTPProxy, q: HTTPProxy)
    requires UniqueKeys(cs) && Desired(ing, p) && Desired(ing, q)
    requires Realized(cs, p) && FqdnOf(q) != FqdnOf(p)
    ensures Realized(ApplyOne(cs, faults, ing, q).children, p)
  {
    var a := ApplyOne(cs, faults, ing, q);
    var elts := Select(cs, ing.namespace, ing.name, FqdnOf(q));
    var c :| c in cs && Carries(c, p);
    if a.outcome.Pass? {
      if elts == [] {
        assert c in a.children;
      } else {
        var u := Overwrite(elts[0], q);
        if KeyOf(c) == KeyOf(u) {
          SameKeySameChild(cs, c, elts[0]);
          assert false;
        }
        var k :| 0 <= k < |cs| && cs[k] == c;
        assert a.children[k] == c;
      }
    }
  }

  lemma {:induction false} ApplyAllKeepsRealized(cs: seq<HTTPProxy>, faults: set<Op>, ing: Ingress, ps: seq<HTTPProxy>, p: HTTPProxy)
    requires UniqueKeys(cs) && Desired(ing, p) && AllDesired(ing, ps)
    requires Realized(cs, p) && forall q <- ps :: FqdnOf(q) != FqdnOf(p)
    ensures Realized(ApplyAll(cs, faults, ing, ps).children, p)
    decreases |ps|
  {
    if ps != [] {
      ApplyOneKeepsRealized(cs, faults, ing, p, ps[0]);
      ApplyOneFrame(cs, faults, ing, ps[0]);
      var a := ApplyOne(cs, faults, ing, ps[0]);
      if a.outcome.Pass? {
        ApplyAllKeepsRealized(a.children, faults, ing, ps[1..], p);
      }
    }
  }

  /** The first child is the last for its host when no later child repeats it. */
  lemma LastAtHead(ps: seq<HTTPProxy>)
    requires ps != [] && LastForHost(ps, 0)
    ensures forall q <- ps[1..] :: FqdnOf(q) != FqdnOf(ps[0])
  {
    forall q <- ps[1..] ensures FqdnOf(q) != FqdnOf(ps[0]) {
      var j :| 0 <= j < |ps[1..]| && ps[1..][j] == q;
      assert ps[j + 1] == q;
    }
  }

  /** After a successful loop, every child that is the last one for its host
      is carried by some child in the store. */
  lemma {:induction false} ApplyAllRealizes(cs: seq<HTTPProxy>, faults: set<Op>, ing: Ingress, ps: seq<HTTPProxy>)
    requires UniqueKeys(cs) && AllDesired(ing, ps)
    requires ApplyAll(cs, faults, ing, ps).outcome.Pass?
    ensures forall i :: 0 <= i < |ps| && LastForHost(ps, i) ==> Realized(ApplyAll(cs, faults, ing, ps).children, ps[i])
    decreases |ps|
  {
    if ps != [] {
      var a := ApplyOne(cs, faults, ing, ps[0]);
      assert a.outcome.Pass? && ApplyAll(cs, faults, ing, ps) == ApplyAll(a.children, faults, ing, ps[1..]);
      ApplyOneFrame(cs, faults, ing, ps[0]);
      ApplyAllRealizes(a.children, faults, ing, ps[1..]);
      forall i | 0 <= i < |ps| && LastForHost(ps, i)
        ensures Realized(ApplyAll(cs, faults, ing, ps).children, ps[i])
      {
        if i == 0 {
          ApplyOneRealizes(cs, faults, ing, ps[0]);
          LastAtHead(ps);
          ApplyAllKeepsRealized(a.children, faults, ing, ps[1..], ps[0]);
        } else {
          assert ps[1..][i - 1] == ps[i];
          assert LastForHost(ps[1..], i - 1);
        }
      }
    }
  }

  /** The sweep keeps every child written at the current generation. */
  lemma SweepKeepsRealized(cs: seq<HTTPProxy>, ing: Ingress, p: HTTPProxy)
    requires Desired(ing, p) && Realized(cs, p)
    ensures Realized(WithoutStale(cs, ing.namespace, ing.name, DecimalString(ing.generation)), p)
  {
    var c :| c in cs && Carries(c, p);
    assert !Stale(c, ing.namespace, ing.name, DecimalString(ing.generation));
  }

  /** After a successful loop and sweep, every child that is the last one for
      its host is still carried by some child in the store. */
  lemma SweptRealizes(cs: seq<HTTPProxy>, faults: set<Op>, ing: Ingress, ps: seq<HTTPProxy>)
    requires UniqueKeys(cs) && AllDesired(ing, ps)
    requires ApplyAll(cs, faults, ing, ps).outcome.Pass?
    ensures var swept := WithoutStale(ApplyAll(cs, faults, ing, ps).children, ing.namespace, ing.name, DecimalString(ing.generation));
      forall i :: 0 <= i < |ps| && LastForHost(ps, i) ==> Realized(swept, ps[i])
  {
    var a := ApplyAll(cs, faults, ing, ps);
    ApplyAllRealizes(cs, faults, ing, ps);
    forall i | 0 <= i < |ps| && LastForHost(ps, i)
      ensures Realized(WithoutStale(a.children, ing.namespace, ing.name, DecimalString(ing.generation)), ps[i])
    {
      assert ps[i] in ps;
      SweepKeepsRealized(a.children, ing, ps[i]);
    }
  }

  /** After a successful sync, for every (rule, host) pair whose host no
      later pair repeats, some child in the store carries exactly that
      pair's namespace, labels, annotations and spec. */
  lemma SyncRealizesDesired(lib: Library, ing: Ingress, cs: seq<HTTPProxy>, faults: set<Op>)
    requires UniqueKeys(cs)
    requires ReconcileProxiesSpec(lib, ing, cs, faults).outcome.Pass?
    ensures Synthesize(lib, ing).Success?
    ensures var ps := Synthesize(lib, ing).value;
      forall i :: 0 <= i < |ps| && LastForHost(ps, i) ==> Realized(ReconcileProxiesSpec(lib, ing, cs, faults).children, ps[i])
  {
    assert Synthesize(lib, ing).Success?;
    var ps := Synthesize(lib, ing).value;
    SpecAfterLoop(lib, ing, cs, faults);
    SweptRealizes(cs, faults, ing, ps);
  }
}
