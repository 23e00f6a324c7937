/** What repeated syncs of one Ingress's children do. Every write for a host
    goes to the first child its selector lists, so: run again on the store a
    successful sync left, reconcileProxies writes every child back as it is
    and sweeps nothing; after a generation bump it leaves exactly one child
    per host; and a later duplicate that already carries the current
    generation is neither updated nor swept. */
module Resync {
  import opened Api
  import opened Decimal
  import opened Synthesis
  import opened Store
  import opened Sync

  // ---------------------------------------------------------------------
  // The child that serves a host

  /** Some child is the first one listed for p's host and carries p. */
  ghost predicate Leads(cs: seq<HTTPProxy>, ing: Ingress, p: HTTPProxy) {
    exists k :: 0 <= k < |cs| && FirstSelected(cs, k, ing.namespace, ing.name, FqdnOf(p)) && Carries(cs[k], p)
  }

  /** The hosts of a list of children. */
  function HostsOf(ps: seq<HTTPProxy>): set<string> {
    set p <- ps :: FqdnOf(p)
  }

  /** Every child of ps has a later-or-equal one for the same host that no
      later child repeats. */
  lemma {:induction false} LastExists(ps: seq<HTTPProxy>, m: nat)
    requires m < |ps|
    ensures exists j :: m <= j < |ps| && LastForHost(ps, j) && FqdnOf(ps[j]) == FqdnOf(ps[m])
    decreases |ps| - m
  {
    if !LastForHost(ps, m) {
      var j :| m < j < |ps| && FqdnOf(ps[j]) == FqdnOf(ps[m]);
      LastExists(ps, j);
    }
  }

  lemma NoneSelected(cs: seq<HTTPProxy>, ns: string, parent: string, fqdn: string)
    requires Select(cs, ns, parent, fqdn) == []
    ensures forall m :: 0 <= m < |cs| ==> !Selected(cs[m], ns, parent, fqdn)
  {
    forall m | 0 <= m < |cs| ensures !Selected(cs[m], ns, parent, fqdn) {
      assert cs[m] in cs;
    }
  }

  /** The first match of a non-empty listing, as an index. */
  lemma FirstMatch(cs: seq<HTTPProxy>, ns: string, parent: string, fqdn: string) returns (k: nat)
    requires Select(cs, ns, parent, fqdn) != []
    ensures k < |cs| && FirstSelected(cs, k, ns, parent, fqdn)
  {
    SelectFirst(cs, ns, parent, fqdn);
    k :| 0 <= k < |cs| && cs[k] == Select(cs, ns, parent, fqdn)[0]
      && forall m :: 0 <= m < k ==> !Selected(cs[m], ns, parent, fqdn);
    assert Select(cs, ns, parent, fqdn)[0] in Select(cs, ns, parent, fqdn);
  }

  /** A successful step leaves the first child listed for p's host carrying p. */
  lemma ApplyOneLeads(cs: seq<HTTPProxy>, faults: set<Op>, ing: Ingress, p: HTTPProxy)
    requires UniqueKeys(cs) && Desired(ing, p)
    requires ApplyOne(cs, faults, ing, p).outcome.Pass?
    ensures Leads(ApplyOne(cs, faults, ing, p).children, ing, p)
  {
    var ns, name, h := ing.namespace, ing.name, FqdnOf(p);
    var next := ApplyOne(cs, faults, ing, p).children;
    if Select(cs, ns, name, h) == [] {
      ApplyOneCreates(cs, faults, ing, p);
      NoneSelected(cs, ns, name, h);
      assert FirstSelected(next, |cs|, ns, name, h);
      assert Carries(next[|cs|], p);
    } else {
      var k := FirstMatch(cs, ns, name, h);
      ApplyOneUpdateAt(cs, faults, ing, p, k);
      assert FirstSelected(next, k, ns, name, h);
      assert Carries(next[k], p);
    }
  }

  /** A step for another host leaves the first child listed for p's host where it is. */
  lemma ApplyOneKeepsLead(cs: seq<HTTPProxy>, faults: set<Op>, ing: Ingress, p: HTTPProxy, q: HTTPProxy)
    requires UniqueKeys(cs) && Desired(ing, p) && Desired(ing, q)
    requires Leads(cs, ing, p) && FqdnOf(q) != FqdnOf(p)
    ensures Leads(ApplyOne(cs, faults, ing, q).children, ing, p)
  {
    var ns, name, hp, hq := ing.namespace, ing.name, FqdnOf(p), FqdnOf(q);
    var k :| 0 <= k < |cs| && FirstSelected(cs, k, ns, name, hp) && Carries(cs[k], p);
    var a := ApplyOne(cs, faults, ing, q);
    if a.outcome.Fail? {
      assert FirstSelected(a.children, k, ns, name, hp);
    } else if Select(cs, ns, name, hq) == [] {
      ApplyOneCreates(cs, faults, ing, q);
      assert a.children[k] == cs[k];
      assert FirstSelected(a.children, k, ns, name, hp);
    } else {
      var k' := FirstMatch(cs, ns, name, hq);
      ApplyOneUpdateAt(cs, faults, ing, q, k');
      assert k' != k;
      assert a.children[k] == cs[k];
      assert FirstSelected(a.children, k, ns, name, hp);
    }
  }

  lemma {:induction false} ApplyAllKeepsLead(cs: seq<HTTPProxy>, faults: set<Op>, ing: Ingress, ps: seq<HTTPProxy>, p: HTTPProxy)
    requires UniqueKeys(cs) && Desired(ing, p) && AllDesired(ing, ps)
    requires Leads(cs, ing, p) && forall q <- ps :: FqdnOf(q) != FqdnOf(p)
    ensures Leads(ApplyAll(cs, faults, ing, ps).children, ing, p)
    decreases |ps|
  {
    if ps != [] {
      ApplyOneKeepsLead(cs, faults, ing, p, ps[0]);
      ApplyOneFrame(cs, faults, ing, ps[0]);
      var a := ApplyOne(cs, faults, ing, ps[0]);
      if a.outcome.Pass? {
        ApplyAllKeepsLead(a.children, faults, ing, ps[1..], p);
      }
    }
  }

  /** After a successful loop, the first child listed for each host carries
      the last child synthesized for that host. */
  lemma {:induction false} ApplyAllLeads(cs: seq<HTTPProxy>, faults: set<Op>, ing: Ingress, ps: seq<HTTPProxy>)
    requires UniqueKeys(cs) && AllDesired(ing, ps)
    requires ApplyAll(cs, faults, ing, ps).outcome.Pass?
    ensures forall i :: 0 <= i < |ps| && LastForHost(ps, i) ==> Leads(ApplyAll(cs, faults, ing, ps).children, ing, ps[i])
    decreases |ps|
  {
    if ps != [] {
      var a := ApplyOne(cs, faults, ing, ps[0]);
      assert a.outcome.Pass? && ApplyAll(cs, faults, ing, ps) == ApplyAll(a.children, faults, ing, ps[1..]);
      ApplyOneFrame(cs, faults, ing, ps[0]);
      ApplyAllLeads(a.children, faults, ing, ps[1..]);
      forall i | 0 <= i < |ps| && LastForHost(ps, i)
        ensures Leads(ApplyAll(cs, faults, ing, ps).children, ing, ps[i])
      {
        if i == 0 {
          ApplyOneLeads(cs, faults, ing, ps[0]);
          LastAtHead(ps);
          ApplyAllKeepsLead(a.children, faults, ing, ps[1..], ps[0]);
        } else {
          assert ps[1..][i - 1] == ps[i];
          assert LastForHost(ps[1..], i - 1);
        }
      }
    }
  }

  /** The sweep keeps the first child listed for a host first, when it is current. */
  lemma {:induction false} SweepKeepsFirst(cs: seq<HTTPProxy>, ns: string, parent: string, generation: string, fqdn: string, k: nat)
    requires k < |cs| && FirstSelected(cs, k, ns, parent, fqdn) && !Stale(cs[k], ns, parent, generation)
    ensures var w := WithoutStale(cs, ns, parent, generation);
      exists k' :: 0 <= k' < |w| && FirstSelected(w, k', ns, parent, fqdn) && w[k'] == cs[k]
  {
    var rest := WithoutStale(cs[1..], ns, parent, generation);
    if k == 0 {
      var w := [cs[0]] + rest;
      assert WithoutStale(cs, ns, parent, generation) == w;
      assert FirstSelected(w, 0, ns, parent, fqdn);
    } else {
      assert FirstSelected(cs[1..], k - 1, ns, parent, fqdn) by {
        forall m | 0 <= m < k - 1 ensures !Selected(cs[1..][m], ns, parent, fqdn) {
          assert cs[1..][m] == cs[m + 1];
        }
      }
      SweepKeepsFirst(cs[1..], ns, parent, generation, fqdn, k - 1);
      var j :| 0 <= j < |rest| && FirstSelected(rest, j, ns, parent, fqdn) && rest[j] == cs[k];
      if !Stale(cs[0], ns, parent, generation) {
        var w := [cs[0]] + rest;
        assert WithoutStale(cs, ns, parent, generation) == w;
        assert FirstSelected(w, j + 1, ns, parent, fqdn) by {
          forall m | 0 <= m < j + 1 ensures !Selected(w[m], ns, parent, fqdn) {
            if m > 0 {
              assert w[m] == rest[m - 1];
            }
          }
        }
        assert w[j + 1] == cs[k];
      }
    }
  }

  /** After a successful sync, the first child the selector lists for each
      host carries the last child synthesized for that host: it is the one
      the next sync's update for that host will overwrite. */
  lemma SyncLeads(lib: Library, ing: Ingress, cs: seq<HTTPProxy>, faults: set<Op>)
    requires UniqueKeys(cs)
    requires ReconcileProxiesSpec(lib, ing, cs, faults).outcome.Pass?
    ensures Synthesize(lib, ing).Success?
    ensures var ps := Synthesize(lib, ing).value;
      forall i :: 0 <= i < |ps| && LastForHost(ps, i) ==> Leads(ReconcileProxiesSpec(lib, ing, cs, faults).children, ing, ps[i])
  {
    var ps := Synthesize(lib, ing).value;
    var ns, name, g := ing.namespace, ing.name, DecimalString(ing.generation);
    SpecAfterLoop(lib, ing, cs, faults);
    var a := ApplyAll(cs, faults, ing, ps);
    ApplyAllLeads(cs, faults, ing, ps);
    forall i | 0 <= i < |ps| && LastForHost(ps, i)
      ensures Leads(WithoutStale(a.children, ns, name, g), ing, ps[i])
    {
      assert ps[i] in ps;
      var k :| 0 <= k < |a.children| && FirstSelected(a.children, k, ns, name, FqdnOf(ps[i])) && Carries(a.children[k], ps[i]);
      SweepKeepsFirst(a.children, ns, name, g, FqdnOf(ps[i]), k);
    }
  }

  // ---------------------------------------------------------------------
  // A second sync

  /** c and d agree on what an update keeps (namespace, name, owners) and
      on the labels the selectors read. */
  predicate SameSlot(c: HTTPProxy, d: HTTPProxy) {
    && c.meta.namespace == d.meta.namespace
    && c.meta.name == d.meta.name
    && c.meta.ownerRefs == d.meta.ownerRefs
    && (ParentLabel in c.meta.labels <==> ParentLabel in d.meta.labels)
    && (ParentLabel in c.meta.labels ==> c.meta.labels[ParentLabel] == d.meta.labels[ParentLabel])
    && (FqdnLabel in c.meta.labels <==> FqdnLabel in d.meta.labels)
    && (FqdnLabel in c.meta.labels ==> c.meta.labels[FqdnLabel] == d.meta.labels[FqdnLabel])
  }

  /** s is ref part-way through a replay of qs: the same slots, and a child
      differs from ref only where it is the first child listed for a host
      that qs has still to write. */
  ghost predicate Replaying(s: seq<HTTPProxy>, ref: seq<HTTPProxy>, ing: Ingress, qs: seq<HTTPProxy>) {
    && |s| == |ref|
    && (forall k :: 0 <= k < |s| ==> SameSlot(s[k], ref[k]))
    && (forall k :: 0 <= k < |s| && s[k] != ref[k] ==>
          exists j :: 0 <= j < |qs| && FirstSelected(ref, k, ing.namespace, ing.name, FqdnOf(qs[j])))
  }

  /** ref is what a sync of qs leaves: unique keys, and the first child
      listed for each host carries the last child of qs for that host. */
  ghost predicate Settled(ref: seq<HTTPProxy>, ing: Ingress, qs: seq<HTTPProxy>) {
    && UniqueKeys(ref)
    && forall j :: 0 <= j < |qs| && LastForHost(qs, j) ==> Leads(ref, ing, qs[j])
  }

  /** A store with the same slots as ref lists the same first child for
      every host and has unique keys when ref has. */
  lemma SameSlots(s: seq<HTTPProxy>, ref: seq<HTTPProxy>, ns: string, parent: string, h: string, k: nat)
    requires |s| == |ref| && (forall i :: 0 <= i < |s| ==> SameSlot(s[i], ref[i])) && UniqueKeys(ref)
    requires k < |ref| && FirstSelected(ref, k, ns, parent, h)
    ensures UniqueKeys(s) && FirstSelected(s, k, ns, parent, h)
  {
    forall m | 0 <= m < k ensures !Selected(s[m], ns, parent, h) {
      assert SameSlot(s[m], ref[m]);
    }
    assert SameSlot(s[k], ref[k]);
    forall i, i' | 0 <= i < i' < |s| ensures KeyOf(s[i]) != KeyOf(s[i']) {
      assert SameSlot(s[i], ref[i]) && SameSlot(s[i'], ref[i']);
    }
  }

  /** A settled store stays settled for the rest of the children. */
  lemma SettledSuffix(ref: seq<HTTPProxy>, ing: Ingress, qs: seq<HTTPProxy>)
    requires |qs| > 0 && Settled(ref, ing, qs)
    ensures Settled(ref, ing, qs[1..])
  {
    forall j' | 0 <= j' < |qs[1..]| && LastForHost(qs[1..], j') ensures Leads(ref, ing, qs[1..][j']) {
      assert qs[1..][j'] == qs[j' + 1];
      assert LastForHost(qs, j' + 1);
    }
  }

  /** One replayed step: the update of the first child for qs[0]'s host
      keeps the replay on track for the rest of qs. */
  lemma ReplayStep(s: seq<HTTPProxy>, ref: seq<HTTPProxy>, ing: Ingress, qs: seq<HTTPProxy>, k: nat)
    requires |qs| > 0 && Desired(ing, qs[0]) && Replaying(s, ref, ing, qs)
    requires k < |ref| && FirstSelected(ref, k, ing.namespace, ing.name, FqdnOf(qs[0]))
    requires LastForHost(qs, 0) ==> Carries(ref[k], qs[0])
    ensures Replaying(s[k := Overwrite(s[k], qs[0])], ref, ing, qs[1..])
  {
    var ns, name, h := ing.namespace, ing.name, FqdnOf(qs[0]);
    var u := Overwrite(s[k], qs[0]);
    var next := s[k := u];
    assert SameSlot(s[k], ref[k]);
    assert SameSlot(u, ref[k]);
    if LastForHost(qs, 0) {
      assert u.meta == ref[k].meta;
    }
    forall k2 | 0 <= k2 < |next| && next[k2] != ref[k2]
      ensures exists j2 :: 0 <= j2 < |qs[1..]| && FirstSelected(ref, k2, ns, name, FqdnOf(qs[1..][j2]))
    {
      if k2 == k {
        var j :| 0 < j < |qs| && FqdnOf(qs[j]) == h;
        assert qs[1..][j - 1] == qs[j];
      } else {
        var j2 :| 0 <= j2 < |qs| && FirstSelected(ref, k2, ns, name, FqdnOf(qs[j2]));
        assert j2 > 0;
        assert qs[1..][j2 - 1] == qs[j2];
      }
    }
  }

  /** Replaying the loop over a settled store restores it exactly, and
      succeeds when the store does not fail: every host already has a first
      child, so nothing is created, and its last update writes back what
      the child already carries. */
  lemma {:induction false} ReplayRestores(s: seq<HTTPProxy>, ref: seq<HTTPProxy>, faults: set<Op>, ing: Ingress, qs: seq<HTTPProxy>)
    requires AllDesired(ing, qs) && Settled(ref, ing, qs) && Replaying(s, ref, ing, qs)
    ensures ApplyAll(s, faults, ing, qs).outcome.Pass? ==> ApplyAll(s, faults, ing, qs).children == ref
    ensures faults == {} ==> ApplyAll(s, faults, ing, qs).outcome.Pass?
    decreases |qs|
  {
    if qs == [] {
      forall k | 0 <= k < |s| ensures s[k] == ref[k] {
      }
      assert s == ref;
    } else {
      var p := qs[0];
      assert p in qs;
      LastExists(qs, 0);
      var j :| 0 <= j < |qs| && LastForHost(qs, j) && FqdnOf(qs[j]) == FqdnOf(p);
      var k :| 0 <= k < |ref| && FirstSelected(ref, k, ing.namespace, ing.name, FqdnOf(p)) && Carries(ref[k], qs[j]);
      SameSlots(s, ref, ing.namespace, ing.name, FqdnOf(p), k);
      ApplyOneUpdateAt(s, faults, ing, p, k);
      var a := ApplyOne(s, faults, ing, p);
      if a.outcome.Pass? {
        ReplayStep(s, ref, ing, qs, k);
        SettledSuffix(ref, ing, qs);
        ReplayRestores(a.children, ref, faults, ing, qs[1..]);
      }
    }
  }

  lemma {:induction false} NothingStaleSwept(cs: seq<HTTPProxy>, ns: string, parent: string, generation: string)
    requires forall c <- cs :: !Stale(c, ns, parent, generation)
    ensures WithoutStale(cs, ns, parent, generation) == cs
  {
    if cs != [] {
      assert cs[0] in cs;
      NothingStaleSwept(cs[1..], ns, parent, generation);
      assert [cs[0]] + cs[1..] == cs;
    }
  }

  /** reconcileProxies is idempotent: run again on the store a successful
      sync left, whatever the store's faults, a second sync that succeeds
      leaves every child exactly as it found it, and with no fault the
      second sync does succeed. */
  lemma ReconcileProxiesIdempotent(lib: Library, ing: Ingress, cs: seq<HTTPProxy>, faults: set<Op>, faults2: set<Op>)
    requires UniqueKeys(cs)
    requires ReconcileProxiesSpec(lib, ing, cs, faults).outcome.Pass?
    ensures var first := ReconcileProxiesSpec(lib, ing, cs, faults).children;
      var second := ReconcileProxiesSpec(lib, ing, first, faults2);
      && (second.outcome.Pass? ==> second.children == first)
      && (faults2 == {} ==> second.outcome.Pass?)
  {
    var first := ReconcileProxiesSpec(lib, ing, cs, faults).children;
    var ps := Synthesize(lib, ing).value;
    SyncLeads(lib, ing, cs, faults);
    ReconcileProxiesKeepsOthers(lib, ing, cs, faults);
    SynthesizedDesired(lib, ing);
    assert Replaying(first, first, ing, ps);
    ReplayRestores(first, first, faults2, ing, ps);
    SpecAfterLoop(lib, ing, first, faults2);
    SyncedChildrenAreCurrent(lib, ing, cs, faults);
    NothingStaleSwept(first, ing.namespace, ing.name, DecimalString(ing.generation));
  }

  // ---------------------------------------------------------------------
  // A sync after a generation bump

  /** Every child of this Ingress at its current generation is the first
      child listed for its host, and that host is one of hosts. */
  ghost predicate CurrentAreFirst(cs: seq<HTTPProxy>, ing: Ingress, hosts: set<string>) {
    forall k :: 0 <= k < |cs| && Owned(cs[k], ing.namespace, ing.name)
                && HasLabel(cs[k].meta.labels, GenerationLabel, DecimalString(ing.generation)) ==>
      && FqdnLabel in cs[k].meta.labels
      && cs[k].meta.labels[FqdnLabel] in hosts
      && FirstSelected(cs, k, ing.namespace, ing.name, cs[k].meta.labels[FqdnLabel])
  }

  lemma ApplyOneCurrentFirst(cs: seq<HTTPProxy>, faults: set<Op>, ing: Ingress, p: HTTPProxy, hosts: set<string>)
    requires UniqueKeys(cs) && Desired(ing, p) && CurrentAreFirst(cs, ing, hosts)
    ensures CurrentAreFirst(ApplyOne(cs, faults, ing, p).children, ing, hosts + {FqdnOf(p)})
  {
    var ns, name, g, h := ing.namespace, ing.name, DecimalString(ing.generation), FqdnOf(p);
    var a := ApplyOne(cs, faults, ing, p);
    if a.outcome.Fail? {
      assert a.children == cs;
    } else if Select(cs, ns, name, h) == [] {
      ApplyOneCreates(cs, faults, ing, p);
      NoneSelected(cs, ns, name, h);
      assert FirstSelected(a.children, |cs|, ns, name, h);
      forall k | 0 <= k < |cs| && Owned(cs[k], ns, name) && HasLabel(cs[k].meta.labels, GenerationLabel, g)
        ensures FirstSelected(a.children, k, ns, name, cs[k].meta.labels[FqdnLabel])
      {
        assert a.children[k] == cs[k];
      }
    } else {
      var k0 := FirstMatch(cs, ns, name, h);
      ApplyOneUpdateAt(cs, faults, ing, p, k0);
      var u := Overwrite(cs[k0], p);
      assert a.children == cs[k0 := u];
      assert FirstSelected(a.children, k0, ns, name, h);
      forall k | 0 <= k < |cs| && k != k0 && Owned(cs[k], ns, name) && HasLabel(cs[k].meta.labels, GenerationLabel, g)
        ensures FirstSelected(a.children, k, ns, name, cs[k].meta.labels[FqdnLabel])
      {
        assert cs[k].meta.labels[FqdnLabel] != h;
        assert a.children[k] == cs[k];
      }
    }
  }

  lemma HostsOfCons(ps: seq<HTTPProxy>)
    requires ps != []
    ensures HostsOf(ps) == {FqdnOf(ps[0])} + HostsOf(ps[1..])
  {
    assert ps == [ps[0]] + ps[1..];
  }

  lemma CurrentAreFirstWiden(cs: seq<HTTPProxy>, ing: Ingress, hosts: set<string>, more: set<string>)
    requires CurrentAreFirst(cs, ing, hosts) && hosts <= more
    ensures CurrentAreFirst(cs, ing, more)
  {
  }

  lemma {:induction false} ApplyAllCurrentFirst(cs: seq<HTTPProxy>, faults: set<Op>, ing: Ingress, ps: seq<HTTPProxy>, hosts: set<string>)
    requires UniqueKeys(cs) && AllDesired(ing, ps) && CurrentAreFirst(cs, ing, hosts)
    ensures CurrentAreFirst(ApplyAll(cs, faults, ing, ps).children, ing, hosts + HostsOf(ps))
    decreases |ps|
  {
    if ps == [] {
      assert hosts + HostsOf(ps) == hosts;
    } else {
      var a := ApplyOne(cs, faults, ing, ps[0]);
      HostsOfCons(ps);
      var hosts' := hosts + {FqdnOf(ps[0])};
      assert hosts' + HostsOf(ps[1..]) == hosts + HostsOf(ps);
      if a.outcome.Fail? {
        assert ApplyAll(cs, faults, ing, ps) == a;
        assert a.children == cs;
        CurrentAreFirstWiden(cs, ing, hosts, hosts + HostsOf(ps));
      } else {
        assert ApplyAll(cs, faults, ing, ps) == ApplyAll(a.children, faults, ing, ps[1..]);
        ApplyOneCurrentFirst(cs, faults, ing, ps[0], hosts);
        ApplyOneFrame(cs, faults, ing, ps[0]);
        ApplyAllCurrentFirst(a.children, faults, ing, ps[1..], hosts');
      }
    }
  }

  /** After the sweep, two children of this Ingress that serve the same host
      are the same child, and each serves one of hosts. */
  lemma SweptCurrentAreFirst(cs: seq<HTTPProxy>, ing: Ingress, hosts: set<string>)
    requires CurrentAreFirst(cs, ing, hosts)
    ensures var r := WithoutStale(cs, ing.namespace, ing.name, DecimalString(ing.generation));
      && (forall c, d, h :: c in r && d in r && Selected(c, ing.namespace, ing.name, h) && Selected(d, ing.namespace, ing.name, h) ==> c == d)
      && (forall c <- r :: Owned(c, ing.namespace, ing.name) ==> FqdnLabel in c.meta.labels && c.meta.labels[FqdnLabel] in hosts)
  {
    var ns, name, g := ing.namespace, ing.name, DecimalString(ing.generation);
    var r := WithoutStale(cs, ns, name, g);
    forall c, d, h | c in r && d in r && Selected(c, ns, name, h) && Selected(d, ns, name, h) ensures c == d {
      var kc :| 0 <= kc < |cs| && cs[kc] == c;
      var kd :| 0 <= kd < |cs| && cs[kd] == d;
      assert FirstSelected(cs, kc, ns, name, h);
      assert FirstSelected(cs, kd, ns, name, h);
    }
    forall c <- r | Owned(c, ns, name) ensures FqdnLabel in c.meta.labels && c.meta.labels[FqdnLabel] in hosts {
      var kc :| 0 <= kc < |cs| && cs[kc] == c;
    }
  }

  /** After a successful sync every synthesized host is served by some child. */
  lemma EveryHostServed(lib: Library, ing: Ingress, cs: seq<HTTPProxy>, faults: set<Op>)
    requires UniqueKeys(cs)
    requires ReconcileProxiesSpec(lib, ing, cs, faults).outcome.Pass?
    ensures Synthesize(lib, ing).Success?
    ensures var ps := Synthesize(lib, ing).value;
      var r := ReconcileProxiesSpec(lib, ing, cs, faults).children;
      forall i :: 0 <= i < |ps| ==> exists c <- r :: Selected(c, ing.namespace, ing.name, FqdnOf(ps[i]))
  {
    var ps := Synthesize(lib, ing).value;
    var r := ReconcileProxiesSpec(lib, ing, cs, faults).children;
    SynthesizedDesired(lib, ing);
    SyncRealizesDesired(lib, ing, cs, faults);
    forall i | 0 <= i < |ps| ensures exists c <- r :: Selected(c, ing.namespace, ing.name, FqdnOf(ps[i])) {
      LastExists(ps, i);
      var j :| i <= j < |ps| && LastForHost(ps, j) && FqdnOf(ps[j]) == FqdnOf(ps[i]);
      assert ps[j] in ps;
      var c :| c in r && Carries(c, ps[j]);
      assert Selected(c, ing.namespace, ing.name, FqdnOf(ps[i]));
    }
  }

  /** After a generation bump (no child of this Ingress carries the current
      generation yet), a successful sync leaves exactly one child of this
      Ingress per synthesized host, and none for any other host. */
  lemma BumpLeavesOneChildPerHost(lib: Library, ing: Ingress, cs: seq<HTTPProxy>, faults: set<Op>)
    requires UniqueKeys(cs)
    requires forall c <- cs :: Owned(c, ing.namespace, ing.name) ==> !HasLabel(c.meta.labels, GenerationLabel, DecimalString(ing.generation))
    requires ReconcileProxiesSpec(lib, ing, cs, faults).outcome.Pass?
    ensures Synthesize(lib, ing).Success?
    ensures var ps := Synthesize(lib, ing).value;
      var r := ReconcileProxiesSpec(lib, ing, cs, faults).children;
      && UniqueKeys(r)
      && (forall i :: 0 <= i < |ps| ==> exists c <- r :: Selected(c, ing.namespace, ing.name, FqdnOf(ps[i])))
      && (forall c, d, h :: c in r && d in r && Selected(c, ing.namespace, ing.name, h) && Selected(d, ing.namespace, ing.name, h) ==> c == d)
      && (forall c <- r :: Owned(c, ing.namespace, ing.name) ==> FqdnLabel in c.meta.labels && c.meta.labels[FqdnLabel] in HostsOf(ps))
  {
    var ps := Synthesize(lib, ing).value;
    var ns, name, g := ing.namespace, ing.name, DecimalString(ing.generation);
    SpecAfterLoop(lib, ing, cs, faults);
    var a := ApplyAll(cs, faults, ing, ps);
    assert CurrentAreFirst(cs, ing, {}) by {
      forall k | 0 <= k < |cs| ensures !(Owned(cs[k], ns, name) && HasLabel(cs[k].meta.labels, GenerationLabel, g)) {
        assert cs[k] in cs;
      }
    }
    ApplyAllCurrentFirst(cs, faults, ing, ps, {});
    assert {} + HostsOf(ps) == HostsOf(ps);
    SweptCurrentAreFirst(a.children, ing, HostsOf(ps));
    ReconcileProxiesKeepsOthers(lib, ing, cs, faults);
    EveryHostServed(lib, ing, cs, faults);
  }

  // ---------------------------------------------------------------------
  // A duplicate at the current generation

  /** Child c sits at k2, serves host h, and an earlier child also serves h. */
  ghost predicate Shadowed(s: seq<HTTPProxy>, ing: Ingress, h: string, k2: nat, c: HTTPProxy) {
    && k2 < |s| && s[k2] == c && Selected(c, ing.namespace, ing.name, h)
    && exists m :: 0 <= m < k2 && Selected(s[m], ing.namespace, ing.name, h)
  }

  lemma ApplyOneKeepsShadowed(cs: seq<HTTPProxy>, faults: set<Op>, ing: Ingress, p: HTTPProxy, h: string, k2: nat, c: HTTPProxy)
    requires UniqueKeys(cs) && Desired(ing, p) && Shadowed(cs, ing, h, k2, c)
    ensures Shadowed(ApplyOne(cs, faults, ing, p).children, ing, h, k2, c)
  {
    var ns, name, hp := ing.namespace, ing.name, FqdnOf(p);
    var m :| 0 <= m < k2 && Selected(cs[m], ns, name, h);
    var a := ApplyOne(cs, faults, ing, p);
    if a.outcome.Fail? {
      assert a.children == cs;
    } else if Select(cs, ns, name, hp) == [] {
      ApplyOneCreates(cs, faults, ing, p);
      assert a.children[m] == cs[m];
    } else {
      var k0 := FirstMatch(cs, ns, name, hp);
      ApplyOneUpdateAt(cs, faults, ing, p, k0);
      assert a.children == cs[k0 := Overwrite(cs[k0], p)];
      if hp == h {
        assert k0 <= m;
        assert Selected(a.children[k0], ns, name, h);
      } else {
        assert k0 != k2 && k0 != m;
        assert a.children[m] == cs[m];
      }
    }
  }

  lemma {:induction false} ApplyAllKeepsShadowed(cs: seq<HTTPProxy>, faults: set<Op>, ing: Ingress, ps: seq<HTTPProxy>, h: string, k2: nat, c: HTTPProxy)
    requires UniqueKeys(cs) && AllDesired(ing, ps) && Shadowed(cs, ing, h, k2, c)
    ensures Shadowed(ApplyAll(cs, faults, ing, ps).children, ing, h, k2, c)
    decreases |ps|
  {
    if ps != [] {
      ApplyOneKeepsShadowed(cs, faults, ing, ps[0], h, k2, c);
      ApplyOneFrame(cs, faults, ing, ps[0]);
      var a := ApplyOne(cs, faults, ing, ps[0]);
      if a.outcome.Pass? {
        ApplyAllKeepsShadowed(a.children, faults, ing, ps[1..], h, k2, c);
      }
    }
  }

  /** When the host is synthesized, the child leading it and a shadowed
      child at the current generation both survive the sweep. */
  lemma LeadBesideShadowed(a: seq<HTTPProxy>, ing: Ingress, ps: seq<HTTPProxy>, h: string, k2: nat, c: HTTPProxy)
    requires UniqueKeys(a) && AllDesired(ing, ps) && Shadowed(a, ing, h, k2, c)
    requires forall i :: 0 <= i < |ps| && LastForHost(ps, i) ==> Leads(a, ing, ps[i])
    requires h in HostsOf(ps)
    ensures exists d <- WithoutStale(a, ing.namespace, ing.name, DecimalString(ing.generation)) ::
      Selected(d, ing.namespace, ing.name, h) && KeyOf(d) != KeyOf(c)
  {
    var ns, name, g := ing.namespace, ing.name, DecimalString(ing.generation);
    var q :| q in ps && FqdnOf(q) == h;
    var i :| 0 <= i < |ps| && ps[i] == q;
    LastExists(ps, i);
    var j :| i <= j < |ps| && LastForHost(ps, j) && FqdnOf(ps[j]) == h;
    assert ps[j] in ps;
    var kl :| 0 <= kl < |a| && FirstSelected(a, kl, ns, name, h) && Carries(a[kl], ps[j]);
    var m :| 0 <= m < k2 && Selected(a[m], ns, name, h);
    assert kl <= m < k2;
    assert KeyOf(a[kl]) != KeyOf(c);
    assert a[kl] in a;
    assert !Stale(a[kl], ns, name, g);
  }

  /** As written, the sync neither updates nor sweeps a second child for a
      host when it comes after another child for that host and already
      carries the current generation: it survives unchanged, and when the
      host is synthesized a child with another name serves it as well. */
  lemma DuplicateSurvivesSweep(lib: Library, ing: Ingress, cs: seq<HTTPProxy>, faults: set<Op>, h: string, k1: nat, k2: nat)
    requires UniqueKeys(cs) && k1 < k2 < |cs|
    requires Selected(cs[k1], ing.namespace, ing.name, h) && Selected(cs[k2], ing.namespace, ing.name, h)
    requires HasLabel(cs[k2].meta.labels, GenerationLabel, DecimalString(ing.generation))
    requires ReconcileProxiesSpec(lib, ing, cs, faults).outcome.Pass?
    ensures Synthesize(lib, ing).Success?
    ensures var r := ReconcileProxiesSpec(lib, ing, cs, faults).children;
      && cs[k2] in r
      && (h in HostsOf(Synthesize(lib, ing).value) ==>
            exists c <- r :: Selected(c, ing.namespace, ing.name, h) && KeyOf(c) != KeyOf(cs[k2]))
  {
    var ps := Synthesize(lib, ing).value;
    var ns, name, g := ing.namespace, ing.name, DecimalString(ing.generation);
    SpecAfterLoop(lib, ing, cs, faults);
    var a := ApplyAll(cs, faults, ing, ps);
    ApplyAllKeepsShadowed(cs, faults, ing, ps, h, k2, cs[k2]);
    ApplyAllFrame(cs, faults, ing, ps);
    assert !Stale(cs[k2], ns, name, g);
    assert a.children[k2] in a.children;
    if h in HostsOf(ps) {
      ApplyAllLeads(cs, faults, ing, ps);
      LeadBesideShadowed(a.children, ing, ps, h, k2, cs[k2]);
    }
  }
}
