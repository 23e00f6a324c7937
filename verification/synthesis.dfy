/** Desired-state synthesis: the HTTPProxy children an Ingress calls for
    (MakeHTTPProxies). One child per (rule, host) pair, rule by rule and host
    by host; the whole synthesis fails if a rule has other than one path. */
module Synthesis {
  import opened Api
  import opened Decimal

  // ---------------------------------------------------------------------
  // The specification: pure functions built the way the loops build them

  function ClassFor(v: Visibility): string {
    if v == ClusterLocal then ContourInternalClass else ContourClass
  }

  function TimeoutFor(lib: Library, path: HTTPPath): Option<TimeoutPolicy> {
    if path.timeout.Some? then Some(TimeoutPolicy(lib.durationString(path.timeout.value))) else None
  }

  function RetryFor(lib: Library, path: HTTPPath): Option<RetryPolicy> {
    if path.retries.Some?
    then Some(RetryPolicy(path.retries.value.attempts, lib.durationString(path.retries.value.perTryTimeout)))
    else None
  }

  function ServiceFor(lib: Library, split: Split): Service {
    Service(split.serviceName, lib.portValue(split.servicePort), split.percent)
  }

  /** The backends of a path, one per split, in the splits' order. */
  function ServicesFor(lib: Library, splits: seq<Split>): (svcs: seq<Service>)
    ensures |svcs| == |splits|
    ensures forall k :: 0 <= k < |splits| ==> svcs[k] == ServiceFor(lib, splits[k])
  {
    if splits == [] then []
    else ServicesFor(lib, splits[..|splits| - 1]) + [ServiceFor(lib, splits[|splits| - 1])]
  }

  function RouteFor(lib: Library, path: HTTPPath): Route {
    Route(TimeoutFor(lib, path), RetryFor(lib, path), ServicesFor(lib, path.splits))
  }

  function ControllerRef(ing: Ingress): OwnerRef {
    OwnerRef("Ingress", ing.name, true)
  }

  /** The object every host of a rule starts from: no name and no virtual host yet. */
  function BaseProxy(lib: Library, ing: Ingress, rule: Rule): HTTPProxy
    requires |rule.http.paths| == 1
  {
    HTTPProxy(
      ObjectMeta(
        ing.namespace,
        "",
        map[GenerationLabel := DecimalString(ing.generation), ParentLabel := ing.name],
        map[ClassAnnotation := ClassFor(rule.visibility)],
        [ControllerRef(ing)]),
      HTTPProxySpec(None, [RouteFor(lib, rule.http.paths[0])]))
  }

  /** A copy of the base named after the host, serving it and labelled with it. */
  function HostProxy(lib: Library, ing: Ingress, base: HTTPProxy, host: string): HTTPProxy {
    HTTPProxy(
      base.meta.(name := lib.childName(ing.name, host), labels := base.meta.labels[FqdnLabel := host]),
      base.spec.(virtualHost := Some(VirtualHost(host))))
  }

  function HostProxies(lib: Library, ing: Ingress, base: HTTPProxy, hosts: seq<string>): (ps: seq<HTTPProxy>)
    ensures |ps| == |hosts|
    ensures forall k :: 0 <= k < |hosts| ==> ps[k] == HostProxy(lib, ing, base, hosts[k])
  {
    if hosts == [] then []
    else HostProxies(lib, ing, base, hosts[..|hosts| - 1]) + [HostProxy(lib, ing, base, hosts[|hosts| - 1])]
  }

  function RuleProxies(lib: Library, ing: Ingress, rule: Rule): seq<HTTPProxy>
    requires |rule.http.paths| == 1
  {
    HostProxies(lib, ing, BaseProxy(lib, ing, rule), rule.hosts)
  }

  /** The outcome after the first n rules: an error at the first rule whose
      path count is not one, otherwise the children of those rules in order. */
  function ProxiesUpTo(lib: Library, ing: Ingress, n: nat): (r: Result<seq<HTTPProxy>>)
    requires n <= |ing.rules|
    ensures r.Failure? ==> r.error == UnsupportedPathCount
  {
    if n == 0 then Success([])
    else match ProxiesUpTo(lib, ing, n - 1)
      case Failure(e) => Failure(e)
      case Success(ps) =>
        var rule := ing.rules[n - 1];
        if |rule.http.paths| != 1 then Failure(UnsupportedPathCount)
        else Success(ps + RuleProxies(lib, ing, rule))
  }

  function Synthesize(lib: Library, ing: Ingress): (r: Result<seq<HTTPProxy>>)
    ensures r.Failure? ==> r.error == UnsupportedPathCount
  {
    ProxiesUpTo(lib, ing, |ing.rules|)
  }

  lemma {:induction false} ProxiesUpToIgnoresStatus(lib: Library, ing: Ingress, s: IngressStatus, n: nat)
    requires n <= |ing.rules|
    ensures ProxiesUpTo(lib, ing.(status := s), n) == ProxiesUpTo(lib, ing, n)
  {
    if n > 0 {
      ProxiesUpToIgnoresStatus(lib, ing, s, n - 1);
      var rule := ing.rules[n - 1];
      if |rule.http.paths| == 1 {
        assert RuleProxies(lib, ing.(status := s), rule) == RuleProxies(lib, ing, rule);
      }
    }
  }

  /** The children depend on the Ingress's metadata and rules, never on its
      status, so initializing the conditions first changes nothing. */
  lemma SynthesizeIgnoresStatus(lib: Library, ing: Ingress, s: IngressStatus)
    ensures Synthesize(lib, ing.(status := s)) == Synthesize(lib, ing)
  {
    ProxiesUpToIgnoresStatus(lib, ing, s, |ing.rules|);
  }

  // ---------------------------------------------------------------------
  // The implementation: the nested loops of MakeHTTPProxies

  /** The inner loop over a path's splits. */
  method MakeServices(lib: Library, splits: seq<Split>) returns (svcs: seq<Service>)
    ensures svcs == ServicesFor(lib, splits)
  {
    svcs := [];
    var k := 0;
    while k < |splits|
      invariant 0 <= k <= |splits|
      invariant svcs == ServicesFor(lib, splits[..k])
    {
      var split := splits[k];
      svcs := svcs + [Service(split.serviceName, lib.portValue(split.servicePort), split.percent)];
      k := k + 1;
      assert splits[..k][..k - 1] == splits[..k - 1];
    }
    assert splits[..k] == splits;
  }

  /** The inner loop over a rule's hosts: a copy of the base per host,
      renamed, given the host as virtual host and as fqdn label. */
  method AppendHostProxies(lib: Library, ing: Ingress, base: HTTPProxy, hosts: seq<string>, proxies: seq<HTTPProxy>)
    returns (r: seq<HTTPProxy>)
    ensures r == proxies + HostProxies(lib, ing, base, hosts)
  {
    r := proxies;
    var j := 0;
    while j < |hosts|
      invariant 0 <= j <= |hosts|
      invariant r == proxies + HostProxies(lib, ing, base, hosts[..j])
    {
      var host := hosts[j];
      var hostProxy := base;
      hostProxy := hostProxy.(meta := hostProxy.meta.(name := lib.childName(ing.name, host)));
      hostProxy := hostProxy.(spec := hostProxy.spec.(virtualHost := Some(VirtualHost(host))));
      hostProxy := hostProxy.(meta := hostProxy.meta.(labels := hostProxy.meta.labels[FqdnLabel := host]));
      r := r + [hostProxy];
      j := j + 1;
      assert hosts[..j][..j - 1] == hosts[..j - 1];
    }
    assert hosts[..j] == hosts;
  }

  method MakeHTTPProxies(lib: Library, ing: Ingress) returns (r: Result<seq<HTTPProxy>>)
    ensures r == Synthesize(lib, ing)
  {
    var proxies: seq<HTTPProxy> := [];
    var i := 0;
    while i < |ing.rules|
      invariant 0 <= i <= |ing.rules|
      invariant ProxiesUpTo(lib, ing, i) == Success(proxies)
    {
      var rule := ing.rules[i];
      var ingressClass := ContourClass;
      if rule.visibility == ClusterLocal {
        ingressClass := ContourInternalClass;
      }
      if |rule.http.paths| != 1 {
        FailureSticks(lib, ing, i + 1, |ing.rules|);
        return Failure(UnsupportedPathCount);
      }
      var path := rule.http.paths[0];

      var top: Option<TimeoutPolicy> := None;
      if path.timeout.Some? {
        top := Some(TimeoutPolicy(lib.durationString(path.timeout.value)));
      }
      var retry: Option<RetryPolicy> := None;
      if path.retries.Some? {
        retry := Some(RetryPolicy(path.retries.value.attempts, lib.durationString(path.retries.value.perTryTimeout)));
      }

      var svcs := MakeServices(lib, path.splits);

      var base := HTTPProxy(
        ObjectMeta(
          ing.namespace,
          "",
          map[GenerationLabel := DecimalString(ing.generation), ParentLabel := ing.name],
          map[ClassAnnotation := ingressClass],
          [ControllerRef(ing)]),
        HTTPProxySpec(None, [Route(top, retry, svcs)]));
      assert base == BaseProxy(lib, ing, rule);

      proxies := AppendHostProxies(lib, ing, base, rule.hosts, proxies);
      i := i + 1;
    }
    r := Success(proxies);
  }

  // ---------------------------------------------------------------------
  // What the children are, stated independently of how they are built

  /** The route carries the path's timeout and retries exactly when the path
      has them, and one backend per split with its name, port and weight. */
  ghost predicate TranslatesPath(lib: Library, path: HTTPPath, route: Route) {
    && (route.timeoutPolicy.Some? <==> path.timeout.Some?)
    && (path.timeout.Some? ==> route.timeoutPolicy.value.response == lib.durationString(path.timeout.value))
    && (route.retryPolicy.Some? <==> path.retries.Some?)
    && (path.retries.Some? ==>
          && route.retryPolicy.value.numRetries == path.retries.value.attempts
          && route.retryPolicy.value.perTryTimeout == lib.durationString(path.retries.value.perTryTimeout))
    && |route.services| == |path.splits|
    && (forall k :: 0 <= k < |path.splits| ==>
          && route.services[k].name == path.splits[k].serviceName
          && route.services[k].port == lib.portValue(path.splits[k].servicePort)
          && route.services[k].weight == path.splits[k].percent)
  }

  /** The child of `ing` for `host` of `rule`. */
  ghost predicate IsChildFor(lib: Library, ing: Ingress, rule: Rule, host: string, p: HTTPProxy)
    requires |rule.http.paths| == 1
  {
    && p.meta.namespace == ing.namespace
    && p.meta.name == lib.childName(ing.name, host)
    && p.meta.labels == map[ParentLabel := ing.name, GenerationLabel := DecimalString(ing.generation), FqdnLabel := host]
    && p.meta.annotations.Keys == {ClassAnnotation}
    && (rule.visibility == ClusterLocal ==> p.meta.annotations[ClassAnnotation] == "contour-internal")
    && (rule.visibility != ClusterLocal ==> p.meta.annotations[ClassAnnotation] == "contour")
    && p.meta.ownerRefs == [OwnerRef("Ingress", ing.name, true)]
    && p.spec.virtualHost == Some(VirtualHost(host))
    && |p.spec.routes| == 1
    && TranslatesPath(lib, rule.http.paths[0], p.spec.routes[0])
  }

  /** Number of children the first rules of a list yield: the sum of their host counts. */
  function HostCount(rules: seq<Rule>): nat {
    if rules == [] then 0 else HostCount(rules[..|rules| - 1]) + |rules[|rules| - 1].hosts|
  }

  /** Position of the child for host j of rule i in the synthesized list. */
  function Position(rules: seq<Rule>, i: nat, j: nat): nat
    requires i <= |rules|
  {
    HostCount(rules[..i]) + j
  }

  lemma {:induction false} HostCountStep(rules: seq<Rule>, i: nat)
    requires i < |rules|
    ensures HostCount(rules[..i + 1]) == HostCount(rules[..i]) + |rules[i].hosts|
  {
    assert rules[..i + 1][..i] == rules[..i];
  }

  lemma {:induction false} HostCountMonotone(rules: seq<Rule>, a: nat, b: nat)
    requires a <= b <= |rules|
    ensures HostCount(rules[..a]) <= HostCount(rules[..b])
    decreases b - a
  {
    if a < b {
      HostCountStep(rules, a);
      HostCountMonotone(rules, a + 1, b);
    }
  }

  lemma {:induction false} BaseHostProxyIsChild(lib: Library, ing: Ingress, rule: Rule, host: string)
    requires |rule.http.paths| == 1
    ensures IsChildFor(lib, ing, rule, host, HostProxy(lib, ing, BaseProxy(lib, ing, rule), host))
  {
    var p := HostProxy(lib, ing, BaseProxy(lib, ing, rule), host);
    assert p.meta.labels == map[ParentLabel := ing.name, GenerationLabel := DecimalString(ing.generation), FqdnLabel := host];
    assert p.meta.annotations == map[ClassAnnotation := ClassFor(rule.visibility)];
  }

  /** Synthesis fails once some rule has a path count other than one. */
  lemma {:induction false} FailureSticks(lib: Library, ing: Ingress, n: nat, m: nat)
    requires 0 < n <= m <= |ing.rules|
    requires |ing.rules[n - 1].http.paths| != 1
    ensures ProxiesUpTo(lib, ing, m).Failure?
    decreases m
  {
    if m > n {
      FailureSticks(lib, ing, n, m - 1);
    }
  }

  lemma {:induction false} ProxiesUpToSucceeds(lib: Library, ing: Ingress, n: nat)
    requires n <= |ing.rules|
    requires forall i :: 0 <= i < n ==> |ing.rules[i].http.paths| == 1
    ensures ProxiesUpTo(lib, ing, n).Success?
    decreases n
  {
    if n > 0 {
      ProxiesUpToSucceeds(lib, ing, n - 1);
    }
  }

  /** Synthesis fails, with "multiple paths is not supported", exactly when
      some rule has zero or several paths. */
  lemma SynthesizeFailsIff(lib: Library, ing: Ingress)
    ensures Synthesize(lib, ing).Failure? <==> exists i :: 0 <= i < |ing.rules| && |ing.rules[i].http.paths| != 1
    ensures Synthesize(lib, ing).Failure? ==> Synthesize(lib, ing).error == UnsupportedPathCount
  {
    if i :| 0 <= i < |ing.rules| && |ing.rules[i].http.paths| != 1 {
      FailureSticks(lib, ing, i + 1, |ing.rules|);
    } else {
      ProxiesUpToSucceeds(lib, ing, |ing.rules|);
    }
  }

  /** In ps, the child for host j of rule i sits at Position(i, j). */
  ghost predicate ChildAt(lib: Library, ing: Ingress, ps: seq<HTTPProxy>, i: nat, j: nat)
    requires i < |ing.rules| && j < |ing.rules[i].hosts|
  {
    && |ing.rules[i].http.paths| == 1
    && Position(ing.rules, i, j) < |ps|
    && IsChildFor(lib, ing, ing.rules[i], ing.rules[i].hosts[j], ps[Position(ing.rules, i, j)])
  }

  lemma ChildAtExtend(lib: Library, ing: Ingress, ps: seq<HTTPProxy>, more: seq<HTTPProxy>, i: nat, j: nat)
    requires i < |ing.rules| && j < |ing.rules[i].hosts|
    requires ChildAt(lib, ing, ps, i, j)
    ensures ChildAt(lib, ing, ps + more, i, j)
  {
    assert (ps + more)[Position(ing.rules, i, j)] == ps[Position(ing.rules, i, j)];
  }

  lemma ChildAtLastRule(lib: Library, ing: Ingress, n: nat, ps: seq<HTTPProxy>, j: nat)
    requires 0 < n <= |ing.rules| && j < |ing.rules[n - 1].hosts|
    requires |ing.rules[n - 1].http.paths| == 1
    requires |ps| == HostCount(ing.rules[..n - 1])
    ensures ChildAt(lib, ing, ps + RuleProxies(lib, ing, ing.rules[n - 1]), n - 1, j)
  {
    var rule := ing.rules[n - 1];
    BaseHostProxyIsChild(lib, ing, rule, rule.hosts[j]);
  }

  /** Appending rule n - 1's children to those of the rules before it. */
  lemma ShapeStep(lib: Library, ing: Ingress, n: nat, prev: seq<HTTPProxy>, ps: seq<HTTPProxy>)
    requires 0 < n <= |ing.rules| && |ing.rules[n - 1].http.paths| == 1
    requires |prev| == HostCount(ing.rules[..n - 1])
    requires forall i, j :: 0 <= i < n - 1 && 0 <= j < |ing.rules[i].hosts| ==> ChildAt(lib, ing, prev, i, j)
    requires ps == prev + RuleProxies(lib, ing, ing.rules[n - 1])
    ensures |ps| == HostCount(ing.rules[..n])
    ensures forall i, j :: 0 <= i < n && 0 <= j < |ing.rules[i].hosts| ==> ChildAt(lib, ing, ps, i, j)
  {
    var more := RuleProxies(lib, ing, ing.rules[n - 1]);
    HostCountStep(ing.rules, n - 1);
    forall i, j | 0 <= i < n && 0 <= j < |ing.rules[i].hosts|
      ensures ChildAt(lib, ing, ps, i, j)
    {
      if i < n - 1 {
        ChildAtExtend(lib, ing, prev, more, i, j);
      } else {
        ChildAtLastRule(lib, ing, n, prev, j);
      }
    }
  }

  /** After n rules: one child per host of each of those rules, the child for
      host j of rule i at Position(i, j). */
  lemma {:induction false} ProxiesUpToShape(lib: Library, ing: Ingress, n: nat)
    requires n <= |ing.rules|
    requires ProxiesUpTo(lib, ing, n).Success?
    ensures |ProxiesUpTo(lib, ing, n).value| == HostCount(ing.rules[..n])
    ensures forall i, j :: 0 <= i < n && 0 <= j < |ing.rules[i].hosts| ==>
      ChildAt(lib, ing, ProxiesUpTo(lib, ing, n).value, i, j)
    decreases n
  {
    if n > 0 {
      assert ProxiesUpTo(lib, ing, n - 1).Success?;
      ProxiesUpToShape(lib, ing, n - 1);
      var prev := ProxiesUpTo(lib, ing, n - 1).value;
      assert |ing.rules[n - 1].http.paths| == 1;
      assert ProxiesUpTo(lib, ing, n).value == prev + RuleProxies(lib, ing, ing.rules[n - 1]);
      ShapeStep(lib, ing, n, prev, ProxiesUpTo(lib, ing, n).value);
    }
  }

  /** A successful synthesis yields exactly one child per (rule, host) pair. */
  lemma SynthesizedCount(lib: Library, ing: Ingress)
    requires Synthesize(lib, ing).Success?
    ensures |Synthesize(lib, ing).value| == HostCount(ing.rules)
  {
    ProxiesUpToShape(lib, ing, |ing.rules|);
    assert ing.rules[..|ing.rules|] == ing.rules;
  }

  /** The child for host j of rule i sits at Position(i, j) and is that
      host's child: namespace, name, labels, class, owner, virtual host and
      the rule's translated route. */
  lemma SynthesizedChild(lib: Library, ing: Ingress, i: nat, j: nat)
    requires Synthesize(lib, ing).Success?
    requires i < |ing.rules| && j < |ing.rules[i].hosts|
    ensures |ing.rules[i].http.paths| == 1
    ensures Position(ing.rules, i, j) < |Synthesize(lib, ing).value|
    ensures IsChildFor(lib, ing, ing.rules[i], ing.rules[i].hosts[j], Synthesize(lib, ing).value[Position(ing.rules, i, j)])
  {
    ProxiesUpToShape(lib, ing, |ing.rules|);
    assert ChildAt(lib, ing, Synthesize(lib, ing).value, i, j);
  }

  /** Positions follow rule order first and host order within a rule. */
  lemma PositionOrder(rules: seq<Rule>, i: nat, j: nat, i2: nat, j2: nat)
    requires i < |rules| && j < |rules[i].hosts|
    requires i2 < |rules| && j2 < |rules[i2].hosts|
    ensures Position(rules, i, j) < Position(rules, i2, j2) <==> i < i2 || (i == i2 && j < j2)
  {
    if i < i2 {
      HostCountStep(rules, i);
      HostCountMonotone(rules, i + 1, i2);
    } else if i2 < i {
      HostCountStep(rules, i2);
      HostCountMonotone(rules, i2 + 1, i);
    }
  }

  /** Every position of a successful synthesis belongs to some (rule, host) pair. */
  lemma {:induction false} PositionsCover(lib: Library, ing: Ingress, n: nat, k: nat)
    requires n <= |ing.rules|
    requires k < HostCount(ing.rules[..n])
    ensures exists i, j :: 0 <= i < n && 0 <= j < |ing.rules[i].hosts| && k == Position(ing.rules, i, j)
    decreases n
  {
    HostCountStep(ing.rules, n - 1);
    if k < HostCount(ing.rules[..n - 1]) {
      PositionsCover(lib, ing, n - 1, k);
    } else {
      var j := k - HostCount(ing.rules[..n - 1]);
      assert k == Position(ing.rules, n - 1, j);
    }
  }

  /** Every synthesized child is the child of some (rule, host) pair. */
  lemma SynthesizedOnlyChildren(lib: Library, ing: Ingress, k: nat)
    requires Synthesize(lib, ing).Success?
    requires k < |Synthesize(lib, ing).value|
    ensures exists i, j :: 0 <= i < |ing.rules| && 0 <= j < |ing.rules[i].hosts| && k == Position(ing.rules, i, j)
  {
    SynthesizedCount(lib, ing);
    assert ing.rules[..|ing.rules|] == ing.rules;
    PositionsCover(lib, ing, |ing.rules|, k);
  }

  lemma RouteDetermined(lib: Library, path: HTTPPath, r1: Route, r2: Route)
    requires TranslatesPath(lib, path, r1) && TranslatesPath(lib, path, r2)
    ensures r1 == r2
  {
    assert r1.services == r2.services;
  }

  /** The children of one rule share its class and its route: the route is
      built once per rule, not once per host. */
  lemma SameRuleSameRoute(lib: Library, ing: Ingress, i: nat, j: nat, j2: nat)
    requires Synthesize(lib, ing).Success?
    requires i < |ing.rules| && j < |ing.rules[i].hosts| && j2 < |ing.rules[i].hosts|
    ensures Position(ing.rules, i, j) < |Synthesize(lib, ing).value|
    ensures Position(ing.rules, i, j2) < |Synthesize(lib, ing).value|
    ensures var ps := Synthesize(lib, ing).value;
      && ps[Position(ing.rules, i, j)].spec.routes == ps[Position(ing.rules, i, j2)].spec.routes
      && ps[Position(ing.rules, i, j)].meta.annotations == ps[Position(ing.rules, i, j2)].meta.annotations
  {
    SynthesizedChild(lib, ing, i, j);
    SynthesizedChild(lib, ing, i, j2);
    var ps := Synthesize(lib, ing).value;
    var p1, p2 := ps[Position(ing.rules, i, j)], ps[Position(ing.rules, i, j2)];
    RouteDetermined(lib, ing.rules[i].http.paths[0], p1.spec.routes[0], p2.spec.routes[0]);
    assert p1.meta.annotations == p2.meta.annotations;
  }

  /** What the store sync relies on: each child lives in the Ingress's
      namespace, carries the parent, generation and fqdn labels, and serves
      the host of its fqdn label. */
  predicate Desired(ing: Ingress, p: HTTPProxy) {
    && p.meta.namespace == ing.namespace
    && HasLabel(p.meta.labels, ParentLabel, ing.name)
    && HasLabel(p.meta.labels, GenerationLabel, DecimalString(ing.generation))
    && p.spec.virtualHost.Some?
    && HasLabel(p.meta.labels, FqdnLabel, p.spec.virtualHost.value.fqdn)
  }

  predicate AllDesired(ing: Ingress, ps: seq<HTTPProxy>)
    ensures AllDesired(ing, ps) ==> forall p <- ps :: p.spec.virtualHost.Some?
  {
    forall p <- ps :: Desired(ing, p)
  }

  lemma SynthesizedDesired(lib: Library, ing: Ingress)
    requires Synthesize(lib, ing).Success?
    ensures AllDesired(ing, Synthesize(lib, ing).value)
  {
    var ps := Synthesize(lib, ing).value;
    forall p <- ps ensures Desired(ing, p) {
      var k :| 0 <= k < |ps| && ps[k] == p;
      SynthesizedOnlyChildren(lib, ing, k);
      var i, j :| 0 <= i < |ing.rules| && 0 <= j < |ing.rules[i].hosts| && k == Position(ing.rules, i, j);
      SynthesizedChild(lib, ing, i, j);
    }
  }
}
