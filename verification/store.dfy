/** The Kubernetes API server and the controller's listers, seen as one
    consistent store: Ingresses by key, HTTPProxy children in listing order,
    and a fixed set of operations that an outage makes fail. */
module Store {
  import opened Api

  // ---------------------------------------------------------------------
  // Label selectors used by the controller

  /** `ingress.parent=<parent>` in namespace ns. */
  predicate Owned(c: HTTPProxy, ns: string, parent: string) {
    c.meta.namespace == ns && HasLabel(c.meta.labels, ParentLabel, parent)
  }

  /** `ingress.parent=<parent>,ingress.fqdn=<fqdn>` in namespace ns. */
  predicate Selected(c: HTTPProxy, ns: string, parent: string, fqdn: string) {
    Owned(c, ns, parent) && HasLabel(c.meta.labels, FqdnLabel, fqdn)
  }

  /** `ingress.parent=<parent>,ingress.generation!=<generation>` in namespace ns.
      A `!=` term also matches a child that has no generation label at all. */
  predicate Stale(c: HTTPProxy, ns: string, parent: string, generation: string) {
    Owned(c, ns, parent) && !HasLabel(c.meta.labels, GenerationLabel, generation)
  }

  /** The children a selector lists, in store order. */
  function Select(cs: seq<HTTPProxy>, ns: string, parent: string, fqdn: string): (r: seq<HTTPProxy>)
    ensures forall c <- r :: c in cs && Selected(c, ns, parent, fqdn)
    ensures forall c <- cs :: Selected(c, ns, parent, fqdn) ==> c in r
  {
    if cs == [] then []
    else (if Selected(cs[0], ns, parent, fqdn) then [cs[0]] else []) + Select(cs[1..], ns, parent, fqdn)
  }

  /** The first listed child is the first selected child in store order. */
  lemma {:induction false} SelectFirst(cs: seq<HTTPProxy>, ns: string, parent: string, fqdn: string)
    requires Select(cs, ns, parent, fqdn) != []
    ensures exists k :: (0 <= k < |cs| && cs[k] == Select(cs, ns, parent, fqdn)[0]
      && forall m :: 0 <= m < k ==> !Selected(cs[m], ns, parent, fqdn))
  {
    if !Selected(cs[0], ns, parent, fqdn) {
      SelectFirst(cs[1..], ns, parent, fqdn);
      var k :| 0 <= k < |cs[1..]| && cs[1..][k] == Select(cs[1..], ns, parent, fqdn)[0]
        && forall m :: 0 <= m < k ==> !Selected(cs[1..][m], ns, parent, fqdn);
      forall m | 0 <= m < k + 1 ensures !Selected(cs[m], ns, parent, fqdn) {
        if m > 0 {
          assert cs[m] == cs[1..][m - 1];
        }
      }
      assert cs[k + 1] == Select(cs, ns, parent, fqdn)[0];
    } else {
      assert cs[0] == Select(cs, ns, parent, fqdn)[0];
    }
  }

  /** The children a stale-generation sweep leaves, in store order. */
  function WithoutStale(cs: seq<HTTPProxy>, ns: string, parent: string, generation: string): (r: seq<HTTPProxy>)
    ensures forall c <- r :: c in cs && !Stale(c, ns, parent, generation)
    ensures forall c <- cs :: !Stale(c, ns, parent, generation) ==> c in r
  {
    if cs == [] then []
    else if Stale(cs[0], ns, parent, generation) then WithoutStale(cs[1..], ns, parent, generation)
    else [cs[0]] + WithoutStale(cs[1..], ns, parent, generation)
  }

  // ---------------------------------------------------------------------
  // Identity of children

  predicate UniqueKeys(cs: seq<HTTPProxy>) {
    forall i, j :: 0 <= i < j < |cs| ==> KeyOf(cs[i]) != KeyOf(cs[j])
  }

  predicate HasKey(cs: seq<HTTPProxy>, key: ObjectKey) {
    exists c <- cs :: KeyOf(c) == key
  }

  function KeySet(cs: seq<HTTPProxy>): set<ObjectKey> {
    set c <- cs :: KeyOf(c)
  }

  /** Every child with p's key replaced by p. */
  function ReplaceKey(cs: seq<HTTPProxy>, p: HTTPProxy): (r: seq<HTTPProxy>)
    ensures |r| == |cs|
    ensures forall k :: 0 <= k < |cs| ==> KeyOf(r[k]) == KeyOf(cs[k])
    ensures forall k :: 0 <= k < |cs| ==> r[k] == if KeyOf(cs[k]) == KeyOf(p) then p else cs[k]
  {
    if cs == [] then []
    else [if KeyOf(cs[0]) == KeyOf(p) then p else cs[0]] + ReplaceKey(cs[1..], p)
  }

  // ---------------------------------------------------------------------
  // The store operations on values

  function GetResult(ingresses: map<ObjectKey, Ingress>, faults: set<Op>, op: Op, key: ObjectKey): Result<Ingress> {
    if op in faults then Failure(Unavailable(op))
    else if key in ingresses then Success(ingresses[key])
    else Failure(NotFound(key))
  }

  function UpdateStatusResult(ingresses: map<ObjectKey, Ingress>, faults: set<Op>, ing: Ingress): Result<map<ObjectKey, Ingress>> {
    var key := IngressKey(ing);
    if WriteIngressStatus(key) in faults then Failure(Unavailable(WriteIngressStatus(key)))
    else if key !in ingresses then Failure(NotFound(key))
    else Success(ingresses[key := ingresses[key].(status := ing.status)])
  }

  function ListResult(cs: seq<HTTPProxy>, faults: set<Op>, ns: string, parent: string, fqdn: string): Result<seq<HTTPProxy>> {
    if ListProxies(ns, parent, fqdn) in faults then Failure(Unavailable(ListProxies(ns, parent, fqdn)))
    else Success(Select(cs, ns, parent, fqdn))
  }

  /** Creation appends the child, unless its name is taken in its namespace. */
  function CreateResult(cs: seq<HTTPProxy>, faults: set<Op>, p: HTTPProxy): Result<seq<HTTPProxy>> {
    if CreateProxy(KeyOf(p)) in faults then Failure(Unavailable(CreateProxy(KeyOf(p))))
    else if HasKey(cs, KeyOf(p)) then Failure(AlreadyExists(KeyOf(p)))
    else Success(cs + [p])
  }

  /** An update replaces the child of the same name in place. */
  function UpdateResult(cs: seq<HTTPProxy>, faults: set<Op>, p: HTTPProxy): Result<seq<HTTPProxy>> {
    if UpdateProxy(KeyOf(p)) in faults then Failure(Unavailable(UpdateProxy(KeyOf(p))))
    else if !HasKey(cs, KeyOf(p)) then Failure(NotFound(KeyOf(p)))
    else Success(ReplaceKey(cs, p))
  }

  function DeleteCollectionResult(cs: seq<HTTPProxy>, faults: set<Op>, ns: string, parent: string, generation: string): Result<seq<HTTPProxy>> {
    if DeleteProxies(ns, parent, generation) in faults then Failure(Unavailable(DeleteProxies(ns, parent, generation)))
    else Success(WithoutStale(cs, ns, parent, generation))
  }

  // ---------------------------------------------------------------------
  // The store keeps child keys unique

  lemma CreateKeepsUnique(cs: seq<HTTPProxy>, faults: set<Op>, p: HTTPProxy)
    requires UniqueKeys(cs)
    ensures CreateResult(cs, faults, p).Success? ==> UniqueKeys(CreateResult(cs, faults, p).value)
  {
    if CreateResult(cs, faults, p).Success? {
      var r := cs + [p];
      forall i, j | 0 <= i < j < |r| ensures KeyOf(r[i]) != KeyOf(r[j]) {
        if j == |cs| {
          assert r[i] in cs;
        }
      }
    }
  }

  lemma UpdateKeepsUnique(cs: seq<HTTPProxy>, faults: set<Op>, p: HTTPProxy)
    requires UniqueKeys(cs)
    ensures UpdateResult(cs, faults, p).Success? ==> UniqueKeys(UpdateResult(cs, faults, p).value)
  {
  }

  lemma DeleteKeepsUnique(cs: seq<HTTPProxy>, ns: string, parent: string, generation: string)
    requires UniqueKeys(cs)
    ensures UniqueKeys(WithoutStale(cs, ns, parent, generation))
  {
    if cs != [] {
      DeleteKeepsUnique(cs[1..], ns, parent, generation);
      var rest := WithoutStale(cs[1..], ns, parent, generation);
      if !Stale(cs[0], ns, parent, generation) {
        var r := [cs[0]] + rest;
        forall i, j | 0 <= i < j < |r| ensures KeyOf(r[i]) != KeyOf(r[j]) {
          if i == 0 {
            assert r[j] in cs[1..];
          }
        }
      }
    }
  }

  predicate IngressesKeyed(ingresses: map<ObjectKey, Ingress>) {
    forall key <- ingresses :: IngressKey(ingresses[key]) == key
  }

  // ---------------------------------------------------------------------
  // The store as the controller's collaborator

  class Cluster {
    var ingresses: map<ObjectKey, Ingress>
    var proxies: seq<HTTPProxy>
    const faults: set<Op>

    ghost predicate Valid()
      reads this
    {
      UniqueKeys(proxies) && IngressesKeyed(ingresses)
    }

    constructor (ingresses: map<ObjectKey, Ingress>, proxies: seq<HTTPProxy>, faults: set<Op>)
      requires UniqueKeys(proxies) && IngressesKeyed(ingresses)
      ensures Valid()
      ensures this.ingresses == ingresses && this.proxies == proxies && this.faults == faults
    {
      this.ingresses := ingresses;
      this.proxies := proxies;
      this.faults := faults;
    }

    /** Lister.Get: a read of the stored Ingress at `op`'s call site. */
    method Get(op: Op, key: ObjectKey) returns (r: Result<Ingress>)
      ensures r == GetResult(ingresses, faults, op, key)
    {
      if op in faults {
        return Failure(Unavailable(op));
      }
      if key !in ingresses {
        return Failure(NotFound(key));
      }
      r := Success(ingresses[key]);
    }

    /** UpdateStatus: only the status of the stored Ingress changes. */
    method UpdateStatus(ing: Ingress) returns (r: Result<Ingress>)
      requires Valid()
      modifies this
      ensures Valid()
      ensures proxies == old(proxies)
      ensures var u := UpdateStatusResult(old(ingresses), faults, ing);
        && (u.Success? ==> r.Success? && ingresses == u.value && r.value == ingresses[IngressKey(ing)])
        && (u.Failure? ==> r == Failure(u.error) && ingresses == old(ingresses))
    {
      var key := IngressKey(ing);
      if WriteIngressStatus(key) in faults {
        return Failure(Unavailable(WriteIngressStatus(key)));
      }
      if key !in ingresses {
        return Failure(NotFound(key));
      }
      ingresses := ingresses[key := ingresses[key].(status := ing.status)];
      r := Success(ingresses[key]);
    }

    /** Lister.List with an equality selector on parent and fqdn. */
    method List(ns: string, parent: string, fqdn: string) returns (r: Result<seq<HTTPProxy>>)
      ensures r == ListResult(proxies, faults, ns, parent, fqdn)
    {
      if ListProxies(ns, parent, fqdn) in faults {
        return Failure(Unavailable(ListProxies(ns, parent, fqdn)));
      }
      r := Success(Select(proxies, ns, parent, fqdn));
    }

    method Create(p: HTTPProxy) returns (r: Outcome)
      requires Valid()
      modifies this
      ensures Valid()
      ensures ingresses == old(ingresses)
      ensures var c := CreateResult(old(proxies), faults, p);
        && (c.Success? ==> r == Pass && proxies == c.value)
        && (c.Failure? ==> r == Fail(c.error) && proxies == old(proxies))
    {
      if CreateProxy(KeyOf(p)) in faults {
        return Fail(Unavailable(CreateProxy(KeyOf(p))));
      }
      if exists c <- proxies :: KeyOf(c) == KeyOf(p) {
        return Fail(AlreadyExists(KeyOf(p)));
      }
      CreateKeepsUnique(proxies, faults, p);
      proxies := proxies + [p];
      r := Pass;
    }

    method Update(p: HTTPProxy) returns (r: Outcome)
      requires Valid()
      modifies this
      ensures Valid()
      ensures ingresses == old(ingresses)
      ensures var u := UpdateResult(old(proxies), faults, p);
        && (u.Success? ==> r == Pass && proxies == u.value)
        && (u.Failure? ==> r == Fail(u.error) && proxies == old(proxies))
    {
      if UpdateProxy(KeyOf(p)) in faults {
        return Fail(Unavailable(UpdateProxy(KeyOf(p))));
      }
      if !exists c <- proxies :: KeyOf(c) == KeyOf(p) {
        return Fail(NotFound(KeyOf(p)));
      }
      UpdateKeepsUnique(proxies, faults, p);
      proxies := ReplaceKey(proxies, p);
      r := Pass;
    }

    /** DeleteCollection with selector `ingress.parent=<parent>,ingress.generation!=<generation>`. */
    method DeleteCollection(ns: string, parent: string, generation: string) returns (r: Outcome)
      requires Valid()
      modifies this
      ensures Valid()
      ensures ingresses == old(ingresses)
      ensures var d := DeleteCollectionResult(old(proxies), faults, ns, parent, generation);
        && (d.Success? ==> r == Pass && proxies == d.value)
        && (d.Failure? ==> r == Fail(d.error) && proxies == old(proxies))
    {
      if DeleteProxies(ns, parent, generation) in faults {
        return Fail(Unavailable(DeleteProxies(ns, parent, generation)));
      }
      DeleteKeepsUnique(proxies, ns, parent, generation);
      proxies := WithoutStale(proxies, ns, parent, generation);
      r := Pass;
    }
  }
}
