/** The objects the controller reads and writes: the Knative networking Ingress
    (the parent), the Project Contour HTTPProxy (the child), the errors the
    controller can see, and the store operations an outage can fail. */
module Api {

  /** Result of an operation that yields a value or fails. */
  datatype Result<+T> = Success(value: T) | Failure(error: Error)

  /** Result of an operation that yields only success or an error (Go's `error`). */
  datatype Outcome = Pass | Fail(error: Error)

  datatype Option<+T> = None | Some(value: T)

  /** Namespace and name: the identity of a stored object. */
  datatype ObjectKey = ObjectKey(namespace: string, name: string)

  /** One call site of the Kubernetes API or its listers, with its arguments.
      An outage is described by the set of operations that fail. */
  datatype Op =
    | ReadIngress(key: ObjectKey)            // Lister.Get in Reconcile
    | RereadIngress(key: ObjectKey)          // Lister.Get in updateStatus
    | WriteIngressStatus(key: ObjectKey)     // Client ... UpdateStatus
    | ListProxies(namespace: string, parent: string, fqdn: string)
    | CreateProxy(key: ObjectKey)
    | UpdateProxy(key: ObjectKey)
    | DeleteProxies(namespace: string, parent: string, generation: string)

  datatype Error =
    | UnsupportedPathCount          // "multiple paths is not supported"
    | NotFound(key: ObjectKey)
    | AlreadyExists(key: ObjectKey)
    | Unavailable(op: Op)           // the store refused the operation

  // ---------------------------------------------------------------------
  // Parent: networking.knative.dev/v1alpha1 Ingress

  datatype Visibility = ExternalIP | ClusterLocal

  /** A metav1.Duration; only its String() form reaches the child. */
  datatype Duration = Duration(nanoseconds: int)

  /** intstr.IntOrString, the type of a split's service port. */
  datatype IntOrString = IntValue(intVal: int) | StringValue(strVal: string)

  datatype Retries = Retries(attempts: nat, perTryTimeout: Duration)

  datatype Split = Split(serviceName: string, servicePort: IntOrString, percent: nat)

  datatype HTTPPath = HTTPPath(splits: seq<Split>, timeout: Option<Duration>, retries: Option<Retries>)

  datatype HTTPRule = HTTPRule(paths: seq<HTTPPath>)

  datatype Rule = Rule(hosts: seq<string>, visibility: Visibility, http: HTTPRule)

  datatype LoadBalancerIngress = LoadBalancerIngress(domainInternal: string)

  /** IngressStatus. The knative condition set is kept abstract: whether
      InitializeConditions ran and whether each dependent condition is True. */
  datatype IngressStatus = IngressStatus(
    observedGeneration: int,
    conditionsInitialized: bool,
    networkConfigured: bool,
    loadBalancerReady: bool,
    loadBalancer: Option<seq<LoadBalancerIngress>>,
    publicLoadBalancer: Option<seq<LoadBalancerIngress>>,
    privateLoadBalancer: Option<seq<LoadBalancerIngress>>)

  /** `deleting` stands for a non-nil DeletionTimestamp. */
  datatype Ingress = Ingress(
    namespace: string,
    name: string,
    generation: int,
    deleting: bool,
    rules: seq<Rule>,
    status: IngressStatus)

  function IngressKey(ing: Ingress): ObjectKey {
    ObjectKey(ing.namespace, ing.name)
  }

  // ---------------------------------------------------------------------
  // Child: projectcontour.io/v1 HTTPProxy

  datatype OwnerRef = OwnerRef(kind: string, name: string, controller: bool)

  datatype ObjectMeta = ObjectMeta(
    namespace: string,
    name: string,
    labels: map<string, string>,
    annotations: map<string, string>,
    ownerRefs: seq<OwnerRef>)

  datatype TimeoutPolicy = TimeoutPolicy(response: string)

  datatype RetryPolicy = RetryPolicy(numRetries: nat, perTryTimeout: string)

  datatype Service = Service(name: string, port: int, weight: nat)

  datatype Route = Route(timeoutPolicy: Option<TimeoutPolicy>, retryPolicy: Option<RetryPolicy>, services: seq<Service>)

  datatype VirtualHost = VirtualHost(fqdn: string)

  datatype HTTPProxySpec = HTTPProxySpec(virtualHost: Option<VirtualHost>, routes: seq<Route>)

  datatype HTTPProxy = HTTPProxy(meta: ObjectMeta, spec: HTTPProxySpec)

  function KeyOf(p: HTTPProxy): ObjectKey {
    ObjectKey(p.meta.namespace, p.meta.name)
  }

  /** The host a child serves, "" when it has no virtual host. */
  function FqdnOf(p: HTTPProxy): string {
    if p.spec.virtualHost.Some? then p.spec.virtualHost.value.fqdn else ""
  }

  // ---------------------------------------------------------------------
  // Label and annotation keys, and the class values

  const ParentLabel := "ingress.parent"
  const GenerationLabel := "ingress.generation"
  const FqdnLabel := "ingress.fqdn"
  const ClassAnnotation := "kubernetes.io/ingress.class"
  const ContourClass := "contour"
  const ContourInternalClass := "contour-internal"

  /** Equality-based label selector term `key=value`: the label is present and equal. */
  predicate HasLabel(labels: map<string, string>, key: string, value: string) {
    key in labels && labels[key] == value
  }

  // ---------------------------------------------------------------------
  // Library functions the controller calls but whose definitions are not
  // part of this model: kmeta.ChildName, Duration.String and
  // IntOrString.IntValue. They are arbitrary functions here.

  datatype Library = Library(
    childName: (string, string) -> string,
    durationString: Duration -> string,
    portValue: IntOrString -> int)
}
