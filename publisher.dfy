/**
 * The Ingress watcher: on every change it lists all Ingresses, resolves
 * each rule's backend to endpoint addresses, attaches the TLS files of
 * the rule's host, and publishes one Snapshot of every service, with the
 * services of the Ingress that triggered the rebuild as the Delta. A work
 * queue of object keys drives the rebuilds.
 *
 * The Kubernetes stores are inputs: the endpoints store is a map from
 * service to endpoint subsets, the secrets of each namespace are their
 * data keys in iteration order, the filesystem is a Receivers.FileSystem,
 * and the Ingress listing is the sequence the store's List produced.
 */
module Publisher {
  import opened Wrappers
  import opened Text
  import opened PubSub
  import opened Receivers
  import WorkQueue

  /* ---------------- Kubernetes objects ---------------- */

  /** A service port: by number or by name. */
  datatype IntOrString = IntVal(intVal: int) | StrVal(strVal: string)

  datatype EndpointPort = EndpointPort(name: string, port: int)

  /** Pods (by IP) that all serve every one of `ports`. */
  datatype EndpointSubset = EndpointSubset(addresses: seq<string>, ports: seq<EndpointPort>)

  datatype IngressBackend = IngressBackend(serviceName: string, servicePort: IntOrString)

  datatype IngressPath = IngressPath(path: string, backend: IngressBackend)

  /** A host rule; `http` is the optional HTTP part holding the paths. */
  datatype IngressRule = IngressRule(host: string, http: Option<seq<IngressPath>>)

  datatype Ingress = Ingress(
    namespace: string,
    name: string,
    annotations: Annotations,
    rules: seq<IngressRule>,
    backend: Option<IngressBackend>)

  /** wrapWithService: the name and namespace a service is looked up by. */
  datatype ServiceRef = ServiceRef(name: string, namespace: string)

  /** What the watcher reads from the cluster besides the Ingresses. */
  datatype Cluster = Cluster(
    endpoints: map<ServiceRef, seq<EndpointSubset>>,
    secrets: map<string, map<string, seq<string>>>,
    fs: FileSystem,
    decode: string -> Option<seq<Receiver>>)

  /* ---------------- getEndpoints ---------------- */

  /** Whether an endpoint port is the one a service port names. */
  predicate Matches(p: EndpointPort, sp: IntOrString) {
    match sp
    case IntVal(v) => p.port == v
    case StrVal(n) => p.name == n
  }

  /** The port to send to for one endpoint port, 0 when it does not match. */
  function TargetPort(p: EndpointPort, sp: IntOrString): (t: int)
    ensures t != 0 <==> Matches(p, sp) && p.port != 0
    ensures t != 0 ==> t == p.port
  {
    match sp
    case IntVal(v) => if p.port == v then p.port else 0
    case StrVal(n) => if p.name == n then p.port else 0
  }

  /** `fmt.Sprintf("%v:%v", ip, port)`. */
  function Address(ip: string, port: int): string {
    ip + ":" + IntToString(port)
  }

  /** Every address at one target port; nothing for target port 0. */
  function AddressesAt(addrs: seq<string>, port: int): (r: seq<string>)
    ensures |r| == if port == 0 then 0 else |addrs|
  {
    if port == 0 then [] else seq(|addrs|, k requires 0 <= k < |addrs| => Address(addrs[k], port))
  }

  /** The endpoints of one subset, port by port. */
  function PortEndpoints(addrs: seq<string>, ports: seq<EndpointPort>, sp: IntOrString): seq<string> {
    if ports == [] then []
    else PortEndpoints(addrs, ports[..|ports| - 1], sp) + AddressesAt(addrs, TargetPort(ports[|ports| - 1], sp))
  }

  /** The endpoints of all subsets, subset by subset. */
  function EndpointsOf(subsets: seq<EndpointSubset>, sp: IntOrString): seq<string> {
    if subsets == [] then []
    else
      var ss := subsets[|subsets| - 1];
      EndpointsOf(subsets[..|subsets| - 1], sp) + PortEndpoints(ss.addresses, ss.ports, sp)
  }

  /** getEndpoints: nothing when the endpoints lookup fails. */
  function Endpoints(c: Cluster, svc: ServiceRef, sp: IntOrString): seq<string> {
    if svc in c.endpoints then EndpointsOf(c.endpoints[svc], sp) else []
  }

  /** Whether e is "ip:port" for one of the addresses and an endpoint port that matches and is not 0. */
  predicate PortServes(addrs: seq<string>, p: EndpointPort, sp: IntOrString, e: string) {
    Matches(p, sp) && p.port != 0 && exists k :: 0 <= k < |addrs| && e == Address(addrs[k], p.port)
  }

  /** Whether one subset serves e through one of its ports. */
  predicate Serves(ss: EndpointSubset, sp: IntOrString, e: string) {
    exists j :: 0 <= j < |ss.ports| && PortServes(ss.addresses, ss.ports[j], sp, e)
  }

  /** One endpoint port yields "ip:port" for each address when it matches and is not 0. */
  lemma AddressesAtMember(addrs: seq<string>, p: EndpointPort, sp: IntOrString, e: string)
    ensures e in AddressesAt(addrs, TargetPort(p, sp)) <==> PortServes(addrs, p, sp, e)
  {
    var port := TargetPort(p, sp);
    if PortServes(addrs, p, sp, e) {
      var k :| 0 <= k < |addrs| && e == Address(addrs[k], p.port);
      assert AddressesAt(addrs, port)[k] == e;
    }
  }

  /** One subset yields "ip:port" for each of its addresses and each matching non-zero port. */
  lemma {:induction false} PortEndpointsMember(addrs: seq<string>, ports: seq<EndpointPort>, sp: IntOrString, e: string)
    ensures e in PortEndpoints(addrs, ports, sp) <==> exists j :: 0 <= j < |ports| && PortServes(addrs, ports[j], sp, e)
    decreases |ports|
  {
    if ports != [] {
      var init := ports[..|ports| - 1];
      var last := |ports| - 1;
      PortEndpointsMember(addrs, init, sp, e);
      AddressesAtMember(addrs, ports[last], sp, e);
      var here := AddressesAt(addrs, TargetPort(ports[last], sp));
      assert PortEndpoints(addrs, ports, sp) == PortEndpoints(addrs, init, sp) + here;
      if e in PortEndpoints(addrs, init, sp) {
        var j :| 0 <= j < |init| && PortServes(addrs, init[j], sp, e);
        assert ports[j] == init[j];
      }
      if exists j :: 0 <= j < |ports| && PortServes(addrs, ports[j], sp, e) {
        var j :| 0 <= j < |ports| && PortServes(addrs, ports[j], sp, e);
        if j < last {
          assert init[j] == ports[j];
          assert e in PortEndpoints(addrs, init, sp);
        } else {
          assert j == last;
        }
      }
    }
  }

  /** The endpoints of all subsets are those of some subset. */
  lemma {:induction false} EndpointsOfSubsets(subsets: seq<EndpointSubset>, sp: IntOrString, e: string)
    ensures e in EndpointsOf(subsets, sp) <==>
      exists i :: 0 <= i < |subsets| && e in PortEndpoints(subsets[i].addresses, subsets[i].ports, sp)
    decreases |subsets|
  {
    if subsets != [] {
      var init := subsets[..|subsets| - 1];
      var last := |subsets| - 1;
      EndpointsOfSubsets(init, sp, e);
      var ss := subsets[last];
      var here := PortEndpoints(ss.addresses, ss.ports, sp);
      assert EndpointsOf(subsets, sp) == EndpointsOf(init, sp) + here;
      if e in EndpointsOf(init, sp) {
        var i :| 0 <= i < |init| && e in PortEndpoints(init[i].addresses, init[i].ports, sp);
        assert subsets[i] == init[i];
      }
      if e in here {
        assert e in PortEndpoints(subsets[last].addresses, subsets[last].ports, sp);
      }
      if exists i :: 0 <= i < |subsets| && e in PortEndpoints(subsets[i].addresses, subsets[i].ports, sp) {
        var i :| 0 <= i < |subsets| && e in PortEndpoints(subsets[i].addresses, subsets[i].ports, sp);
        if i < last {
          assert init[i] == subsets[i];
          assert e in EndpointsOf(init, sp);
        } else {
          assert i == last;
        }
      }
    }
  }

  /**
   * getEndpoints yields "ip:port" exactly for the addresses of every
   * subset that has a non-zero port matching the service port (by number
   * or by name).
   */
  lemma EndpointsOfMember(subsets: seq<EndpointSubset>, sp: IntOrString, e: string)
    ensures e in EndpointsOf(subsets, sp) <==> exists i :: 0 <= i < |subsets| && Serves(subsets[i], sp, e)
  {
    EndpointsOfSubsets(subsets, sp, e);
    forall i | 0 <= i < |subsets|
      ensures e in PortEndpoints(subsets[i].addresses, subsets[i].ports, sp) <==> Serves(subsets[i], sp, e)
    {
      PortEndpointsMember(subsets[i].addresses, subsets[i].ports, sp, e);
    }
  }

  /* ---------------- getLBService ---------------- */

  /** The zero ReceiverSecrets a missing host reads as. */
  const NoSecrets := ReceiverSecrets("", 0, "", "")

  /** `fmt.Sprintf("%v.%v.svc.cluster.local", name, namespace)`. */
  function ClusterDNSName(svc: ServiceRef): string {
    svc.name + "." + svc.namespace + ".svc.cluster.local"
  }

  /** getLBService: the service always listens on 443 and takes its TLS files from rs. */
  function LBService(svc: ServiceRef, endpoints: seq<string>, host: string, path: string, rs: ReceiverSecrets): (s: Service)
    ensures s.port == 443
    ensures s.host == host && s.path == path && s.endpoints == endpoints
    ensures s.key == rs.keyPath && s.crt == rs.crtPath
    ensures s.clusterDNSName == ClusterDNSName(svc)
  {
    Service(host, 443, path, endpoints, ClusterDNSName(svc), rs.crtPath, rs.keyPath)
  }

  /** For dot-free names the cluster DNS name splits back into name, namespace and the fixed suffix. */
  lemma ClusterDNSNameSplits(svc: ServiceRef)
    requires '.' !in svc.name && '.' !in svc.namespace
    ensures Split(ClusterDNSName(svc), '.') == [svc.name, svc.namespace, "svc", "cluster", "local"]
  {
    var parts := [svc.name, svc.namespace, "svc", "cluster", "local"];
    assert Join(parts[3..], '.') == "cluster.local" by {
      assert parts[3..][1..] == ["local"];
    }
    assert Join(parts[2..], '.') == "svc.cluster.local" by {
      assert parts[2..][1..] == parts[3..];
    }
    assert Join(parts[1..], '.') == svc.namespace + ".svc.cluster.local" by {
      assert parts[1..][1..] == parts[2..];
    }
    assert Join(parts, '.') == ClusterDNSName(svc) by {
      assert parts[1..] == parts[1..];
    }
    SplitJoin(parts, '.');
  }

  /* ---------------- object keys and the event filter ---------------- */

  /** DeletionHandlingMetaNamespaceKeyFunc for a live object: "namespace/name", or the name alone. */
  function MetaKey(namespace: string, name: string): string {
    if namespace != "" then namespace + "/" + name else name
  }

  function IngressKey(ing: Ingress): string {
    MetaKey(ing.namespace, ing.name)
  }

  /** For slash-free names the key splits back into namespace and name. */
  lemma MetaKeySplits(namespace: string, name: string)
    requires namespace != "" && '/' !in namespace && '/' !in name
    ensures Split(MetaKey(namespace, name), '/') == [namespace, name]
  {
    assert Join([namespace, name], '/') == MetaKey(namespace, name) by {
      assert [namespace, name][1..] == [name];
    }
    SplitJoin([namespace, name], '/');
  }

  /** The objects both informers watch; they share one set of event handlers. */
  datatype WatchedObject =
    | IngressObject(ing: Ingress)
    | EndpointsObject(namespace: string, name: string, subsets: seq<EndpointSubset>)

  function ObjectKey(o: WatchedObject): string {
    match o
    case IngressObject(ing) => IngressKey(ing)
    case EndpointsObject(ns, name, _) => MetaKey(ns, name)
  }

  datatype Notification =
    | AddNotification(obj: WatchedObject)
    | UpdateNotification(oldObj: WatchedObject, curObj: WatchedObject)
    | DeleteNotification(obj: WatchedObject)

  /** The key the event handlers enqueue, if any. */
  function EnqueuedKey(n: Notification): Option<string> {
    match n
    case AddNotification(o) => Some(ObjectKey(o))
    case DeleteNotification(o) => Some(ObjectKey(o))
    case UpdateNotification(o, cur) => if o != cur then Some(ObjectKey(cur)) else None
  }

  /**
   * Adds and deletes always enqueue the object's key; an update enqueues
   * the new object's key exactly when the object changed.
   */
  lemma EnqueuedKeySpec(n: Notification)
    ensures EnqueuedKey(n).None? <==> n.UpdateNotification? && n.oldObj == n.curObj
    ensures n.AddNotification? || n.DeleteNotification? ==> EnqueuedKey(n) == Some(ObjectKey(n.obj))
    ensures n.UpdateNotification? && EnqueuedKey(n).Some? ==> EnqueuedKey(n).value == ObjectKey(n.curObj)
  {
  }

  /* ---------------- one Ingress's services ---------------- */

  /** Every rule has an HTTP part, the only rules the loop as written can read. */
  predicate HasHTTP(rules: seq<IngressRule>) {
    forall i :: 0 <= i < |rules| ==> rules[i].http.Some?
  }

  /** The paths of a rule; a rule without an HTTP part has none. */
  function PathsOf(r: IngressRule): seq<IngressPath> {
    if r.http.Some? then r.http.value else []
  }

  /** `receivers[host]`: the zero value for a host without secrets. */
  function SecretsFor(rs: map<string, ReceiverSecrets>, host: string): ReceiverSecrets {
    if host in rs then rs[host] else NoSecrets
  }

  /** The service of one path of a rule. */
  function PathService(c: Cluster, namespace: string, host: string, p: IngressPath, rs: map<string, ReceiverSecrets>): Service {
    var svc := ServiceRef(p.backend.serviceName, namespace);
    LBService(svc, Endpoints(c, svc, p.backend.servicePort), host, p.path, SecretsFor(rs, host))
  }

  function PathServices(c: Cluster, namespace: string, host: string, paths: seq<IngressPath>,
                        rs: map<string, ReceiverSecrets>): seq<Service> {
    if paths == [] then []
    else PathServices(c, namespace, host, paths[..|paths| - 1], rs) + [PathService(c, namespace, host, paths[|paths| - 1], rs)]
  }

  /** One service per (rule, path), in declaration order; rules without an HTTP part are skipped. */
  function RuleServices(c: Cluster, namespace: string, rules: seq<IngressRule>, rs: map<string, ReceiverSecrets>): seq<Service> {
    if rules == [] then []
    else
      var r := rules[|rules| - 1];
      RuleServices(c, namespace, rules[..|rules| - 1], rs) + PathServices(c, namespace, r.host, PathsOf(r), rs)
  }

  /** The default backend's service: no host, no path, no secrets. */
  function DefaultServices(c: Cluster, ing: Ingress): seq<Service> {
    match ing.backend
    case None => []
    case Some(b) =>
      var svc := ServiceRef(b.serviceName, ing.namespace);
      [LBService(svc, Endpoints(c, svc, b.servicePort), "", "", NoSecrets)]
  }

  /** The services of one Ingress given its receivers' secrets. */
  function Block(c: Cluster, ing: Ingress, rs: map<string, ReceiverSecrets>): seq<Service> {
    RuleServices(c, ing.namespace, ing.rules, rs) + DefaultServices(c, ing)
  }

  function PathCount(rules: seq<IngressRule>): nat {
    if rules == [] then 0 else PathCount(rules[..|rules| - 1]) + |PathsOf(rules[|rules| - 1])|
  }

  /** The services of one host's paths are the paths' services, in order. */
  lemma {:induction false} PathServicesAt(c: Cluster, namespace: string, host: string, paths: seq<IngressPath>,
                                          rs: map<string, ReceiverSecrets>)
    ensures |PathServices(c, namespace, host, paths, rs)| == |paths|
    ensures forall i :: 0 <= i < |paths| ==>
      PathServices(c, namespace, host, paths, rs)[i] == PathService(c, namespace, host, paths[i], rs)
    decreases |paths|
  {
    if paths != [] {
      var init := paths[..|paths| - 1];
      PathServicesAt(c, namespace, host, init, rs);
      assert forall i :: 0 <= i < |init| ==> init[i] == paths[i];
    }
  }

  /** The services of one host's paths carry that host, port 443 and the host's TLS files. */
  lemma PathServicesShape(c: Cluster, namespace: string, host: string, paths: seq<IngressPath>,
                          rs: map<string, ReceiverSecrets>)
    ensures var ss := PathServices(c, namespace, host, paths, rs);
      && |ss| == |paths|
      && forall i :: 0 <= i < |ss| ==>
           && ss[i].host == host && ss[i].path == paths[i].path && ss[i].port == 443
           && ss[i].crt == SecretsFor(rs, host).crtPath && ss[i].key == SecretsFor(rs, host).keyPath
           && ss[i] == PathService(c, namespace, host, paths[i], rs)
  {
    PathServicesAt(c, namespace, host, paths, rs);
  }

  lemma {:induction false} RuleServicesCount(c: Cluster, namespace: string, rules: seq<IngressRule>,
                                             rs: map<string, ReceiverSecrets>)
    ensures |RuleServices(c, namespace, rules, rs)| == PathCount(rules)
    decreases |rules|
  {
    if rules != [] {
      var r := rules[|rules| - 1];
      RuleServicesCount(c, namespace, rules[..|rules| - 1], rs);
      PathServicesShape(c, namespace, r.host, PathsOf(r), rs);
    }
  }

  /** The paths of the rules before rule i, and then rule i's own, fit in the rules' count. */
  lemma {:induction false} PathCountPrefix(rules: seq<IngressRule>, i: nat)
    requires i < |rules|
    ensures PathCount(rules[..i]) + |PathsOf(rules[i])| <= PathCount(rules)
    decreases |rules|
  {
    var init := rules[..|rules| - 1];
    if i == |rules| - 1 {
      assert rules[..i] == init;
    } else {
      assert rules[..i] == init[..i];
      assert init[i] == rules[i];
      PathCountPrefix(init, i);
    }
  }

  /** Path j of rule i is served at position j after the paths of the rules before it, with the rule's host and that path. */
  predicate ServedAt(c: Cluster, namespace: string, rules: seq<IngressRule>, rs: map<string, ReceiverSecrets>, i: nat, j: nat)
    requires i < |rules| && j < |PathsOf(rules[i])|
  {
    var ss := RuleServices(c, namespace, rules, rs);
    var k := PathCount(rules[..i]) + j;
    && k < |ss|
    && ss[k] == PathService(c, namespace, rules[i].host, PathsOf(rules[i])[j], rs)
    && ss[k].host == rules[i].host && ss[k].path == PathsOf(rules[i])[j].path
  }

  lemma {:induction false} RuleServiceIndex(c: Cluster, namespace: string, rules: seq<IngressRule>,
                                            rs: map<string, ReceiverSecrets>, i: nat, j: nat)
    requires i < |rules| && j < |PathsOf(rules[i])|
    ensures PathCount(rules[..i]) + j < |RuleServices(c, namespace, rules, rs)|
    ensures RuleServices(c, namespace, rules, rs)[PathCount(rules[..i]) + j]
         == PathService(c, namespace, rules[i].host, PathsOf(rules[i])[j], rs)
    decreases |rules|
  {
    if i == |rules| - 1 {
      RuleServiceIndexLast(c, namespace, rules, rs, j);
    } else {
      RuleServiceIndex(c, namespace, rules[..|rules| - 1], rs, i, j);
      RuleServiceIndexFront(c, namespace, rules, rs, i, j);
    }
  }

  /** A path of the last rule is served after the services of all the rules before it. */
  lemma RuleServiceIndexLast(c: Cluster, namespace: string, rules: seq<IngressRule>,
                             rs: map<string, ReceiverSecrets>, j: nat)
    requires rules != [] && j < |PathsOf(rules[|rules| - 1])|
    ensures PathCount(rules[..|rules| - 1]) + j < |RuleServices(c, namespace, rules, rs)|
    ensures RuleServices(c, namespace, rules, rs)[PathCount(rules[..|rules| - 1]) + j]
         == PathService(c, namespace, rules[|rules| - 1].host, PathsOf(rules[|rules| - 1])[j], rs)
  {
    var init := rules[..|rules| - 1];
    var r := rules[|rules| - 1];
    var front := RuleServices(c, namespace, init, rs);
    var back := PathServices(c, namespace, r.host, PathsOf(r), rs);
    RuleServicesCount(c, namespace, init, rs);
    PathServiceAt(c, namespace, r.host, PathsOf(r), rs, j);
    IndexAfter(front, back, j);
  }

  lemma PathServiceAt(c: Cluster, namespace: string, host: string, paths: seq<IngressPath>,
                      rs: map<string, ReceiverSecrets>, j: nat)
    requires j < |paths|
    ensures j < |PathServices(c, namespace, host, paths, rs)|
    ensures PathServices(c, namespace, host, paths, rs)[j] == PathService(c, namespace, host, paths[j], rs)
  {
    PathServicesAt(c, namespace, host, paths, rs);
  }

  lemma IndexAfter<T>(front: seq<T>, back: seq<T>, j: nat)
    requires j < |back|
    ensures |front| + j < |front + back| && (front + back)[|front| + j] == back[j]
  {
  }

  /** A path of an earlier rule keeps its position once a rule is added after it. */
  lemma RuleServiceIndexFront(c: Cluster, namespace: string, rules: seq<IngressRule>,
                              rs: map<string, ReceiverSecrets>, i: nat, j: nat)
    requires i < |rules| - 1 && j < |PathsOf(rules[i])|
    requires var init := rules[..|rules| - 1];
      && PathCount(init[..i]) + j < |RuleServices(c, namespace, init, rs)|
      && RuleServices(c, namespace, init, rs)[PathCount(init[..i]) + j]
         == PathService(c, namespace, rules[i].host, PathsOf(rules[i])[j], rs)
    ensures PathCount(rules[..i]) + j < |RuleServices(c, namespace, rules, rs)|
    ensures RuleServices(c, namespace, rules, rs)[PathCount(rules[..i]) + j]
         == PathService(c, namespace, rules[i].host, PathsOf(rules[i])[j], rs)
  {
    var init := rules[..|rules| - 1];
    assert rules[..i] == init[..i];
    var r := rules[|rules| - 1];
    var front := RuleServices(c, namespace, init, rs);
    var back := PathServices(c, namespace, r.host, PathsOf(r), rs);
    assert (front + back)[PathCount(init[..i]) + j] == front[PathCount(init[..i]) + j];
  }

  lemma RuleServicesAt(c: Cluster, namespace: string, rules: seq<IngressRule>,
                       rs: map<string, ReceiverSecrets>, i: nat, j: nat)
    requires i < |rules| && j < |PathsOf(rules[i])|
    ensures ServedAt(c, namespace, rules, rs, i, j)
  {
    RuleServiceIndex(c, namespace, rules, rs, i, j);
  }

  /** The members of an Ingress's rule services: port 443, a declared host, and that host's TLS files. */
  lemma {:induction false} RuleServicesMembers(c: Cluster, namespace: string, rules: seq<IngressRule>,
                                               rs: map<string, ReceiverSecrets>)
    ensures forall s :: s in RuleServices(c, namespace, rules, rs) ==>
           && s.port == 443
           && (exists i :: 0 <= i < |rules| && rules[i].host == s.host)
           && (s.host in rs ==> s.crt == rs[s.host].crtPath && s.key == rs[s.host].keyPath)
           && (s.host !in rs ==> s.crt == "" && s.key == "")
    decreases |rules|
  {
    if rules != [] {
      var init := rules[..|rules| - 1];
      var r := rules[|rules| - 1];
      RuleServicesMembers(c, namespace, init, rs);
      PathServicesShape(c, namespace, r.host, PathsOf(r), rs);
      var ss := RuleServices(c, namespace, rules, rs);
      var front := RuleServices(c, namespace, init, rs);
      var back := PathServices(c, namespace, r.host, PathsOf(r), rs);
      forall s | s in ss
        ensures exists i :: 0 <= i < |rules| && rules[i].host == s.host
      {
        if s in front {
          var i :| 0 <= i < |init| && init[i].host == s.host;
          assert rules[i] == init[i];
        } else {
          assert s in back;
          assert rules[|rules| - 1].host == s.host;
        }
      }
    }
  }

  /**
   * An Ingress's rules give one service per path, rule by rule and path
   * by path: path j of rule i is served at position j after the paths of
   * the rules before it, with that rule's host and that path. Each is on
   * port 443 and has the TLS files loaded for its host, or none when the
   * host has no receiver.
   */
  lemma RuleServicesShape(c: Cluster, namespace: string, rules: seq<IngressRule>, rs: map<string, ReceiverSecrets>)
    ensures |RuleServices(c, namespace, rules, rs)| == PathCount(rules)
    ensures forall i, j :: 0 <= i < |rules| && 0 <= j < |PathsOf(rules[i])| ==> ServedAt(c, namespace, rules, rs, i, j)
    ensures forall s :: s in RuleServices(c, namespace, rules, rs) ==>
           && s.port == 443
           && (exists i :: 0 <= i < |rules| && rules[i].host == s.host)
           && (s.host in rs ==> s.crt == rs[s.host].crtPath && s.key == rs[s.host].keyPath)
           && (s.host !in rs ==> s.crt == "" && s.key == "")
  {
    RuleServicesCount(c, namespace, rules, rs);
    RuleServicesMembers(c, namespace, rules, rs);
    forall i, j | 0 <= i < |rules| && 0 <= j < |PathsOf(rules[i])|
      ensures ServedAt(c, namespace, rules, rs, i, j)
    {
      RuleServicesAt(c, namespace, rules, rs, i, j);
    }
  }

  /** Then the default backend, if any, adds one service with no host, path or secrets at the end. */
  lemma BlockShape(c: Cluster, ing: Ingress, rs: map<string, ReceiverSecrets>)
    ensures var b := Block(c, ing, rs);
      && |b| == PathCount(ing.rules) + (if ing.backend.Some? then 1 else 0)
      && b[..PathCount(ing.rules)] == RuleServices(c, ing.namespace, ing.rules, rs)
      && (ing.backend.Some? ==>
            var d := b[|b| - 1];
            d.host == "" && d.path == "" && d.crt == "" && d.key == "" && d.port == 443)
  {
    RuleServicesShape(c, ing.namespace, ing.rules, rs);
  }

  /* ---------------- publish ---------------- */

  /** The secrets of a namespace, by name. */
  function SecretsIn(c: Cluster, namespace: string): map<string, seq<string>> {
    if namespace in c.secrets then c.secrets[namespace] else map[]
  }

  /** LoadSecrets for one Ingress. */
  function LoadFor(c: Cluster, ing: Ingress): Result<map<string, ReceiverSecrets>> {
    LoadSecretsSpec(ing.annotations, c.decode, SecretsIn(c, ing.namespace), c.fs)
  }

  /** An Ingress publish can build services for. */
  predicate Publishable(c: Cluster, ing: Ingress) {
    LoadFor(c, ing).Ok?
  }

  function BlockOf(c: Cluster, ing: Ingress): seq<Service>
    requires Publishable(c, ing)
  {
    Block(c, ing, LoadFor(c, ing).value)
  }

  /**
   * publish(key) over a listing: the blocks of all Ingresses in listing
   * order, the block of the Ingress with the trigger key as Delta, and
   * the first secret error instead of any snapshot.
   */
  function PublishSpec(c: Cluster, ings: seq<Ingress>, key: string): Result<Snapshot> {
    if ings == [] then Ok(Snapshot([], []))
    else
      var init := ings[..|ings| - 1];
      var ing := ings[|ings| - 1];
      var prev := PublishSpec(c, init, key);
      if prev.Err? then prev
      else
        var rs := LoadFor(c, ing);
        if rs.Err? then Err(rs.error)
        else
          var block := Block(c, ing, rs.value);
          Ok(Snapshot(prev.value.services + block, if IngressKey(ing) == key then block else prev.value.delta))
  }

  /** The secrets of every Ingress of the listing load, so publish succeeds whatever the key. */
  predicate AllPublishable(c: Cluster, ings: seq<Ingress>) {
    forall i :: 0 <= i < |ings| ==> Publishable(c, ings[i])
  }

  /** The concatenation of the blocks of a listing of publishable Ingresses. */
  function Services(c: Cluster, ings: seq<Ingress>): seq<Service>
    requires AllPublishable(c, ings)
  {
    if ings == [] then []
    else Services(c, ings[..|ings| - 1]) + BlockOf(c, ings[|ings| - 1])
  }

  /**
   * publish succeeds exactly when the secrets of every Ingress load, and
   * its Services are then the blocks of the Ingresses in listing order.
   */
  lemma PublishOk(c: Cluster, ings: seq<Ingress>, key: string)
    ensures PublishSpec(c, ings, key).Ok? <==> forall i :: 0 <= i < |ings| ==> LoadFor(c, ings[i]).Ok?
    ensures PublishSpec(c, ings, key).Ok? ==> PublishSpec(c, ings, key).value.services == Services(c, ings)
  {
    PublishOkIff(c, ings, key);
    if PublishSpec(c, ings, key).Ok? {
      PublishServices(c, ings, key);
    }
  }

  lemma {:induction false} PublishOkIff(c: Cluster, ings: seq<Ingress>, key: string)
    ensures PublishSpec(c, ings, key).Ok? <==> AllPublishable(c, ings)
    decreases |ings|
  {
    if ings != [] {
      var init := ings[..|ings| - 1];
      var last := ings[|ings| - 1];
      PublishOkIff(c, init, key);
      assert PublishSpec(c, ings, key).Ok? <==> PublishSpec(c, init, key).Ok? && Publishable(c, last);
      AllPublishableSnoc(c, ings);
    }
  }

  lemma AllPublishableSnoc(c: Cluster, ings: seq<Ingress>)
    requires ings != []
    ensures AllPublishable(c, ings) <==> AllPublishable(c, ings[..|ings| - 1]) && Publishable(c, ings[|ings| - 1])
  {
    var init := ings[..|ings| - 1];
    assert forall i :: 0 <= i < |init| ==> init[i] == ings[i];
  }

  lemma {:induction false} PublishServices(c: Cluster, ings: seq<Ingress>, key: string)
    requires AllPublishable(c, ings) && PublishSpec(c, ings, key).Ok?
    ensures PublishSpec(c, ings, key).value.services == Services(c, ings)
    decreases |ings|
  {
    if ings != [] {
      var init := ings[..|ings| - 1];
      assert forall i :: 0 <= i < |init| ==> init[i] == ings[i];
      PublishServices(c, init, key);
    }
  }

  /** d occurs in s starting at index lo. */
  predicate SegmentAt<T(==)>(d: seq<T>, s: seq<T>, lo: nat) {
    lo + |d| <= |s| && s[lo..lo + |d|] == d
  }

  /** Delta is empty when no listed Ingress has the trigger key (a deletion). */
  lemma {:induction false} PublishDeltaEmpty(c: Cluster, ings: seq<Ingress>, key: string)
    requires PublishSpec(c, ings, key).Ok?
    requires forall i :: 0 <= i < |ings| ==> IngressKey(ings[i]) != key
    ensures PublishSpec(c, ings, key).value.delta == []
    decreases |ings|
  {
    if ings != [] {
      var init := ings[..|ings| - 1];
      assert forall i :: 0 <= i < |init| ==> init[i] == ings[i];
      PublishDeltaEmpty(c, init, key);
    }
  }

  /** Otherwise Delta is the block of the last Ingress with the trigger key. */
  lemma {:induction false} PublishDeltaIsBlock(c: Cluster, ings: seq<Ingress>, key: string, i: nat)
    requires PublishSpec(c, ings, key).Ok?
    requires i < |ings| && IngressKey(ings[i]) == key
    requires forall j :: i < j < |ings| ==> IngressKey(ings[j]) != key
    ensures Publishable(c, ings[i]) && PublishSpec(c, ings, key).value.delta == BlockOf(c, ings[i])
    decreases |ings|
  {
    var init := ings[..|ings| - 1];
    if i < |init| {
      assert PublishSpec(c, init, key).Ok?;
      assert init[i] == ings[i];
      assert forall j :: i < j < |init| ==> init[j] == ings[j];
      PublishDeltaIsBlock(c, init, key, i);
    }
  }

  /** Delta is a contiguous run of Services. */
  lemma {:induction false} PublishDeltaSegment(c: Cluster, ings: seq<Ingress>, key: string)
    requires PublishSpec(c, ings, key).Ok?
    ensures var snap := PublishSpec(c, ings, key).value;
      exists lo: nat :: SegmentAt(snap.delta, snap.services, lo)
    decreases |ings|
  {
    if ings == [] {
      assert SegmentAt<Service>([], [], 0);
    } else {
      var init := ings[..|ings| - 1];
      var last := |ings| - 1;
      assert forall i :: 0 <= i < |init| ==> init[i] == ings[i];
      PublishDeltaSegment(c, init, key);
      var prev := PublishSpec(c, init, key).value;
      var snap := PublishSpec(c, ings, key).value;
      if IngressKey(ings[last]) == key {
        SegmentAtEnd(prev.services, snap.delta);
      } else {
        var lo: nat :| SegmentAt(prev.delta, prev.services, lo);
        SegmentExtend(prev.delta, prev.services, snap.services[|prev.services|..], lo);
        assert prev.services + snap.services[|prev.services|..] == snap.services;
      }
    }
  }

  lemma SegmentAtEnd<T>(s: seq<T>, t: seq<T>)
    ensures SegmentAt(t, s + t, |s|)
  {
    assert (s + t)[|s|..|s| + |t|] == t;
  }

  lemma SegmentExtend<T>(d: seq<T>, s: seq<T>, t: seq<T>, lo: nat)
    requires SegmentAt(d, s, lo)
    ensures SegmentAt(d, s + t, lo)
  {
    assert (s + t)[lo..lo + |d|] == s[lo..lo + |d|];
  }

  lemma {:induction false} ServicesAppend(c: Cluster, a: seq<Ingress>, b: seq<Ingress>)
    requires AllPublishable(c, a) && AllPublishable(c, b)
    ensures AllPublishable(c, a + b)
    ensures Services(c, a + b) == Services(c, a) + Services(c, b)
    decreases |b|
  {
    if b != [] {
      var binit := b[..|b| - 1];
      assert (a + b)[..|a + b| - 1] == a + binit;
      ServicesAppend(c, a, binit);
    } else {
      assert a + b == a;
    }
  }

  /**
   * The listing order of the Ingress store is unspecified. Whatever order
   * it comes in, publish succeeds or fails alike, and Services holds the
   * same services, only in another order.
   */
  lemma {:induction false} PublishOrderIndependent(c: Cluster, a: seq<Ingress>, b: seq<Ingress>, key: string)
    requires multiset(a) == multiset(b)
    ensures PublishSpec(c, a, key).Ok? <==> PublishSpec(c, b, key).Ok?
    ensures PublishSpec(c, a, key).Ok? ==>
      multiset(PublishSpec(c, a, key).value.services) == multiset(PublishSpec(c, b, key).value.services)
  {
    PublishOk(c, a, key);
    PublishOk(c, b, key);
    if PublishSpec(c, a, key).Ok? {
      forall i | 0 <= i < |b|
        ensures LoadFor(c, b[i]).Ok?
      {
        assert b[i] in multiset(a);
      }
      ServicesPermuted(c, a, b);
    } else {
      var i :| 0 <= i < |a| && !LoadFor(c, a[i]).Ok?;
      assert a[i] in multiset(b);
    }
  }

  lemma ServicesSplit(c: Cluster, front: seq<Ingress>, x: Ingress, back: seq<Ingress>)
    requires AllPublishable(c, front) && Publishable(c, x) && AllPublishable(c, back)
    ensures AllPublishable(c, front + [x] + back) && AllPublishable(c, front + back)
    ensures Services(c, front + [x] + back) == Services(c, front) + BlockOf(c, x) + Services(c, back)
    ensures Services(c, front + back) == Services(c, front) + Services(c, back)
  {
    assert AllPublishable(c, [x]);
    ServicesAppend(c, front, back);
    ServicesAppend(c, front, [x]);
    ServicesAppend(c, front + [x], back);
    assert Services(c, [x]) == BlockOf(c, x) by {
      assert [x][..0] == [];
    }
  }

  /** Taking one Ingress out of a listing takes its block out of Services. */
  lemma ServicesRemove(c: Cluster, b: seq<Ingress>, j: nat)
    requires j < |b| && AllPublishable(c, b)
    ensures AllPublishable(c, b[..j] + b[j + 1..])
    ensures multiset(Services(c, b)) == multiset(Services(c, b[..j] + b[j + 1..])) + multiset(BlockOf(c, b[j]))
  {
    var x, front, back := b[j], b[..j], b[j + 1..];
    PublishableParts(c, b, j);
    ServicesSplit(c, front, x, back);
    var sf, sx, sb := Services(c, front), BlockOf(c, x), Services(c, back);
    assert multiset(sf + sx + sb) == multiset(sf) + multiset(sx) + multiset(sb);
    assert multiset(sf + sb) == multiset(sf) + multiset(sb);
  }

  /** The Ingresses before and after position j of a publishable listing are publishable. */
  lemma PublishableParts(c: Cluster, b: seq<Ingress>, j: nat)
    requires j < |b| && AllPublishable(c, b)
    ensures b == b[..j] + [b[j]] + b[j + 1..]
    ensures AllPublishable(c, b[..j]) && Publishable(c, b[j]) && AllPublishable(c, b[j + 1..])
  {
    var front, back := b[..j], b[j + 1..];
    assert b == front + [b[j]] + back;
    assert forall i :: 0 <= i < |front| ==> front[i] == b[i];
    assert forall i :: 0 <= i < |back| ==> back[i] == b[j + 1 + i];
  }

  lemma MultisetRemove<T>(a: seq<T>, b: seq<T>, j: nat)
    requires |a| > 0 && j < |b| && multiset(a) == multiset(b) && b[j] == a[|a| - 1]
    ensures multiset(a[..|a| - 1]) == multiset(b[..j] + b[j + 1..])
  {
    var x := b[j];
    assert a == a[..|a| - 1] + [x];
    assert multiset(a) == multiset(a[..|a| - 1]) + multiset{x};
    assert b == b[..j] + [x] + b[j + 1..];
    assert multiset(b) == multiset(b[..j] + b[j + 1..]) + multiset{x};
    assert multiset(a[..|a| - 1]) == multiset(a) - multiset{x};
    assert multiset(b[..j] + b[j + 1..]) == multiset(b) - multiset{x};
  }

  lemma {:induction false} ServicesPermuted(c: Cluster, a: seq<Ingress>, b: seq<Ingress>)
    requires AllPublishable(c, a) && AllPublishable(c, b)
    requires multiset(a) == multiset(b)
    ensures multiset(Services(c, a)) == multiset(Services(c, b))
    decreases |a|
  {
    if a == [] {
      assert |b| == |multiset(b)| == 0;
    } else {
      var init := a[..|a| - 1];
      var x := a[|a| - 1];
      assert x in multiset(b);
      var j :| 0 <= j < |b| && b[j] == x;
      MultisetRemove(a, b, j);
      ServicesRemove(c, b, j);
      assert AllPublishable(c, init) by {
        assert forall i :: 0 <= i < |init| ==> init[i] == a[i];
      }
      ServicesPermuted(c, init, b[..j] + b[j + 1..]);
    }
  }

  /* ---------------- StoreToIngressLister.List ---------------- */

  /** The stored Ingresses in the order the store enumerates their keys. */
  function Listed(store: map<string, Ingress>, order: seq<string>): (items: seq<Ingress>)
    requires forall i :: 0 <= i < |order| ==> order[i] in store
    ensures |items| == |order|
  {
    seq(|order|, i requires 0 <= i < |order| => store[order[i]])
  }

  /** An enumeration of the store: every key once. */
  predicate Enumerates(store: map<string, Ingress>, order: seq<string>) {
    && (forall i :: 0 <= i < |order| ==> order[i] in store)
    && (forall k :: k in store ==> k in order)
    && (forall i, j :: 0 <= i < j < |order| ==> order[i] != order[j])
  }

  /** List, appending the stored Ingresses one by one. */
  method List(store: map<string, Ingress>, order: seq<string>) returns (items: seq<Ingress>)
    requires Enumerates(store, order)
    ensures items == Listed(store, order)
  {
    items := [];
    for i := 0 to |order|
      invariant items == Listed(store, order[..i])
    {
      items := items + [store[order[i]]];
    }
    assert order[..|order|] == order;
  }

  lemma {:induction false} DistinctCount(s: seq<string>, x: string)
    requires forall i, j :: 0 <= i < j < |s| ==> s[i] != s[j]
    ensures multiset(s)[x] == if x in s then 1 else 0
    decreases |s|
  {
    if s != [] {
      var init, last := s[..|s| - 1], s[|s| - 1];
      assert s == init + [last];
      assert multiset(s) == multiset(init) + multiset{last};
      DistinctCount(init, x);
      if x == last {
        assert x !in init by {
          forall i | 0 <= i < |init| ensures init[i] != x {
            assert init[i] == s[i];
          }
        }
      }
    }
  }

  lemma {:induction false} ListedPermuted(store: map<string, Ingress>, a: seq<string>, b: seq<string>)
    requires forall i :: 0 <= i < |a| ==> a[i] in store
    requires forall i :: 0 <= i < |b| ==> b[i] in store
    requires multiset(a) == multiset(b)
    ensures multiset(Listed(store, a)) == multiset(Listed(store, b))
    decreases |a|
  {
    if a == [] {
      assert |b| == |multiset(b)| == 0;
    } else {
      var init := a[..|a| - 1];
      var x := a[|a| - 1];
      assert x in multiset(b);
      var j :| 0 <= j < |b| && b[j] == x;
      MultisetRemove(a, b, j);
      var front, back := b[..j], b[j + 1..];
      assert forall i :: 0 <= i < |back| ==> back[i] == b[j + 1 + i];
      ListedPermuted(store, init, front + back);
      assert Listed(store, a) == Listed(store, init) + [store[x]];
      assert Listed(store, b) == Listed(store, front) + [store[x]] + Listed(store, back);
      assert Listed(store, front + back) == Listed(store, front) + Listed(store, back);
    }
  }

  /**
   * Any two enumerations of the same store list the same Ingresses, only
   * in another order; with PublishOrderIndependent, publish's outcome and
   * its multiset of Services do not depend on the enumeration order.
   */
  lemma ListingsPermute(store: map<string, Ingress>, o1: seq<string>, o2: seq<string>)
    requires Enumerates(store, o1) && Enumerates(store, o2)
    ensures multiset(Listed(store, o1)) == multiset(Listed(store, o2))
    ensures forall x :: x in Listed(store, o1) <==> exists k :: k in store && store[k] == x
  {
    forall x
      ensures multiset(o1)[x] == multiset(o2)[x]
    {
      DistinctCount(o1, x);
      DistinctCount(o2, x);
    }
    assert multiset(o1) == multiset(o2);
    ListedPermuted(store, o1, o2);
    forall x | exists k :: k in store && store[k] == x
      ensures x in Listed(store, o1)
    {
      var k :| k in store && store[k] == x;
      var i :| 0 <= i < |o1| && o1[i] == k;
      assert Listed(store, o1)[i] == x;
    }
  }

  /* ---------------- the building loops ---------------- */

  lemma AddressesAtSnoc(addrs: seq<string>, k: nat, port: int)
    requires k < |addrs| && port != 0
    ensures AddressesAt(addrs[..k + 1], port) == AddressesAt(addrs[..k], port) + [Address(addrs[k], port)]
  {
    var longer, shorter := AddressesAt(addrs[..k + 1], port), AddressesAt(addrs[..k], port);
    assert forall i :: 0 <= i < k ==> longer[i] == Address(addrs[i], port) == shorter[i];
  }

  lemma PortEndpointsSnoc(addrs: seq<string>, ports: seq<EndpointPort>, j: nat, sp: IntOrString)
    requires j < |ports|
    ensures PortEndpoints(addrs, ports[..j + 1], sp) == PortEndpoints(addrs, ports[..j], sp) + AddressesAt(addrs, TargetPort(ports[j], sp))
  {
    assert ports[..j + 1][..j] == ports[..j];
  }

  lemma PortEndpointsStep(prefix: seq<string>, addrs: seq<string>, ports: seq<EndpointPort>, j: nat, sp: IntOrString)
    requires j < |ports|
    ensures prefix + PortEndpoints(addrs, ports[..j + 1], sp)
         == prefix + PortEndpoints(addrs, ports[..j], sp) + AddressesAt(addrs, TargetPort(ports[j], sp))
  {
    PortEndpointsSnoc(addrs, ports, j, sp);
  }

  /** The innermost loop of getEndpoints: one "ip:port" per address. */
  method AppendAddresses(endpoints: seq<string>, addrs: seq<string>, port: int) returns (out: seq<string>)
    requires port != 0
    ensures out == endpoints + AddressesAt(addrs, port)
  {
    out := endpoints;
    for k := 0 to |addrs|
      invariant out == endpoints + AddressesAt(addrs[..k], port)
    {
      AddressesAtSnoc(addrs, k, port);
      out := out + [Address(addrs[k], port)];
    }
    assert addrs[..|addrs|] == addrs;
  }

  /** One port of a subset: its addresses at the target port, if the port matches. */
  method AppendPort(endpoints: seq<string>, addrs: seq<string>, epPort: EndpointPort, sp: IntOrString)
    returns (out: seq<string>)
    ensures out == endpoints + AddressesAt(addrs, TargetPort(epPort, sp))
  {
    var targetPort := 0;
    match sp {
      case IntVal(v) =>
        if epPort.port == v {
          targetPort := epPort.port;
        }
      case StrVal(n) =>
        if epPort.name == n {
          targetPort := epPort.port;
        }
    }
    if targetPort == 0 {
      return endpoints;
    }
    out := AppendAddresses(endpoints, addrs, targetPort);
  }

  /** The port loop of getEndpoints over one subset. */
  method AppendSubset(endpoints: seq<string>, ss: EndpointSubset, sp: IntOrString) returns (out: seq<string>)
    ensures out == endpoints + PortEndpoints(ss.addresses, ss.ports, sp)
  {
    out := endpoints;
    for j := 0 to |ss.ports|
      invariant out == endpoints + PortEndpoints(ss.addresses, ss.ports[..j], sp)
    {
      out := AppendPort(out, ss.addresses, ss.ports[j], sp);
      PortEndpointsStep(endpoints, ss.addresses, ss.ports, j, sp);
    }
    assert ss.ports[..|ss.ports|] == ss.ports;
  }

  /** getEndpoints: subset by subset, port by port, address by address. */
  method GetEndpoints(c: Cluster, svc: ServiceRef, sp: IntOrString) returns (endpoints: seq<string>)
    ensures endpoints == Endpoints(c, svc, sp)
  {
    endpoints := [];
    if svc !in c.endpoints {
      return;
    }
    var subsets := c.endpoints[svc];
    for i := 0 to |subsets|
      invariant endpoints == EndpointsOf(subsets[..i], sp)
    {
      assert subsets[..i + 1][..i] == subsets[..i];
      endpoints := AppendSubset(endpoints, subsets[i], sp);
    }
    assert subsets[..|subsets|] == subsets;
  }

  /** The services of one rule's paths. */
  method BuildPaths(c: Cluster, namespace: string, host: string, paths: seq<IngressPath>,
                    rs: map<string, ReceiverSecrets>) returns (services: seq<Service>)
    ensures services == PathServices(c, namespace, host, paths, rs)
  {
    services := [];
    for j := 0 to |paths|
      invariant services == PathServices(c, namespace, host, paths[..j], rs)
    {
      assert paths[..j + 1][..j] == paths[..j];
      var svc := ServiceRef(paths[j].backend.serviceName, namespace);
      var endpoints := GetEndpoints(c, svc, paths[j].backend.servicePort);
      services := services + [LBService(svc, endpoints, host, paths[j].path, SecretsFor(rs, host))];
    }
    assert paths[..|paths|] == paths;
  }

  /** The loop of publish over one Ingress's rules, then its default backend. */
  method BuildBlock(c: Cluster, ing: Ingress, rs: map<string, ReceiverSecrets>) returns (newServices: seq<Service>)
    ensures newServices == Block(c, ing, rs)
  {
    newServices := [];
    var rules := ing.rules;
    for i := 0 to |rules|
      invariant newServices == RuleServices(c, ing.namespace, rules[..i], rs)
    {
      assert rules[..i + 1][..i] == rules[..i];
      var rule := rules[i];
      if rule.http.Some? {
        var services := BuildPaths(c, ing.namespace, rule.host, rule.http.value, rs);
        newServices := newServices + services;
      }
    }
    assert rules[..|rules|] == rules;
    if ing.backend.Some? {
      var b := ing.backend.value;
      var svc := ServiceRef(b.serviceName, ing.namespace);
      var endpoints := GetEndpoints(c, svc, b.servicePort);
      newServices := newServices + [LBService(svc, endpoints, "", "", NoSecrets)];
    }
  }

  /** Once an Ingress's secrets fail to load, the later Ingresses change nothing. */
  lemma {:induction false} PublishStops(c: Cluster, ings: seq<Ingress>, n: nat, key: string)
    requires n <= |ings| && PublishSpec(c, ings[..n], key).Err?
    ensures PublishSpec(c, ings, key) == PublishSpec(c, ings[..n], key)
    decreases |ings| - n
  {
    if n < |ings| {
      assert ings[..n + 1][..n] == ings[..n];
      PublishStops(c, ings, n + 1, key);
    } else {
      assert ings[..n] == ings;
    }
  }

  /* ---------------- publish as written: a rule without HTTP ---------------- */

  /** What publish as written comes to: a snapshot or an error, or a nil dereference. */
  datatype PublishOutcome = Published(result: Result<Snapshot>) | NilHTTPPanic

  /**
   * publish as written: once an Ingress's secrets load, its rules are read
   * without a check, and the first rule without an HTTP part ends the run.
   */
  function PublishAsWritten(c: Cluster, ings: seq<Ingress>, key: string): PublishOutcome {
    if ings == [] then Published(Ok(Snapshot([], [])))
    else
      var prev := PublishAsWritten(c, ings[..|ings| - 1], key);
      var ing := ings[|ings| - 1];
      if prev.NilHTTPPanic? || prev.result.Err? then prev
      else
        var rs := LoadFor(c, ing);
        if rs.Err? then Published(Err(rs.error))
        else if !HasHTTP(ing.rules) then NilHTTPPanic
        else
          var block := Block(c, ing, rs.value);
          Published(Ok(Snapshot(prev.result.value.services + block,
                                if IngressKey(ing) == key then block else prev.result.value.delta)))
  }

  /** Ingress i is the first with a rule without HTTP, and every secret up to it loads. */
  predicate ReachesNilHTTP(c: Cluster, ings: seq<Ingress>, i: nat) {
    && i < |ings| && LoadFor(c, ings[i]).Ok? && !HasHTTP(ings[i].rules)
    && forall j :: 0 <= j < i ==> LoadFor(c, ings[j]).Ok? && HasHTTP(ings[j].rules)
  }

  /**
   * When publish as written finishes, it agrees with publish that skips
   * rules without HTTP, and when it succeeds every rule had HTTP.
   */
  lemma PublishAsWrittenAgrees(c: Cluster, ings: seq<Ingress>, key: string)
    ensures PublishAsWritten(c, ings, key).Published? ==> PublishAsWritten(c, ings, key).result == PublishSpec(c, ings, key)
    ensures PublishAsWritten(c, ings, key).Published? && PublishAsWritten(c, ings, key).result.Ok? ==>
      forall j :: 0 <= j < |ings| ==> HasHTTP(ings[j].rules)
  {
    PublishAsWrittenFinishes(c, ings, key);
    PublishAsWrittenAllHTTP(c, ings, key);
  }

  lemma {:induction false} PublishAsWrittenFinishes(c: Cluster, ings: seq<Ingress>, key: string)
    ensures PublishAsWritten(c, ings, key).Published? ==> PublishAsWritten(c, ings, key).result == PublishSpec(c, ings, key)
    decreases |ings|
  {
    if ings != [] {
      PublishAsWrittenFinishes(c, ings[..|ings| - 1], key);
    }
  }

  lemma {:induction false} PublishAsWrittenAllHTTP(c: Cluster, ings: seq<Ingress>, key: string)
    ensures PublishAsWritten(c, ings, key).Published? && PublishAsWritten(c, ings, key).result.Ok? ==>
      forall j :: 0 <= j < |ings| ==> HasHTTP(ings[j].rules)
    decreases |ings|
  {
    if ings != [] {
      var init := ings[..|ings| - 1];
      PublishAsWrittenAllHTTP(c, init, key);
      assert forall j :: 0 <= j < |init| ==> init[j] == ings[j];
    }
  }

  /**
   * publish as written dereferences nil exactly when some Ingress with a
   * rule without HTTP is reached: the secrets of it and of every Ingress
   * before it load, and none before it has such a rule.
   */
  lemma {:induction false} PublishAsWrittenPanics(c: Cluster, ings: seq<Ingress>, key: string)
    ensures PublishAsWritten(c, ings, key).NilHTTPPanic? <==> exists i: nat :: ReachesNilHTTP(c, ings, i)
    decreases |ings|
  {
    if ings != [] {
      var init := ings[..|ings| - 1];
      var last := |ings| - 1;
      assert forall j :: 0 <= j < |init| ==> init[j] == ings[j];
      PublishAsWrittenPanics(c, init, key);
      var prev := PublishAsWritten(c, init, key);
      if prev.NilHTTPPanic? {
        var i: nat :| ReachesNilHTTP(c, init, i);
        assert ReachesNilHTTP(c, ings, i);
      } else {
        forall i: nat | i < last
          ensures ReachesNilHTTP(c, ings, i) == ReachesNilHTTP(c, init, i)
        {
        }
        PanicsAtLast(c, ings, key);
      }
    }
  }

  /** After a listing that publish as written finishes, the next Ingress panics exactly when it is reached. */
  lemma PanicsAtLast(c: Cluster, ings: seq<Ingress>, key: string)
    requires ings != [] && PublishAsWritten(c, ings[..|ings| - 1], key).Published?
    ensures PublishAsWritten(c, ings, key).NilHTTPPanic? <==> ReachesNilHTTP(c, ings, |ings| - 1)
  {
    var init := ings[..|ings| - 1];
    var last := |ings| - 1;
    assert forall j :: 0 <= j < |init| ==> init[j] == ings[j];
    PublishAsWrittenAgrees(c, init, key);
    PublishOk(c, init, key);
    if ReachesNilHTTP(c, ings, last) {
      assert PublishSpec(c, init, key).Ok?;
    }
  }

  /**
   * One Ingress whose secrets load (it names no receivers) with one rule
   * without HTTP: publish as written dereferences nil, while publish that
   * skips the rule publishes an empty snapshot.
   */
  lemma RuleWithoutHTTPPanics(c: Cluster, ing: Ingress, key: string)
    requires ReceiversKey !in ing.annotations && ing.backend.None?
    requires |ing.rules| == 1 && ing.rules[0].http.None?
    ensures PublishAsWritten(c, [ing], key) == NilHTTPPanic
    ensures PublishSpec(c, [ing], key) == Ok(Snapshot([], []))
  {
    NoReceiversNoSecrets(ing.annotations, c.decode, SecretsIn(c, ing.namespace), c.fs);
    assert [ing][..0] == [];
    assert ing.rules[..0] == [];
    assert !HasHTTP(ing.rules);
    assert PathsOf(ing.rules[0]) == [];
    assert RuleServices(c, ing.namespace, ing.rules[..0], map[]) == [];
    assert PathServices(c, ing.namespace, ing.rules[0].host, PathsOf(ing.rules[0]), map[]) == [];
    assert RuleServices(c, ing.namespace, ing.rules, map[]) == [];
    assert Block(c, ing, map[]) == [];
  }

  /* ---------------- the worker ---------------- */

  /** One pass of worker as written: Add the key back after a failed publish, Done otherwise. */
  function WorkerAsWritten(st: WorkQueue.QueueState, ok: bool): WorkQueue.QueueState {
    var (k, st1) := WorkQueue.Taken(st);
    if k.None? then st
    else if ok then WorkQueue.Finished(st1, k.value)
    else WorkQueue.Added(st1, k.value)
  }

  /** One pass of the corrected worker: after a failed publish, Add the key and then call Done. */
  function WorkerCorrected(st: WorkQueue.QueueState, ok: bool): WorkQueue.QueueState {
    var (k, st1) := WorkQueue.Taken(st);
    if k.None? then st
    else if ok then WorkQueue.Finished(st1, k.value)
    else WorkQueue.Finished(WorkQueue.Added(st1, k.value), k.value)
  }

  /** What happens to the queue: keys the handlers enqueue, and worker passes with their publish outcome. */
  datatype QueueEvent = Enqueued(key: string) | WorkerPass(ok: bool)

  function RunAsWritten(st: WorkQueue.QueueState, evs: seq<QueueEvent>): WorkQueue.QueueState {
    if evs == [] then st
    else
      var prev := RunAsWritten(st, evs[..|evs| - 1]);
      match evs[|evs| - 1]
      case Enqueued(k) => WorkQueue.Added(prev, k)
      case WorkerPass(ok) => WorkerAsWritten(prev, ok)
  }

  /** Both workers keep the queue consistent. */
  lemma WorkerKeepsConsistent(st: WorkQueue.QueueState, ok: bool)
    requires WorkQueue.Consistent(st)
    ensures WorkQueue.Consistent(WorkerAsWritten(st, ok))
    ensures WorkQueue.Consistent(WorkerCorrected(st, ok))
  {
    WorkQueue.TakenSpec(st);
    var (k, st1) := WorkQueue.Taken(st);
    if k.Some? {
      WorkQueue.AddedSpec(st1, k.value);
      WorkQueue.FinishedSpec(st1, k.value);
      WorkQueue.FinishedSpec(WorkQueue.Added(st1, k.value), k.value);
    }
  }

  /**
   * A key that is both processing and dirty, as the worker as written
   * leaves a key whose publish failed, stays so whatever is enqueued and
   * however many passes follow: it is never queued again, so no later
   * pass ever takes it.
   */
  lemma {:induction false} StrandedForever(st: WorkQueue.QueueState, k: string, evs: seq<QueueEvent>)
    requires WorkQueue.Consistent(st) && k in st.processing && k in st.dirty
    ensures var st' := RunAsWritten(st, evs);
      && WorkQueue.Consistent(st')
      && k in st'.processing && k in st'.dirty && k !in st'.queue
      && WorkQueue.Taken(st').0 != Some(k)
    decreases |evs|
  {
    if evs != [] {
      var prev := RunAsWritten(st, evs[..|evs| - 1]);
      StrandedForever(st, k, evs[..|evs| - 1]);
      WorkQueue.TakenSpec(prev);
      match evs[|evs| - 1]
      case Enqueued(x) =>
        WorkQueue.AddedSpec(prev, x);
      case WorkerPass(ok) =>
        WorkerKeepsConsistent(prev, ok);
        var (x, st1) := WorkQueue.Taken(prev);
        if x.Some? {
          WorkQueue.AddedSpec(st1, x.value);
          WorkQueue.FinishedSpec(st1, x.value);
        }
    }
    var st' := RunAsWritten(st, evs);
    WorkQueue.TakenSpec(st');
  }

  /**
   * The worker as written: a key enqueued once whose publish fails is
   * never taken again, whatever happens next.
   */
  lemma FailedPublishStrandsKey(k: string, evs: seq<QueueEvent>)
    ensures var st := WorkerAsWritten(WorkQueue.Added(WorkQueue.Empty, k), false);
      k in st.processing && k !in st.queue
      && WorkQueue.Taken(RunAsWritten(st, evs)).0 != Some(k)
  {
    var st := WorkerAsWritten(WorkQueue.Added(WorkQueue.Empty, k), false);
    assert WorkQueue.Added(WorkQueue.Empty, k).queue == [k];
    StrandedForever(st, k, evs);
  }

  /**
   * The corrected worker: after a failed publish the key is no longer
   * processing and is back in the queue, behind the keys already queued;
   * after a successful one it is done, and both workers agree there.
   */
  lemma CorrectedWorkerRetries(st: WorkQueue.QueueState, ok: bool)
    requires WorkQueue.Consistent(st) && st.queue != []
    ensures var k := st.queue[0];
      var st' := WorkerCorrected(st, ok);
      && k !in st'.processing
      && (!ok ==> st'.queue == st.queue[1..] + [k])
      && (ok ==> k !in st'.queue && st' == WorkerAsWritten(st, ok))
  {
    WorkQueue.TakenSpec(st);
  }

  /* ---------------- the watcher ---------------- */

  /** The state publish and the worker change: the work queue and what was sent on the publish channel. */
  class IngressWatcher {
    const cluster: Cluster
    const queue: WorkQueue.Queue
    var published: seq<Snapshot>

    predicate Valid()
      reads this, queue
    {
      queue.Valid()
    }

    constructor (cluster: Cluster)
      ensures this.cluster == cluster && published == []
      ensures fresh(queue) && queue.State() == WorkQueue.Empty && Valid()
    {
      this.cluster := cluster;
      queue := new WorkQueue.Queue();
      published := [];
    }

    /**
     * publish(key): send one snapshot of the listing, or, when some
     * Ingress's secrets fail to load, return that error and send nothing.
     */
    method Publish(listing: seq<Ingress>, key: string) returns (err: Option<string>)
      modifies this
      ensures var r := PublishSpec(cluster, listing, key);
        && (r.Ok? ==> err.None? && published == old(published) + [r.value])
        && (r.Err? ==> err == Some(r.error) && published == old(published))
    {
      var services: seq<Service> := [];
      var delta: seq<Service> := [];
      for i := 0 to |listing|
        invariant PublishSpec(cluster, listing[..i], key) == Ok(Snapshot(services, delta))
        invariant published == old(published)
      {
        assert listing[..i + 1][..i] == listing[..i];
        var ing := listing[i];
        var receivers := LoadSecrets(ing.annotations, cluster.decode, SecretsIn(cluster, ing.namespace), cluster.fs);
        if receivers.Err? {
          PublishStops(cluster, listing, i + 1, key);
          return Some(receivers.error);
        }
        var newServices := BuildBlock(cluster, ing, receivers.value);
        if IngressKey(ing) == key {
          delta := newServices;
        }
        services := services + newServices;
      }
      assert listing[..|listing|] == listing;
      published := published + [Snapshot(services, delta)];
      return None;
    }

    /** The event handlers shared by both informers. */
    method Handle(n: Notification)
      requires Valid()
      modifies queue
      ensures Valid()
      ensures EnqueuedKey(n).None? ==> queue.State() == old(queue.State())
      ensures EnqueuedKey(n).Some? ==> queue.State() == WorkQueue.Added(old(queue.State()), EnqueuedKey(n).value)
    {
      match n {
        case AddNotification(o) =>
          queue.Add(ObjectKey(o));
        case DeleteNotification(o) =>
          queue.Add(ObjectKey(o));
        case UpdateNotification(o, cur) =>
          if o != cur {
            queue.Add(ObjectKey(cur));
          }
      }
    }

    /** One pass of worker as written; None when the queue is empty (Get would wait). */
    method WorkerPassAsWritten(listing: seq<Ingress>) returns (key: Option<string>)
      requires Valid()
      modifies this, queue
      ensures Valid()
      ensures key == WorkQueue.Taken(old(queue.State())).0
      ensures queue.State() == WorkerAsWritten(old(queue.State()), AllPublishable(cluster, listing))
      ensures key.None? ==> published == old(published)
      ensures key.Some? ==> var r := PublishSpec(cluster, listing, key.value);
        published == old(published) + (if r.Ok? then [r.value] else [])
    {
      key := queue.Get();
      if key.None? {
        return;
      }
      var err := Publish(listing, key.value);
      PublishOk(cluster, listing, key.value);
      if err.Some? {
        queue.Add(key.value);
      } else {
        queue.Done(key.value);
      }
    }

    /** One pass of the corrected worker. */
    method WorkerPass(listing: seq<Ingress>) returns (key: Option<string>)
      requires Valid()
      modifies this, queue
      ensures Valid()
      ensures key == WorkQueue.Taken(old(queue.State())).0
      ensures queue.State() == WorkerCorrected(old(queue.State()), AllPublishable(cluster, listing))
      ensures key.None? ==> published == old(published)
      ensures key.Some? ==> var r := PublishSpec(cluster, listing, key.value);
        published == old(published) + (if r.Ok? then [r.value] else [])
    {
      key := queue.Get();
      if key.None? {
        return;
      }
      var err := Publish(listing, key.value);
      PublishOk(cluster, listing, key.value);
      if err.Some? {
        queue.Add(key.value);
      }
      queue.Done(key.value);
    }
  }
}
