// From a backend named in an Ingress to a Service of the VCL configuration.
module Backends {
  import opened Prelude
  import opened Orders
  import opened StableSort
  import opened VclSpec
  import opened CanonicalForm
  import opened Dispositions

  // What the API server knows.
  datatype IntOrString = Int(n: int32) | Str(s: string)

  datatype BackendRef = BackendRef(serviceName: string, servicePort: IntOrString)

  datatype ServicePort = ServicePort(name: string, port: int32)

  datatype EndpointPort = EndpointPort(name: string, port: int32)

  datatype Subset = Subset(addresses: seq<string>, notReady: seq<string>, ports: seq<EndpointPort>)

  datatype ProbeSpec = ProbeSpec(
    url: string, request: seq<string>, expResponse: Option<int32>, timeout: string, interval: string,
    initial: Option<int32>, window: Option<int32>, threshold: Option<int32>)

  datatype DirectorSpec = DirectorSpec(kind: string, warmup: Option<int32>, rampup: string)

  datatype BackendConfig = BackendConfig(
    key: string, uid: string, version: string, services: seq<string>,
    probe: Option<ProbeSpec>, director: Option<DirectorSpec>, hostHeader: string,
    connectTimeout: string, firstByteTimeout: string, betweenBytesTimeout: string,
    maxConnections: Option<int32>, proxyHeader: Option<int32>)

  // The lookups: the ports of a Service, its Endpoints, the port of its Pods
  // for one of its ports, and the BackendConfigs of a namespace.
  datatype Lookups = Lookups(
    ports: (string, string) -> Option<seq<ServicePort>>,
    endpoints: (string, string) -> Option<seq<Subset>>,
    targetPort: (string, string, ServicePort) -> Option<int32>,
    configs: string -> seq<BackendConfig>)

  // Errors, and the two cases that are a panic.
  datatype Failure =
    | NoService | NoEndpoints | NoTargetPort | NoPort | NoAddresses | EmptyHost
    | NilWindow | SecondDefaultBackend

  predicate IsPanic(f: Failure) {
    f.NilWindow? || f.SecondDefaultBackend?
  }

  // ---- Addresses ----

  function AddressAt(port: int32): string -> Address {
    (ip: string) => Address(ip, port)
  }

  predicate HasPort(s: Subset, port: int32) {
    exists j :: 0 <= j < |s.ports| && s.ports[j].port == port
  }

  // All of the addresses are those of the first subset with the port.
  function TargetAddresses(subsets: seq<Subset>, port: int32): Result<seq<Address>, Failure> {
    if subsets == [] then Err(NoAddresses)
    else if HasPort(subsets[0], port) then Ok(Map(AddressAt(port), subsets[0].addresses))
    else TargetAddresses(subsets[1..], port)
  }

  // The first subset that has the port among its ports.
  ghost predicate FirstOffer(subsets: seq<Subset>, port: int32, i: nat) {
    && i < |subsets| && (exists j :: 0 <= j < |subsets[i].ports| && subsets[i].ports[j].port == port)
    && forall l, j :: 0 <= l < i && 0 <= j < |subsets[l].ports| ==> subsets[l].ports[j].port != port
  }

  ghost predicate AddressesOf(s: Subset, port: int32, addrs: seq<Address>) {
    |addrs| == |s.addresses| && forall k :: 0 <= k < |addrs| ==> addrs[k] == Address(s.addresses[k], port)
  }

  // The addresses of a subset that are ready, in order, with the port.
  lemma {:induction false} TargetAddressesExactly(subsets: seq<Subset>, port: int32, i: nat)
    requires FirstOffer(subsets, port, i)
    ensures TargetAddresses(subsets, port).Ok? && AddressesOf(subsets[i], port, TargetAddresses(subsets, port).value)
  {
    if i > 0 {
      assert !HasPort(subsets[0], port);
      assert FirstOffer(subsets[1..], port, i - 1) by {
        forall l, j | 0 <= l < i - 1 && 0 <= j < |subsets[1..][l].ports| ensures subsets[1..][l].ports[j].port != port {
          assert subsets[1..][l] == subsets[l + 1];
        }
      }
      TargetAddressesExactly(subsets[1..], port, i - 1);
    } else {
      assert HasPort(subsets[0], port);
    }
  }

  method EndpsTargetPort2Addrs(subsets: seq<Subset>, targetPort: int32) returns (r: Result<seq<Address>, Failure>)
    ensures r == TargetAddresses(subsets, targetPort)
    ensures r == Err(NoAddresses) || (r.Ok? && exists i: nat :: FirstOffer(subsets, targetPort, i))
    ensures forall i: nat :: FirstOffer(subsets, targetPort, i) ==>
      r.Ok? && AddressesOf(subsets[i], targetPort, r.value)
  {
    forall i: nat | FirstOffer(subsets, targetPort, i)
      ensures TargetAddresses(subsets, targetPort).Ok?
      ensures AddressesOf(subsets[i], targetPort, TargetAddresses(subsets, targetPort).value)
    {
      TargetAddressesExactly(subsets, targetPort, i);
    }
    for i := 0 to |subsets|
      invariant TargetAddresses(subsets, targetPort) == TargetAddresses(subsets[i..], targetPort)
      invariant forall l, j :: 0 <= l < i && 0 <= j < |subsets[l].ports| ==> subsets[l].ports[j].port != targetPort
    {
      var subset := subsets[i];
      for j := 0 to |subset.ports|
        invariant forall k :: 0 <= k < j ==> subset.ports[k].port != targetPort
      {
        if subset.ports[j].port == targetPort {
          assert HasPort(subset, targetPort) && FirstOffer(subsets, targetPort, i);
          var addrs: seq<Address> := [];
          for k := 0 to |subset.addresses|
            invariant addrs == Map(AddressAt(targetPort), subset.addresses[..k])
          {
            addrs := addrs + [Address(subset.addresses[k], subset.ports[j].port)];
          }
          assert subset.addresses[..|subset.addresses|] == subset.addresses;
          return Ok(addrs);
        }
      }
    }
    return Err(NoAddresses);
  }

  // So every list of addresses has one port, and can be sorted.
  lemma {:induction false} TargetAddressesOnePort(subsets: seq<Subset>, port: int32)
    ensures TargetAddresses(subsets, port).Err? <==> forall i :: 0 <= i < |subsets| ==> !HasPort(subsets[i], port)
    ensures TargetAddresses(subsets, port).Ok? ==>
      OnePort(TargetAddresses(subsets, port).value) && forall a :: a in TargetAddresses(subsets, port).value ==>
        a.port == port
  {
    if subsets != [] {
      TargetAddressesOnePort(subsets[1..], port);
      if !HasPort(subsets[0], port) {
        assert forall i :: 1 <= i < |subsets| ==> subsets[i] == subsets[1..][i - 1];
      }
    }
  }

  predicate IsPort(port: ServicePort, p: IntOrString) {
    (p.Int? && port.port == p.n) || (p.Str? && port.name == p.s)
  }

  function FirstPort(ports: seq<ServicePort>, p: IntOrString): (i: nat)
    ensures i <= |ports| && (i < |ports| ==> IsPort(ports[i], p))
    ensures forall j :: 0 <= j < i ==> !IsPort(ports[j], p)
  {
    if ports == [] || IsPort(ports[0], p) then 0 else 1 + FirstPort(ports[1..], p)
  }

  function BackendAddresses(env: Lookups, namespace: string, ref: BackendRef): Result<seq<Address>, Failure> {
    match env.ports(namespace, ref.serviceName)
    case None => Err(NoService)
    case Some(ports) =>
      match env.endpoints(namespace, ref.serviceName)
      case None => Err(NoEndpoints)
      case Some(subsets) =>
        var i := FirstPort(ports, ref.servicePort);
        if i == |ports| then Err(NoPort)
        else
          match env.targetPort(namespace, ref.serviceName, ports[i])
          case None => Err(NoTargetPort)
          case Some(port) => if port == 0 then Err(NoPort) else TargetAddresses(subsets, port)
  }

  method IngBackend2Addrs(env: Lookups, namespace: string, ref: BackendRef) returns (r: Result<seq<Address>, Failure>)
    ensures r == BackendAddresses(env, namespace, ref)
  {
    var svc := env.ports(namespace, ref.serviceName);
    if svc.None? {
      return Err(NoService);
    }
    var endps := env.endpoints(namespace, ref.serviceName);
    if endps.None? {
      return Err(NoEndpoints);
    }
    var targetPort := 0;
    for i := 0 to |svc.value|
      invariant targetPort == 0 && i <= FirstPort(svc.value, ref.servicePort)
    {
      if IsPort(svc.value[i], ref.servicePort) {
        var port := env.targetPort(namespace, ref.serviceName, svc.value[i]);
        if port.None? {
          return Err(NoTargetPort);
        }
        targetPort := port.value;
        break;
      }
    }
    if targetPort == 0 {
      return Err(NoPort);
    }
    r := EndpsTargetPort2Addrs(endps.value, targetPort);
  }

  // The first port of a Service with the number or the name.
  ghost predicate FirstMatch(ports: seq<ServicePort>, servicePort: IntOrString, p: nat) {
    && p < |ports| && Matches(ports[p], servicePort)
    && forall q :: 0 <= q < p ==> !Matches(ports[q], servicePort)
  }

  ghost predicate Matches(port: ServicePort, servicePort: IntOrString) {
    match servicePort
    case Int(n) => port.port == n
    case Str(s) => port.name == s
  }

  // The addresses of a backend are those of the first subset with the target
  // port of the first matching port of its Service, and everything that can be
  // missing has an error of its own.
  lemma BackendAddressesExactly(env: Lookups, namespace: string, ref: BackendRef, p: nat)
    ensures var r := BackendAddresses(env, namespace, ref);
      var ports, endpoints := env.ports(namespace, ref.serviceName), env.endpoints(namespace, ref.serviceName);
      && (ports.None? ==> r == Err(NoService))
      && (ports.Some? && endpoints.None? ==> r == Err(NoEndpoints))
      && (ports.Some? && endpoints.Some? && (forall q: nat :: !FirstMatch(ports.value, ref.servicePort, q)) ==>
        r == Err(NoPort))
      && (ports.Some? && endpoints.Some? && FirstMatch(ports.value, ref.servicePort, p) ==>
        match env.targetPort(namespace, ref.serviceName, ports.value[p])
        case None => r == Err(NoTargetPort)
        case Some(port) =>
          if port == 0 then r == Err(NoPort)
          else
            && ((forall i: nat :: !FirstOffer(endpoints.value, port, i)) ==> r == Err(NoAddresses))
            && (forall i: nat :: FirstOffer(endpoints.value, port, i) ==>
              r.Ok? && AddressesOf(endpoints.value[i], port, r.value)))
  {
    if env.ports(namespace, ref.serviceName).Some? && env.endpoints(namespace, ref.serviceName).Some? {
      var ports := env.ports(namespace, ref.serviceName).value;
      var q := FirstPort(ports, ref.servicePort);
      assert q < |ports| ==> FirstMatch(ports, ref.servicePort, q);
      if FirstMatch(ports, ref.servicePort, p) {
        assert IsPort(ports[p], ref.servicePort) && p == q;
        var port := env.targetPort(namespace, ref.serviceName, ports[p]);
        if port.Some? {
          TargetAddressesOffered(env.endpoints(namespace, ref.serviceName).value, port.value);
        }
      }
    }
  }

  lemma TargetAddressesOffered(subsets: seq<Subset>, port: int32)
    ensures (forall i: nat :: !FirstOffer(subsets, port, i)) ==> TargetAddresses(subsets, port) == Err(NoAddresses)
    ensures forall i: nat :: FirstOffer(subsets, port, i) ==>
      TargetAddresses(subsets, port).Ok? && AddressesOf(subsets[i], port, TargetAddresses(subsets, port).value)
  {
    FirstOfferOrNone(subsets, port);
    forall i: nat | FirstOffer(subsets, port, i)
      ensures TargetAddresses(subsets, port).Ok?
      ensures AddressesOf(subsets[i], port, TargetAddresses(subsets, port).value)
    {
      TargetAddressesExactly(subsets, port, i);
    }
  }

  lemma {:induction false} FirstOfferOrNone(subsets: seq<Subset>, port: int32)
    ensures TargetAddresses(subsets, port) == Err(NoAddresses) || exists i: nat :: FirstOffer(subsets, port, i)
  {
    if subsets != [] {
      if HasPort(subsets[0], port) {
        assert FirstOffer(subsets, port, 0);
      } else {
        FirstOfferOrNone(subsets[1..], port);
        if i: nat :| FirstOffer(subsets[1..], port, i) {
          forall l, j | 0 <= l < i + 1 && 0 <= j < |subsets[l].ports| ensures subsets[l].ports[j].port != port {
            assert l > 0 ==> subsets[l] == subsets[1..][l - 1];
          }
          assert FirstOffer(subsets, port, i + 1);
        }
      }
    }
  }

  // ---- Probes ----

  function Itoa(n: int): string {
    if n < 0 then "-" + Decimal(-n) else Decimal(n)
  }

  function ItoaIfSet(n: Option<int32>): string {
    if n.Some? then Itoa(n.value) else ""
  }

  // The number of initial probes is taken from the window.
  function VCLProbe(p: ProbeSpec): Result<Probe, Failure> {
    if p.initial.Some? && p.window.None? then Err(NilWindow)
    else Ok(Probe(
      p.url, p.request, if p.expResponse.Some? then p.expResponse.value % 0x1_0000 else 0, p.timeout, p.interval,
      if p.initial.Some? then Itoa(p.window.value) else "", ItoaIfSet(p.window), ItoaIfSet(p.threshold)))
  }

  lemma ItoaInjective(m: int, n: int)
    requires Itoa(m) == Itoa(n)
    ensures m == n
  {
    DecimalDigits(if m < 0 then -m else m);
    DecimalDigits(if n < 0 then -n else n);
    assert Itoa(m)[0] == Itoa(n)[0];
    if m < 0 && n < 0 {
      assert Itoa(m)[1..] == Decimal(-m) && Itoa(n)[1..] == Decimal(-n);
      DecimalInjective(-m, -n);
    } else if m >= 0 && n >= 0 {
      DecimalInjective(m, n);
    }
  }

  lemma DecimalDigits(n: nat)
    ensures Decimal(n)[0] != '-'
  {
  }

  // The probe has the initial number that is asked for only if none is asked
  // for, or the same one as for the window.
  lemma ProbeInitialExactly(p: ProbeSpec)
    ensures VCLProbe(p).Ok? && VCLProbe(p).value.initial == ItoaIfSet(p.initial) <==>
      p.initial.None? || p.window == p.initial
    ensures VCLProbe(p).Err? <==> p.initial.Some? && p.window.None?
  {
    if p.initial.Some? && p.window.Some? && Itoa(p.initial.value) == Itoa(p.window.value) {
      ItoaInjective(p.initial.value, p.window.value);
    }
  }

  // Each setting of a probe comes from the field of its name, except for the
  // initial number. A number is kept if it fits.
  lemma ProbeFields(p: ProbeSpec)
    requires VCLProbe(p).Ok?
    ensures var r := VCLProbe(p).value;
      && r.url == p.url && r.request == p.request && r.timeout == p.timeout && r.interval == p.interval
      && (p.expResponse.None? ==> r.expResponse == 0)
      && (p.expResponse.Some? ==> (r.expResponse == p.expResponse.value <==> 0 <= p.expResponse.value < 0x1_0000))
      && (p.window.None? ==> r.window == "") && (p.window.Some? ==> r.window == Itoa(p.window.value))
      && (p.threshold.None? ==> r.threshold == "") && (p.threshold.Some? ==> r.threshold == Itoa(p.threshold.value))
      && (p.initial.None? ==> r.initial == "") && (p.initial.Some? ==> r.initial == Itoa(p.window.value))
  {
  }

  // ---- Services ----

  function DirectorKind(kind: string): uint8 {
    if kind == "round-robin" then 0 else if kind == "random" then 1 else if kind == "shard" then 2 else 255
  }

  function VCLDirector(d: DirectorSpec): Director {
    Director(d.rampup, if d.warmup.Some? then d.warmup.value as real / 100.0 else 0.0, DirectorKind(d.kind))
  }

  function Configured(b: BackendConfig): Result<Backend, Failure> {
    if b.probe.Some? && VCLProbe(b.probe.value).Err? then Err(NilWindow)
    else Ok(Backend(
      if b.probe.Some? then Some(VCLProbe(b.probe.value).value) else None,
      if b.director.Some? then Some(VCLDirector(b.director.value)) else None,
      b.hostHeader, b.connectTimeout, b.firstByteTimeout, b.betweenBytesTimeout,
      if b.maxConnections.Some? then b.maxConnections.value % 0x1_0000_0000 else 0,
      if b.proxyHeader.Some? then b.proxyHeader.value % 0x100 else 0))
  }

  // Each setting of a backend comes from the field of its name.
  lemma ConfiguredFields(b: BackendConfig)
    requires Configured(b).Ok?
    ensures var r := Configured(b).value;
      && r.hostHeader == b.hostHeader && r.connectTimeout == b.connectTimeout
      && r.firstByteTimeout == b.firstByteTimeout && r.betweenBytesTimeout == b.betweenBytesTimeout
      && (r.probe.None? <==> b.probe.None?) && (b.probe.Some? ==> VCLProbe(b.probe.value) == Ok(r.probe.value))
      && (r.director.None? <==> b.director.None?)
      && (b.maxConnections.None? ==> r.maxConnections == 0)
      && (b.maxConnections.Some? ==> (r.maxConnections == b.maxConnections.value <==> b.maxConnections.value >= 0))
      && (b.proxyHeader.None? ==> r.proxyHeader == 0)
      && (b.proxyHeader.Some? ==> (r.proxyHeader == b.proxyHeader.value <==> 0 <= b.proxyHeader.value < 0x100))
  {
  }

  lemma DirectorFields(d: DirectorSpec)
    ensures var r := VCLDirector(d);
      && r.rampup == d.rampup && 100.0 * r.warmup == (if d.warmup.Some? then d.warmup.value as real else 0.0)
      && (r.kind == 0 <==> d.kind == "round-robin") && (r.kind == 1 <==> d.kind == "random")
      && (r.kind == 2 <==> d.kind == "shard")
  {
  }

  // A Service, and the BackendConfig it was made with.
  datatype Entry = Entry(service: Service, config: Option<BackendConfig>)

  function FirstConfig(configs: seq<BackendConfig>, name: string): Option<BackendConfig> {
    if configs == [] then None
    else if name in configs[0].services then Some(configs[0])
    else FirstConfig(configs[1..], name)
  }

  function VCLService(env: Lookups, namespace: string, name: string, addrs: seq<Address>): Result<Entry, Failure> {
    var ns := if namespace == "" then "default" else namespace;
    match FirstConfig(env.configs(ns), name)
    case None => Ok(Entry(Service(ns + "/" + name, addrs, NO_BACKEND), None))
    case Some(b) =>
      match Configured(b)
      case Err(e) => Err(e)
      case Ok(backend) => Ok(Entry(Service(ns + "/" + name, addrs, backend), Some(b)))
  }

  method GetVCLSvc(env: Lookups, svcNamespace: string, svcName: string, addrs: seq<Address>)
    returns (r: Result<Entry, Failure>)
    ensures r == VCLService(env, svcNamespace, svcName, addrs)
  {
    var namespace := svcNamespace;
    if namespace == "" {
      namespace := "default";
    }
    var vclSvc := Service(namespace + "/" + svcName, addrs, NO_BACKEND);
    var bcfgs := env.configs(namespace);
    var bcfg := None;
    for i := 0 to |bcfgs|
      invariant bcfg == None && FirstConfig(bcfgs, svcName) == FirstConfig(bcfgs[i..], svcName)
    {
      var b := bcfgs[i];
      for j := 0 to |b.services|
        invariant svcName !in b.services[..j] && bcfg == None
      {
        if b.services[j] == svcName {
          bcfg := Some(b);
          break;
        }
      }
      if bcfg.Some? {
        break;
      }
    }
    if bcfg.None? {
      return Ok(Entry(vclSvc, None));
    }
    var backend := Configured(bcfg.value);
    if backend.Err? {
      return Err(backend.error);
    }
    return Ok(Entry(vclSvc.(backend := backend.value), bcfg));
  }

  function EntryOf(env: Lookups, namespace: string, ref: BackendRef): Result<Entry, Failure> {
    match BackendAddresses(env, namespace, ref)
    case Err(e) => Err(e)
    case Ok(addrs) => VCLService(env, namespace, ref.serviceName, addrs)
  }

  method GetEntry(env: Lookups, namespace: string, ref: BackendRef) returns (r: Result<Entry, Failure>)
    ensures r == EntryOf(env, namespace, ref)
  {
    var addrs := IngBackend2Addrs(env, namespace, ref);
    if addrs.Err? {
      return Err(addrs.error);
    }
    r := GetVCLSvc(env, namespace, ref.serviceName, addrs.value);
  }

  lemma EntryExactly(env: Lookups, namespace: string, ref: BackendRef)
    requires EntryOf(env, namespace, ref).Ok? && namespace != ""
    ensures var svc := EntryOf(env, namespace, ref).value.service;
      svc.name == namespace + "/" + ref.serviceName && OnePort(svc.addresses) && Concordant(svc.addresses)
  {
    var svc := EntryOf(env, namespace, ref).value.service;
    var subsets := env.endpoints(namespace, ref.serviceName).value;
    var ports := env.ports(namespace, ref.serviceName).value;
    var port := env.targetPort(namespace, ref.serviceName, ports[FirstPort(ports, ref.servicePort)]).value;
    TargetAddressesOnePort(subsets, port);
    IPPortLessOrders(svc.addresses);
  }

  // ---- Order of BackendConfigs ----

  // The settings of a Service, by the BackendConfigs of its namespace.
  function SettingsOf(configs: seq<BackendConfig>, name: string): Result<Backend, Failure> {
    match FirstConfig(configs, name)
    case None => Ok(NO_BACKEND)
    case Some(b) => Configured(b)
  }

  lemma SettingsOfService(env: Lookups, namespace: string, name: string, addrs: seq<Address>)
    requires namespace != ""
    ensures var r, settings := VCLService(env, namespace, name, addrs), SettingsOf(env.configs(namespace), name);
      && (r.Ok? <==> settings.Ok?)
      && (r.Ok? ==> r.value.service == Service(namespace + "/" + name, addrs, settings.value))
  {
  }

  // The first one that names the Service counts.
  lemma {:induction false} FirstConfigExactly(configs: seq<BackendConfig>, name: string, i: nat)
    requires i < |configs| && name in configs[i].services && forall j :: 0 <= j < i ==> name !in configs[j].services
    ensures FirstConfig(configs, name) == Some(configs[i])
  {
    if i > 0 {
      assert forall j :: 0 <= j < i - 1 ==> configs[1..][j] == configs[j + 1];
      FirstConfigExactly(configs[1..], name, i - 1);
    }
  }

  lemma {:induction false} FirstConfigNames(configs: seq<BackendConfig>, name: string)
    ensures var first := FirstConfig(configs, name);
      if first.Some? then first.value in configs && name in first.value.services
      else forall b :: b in configs ==> name !in b.services
  {
    if configs != [] {
      FirstConfigNames(configs[1..], name);
      assert configs == [configs[0]] + configs[1..];
    }
  }

  ghost predicate SameConfigs(a: seq<BackendConfig>, b: seq<BackendConfig>) {
    multiset(a) == multiset(b)
  }

  lemma SameConfigMembers(a: seq<BackendConfig>, b: seq<BackendConfig>)
    requires SameConfigs(a, b)
    ensures forall c :: c in a <==> c in b
  {
    forall c ensures c in a <==> c in b {
      assert c in a <==> c in multiset(a);
      assert c in b <==> c in multiset(b);
    }
  }

  ghost predicate AnyOrderAlike(configs: seq<BackendConfig>, name: string) {
    forall other :: SameConfigs(configs, other) ==> SettingsOf(other, name) == SettingsOf(configs, name)
  }

  ghost predicate ConfigsAgree(configs: seq<BackendConfig>, name: string) {
    forall b, c :: b in configs && c in configs && name in b.services && name in c.services ==>
      Configured(b) == Configured(c)
  }

  lemma MovedToFront(configs: seq<BackendConfig>, b: BackendConfig, name: string) returns (other: seq<BackendConfig>)
    requires b in configs && name in b.services
    ensures SameConfigs(configs, other) && SettingsOf(other, name) == Configured(b)
  {
    var i :| 0 <= i < |configs| && configs[i] == b;
    other := [b] + (configs[..i] + configs[i + 1..]);
    assert configs == configs[..i] + [b] + configs[i + 1..];
  }

  // The order in which a lister returns the BackendConfigs does not matter to
  // a Service exactly if those that name it all have the same settings.
  lemma ConfigOrderExactly(configs: seq<BackendConfig>, name: string)
    ensures AnyOrderAlike(configs, name) <==> ConfigsAgree(configs, name)
  {
    if ConfigsAgree(configs, name) {
      forall other | SameConfigs(configs, other) ensures SettingsOf(other, name) == SettingsOf(configs, name) {
        SameConfigMembers(configs, other);
        FirstConfigNames(configs, name);
        FirstConfigNames(other, name);
      }
    }
    if AnyOrderAlike(configs, name) {
      forall b, c | b in configs && c in configs && name in b.services && name in c.services
        ensures Configured(b) == Configured(c)
      {
        var first := MovedToFront(configs, b, name);
        var second := MovedToFront(configs, c, name);
        assert SettingsOf(first, name) == SettingsOf(configs, name) == SettingsOf(second, name);
      }
    }
  }

  // ---- Sharding ----

  datatype Pod = Pod(name: string, hostname: string, ip: string)

  datatype Sharding = Sharding(probe: ProbeSpec, max2ndTTL: string)

  datatype ShardFailure = NoHTTPPort | TooFewAddresses | TooFewPods | Panic

  // The first port named "http" whose number is not zero.
  function HTTPPort(ports: seq<EndpointPort>): int32 {
    if ports == [] then 0
    else
      var before := HTTPPort(ports[..|ports| - 1]);
      var last := ports[|ports| - 1];
      if before == 0 && last.name == "http" then last.port else before
  }

  function AllPorts(subsets: seq<Subset>): seq<EndpointPort> {
    if subsets == [] then [] else AllPorts(subsets[..|subsets| - 1]) + subsets[|subsets| - 1].ports
  }

  function AddressCount(subsets: seq<Subset>): nat {
    if subsets == [] then 0
    else
      var last := subsets[|subsets| - 1];
      AddressCount(subsets[..|subsets| - 1]) + |last.addresses| + |last.notReady|
  }

  function NodeOf(port: int32): Pod -> Service {
    (pod: Pod) => Service(if pod.hostname != "" then pod.hostname else pod.name, [Address(pod.ip, port)], NO_BACKEND)
  }

  lemma HTTPPortStep(ports: seq<EndpointPort>, more: seq<EndpointPort>, j: nat)
    requires j < |more|
    ensures HTTPPort(ports + more[..j + 1])
      == if HTTPPort(ports + more[..j]) == 0 && more[j].name == "http" then more[j].port
        else HTTPPort(ports + more[..j])
  {
    var s := ports + more[..j + 1];
    assert s[..|s| - 1] == ports + more[..j];
  }

  method ReadEndpoints(subsets: seq<Subset>) returns (nAddrs: nat, httpPort: int32)
    ensures nAddrs == AddressCount(subsets) && httpPort == HTTPPort(AllPorts(subsets))
  {
    nAddrs, httpPort := 0, 0;
    for i := 0 to |subsets|
      invariant nAddrs == AddressCount(subsets[..i]) && httpPort == HTTPPort(AllPorts(subsets[..i]))
    {
      var endpSubset := subsets[i];
      ghost var before := AllPorts(subsets[..i]);
      assert subsets[..i + 1][..i] == subsets[..i];
      nAddrs := nAddrs + |endpSubset.addresses| + |endpSubset.notReady|;
      assert before + endpSubset.ports[..0] == before;
      for j := 0 to |endpSubset.ports|
        invariant httpPort == HTTPPort(before + endpSubset.ports[..j])
      {
        HTTPPortStep(before, endpSubset.ports, j);
        if httpPort == 0 && endpSubset.ports[j].name == "http" {
          httpPort := endpSubset.ports[j].port;
        }
      }
      assert endpSubset.ports[..|endpSubset.ports|] == endpSubset.ports;
    }
    assert subsets[..|subsets|] == subsets;
  }

  method AddNodes(before: seq<Service>, pods: seq<Pod>, httpPort: int32) returns (nodes: seq<Service>)
    ensures nodes == before + Map(NodeOf(httpPort), pods) && NodesAdded(before, pods, httpPort, nodes)
  {
    nodes := before;
    for i := 0 to |pods|
      invariant nodes == before + Map(NodeOf(httpPort), pods[..i])
    {
      var pod := pods[i];
      var name := if pod.hostname != "" then pod.hostname else pod.name;
      nodes := nodes + [Service(name, [Address(pod.ip, httpPort)], NO_BACKEND)];
    }
    assert pods[..|pods|] == pods;
    NodesOf(before, pods, httpPort);
  }

  method ConfigSharding(cluster: ShardCluster, sharding: Option<Sharding>, subsets: seq<Subset>, pods: seq<Pod>)
    returns (r: Result<ShardCluster, ShardFailure>)
    ensures sharding.None? ==> r == Ok(cluster)
    ensures sharding.Some? ==>
      var port := HTTPPort(AllPorts(subsets));
      if port == 0 then r == Err(NoHTTPPort)
      else if AddressCount(subsets) <= 1 then r == Err(TooFewAddresses)
      else if |pods| <= 1 then r == Err(TooFewPods)
      else if VCLProbe(sharding.value.probe).Err? then r == Err(Panic)
      else r == Ok(ShardCluster(
        cluster.nodes + Map(NodeOf(port), pods), VCLProbe(sharding.value.probe).value,
        if sharding.value.max2ndTTL != "" then sharding.value.max2ndTTL else cluster.maxSecondaryTTL))
    ensures sharding.Some? && r.Ok? ==> NodesAdded(cluster.nodes, pods, HTTPPort(AllPorts(subsets)), r.value.nodes)
  {
    if sharding.None? {
      return Ok(cluster);
    }
    var nAddrs, httpPort := ReadEndpoints(subsets);
    if httpPort == 0 {
      return Err(NoHTTPPort);
    }
    if nAddrs <= 1 {
      return Err(TooFewAddresses);
    }
    if |pods| <= 1 {
      return Err(TooFewPods);
    }
    var nodes := AddNodes(cluster.nodes, pods, httpPort);
    var probe := VCLProbe(sharding.value.probe);
    if probe.Err? {
      return Err(Panic);
    }
    var ttl := if sharding.value.max2ndTTL != "" then sharding.value.max2ndTTL else cluster.maxSecondaryTTL;
    return Ok(ShardCluster(nodes, probe.value, ttl));
  }

  predicate IsHTTP(p: EndpointPort) {
    p.name == "http" && p.port != 0
  }

  // Of all subsets in order, the first such port counts.
  lemma {:induction false} HTTPPortOfSubsets(subsets: seq<Subset>, i: nat, j: nat)
    requires i < |subsets| && j < |subsets[i].ports| && IsHTTP(subsets[i].ports[j])
    requires forall l :: 0 <= l < j ==> !IsHTTP(subsets[i].ports[l])
    requires forall k :: 0 <= k < i ==> NoHTTP(subsets[k].ports)
    ensures HTTPPort(AllPorts(subsets)) == subsets[i].ports[j].port
  {
    var n := |subsets| - 1;
    var front, last := AllPorts(subsets[..n]), subsets[n].ports;
    if i < n {
      HTTPPortOfSubsets(subsets[..n], i, j);
      HTTPPortKept(front, last);
    } else {
      NoHTTPPortInSubsets(subsets[..n]);
      NoHTTPPortBefore(front);
      var all := front + last;
      assert all[|front| + j] == last[j] && forall k :: 0 <= k < |front| ==> all[k] == front[k];
      assert forall k :: |front| <= k < |front| + j ==> all[k] == last[k - |front|];
      HTTPPortExactly(all, |front| + j);
    }
  }

  lemma {:induction false} HTTPPortKept(ports: seq<EndpointPort>, more: seq<EndpointPort>)
    requires HTTPPort(ports) != 0
    ensures HTTPPort(ports + more) == HTTPPort(ports)
  {
    if more == [] {
      assert ports + more == ports;
    } else {
      var all := ports + more;
      HTTPPortKept(ports, more[..|more| - 1]);
      assert all[..|all| - 1] == ports + more[..|more| - 1];
    }
  }

  ghost predicate NoHTTP(ports: seq<EndpointPort>) {
    forall l :: 0 <= l < |ports| ==> !IsHTTP(ports[l])
  }

  lemma NoHTTPConcat(a: seq<EndpointPort>, b: seq<EndpointPort>)
    ensures NoHTTP(a + b) <==> NoHTTP(a) && NoHTTP(b)
  {
    var all := a + b;
    assert forall k :: 0 <= k < |a| ==> all[k] == a[k];
    assert forall k :: 0 <= k < |b| ==> all[|a| + k] == b[k];
  }

  lemma {:induction false} NoHTTPPortInSubsets(subsets: seq<Subset>)
    ensures HTTPPort(AllPorts(subsets)) == 0 <==> forall k :: 0 <= k < |subsets| ==> NoHTTP(subsets[k].ports)
  {
    if subsets != [] {
      var n := |subsets| - 1;
      var front, last := AllPorts(subsets[..n]), subsets[n].ports;
      NoHTTPPortInSubsets(subsets[..n]);
      NoHTTPPortBefore(front);
      NoHTTPPortBefore(front + last);
      NoHTTPConcat(front, last);
    }
  }

  // A node stands for a Pod, by its hostname if it has one, at the port.
  ghost predicate IsNodeOf(node: Service, pod: Pod, port: int32) {
    && node.addresses == [Address(pod.ip, port)] && node.backend == Backend(None, None, "", "", "", "", 0, 0)
    && (pod.hostname != "" ==> node.name == pod.hostname) && (pod.hostname == "" ==> node.name == pod.name)
  }

  ghost predicate NodesAdded(before: seq<Service>, pods: seq<Pod>, port: int32, nodes: seq<Service>) {
    && |nodes| == |before| + |pods| && nodes[..|before|] == before
    && forall i :: 0 <= i < |pods| ==> IsNodeOf(nodes[|before| + i], pods[i], port)
  }

  lemma NodesOf(before: seq<Service>, pods: seq<Pod>, port: int32)
    ensures NodesAdded(before, pods, port, before + Map(NodeOf(port), pods))
  {
    var nodes := before + Map(NodeOf(port), pods);
    forall i | 0 <= i < |pods| ensures IsNodeOf(nodes[|before| + i], pods[i], port) {
      assert nodes[|before| + i] == NodeOf(port)(pods[i]);
    }
  }

  lemma {:induction false} AddressCountIsSum(subsets: seq<Subset>, i: nat)
    requires i < |subsets|
    ensures AddressCount(subsets) >= |subsets[i].addresses| + |subsets[i].notReady|
    ensures AddressCount(subsets) == AddressCount(subsets[..i]) + |subsets[i].addresses| + |subsets[i].notReady|
      + AddressCount(subsets[i + 1..])
  {
    var n := |subsets| - 1;
    if i == n {
      assert subsets[i + 1..] == [];
    } else {
      AddressCountIsSum(subsets[..n], i);
      assert subsets[..n][..i] == subsets[..i] && subsets[..n][i + 1..] == subsets[i + 1..][..|subsets| - i - 2];
      assert subsets[i + 1..][|subsets| - i - 2] == subsets[n];
    }
  }

  ghost predicate OnlyOne(subsets: seq<Subset>, i: nat) {
    && i < |subsets| && |subsets[i].addresses| + |subsets[i].notReady| == 1
    && forall j :: 0 <= j < |subsets| && j != i ==> subsets[j].addresses == [] && subsets[j].notReady == []
  }

  // There are too few addresses exactly if at most one is in any subset, ready
  // or not.
  lemma TooFewExactly(subsets: seq<Subset>)
    ensures AddressCount(subsets) == 0 <==>
      forall i :: 0 <= i < |subsets| ==> subsets[i].addresses == [] && subsets[i].notReady == []
    ensures AddressCount(subsets) == 1 <==> exists i: nat :: OnlyOne(subsets, i)
  {
    NoAddressesExactly(subsets);
    if AddressCount(subsets) == 1 {
      var i :| 0 <= i < |subsets| && (subsets[i].addresses != [] || subsets[i].notReady != []);
      AddressCountIsSum(subsets, i);
      OthersEmpty(subsets, i);
      assert OnlyOne(subsets, i);
    }
    if i: nat :| OnlyOne(subsets, i) {
      AddressCountIsSum(subsets, i);
      NoAddressesExactly(subsets[..i]);
      NoAddressesExactly(subsets[i + 1..]);
    }
  }

  lemma OthersEmpty(subsets: seq<Subset>, i: nat)
    requires i < |subsets| && AddressCount(subsets) == |subsets[i].addresses| + |subsets[i].notReady|
    ensures forall j :: 0 <= j < |subsets| && j != i ==> subsets[j].addresses == [] && subsets[j].notReady == []
  {
    AddressCountIsSum(subsets, i);
    NoAddressesExactly(subsets[..i]);
    NoAddressesExactly(subsets[i + 1..]);
    forall j | 0 <= j < |subsets| && j != i ensures subsets[j].addresses == [] && subsets[j].notReady == [] {
      assert subsets[j] == if j < i then subsets[..i][j] else subsets[i + 1..][j - i - 1];
    }
  }

  lemma {:induction false} NoAddressesExactly(subsets: seq<Subset>)
    ensures AddressCount(subsets) == 0 <==>
      forall i :: 0 <= i < |subsets| ==> subsets[i].addresses == [] && subsets[i].notReady == []
  {
    if subsets != [] {
      NoAddressesExactly(subsets[..|subsets| - 1]);
    }
  }

  // The port is that of the first endpoint port that is named so and set.
  lemma {:induction false} HTTPPortExactly(ports: seq<EndpointPort>, i: nat)
    requires i < |ports| && ports[i].name == "http" && ports[i].port != 0
    requires forall j :: 0 <= j < i && ports[j].name == "http" ==> ports[j].port == 0
    ensures HTTPPort(ports) == ports[i].port
    ensures HTTPPort(ports[..i]) == 0
  {
    var front := ports[..|ports| - 1];
    if i < |ports| - 1 {
      HTTPPortExactly(front, i);
      assert front[..i] == ports[..i];
    } else {
      NoHTTPPortBefore(front);
    }
  }

  lemma {:induction false} NoHTTPPortBefore(ports: seq<EndpointPort>)
    ensures HTTPPort(ports) == 0 <==> forall j :: 0 <= j < |ports| && ports[j].name == "http" ==> ports[j].port == 0
  {
    if ports != [] {
      NoHTTPPortBefore(ports[..|ports| - 1]);
    }
  }
}
