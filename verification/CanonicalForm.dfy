// The canonical form of a Spec, and what it means for two Specs to have the
// same one.
module CanonicalForm {
  import opened Prelude
  import opened Orders
  import opened StableSort
  import opened VclSpec

  // The sort keys.
  function HostOf(r: Rule): string { r.host }
  function NameOf(s: Service): string { s.name }
  function RealmOf(a: Auth): string { a.realm }
  function ACLNameOf(a: ACL): string { a.name }
  function ACLAddrOf(a: ACLAddress): string { a.addr }
  function ComparandOf(m: MatchTerm): string { m.comparand }
  function VCLSubOf(r: Rewrite): nat { r.vclSub }

  // The comparison used for lists of addresses. It is not lexicographic: a
  // smaller port is enough, whatever the IPs are.
  predicate IPPortLess(a: Address, b: Address) {
    StrLess(a.ip, b.ip) || a.port < b.port
  }

  predicate IPThenPortLess(a: Address, b: Address) {
    StrLess(a.ip, b.ip) || (a.ip == b.ip && a.port < b.port)
  }

  // No element has a smaller IP but a larger port than another.
  ghost predicate Concordant(s: seq<Address>) {
    forall a, b :: a in s && b in s && StrLess(a.ip, b.ip) ==> a.port <= b.port
  }

  ghost predicate OnePort(s: seq<Address>) {
    forall a, b :: a in s && b in s ==> a.port == b.port
  }

  ghost predicate StrictWeakOn<T(!new)>(lt: (T, T) -> bool, s: seq<T>) {
    && (forall a, b :: a in s && b in s && lt(a, b) ==> !lt(b, a))
    && (forall a, b, c :: a in s && b in s && c in s && lt(a, c) ==> lt(a, b) || lt(b, c))
  }

  // The comparison orders a list of addresses exactly when the list is
  // concordant, which a single port guarantees.
  lemma IPPortLessOrders(s: seq<Address>)
    ensures StrictWeakOn(IPPortLess, s) <==> Concordant(s)
    ensures OnePort(s) ==> Concordant(s)
  {
    StrLessIsStrictTotal();
    if !Concordant(s) {
      var a, b :| a in s && b in s && StrLess(a.ip, b.ip) && !(a.port <= b.port);
      assert IPPortLess(a, b) && IPPortLess(b, a);
    }
    if Concordant(s) {
      forall a, b, c | a in s && b in s && c in s && IPPortLess(a, c)
        ensures IPPortLess(a, b) || IPPortLess(b, c)
      {
        ConcordantLess(s, a, c);
      }
      forall a, b | a in s && b in s && IPPortLess(a, b) ensures !IPPortLess(b, a) {
        ConcordantLess(s, a, b);
        ConcordantLess(s, b, a);
      }
    }
  }

  lemma ConcordantLess(s: seq<Address>, a: Address, b: Address)
    requires Concordant(s) && a in s && b in s
    ensures IPPortLess(a, b) == IPThenPortLess(a, b)
  {
    StrLessIsStrictTotal();
  }

  lemma IPThenPortIsStrictTotal()
    ensures StrictTotal(IPThenPortLess)
  {
    StrLessIsStrictTotal();
  }

  lemma NatLessIsStrictTotal()
    ensures StrictTotal(NatLess)
  {
  }

  // Canonical forms of the parts.
  function SortAddresses(s: seq<Address>): seq<Address> {
    Sort(Itself, IPPortLess, s)
  }

  function SortStrings(s: seq<string>): seq<string> {
    Sort(Itself, StrLess, s)
  }

  function CanonService(s: Service): Service {
    s.(addresses := SortAddresses(s.addresses))
  }

  function CanonServices(m: map<string, Service>): map<string, Service> {
    map k | k in m :: CanonService(m[k])
  }

  function CanonRule(r: Rule): Rule {
    r.(pathMap := CanonServices(r.pathMap))
  }

  function CanonAuth(a: Auth): Auth {
    a.(credentials := SortStrings(a.credentials))
  }

  function SortACLAddresses(s: seq<ACLAddress>): seq<ACLAddress> {
    Sort(ACLAddrOf, StrLess, s)
  }

  function SortTerms(s: seq<MatchTerm>): seq<MatchTerm> {
    Sort(ComparandOf, StrLess, s)
  }

  function CanonACL(a: ACL): ACL {
    a.(addresses := SortACLAddresses(a.addresses), conditions := SortTerms(a.conditions))
  }

  function CanonCondition(c: Condition): Condition {
    c.(values := SortStrings(c.values))
  }

  function CanonDisposition(d: DispositionSpec): DispositionSpec {
    d.(conditions := Map(CanonCondition, d.conditions))
  }

  function CanonShard(c: ShardCluster): ShardCluster {
    c.(nodes := Map(CanonService, Sort(NameOf, StrLess, c.nodes)))
  }

  function Canon(spec: Spec): Spec {
    Spec(
      NO_SERVICE.(name := spec.defaultService.name),
      Map(CanonRule, Sort(HostOf, StrLess, spec.rules)),
      CanonServices(spec.allServices),
      CanonShard(spec.shardCluster),
      Map(CanonAuth, Sort(RealmOf, StrLess, spec.auths)),
      spec.vcl,
      Map(CanonACL, Sort(ACLNameOf, StrLess, spec.acls)),
      Sort(VCLSubOf, NatLess, spec.rewrites),
      Map(CanonDisposition, spec.dispositions))
  }

  // What a Spec stands for after Canonical was called on it. Its default service is not
  // touched, unless its addresses are shared with one that is.
  ghost function Settled(v: Spec, defaultAddresses: seq<Address>): Spec {
    v.(
      defaultService := v.defaultService.(addresses := defaultAddresses),
      rules := Map(CanonRule, v.rules),
      allServices := CanonServices(v.allServices),
      shardCluster := CanonShard(v.shardCluster),
      auths := Map(CanonAuth, v.auths),
      acls := Map(CanonACL, v.acls),
      dispositions := Map(CanonDisposition, v.dispositions))
  }

  // Every list of addresses that gets sorted is ordered by the comparison.
  ghost predicate ConcordantServices(m: map<string, Service>) {
    forall k :: k in m ==> Concordant(m[k].addresses)
  }

  ghost predicate ConcordantSpec(spec: Spec) {
    && (forall r :: r in spec.rules ==> ConcordantServices(r.pathMap))
    && ConcordantServices(spec.allServices)
    && (forall n :: n in spec.shardCluster.nodes ==> Concordant(n.addresses))
  }

  // When two Specs describe the same configuration. This does not mention
  // sorting: lists count as bags, or as one list per key where elements with
  // equal keys are told apart by their position.
  ghost predicate SameService(a: Service, b: Service) {
    a.name == b.name && a.backend == b.backend && multiset(a.addresses) == multiset(b.addresses)
  }

  ghost predicate SameServices(a: map<string, Service>, b: map<string, Service>) {
    a.Keys == b.Keys && forall k :: k in a ==> SameService(a[k], b[k])
  }

  ghost predicate SameRule(a: Rule, b: Rule) {
    a.host == b.host && SameServices(a.pathMap, b.pathMap)
  }

  ghost predicate SameAuth(a: Auth, b: Auth) {
    && multiset(a.credentials) == multiset(b.credentials)
    && a.(credentials := []) == b.(credentials := [])
  }

  ghost predicate SameACL(a: ACL, b: ACL) {
    && AgreePerKey(ACLAddrOf, a.addresses, b.addresses)
    && AgreePerKey(ComparandOf, a.conditions, b.conditions)
    && a.(addresses := [], conditions := []) == b.(addresses := [], conditions := [])
  }

  ghost predicate SameCondition(a: Condition, b: Condition) {
    && multiset(a.values) == multiset(b.values)
    && a.(values := []) == b.(values := [])
  }

  ghost predicate SameDisposition(a: DispositionSpec, b: DispositionSpec) {
    a.disposition == b.disposition && Pairwise(SameCondition, a.conditions, b.conditions)
  }

  ghost predicate Pairwise<T>(same: (T, T) -> bool, a: seq<T>, b: seq<T>) {
    |a| == |b| && forall i :: 0 <= i < |a| ==> same(a[i], b[i])
  }

  ghost predicate PairwisePerKey<T, K(!new)>(key: T -> K, same: (T, T) -> bool, a: seq<T>, b: seq<T>) {
    forall k :: Pairwise(same, WithKey(key, a, k), WithKey(key, b, k))
  }

  ghost predicate Equivalent(a: Spec, b: Spec) {
    && a.defaultService.name == b.defaultService.name
    && PairwisePerKey(HostOf, SameRule, a.rules, b.rules)
    && SameServices(a.allServices, b.allServices)
    && PairwisePerKey(NameOf, SameService, a.shardCluster.nodes, b.shardCluster.nodes)
    && a.shardCluster.probe == b.shardCluster.probe
    && a.shardCluster.maxSecondaryTTL == b.shardCluster.maxSecondaryTTL
    && PairwisePerKey(RealmOf, SameAuth, a.auths, b.auths)
    && a.vcl == b.vcl
    && PairwisePerKey(ACLNameOf, SameACL, a.acls, b.acls)
    && AgreePerKey(VCLSubOf, a.rewrites, b.rewrites)
    && Pairwise(SameDisposition, a.dispositions, b.dispositions)
  }

  // The normal form of each part.
  lemma SortAddressesNormalForm(a: seq<Address>, b: seq<Address>)
    requires Concordant(a) && Concordant(b)
    ensures SortAddresses(a) == SortAddresses(b) <==> multiset(a) == multiset(b)
  {
    SortAddressesLexicographic(a);
    SortAddressesLexicographic(b);
    IPThenPortIsStrictTotal();
    SortByValueNormalForm(IPThenPortLess, a, b);
  }

  lemma SortAddressesLexicographic(s: seq<Address>)
    requires Concordant(s)
    ensures SortAddresses(s) == Sort(Itself, IPThenPortLess, s)
  {
    forall a, b | a in s && b in s ensures IPPortLess(a, b) == IPThenPortLess(a, b) {
      ConcordantLess(s, a, b);
    }
    SortCongruence(Itself, IPPortLess, IPThenPortLess, s);
  }

  lemma SortStringsNormalForm(a: seq<string>, b: seq<string>)
    ensures SortStrings(a) == SortStrings(b) <==> multiset(a) == multiset(b)
  {
    StrLessIsStrictTotal();
    SortByValueNormalForm(StrLess, a, b);
  }

  lemma ServiceNormalForm(a: Service, b: Service)
    requires Concordant(a.addresses) && Concordant(b.addresses)
    ensures CanonService(a) == CanonService(b) <==> SameService(a, b)
  {
    SortAddressesNormalForm(a.addresses, b.addresses);
  }

  lemma ServicesNormalForm(a: map<string, Service>, b: map<string, Service>)
    requires ConcordantServices(a) && ConcordantServices(b)
    ensures CanonServices(a) == CanonServices(b) <==> SameServices(a, b)
  {
    var ca, cb := CanonServices(a), CanonServices(b);
    assert ca.Keys == a.Keys && cb.Keys == b.Keys;
    forall k | k in a && k in b ensures ca[k] == cb[k] <==> SameService(a[k], b[k]) {
      ServiceNormalForm(a[k], b[k]);
    }
  }

  lemma RuleNormalForm(a: Rule, b: Rule)
    requires ConcordantServices(a.pathMap) && ConcordantServices(b.pathMap)
    ensures CanonRule(a) == CanonRule(b) <==> SameRule(a, b)
  {
    ServicesNormalForm(a.pathMap, b.pathMap);
  }

  lemma AuthNormalForm(a: Auth, b: Auth)
    ensures CanonAuth(a) == CanonAuth(b) <==> SameAuth(a, b)
  {
    SortStringsNormalForm(a.credentials, b.credentials);
  }

  lemma ACLNormalForm(a: ACL, b: ACL)
    ensures CanonACL(a) == CanonACL(b) <==> SameACL(a, b)
  {
    StrLessIsStrictTotal();
    SortNormalForm(ACLAddrOf, StrLess, a.addresses, b.addresses);
    SortNormalForm(ComparandOf, StrLess, a.conditions, b.conditions);
  }

  lemma ConditionNormalForm(a: Condition, b: Condition)
    ensures CanonCondition(a) == CanonCondition(b) <==> SameCondition(a, b)
  {
    SortStringsNormalForm(a.values, b.values);
  }

  lemma MapNormalForm<T>(f: T -> T, same: (T, T) -> bool, a: seq<T>, b: seq<T>)
    requires forall x, y :: x in a && y in b ==> (f(x) == f(y) <==> same(x, y))
    ensures Map(f, a) == Map(f, b) <==> Pairwise(same, a, b)
  {
    var fa, fb := Map(f, a), Map(f, b);
    if fa == fb {
      forall i | 0 <= i < |a| ensures same(a[i], b[i]) {
        assert fa[i] == fb[i];
      }
    }
  }

  lemma DispositionNormalForm(a: DispositionSpec, b: DispositionSpec)
    ensures CanonDisposition(a) == CanonDisposition(b) <==> SameDisposition(a, b)
  {
    forall x, y | x in a.conditions && y in b.conditions
      ensures CanonCondition(x) == CanonCondition(y) <==> SameCondition(x, y)
    {
      ConditionNormalForm(x, y);
    }
    MapNormalForm(CanonCondition, SameCondition, a.conditions, b.conditions);
  }

  // Sorting by a key and then bringing every element into canonical form.
  lemma SortMapNormalForm<T(!new), K(!new)>(
      key: T -> K, lt: (K, K) -> bool, f: T -> T, same: (T, T) -> bool, a: seq<T>, b: seq<T>)
    requires StrictTotal(lt)
    requires forall x :: key(f(x)) == key(x)
    requires forall x, y :: x in a && y in b ==> (f(x) == f(y) <==> same(x, y))
    ensures Map(f, Sort(key, lt, a)) == Map(f, Sort(key, lt, b)) <==> PairwisePerKey(key, same, a, b)
  {
    var fa, fb := Map(f, a), Map(f, b);
    SortMap(key, key, lt, f, a);
    SortMap(key, key, lt, f, b);
    SortNormalForm(key, lt, fa, fb);
    forall k
      ensures WithKey(key, fa, k) == WithKey(key, fb, k) <==> Pairwise(same, WithKey(key, a, k), WithKey(key, b, k))
    {
      WithKeyMap(key, key, f, a, k);
      WithKeyMap(key, key, f, b, k);
      forall x, y | x in WithKey(key, a, k) && y in WithKey(key, b, k) ensures f(x) == f(y) <==> same(x, y) {
        WithKeyMember(key, a, k, x);
        WithKeyMember(key, b, k, y);
      }
      MapNormalForm(f, same, WithKey(key, a, k), WithKey(key, b, k));
    }
  }

  // Two Specs have the same canonical form exactly when they are equivalent.
  lemma CanonNormalForm(a: Spec, b: Spec)
    requires ConcordantSpec(a) && ConcordantSpec(b)
    ensures Canon(a) == Canon(b) <==> Equivalent(a, b)
  {
    StrLessIsStrictTotal();
    NatLessIsStrictTotal();
    RulesNormalForm(a.rules, b.rules);
    ServicesNormalForm(a.allServices, b.allServices);
    NodesNormalForm(a.shardCluster.nodes, b.shardCluster.nodes);
    forall x, y ensures CanonAuth(x) == CanonAuth(y) <==> SameAuth(x, y) {
      AuthNormalForm(x, y);
    }
    SortMapNormalForm(RealmOf, StrLess, CanonAuth, SameAuth, a.auths, b.auths);
    forall x, y ensures CanonACL(x) == CanonACL(y) <==> SameACL(x, y) {
      ACLNormalForm(x, y);
    }
    SortMapNormalForm(ACLNameOf, StrLess, CanonACL, SameACL, a.acls, b.acls);
    SortNormalForm(VCLSubOf, NatLess, a.rewrites, b.rewrites);
    forall x, y ensures CanonDisposition(x) == CanonDisposition(y) <==> SameDisposition(x, y) {
      DispositionNormalForm(x, y);
    }
    MapNormalForm(CanonDisposition, SameDisposition, a.dispositions, b.dispositions);
  }

  lemma RulesNormalForm(a: seq<Rule>, b: seq<Rule>)
    requires forall r :: r in a || r in b ==> ConcordantServices(r.pathMap)
    ensures Map(CanonRule, Sort(HostOf, StrLess, a)) == Map(CanonRule, Sort(HostOf, StrLess, b))
       <==> PairwisePerKey(HostOf, SameRule, a, b)
  {
    StrLessIsStrictTotal();
    forall x, y | x in a && y in b ensures CanonRule(x) == CanonRule(y) <==> SameRule(x, y) {
      RuleNormalForm(x, y);
    }
    SortMapNormalForm(HostOf, StrLess, CanonRule, SameRule, a, b);
  }

  lemma NodesNormalForm(a: seq<Service>, b: seq<Service>)
    requires forall n :: n in a || n in b ==> Concordant(n.addresses)
    ensures Map(CanonService, Sort(NameOf, StrLess, a)) == Map(CanonService, Sort(NameOf, StrLess, b))
       <==> PairwisePerKey(NameOf, SameService, a, b)
  {
    StrLessIsStrictTotal();
    forall x, y | x in a && y in b ensures CanonService(x) == CanonService(y) <==> SameService(x, y) {
      ServiceNormalForm(x, y);
    }
    SortMapNormalForm(NameOf, StrLess, CanonService, SameService, a, b);
  }

  lemma SortAddressesIdempotent(s: seq<Address>)
    requires Concordant(s)
    ensures SortAddresses(SortAddresses(s)) == SortAddresses(s)
    ensures Concordant(SortAddresses(s)) && multiset(SortAddresses(s)) == multiset(s)
  {
    SortElements(Itself, IPPortLess, s);
    forall a ensures a in SortAddresses(s) <==> a in s {
      SortMember(Itself, IPPortLess, s, a);
    }
    SortAddressesNormalForm(SortAddresses(s), s);
  }

  lemma SortPair(a: Address, b: Address)
    ensures SortAddresses([a, b]) == if IPPortLess(b, a) then [b, a] else [a, b]
  {
    assert [a, b][..1] == [a] && [a][..0] == [];
    assert Sort(Itself, IPPortLess, [a]) == [a];
    assert SortAddresses([a, b]) == Insert(Itself, IPPortLess, [a], b);
    if IPPortLess(b, a) {
      assert Insert(Itself, IPPortLess, [a], b) == Insert(Itself, IPPortLess, [], b) + [a];
    }
  }

  // With mixed ports the comparison is no order, and the result depends on
  // the order of the input: there is no normal form.
  lemma MixedPortsHaveNoNormalForm(a: Address, b: Address)
    requires IPPortLess(a, b) && IPPortLess(b, a)
    ensures a != b ==> SortAddresses([a, b]) != SortAddresses([b, a])
    ensures multiset([a, b]) == multiset([b, a])
  {
    SortPair(a, b);
    SortPair(b, a);
    assert SortAddresses([a, b])[0] == b && SortAddresses([b, a])[0] == a;
  }

  // Bringing a Spec into canonical form again does nothing; nor does it matter
  // if its nested lists were sorted before.
  lemma NestedIdempotent<T, K(!new)>(key: T -> K, lt: (K, K) -> bool, f: T -> T, s: seq<T>)
    requires StrictTotal(lt)
    requires forall i :: 0 <= i < |s| ==> key(f(s[i])) == key(s[i]) && f(f(s[i])) == f(s[i])
    ensures Map(f, Sort(key, lt, Map(f, s))) == Map(f, Sort(key, lt, s))
    ensures Map(f, Sort(key, lt, Map(f, Sort(key, lt, s)))) == Map(f, Sort(key, lt, s))
  {
    var t := Sort(key, lt, s);
    SortIdempotent(key, lt, s);
    forall i | 0 <= i < |t| ensures key(f(t[i])) == key(t[i]) && f(f(t[i])) == f(t[i]) {
      SortMember(key, lt, s, t[i]);
      var j :| 0 <= j < |s| && s[j] == t[i];
    }
    SortMap(key, key, lt, f, s);
    SortMap(key, key, lt, f, t);
    assert Map(f, Map(f, t)) == Map(f, t);
  }

  lemma CanonServicesIdempotent(m: map<string, Service>)
    requires ConcordantServices(m)
    ensures CanonServices(CanonServices(m)) == CanonServices(m)
  {
    forall k | k in m ensures CanonService(CanonService(m[k])) == CanonService(m[k]) {
      SortAddressesIdempotent(m[k].addresses);
    }
  }

  lemma CanonPartsIdempotent()
    ensures forall a :: CanonAuth(CanonAuth(a)) == CanonAuth(a)
    ensures forall a :: CanonACL(CanonACL(a)) == CanonACL(a)
    ensures forall d :: CanonDisposition(CanonDisposition(d)) == CanonDisposition(d)
  {
    StrLessIsStrictTotal();
    forall s: seq<string> ensures SortStrings(SortStrings(s)) == SortStrings(s) {
      SortIdempotent(Itself, StrLess, s);
    }
    forall a ensures CanonACL(CanonACL(a)) == CanonACL(a) {
      SortIdempotent(ACLAddrOf, StrLess, a.addresses);
      SortIdempotent(ComparandOf, StrLess, a.conditions);
    }
    forall d ensures CanonDisposition(CanonDisposition(d)) == CanonDisposition(d) {
      assert CanonDisposition(CanonDisposition(d)).conditions == CanonDisposition(d).conditions;
    }
  }

  lemma CanonListsIdempotent(v: Spec)
    requires ConcordantSpec(v)
    ensures Map(CanonRule, Sort(HostOf, StrLess, Map(CanonRule, v.rules))) == Canon(v).rules
    ensures Map(CanonRule, Sort(HostOf, StrLess, Canon(v).rules)) == Canon(v).rules
    ensures CanonShard(CanonShard(v.shardCluster)) == CanonShard(v.shardCluster)
  {
    StrLessIsStrictTotal();
    forall r | r in v.rules ensures CanonRule(CanonRule(r)) == CanonRule(r) {
      CanonServicesIdempotent(r.pathMap);
    }
    NestedIdempotent(HostOf, StrLess, CanonRule, v.rules);
    forall n | n in v.shardCluster.nodes ensures CanonService(CanonService(n)) == CanonService(n) {
      SortAddressesIdempotent(n.addresses);
    }
    NestedIdempotent(NameOf, StrLess, CanonService, v.shardCluster.nodes);
  }

  lemma CanonIdempotent(v: Spec)
    requires ConcordantSpec(v)
    ensures Canon(Canon(v)) == Canon(v)
    ensures forall d :: Canon(Settled(v, d)) == Canon(v)
  {
    StrLessIsStrictTotal();
    NatLessIsStrictTotal();
    CanonPartsIdempotent();
    CanonListsIdempotent(v);
    CanonServicesIdempotent(v.allServices);
    NestedIdempotent(RealmOf, StrLess, CanonAuth, v.auths);
    NestedIdempotent(ACLNameOf, StrLess, CanonACL, v.acls);
    SortIdempotent(VCLSubOf, NatLess, v.rewrites);
    assert Map(CanonDisposition, Map(CanonDisposition, v.dispositions)) == Map(CanonDisposition, v.dispositions);
  }

  lemma CanonServicesConcordant(m: map<string, Service>)
    requires ConcordantServices(m)
    ensures ConcordantServices(CanonServices(m))
  {
    forall k | k in m ensures Concordant(CanonServices(m)[k].addresses) {
      SortAddressesIdempotent(m[k].addresses);
    }
  }

  lemma CanonNodesConcordant(ns: seq<Service>)
    requires forall n :: n in ns ==> Concordant(n.addresses)
    ensures forall n :: n in Map(CanonService, Sort(NameOf, StrLess, ns)) ==> Concordant(n.addresses)
  {
    var sorted := Sort(NameOf, StrLess, ns);
    forall i | 0 <= i < |sorted| ensures Concordant(CanonService(sorted[i]).addresses) {
      SortMember(NameOf, StrLess, ns, sorted[i]);
      SortAddressesIdempotent(sorted[i].addresses);
    }
  }

  // What is left of a Spec after a call can be sorted again, and so can the
  // result.
  lemma StillConcordant(v: Spec, d: seq<Address>)
    requires ConcordantSpec(v)
    ensures ConcordantSpec(Settled(v, d)) && ConcordantSpec(Canon(v))
  {
    var sorted := Sort(HostOf, StrLess, v.rules);
    forall i | 0 <= i < |v.rules| ensures ConcordantServices(CanonRule(v.rules[i]).pathMap) {
      CanonServicesConcordant(v.rules[i].pathMap);
    }
    forall i | 0 <= i < |sorted| ensures ConcordantServices(CanonRule(sorted[i]).pathMap) {
      SortMember(HostOf, StrLess, v.rules, sorted[i]);
      CanonServicesConcordant(sorted[i].pathMap);
    }
    CanonServicesConcordant(v.allServices);
    CanonNodesConcordant(v.shardCluster.nodes);
  }

  // f gives every element of a its counterpart in b.
  ghost predicate Counterparts<T>(same: (T, T) -> bool, a: seq<T>, b: seq<T>, f: seq<nat>) {
    |f| == |a| && forall i {:trigger f[i]} :: 0 <= i < |a| ==> f[i] < |b| && same(a[i], b[f[i]])
  }

  ghost predicate CounterpartsBack<T>(same: (T, T) -> bool, a: seq<T>, b: seq<T>, g: seq<nat>) {
    |g| == |b| && forall j {:trigger g[j]} :: 0 <= j < |b| ==> g[j] < |a| && same(a[g[j]], b[j])
  }

  ghost predicate Reordered<T>(same: (T, T) -> bool, a: seq<T>, b: seq<T>) {
    exists f, g :: Counterparts(same, a, b, f) && CounterpartsBack(same, a, b, g)
  }

  // If the keys are distinct within each list, agreement per key says that
  // each list is the other one reordered, up to equivalence of elements.
  lemma DistinctKeysReordered<T, K(!new)>(key: T -> K, same: (T, T) -> bool, a: seq<T>, b: seq<T>)
    requires DistinctKeys(key, a) && DistinctKeys(key, b)
    requires forall i, j {:trigger same(a[i], b[j])} :: 0 <= i < |a| && 0 <= j < |b| && same(a[i], b[j]) ==>
      key(a[i]) == key(b[j])
    ensures PairwisePerKey(key, same, a, b) <==> Reordered(same, a, b)
  {
    if PairwisePerKey(key, same, a, b) {
      var f := seq(|a|, i requires 0 <= i < |a| => PairedWith(key, same, a, b, i));
      var g := seq(|b|, j requires 0 <= j < |b| => PairedFrom(key, same, a, b, j));
      assert Counterparts(same, a, b, f) && CounterpartsBack(same, a, b, g);
    }
    if Reordered(same, a, b) {
      var f, g :| Counterparts(same, a, b, f) && CounterpartsBack(same, a, b, g);
      forall k ensures Pairwise(same, WithKey(key, a, k), WithKey(key, b, k))
    {
        ReorderedPairs(key, same, a, b, f, g, k);
      }
    }
  }

  ghost function PairedWith<T, K(!new)>(key: T -> K, same: (T, T) -> bool, a: seq<T>, b: seq<T>, i: nat): (j: nat)
    requires PairwisePerKey(key, same, a, b) && i < |a|
    ensures j < |b| && same(a[i], b[j])
  {
    var wa, wb := WithKey(key, a, key(a[i])), WithKey(key, b, key(a[i]));
    assert Pairwise(same, wa, wb);
    WithKeyMember(key, a, key(a[i]), a[i]);
    var n :| 0 <= n < |wa| && wa[n] == a[i];
    WithKeyMember(key, b, key(a[i]), wb[n]);
    var j: nat :| j < |b| && b[j] == wb[n];
    j
  }

  ghost function PairedFrom<T, K(!new)>(key: T -> K, same: (T, T) -> bool, a: seq<T>, b: seq<T>, j: nat): (i: nat)
    requires PairwisePerKey(key, same, a, b) && j < |b|
    ensures i < |a| && same(a[i], b[j])
  {
    var wa, wb := WithKey(key, a, key(b[j])), WithKey(key, b, key(b[j]));
    assert Pairwise(same, wa, wb);
    WithKeyMember(key, b, key(b[j]), b[j]);
    var n :| 0 <= n < |wb| && wb[n] == b[j];
    WithKeyMember(key, a, key(b[j]), wa[n]);
    var i: nat :| i < |a| && a[i] == wa[n];
    i
  }

  lemma ReorderedPairs<T, K>(key: T -> K, same: (T, T) -> bool, a: seq<T>, b: seq<T>, f: seq<nat>, g: seq<nat>, k: K)
    requires DistinctKeys(key, a) && DistinctKeys(key, b)
    requires forall i, j {:trigger same(a[i], b[j])} :: 0 <= i < |a| && 0 <= j < |b| && same(a[i], b[j]) ==>
      key(a[i]) == key(b[j])
    requires Counterparts(same, a, b, f) && CounterpartsBack(same, a, b, g)
    ensures Pairwise(same, WithKey(key, a, k), WithKey(key, b, k))
  {
    var wa, wb := WithKey(key, a, k), WithKey(key, b, k);
    DistinctKeysSingle(key, a, k);
    DistinctKeysSingle(key, b, k);
    if |wa| == 1 {
      WithKeyMember(key, a, k, wa[0]);
      var i :| 0 <= i < |a| && a[i] == wa[0];
      WithKeyMember(key, b, k, b[f[i]]);
    }
    if |wb| == 1 {
      WithKeyMember(key, b, k, wb[0]);
      var j :| 0 <= j < |b| && b[j] == wb[0];
      WithKeyMember(key, a, k, a[g[j]]);
    }
  }
}
