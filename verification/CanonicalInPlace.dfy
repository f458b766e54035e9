// Canonical as it runs: it copies the outer lists of a Spec, but the nested
// lists, and the list of shard nodes, are the receiver's own and are sorted in
// place, wherever else they may be in use.
module CanonicalInPlace {
  import opened Prelude
  import opened Orders
  import opened StableSort
  import opened VclSpec
  import opened CanonicalForm

  // What a nested slice points to. Slices that share their elements are the
  // same reference.
  type Ref = nat

  datatype ServiceRef = ServiceRef(name: string, addresses: Ref, backend: Backend)

  datatype RuleRef = RuleRef(host: string, pathMap: map<string, ServiceRef>)

  datatype AuthRef = AuthRef(
    conditions: seq<MatchTerm>, credentials: Ref, realm: string, status: uint16, utf8: bool)

  datatype ACLRef = ACLRef(
    name: string, comparand: string, failStatus: uint16, whitelist: bool,
    addresses: Ref, conditions: Ref, resultHdr: ResultHdr)

  datatype ConditionRef = ConditionRef(
    values: Ref, matchFlags: MatchFlags, count: Option<uint64>,
    comparand: string, compare: CompareType, negate: bool)

  datatype DispositionRef = DispositionRef(conditions: seq<ConditionRef>, disposition: Disposition)

  datatype SpecRef = SpecRef(
    defaultService: ServiceRef,
    rules: array<RuleRef>,
    allServices: map<string, ServiceRef>,
    nodes: Ref,
    shardProbe: Probe,
    maxSecondaryTTL: string,
    auths: array<AuthRef>,
    vcl: string,
    acls: array<ACLRef>,
    rewrites: array<Rewrite>,
    dispositions: array<DispositionRef>)

  function HostOfRef(r: RuleRef): string { r.host }
  function NameOfRef(s: ServiceRef): string { s.name }
  function RealmOfRef(a: AuthRef): string { a.realm }
  function ACLNameOfRef(a: ACLRef): string { a.name }

  // The nil slice: nothing is ever stored at this reference.
  const NIL: Ref := 0

  type Cells<!T> = map<Ref, seq<T>>

  function At<T>(c: Cells<T>, r: Ref): seq<T> {
    if r in c then c[r] else []
  }

  // The nested lists at some time.
  datatype Heap = Heap(
    addresses: Cells<Address>, strings: Cells<string>, aclAddresses: Cells<ACLAddress>,
    terms: Cells<MatchTerm>, nodes: Cells<ServiceRef>)

  class Memory {
    var addresses: Cells<Address>
    var strings: Cells<string>
    var aclAddresses: Cells<ACLAddress>
    var terms: Cells<MatchTerm>
    var nodes: Cells<ServiceRef>

    ghost function Now(): Heap
      reads this
    {
      Heap(addresses, strings, aclAddresses, terms, nodes)
    }
  }

  // A call of the library's sort on the slice r.
  method SortSlice<T, K>(c: Cells<T>, r: Ref, key: T -> K, lt: (K, K) -> bool) returns (c': Cells<T>)
    ensures c' == SortCells(c, {r}, key, lt)
  {
    if r !in c {
      return c;
    }
    var s := c[r];
    var a := new T[|s|](i requires 0 <= i < |s| => s[i]);
    assert a[..] == s;
    Stable(a, key, lt);
    c' := c[r := a[..]];
  }

  ghost function SortCells<T, K>(c: Cells<T>, rs: set<Ref>, key: T -> K, lt: (K, K) -> bool): Cells<T> {
    map r | r in c :: if r in rs then Sort(key, lt, c[r]) else c[r]
  }

  // Sorting one of these lists again does nothing.
  ghost predicate Settles<T, K>(c: Cells<T>, rs: set<Ref>, key: T -> K, lt: (K, K) -> bool) {
    forall r :: r in c && r in rs ==> Sort(key, lt, Sort(key, lt, c[r])) == Sort(key, lt, c[r])
  }

  // So it does not matter that a slice may be reached, and sorted, twice.
  lemma SortCellsTwice<T, K>(c: Cells<T>, rs: set<Ref>, rs': set<Ref>, key: T -> K, lt: (K, K) -> bool)
    requires Settles(c, rs + rs', key, lt)
    ensures SortCells(SortCells(c, rs, key, lt), rs', key, lt) == SortCells(c, rs + rs', key, lt)
  {
  }

  // The slices below the parts of a Spec.
  ghost function MapAddrs(m: map<string, ServiceRef>): set<Ref> {
    set k | k in m :: m[k].addresses
  }

  ghost function RuleAddrs(rs: seq<RuleRef>): set<Ref> {
    set r, k | r in rs && k in r.pathMap :: r.pathMap[k].addresses
  }

  ghost function NodeAddrs(ns: seq<ServiceRef>): set<Ref> {
    set n | n in ns :: n.addresses
  }

  ghost function Credentials(s: seq<AuthRef>): set<Ref> {
    set a | a in s :: a.credentials
  }

  ghost function ACLAddrs(s: seq<ACLRef>): set<Ref> {
    set a | a in s :: a.addresses
  }

  ghost function ACLTerms(s: seq<ACLRef>): set<Ref> {
    set a | a in s :: a.conditions
  }

  ghost function ConditionValues(s: seq<ConditionRef>): set<Ref> {
    set c | c in s :: c.values
  }

  ghost function Values(s: seq<DispositionRef>): set<Ref> {
    set d, c | d in s && c in d.conditions :: c.values
  }

  // What the references stand for.
  ghost function ServiceIn(h: Heap): ServiceRef -> Service {
    (s: ServiceRef) => Service(s.name, At(h.addresses, s.addresses), s.backend)
  }

  ghost function MapIn(h: Heap, m: map<string, ServiceRef>): map<string, Service> {
    map k | k in m :: ServiceIn(h)(m[k])
  }

  ghost function RuleIn(h: Heap): RuleRef -> Rule {
    (r: RuleRef) => Rule(r.host, MapIn(h, r.pathMap))
  }

  ghost function AuthIn(h: Heap): AuthRef -> Auth {
    (a: AuthRef) => Auth(a.conditions, At(h.strings, a.credentials), a.realm, a.status, a.utf8)
  }

  ghost function ACLIn(h: Heap): ACLRef -> ACL {
    (a: ACLRef) => ACL(a.name, a.comparand, a.failStatus, a.whitelist,
      At(h.aclAddresses, a.addresses), At(h.terms, a.conditions), a.resultHdr)
  }

  ghost function ConditionIn(h: Heap): ConditionRef -> Condition {
    (c: ConditionRef) => Condition(At(h.strings, c.values), c.matchFlags, c.count, c.comparand, c.compare, c.negate)
  }

  ghost function DispositionIn(h: Heap): DispositionRef -> DispositionSpec {
    (d: DispositionRef) => DispositionSpec(Map(ConditionIn(h), d.conditions), d.disposition)
  }

  // A SpecRef with its outer lists read.
  datatype Outer = Outer(
    defaultService: ServiceRef, rules: seq<RuleRef>, allServices: map<string, ServiceRef>,
    nodes: Ref, shardProbe: Probe, maxSecondaryTTL: string, auths: seq<AuthRef>, vcl: string,
    acls: seq<ACLRef>, rewrites: seq<Rewrite>, dispositions: seq<DispositionRef>)

  function Read(s: SpecRef): Outer
    reads s.rules, s.auths, s.acls, s.rewrites, s.dispositions
  {
    Outer(s.defaultService, s.rules[..], s.allServices, s.nodes, s.shardProbe, s.maxSecondaryTTL,
      s.auths[..], s.vcl, s.acls[..], s.rewrites[..], s.dispositions[..])
  }

  ghost function View(h: Heap, o: Outer): Spec {
    Spec(
      ServiceIn(h)(o.defaultService),
      Map(RuleIn(h), o.rules),
      MapIn(h, o.allServices),
      ShardCluster(Map(ServiceIn(h), At(h.nodes, o.nodes)), o.shardProbe, o.maxSecondaryTTL),
      Map(AuthIn(h), o.auths),
      o.vcl,
      Map(ACLIn(h), o.acls),
      o.rewrites,
      Map(DispositionIn(h), o.dispositions))
  }

  // All slices of each kind that the call sorts.
  ghost function Addrs(h: Heap, o: Outer): set<Ref> {
    RuleAddrs(o.rules) + MapAddrs(o.allServices) + NodeAddrs(At(h.nodes, o.nodes))
  }

  ghost function Strings(o: Outer): set<Ref> {
    Credentials(o.auths) + Values(o.dispositions)
  }

  // The whole effect on the memory.
  ghost function SortedHeap(h: Heap, o: Outer): Heap {
    Heap(
      SortCells(h.addresses, Addrs(h, o), Itself, IPPortLess),
      SortCells(h.strings, Strings(o), Itself, StrLess),
      SortCells(h.aclAddresses, ACLAddrs(o.acls), ACLAddrOf, StrLess),
      SortCells(h.terms, ACLTerms(o.acls), ComparandOf, StrLess),
      SortCells(h.nodes, {o.nodes}, NameOfRef, StrLess))
  }

  method SortMapAddrs(mem: Memory, m: map<string, ServiceRef>)
    requires Settles(mem.addresses, MapAddrs(m), Itself, IPPortLess)
    modifies mem`addresses
    ensures mem.addresses == SortCells(old(mem.addresses), MapAddrs(m), Itself, IPPortLess)
  {
    var todo := m.Keys;
    ghost var done: set<Ref> := {};
    while todo != {}
      invariant todo <= m.Keys
      invariant done == set k | k in m.Keys - todo :: m[k].addresses
      invariant mem.addresses == SortCells(old(mem.addresses), done, Itself, IPPortLess)
    {
      var k :| k in todo;
      SortCellsTwice(old(mem.addresses), done, {m[k].addresses}, Itself, IPPortLess);
      mem.addresses := SortSlice(mem.addresses, m[k].addresses, Itself, IPPortLess);
      todo, done := todo - {k}, done + {m[k].addresses};
    }
  }

  method SortRuleAddrs(mem: Memory, rules: array<RuleRef>)
    requires Settles(mem.addresses, RuleAddrs(rules[..]), Itself, IPPortLess)
    modifies mem`addresses
    ensures mem.addresses == SortCells(old(mem.addresses), RuleAddrs(rules[..]), Itself, IPPortLess)
  {
    ghost var rs := rules[..];
    for i := 0 to rules.Length
      invariant mem.addresses == SortCells(old(mem.addresses), RuleAddrs(rs[..i]), Itself, IPPortLess)
    {
      assert rs[..i + 1] == rs[..i] + [rs[i]];
      assert RuleAddrs(rs[..i + 1]) == RuleAddrs(rs[..i]) + MapAddrs(rs[i].pathMap);
      assert RuleAddrs(rs[..i + 1]) <= RuleAddrs(rs);
      SortCellsTwice(old(mem.addresses), RuleAddrs(rs[..i]), MapAddrs(rs[i].pathMap), Itself, IPPortLess);
      SortMapAddrs(mem, rules[i].pathMap);
    }
    assert rs[..|rs|] == rs;
  }

  method SortNodeAddrs(mem: Memory, ns: seq<ServiceRef>)
    requires Settles(mem.addresses, NodeAddrs(ns), Itself, IPPortLess)
    modifies mem`addresses
    ensures mem.addresses == SortCells(old(mem.addresses), NodeAddrs(ns), Itself, IPPortLess)
  {
    for i := 0 to |ns|
      invariant mem.addresses == SortCells(old(mem.addresses), NodeAddrs(ns[..i]), Itself, IPPortLess)
    {
      assert ns[..i + 1] == ns[..i] + [ns[i]];
      assert NodeAddrs(ns[..i + 1]) == NodeAddrs(ns[..i]) + {ns[i].addresses};
      SortCellsTwice(old(mem.addresses), NodeAddrs(ns[..i]), {ns[i].addresses}, Itself, IPPortLess);
      mem.addresses := SortSlice(mem.addresses, ns[i].addresses, Itself, IPPortLess);
    }
    assert ns[..|ns|] == ns;
  }

  lemma StringsSettle(c: Cells<string>, rs: set<Ref>)
    ensures Settles(c, rs, Itself, StrLess)
  {
    StrLessIsStrictTotal();
    forall r | r in c && r in rs
      ensures Sort(Itself, StrLess, Sort(Itself, StrLess, c[r])) == Sort(Itself, StrLess, c[r])
    {
      SortIdempotent(Itself, StrLess, c[r]);
    }
  }

  method SortCredentials(mem: Memory, auths: array<AuthRef>)
    modifies mem`strings
    ensures mem.strings == SortCells(old(mem.strings), Credentials(auths[..]), Itself, StrLess)
  {
    ghost var s := auths[..];
    for i := 0 to auths.Length
      invariant mem.strings == SortCells(old(mem.strings), Credentials(s[..i]), Itself, StrLess)
    {
      assert s[..i + 1] == s[..i] + [s[i]];
      assert Credentials(s[..i + 1]) == Credentials(s[..i]) + {s[i].credentials};
      StringsSettle(old(mem.strings), Credentials(s[..i + 1]));
      SortCellsTwice(old(mem.strings), Credentials(s[..i]), {s[i].credentials}, Itself, StrLess);
      mem.strings := SortSlice(mem.strings, auths[i].credentials, Itself, StrLess);
    }
    assert s[..|s|] == s;
  }

  lemma ACLsSettle(c: Cells<ACLAddress>, d: Cells<MatchTerm>, rs: set<Ref>, rs': set<Ref>)
    ensures Settles(c, rs, ACLAddrOf, StrLess) && Settles(d, rs', ComparandOf, StrLess)
  {
    StrLessIsStrictTotal();
    forall r | r in c && r in rs
      ensures Sort(ACLAddrOf, StrLess, Sort(ACLAddrOf, StrLess, c[r])) == Sort(ACLAddrOf, StrLess, c[r])
    {
      SortIdempotent(ACLAddrOf, StrLess, c[r]);
    }
    forall r | r in d && r in rs'
      ensures Sort(ComparandOf, StrLess, Sort(ComparandOf, StrLess, d[r])) == Sort(ComparandOf, StrLess, d[r])
    {
      SortIdempotent(ComparandOf, StrLess, d[r]);
    }
  }

  method SortACLs(mem: Memory, acls: array<ACLRef>)
    modifies mem`aclAddresses, mem`terms
    ensures mem.aclAddresses == SortCells(old(mem.aclAddresses), ACLAddrs(acls[..]), ACLAddrOf, StrLess)
    ensures mem.terms == SortCells(old(mem.terms), ACLTerms(acls[..]), ComparandOf, StrLess)
  {
    ghost var s := acls[..];
    for i := 0 to acls.Length
      invariant mem.aclAddresses == SortCells(old(mem.aclAddresses), ACLAddrs(s[..i]), ACLAddrOf, StrLess)
      invariant mem.terms == SortCells(old(mem.terms), ACLTerms(s[..i]), ComparandOf, StrLess)
    {
      assert s[..i + 1] == s[..i] + [s[i]];
      assert ACLAddrs(s[..i + 1]) == ACLAddrs(s[..i]) + {s[i].addresses};
      assert ACLTerms(s[..i + 1]) == ACLTerms(s[..i]) + {s[i].conditions};
      ACLsSettle(old(mem.aclAddresses), old(mem.terms), ACLAddrs(s[..i + 1]), ACLTerms(s[..i + 1]));
      SortCellsTwice(old(mem.aclAddresses), ACLAddrs(s[..i]), {s[i].addresses}, ACLAddrOf, StrLess);
      SortCellsTwice(old(mem.terms), ACLTerms(s[..i]), {s[i].conditions}, ComparandOf, StrLess);
      mem.aclAddresses := SortSlice(mem.aclAddresses, acls[i].addresses, ACLAddrOf, StrLess);
      mem.terms := SortSlice(mem.terms, acls[i].conditions, ComparandOf, StrLess);
    }
    assert s[..|s|] == s;
  }

  method SortConditionValues(mem: Memory, conds: seq<ConditionRef>)
    modifies mem`strings
    ensures mem.strings == SortCells(old(mem.strings), ConditionValues(conds), Itself, StrLess)
  {
    for i := 0 to |conds|
      invariant mem.strings == SortCells(old(mem.strings), ConditionValues(conds[..i]), Itself, StrLess)
    {
      assert conds[..i + 1] == conds[..i] + [conds[i]];
      assert ConditionValues(conds[..i + 1]) == ConditionValues(conds[..i]) + {conds[i].values};
      StringsSettle(old(mem.strings), ConditionValues(conds[..i + 1]));
      SortCellsTwice(old(mem.strings), ConditionValues(conds[..i]), {conds[i].values}, Itself, StrLess);
      mem.strings := SortSlice(mem.strings, conds[i].values, Itself, StrLess);
    }
    assert conds[..|conds|] == conds;
  }

  method SortValues(mem: Memory, disps: array<DispositionRef>)
    modifies mem`strings
    ensures mem.strings == SortCells(old(mem.strings), Values(disps[..]), Itself, StrLess)
  {
    ghost var s := disps[..];
    for i := 0 to disps.Length
      invariant mem.strings == SortCells(old(mem.strings), Values(s[..i]), Itself, StrLess)
    {
      assert s[..i + 1] == s[..i] + [s[i]];
      assert Values(s[..i + 1]) == Values(s[..i]) + ConditionValues(s[i].conditions);
      StringsSettle(old(mem.strings), Values(s[..i + 1]));
      SortCellsTwice(old(mem.strings), Values(s[..i]), ConditionValues(s[i].conditions), Itself, StrLess);
      SortConditionValues(mem, disps[i].conditions);
    }
    assert s[..|s|] == s;
  }

  // A copy of an outer list, sorted.
  method SortedCopy<T, K>(a: array<T>, key: T -> K, lt: (K, K) -> bool) returns (b: array<T>)
    ensures fresh(b) && b[..] == Sort(key, lt, a[..])
  {
    b := new T[a.Length](i requires 0 <= i < a.Length reads a => a[i]);
    assert b[..] == a[..];
    Stable(b, key, lt);
  }

  lemma SortKeepsMembers<R>(key: R -> string, rs: seq<R>)
    ensures forall i :: 0 <= i < |rs| ==> rs[i] in Sort(key, StrLess, rs) && Sort(key, StrLess, rs)[i] in rs
  {
    forall i | 0 <= i < |rs| ensures rs[i] in Sort(key, StrLess, rs) && Sort(key, StrLess, rs)[i] in rs {
      SortMember(key, StrLess, rs, rs[i]);
      SortMember(key, StrLess, rs, Sort(key, StrLess, rs)[i]);
    }
  }

  lemma SortKeepsRuleAddrs(rs: seq<RuleRef>)
    ensures RuleAddrs(Sort(HostOfRef, StrLess, rs)) == RuleAddrs(rs)
  {
    SortKeepsMembers(HostOfRef, rs);
  }

  lemma SortKeepsNodeAddrs(ns: seq<ServiceRef>)
    ensures NodeAddrs(Sort(NameOfRef, StrLess, ns)) == NodeAddrs(ns)
  {
    SortKeepsMembers(NameOfRef, ns);
  }

  lemma SortKeepsCredentials(s: seq<AuthRef>)
    ensures Credentials(Sort(RealmOfRef, StrLess, s)) == Credentials(s)
  {
    SortKeepsMembers(RealmOfRef, s);
  }

  lemma SortKeepsACLs(s: seq<ACLRef>)
    ensures ACLAddrs(Sort(ACLNameOfRef, StrLess, s)) == ACLAddrs(s)
    ensures ACLTerms(Sort(ACLNameOfRef, StrLess, s)) == ACLTerms(s)
  {
    SortKeepsMembers(ACLNameOfRef, s);
  }

  // The result: fresh outer lists, sorted, over the same nested slices.
  ghost function SortedOuter(o: Outer): Outer {
    o.(
      defaultService := ServiceRef(o.defaultService.name, NIL, NO_BACKEND),
      rules := Sort(HostOfRef, StrLess, o.rules),
      auths := Sort(RealmOfRef, StrLess, o.auths),
      acls := Sort(ACLNameOfRef, StrLess, o.acls),
      rewrites := Sort(VCLSubOf, NatLess, o.rewrites))
  }

  lemma ConcordantSettles(h: Heap, o: Outer)
    requires ConcordantSpec(View(h, o))
    ensures Settles(h.addresses, Addrs(h, o), Itself, IPPortLess)
  {
    var v := View(h, o);
    forall r | r in h.addresses && r in Addrs(h, o) ensures Concordant(h.addresses[r]) {
      if r in RuleAddrs(o.rules) {
        var x, k :| x in o.rules && k in x.pathMap && x.pathMap[k].addresses == r;
        var i :| 0 <= i < |o.rules| && o.rules[i] == x;
        assert v.rules[i] in v.rules && v.rules[i].pathMap[k].addresses == h.addresses[r];
      } else if r in MapAddrs(o.allServices) {
        var k :| k in o.allServices && o.allServices[k].addresses == r;
        assert v.allServices[k].addresses == h.addresses[r];
      } else {
        var ns := At(h.nodes, o.nodes);
        var n :| n in ns && n.addresses == r;
        var i :| 0 <= i < |ns| && ns[i] == n;
        assert v.shardCluster.nodes[i] in v.shardCluster.nodes && v.shardCluster.nodes[i].addresses == h.addresses[r];
      }
    }
    forall r | r in h.addresses && r in Addrs(h, o)
      ensures Sort(Itself, IPPortLess, Sort(Itself, IPPortLess, h.addresses[r])) ==
        Sort(Itself, IPPortLess, h.addresses[r])
    {
      SortAddressesIdempotent(h.addresses[r]);
    }
  }

  method CanonicalBackends(mem: Memory, spec: SpecRef) returns (rules: array<RuleRef>)
    requires Settles(mem.addresses, Addrs(mem.Now(), Read(spec)), Itself, IPPortLess)
    modifies mem`addresses, mem`nodes
    ensures fresh(rules) && rules[..] == Sort(HostOfRef, StrLess, spec.rules[..])
    ensures mem.addresses == SortCells(old(mem.addresses), old(Addrs(mem.Now(), Read(spec))), Itself, IPPortLess)
    ensures mem.nodes == SortCells(old(mem.nodes), {spec.nodes}, NameOfRef, StrLess)
  {
    ghost var was, ra, ma := mem.addresses, RuleAddrs(spec.rules[..]), MapAddrs(spec.allServices);
    ghost var ns := At(mem.nodes, spec.nodes);
    SortKeepsRuleAddrs(spec.rules[..]);
    SortKeepsNodeAddrs(ns);
    rules := SortedCopy(spec.rules, HostOfRef, StrLess);
    SortRuleAddrs(mem, rules);
    SortCellsTwice(was, ra, ma, Itself, IPPortLess);
    SortMapAddrs(mem, spec.allServices);
    mem.nodes := SortSlice(mem.nodes, spec.nodes, NameOfRef, StrLess);
    var sorted := At(mem.nodes, spec.nodes);
    assert NodeAddrs(sorted) == NodeAddrs(ns);
    SortCellsTwice(was, ra + ma, NodeAddrs(ns), Itself, IPPortLess);
    SortNodeAddrs(mem, sorted);
  }

  method CanonicalAccess(mem: Memory, spec: SpecRef)
    returns (auths: array<AuthRef>, acls: array<ACLRef>, disps: array<DispositionRef>)
    modifies mem`strings, mem`aclAddresses, mem`terms
    ensures fresh(auths) && auths[..] == Sort(RealmOfRef, StrLess, spec.auths[..])
    ensures fresh(acls) && acls[..] == Sort(ACLNameOfRef, StrLess, spec.acls[..])
    ensures fresh(disps) && disps[..] == spec.dispositions[..]
    ensures mem.strings == SortCells(old(mem.strings), Strings(Read(spec)), Itself, StrLess)
    ensures mem.aclAddresses == SortCells(old(mem.aclAddresses), ACLAddrs(spec.acls[..]), ACLAddrOf, StrLess)
    ensures mem.terms == SortCells(old(mem.terms), ACLTerms(spec.acls[..]), ComparandOf, StrLess)
  {
    SortKeepsCredentials(spec.auths[..]);
    SortKeepsACLs(spec.acls[..]);
    auths := SortedCopy(spec.auths, RealmOfRef, StrLess);
    SortCredentials(mem, auths);
    acls := SortedCopy(spec.acls, ACLNameOfRef, StrLess);
    SortACLs(mem, acls);
    disps := new DispositionRef[spec.dispositions.Length](
      i requires 0 <= i < spec.dispositions.Length reads spec.dispositions => spec.dispositions[i]);
    assert disps[..] == spec.dispositions[..];
    StringsSettle(old(mem.strings), Strings(Read(spec)));
    SortCellsTwice(old(mem.strings), Credentials(spec.auths[..]), Values(spec.dispositions[..]), Itself, StrLess);
    SortValues(mem, disps);
  }

  // The result stands for the canonical form of what the receiver stood for;
  // the receiver keeps its outer lists, and its nested lists are sorted.
  method Canonical(mem: Memory, spec: SpecRef) returns (canon: SpecRef)
    requires NIL !in mem.addresses
    requires ConcordantSpec(View(mem.Now(), Read(spec)))
    modifies mem
    ensures View(mem.Now(), Read(canon)) == Canon(old(View(mem.Now(), Read(spec))))
    ensures mem.Now() == SortedHeap(old(mem.Now()), Read(spec))
    ensures Read(spec) == old(Read(spec)) && Read(canon) == SortedOuter(Read(spec))
    ensures fresh(canon.rules) && fresh(canon.auths) && fresh(canon.acls) && fresh(canon.rewrites) &&
      fresh(canon.dispositions)
  {
    ghost var h, o := mem.Now(), Read(spec);
    ConcordantSettles(h, o);
    SortedHeapView(h, o);
    var rules := CanonicalBackends(mem, spec);
    var auths, acls, disps := CanonicalAccess(mem, spec);
    var rewrites := SortedCopy(spec.rewrites, VCLSubOf, NatLess);
    canon := SpecRef(
      ServiceRef(spec.defaultService.name, NIL, NO_BACKEND), rules, spec.allServices, spec.nodes,
      spec.shardProbe, spec.maxSecondaryTTL, auths, spec.vcl, acls, rewrites, disps);
  }

  // Reading references in sorted order after the nested lists were sorted
  // gives the canonical forms of what they stood for before.
  lemma ViewSorted<R, T, K>(
      refKey: R -> K, key: T -> K, lt: (K, K) -> bool, before: R -> T, after: R -> T, canon: T -> T, rs: seq<R>)
    requires forall i :: 0 <= i < |rs| ==> key(before(rs[i])) == refKey(rs[i]) && after(rs[i]) == canon(before(rs[i]))
    ensures Map(after, Sort(refKey, lt, rs)) == Map(canon, Sort(key, lt, Map(before, rs)))
    ensures Map(after, rs) == Map(canon, Map(before, rs))
  {
    SortMap(refKey, key, lt, before, rs);
    var sorted := Sort(refKey, lt, rs);
    forall i | 0 <= i < |sorted| ensures after(sorted[i]) == canon(before(sorted[i])) {
      SortMember(refKey, lt, rs, sorted[i]);
      var j :| 0 <= j < |rs| && rs[j] == sorted[i];
    }
  }

  lemma SortedServices(h: Heap, o: Outer, m: map<string, ServiceRef>)
    requires MapAddrs(m) <= Addrs(h, o)
    ensures MapIn(SortedHeap(h, o), m) == CanonServices(MapIn(h, m))
  {
    forall k | k in m ensures ServiceIn(SortedHeap(h, o))(m[k]) == CanonService(ServiceIn(h)(m[k])) {
      assert m[k].addresses in MapAddrs(m);
    }
  }

  lemma SortedRules(h: Heap, o: Outer)
    ensures Map(RuleIn(SortedHeap(h, o)), Sort(HostOfRef, StrLess, o.rules))
         == Map(CanonRule, Sort(HostOf, StrLess, Map(RuleIn(h), o.rules)))
    ensures Map(RuleIn(SortedHeap(h, o)), o.rules) == Map(CanonRule, Map(RuleIn(h), o.rules))
  {
    forall i | 0 <= i < |o.rules| ensures RuleIn(SortedHeap(h, o))(o.rules[i]) == CanonRule(RuleIn(h)(o.rules[i])) {
      assert MapAddrs(o.rules[i].pathMap) <= RuleAddrs(o.rules);
      SortedServices(h, o, o.rules[i].pathMap);
    }
    ViewSorted(HostOfRef, HostOf, StrLess, RuleIn(h), RuleIn(SortedHeap(h, o)), CanonRule, o.rules);
  }

  lemma SortedNodes(h: Heap, o: Outer)
    ensures Map(ServiceIn(SortedHeap(h, o)), At(SortedHeap(h, o).nodes, o.nodes))
         == Map(CanonService, Sort(NameOf, StrLess, Map(ServiceIn(h), At(h.nodes, o.nodes))))
  {
    var ns := At(h.nodes, o.nodes);
    forall i | 0 <= i < |ns| ensures ServiceIn(SortedHeap(h, o))(ns[i]) == CanonService(ServiceIn(h)(ns[i])) {
      assert ns[i].addresses in NodeAddrs(ns);
    }
    ViewSorted(NameOfRef, NameOf, StrLess, ServiceIn(h), ServiceIn(SortedHeap(h, o)), CanonService, ns);
  }

  lemma SortedAuths(h: Heap, o: Outer)
    ensures Map(AuthIn(SortedHeap(h, o)), Sort(RealmOfRef, StrLess, o.auths))
         == Map(CanonAuth, Sort(RealmOf, StrLess, Map(AuthIn(h), o.auths)))
    ensures Map(AuthIn(SortedHeap(h, o)), o.auths) == Map(CanonAuth, Map(AuthIn(h), o.auths))
  {
    forall i | 0 <= i < |o.auths| ensures AuthIn(SortedHeap(h, o))(o.auths[i]) == CanonAuth(AuthIn(h)(o.auths[i])) {
      assert o.auths[i].credentials in Credentials(o.auths);
    }
    ViewSorted(RealmOfRef, RealmOf, StrLess, AuthIn(h), AuthIn(SortedHeap(h, o)), CanonAuth, o.auths);
  }

  lemma SortedACLs(h: Heap, o: Outer)
    ensures Map(ACLIn(SortedHeap(h, o)), Sort(ACLNameOfRef, StrLess, o.acls))
         == Map(CanonACL, Sort(ACLNameOf, StrLess, Map(ACLIn(h), o.acls)))
    ensures Map(ACLIn(SortedHeap(h, o)), o.acls) == Map(CanonACL, Map(ACLIn(h), o.acls))
  {
    forall i | 0 <= i < |o.acls| ensures ACLIn(SortedHeap(h, o))(o.acls[i]) == CanonACL(ACLIn(h)(o.acls[i])) {
      assert o.acls[i].addresses in ACLAddrs(o.acls) && o.acls[i].conditions in ACLTerms(o.acls);
    }
    ViewSorted(ACLNameOfRef, ACLNameOf, StrLess, ACLIn(h), ACLIn(SortedHeap(h, o)), CanonACL, o.acls);
  }

  lemma SortedDispositions(h: Heap, o: Outer)
    ensures Map(DispositionIn(SortedHeap(h, o)), o.dispositions) ==
      Map(CanonDisposition, Map(DispositionIn(h), o.dispositions))
  {
    forall i | 0 <= i < |o.dispositions|
      ensures DispositionIn(SortedHeap(h, o))(o.dispositions[i]) ==
        CanonDisposition(DispositionIn(h)(o.dispositions[i]))
    {
      var cs := o.dispositions[i].conditions;
      forall j | 0 <= j < |cs| ensures ConditionIn(SortedHeap(h, o))(cs[j]) == CanonCondition(ConditionIn(h)(cs[j])) {
        assert cs[j].values in Values(o.dispositions);
      }
      assert Map(ConditionIn(SortedHeap(h, o)), cs) == Map(CanonCondition, Map(ConditionIn(h), cs));
    }
  }

  lemma SortedHeapView(h: Heap, o: Outer)
    requires NIL !in h.addresses
    ensures View(SortedHeap(h, o), SortedOuter(o)) == Canon(View(h, o))
    ensures View(SortedHeap(h, o), o) == Settled(View(h, o), At(SortedHeap(h, o).addresses, o.defaultService.addresses))
  {
    SortedRules(h, o);
    SortedServices(h, o, o.allServices);
    SortedNodes(h, o);
    SortedAuths(h, o);
    SortedACLs(h, o);
    SortedDispositions(h, o);
  }

  // After a call, another one on the receiver or on the result is possible,
  // and both yield the value that the first one did.
  lemma SecondCall(h: Heap, o: Outer)
    requires NIL !in h.addresses && ConcordantSpec(View(h, o))
    ensures var now, result := SortedHeap(h, o), SortedOuter(o);
      && NIL !in now.addresses && ConcordantSpec(View(now, o)) && ConcordantSpec(View(now, result))
      && View(SortedHeap(now, o), SortedOuter(o)) == View(now, result)
      && View(SortedHeap(now, result), SortedOuter(result)) == View(now, result)
  {
    var now, result, v := SortedHeap(h, o), SortedOuter(o), View(h, o);
    var d := At(now.addresses, o.defaultService.addresses);
    SortedHeapView(h, o);
    StillConcordant(v, d);
    CanonIdempotent(v);
    SortedHeapView(now, o);
    SortedHeapView(now, result);
    assert Canon(Settled(v, d)) == Canon(v);
  }
}
