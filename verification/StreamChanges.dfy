// What the stream that is hashed shows of a change in one place, whatever the
// lengths of strings and lists are.
module StreamChanges {
  import opened Prelude
  import opened Orders
  import opened StableSort
  import opened VclSpec
  import opened CanonicalForm
  import opened DeepHash
  import opened Streams

  lemma {:induction false} ConcatSplit<T>(f: T -> string, a: seq<T>, b: seq<T>)
    ensures Concat(f, a + b) == Concat(f, a) + Concat(f, b)
  {
    if b == [] {
      assert a + b == a;
    } else {
      var n := |b| - 1;
      var c := a + b;
      ConcatSplit(f, a, b[..n]);
      assert c[..|c| - 1] == a + b[..n] && c[|c| - 1] == b[n];
      assert Concat(f, c) == Concat(f, a + b[..n]) + f(b[n]);
    }
  }

  lemma ConcatFront<T>(f: T -> string, s: seq<T>)
    requires s != []
    ensures Concat(f, s) == f(s[0]) + Concat(f, s[1..])
  {
    ConcatSplit(f, [s[0]], s[1..]);
    assert s == [s[0]] + s[1..];
    assert Concat(f, [s[0]]) == Concat(f, [s[0]][..0]) + f(s[0]);
  }

  lemma ConcatOne<T>(f: T -> string, a: seq<T>, x: T)
    ensures Concat(f, a + [x]) == Concat(f, a) + f(x)
  {
    assert (a + [x])[..|a|] == a;
  }

  lemma AroundOne<T>(f: T -> string, a: seq<T>, x: T, b: seq<T>)
    ensures Concat(f, a + [x] + b) == Concat(f, a) + f(x) + Concat(f, b)
  {
    ConcatSplit(f, a + [x], b);
    ConcatOne(f, a, x);
  }

  lemma OneChanged<T>(f: T -> string, s: seq<T>, i: nat, y: T)
    requires i < |s|
    ensures Concat(f, s[i := y]) == Concat(f, s) <==> f(y) == f(s[i])
  {
    var a, b := s[..i], s[i + 1..];
    AroundOne(f, a, s[i], b);
    AroundOne(f, a, y, b);
    assert s == a + [s[i]] + b && s[i := y] == a + [y] + b;
    Inside(Concat(f, a), f(y), f(s[i]), Concat(f, b));
  }

  lemma EndsAlike(a: string, b: string, x: string)
    ensures a + x == b + x <==> a == b
  {
    if a + x == b + x {
      assert |a| == |b|;
      Cut2(a, x, b, x);
    }
  }

  lemma InConfig(fb: FloatBits, v: Spec, w: Spec)
    requires w == v.(auths := w.auths, acls := w.acls, rewrites := w.rewrites, dispositions := w.dispositions)
    ensures SpecStream(fb, v) == SpecStream(fb, w) <==> ConfigStream(fb, v) == ConfigStream(fb, w)
  {
    StartsAlike(ServicesStream(fb, v), ConfigStream(fb, v), ServicesStream(fb, w), ConfigStream(fb, w));
  }

  // ---- Flags ----

  // Whether the credentials are UTF-8.
  lemma AuthFlagShows(fb: FloatBits, v: Spec, i: nat)
    requires i < |v.auths|
    ensures SpecStream(fb, v.(auths := v.auths[i := v.auths[i].(utf8 := !v.auths[i].utf8)])) != SpecStream(fb, v)
  {
    var a := v.auths[i];
    var b := a.(utf8 := !a.utf8);
    var w := v.(auths := v.auths[i := b]);
    OneChanged(AuthStream, v.auths, i, b);
    assert |AuthStream(a)| != |AuthStream(b)|;
    InConfig(fb, v, w);
    var before := ShardStream(fb, v.shardCluster) + v.vcl;
    var x, y := Concat(AuthStream, v.auths), Concat(AuthStream, w.auths);
    var l, r, d := Concat(ACLStream, v.acls), Concat(RewriteStream, v.rewrites),
      Concat(DispositionStream, v.dispositions);
    StartsAlike(before, x, before, y);
    EndsAlike(before + x, before + y, l);
    EndsAlike(before + x + l, before + y + l, r);
    EndsAlike(before + x + l + r, before + y + l + r, d);
  }

  lemma ACLShows(fb: FloatBits, v: Spec, i: nat, b: ACL)
    requires i < |v.acls|
    ensures SpecStream(fb, v.(acls := v.acls[i := b])) == SpecStream(fb, v) <==> ACLStream(b) == ACLStream(v.acls[i])
  {
    var w := v.(acls := v.acls[i := b]);
    OneChanged(ACLStream, v.acls, i, b);
    InConfig(fb, v, w);
    var before := ShardStream(fb, v.shardCluster) + v.vcl + Concat(AuthStream, v.auths);
    var x, y := Concat(ACLStream, v.acls), Concat(ACLStream, w.acls);
    var r, d := Concat(RewriteStream, v.rewrites), Concat(DispositionStream, v.dispositions);
    StartsAlike(before, x, before, y);
    EndsAlike(before + x, before + y, r);
    EndsAlike(before + x + r, before + y + r, d);
  }

  // Whether an address of an ACL is negated.
  lemma NegationShows(fb: FloatBits, v: Spec, i: nat, j: nat)
    requires i < |v.acls| && j < |v.acls[i].addresses|
    ensures var a, x := v.acls[i], v.acls[i].addresses[j];
      SpecStream(fb, v.(acls := v.acls[i := a.(addresses := a.addresses[j := x.(negate := !x.negate)])]))
        != SpecStream(fb, v)
  {
    var a, x := v.acls[i], v.acls[i].addresses[j];
    var b := a.(addresses := a.addresses[j := x.(negate := !x.negate)]);
    assert |ACLAddressStream(x)| != |ACLAddressStream(x.(negate := !x.negate))|;
    OneChanged(ACLAddressStream, a.addresses, j, x.(negate := !x.negate));
    AddressesOfACLShow(a, b.addresses);
    ACLShows(fb, v, i, b);
  }

  lemma AddressesOfACLShow(a: ACL, addresses: seq<ACLAddress>)
    ensures ACLStream(a.(addresses := addresses)) == ACLStream(a) <==>
      Concat(ACLAddressStream, addresses) == Concat(ACLAddressStream, a.addresses)
  {
    var before := a.name + a.comparand + BigEndian(a.failStatus, 2);
    var x, y := Concat(ACLAddressStream, a.addresses), Concat(ACLAddressStream, addresses);
    var t, h := Concat(TermStream, a.conditions), a.resultHdr;
    StartsAlike(before, x, before, y);
    EndsAlike(before + x, before + y, t);
    EndsAlike(before + x + t, before + y + t, h.header);
    EndsAlike(before + x + t + h.header, before + y + t + h.header, h.success);
    EndsAlike(before + x + t + h.header + h.success, before + y + t + h.header + h.success, h.failure);
  }

  // Every flag of a rewrite.
  lemma RewriteFlagsShow(fb: FloatBits, v: Spec, i: nat, flags: MatchFlags)
    requires i < |v.rewrites|
    ensures SpecStream(fb, v.(rewrites := v.rewrites[i := v.rewrites[i].(matchFlags := flags)])) == SpecStream(fb, v)
       <==> flags == v.rewrites[i].matchFlags
  {
    var a := v.rewrites[i];
    var b := a.(matchFlags := flags);
    var w := v.(rewrites := v.rewrites[i := b]);
    OneChanged(RewriteStream, v.rewrites, i, b);
    FlagsOfRewriteShow(a, flags);
    InConfig(fb, v, w);
    var before := ShardStream(fb, v.shardCluster) + v.vcl + Concat(AuthStream, v.auths) + Concat(ACLStream, v.acls);
    var x, y := Concat(RewriteStream, v.rewrites), Concat(RewriteStream, w.rewrites);
    StartsAlike(before, x, before, y);
    EndsAlike(before + x, before + y, Concat(DispositionStream, v.dispositions));
  }

  lemma FlagsOfRewriteShow(r: Rewrite, flags: MatchFlags)
    ensures RewriteStream(r.(matchFlags := flags)) == RewriteStream(r) <==> flags == r.matchFlags
  {
    var before, x, y := Concat(RewriteRuleStream, r.rules), FlagsStream(r.matchFlags), FlagsStream(flags);
    var m, c, n, s, e := Byte(r.method_), Byte(CompareCode(r.compare)), BoolByte(r.negate), Byte(r.vclSub),
      Byte(r.select);
    FlagsExactly(flags, r.matchFlags);
    StartsAlike(before, x, before, y);
    EndsAlike(before + x, before + y, r.target);
    EndsAlike(before + x + r.target, before + y + r.target, r.source);
    var p, q := before + x + r.target + r.source, before + y + r.target + r.source;
    EndsAlike(p, q, m);
    EndsAlike(p + m, q + m, c);
    EndsAlike(p + m + c, q + m + c, n);
    EndsAlike(p + m + c + n, q + m + c + n, s);
    EndsAlike(p + m + c + n + s, q + m + c + n + s, e);
  }

  // And every flag of a condition of a disposition.
  lemma ConditionFlagsShow(fb: FloatBits, v: Spec, i: nat, j: nat, flags: MatchFlags)
    requires i < |v.dispositions| && j < |v.dispositions[i].conditions|
    ensures var d, c := v.dispositions[i], v.dispositions[i].conditions[j];
      var e := d.(conditions := d.conditions[j := c.(matchFlags := flags)]);
      SpecStream(fb, v.(dispositions := v.dispositions[i := e])) == SpecStream(fb, v) <==> flags == c.matchFlags
  {
    var d, c := v.dispositions[i], v.dispositions[i].conditions[j];
    var e := d.(conditions := d.conditions[j := c.(matchFlags := flags)]);
    var w := v.(dispositions := v.dispositions[i := e]);
    FlagsOfConditionShow(c, flags);
    OneChanged(ConditionStream, d.conditions, j, c.(matchFlags := flags));
    var status := if d.disposition.action == RECV_SYNTH then BigEndian(d.disposition.status, 2) else "";
    var x, y := Concat(ConditionStream, d.conditions), Concat(ConditionStream, e.conditions);
    EndsAlike(x, y, d.disposition.action);
    EndsAlike(x + d.disposition.action, y + d.disposition.action, status);
    OneChanged(DispositionStream, v.dispositions, i, e);
    InConfig(fb, v, w);
    var before := ShardStream(fb, v.shardCluster) + v.vcl + Concat(AuthStream, v.auths) + Concat(ACLStream, v.acls)
      + Concat(RewriteStream, v.rewrites);
    StartsAlike(
      before, Concat(DispositionStream, v.dispositions), before, Concat(DispositionStream, w.dispositions));
  }

  lemma FlagsOfConditionShow(c: Condition, flags: MatchFlags)
    ensures ConditionStream(c.(matchFlags := flags)) == ConditionStream(c) <==> flags == c.matchFlags
  {
    var before, x, y := Concat(Itself, c.values), FlagsStream(c.matchFlags), FlagsStream(flags);
    var n := if c.count.Some? then BigEndian(c.count.value, 8) else "";
    var code := Byte(CompareCode(c.compare));
    FlagsExactly(flags, c.matchFlags);
    StartsAlike(before, x, before, y);
    EndsAlike(before + x, before + y, n);
    EndsAlike(before + x + n, before + y + n, c.comparand);
    EndsAlike(before + x + n + c.comparand, before + y + n + c.comparand, code);
    EndsAlike(before + x + n + c.comparand + code, before + y + n + c.comparand + code, BoolByte(c.negate));
  }

  // ---- Addresses ----

  // An IP has no zero byte, and a port has 16 bits.
  predicate Usual(a: Address) {
    (forall i :: 0 <= i < |a.ip| ==> a.ip[i] != '\0') && 0 <= a.port < 0x1_0000
  }

  ghost predicate AllUsual(s: seq<Address>) {
    forall i :: 0 <= i < |s| ==> Usual(s[i])
  }

  lemma PortStartsWithZero(port: nat)
    requires port < 0x1_0000
    ensures |BigEndian(port, 4)| == 4 && BigEndian(port, 4)[0] == '\0'
  {
    var n3, n2, n1 := port / 256, port / 256 / 256, port / 256 / 256 / 256;
    assert n1 == 0;
    assert BigEndian(n1, 1) == BigEndian(0, 0) + [(n1 % 256) as char] == ['\0'];
    assert BigEndian(n2, 2) == BigEndian(n1, 1) + [(n2 % 256) as char];
    assert BigEndian(n3, 3) == BigEndian(n2, 2) + [(n3 % 256) as char];
    assert BigEndian(port, 4) == BigEndian(n3, 3) + [(port % 256) as char];
  }

  // The first zero byte shows where an IP ends.
  lemma AddressInFront(a: Address, x: string, b: Address, y: string)
    requires Usual(a) && Usual(b)
    ensures AddressStream(a) + x == AddressStream(b) + y <==> a == b && x == y
  {
    PortStartsWithZero(a.port);
    PortStartsWithZero(b.port);
    var s, t := AddressStream(a) + x, AddressStream(b) + y;
    if s == t {
      assert forall i :: 0 <= i < |a.ip| ==> s[i] == a.ip[i];
      assert forall i :: 0 <= i < |b.ip| ==> t[i] == b.ip[i];
      assert s[|a.ip|] == '\0' && t[|b.ip|] == '\0';
      assert |a.ip| == |b.ip|;
      AddressExactly(a, b);
      StartsAlike(AddressStream(a), x, AddressStream(b), y);
    }
  }

  // So lists of addresses show entirely, also if they have different lengths.
  lemma {:induction false} AllAddressesShow(a: seq<Address>, b: seq<Address>)
    requires AllUsual(a) && AllUsual(b)
    ensures Concat(AddressStream, a) == Concat(AddressStream, b) <==> a == b
    decreases |a|
  {
    if a != [] {
      ConcatFront(AddressStream, a);
      PortStartsWithZero(a[0].port);
    }
    if b != [] {
      ConcatFront(AddressStream, b);
      PortStartsWithZero(b[0].port);
    }
    if a != [] && b != [] {
      AllAddressesShow(a[1..], b[1..]);
      AddressInFront(a[0], Concat(AddressStream, a[1..]), b[0], Concat(AddressStream, b[1..]));
      assert a == [a[0]] + a[1..] && b == [b[0]] + b[1..];
    }
  }

  lemma AddressesOfServiceShow(fb: FloatBits, s: Service, addrs: seq<Address>)
    requires AllUsual(s.addresses) && AllUsual(addrs)
    ensures ServiceStream(fb)(s.(addresses := addrs)) == ServiceStream(fb)(s) <==> addrs == s.addresses
  {
    AllAddressesShow(addrs, s.addresses);
    Inside(s.name, Concat(AddressStream, addrs), Concat(AddressStream, s.addresses), BackendStream(fb, s.backend));
  }

  // Each key of a map is at one place only.
  lemma KeyAt(keys: set<string>, k: string) returns (i: nat)
    requires k in keys
    ensures i < |SortedKeys(keys)| && forall j :: 0 <= j < |SortedKeys(keys)| ==> (SortedKeys(keys)[j] == k <==> j == i)
  {
    var ks := SortedKeys(keys);
    KeysMember(keys, k);
    i :| 0 <= i < |ks| && ks[i] == k;
    SortElements(Itself, StrLess, Enumeration(keys));
    assert multiset(ks) == multiset(keys);
    var front, back := ks[..i], ks[i + 1..];
    assert ks == front + [k] + back;
    assert multiset(ks) == multiset(front) + multiset{k} + multiset(back);
    assert multiset(ks)[k] == 1;
    forall j | 0 <= j < |ks| && j != i ensures ks[j] != k {
      assert ks[j] in if j < i then multiset(front) else multiset(back) by {
        assert ks[j] == if j < i then front[j] else back[j - i - 1];
      }
    }
  }

  lemma EntryShows(fb: FloatBits, m: map<string, Service>, k: string, s: Service)
    requires k in m
    ensures MapStream(fb, m[k := s]) == MapStream(fb, m) <==> ServiceStream(fb)(s) == ServiceStream(fb)(m[k])
  {
    var n := m[k := s];
    assert n.Keys == m.Keys;
    var i := KeyAt(m.Keys, k);
    assert Entries(n) == Entries(m)[i := (k, s)];
    OneChanged(PairStream(fb), Entries(m), i, (k, s));
    MapStreamIsEntries(fb, m);
    MapStreamIsEntries(fb, n);
    StartsAlike(k, ServiceStream(fb)(s), k, ServiceStream(fb)(m[k]));
  }

  function Moved(v: Spec, k: string, addrs: seq<Address>): Spec
    requires k in v.allServices
  {
    v.(allServices := v.allServices[k := v.allServices[k].(addresses := addrs)])
  }

  // When the Pods of a Service move, the stream shows it.
  lemma AddressesShow(fb: FloatBits, v: Spec, k: string, addrs: seq<Address>)
    requires k in v.allServices && AllUsual(v.allServices[k].addresses) && AllUsual(addrs)
    ensures SpecStream(fb, Moved(v, k, addrs)) == SpecStream(fb, v) <==> addrs == v.allServices[k].addresses
  {
    var w, s := Moved(v, k, addrs), v.allServices[k];
    AddressesOfServiceShow(fb, s, addrs);
    EntryShows(fb, v.allServices, k, s.(addresses := addrs));
    var before := ServiceStream(fb)(v.defaultService) + Concat(RuleStream(fb), v.rules);
    StartsAlike(before, MapStream(fb, v.allServices), before, MapStream(fb, w.allServices));
    EndsAlike(ServicesStream(fb, v), ServicesStream(fb, w), ConfigStream(fb, v));
  }

  lemma StillUsual(s: seq<Address>)
    requires AllUsual(s)
    ensures AllUsual(SortAddresses(s))
  {
    forall i | 0 <= i < |s| ensures Usual(SortAddresses(s)[i]) {
      SortMember(Itself, IPPortLess, s, SortAddresses(s)[i]);
    }
  }

  lemma CanonMoved(v: Spec, k: string, addrs: seq<Address>)
    requires k in v.allServices
    ensures Canon(Moved(v, k, addrs)) == Moved(Canon(v), k, SortAddresses(addrs))
  {
    assert CanonServices(Moved(v, k, addrs).allServices) ==
      CanonServices(v.allServices)[k := CanonService(v.allServices[k].(addresses := addrs))];
  }

  lemma NamesOfStreams(sha: Sha, fb: FloatBits, a: Spec, b: Spec)
    requires NoCollision(sha, SpecStream(fb, Canon(a)), SpecStream(fb, Canon(b)))
    ensures ConfigName(sha, fb, a) == ConfigName(sha, fb, b) <==> SpecStream(fb, Canon(a)) == SpecStream(fb, Canon(b))
  {
    NamesFaithful(sha(SpecStream(fb, Canon(a))), sha(SpecStream(fb, Canon(b))));
  }

  // So the name of the configuration changes exactly if the addresses do, but
  // for their order.
  lemma PodsMove(sha: Sha, fb: FloatBits, v: Spec, k: string, addrs: seq<Address>)
    requires ConcordantSpec(v) && Concordant(addrs) && k in v.allServices
    requires AllUsual(v.allServices[k].addresses) && AllUsual(addrs)
    requires NoCollision(sha, SpecStream(fb, Canon(Moved(v, k, addrs))), SpecStream(fb, Canon(v)))
    ensures ConfigName(sha, fb, Moved(v, k, addrs)) == ConfigName(sha, fb, v) <==>
      multiset(addrs) == multiset(v.allServices[k].addresses)
  {
    var was := v.allServices[k].addresses;
    NamesOfStreams(sha, fb, Moved(v, k, addrs), v);
    CanonMoved(v, k, addrs);
    StillUsual(addrs);
    StillUsual(was);
    AddressesShow(fb, Canon(v), k, SortAddresses(addrs));
    SortAddressesNormalForm(addrs, was);
  }
}
