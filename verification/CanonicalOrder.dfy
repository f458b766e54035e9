// The order of a canonical form, field by field, and what may be exchanged in
// a Spec without changing it.
module CanonicalOrder {
  import opened Prelude
  import opened Orders
  import opened StableSort
  import opened VclSpec
  import opened CanonicalForm

  // ---- Every list ascends ----

  lemma Ascends<T>(key: T -> string, s: seq<T>, i: nat, j: nat)
    requires i < j < |s|
    ensures !Precedes(key(Sort(key, StrLess, s)[j]), key(Sort(key, StrLess, s)[i]))
  {
    StrLessIsStrictTotal();
    SortSorted(key, StrLess, s);
    StrLessExactly(key(Sort(key, StrLess, s)[j]), key(Sort(key, StrLess, s)[i]));
  }

  lemma RulesAscend(v: Spec, i: nat, j: nat)
    requires i < j < |Canon(v).rules|
    ensures !Precedes(Canon(v).rules[j].host, Canon(v).rules[i].host)
  {
    Ascends(HostOf, v.rules, i, j);
  }

  lemma NodesAscend(v: Spec, i: nat, j: nat)
    requires i < j < |Canon(v).shardCluster.nodes|
    ensures !Precedes(Canon(v).shardCluster.nodes[j].name, Canon(v).shardCluster.nodes[i].name)
  {
    Ascends(NameOf, v.shardCluster.nodes, i, j);
  }

  lemma AuthsAscend(v: Spec, i: nat, j: nat)
    requires i < j < |Canon(v).auths|
    ensures !Precedes(Canon(v).auths[j].realm, Canon(v).auths[i].realm)
  {
    Ascends(RealmOf, v.auths, i, j);
  }

  lemma ACLsAscend(v: Spec, i: nat, j: nat)
    requires i < j < |Canon(v).acls|
    ensures !Precedes(Canon(v).acls[j].name, Canon(v).acls[i].name)
  {
    Ascends(ACLNameOf, v.acls, i, j);
  }

  lemma RewritesAscend(v: Spec, i: nat, j: nat)
    requires i < j < |Canon(v).rewrites|
    ensures Canon(v).rewrites[i].vclSub <= Canon(v).rewrites[j].vclSub
  {
    NatLessIsStrictTotal();
    SortSorted(VCLSubOf, NatLess, v.rewrites);
  }

  // The lists of every element as well, of which each belongs to one of the
  // receiver.
  lemma CredentialsAscend(v: Spec, n: nat, i: nat, j: nat)
    requires n < |Canon(v).auths| && i < j < |Canon(v).auths[n].credentials|
    ensures !Precedes(Canon(v).auths[n].credentials[j], Canon(v).auths[n].credentials[i])
  {
    Ascends(Itself, Sort(RealmOf, StrLess, v.auths)[n].credentials, i, j);
  }

  lemma ACLAddressesAscend(v: Spec, n: nat, i: nat, j: nat)
    requires n < |Canon(v).acls| && i < j < |Canon(v).acls[n].addresses|
    ensures !Precedes(Canon(v).acls[n].addresses[j].addr, Canon(v).acls[n].addresses[i].addr)
  {
    Ascends(ACLAddrOf, Sort(ACLNameOf, StrLess, v.acls)[n].addresses, i, j);
  }

  lemma ACLConditionsAscend(v: Spec, n: nat, i: nat, j: nat)
    requires n < |Canon(v).acls| && i < j < |Canon(v).acls[n].conditions|
    ensures !Precedes(Canon(v).acls[n].conditions[j].comparand, Canon(v).acls[n].conditions[i].comparand)
  {
    Ascends(ComparandOf, Sort(ACLNameOf, StrLess, v.acls)[n].conditions, i, j);
  }

  lemma ValuesAscend(v: Spec, n: nat, c: nat, i: nat, j: nat)
    requires n < |Canon(v).dispositions| && c < |Canon(v).dispositions[n].conditions|
    requires i < j < |Canon(v).dispositions[n].conditions[c].values|
    ensures var values := Canon(v).dispositions[n].conditions[c].values; !Precedes(values[j], values[i])
  {
    Ascends(Itself, v.dispositions[n].conditions[c].values, i, j);
  }

  // Addresses ascend by IP, and with the same IP by port, wherever they can be
  // sorted at all.
  ghost predicate AddressesAscend(s: seq<Address>) {
    forall i, j :: 0 <= i < j < |s| ==>
      !Precedes(s[j].ip, s[i].ip) && (s[i].ip == s[j].ip ==> s[i].port <= s[j].port)
  }

  lemma SortedAddressesAscend(s: seq<Address>)
    requires Concordant(s)
    ensures AddressesAscend(SortAddresses(s))
  {
    SortAddressesLexicographic(s);
    IPThenPortIsStrictTotal();
    SortSorted(Itself, IPThenPortLess, s);
    var r := SortAddresses(s);
    forall i, j | 0 <= i < j < |r|
      ensures !Precedes(r[j].ip, r[i].ip) && (r[i].ip == r[j].ip ==> r[i].port <= r[j].port)
    {
      StrLessExactly(r[j].ip, r[i].ip);
      assert !IPThenPortLess(Itself(r[j]), Itself(r[i]));
    }
  }

  lemma ServicesAscend(v: Spec, k: string)
    requires ConcordantSpec(v)
    ensures k in Canon(v).allServices ==> AddressesAscend(Canon(v).allServices[k].addresses)
    ensures forall n :: n in Canon(v).shardCluster.nodes ==> AddressesAscend(n.addresses)
    ensures forall r :: r in Canon(v).rules && k in r.pathMap ==> AddressesAscend(r.pathMap[k].addresses)
  {
    if k in v.allServices {
      SortedAddressesAscend(v.allServices[k].addresses);
    }
    var nodes, rules := Sort(NameOf, StrLess, v.shardCluster.nodes), Sort(HostOf, StrLess, v.rules);
    forall i | 0 <= i < |nodes| ensures AddressesAscend(CanonService(nodes[i]).addresses) {
      SortMember(NameOf, StrLess, v.shardCluster.nodes, nodes[i]);
      SortedAddressesAscend(nodes[i].addresses);
    }
    forall i | 0 <= i < |rules| && k in rules[i].pathMap
      ensures AddressesAscend(CanonRule(rules[i]).pathMap[k].addresses)
    {
      SortMember(HostOf, StrLess, v.rules, rules[i]);
      SortedAddressesAscend(rules[i].pathMap[k].addresses);
    }
  }

  // ---- What may be exchanged ----

  lemma {:induction false} TwiceAt<T>(s: seq<T>, x: T) returns (i: nat, j: nat)
    requires multiset(s)[x] > 1
    ensures i < j < |s| && s[i] == x && s[j] == x
  {
    j := |s| - 1;
    var front := s[..j];
    assert s == front + [s[j]];
    if s[j] == x {
      assert x in multiset(front);
      i :| 0 <= i < |front| && front[i] == x;
    } else {
      i, j := TwiceAt(front, x);
    }
  }

  lemma StillDistinct<T, K>(key: T -> K, a: seq<T>, b: seq<T>)
    requires multiset(a) == multiset(b) && DistinctKeys(key, a)
    ensures DistinctKeys(key, b) && forall x :: x in a <==> x in b
  {
    forall x ensures x in a <==> x in b {
      assert x in a <==> x in multiset(a);
      assert x in b <==> x in multiset(b);
    }
    forall i, j | 0 <= i < j < |b| ensures key(b[i]) != key(b[j]) {
      if b[i] == b[j] {
        assert b == b[..j] + [b[j]] + b[j + 1..];
        assert b[..j][i] == b[j] && b[j] in multiset(b[..j]);
        assert multiset(b) == multiset(b[..j]) + multiset{b[j]} + multiset(b[j + 1..]);
        var k, l := TwiceAt(a, b[i]);
        assert false;
      } else {
        assert b[i] in a && b[j] in a;
        var k :| 0 <= k < |a| && a[k] == b[i];
        var l :| 0 <= l < |a| && a[l] == b[j];
        assert k != l;
      }
    }
  }

  lemma SortForgets<T(!new)>(key: T -> string, a: seq<T>, b: seq<T>)
    requires multiset(a) == multiset(b) && DistinctKeys(key, a)
    ensures Sort(key, StrLess, a) == Sort(key, StrLess, b)
  {
    StrLessIsStrictTotal();
    StillDistinct(key, a, b);
    DistinctKeysPermutation(key, a, b);
    SortNormalForm(key, StrLess, a, b);
  }

  // Lists whose elements have names of their own can be in any order.
  lemma RulesInAnyOrder(v: Spec, rules: seq<Rule>)
    requires multiset(v.rules) == multiset(rules)
    requires forall i, j :: 0 <= i < j < |v.rules| ==> v.rules[i].host != v.rules[j].host
    ensures Canon(v.(rules := rules)) == Canon(v)
  {
    SortForgets(HostOf, v.rules, rules);
  }

  lemma NodesInAnyOrder(v: Spec, nodes: seq<Service>)
    requires multiset(v.shardCluster.nodes) == multiset(nodes)
    requires forall i, j :: 0 <= i < j < |v.shardCluster.nodes| ==>
      v.shardCluster.nodes[i].name != v.shardCluster.nodes[j].name
    ensures Canon(v.(shardCluster := v.shardCluster.(nodes := nodes))) == Canon(v)
  {
    SortForgets(NameOf, v.shardCluster.nodes, nodes);
  }

  lemma AuthsInAnyOrder(v: Spec, auths: seq<Auth>)
    requires multiset(v.auths) == multiset(auths)
    requires forall i, j :: 0 <= i < j < |v.auths| ==> v.auths[i].realm != v.auths[j].realm
    ensures Canon(v.(auths := auths)) == Canon(v)
  {
    SortForgets(RealmOf, v.auths, auths);
  }

  lemma ACLsInAnyOrder(v: Spec, acls: seq<ACL>)
    requires multiset(v.acls) == multiset(acls)
    requires forall i, j :: 0 <= i < j < |v.acls| ==> v.acls[i].name != v.acls[j].name
    ensures Canon(v.(acls := acls)) == Canon(v)
  {
    SortForgets(ACLNameOf, v.acls, acls);
  }

  // And so can be those of one ACL.
  lemma ACLAddressesInAnyOrder(v: Spec, n: nat, addresses: seq<ACLAddress>)
    requires n < |v.acls| && multiset(v.acls[n].addresses) == multiset(addresses)
    requires forall i, j :: 0 <= i < j < |addresses| ==> addresses[i].addr != addresses[j].addr
    ensures Canon(v.(acls := v.acls[n := v.acls[n].(addresses := addresses)])) == Canon(v)
  {
    SortForgets(ACLAddrOf, addresses, v.acls[n].addresses);
    OneOfThem(ACLNameOf, CanonACL, v.acls, n, v.acls[n].(addresses := addresses));
  }

  lemma ACLConditionsInAnyOrder(v: Spec, n: nat, conditions: seq<MatchTerm>)
    requires n < |v.acls| && multiset(v.acls[n].conditions) == multiset(conditions)
    requires forall i, j :: 0 <= i < j < |conditions| ==> conditions[i].comparand != conditions[j].comparand
    ensures Canon(v.(acls := v.acls[n := v.acls[n].(conditions := conditions)])) == Canon(v)
  {
    SortForgets(ComparandOf, conditions, v.acls[n].conditions);
    OneOfThem(ACLNameOf, CanonACL, v.acls, n, v.acls[n].(conditions := conditions));
  }

  lemma OneOfThem<T(!new)>(key: T -> string, f: T -> T, s: seq<T>, n: nat, y: T)
    requires n < |s| && f(y) == f(s[n]) && forall x :: key(f(x)) == key(x)
    ensures Map(f, Sort(key, StrLess, s[n := y])) == Map(f, Sort(key, StrLess, s))
  {
    SortMap(key, key, StrLess, f, s);
    SortMap(key, key, StrLess, f, s[n := y]);
    assert Map(f, s[n := y]) == Map(f, s);
  }

  // The rewrites for one VCL subroutine, in order.
  function OfSub(s: seq<Rewrite>, sub: nat): seq<Rewrite> {
    if s == [] then []
    else
      var last := s[|s| - 1];
      OfSub(s[..|s| - 1], sub) + if last.vclSub == sub then [last] else []
  }

  lemma {:induction false} OfSubIsWithKey(s: seq<Rewrite>, sub: nat)
    ensures OfSub(s, sub) == WithKey(VCLSubOf, s, sub)
  {
    if s != [] {
      OfSubIsWithKey(s[..|s| - 1], sub);
    }
  }

  ghost predicate AgreePerSub(a: seq<Rewrite>, b: seq<Rewrite>) {
    forall sub: nat :: OfSub(a, sub) == OfSub(b, sub)
  }

  // Only the order of rewrites for the same subroutine matters.
  lemma RewritesExactly(v: Spec, rewrites: seq<Rewrite>)
    ensures Canon(v.(rewrites := rewrites)) == Canon(v) <==> AgreePerSub(rewrites, v.rewrites)
  {
    NatLessIsStrictTotal();
    SortNormalForm(VCLSubOf, NatLess, rewrites, v.rewrites);
    AgreePerSubExactly(rewrites, v.rewrites);
    var c, sorted := Canon(v), Sort(VCLSubOf, NatLess, rewrites);
    assert Canon(v.(rewrites := rewrites)) == c.(rewrites := sorted);
    assert c.(rewrites := sorted) == c <==> sorted == c.rewrites;
  }

  lemma AgreePerSubExactly(a: seq<Rewrite>, b: seq<Rewrite>)
    ensures AgreePerKey(VCLSubOf, a, b) <==> AgreePerSub(a, b)
  {
    forall sub: nat ensures WithKey(VCLSubOf, a, sub) == OfSub(a, sub) && WithKey(VCLSubOf, b, sub) == OfSub(b, sub) {
      OfSubIsWithKey(a, sub);
      OfSubIsWithKey(b, sub);
    }
    if AgreePerKey(VCLSubOf, a, b) {
      forall sub: nat ensures OfSub(a, sub) == OfSub(b, sub) {
        assert WithKey(VCLSubOf, a, sub) == WithKey(VCLSubOf, b, sub);
      }
    } else {
      var sub :| WithKey(VCLSubOf, a, sub) != WithKey(VCLSubOf, b, sub);
      assert OfSub(a, sub) != OfSub(b, sub);
    }
  }

  lemma {:induction false} OfSubConcat(a: seq<Rewrite>, b: seq<Rewrite>, sub: nat)
    ensures OfSub(a + b, sub) == OfSub(a, sub) + OfSub(b, sub)
  {
    if b == [] {
      assert a + b == a;
    } else {
      OfSubConcat(a, b[..|b| - 1], sub);
      assert (a + b)[..|a + b| - 1] == a + b[..|b| - 1];
    }
  }

  lemma RewritesExchanged(v: Spec, a: seq<Rewrite>, x: Rewrite, y: Rewrite, b: seq<Rewrite>)
    requires v.rewrites == a + [x, y] + b
    ensures Canon(v.(rewrites := a + [y, x] + b)) == Canon(v) <==> x == y || x.vclSub != y.vclSub
  {
    RewritesInside(v, a, [x, y], [y, x], b);
    PairExchanged(x, y);
  }

  lemma RewritesInside(v: Spec, a: seq<Rewrite>, s: seq<Rewrite>, t: seq<Rewrite>, b: seq<Rewrite>)
    requires v.rewrites == a + s + b
    ensures Canon(v.(rewrites := a + t + b)) == Canon(v) <==> AgreePerSub(t, s)
  {
    RewritesExactly(v, a + t + b);
    forall sub: nat ensures OfSub(a + t + b, sub) == OfSub(a + s + b, sub) <==> OfSub(t, sub) == OfSub(s, sub) {
      OfSubInside(a, s, t, b, sub);
    }
    assert AgreePerSub(a + t + b, a + s + b) <==> AgreePerSub(t, s);
  }

  lemma PairExchanged(x: Rewrite, y: Rewrite)
    ensures AgreePerSub([y, x], [x, y]) <==> x == y || x.vclSub != y.vclSub
  {
    if x == y || x.vclSub != y.vclSub {
      forall sub: nat ensures OfSub([y, x], sub) == OfSub([x, y], sub) {
        OfPair(x, y, sub);
        OfPair(y, x, sub);
      }
    } else {
      OfPair(x, y, x.vclSub);
      OfPair(y, x, x.vclSub);
      assert OfSub([x, y], x.vclSub)[0] == x && OfSub([y, x], x.vclSub)[0] == y;
    }
  }

  lemma OfSubInside(a: seq<Rewrite>, s: seq<Rewrite>, t: seq<Rewrite>, b: seq<Rewrite>, sub: nat)
    ensures OfSub(a + t + b, sub) == OfSub(a + s + b, sub) <==> OfSub(t, sub) == OfSub(s, sub)
  {
    OfSubConcat(a, s, sub);
    OfSubConcat(a + s, b, sub);
    OfSubConcat(a, t, sub);
    OfSubConcat(a + t, b, sub);
    var front, back := OfSub(a, sub), OfSub(b, sub);
    var s', t' := OfSub(s, sub), OfSub(t, sub);
    if front + t' + back == front + s' + back {
      assert |s'| == |t'|;
      assert s' == (front + s' + back)[|front|..|front| + |s'|];
      assert t' == (front + t' + back)[|front|..|front| + |t'|];
    }
  }

  lemma OfPair(x: Rewrite, y: Rewrite, sub: nat)
    ensures OfSub([x, y], sub) == (if x.vclSub == sub then [x] else []) + (if y.vclSub == sub then [y] else [])
  {
    assert [x, y][..1] == [x] && [x][..0] == [];
    assert OfSub([x], sub) == OfSub([x][..0], sub) + if x.vclSub == sub then [x] else [];
  }
}
