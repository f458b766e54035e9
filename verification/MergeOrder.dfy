// What a merge yields, and when it does not depend on the order in which a
// lister returns the Ingresses.
module MergeOrder {
  import opened Prelude
  import opened Orders
  import opened StableSort
  import opened VclSpec
  import opened CanonicalForm
  import opened DeepHash
  import opened Backends
  import opened Merge

  // ---- Panics ----

  // The Service is found, but its BackendConfig asks for initial probes
  // without saying how many a window has.
  predicate WindowMissing(env: Lookups, namespace: string, ref: BackendRef) {
    && BackendAddresses(env, namespace, ref).Ok?
    && var b := FirstConfig(env.configs(if namespace == "" then "default" else namespace), ref.serviceName);
    && b.Some? && b.value.probe.Some? && b.value.probe.value.initial.Some? && b.value.probe.value.window.None?
  }

  lemma {:induction false} AddressFailure(subsets: seq<Subset>, port: int32)
    ensures TargetAddresses(subsets, port).Err? ==> TargetAddresses(subsets, port).error == NoAddresses
  {
    if subsets != [] {
      AddressFailure(subsets[1..], port);
    }
  }

  lemma BackendNoPanic(env: Lookups, namespace: string, ref: BackendRef)
    ensures BackendAddresses(env, namespace, ref).Err? ==> !IsPanic(BackendAddresses(env, namespace, ref).error)
  {
    forall subsets, port
      ensures TargetAddresses(subsets, port).Err? ==> TargetAddresses(subsets, port).error == NoAddresses
    {
      AddressFailure(subsets, port);
    }
  }

  // The use of one backend panics exactly over a window that is missing.
  lemma StepPanicExactly(env: Lookups, namespace: string, step: Step)
    ensures var f := StepFailure(env, namespace, step);
      && (f == Some(NilWindow) <==> step.Use? && WindowMissing(env, namespace, step.ref))
      && f != Some(SecondDefaultBackend)
  {
    if step.Use? {
      BackendNoPanic(env, namespace, step.ref);
    }
  }

  // The first thing about an Ingress that fails is such a use.
  ghost predicate WindowMissingFirst(env: Lookups, ing: Ingress) {
    exists j ::
      && 0 <= j < |Steps(ing)| && NoFailure(env, NamespaceOf(ing), Steps(ing)[..j])
      && Steps(ing)[j].Use? && WindowMissing(env, NamespaceOf(ing), Steps(ing)[j].ref)
  }

  ghost predicate SecondDefault(ings: seq<Ingress>, i: nat)
    requires i < |ings|
  {
    ings[i].backend.Some? && Defaults(ings[..i]) == 1
  }

  // Everything before an Ingress can be merged, and there the merge panics.
  ghost predicate PanicsAt(env: Lookups, ings: seq<Ingress>, i: nat)
    requires i < |ings|
  {
    Mergeable(env, ings[..i]) && (SecondDefault(ings, i) || WindowMissingFirst(env, ings[i]))
  }

  lemma FirstFailureUnique(env: Lookups, namespace: string, steps: seq<Step>, e: Failure, f: Failure)
    requires FailsFirst(env, namespace, steps, e) && FailsFirst(env, namespace, steps, f)
    ensures e == f
  {
    var i :| 0 <= i < |steps| && NoFailure(env, namespace, steps[..i]) &&
      StepFailure(env, namespace, steps[i]) == Some(e);
    var j :| 0 <= j < |steps| && NoFailure(env, namespace, steps[..j]) &&
      StepFailure(env, namespace, steps[j]) == Some(f);
    forall k | 0 <= k < i ensures StepFailure(env, namespace, steps[k]).None? {
      assert steps[..i][k] == steps[k];
    }
    forall k | 0 <= k < j ensures StepFailure(env, namespace, steps[k]).None? {
      assert steps[..j][k] == steps[k];
    }
  }

  // A merge stops at one Ingress only.
  lemma StopsOnce(env: Lookups, ings: seq<Ingress>, i: nat, e: Failure, j: nat)
    requires i < |ings| && j < |ings| && StopsAt(env, ings, i, e) && Mergeable(env, ings[..j])
    ensures j <= i
  {
    if i < j {
      assert ings[..j][..i] == ings[..i] && ings[..j][i] == ings[i];
      StoppedIsNotMergeable(env, ings[..j], i, e);
    }
  }

  lemma IngressPanicExactly(env: Lookups, ing: Ingress, e: Failure)
    requires FailsFirst(env, NamespaceOf(ing), Steps(ing), e)
    ensures IsPanic(e) <==> e == NilWindow
    ensures e == NilWindow <==> WindowMissingFirst(env, ing)
  {
    var steps, namespace := Steps(ing), NamespaceOf(ing);
    var i :| 0 <= i < |steps| && NoFailure(env, namespace, steps[..i]) &&
      StepFailure(env, namespace, steps[i]) == Some(e);
    StepPanicExactly(env, namespace, steps[i]);
    if WindowMissingFirst(env, ing) {
      var j :| 0 <= j < |steps| && NoFailure(env, namespace, steps[..j])
        && steps[j].Use? && WindowMissing(env, namespace, steps[j].ref);
      StepPanicExactly(env, namespace, steps[j]);
      assert FailsFirst(env, namespace, steps, NilWindow);
      FirstFailureUnique(env, namespace, steps, e, NilWindow);
    }
  }

  // The failure of a merge is a panic exactly if there is an Ingress at which
  // the merge panics.
  lemma PanicsExactly(env: Lookups, ings: seq<Ingress>, i: nat, e: Failure)
    requires i < |ings| && StopsAt(env, ings, i, e)
    ensures IsPanic(e) <==> exists j :: 0 <= j < |ings| && PanicsAt(env, ings, j)
    ensures e == SecondDefaultBackend <==> SecondDefault(ings, i)
  {
    if !SecondDefault(ings, i) {
      IngressPanicExactly(env, ings[i], e);
    }
    if j :| 0 <= j < |ings| && PanicsAt(env, ings, j) {
      StopsOnce(env, ings, i, e, j);
      if j < i {
        PanicIsNotMergeable(env, ings, j);
        MergeablePrefix(env, ings, j + 1, i);
      }
    }
    assert IsPanic(e) ==> PanicsAt(env, ings, i);
  }

  lemma PanicIsNotMergeable(env: Lookups, ings: seq<Ingress>, j: nat)
    requires j < |ings| && PanicsAt(env, ings, j)
    ensures !Mergeable(env, ings[..j + 1])
  {
    MergeableStep(env, ings, j);
    if WindowMissingFirst(env, ings[j]) {
      var steps, namespace := Steps(ings[j]), NamespaceOf(ings[j]);
      var k :| 0 <= k < |steps| && NoFailure(env, namespace, steps[..k])
        && steps[k].Use? && WindowMissing(env, namespace, steps[k].ref);
      StepPanicExactly(env, namespace, steps[k]);
    }
  }

  lemma MergeablePrefix(env: Lookups, ings: seq<Ingress>, i: nat, j: nat)
    requires i <= j <= |ings| && Mergeable(env, ings[..j])
    ensures Mergeable(env, ings[..i])
  {
    DefaultsMonotone(ings[..j], i);
    assert ings[..j][..i] == ings[..i];
    assert forall ing :: ing in ings[..i] ==> ing in ings[..j];
  }

  // Once the Ingresses are accepted, the merge panics exactly if, with
  // everything before it merged, an Ingress first fails over a window that is
  // missing.
  lemma AcceptedPanicsExactly(env: Lookups, ings: seq<Ingress>, i: nat, e: Failure)
    requires Accepted(ings) && i < |ings| && StopsAt(env, ings, i, e)
    ensures IsPanic(e) <==> exists j :: 0 <= j < |ings| && PanicsOverWindow(env, ings, j)
    ensures e != SecondDefaultBackend
  {
    PanicsExactly(env, ings, i, e);
    forall j | 0 <= j < |ings| ensures PanicsAt(env, ings, j) <==> PanicsOverWindow(env, ings, j) {
      AcceptedNoSecond(env, ings, j);
    }
    AcceptedNoSecond(env, ings, i);
  }

  ghost predicate PanicsOverWindow(env: Lookups, ings: seq<Ingress>, i: nat)
    requires i < |ings|
  {
    Mergeable(env, ings[..i]) && WindowMissingFirst(env, ings[i])
  }

  lemma AcceptedNoSecond(env: Lookups, ings: seq<Ingress>, j: nat)
    requires Accepted(ings) && j < |ings|
    ensures !SecondDefault(ings, j)
  {
    MergeStep(env, ings, j);
    DefaultsMonotone(ings, j + 1);
  }

  // So what Ings2VCLSpec results in is a panic exactly if there is such an
  // Ingress, and it could have resulted in no other failure.
  lemma MergePanicsExactly(env: Lookups, ings: seq<Ingress>, r: Result<(Spec, map<string, BackendConfig>), Failure>)
    requires r.Ok? <==> Mergeable(env, ings)
    requires r.Err? ==> Stops(env, ings, r.error)
    ensures r.Err? && IsPanic(r.error) <==> exists j :: 0 <= j < |ings| && PanicsAt(env, ings, j)
    ensures Accepted(ings) ==>
      (r.Err? && IsPanic(r.error) <==> exists j :: 0 <= j < |ings| && PanicsOverWindow(env, ings, j))
    ensures forall e :: Stops(env, ings, e) ==> r == Err(e)
  {
    if r.Err? {
      var i :| 0 <= i < |ings| && StopsAt(env, ings, i, r.error);
      PanicsExactly(env, ings, i, r.error);
      if Accepted(ings) {
        AcceptedPanicsExactly(env, ings, i, r.error);
      }
    } else {
      forall j | 0 <= j < |ings| ensures !PanicsAt(env, ings, j) && !PanicsOverWindow(env, ings, j) {
        PrefixesMergeable(env, ings, j);
      }
    }
    forall e | Stops(env, ings, e) ensures r == Err(e) {
      var j :| 0 <= j < |ings| && StopsAt(env, ings, j, e);
      StoppedIsNotMergeable(env, ings, j, e);
      OneFailure(env, ings, r.error, e);
    }
  }

  lemma PrefixesMergeable(env: Lookups, ings: seq<Ingress>, j: nat)
    requires Mergeable(env, ings) && j < |ings|
    ensures !PanicsAt(env, ings, j)
  {
    assert ings[..|ings|] == ings;
    MergeablePrefix(env, ings, j + 1, |ings|);
    if PanicsAt(env, ings, j) {
      PanicIsNotMergeable(env, ings, j);
    }
  }

  lemma OneFailure(env: Lookups, ings: seq<Ingress>, e: Failure, f: Failure)
    requires Stops(env, ings, e) && Stops(env, ings, f)
    ensures e == f
  {
    var i :| 0 <= i < |ings| && StopsAt(env, ings, i, e);
    var j :| 0 <= j < |ings| && StopsAt(env, ings, j, f);
    StopsOnce(env, ings, i, e, j);
    StopsOnce(env, ings, j, f, i);
    if !SecondDefault(ings, i) {
      FirstFailureUnique(env, NamespaceOf(ings[i]), Steps(ings[i]), e, f);
    }
  }

  // Which can happen with a single Ingress.
  lemma AcceptedButPanics() returns (env: Lookups, ing: Ingress)
    ensures Accepted([ing]) && StopsAt(env, [ing], 0, NilWindow)
  {
    var probe := ProbeSpec("", [], None, "", "", Some(3), None, None);
    var config := BackendConfig("ns/c", "", "", ["svc"], Some(probe), None, "", "", "", "", None, None);
    env := Lookups(
      (_, _) => Some([ServicePort("", 80)]), (_, _) => Some([Subset(["192.0.2.1"], [], [EndpointPort("", 80)])]),
      (_, _, _) => Some(80), _ => [config]);
    ing := Ingress("ns", "ing", Some(BackendRef("svc", Int(80))), []);
    var steps := Steps(ing);
    assert steps == [Use(ing.backend.value)] && steps[..0] == [];
    assert [ing][..0] == [] && AllHosts([]) == [];
    assert RuleHosts([]) == [];
    assert AllHosts([ing]) == [];
    assert env.ports("ns", "svc").value[0] == ServicePort("", 80);
    var subset := env.endpoints("ns", "svc").value[0];
    assert subset.ports[0].port == 80;
    assert HasPort(subset, 80);
    assert "svc" in config.services;
    assert WindowMissing(env, "ns", ing.backend.value);
    StepPanicExactly(env, "ns", steps[0]);
    assert FailsFirst(env, "ns", steps, NilWindow);
  }

  // ---- Contents ----

  ghost predicate Uses1(namespace: string, step: Step, k: string) {
    step.Use? && KeyOf(namespace, step.ref) == k
  }

  ghost predicate Mentions(ing: Ingress, k: string) {
    exists i :: 0 <= i < |Steps(ing)| && Uses1(NamespaceOf(ing), Steps(ing)[i], k)
  }

  // Where the Service under a key comes from.
  lemma {:induction false} LastUse(env: Lookups, namespace: string, steps: seq<Step>, k: string) returns (i: nat)
    requires NoFailure(env, namespace, steps) && k in Used(env, namespace, steps).services
    ensures i < |steps| && Uses1(namespace, steps[i], k)
    ensures Used(env, namespace, steps).services[k] == ServiceOf(env, namespace, steps[i].ref)
  {
    i := |steps| - 1;
    var front := steps[..i];
    assert StepFailure(env, namespace, steps[i]).None?;
    if !Uses1(namespace, steps[i], k) {
      i := LastUse(env, namespace, front, k);
    }
  }

  lemma {:induction false} UseCounts(env: Lookups, namespace: string, steps: seq<Step>, i: nat)
    requires NoFailure(env, namespace, steps) && i < |steps| && steps[i].Use?
    ensures KeyOf(namespace, steps[i].ref) in Used(env, namespace, steps).services
  {
    assert StepFailure(env, namespace, steps[|steps| - 1]).None?;
    if i < |steps| - 1 {
      UseCounts(env, namespace, steps[..|steps| - 1], i);
    }
  }

  lemma UsedByExactly(env: Lookups, ing: Ingress, k: string)
    requires IngOk(env, ing)
    ensures k in UsedBy(env, ing).services <==> Mentions(ing, k)
    ensures k in UsedBy(env, ing).services ==>
      UsedBy(env, ing).services[k].name == k && Concordant(UsedBy(env, ing).services[k].addresses)
  {
    var steps, namespace := Steps(ing), NamespaceOf(ing);
    if k in UsedBy(env, ing).services {
      var i := LastUse(env, namespace, steps, k);
      assert StepFailure(env, namespace, steps[i]).None?;
      EntryExactly(env, namespace, steps[i].ref);
    }
    if Mentions(ing, k) {
      var i :| 0 <= i < |steps| && Uses1(namespace, steps[i], k);
      UseCounts(env, namespace, steps, i);
    }
  }

  // The last Ingress that mentions a Service decides.
  lemma {:induction false} LastUser(env: Lookups, ings: seq<Ingress>, k: string) returns (ing: Ingress)
    requires k in AllUsed(env, ings).services
    ensures ing in ings && k in UsedBy(env, ing).services
    ensures AllUsed(env, ings).services[k] == UsedBy(env, ing).services[k]
  {
    ing := ings[|ings| - 1];
    if k !in UsedBy(env, ing).services {
      ing := LastUser(env, ings[..|ings| - 1], k);
    }
  }

  lemma {:induction false} UserCounts(env: Lookups, ings: seq<Ingress>, ing: Ingress, k: string)
    requires ing in ings && k in UsedBy(env, ing).services
    ensures k in AllUsed(env, ings).services
  {
    if ing != ings[|ings| - 1] {
      assert ing in ings[..|ings| - 1];
      UserCounts(env, ings[..|ings| - 1], ing, k);
    }
  }

  lemma HostsConcat(a: seq<Rule>, b: seq<Rule>)
    ensures Map(HostOf, a + b) == Map(HostOf, a) + Map(HostOf, b)
  {
  }

  lemma HostsOfIngress(env: Lookups, ing: Ingress)
    ensures Map(HostOf, RulesOf(env, ing)) == RuleHosts(ing.rules)
  {
  }

  lemma {:induction false} RuleHostsInOrder(env: Lookups, ings: seq<Ingress>)
    ensures Map(HostOf, AllRules(env, ings)) == AllHosts(ings)
  {
    if ings != [] {
      var front, last := ings[..|ings| - 1], ings[|ings| - 1];
      RuleHostsInOrder(env, front);
      HostsConcat(AllRules(env, front), RulesOf(env, last));
      HostsOfIngress(env, last);
    }
  }

  // The rules are those of all hosts in order, and the table of Services has
  // exactly those that are mentioned, each one under its name.
  lemma MergedContents(env: Lookups, ings: seq<Ingress>, k: string)
    requires Mergeable(env, ings)
    ensures Map(HostOf, MergedSpec(env, ings).rules) == AllHosts(ings)
    ensures k in MergedSpec(env, ings).allServices <==> exists ing :: ing in ings && Mentions(ing, k)
    ensures k in MergedSpec(env, ings).allServices ==> MergedSpec(env, ings).allServices[k].name == k
    ensures MergedSpec(env, ings).defaultService.name == "" <==> forall ing :: ing in ings ==> ing.backend.None?
  {
    RuleHostsInOrder(env, ings);
    if k in AllUsed(env, ings).services {
      var ing := LastUser(env, ings, k);
      UsedByExactly(env, ing, k);
    }
    if ing :| ing in ings && Mentions(ing, k) {
      UsedByExactly(env, ing, k);
      UserCounts(env, ings, ing, k);
    }
    DefaultNamed(env, ings);
    NoDefaults(ings);
  }

  lemma {:induction false} NoDefaults(ings: seq<Ingress>)
    ensures Defaults(ings) == 0 <==> forall ing :: ing in ings ==> ing.backend.None?
  {
    if ings != [] {
      NoDefaults(ings[..|ings| - 1]);
      assert ings == ings[..|ings| - 1] + [ings[|ings| - 1]];
    }
  }

  // All of its lists of addresses can be sorted.
  lemma {:induction false} PathMapConcordant(env: Lookups, namespace: string, paths: seq<Path>)
    requires NoFailure(env, namespace, PathSteps(paths)) && namespace != ""
    ensures ConcordantServices(PathMapOf(env, namespace, paths))
  {
    if paths != [] {
      var i := |paths| - 1;
      assert PathSteps(paths)[i] == Use(paths[i].backend);
      assert PathSteps(paths[..i]) == PathSteps(paths)[..i];
      PathMapConcordant(env, namespace, paths[..i]);
      EntryExactly(env, namespace, paths[i].backend);
    }
  }

  lemma {:induction false} RulesConcordant(env: Lookups, namespace: string, rules: seq<IngRule>)
    requires NoFailure(env, namespace, RulesSteps(rules)) && namespace != ""
    ensures forall r :: r in rules ==> ConcordantServices(RuleOf(env, namespace)(r).pathMap)
  {
    if rules != [] {
      var front, last := rules[..|rules| - 1], rules[|rules| - 1];
      assert rules == front + [last];
      NoFailureConcat(env, namespace, RulesSteps(front), RuleSteps(last));
      RulesConcordant(env, namespace, front);
      if last.paths.Some? {
        NoFailureConcat(env, namespace, [Host(last.host)], PathSteps(last.paths.value));
        PathMapConcordant(env, namespace, last.paths.value);
      }
    }
  }

  lemma {:induction false} AllRulesConcordant(env: Lookups, ings: seq<Ingress>)
    requires AllOk(env, ings)
    ensures forall r :: r in AllRules(env, ings) ==> ConcordantServices(r.pathMap)
  {
    if ings != [] {
      var front, last := ings[..|ings| - 1], ings[|ings| - 1];
      AllOkConcat(env, front, [last]);
      assert ings == front + [last];
      AllRulesConcordant(env, front);
      NoFailureConcat(env, NamespaceOf(last), DefaultSteps(last), RulesSteps(last.rules));
      RulesConcordant(env, NamespaceOf(last), last.rules);
    }
  }

  lemma MergedConcordant(env: Lookups, ings: seq<Ingress>)
    requires Mergeable(env, ings)
    ensures ConcordantSpec(MergedSpec(env, ings))
  {
    AllRulesConcordant(env, ings);
    forall k | k in AllUsed(env, ings).services ensures Concordant(AllUsed(env, ings).services[k].addresses) {
      var ing := LastUser(env, ings, k);
      UsedByExactly(env, ing, k);
    }
  }

  // ---- Order ----

  ghost predicate Permutation(a: seq<Ingress>, b: seq<Ingress>) {
    multiset(a) == multiset(b)
  }

  // What is added up over the Ingresses.
  datatype Sums = Sums(defaults: nat, rules: multiset<Rule>, hosts: multiset<string>)

  function SumsOf(env: Lookups, s: seq<Ingress>): Sums {
    Sums(Defaults(s), multiset(AllRules(env, s)), multiset(AllHosts(s)))
  }

  function Add(a: Sums, b: Sums): Sums {
    Sums(a.defaults + b.defaults, a.rules + b.rules, a.hosts + b.hosts)
  }

  lemma AddAssociative(a: Sums, b: Sums, c: Sums)
    ensures Add(a, Add(b, c)) == Add(Add(a, b), c) && Add(a, b) == Add(b, a)
    ensures Add(a, Sums(0, multiset{}, multiset{})) == a
  {
  }

  lemma SumsStep(env: Lookups, s: seq<Ingress>, x: Ingress)
    ensures SumsOf(env, s + [x]) == Add(SumsOf(env, s), SumsOf(env, [x]))
  {
    var t, u := s + [x], [x];
    assert t[..|t| - 1] == s && t[|t| - 1] == x;
    assert u[..|u| - 1] == [] && u[|u| - 1] == x;
    assert AllRules(env, u) == [] + RulesOf(env, x) == RulesOf(env, x);
    assert AllHosts(u) == [] + RuleHosts(x.rules) == RuleHosts(x.rules);
    assert AllRules(env, t) == AllRules(env, s) + AllRules(env, u) && AllHosts(t) == AllHosts(s) + AllHosts(u);
    assert Defaults(t) == Defaults(s) + Defaults(u);
  }

  lemma {:induction false} SumsConcat(env: Lookups, a: seq<Ingress>, b: seq<Ingress>)
    ensures SumsOf(env, a + b) == Add(SumsOf(env, a), SumsOf(env, b))
  {
    if b == [] {
      assert a + b == a;
      AddAssociative(SumsOf(env, a), SumsOf(env, b), SumsOf(env, b));
    } else {
      var front, last := b[..|b| - 1], b[|b| - 1];
      assert a + b == (a + front) + [last] && b == front + [last];
      SumsConcat(env, a, front);
      SumsStep(env, a + front, last);
      SumsStep(env, front, last);
      AddAssociative(SumsOf(env, a), SumsOf(env, front), SumsOf(env, [last]));
    }
  }

  lemma Without(env: Lookups, s: seq<Ingress>, j: nat)
    requires j < |s|
    ensures var rest := s[..j] + s[j + 1..];
      && multiset(s) == multiset(rest) + multiset{s[j]}
      && SumsOf(env, s) == Add(SumsOf(env, rest), SumsOf(env, [s[j]]))
  {
    var a, x, b := s[..j], [s[j]], s[j + 1..];
    assert s == a + x + b;
    SumsConcat(env, a, x);
    SumsConcat(env, a + x, b);
    SumsConcat(env, a, b);
    AddAssociative(SumsOf(env, a), SumsOf(env, x), SumsOf(env, b));
    AddAssociative(SumsOf(env, x), SumsOf(env, b), SumsOf(env, b));
    AddAssociative(SumsOf(env, a), SumsOf(env, b), SumsOf(env, x));
  }

  lemma {:induction false} PermutedSums(env: Lookups, a: seq<Ingress>, b: seq<Ingress>)
    requires Permutation(a, b)
    ensures SumsOf(env, a) == SumsOf(env, b)
    decreases |a|
  {
    if a == [] {
      assert |multiset(b)| == |b|;
      assert b == [];
    } else {
      var i := |a| - 1;
      assert a[i] in multiset(b);
      var j :| 0 <= j < |b| && b[j] == a[i];
      Without(env, a, i);
      Without(env, b, j);
      var ra, rb := a[..i] + a[i + 1..], b[..j] + b[j + 1..];
      assert multiset(ra) == multiset(a) - multiset{a[i]} == multiset(rb);
      PermutedSums(env, ra, rb);
    }
  }

  lemma PermutedMembers(a: seq<Ingress>, b: seq<Ingress>)
    requires Permutation(a, b)
    ensures forall ing :: ing in a <==> ing in b
  {
    forall ing ensures ing in a <==> ing in b {
      assert ing in a <==> ing in multiset(a);
      assert ing in b <==> ing in multiset(b);
    }
  }

  lemma PermutedDistinct(a: seq<string>, b: seq<string>)
    requires multiset(a) == multiset(b) && Distinct(a)
    ensures Distinct(b)
  {
    if !Distinct(b) {
      var i, j :| 0 <= i < j < |b| && b[i] == b[j];
      TwiceIn([], b, j);
      assert [] + b == b;
      NotDistinct(a, b[j]);
    }
  }

  lemma PermutedMergeable(env: Lookups, a: seq<Ingress>, b: seq<Ingress>)
    requires Permutation(a, b)
    ensures Accepted(a) ==> Accepted(b)
    ensures Mergeable(env, a) ==> Mergeable(env, b)
  {
    PermutedSums(env, a, b);
    PermutedMembers(a, b);
    if Accepted(a) {
      PermutedDistinct(AllHosts(a), AllHosts(b));
    }
  }

  lemma SortedRules(env: Lookups, a: seq<Ingress>, b: seq<Ingress>)
    requires Permutation(a, b) && Accepted(a)
    ensures Sort(HostOf, StrLess, AllRules(env, a)) == Sort(HostOf, StrLess, AllRules(env, b))
  {
    PermutedMergeable(env, a, b);
    PermutedSums(env, a, b);
    var ra, rb := AllRules(env, a), AllRules(env, b);
    HostsDistinct(env, a);
    HostsDistinct(env, b);
    forall r ensures r in ra <==> r in rb {
      assert r in ra <==> r in multiset(ra);
      assert r in rb <==> r in multiset(rb);
    }
    StrLessIsStrictTotal();
    DistinctKeysPermutation(HostOf, ra, rb);
    SortNormalForm(HostOf, StrLess, ra, rb);
  }

  lemma HostsDistinct(env: Lookups, ings: seq<Ingress>)
    requires Accepted(ings)
    ensures DistinctKeys(HostOf, AllRules(env, ings))
  {
    RuleHostsInOrder(env, ings);
    var rules := AllRules(env, ings);
    assert forall i :: 0 <= i < |rules| ==> Map(HostOf, rules)[i] == HostOf(rules[i]);
    assert forall i, j :: 0 <= i < j < |rules| ==> AllHosts(ings)[i] != AllHosts(ings)[j];
  }

  lemma {:induction false} DefaultIs(env: Lookups, ings: seq<Ingress>, ing: Ingress)
    requires Defaults(ings) <= 1 && ing in ings && ing.backend.Some?
    ensures DefaultOf(env, ings) == ServiceOf(env, NamespaceOf(ing), ing.backend.value)
  {
    var front, last := ings[..|ings| - 1], ings[|ings| - 1];
    assert ings == front + [last];
    if last.backend.Some? {
      NoDefaults(front);
    } else {
      DefaultIs(env, front, ing);
    }
  }

  lemma {:induction false} DefaultIsNone(env: Lookups, ings: seq<Ingress>)
    requires Defaults(ings) == 0
    ensures DefaultOf(env, ings) == NO_SERVICE
  {
    if ings != [] {
      DefaultIsNone(env, ings[..|ings| - 1]);
    }
  }

  lemma SameDefault(env: Lookups, a: seq<Ingress>, b: seq<Ingress>)
    requires Permutation(a, b) && Defaults(a) <= 1
    ensures DefaultOf(env, a) == DefaultOf(env, b)
  {
    PermutedSums(env, a, b);
    PermutedMembers(a, b);
    if ing :| ing in a && ing.backend.Some? {
      DefaultIs(env, a, ing);
      DefaultIs(env, b, ing);
    } else {
      NoDefaults(a);
      DefaultIsNone(env, a);
      DefaultIsNone(env, b);
    }
  }

  // Any two Ingresses that use the same Service end up with the same one, up
  // to the order of its addresses.
  ghost predicate AgreeOnServices(env: Lookups, ings: seq<Ingress>) {
    forall x, y, k :: x in ings && y in ings && k in UsedBy(env, x).services && k in UsedBy(env, y).services ==>
      CanonService(UsedBy(env, x).services[k]) == CanonService(UsedBy(env, y).services[k])
  }

  lemma SameEntry(env: Lookups, a: seq<Ingress>, b: seq<Ingress>, k: string)
    requires Permutation(a, b) && AgreeOnServices(env, a) && k in AllUsed(env, a).services
    ensures k in AllUsed(env, b).services
    ensures CanonService(AllUsed(env, a).services[k]) == CanonService(AllUsed(env, b).services[k])
  {
    PermutedMembers(a, b);
    var x := LastUser(env, a, k);
    UserCounts(env, b, x, k);
    var y := LastUser(env, b, k);
  }

  lemma SameMentions(env: Lookups, a: seq<Ingress>, b: seq<Ingress>, k: string)
    requires Permutation(a, b) && k in AllUsed(env, b).services
    ensures k in AllUsed(env, a).services
  {
    PermutedMembers(a, b);
    var y := LastUser(env, b, k);
    UserCounts(env, a, y, k);
  }

  lemma SameCanonServices(a: map<string, Service>, b: map<string, Service>)
    requires a.Keys == b.Keys && forall k :: k in a ==> CanonService(a[k]) == CanonService(b[k])
    ensures CanonServices(a) == CanonServices(b)
  {
  }

  lemma SameTable(env: Lookups, a: seq<Ingress>, b: seq<Ingress>)
    requires Permutation(a, b) && AgreeOnServices(env, a)
    ensures CanonServices(AllUsed(env, a).services) == CanonServices(AllUsed(env, b).services)
  {
    var ta, tb := AllUsed(env, a).services, AllUsed(env, b).services;
    forall k | k in ta ensures k in tb && CanonService(ta[k]) == CanonService(tb[k]) {
      SameEntry(env, a, b, k);
    }
    forall k | k in tb ensures k in ta {
      SameMentions(env, a, b, k);
    }
    SameCanonServices(ta, tb);
  }

  // The rest of the Spec is the same for every order of the Ingresses: it
  // comes from the VarnishConfig.
  function WithConfig(v: Spec, w: Spec): Spec {
    v.(shardCluster := w.shardCluster, auths := w.auths, vcl := w.vcl, acls := w.acls, rewrites := w.rewrites,
       dispositions := w.dispositions)
  }

  lemma OrderDoesNotMatter(sha: Sha, fb: FloatBits, env: Lookups, a: seq<Ingress>, b: seq<Ingress>, rest: Spec)
    requires Accepted(a) && Mergeable(env, a) && AgreeOnServices(env, a) && Permutation(a, b)
    ensures Accepted(b) && Mergeable(env, b)
    ensures var va, vb := WithConfig(MergedSpec(env, a), rest), WithConfig(MergedSpec(env, b), rest);
      Canon(va) == Canon(vb) && ConfigName(sha, fb, va) == ConfigName(sha, fb, vb)
  {
    PermutedMergeable(env, a, b);
    SortedRules(env, a, b);
    SameDefault(env, a, b);
    SameTable(env, a, b);
  }

  // One port for every Service is enough.
  ghost predicate OnePortEach(ings: seq<Ingress>) {
    forall x, y, i, j :: x in ings && y in ings && 0 <= i < |Steps(x)| && 0 <= j < |Steps(y)| ==>
      SamePort(NamespaceOf(x), Steps(x)[i], NamespaceOf(y), Steps(y)[j])
  }

  predicate SamePort(namespace: string, step: Step, namespace': string, step': Step) {
    step.Use? && step'.Use? && namespace == namespace' && step.ref.serviceName == step'.ref.serviceName ==>
      step == step'
  }

  ghost predicate SlashFree(ings: seq<Ingress>) {
    forall ing :: ing in ings ==> '/' !in NamespaceOf(ing)
  }

  lemma KeyInjective(a: string, s: string, b: string, t: string)
    requires '/' !in a && '/' !in b && a + "/" + s == b + "/" + t
    ensures a == b && s == t
  {
    var k := a + "/" + s;
    assert k[|a|] == '/' && k[|b|] == '/';
    assert forall i :: 0 <= i < |a| ==> k[i] == a[i];
    assert forall i :: 0 <= i < |b| ==> k[i] == b[i];
    assert |a| == |b|;
    assert a == k[..|a|] && b == k[..|b|] && s == k[|a| + 1..] && t == k[|b| + 1..];
  }

  lemma OnePortAgrees(env: Lookups, ings: seq<Ingress>)
    requires AllOk(env, ings) && OnePortEach(ings) && SlashFree(ings)
    ensures AgreeOnServices(env, ings)
  {
    forall x, y, k | x in ings && y in ings && k in UsedBy(env, x).services && k in UsedBy(env, y).services
      ensures UsedBy(env, x).services[k] == UsedBy(env, y).services[k]
    {
      var i := LastUse(env, NamespaceOf(x), Steps(x), k);
      var j := LastUse(env, NamespaceOf(y), Steps(y), k);
      KeyInjective(NamespaceOf(x), Steps(x)[i].ref.serviceName, NamespaceOf(y), Steps(y)[j].ref.serviceName);
    }
  }

  // And agreement is exactly what is needed.
  ghost predicate OrderIndependent(env: Lookups, a: seq<Ingress>) {
    forall b :: Permutation(a, b) ==> Canon(MergedSpec(env, b)) == Canon(MergedSpec(env, a))
  }

  lemma LastDecides(env: Lookups, a: seq<Ingress>, x: Ingress, k: string) returns (b: seq<Ingress>)
    requires x in a && k in UsedBy(env, x).services
    ensures Permutation(a, b)
    ensures k in MergedSpec(env, b).allServices && MergedSpec(env, b).allServices[k] == UsedBy(env, x).services[k]
  {
    var j :| 0 <= j < |a| && a[j] == x;
    Without(env, a, j);
    b := a[..j] + a[j + 1..] + [x];
    assert b[..|b| - 1] == a[..j] + a[j + 1..] && b[|b| - 1] == x;
  }

  lemma OrderMattersExactly(sha: Sha, fb: FloatBits, env: Lookups, a: seq<Ingress>)
    requires Accepted(a) && Mergeable(env, a)
    ensures OrderIndependent(env, a) <==> AgreeOnServices(env, a)
  {
    if AgreeOnServices(env, a) {
      forall b | Permutation(a, b) ensures Canon(MergedSpec(env, b)) == Canon(MergedSpec(env, a)) {
        OrderDoesNotMatter(sha, fb, env, a, b, MergedSpec(env, []));
        assert WithConfig(MergedSpec(env, a), MergedSpec(env, [])) == MergedSpec(env, a);
        assert WithConfig(MergedSpec(env, b), MergedSpec(env, [])) == MergedSpec(env, b);
      }
    }
    if OrderIndependent(env, a) {
      forall x, y, k | x in a && y in a && k in UsedBy(env, x).services && k in UsedBy(env, y).services
        ensures CanonService(UsedBy(env, x).services[k]) == CanonService(UsedBy(env, y).services[k])
      {
        var b := LastDecides(env, a, x, k);
        var c := LastDecides(env, a, y, k);
        assert Canon(MergedSpec(env, b)).allServices == Canon(MergedSpec(env, c)).allServices;
        assert CanonServices(MergedSpec(env, b).allServices)[k] == CanonServices(MergedSpec(env, c).allServices)[k];
      }
    }
  }
}
