// Merging the Ingresses of a Varnish Service into one Spec.
module Merge {
  import opened Prelude
  import opened Orders
  import opened StableSort
  import opened VclSpec
  import opened CanonicalForm
  import opened DeepHash
  import opened Backends

  datatype Path = Path(path: string, backend: BackendRef)

  datatype IngRule = IngRule(host: string, paths: Option<seq<Path>>)

  datatype Ingress = Ingress(namespace: string, name: string, backend: Option<BackendRef>, rules: seq<IngRule>)

  // ---- The check ----

  // The message names the Ingress that is looked at, and the other one.
  datatype MergeError =
    | TwoDefaultBackends(ing: Ingress, other: Ingress)
    | HostNamedTwice(host: string, ing: Ingress, other: Ingress)

  function IngHost(r: IngRule): string { r.host }

  function RuleHosts(rules: seq<IngRule>): seq<string> {
    Map(IngHost, rules)
  }

  function AllHosts(ings: seq<Ingress>): seq<string> {
    if ings == [] then [] else AllHosts(ings[..|ings| - 1]) + RuleHosts(ings[|ings| - 1].rules)
  }

  function Defaults(ings: seq<Ingress>): nat {
    if ings == [] then 0
    else Defaults(ings[..|ings| - 1]) + if ings[|ings| - 1].backend.Some? then 1 else 0
  }

  ghost predicate Distinct<T(!new)>(s: seq<T>) {
    forall i, j :: 0 <= i < j < |s| ==> s[i] != s[j]
  }

  ghost predicate Accepted(ings: seq<Ingress>) {
    Distinct(AllHosts(ings)) && Defaults(ings) <= 1
  }

  lemma PrefixStep<T>(s: seq<T>, t: seq<T>, j: nat)
    requires j < |t|
    ensures s + t[..j + 1] == s + t[..j] + [t[j]]
    ensures t[..j + 1] == t[..j] + [t[j]]
  {
  }

  lemma DistinctAppend<T(!new)>(s: seq<T>, x: T)
    ensures Distinct(s + [x]) <==> Distinct(s) && x !in s
    ensures forall y :: y in s + [x] <==> y in s || y == x
  {
    var t := s + [x];
    assert forall i :: 0 <= i < |s| ==> t[i] == s[i];
    assert t[|s|] == x;
  }

  // Every host seen, with an Ingress that names it.
  ghost predicate Table(seen: map<string, Ingress>, hosts: seq<string>) {
    forall h :: h in seen <==> h in hosts
  }

  ghost predicate Names(seen: map<string, Ingress>, ings: seq<Ingress>) {
    forall h :: h in seen ==> seen[h] in ings && h in RuleHosts(seen[h].rules)
  }

  // The hosts of one Ingress, entered into the table of those seen before,
  // unless one of them is already there.
  method EnterHosts(ing: Ingress, host2ing: map<string, Ingress>, ghost hosts: seq<string>, ghost ings: seq<Ingress>)
    returns (seen: map<string, Ingress>, twice: Option<string>)
    requires Distinct(hosts) && Table(host2ing, hosts) && Names(host2ing, ings) && ing in ings
    ensures twice.None? ==> Distinct(hosts + RuleHosts(ing.rules)) && Table(seen, hosts + RuleHosts(ing.rules))
    ensures twice.Some? ==> multiset(hosts + RuleHosts(ing.rules))[twice.value] > 1
    ensures twice.Some? ==> twice.value in seen && twice.value in RuleHosts(ing.rules)
    ensures Names(seen, ings)
  {
    seen := host2ing;
    ghost var all, now := RuleHosts(ing.rules), hosts;
    for j := 0 to |ing.rules|
      invariant now == hosts + all[..j] && Distinct(now) && Table(seen, now) && Names(seen, ings)
    {
      var host := ing.rules[j].host;
      assert host == all[j];
      if host in seen {
        TwiceIn(hosts, all, j);
        return seen, Some(host);
      }
      DistinctAppend(now, host);
      PrefixStep(hosts, all, j);
      seen := seen[host := ing];
      now := now + [host];
    }
    assert all[..|all|] == all;
    return seen, None;
  }

  lemma TwiceIn(s: seq<string>, t: seq<string>, j: nat)
    requires j < |t| && t[j] in s + t[..j]
    ensures multiset(s + t)[t[j]] > 1
  {
    Twice(s + t[..j], t[j], t[j + 1..]);
    assert s + t == s + t[..j] + [t[j]] + t[j + 1..];
  }

  // Both of the Ingresses named are among those given, and each of them has
  // what the message is about.
  ghost predicate Blames(e: MergeError, ings: seq<Ingress>) {
    && e.ing in ings && e.other in ings
    && match e
       case TwoDefaultBackends(ing, other) => Defaults(ings) > 1 && ing.backend.Some? && other.backend.Some?
       case HostNamedTwice(host, ing, other) =>
         multiset(AllHosts(ings))[host] > 1 && host in RuleHosts(ing.rules) && host in RuleHosts(other.rules)
  }

  method IngMergeError(ings: seq<Ingress>) returns (e: Option<MergeError>)
    ensures e.None? <==> Accepted(ings)
    ensures e.Some? ==> Blames(e.value, ings)
  {
    var host2ing: map<string, Ingress> := map[];
    var ingWdefBackend: Option<Ingress> := None;
    for i := 0 to |ings|
      invariant Distinct(AllHosts(ings[..i])) && Table(host2ing, AllHosts(ings[..i])) && Names(host2ing, ings)
      invariant Defaults(ings[..i]) == if ingWdefBackend.Some? then 1 else 0
      invariant ingWdefBackend.Some? ==> ingWdefBackend.value in ings && ingWdefBackend.value.backend.Some?
    {
      var ing := ings[i];
      assert ings[..i + 1][..i] == ings[..i];
      DefaultsMonotone(ings, i + 1);
      HostsMonotone(ings, i + 1);
      if ing.backend.Some? {
        if ingWdefBackend.Some? {
          return Some(TwoDefaultBackends(ing, ingWdefBackend.value));
        }
        ingWdefBackend := Some(ing);
      }
      var twice;
      host2ing, twice := EnterHosts(ing, host2ing, AllHosts(ings[..i]), ings);
      if twice.Some? {
        NotDistinct(AllHosts(ings), twice.value);
        return Some(HostNamedTwice(twice.value, ing, host2ing[twice.value]));
      }
    }
    assert ings[..|ings|] == ings;
    return None;
  }

  lemma Twice(seen: seq<string>, host: string, rest: seq<string>)
    requires host in seen
    ensures multiset(seen + [host] + rest)[host] > 1
  {
    assert multiset(seen)[host] > 0;
    assert multiset(seen + [host] + rest) == multiset(seen) + multiset{host} + multiset(rest);
  }

  lemma {:induction false} NotDistinct(s: seq<string>, x: string)
    requires multiset(s)[x] > 1
    ensures !Distinct(s)
  {
    var front, last := s[..|s| - 1], s[|s| - 1];
    assert s == front + [last];
    if last == x {
      assert x in multiset(front);
      var i :| 0 <= i < |front| && front[i] == x;
      assert s[i] == s[|s| - 1];
    } else {
      NotDistinct(front, x);
      var i, j :| 0 <= i < j < |front| && front[i] == front[j];
      assert s[i] == s[j];
    }
  }

  lemma {:induction false} DefaultsMonotone(ings: seq<Ingress>, n: nat)
    requires n <= |ings|
    ensures Defaults(ings[..n]) <= Defaults(ings)
  {
    if n == |ings| {
      assert ings[..n] == ings;
    } else {
      DefaultsMonotone(ings[..|ings| - 1], n);
      assert ings[..|ings| - 1][..n] == ings[..n];
    }
  }

  lemma {:induction false} HostsMonotone(ings: seq<Ingress>, n: nat)
    requires n <= |ings|
    ensures multiset(AllHosts(ings[..n])) <= multiset(AllHosts(ings))
  {
    if n == |ings| {
      assert ings[..n] == ings;
    } else {
      HostsMonotone(ings[..|ings| - 1], n);
      assert ings[..|ings| - 1][..n] == ings[..n];
    }
  }

  // ---- What an Ingress contributes ----

  function NamespaceOf(ing: Ingress): (r: string)
    ensures r != ""
  {
    if ing.namespace == "" then "default" else ing.namespace
  }

  // What is looked at in turn: the default backend, and for every rule its
  // host and the backends of its paths.
  datatype Step = Host(host: string) | Use(ref: BackendRef)

  function PathStep(p: Path): Step { Use(p.backend) }

  function PathSteps(paths: seq<Path>): seq<Step> {
    Map(PathStep, paths)
  }

  function RuleSteps(rule: IngRule): seq<Step> {
    [Host(rule.host)] + if rule.paths.Some? then PathSteps(rule.paths.value) else []
  }

  function RulesSteps(rules: seq<IngRule>): seq<Step> {
    if rules == [] then [] else RulesSteps(rules[..|rules| - 1]) + RuleSteps(rules[|rules| - 1])
  }

  function DefaultSteps(ing: Ingress): seq<Step> {
    if ing.backend.Some? then [Use(ing.backend.value)] else []
  }

  function Steps(ing: Ingress): seq<Step> {
    DefaultSteps(ing) + RulesSteps(ing.rules)
  }

  function StepFailure(env: Lookups, namespace: string, step: Step): Option<Failure> {
    match step
    case Host(host) => if host == "" then Some(EmptyHost) else None
    case Use(ref) =>
      match EntryOf(env, namespace, ref)
      case Err(e) => Some(e)
      case Ok(_) => None
  }

  ghost predicate NoFailure(env: Lookups, namespace: string, steps: seq<Step>) {
    forall i :: 0 <= i < |steps| ==> StepFailure(env, namespace, steps[i]).None?
  }

  ghost predicate FailsFirst(env: Lookups, namespace: string, steps: seq<Step>, e: Failure) {
    exists i :: 0 <= i < |steps| && NoFailure(env, namespace, steps[..i]) &&
      StepFailure(env, namespace, steps[i]) == Some(e)
  }

  ghost predicate IngOk(env: Lookups, ing: Ingress) {
    NoFailure(env, NamespaceOf(ing), Steps(ing))
  }

  function KeyOf(namespace: string, ref: BackendRef): string {
    namespace + "/" + ref.serviceName
  }

  // The Service that a backend stands for, once found.
  function ServiceOf(env: Lookups, namespace: string, ref: BackendRef): Service {
    var e := EntryOf(env, namespace, ref);
    if e.Ok? then e.value.service else NO_SERVICE
  }

  // The Services used and the BackendConfigs they were made with, where a
  // later use of the same Service replaces an earlier one.
  datatype Uses = Uses(services: map<string, Service>, configs: map<string, BackendConfig>)

  const NO_USES := Uses(map[], map[])

  function Plus(a: Uses, b: Uses): Uses {
    Uses(a.services + b.services, a.configs + b.configs)
  }

  function UseOf(env: Lookups, namespace: string, ref: BackendRef): Uses {
    match EntryOf(env, namespace, ref)
    case Err(_) => NO_USES
    case Ok(Entry(service, config)) =>
      Uses(map[KeyOf(namespace, ref) := service], if config.Some? then map[service.name := config.value] else map[])
  }

  function Used(env: Lookups, namespace: string, steps: seq<Step>): Uses {
    if steps == [] then NO_USES
    else
      var before := Used(env, namespace, steps[..|steps| - 1]);
      match steps[|steps| - 1]
      case Host(_) => before
      case Use(ref) => Plus(before, UseOf(env, namespace, ref))
  }

  function PathMapOf(env: Lookups, namespace: string, paths: seq<Path>): map<string, Service> {
    if paths == [] then map[]
    else
      var last := paths[|paths| - 1];
      PathMapOf(env, namespace, paths[..|paths| - 1])[last.path := ServiceOf(env, namespace, last.backend)]
  }

  function RuleOf(env: Lookups, namespace: string): IngRule -> Rule {
    (r: IngRule) => Rule(r.host, if r.paths.Some? then PathMapOf(env, namespace, r.paths.value) else map[])
  }

  function UsedBy(env: Lookups, ing: Ingress): Uses {
    Used(env, NamespaceOf(ing), Steps(ing))
  }

  function RulesOf(env: Lookups, ing: Ingress): seq<Rule> {
    Map(RuleOf(env, NamespaceOf(ing)), ing.rules)
  }

  // ---- The merge ----

  function AllRules(env: Lookups, ings: seq<Ingress>): seq<Rule> {
    if ings == [] then [] else AllRules(env, ings[..|ings| - 1]) + RulesOf(env, ings[|ings| - 1])
  }

  function AllUsed(env: Lookups, ings: seq<Ingress>): Uses {
    if ings == [] then NO_USES else Plus(AllUsed(env, ings[..|ings| - 1]), UsedBy(env, ings[|ings| - 1]))
  }

  function DefaultOf(env: Lookups, ings: seq<Ingress>): Service {
    if ings == [] then NO_SERVICE
    else
      var last := ings[|ings| - 1];
      if last.backend.Some? then ServiceOf(env, NamespaceOf(last), last.backend.value)
      else DefaultOf(env, ings[..|ings| - 1])
  }

  const NO_PROBE := Probe("", [], 0, "", "", "", "", "")
  const NO_CLUSTER := ShardCluster([], NO_PROBE, "")

  function MergedSpec(env: Lookups, ings: seq<Ingress>): Spec {
    Spec(DefaultOf(env, ings), AllRules(env, ings), AllUsed(env, ings).services, NO_CLUSTER, [], "", [], [], [])
  }

  ghost predicate AllOk(env: Lookups, ings: seq<Ingress>) {
    forall ing :: ing in ings ==> IngOk(env, ing)
  }

  ghost predicate Mergeable(env: Lookups, ings: seq<Ingress>) {
    Defaults(ings) <= 1 && AllOk(env, ings)
  }

  // Why the merge stops at an Ingress.
  ghost predicate StopsAt(env: Lookups, ings: seq<Ingress>, i: nat, e: Failure)
    requires i < |ings|
  {
    && Mergeable(env, ings[..i])
    && if ings[i].backend.Some? && Defaults(ings[..i]) == 1 then e == SecondDefaultBackend
       else FailsFirst(env, NamespaceOf(ings[i]), Steps(ings[i]), e)
  }

  lemma {:induction false} DefaultNamed(env: Lookups, ings: seq<Ingress>)
    requires AllOk(env, ings)
    ensures DefaultOf(env, ings).name != "" <==> Defaults(ings) > 0
  {
    if ings != [] {
      var last := ings[|ings| - 1];
      AllOkConcat(env, ings[..|ings| - 1], [last]);
      assert ings == ings[..|ings| - 1] + [last];
      DefaultNamed(env, ings[..|ings| - 1]);
      if last.backend.Some? {
        assert Steps(last)[0] == Use(last.backend.value);
        EntryExactly(env, NamespaceOf(last), last.backend.value);
      }
    }
  }

  // The loops, from the inside out. Each one stops at the first failure.
  lemma NoFailureConcat(env: Lookups, namespace: string, a: seq<Step>, b: seq<Step>)
    ensures NoFailure(env, namespace, a + b) <==> NoFailure(env, namespace, a) && NoFailure(env, namespace, b)
  {
    var s := a + b;
    assert forall i :: 0 <= i < |a| ==> s[i] == a[i];
    assert forall i :: 0 <= i < |b| ==> s[|a| + i] == b[i];
  }

  lemma FailsInside(env: Lookups, namespace: string, a: seq<Step>, b: seq<Step>, c: seq<Step>, e: Failure)
    requires NoFailure(env, namespace, a) && FailsFirst(env, namespace, b, e)
    ensures FailsFirst(env, namespace, a + b + c, e)
  {
    var i :| 0 <= i < |b| && NoFailure(env, namespace, b[..i]) && StepFailure(env, namespace, b[i]) == Some(e);
    var s := a + b + c;
    assert s[..|a| + i] == a + b[..i];
    NoFailureConcat(env, namespace, a, b[..i]);
    assert s[|a| + i] == b[i];
  }

  lemma PlusAssociative(a: Uses, b: Uses, c: Uses)
    ensures Plus(a, Plus(b, c)) == Plus(Plus(a, b), c)
    ensures Plus(a, NO_USES) == a && Plus(NO_USES, a) == a
  {
    assert a.services + (b.services + c.services) == a.services + b.services + c.services;
    assert a.configs + (b.configs + c.configs) == a.configs + b.configs + c.configs;
    assert a.services + map[] == a.services && map[] + a.services == a.services;
    assert a.configs + map[] == a.configs && map[] + a.configs == a.configs;
  }

  lemma {:induction false} UsedConcat(env: Lookups, namespace: string, a: seq<Step>, b: seq<Step>)
    ensures Used(env, namespace, a + b) == Plus(Used(env, namespace, a), Used(env, namespace, b))
  {
    if b == [] {
      assert a + b == a;
      PlusAssociative(Used(env, namespace, a), NO_USES, NO_USES);
    } else {
      var s, last := a + b, b[|b| - 1];
      assert s[..|s| - 1] == a + b[..|b| - 1] && s[|s| - 1] == last;
      UsedConcat(env, namespace, a, b[..|b| - 1]);
      if last.Use? {
        PlusAssociative(Used(env, namespace, a), Used(env, namespace, b[..|b| - 1]), UseOf(env, namespace, last.ref));
      }
    }
  }

  lemma OneStep(env: Lookups, namespace: string, step: Step)
    ensures NoFailure(env, namespace, [step]) <==> StepFailure(env, namespace, step).None?
    ensures StepFailure(env, namespace, step).Some? ==>
      FailsFirst(env, namespace, [step], StepFailure(env, namespace, step).value)
    ensures Used(env, namespace, [step]) == if step.Use? then UseOf(env, namespace, step.ref) else NO_USES
  {
    assert [step][0] == step && [step][..0] == [];
    assert Used(env, namespace, []) == NO_USES;
    if step.Use? {
      PlusAssociative(UseOf(env, namespace, step.ref), NO_USES, NO_USES);
    }
  }

  method AddBackend(env: Lookups, namespace: string, ref: BackendRef, uses: Uses)
    returns (r: Result<(Service, Uses), Failure>)
    requires namespace != ""
    ensures r.Err? ==> StepFailure(env, namespace, Use(ref)) == Some(r.error)
    ensures r.Ok? ==> StepFailure(env, namespace, Use(ref)).None?
    ensures r.Ok? ==> r.value == (ServiceOf(env, namespace, ref), Plus(uses, UseOf(env, namespace, ref)))
  {
    var entry := GetEntry(env, namespace, ref);
    if entry.Err? {
      return Err(entry.error);
    }
    var Entry(service, config) := entry.value;
    var services := uses.services[namespace + "/" + ref.serviceName := service];
    var configs := uses.configs;
    if config.Some? {
      configs := configs[service.name := config.value];
    }
    assert services == uses.services + map[KeyOf(namespace, ref) := service];
    assert configs == uses.configs + if config.Some? then map[service.name := config.value] else map[];
    return Ok((service, Uses(services, configs)));
  }

  lemma PathsStep(env: Lookups, namespace: string, paths: seq<Path>, i: nat)
    requires i < |paths|
    ensures var steps, ref := PathSteps(paths), paths[i].backend;
      && PathMapOf(env, namespace, paths[..i + 1]) ==
        PathMapOf(env, namespace, paths[..i])[paths[i].path := ServiceOf(env, namespace, ref)]
      && Used(env, namespace, steps[..i + 1]) == Plus(Used(env, namespace, steps[..i]), UseOf(env, namespace, ref))
      && (NoFailure(env, namespace, steps[..i + 1]) <==>
        NoFailure(env, namespace, steps[..i]) && StepFailure(env, namespace, Use(ref)).None?)
      && (StepFailure(env, namespace, Use(ref)).Some? && NoFailure(env, namespace, steps[..i]) ==>
          FailsFirst(env, namespace, steps, StepFailure(env, namespace, Use(ref)).value))
  {
    var steps := PathSteps(paths);
    assert paths[..i + 1][..i] == paths[..i] && steps[..i + 1][..i] == steps[..i];
    assert steps[i] == Use(paths[i].backend);
    assert steps[..i + 1] == steps[..i] + [steps[i]];
    OneStep(env, namespace, steps[i]);
    NoFailureConcat(env, namespace, steps[..i], [steps[i]]);
  }

  method AddPaths(env: Lookups, namespace: string, paths: seq<Path>, uses: Uses)
    returns (r: Result<(map<string, Service>, Uses), Failure>)
    requires namespace != ""
    ensures r.Err? ==> FailsFirst(env, namespace, PathSteps(paths), r.error)
    ensures r.Ok? ==> NoFailure(env, namespace, PathSteps(paths))
    ensures r.Ok? ==> r.value == (PathMapOf(env, namespace, paths), Plus(uses, Used(env, namespace, PathSteps(paths))))
  {
    var pathMap: map<string, Service>, now := map[], uses;
    ghost var steps := PathSteps(paths);
    PlusAssociative(uses, NO_USES, NO_USES);
    for i := 0 to |paths|
      invariant NoFailure(env, namespace, steps[..i])
      invariant pathMap == PathMapOf(env, namespace, paths[..i])
      invariant now == Plus(uses, Used(env, namespace, steps[..i]))
    {
      var path := paths[i];
      PathsStep(env, namespace, paths, i);
      var added := AddBackend(env, namespace, path.backend, now);
      if added.Err? {
        return Err(added.error);
      }
      PlusAssociative(uses, Used(env, namespace, steps[..i]), UseOf(env, namespace, path.backend));
      pathMap, now := pathMap[path.path := added.value.0], added.value.1;
    }
    assert paths[..|paths|] == paths && steps[..|steps|] == steps;
    return Ok((pathMap, now));
  }

  method AddRule(env: Lookups, namespace: string, rule: IngRule, uses: Uses) returns (r: Result<(Rule, Uses), Failure>)
    requires namespace != ""
    ensures r.Err? ==> FailsFirst(env, namespace, RuleSteps(rule), r.error)
    ensures r.Ok? ==> NoFailure(env, namespace, RuleSteps(rule))
    ensures r.Ok? ==> r.value == (RuleOf(env, namespace)(rule), Plus(uses, Used(env, namespace, RuleSteps(rule))))
  {
    ghost var host, steps := [Host(rule.host)], if rule.paths.Some? then PathSteps(rule.paths.value) else [];
    assert RuleSteps(rule) == host + steps == [] + host + steps && host + steps + [] == host + steps;
    OneStep(env, namespace, Host(rule.host));
    if rule.host == "" {
      FailsInside(env, namespace, [], host, steps, EmptyHost);
      return Err(EmptyHost);
    }
    NoFailureConcat(env, namespace, host, steps);
    UsedConcat(env, namespace, host, steps);
    PlusAssociative(uses, Used(env, namespace, host), Used(env, namespace, steps));
    if rule.paths.None? {
      return Ok((Rule(rule.host, map[]), uses));
    }
    var added := AddPaths(env, namespace, rule.paths.value, uses);
    if added.Err? {
      FailsInside(env, namespace, host, steps, [], added.error);
      return Err(added.error);
    }
    return Ok((Rule(rule.host, added.value.0), added.value.1));
  }

  lemma {:induction false} RestOfRules(rules: seq<IngRule>, i: nat) returns (rest: seq<Step>)
    requires i <= |rules|
    ensures RulesSteps(rules) == RulesSteps(rules[..i]) + rest
  {
    if i == |rules| {
      assert rules[..i] == rules;
      rest := [];
    } else {
      rest := RestOfRules(rules[..|rules| - 1], i);
      assert rules[..|rules| - 1][..i] == rules[..i];
      rest := rest + RuleSteps(rules[|rules| - 1]);
    }
  }

  lemma RulesStep(env: Lookups, namespace: string, rules: seq<IngRule>, i: nat)
    requires i < |rules|
    ensures var steps, before, now := RuleSteps(rules[i]), RulesSteps(rules[..i]), RulesSteps(rules[..i + 1]);
      && now == before + steps
      && Map(RuleOf(env, namespace), rules[..i + 1]) ==
        Map(RuleOf(env, namespace), rules[..i]) + [RuleOf(env, namespace)(rules[i])]
      && (NoFailure(env, namespace, now) <==> NoFailure(env, namespace, before) && NoFailure(env, namespace, steps))
      && Used(env, namespace, now) == Plus(Used(env, namespace, before), Used(env, namespace, steps))
  {
    assert rules[..i + 1][..i] == rules[..i];
    NoFailureConcat(env, namespace, RulesSteps(rules[..i]), RuleSteps(rules[i]));
    UsedConcat(env, namespace, RulesSteps(rules[..i]), RuleSteps(rules[i]));
  }

  method AddRules(env: Lookups, ing: Ingress, spec: Spec, uses: Uses) returns (r: Result<(seq<Rule>, Uses), Failure>)
    ensures r.Err? ==> FailsFirst(env, NamespaceOf(ing), RulesSteps(ing.rules), r.error)
    ensures r.Ok? ==> NoFailure(env, NamespaceOf(ing), RulesSteps(ing.rules))
    ensures r.Ok? ==>
      r.value == (spec.rules + RulesOf(env, ing), Plus(uses, Used(env, NamespaceOf(ing), RulesSteps(ing.rules))))
  {
    var namespace, rules, now := NamespaceOf(ing), spec.rules, uses;
    PlusAssociative(uses, NO_USES, NO_USES);
    ghost var before: seq<Step> := [];
    for i := 0 to |ing.rules|
      invariant before == RulesSteps(ing.rules[..i]) && NoFailure(env, namespace, before)
      invariant rules == spec.rules + Map(RuleOf(env, namespace), ing.rules[..i])
      invariant now == Plus(uses, Used(env, namespace, before))
    {
      ghost var steps := RuleSteps(ing.rules[i]);
      RulesStep(env, namespace, ing.rules, i);
      var added := AddRule(env, namespace, ing.rules[i], now);
      if added.Err? {
        ghost var rest := RestOfRules(ing.rules, i + 1);
        FailsInside(env, namespace, before, steps, rest, added.error);
        return Err(added.error);
      }
      PlusAssociative(uses, Used(env, namespace, before), Used(env, namespace, steps));
      rules, now, before := rules + [added.value.0], added.value.1, before + steps;
    }
    assert ing.rules[..|ing.rules|] == ing.rules;
    return Ok((rules, now));
  }

  // One Ingress, added to what there is.
  method AddIngress(env: Lookups, ing: Ingress, spec: Spec, uses: Uses) returns (r: Result<(Spec, Uses), Failure>)
    ensures r.Err? ==>
      if ing.backend.Some? && spec.defaultService.name != "" then r.error == SecondDefaultBackend
      else FailsFirst(env, NamespaceOf(ing), Steps(ing), r.error)
    ensures r.Ok? ==> IngOk(env, ing) && (ing.backend.Some? ==> spec.defaultService.name == "")
    ensures r.Ok? ==> r.value.1 == Plus(uses, UsedBy(env, ing)) && r.value.0 == spec.(
      defaultService := if ing.backend.Some? then ServiceOf(env, NamespaceOf(ing), ing.backend.value)
        else spec.defaultService,
      rules := spec.rules + RulesOf(env, ing))
  {
    var namespace, now, defaultService := NamespaceOf(ing), uses, spec.defaultService;
    ghost var first, rest := DefaultSteps(ing), RulesSteps(ing.rules);
    assert [] + first + rest == first + rest == first + rest + [];
    if ing.backend.Some? {
      if spec.defaultService.name != "" {
        return Err(SecondDefaultBackend);
      }
      OneStep(env, namespace, Use(ing.backend.value));
      var added := AddBackend(env, namespace, ing.backend.value, now);
      if added.Err? {
        FailsInside(env, namespace, [], first, rest, added.error);
        return Err(added.error);
      }
      defaultService, now := added.value.0, added.value.1;
    }
    NoFailureConcat(env, namespace, first, rest);
    UsedConcat(env, namespace, first, rest);
    PlusAssociative(uses, Used(env, namespace, first), Used(env, namespace, rest));
    var added := AddRules(env, ing, spec, now);
    if added.Err? {
      FailsInside(env, namespace, first, rest, [], added.error);
      return Err(added.error);
    }
    return Ok((spec.(defaultService := defaultService, rules := added.value.0), added.value.1));
  }

  lemma MergeStep(env: Lookups, ings: seq<Ingress>, i: nat)
    requires i < |ings|
    ensures var ing, before, now := ings[i], ings[..i], ings[..i + 1];
      && AllRules(env, now) == AllRules(env, before) + RulesOf(env, ing)
      && AllUsed(env, now) == Plus(AllUsed(env, before), UsedBy(env, ing))
      && DefaultOf(env, now) ==
        (if ing.backend.Some? then ServiceOf(env, NamespaceOf(ing), ing.backend.value) else DefaultOf(env, before))
      && Defaults(now) == Defaults(before) + if ing.backend.Some? then 1 else 0
  {
    assert ings[..i + 1][..i] == ings[..i];
  }

  lemma MergeableStep(env: Lookups, ings: seq<Ingress>, i: nat)
    requires i < |ings| && Mergeable(env, ings[..i])
    ensures Mergeable(env, ings[..i + 1]) <==>
      IngOk(env, ings[i]) && (ings[i].backend.Some? ==> Defaults(ings[..i]) == 0)
    ensures DefaultOf(env, ings[..i]).name == "" <==> Defaults(ings[..i]) == 0
  {
    MergeStep(env, ings, i);
    DefaultNamed(env, ings[..i]);
    PrefixStep([], ings, i);
    AllOkConcat(env, ings[..i], [ings[i]]);
  }

  lemma AllOkConcat(env: Lookups, a: seq<Ingress>, b: seq<Ingress>)
    ensures AllOk(env, a + b) <==> AllOk(env, a) && AllOk(env, b)
    ensures forall x :: AllOk(env, [x]) <==> IngOk(env, x)
  {
    forall x ensures AllOk(env, [x]) <==> IngOk(env, x) {
      assert x in [x];
    }
    assert forall ing :: ing in a + b <==> ing in a || ing in b;
  }

  // Some Ingress cannot be merged.
  ghost predicate Stops(env: Lookups, ings: seq<Ingress>, e: Failure) {
    exists i :: 0 <= i < |ings| && StopsAt(env, ings, i, e)
  }

  method Ings2VCLSpec(env: Lookups, ings: seq<Ingress>) returns (r: Result<(Spec, map<string, BackendConfig>), Failure>)
    ensures r.Ok? <==> Mergeable(env, ings)
    ensures r.Ok? ==> r.value == (MergedSpec(env, ings), AllUsed(env, ings).configs)
    ensures r.Err? ==> Stops(env, ings, r.error)
  {
    var spec, uses := MergedSpec(env, []).(allServices := map[]), NO_USES;
    for i := 0 to |ings|
      invariant Mergeable(env, ings[..i])
      invariant spec == MergedSpec(env, ings[..i]).(allServices := map[]) && uses == AllUsed(env, ings[..i])
    {
      MergeStep(env, ings, i);
      MergeableStep(env, ings, i);
      var added := AddIngress(env, ings[i], spec, uses);
      if added.Err? {
        assert StopsAt(env, ings, i, added.error);
        StoppedIsNotMergeable(env, ings, i, added.error);
        return Err(added.error);
      }
      spec, uses := added.value.0, added.value.1;
    }
    assert ings[..|ings|] == ings;
    return Ok((spec.(allServices := uses.services), uses.configs));
  }

  lemma StoppedIsNotMergeable(env: Lookups, ings: seq<Ingress>, i: nat, e: Failure)
    requires i < |ings| && StopsAt(env, ings, i, e)
    ensures !Mergeable(env, ings)
  {
    MergeStep(env, ings, i);
    DefaultsMonotone(ings, i + 1);
    assert ings[i] in ings;
  }
}
