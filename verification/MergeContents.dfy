// What the result of a merge holds, in terms of the Ingresses and of what is
// found in the cluster.
module MergeContents {
  import opened Prelude
  import opened StableSort
  import opened VclSpec
  import opened Backends
  import opened Merge
  import MergeOrder

  function Ns(ing: Ingress): string {
    if ing.namespace == "" then "default" else ing.namespace
  }

  predicate Found(env: Lookups, ns: string, ref: BackendRef) {
    BackendAddresses(env, ns, ref).Ok? && SettingsOf(env.configs(ns), ref.serviceName).Ok?
  }

  // A Service has the name of a backend, and the addresses and settings that
  // are found for it.
  predicate IsServiceOf(env: Lookups, ns: string, ref: BackendRef, svc: Service) {
    && svc.name == ns + "/" + ref.serviceName && BackendAddresses(env, ns, ref) == Ok(svc.addresses)
    && SettingsOf(env.configs(ns), ref.serviceName) == Ok(svc.backend)
  }

  lemma FoundExactly(env: Lookups, ns: string, ref: BackendRef)
    requires ns != ""
    ensures StepFailure(env, ns, Use(ref)).None? <==> Found(env, ns, ref)
    ensures Found(env, ns, ref) ==> IsServiceOf(env, ns, ref, ServiceOf(env, ns, ref))
    ensures Found(env, ns, ref) ==> EntryOf(env, ns, ref).value.config == FirstConfig(env.configs(ns), ref.serviceName)
  {
    var addrs := BackendAddresses(env, ns, ref);
    if addrs.Ok? {
      SettingsOfService(env, ns, ref.serviceName, addrs.value);
    }
  }

  // ---- When there is a result ----

  ghost predicate AllFoundFor(env: Lookups, ing: Ingress) {
    && (ing.backend.Some? ==> Found(env, Ns(ing), ing.backend.value))
    && RulesFound(env, Ns(ing), ing.rules)
  }

  predicate RuleFound(env: Lookups, ns: string, rule: IngRule) {
    && rule.host != ""
    && (rule.paths.Some? ==>
      forall k :: 0 <= k < |rule.paths.value| ==> Found(env, ns, rule.paths.value[k].backend))
  }

  lemma RuleFoundExactly(env: Lookups, ns: string, rule: IngRule)
    requires ns != ""
    ensures NoFailure(env, ns, RuleSteps(rule)) <==> RuleFound(env, ns, rule)
  {
    var steps := if rule.paths.Some? then PathSteps(rule.paths.value) else [];
    NoFailureConcat(env, ns, [Host(rule.host)], steps);
    OneStep(env, ns, Host(rule.host));
    forall k | 0 <= k < |steps|
      ensures StepFailure(env, ns, steps[k]).None? <==> Found(env, ns, rule.paths.value[k].backend)
    {
      FoundExactly(env, ns, rule.paths.value[k].backend);
    }
    assert rule.paths.Some? ==> |steps| == |rule.paths.value|;
  }

  ghost predicate RulesFound(env: Lookups, ns: string, rules: seq<IngRule>) {
    forall j :: 0 <= j < |rules| ==> RuleFound(env, ns, rules[j])
  }

  lemma RulesFoundStep(env: Lookups, ns: string, rules: seq<IngRule>, last: IngRule)
    ensures RulesFound(env, ns, rules + [last]) <==> RulesFound(env, ns, rules) && RuleFound(env, ns, last)
  {
    var all := rules + [last];
    assert all[|rules|] == last && forall j :: 0 <= j < |rules| ==> all[j] == rules[j];
  }

  lemma {:induction false} RulesFoundExactly(env: Lookups, ns: string, rules: seq<IngRule>)
    requires ns != ""
    ensures NoFailure(env, ns, RulesSteps(rules)) <==> RulesFound(env, ns, rules)
  {
    if rules != [] {
      var front, last := rules[..|rules| - 1], rules[|rules| - 1];
      RulesFoundExactly(env, ns, front);
      RuleFoundExactly(env, ns, last);
      NoFailureConcat(env, ns, RulesSteps(front), RuleSteps(last));
      RulesFoundStep(env, ns, front, last);
      assert rules == front + [last];
    }
  }

  lemma IngOkExactly(env: Lookups, ing: Ingress)
    ensures IngOk(env, ing) <==> AllFoundFor(env, ing)
  {
    NoFailureConcat(env, Ns(ing), DefaultSteps(ing), RulesSteps(ing.rules));
    RulesFoundExactly(env, Ns(ing), ing.rules);
    if ing.backend.Some? {
      FoundExactly(env, Ns(ing), ing.backend.value);
      OneStep(env, Ns(ing), Use(ing.backend.value));
    }
  }

  lemma {:induction false} DefaultsExactly(ings: seq<Ingress>)
    ensures Defaults(ings) == 0 <==> forall i :: 0 <= i < |ings| ==> ings[i].backend.None?
    ensures Defaults(ings) <= 1 <==>
      forall i, j :: 0 <= i < j < |ings| ==> ings[i].backend.None? || ings[j].backend.None?
  {
    if ings != [] {
      DefaultsExactly(ings[..|ings| - 1]);
    }
  }

  // Ingresses can be merged exactly if no two have a default backend, every
  // rule has a host, and all backends are found.
  lemma MergeableExactly(env: Lookups, ings: seq<Ingress>)
    ensures Mergeable(env, ings) <==>
      && (forall i, j :: 0 <= i < j < |ings| ==> ings[i].backend.None? || ings[j].backend.None?)
      && forall i :: 0 <= i < |ings| ==> AllFoundFor(env, ings[i])
  {
    DefaultsExactly(ings);
    forall i | 0 <= i < |ings| ensures IngOk(env, ings[i]) <==> AllFoundFor(env, ings[i]) {
      IngOkExactly(env, ings[i]);
    }
  }

  // ---- Routes ----

  // The last path with the same string counts.
  ghost predicate LastWith(paths: seq<Path>, k: nat) {
    k < |paths| && forall l :: k < l < |paths| ==> paths[l].path != paths[k].path
  }

  ghost predicate Routes(env: Lookups, ns: string, paths: seq<Path>, pathMap: map<string, Service>) {
    && pathMap.Keys == (set p | p in paths :: p.path)
    && forall k: nat :: LastWith(paths, k) ==> IsServiceOf(env, ns, paths[k].backend, pathMap[paths[k].path])
  }

  lemma NoRoutes(env: Lookups, ns: string)
    ensures Routes(env, ns, [], map[])
  {
  }

  lemma OneMoreRoute(
      env: Lookups, ns: string, paths: seq<Path>, pathMap: map<string, Service>, last: Path, svc: Service,
      all: seq<Path>, now: map<string, Service>)
    requires Routes(env, ns, paths, pathMap) && IsServiceOf(env, ns, last.backend, svc)
    requires all == paths + [last] && now == pathMap[last.path := svc]
    ensures Routes(env, ns, all, now)
  {
    assert all[|paths|] == last && forall k :: 0 <= k < |paths| ==> all[k] == paths[k];
    assert forall p :: p in all <==> p in paths || p == last;
    assert now.Keys == pathMap.Keys + {last.path};
    forall k: nat | LastWith(all, k) ensures IsServiceOf(env, ns, all[k].backend, now[all[k].path]) {
      if k < |paths| {
        assert LastWith(paths, k) && all[|paths|].path != all[k].path;
      }
    }
  }

  lemma {:induction false} PathsRoute(env: Lookups, ns: string, paths: seq<Path>)
    requires ns != "" && PathsFound(env, ns, paths)
    ensures Routes(env, ns, paths, PathMapOf(env, ns, paths))
  {
    if paths == [] {
      NoRoutes(env, ns);
    } else {
      FrontFound(env, ns, paths);
      PathsRoute(env, ns, paths[..|paths| - 1]);
      LastRoute(env, ns, paths);
    }
  }

  lemma LastRoute(env: Lookups, ns: string, paths: seq<Path>)
    requires paths != []
    requires var front := paths[..|paths| - 1]; Routes(env, ns, front, PathMapOf(env, ns, front))
    requires var ref := paths[|paths| - 1].backend; IsServiceOf(env, ns, ref, ServiceOf(env, ns, ref))
    ensures Routes(env, ns, paths, PathMapOf(env, ns, paths))
  {
    var front, last := paths[..|paths| - 1], paths[|paths| - 1];
    var before, svc := PathMapOf(env, ns, front), ServiceOf(env, ns, last.backend);
    OneMoreRoute(env, ns, front, before, last, svc, paths, PathMapOf(env, ns, paths));
  }

  ghost predicate PathsFound(env: Lookups, ns: string, paths: seq<Path>) {
    forall k :: 0 <= k < |paths| ==> Found(env, ns, paths[k].backend)
  }

  lemma FrontFound(env: Lookups, ns: string, paths: seq<Path>)
    requires ns != "" && PathsFound(env, ns, paths) && paths != []
    ensures PathsFound(env, ns, paths[..|paths| - 1])
    ensures var ref := paths[|paths| - 1].backend; IsServiceOf(env, ns, ref, ServiceOf(env, ns, ref))
  {
    FoundExactly(env, ns, paths[|paths| - 1].backend);
  }

  // What becomes of one rule of an Ingress.
  ghost predicate Routed(env: Lookups, ns: string, rule: IngRule, r: Rule) {
    && r.host == rule.host
    && if rule.paths.Some? then Routes(env, ns, rule.paths.value, r.pathMap) else r.pathMap == map[]
  }

  lemma RuleRouted(env: Lookups, ns: string, rule: IngRule)
    requires ns != "" && RuleFound(env, ns, rule)
    ensures Routed(env, ns, rule, RuleOf(env, ns)(rule))
  {
    if rule.paths.Some? {
      PathsRoute(env, ns, rule.paths.value);
    }
  }

  // How many rules there are before those of an Ingress.
  function RulesBefore(ings: seq<Ingress>, i: nat): nat
    requires i <= |ings|
  {
    if i == 0 then 0 else RulesBefore(ings, i - 1) + |ings[i - 1].rules|
  }

  lemma {:induction false} RulesBeforePrefix(ings: seq<Ingress>, n: nat, i: nat)
    requires i <= n <= |ings|
    ensures RulesBefore(ings[..n], i) == RulesBefore(ings, i)
  {
    if i > 0 {
      RulesBeforePrefix(ings, n, i - 1);
    }
  }

  lemma {:induction false} RulesAt(env: Lookups, ings: seq<Ingress>, i: nat, j: nat)
    ensures |AllRules(env, ings)| == RulesBefore(ings, |ings|)
    ensures i < |ings| && j < |ings[i].rules| ==>
      RulesBefore(ings, i) + j < |AllRules(env, ings)| &&
      AllRules(env, ings)[RulesBefore(ings, i) + j] == RuleOf(env, Ns(ings[i]))(ings[i].rules[j])
  {
    if ings != [] {
      var n := |ings| - 1;
      RulesAt(env, ings[..n], i, j);
      RulesBeforePrefix(ings, n, n);
      if i < n {
        RulesBeforePrefix(ings, n, i);
      }
    }
  }

  // ---- Tables ----

  // All backends that are mentioned, each with its namespace, in order: first
  // the default backend of an Ingress, then those of its paths.
  type Mention = (string, BackendRef)

  function PathRefs(ns: string, paths: seq<Path>): seq<Mention> {
    seq(|paths|, k requires 0 <= k < |paths| => (ns, paths[k].backend))
  }

  function RulesRefs(ns: string, rules: seq<IngRule>): seq<Mention> {
    if rules == [] then []
    else
      var last := rules[|rules| - 1];
      RulesRefs(ns, rules[..|rules| - 1]) + if last.paths.Some? then PathRefs(ns, last.paths.value) else []
  }

  function RefsOf(ing: Ingress): seq<Mention> {
    (if ing.backend.Some? then [(Ns(ing), ing.backend.value)] else []) + RulesRefs(Ns(ing), ing.rules)
  }

  function AllRefs(ings: seq<Ingress>): seq<Mention> {
    if ings == [] then [] else AllRefs(ings[..|ings| - 1]) + RefsOf(ings[|ings| - 1])
  }

  function NameOfRef(m: Mention): string {
    m.0 + "/" + m.1.serviceName
  }

  ghost predicate LastOf(refs: seq<Mention>, n: nat) {
    n < |refs| && forall l :: n < l < |refs| ==> NameOfRef(refs[l]) != NameOfRef(refs[n])
  }

  // Each Service under its name, as it was mentioned last.
  ghost predicate Tabled(env: Lookups, refs: seq<Mention>, table: map<string, Service>) {
    && table.Keys == (set m | m in refs :: NameOfRef(m))
    && forall n: nat :: LastOf(refs, n) ==> IsServiceOf(env, refs[n].0, refs[n].1, table[NameOfRef(refs[n])])
  }

  lemma TabledConcat(env: Lookups, a: seq<Mention>, b: seq<Mention>, s: map<string, Service>, t: map<string, Service>)
    requires Tabled(env, a, s) && Tabled(env, b, t)
    ensures Tabled(env, a + b, s + t)
  {
    var refs := a + b;
    assert forall m :: m in refs <==> m in a || m in b;
    assert (s + t).Keys == s.Keys + t.Keys;
    forall n: nat | LastOf(refs, n) ensures IsServiceOf(env, refs[n].0, refs[n].1, (s + t)[NameOfRef(refs[n])]) {
      LastOfConcat(a, b, n);
    }
  }

  lemma LastOfConcat(a: seq<Mention>, b: seq<Mention>, n: nat)
    requires LastOf(a + b, n)
    ensures if n < |a| then LastOf(a, n) && forall l :: 0 <= l < |b| ==> NameOfRef(b[l]) != NameOfRef(a[n])
      else LastOf(b, n - |a|)
  {
    var refs := a + b;
    if n < |a| {
      assert forall l :: n < l < |a| ==> refs[l] == a[l];
      forall l | 0 <= l < |b| ensures NameOfRef(b[l]) != NameOfRef(a[n]) {
        assert refs[|a| + l] == b[l];
      }
    } else {
      forall l | n - |a| < l < |b| ensures NameOfRef(b[l]) != NameOfRef(b[n - |a|]) {
        assert refs[|a| + l] == b[l];
      }
    }
  }

  // The BackendConfigs that were used, each under the name of the Service.
  ghost predicate Configs(env: Lookups, refs: seq<Mention>, configs: map<string, BackendConfig>) {
    && (forall n :: 0 <= n < |refs| && ConfigOf(env, refs[n]).Some? ==> NameOfRef(refs[n]) in configs)
    && forall k :: k in configs ==>
      exists n :: 0 <= n < |refs| && NameOfRef(refs[n]) == k && ConfigOf(env, refs[n]) == Some(configs[k])
  }

  function ConfigOf(env: Lookups, m: Mention): Option<BackendConfig> {
    FirstConfig(env.configs(m.0), m.1.serviceName)
  }

  lemma ConfigsConcat(
      env: Lookups, a: seq<Mention>, b: seq<Mention>, s: map<string, BackendConfig>, t: map<string, BackendConfig>)
    requires Configs(env, a, s) && Configs(env, b, t)
    ensures Configs(env, a + b, s + t)
  {
    var refs, all := a + b, s + t;
    forall k | k in all
      ensures exists n :: 0 <= n < |refs| && NameOfRef(refs[n]) == k && ConfigOf(env, refs[n]) == Some(all[k])
    {
      if k in t {
        var n :| 0 <= n < |b| && NameOfRef(b[n]) == k && ConfigOf(env, b[n]) == Some(t[k]);
        assert refs[|a| + n] == b[n];
      } else {
        var n :| 0 <= n < |a| && NameOfRef(a[n]) == k && ConfigOf(env, a[n]) == Some(s[k]);
        assert refs[n] == a[n];
      }
    }
    forall n | 0 <= n < |refs| && ConfigOf(env, refs[n]).Some? ensures NameOfRef(refs[n]) in all {
      assert if n < |a| then refs[n] == a[n] else refs[n] == b[n - |a|];
    }
  }

  // The mentions among the steps of an Ingress.
  function RefsIn(ns: string, steps: seq<Step>): seq<Mention> {
    if steps == [] then []
    else
      var last := steps[|steps| - 1];
      RefsIn(ns, steps[..|steps| - 1]) + if last.Use? then [(ns, last.ref)] else []
  }

  lemma {:induction false} RefsInConcat(ns: string, a: seq<Step>, b: seq<Step>)
    ensures RefsIn(ns, a + b) == RefsIn(ns, a) + RefsIn(ns, b)
  {
    if b == [] {
      assert a + b == a;
    } else {
      RefsInConcat(ns, a, b[..|b| - 1]);
      assert (a + b)[..|a + b| - 1] == a + b[..|b| - 1];
    }
  }

  lemma {:induction false} RefsInPaths(ns: string, paths: seq<Path>)
    ensures RefsIn(ns, PathSteps(paths)) == PathRefs(ns, paths)
  {
    if paths != [] {
      var n := |paths| - 1;
      RefsInPaths(ns, paths[..n]);
      assert PathSteps(paths)[..n] == PathSteps(paths[..n]);
      assert PathRefs(ns, paths) == PathRefs(ns, paths[..n]) + [(ns, paths[n].backend)];
    }
  }

  lemma {:induction false} RefsInRules(ns: string, rules: seq<IngRule>)
    ensures RefsIn(ns, RulesSteps(rules)) == RulesRefs(ns, rules)
  {
    if rules != [] {
      var front, last := rules[..|rules| - 1], rules[|rules| - 1];
      var steps := if last.paths.Some? then PathSteps(last.paths.value) else [];
      RefsInRules(ns, front);
      RefsInConcat(ns, RulesSteps(front), RuleSteps(last));
      RefsInConcat(ns, [Host(last.host)], steps);
      assert RefsIn(ns, [Host(last.host)]) == RefsIn(ns, [Host(last.host)][..0]) + [];
      if last.paths.Some? {
        RefsInPaths(ns, last.paths.value);
      }
    }
  }

  lemma RefsInSteps(ing: Ingress)
    ensures RefsIn(Ns(ing), Steps(ing)) == RefsOf(ing)
  {
    RefsInConcat(Ns(ing), DefaultSteps(ing), RulesSteps(ing.rules));
    RefsInRules(Ns(ing), ing.rules);
    if ing.backend.Some? {
      var first := [Use(ing.backend.value)];
      assert RefsIn(Ns(ing), first) == RefsIn(Ns(ing), first[..0]) + [(Ns(ing), ing.backend.value)];
    }
  }

  ghost predicate UsesFor(env: Lookups, refs: seq<Mention>, uses: Uses) {
    Tabled(env, refs, uses.services) && Configs(env, refs, uses.configs)
  }

  lemma UsesConcat(env: Lookups, a: seq<Mention>, b: seq<Mention>, s: Uses, t: Uses)
    requires UsesFor(env, a, s) && UsesFor(env, b, t)
    ensures UsesFor(env, a + b, Plus(s, t))
  {
    TabledConcat(env, a, b, s.services, t.services);
    ConfigsConcat(env, a, b, s.configs, t.configs);
  }

  lemma OneUse(env: Lookups, ns: string, ref: BackendRef)
    requires ns != "" && StepFailure(env, ns, Use(ref)).None?
    ensures UsesFor(env, [(ns, ref)], UseOf(env, ns, ref))
  {
    var m: Mention := (ns, ref);
    FoundExactly(env, ns, ref);
    OneName(m);
    assert NameOfRef(m) == KeyOf(ns, ref);
  }

  lemma OneName(m: Mention)
    ensures (set n | n in [m] :: NameOfRef(n)) == {NameOfRef(m)} && [m][0] == m
  {
    var refs, names := [m], set n | n in [m] :: NameOfRef(n);
    assert m in refs;
    forall k ensures k in names <==> k == NameOfRef(m) {
      assert k in names <==> exists n :: n in refs && NameOfRef(n) == k;
    }
  }

  lemma NoUse(env: Lookups)
    ensures UsesFor(env, [], NO_USES)
  {
  }

  lemma {:induction false} StepsTabled(env: Lookups, ns: string, steps: seq<Step>)
    requires ns != "" && NoFailure(env, ns, steps)
    ensures UsesFor(env, RefsIn(ns, steps), Used(env, ns, steps))
  {
    if steps == [] {
      NoUse(env);
    } else {
      var front, last := steps[..|steps| - 1], steps[|steps| - 1];
      assert StepFailure(env, ns, last).None?;
      StepsTabled(env, ns, front);
      if last.Use? {
        OneUse(env, ns, last.ref);
        UsesConcat(env, RefsIn(ns, front), [(ns, last.ref)], Used(env, ns, front), UseOf(env, ns, last.ref));
      }
    }
  }

  lemma {:induction false} AllTabled(env: Lookups, ings: seq<Ingress>)
    requires AllOk(env, ings)
    ensures UsesFor(env, AllRefs(ings), AllUsed(env, ings))
  {
    if ings == [] {
      NoUse(env);
    } else {
      var front, last := ings[..|ings| - 1], ings[|ings| - 1];
      AllTabled(env, front);
      assert IngOk(env, last);
      StepsTabled(env, Ns(last), Steps(last));
      RefsInSteps(last);
      UsesConcat(env, AllRefs(front), RefsOf(last), AllUsed(env, front), UsedBy(env, last));
    }
  }

  lemma DefaultFound(env: Lookups, ings: seq<Ingress>, i: nat)
    requires Mergeable(env, ings) && i < |ings| && ings[i].backend.Some?
    ensures IsServiceOf(env, Ns(ings[i]), ings[i].backend.value, DefaultOf(env, ings))
  {
    assert IngOk(env, ings[i]);
    IngOkExactly(env, ings[i]);
    FoundExactly(env, Ns(ings[i]), ings[i].backend.value);
    MergeOrder.DefaultIs(env, ings, ings[i]);
  }

  lemma {:induction false} NoDefault(env: Lookups, ings: seq<Ingress>)
    requires Defaults(ings) == 0
    ensures DefaultOf(env, ings) == NO_SERVICE
  {
    if ings != [] {
      NoDefault(env, ings[..|ings| - 1]);
    }
  }

  // ---- The result ----

  // What a successful merge results in.
  ghost predicate MergeOf(env: Lookups, ings: seq<Ingress>, r: Result<(Spec, map<string, BackendConfig>), Failure>) {
    Mergeable(env, ings) && r == Ok((MergedSpec(env, ings), AllUsed(env, ings).configs))
  }

  // Every rule of every Ingress, at its place and with its routes.
  lemma MergedRoutes(
      env: Lookups, ings: seq<Ingress>, r: Result<(Spec, map<string, BackendConfig>), Failure>, i: nat, j: nat)
    requires MergeOf(env, ings, r) && i < |ings| && j < |ings[i].rules|
    ensures var rules, n := r.value.0.rules, RulesBefore(ings, i) + j;
      |rules| == RulesBefore(ings, |ings|) && n < |rules| && Routed(env, Ns(ings[i]), ings[i].rules[j], rules[n])
  {
    RulesAt(env, ings, i, j);
    assert IngOk(env, ings[i]);
    IngOkExactly(env, ings[i]);
    RuleRouted(env, Ns(ings[i]), ings[i].rules[j]);
  }

  // The tables of everything that is mentioned.
  lemma MergedTables(env: Lookups, ings: seq<Ingress>, r: Result<(Spec, map<string, BackendConfig>), Failure>)
    requires MergeOf(env, ings, r)
    ensures Tabled(env, AllRefs(ings), r.value.0.allServices) && Configs(env, AllRefs(ings), r.value.1)
  {
    AllTabled(env, ings);
  }

  // The default, if there is one, and nothing else.
  lemma MergedDefault(env: Lookups, ings: seq<Ingress>, r: Result<(Spec, map<string, BackendConfig>), Failure>)
    requires MergeOf(env, ings, r)
    ensures forall i :: 0 <= i < |ings| && ings[i].backend.Some? ==>
      IsServiceOf(env, Ns(ings[i]), ings[i].backend.value, r.value.0.defaultService)
    ensures (forall i :: 0 <= i < |ings| ==> ings[i].backend.None?) ==>
      r.value.0.defaultService == Service("", [], Backend(None, None, "", "", "", "", 0, 0))
    ensures var s := r.value.0;
      s.auths == [] && s.acls == [] && s.rewrites == [] && s.dispositions == [] && s.vcl == "" &&
      s.shardCluster.nodes == []
  {
    forall i | 0 <= i < |ings| && ings[i].backend.Some?
      ensures IsServiceOf(env, Ns(ings[i]), ings[i].backend.value, r.value.0.defaultService)
    {
      DefaultFound(env, ings, i);
    }
    DefaultsExactly(ings);
    if forall i :: 0 <= i < |ings| ==> ings[i].backend.None? {
      NoDefault(env, ings);
    }
  }
}
