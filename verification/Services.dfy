// The state of the controller as a value: its Varnish Services with their
// instances, and what every operation does to it. Results of commands are not
// determined, so that operations are relations between two states.
module Services {
  import opened Prelude
  import opened VclSpec
  import opened CanonicalForm
  import opened DeepHash
  import opened Varnishd
  import opened Protocol
  import opened Instances

  datatype Meta = Meta(key: string, uid: string, ver: string)

  datatype VclConfig = VclConfig(spec: Spec, ings: map<string, Meta>, vcfg: Meta, bcfg: map<string, Meta>)

  // How configurations are named. Nothing else about names matters here than
  // their prefix.
  type Naming = f: VclConfig -> string | forall c :: IsIng(f(c)) witness (c: VclConfig) => INGRESS_PREFIX

  ghost function ConfigNames(sha: Sha, fb: FloatBits): (f: Naming)
    ensures forall c :: f(c) == ConfigName(sha, fb, c.spec)
  {
    var f := (c: VclConfig) => ConfigName(sha, fb, c.spec);
    assert forall c :: IsIng(f(c)) by {
      forall c ensures IsIng(f(c)) {
        var d := sha(SpecStream(fb, Canon(c.spec)));
        NamesFaithful(d, d);
      }
    }
    f
  }

  // An instance, and whether its Secret is known.
  datatype Inst = Inst(addr: string, known: bool)

  datatype Svc = Svc(insts: seq<Inst>, spec: Option<VclConfig>, secrName: string, cfgLoaded: bool)

  const NEW_SVC := Svc([], None, "", false)

  datatype State = State(svcs: map<string, Svc>, at: map<string, Varnish>)

  ghost function Addrs(insts: seq<Inst>): set<string> {
    set i | 0 <= i < |insts| :: insts[i].addr
  }

  ghost predicate DistinctAddrs(insts: seq<Inst>) {
    forall i, j :: 0 <= i < j < |insts| ==> insts[i].addr != insts[j].addr
  }

  // ---- The invariant ----

  ghost predicate InSync(at: map<string, Varnish>, addr: string, cfg: string) {
    addr in at && Loaded(at[addr], cfg) && Labelled(at[addr], REGULAR, cfg) && Labelled(at[addr], READINESS, READY)
  }

  ghost predicate SvcInSync(name: Naming, at: map<string, Varnish>, svc: Svc) {
    svc.spec.Some? ==> forall a :: a in Addrs(svc.insts) ==> InSync(at, a, name(svc.spec.value))
  }

  // What cfgLoaded is meant to say, of all Services but some.
  ghost predicate Truthful(name: Naming, s: State, but: set<string>) {
    forall k :: k in s.svcs && k !in but && s.svcs[k].cfgLoaded ==> SvcInSync(name, s.at, s.svcs[k])
  }

  // No two instances have the same address.
  ghost predicate Apart(s: State) {
    && (forall k :: k in s.svcs ==> DistinctAddrs(s.svcs[k].insts))
    && (forall k, l :: k in s.svcs && l in s.svcs && k != l ==> Addrs(s.svcs[k].insts) !! Addrs(s.svcs[l].insts))
  }

  ghost predicate AllSafe(at: map<string, Varnish>) {
    forall a :: a in at ==> Safe(at[a])
  }

  ghost predicate GoodBut(name: Naming, s: State, but: set<string>) {
    Apart(s) && AllSafe(s.at) && Truthful(name, s, but)
  }

  ghost predicate Good(name: Naming, s: State) {
    GoodBut(name, s, {})
  }

  // ---- What happens at the instances ----

  ghost predicate Changed(at: map<string, Varnish>, at': map<string, Varnish>, addrs: set<string>) {
    at'.Keys == at.Keys && forall a :: a in at && a !in addrs ==> at'[a] == at[a]
  }

  ghost predicate AfterSome(v: Varnish, cfg: string, v': Varnish) {
    exists k :: k <= 3 && v' == After(v, cfg, k)
  }

  ghost predicate UpdatedAll(
    at: map<string, Varnish>, at': map<string, Varnish>, insts: seq<Inst>, cfg: string, failed: bool)
  {
    && Changed(at, at', Addrs(insts))
    && (forall a :: a in at && a in Addrs(insts) ==> AfterSome(at[a], cfg, at'[a]))
    && (!failed ==> forall i :: 0 <= i < |insts| ==> UpdatedOne(at, at', insts[i], cfg))
  }

  ghost predicate UpdatedOne(at: map<string, Varnish>, at': map<string, Varnish>, inst: Inst, cfg: string) {
    inst.known && inst.addr in at && inst.addr in at' && at'[inst.addr] == Synced(at[inst.addr], cfg)
  }

  const UNREADY := SetLabel(READINESS, NOT_AVAILABLE)

  ghost predicate MaybeUnreadied(v: Varnish, v': Varnish) {
    v' == v || (Permitted(v, UNREADY) && v' == Apply(v, UNREADY))
  }

  ghost predicate UnreadiedAll(at: map<string, Varnish>, at': map<string, Varnish>, addrs: set<string>) {
    Changed(at, at', addrs) && forall a :: a in at && a in addrs ==> MaybeUnreadied(at[a], at'[a])
  }

  ghost predicate DiscardedSome(v: Varnish, v': Varnish) {
    exists gone :: Discardable(v, gone) && v' == Minus(v, gone)
  }

  ghost predicate CheckedAll(at: map<string, Varnish>, at': map<string, Varnish>, addrs: set<string>) {
    Changed(at, at', addrs) && forall a :: a in at && a in addrs ==> DiscardedSome(at[a], at'[a])
  }

  // ---- The operations ----

  type Renders = Spec -> bool

  // The instances of a Service are updated, if there is anything to update.
  ghost predicate SvcSynced(
    name: Naming, renders: Renders, svc: Svc, at: map<string, Varnish>, svc': Svc, at': map<string, Varnish>,
    failed: bool)
  {
    && svc' == svc.(cfgLoaded := svc'.cfgLoaded)
    && if svc.secrName == "" || svc.spec.None? || !renders(svc.spec.value.spec) then
         at' == at && !svc'.cfgLoaded && failed == (svc.secrName == "" || svc.spec.Some?)
       else
         UpdatedAll(at, at', svc.insts, name(svc.spec.value), failed) && svc'.cfgLoaded == !failed
  }

  ghost predicate Synced1(name: Naming, renders: Renders, s: State, key: string, s': State, failed: bool) {
    if key !in s.svcs then s' == s && failed
    else
      && key in s'.svcs && s'.svcs == s.svcs[key := s'.svcs[key]]
      && SvcSynced(name, renders, s.svcs[key], s.at, s'.svcs[key], s'.at, failed)
  }

  function SvcOrNew(s: State, key: string): Svc {
    if key in s.svcs then s.svcs[key] else NEW_SVC
  }

  function WithSpec(s: State, key: string, c: VclConfig): State {
    s.(svcs := s.svcs[key := SvcOrNew(s, key).(spec := Some(c), cfgLoaded := false)])
  }

  ghost predicate Updated(
    name: Naming, renders: Renders, s: State, key: string, c: VclConfig, s': State, failed: bool)
  {
    if SvcOrNew(s, key).insts == [] then s' == WithSpec(s, key, c) && failed
    else Synced1(name, renders, WithSpec(s, key, c), key, s', failed)
  }

  // Whatever happens at an instance, it is an error only if the instance is out
  // of reach or the connection is closed.
  ghost predicate NotReadied(s: State, key: string, s': State, failed: bool) {
    if key !in s.svcs then s' == s && failed
    else
      && s'.svcs == s.svcs[key := s.svcs[key].(spec := None)] && UnreadiedAll(s.at, s'.at, Addrs(s.svcs[key].insts))
      && (if failed then s.svcs[key].insts != [] else CanReach(s.at, s.svcs[key].insts))
  }

  // Their Secrets are known, and there is something at their addresses.
  ghost predicate CanReach(at: map<string, Varnish>, insts: seq<Inst>) {
    AllKnown(insts) && Addrs(insts) <= at.Keys
  }

  ghost predicate AllKnown(insts: seq<Inst>) {
    forall i :: 0 <= i < |insts| ==> insts[i].known
  }

  ghost function Dropped(s: State, key: string, addrs: set<string>): set<string> {
    Addrs(SvcOrNew(s, key).insts) - addrs
  }

  // The instances of a Service become those at the given addresses; the ones
  // that are dropped are set to not ready.
  ghost predicate Readdressed(s: State, key: string, addrs: set<string>, secrName: string, known: bool, t: State) {
    && key in t.svcs && t.svcs == s.svcs[key := SvcOrNew(s, key).(insts := t.svcs[key].insts, secrName := secrName)]
    && DistinctAddrs(t.svcs[key].insts) && Addrs(t.svcs[key].insts) == addrs
    && (forall i :: 0 <= i < |t.svcs[key].insts| ==> t.svcs[key].insts[i].known == known)
    && UnreadiedAll(s.at, t.at, Dropped(s, key, addrs))
  }

  // Dropping an instance fails only if the Secret is not known.
  ghost predicate AddedOrUpdated(
    name: Naming, renders: Renders, s: State, key: string, addrs: set<string>, secrName: string, known: bool,
    loadVCL: bool, s': State, failed: bool)
  {
    exists t, e ::
      && Readdressed(s, key, addrs, secrName, known, t) && LoadedIf(name, renders, t, key, loadVCL, s', e)
      && failed == (e || (!known && Dropped(s, key, addrs) != {}))
  }

  ghost predicate LoadedIf(
    name: Naming, renders: Renders, s: State, key: string, loadVCL: bool, s': State, failed: bool)
  {
    if loadVCL then Synced1(name, renders, s, key, s', failed) else s' == s && !failed
  }

  function WithoutService(s: State, key: string): State {
    s.(svcs := map k | k in s.svcs && k != key :: s.svcs[k])
  }

  // A Service is forgotten only if an instance could not be set to not ready,
  // for which not to know the Secret is the only reason.
  ghost predicate Deleted(s: State, key: string, s': State, failed: bool) {
    if key !in s.svcs then s' == s && !failed
    else
      && UnreadiedAll(s.at, s'.at, Addrs(s.svcs[key].insts)) && (failed <==> !AllKnown(s.svcs[key].insts))
      && s'.svcs == if failed then WithoutService(s, key).svcs else s.svcs
  }

  function Rekeyed(svc: Svc, secrName: string, known: bool): Svc {
    var insts := seq(|svc.insts|, i requires 0 <= i < |svc.insts| => svc.insts[i].(known := known));
    svc.(secrName := secrName, insts := insts)
  }

  // With no Secret and no Service there is nothing to do.
  ghost predicate Secreted(
    name: Naming, renders: Renders, s: State, key: string, secrName: string, known: bool, s': State, failed: bool)
  {
    if key !in s.svcs && !known then s' == s && !failed
    else
      var svc := Rekeyed(SvcOrNew(s, key), if known then secrName else "", known);
      Synced1(name, renders, s.(svcs := s.svcs[key := svc]), key, s', failed)
  }

  // Everything that is cold at an instance is discarded.
  ghost predicate CheckedFully(at: map<string, Varnish>, at': map<string, Varnish>, inst: Inst) {
    inst.addr in at && inst.addr in at' && at'[inst.addr] == Minus(at[inst.addr], ColdConfigs(at[inst.addr]))
  }

  // All is good only if every check and the update was.
  ghost predicate Monitored(name: Naming, renders: Renders, s: State, key: string, s': State, good: bool) {
    key in s.svcs && exists at, failed ::
      && CheckedAll(s.at, at, Addrs(s.svcs[key].insts)) && Synced1(name, renders, s.(at := at), key, s', failed)
      && (good ==> !failed && forall i :: 0 <= i < |s.svcs[key].insts| ==> CheckedFully(s.at, at, s.svcs[key].insts[i]))
  }

  // ---- The invariant is kept ----

  lemma AfterSomeIsSafe(v: Varnish, cfg: string, v': Varnish)
    requires Safe(v) && IsIng(cfg) && AfterSome(v, cfg, v')
    ensures Safe(v')
  {
    var k :| k <= 3 && v' == After(v, cfg, k);
    AfterIsSafe(v, cfg, k);
  }

  lemma UpdatedAllIsSafe(
      at: map<string, Varnish>, at': map<string, Varnish>, insts: seq<Inst>, cfg: string, failed: bool)
    requires AllSafe(at) && IsIng(cfg) && UpdatedAll(at, at', insts, cfg, failed)
    ensures AllSafe(at')
    ensures !failed ==> forall a :: a in Addrs(insts) ==> InSync(at', a, cfg)
  {
    forall a | a in at' ensures Safe(at'[a]) {
      if a in Addrs(insts) {
        AfterSomeIsSafe(at[a], cfg, at'[a]);
      }
    }
    if !failed {
      forall i | 0 <= i < |insts| ensures InSync(at', insts[i].addr, cfg) {
        assert UpdatedOne(at, at', insts[i], cfg);
        SyncedExactly(at[insts[i].addr], cfg);
      }
    }
  }

  lemma UnreadiedAllIsSafe(at: map<string, Varnish>, at': map<string, Varnish>, addrs: set<string>)
    requires AllSafe(at) && UnreadiedAll(at, at', addrs)
    ensures AllSafe(at')
  {
    forall a | a in at' ensures Safe(at'[a]) {
      if a in addrs {
        NotReadyExactly(at[a], at'[a], Timeout);
      }
    }
  }

  lemma CheckedAllIsSafe(at: map<string, Varnish>, at': map<string, Varnish>, addrs: set<string>)
    requires AllSafe(at) && CheckedAll(at, at', addrs)
    ensures AllSafe(at')
    ensures forall a, cfg :: InSync(at, a, cfg) ==> InSync(at', a, cfg)
  {
    forall a | a in at
      ensures Safe(at'[a]) && forall lbl, cfg :: Labelled(at[a], lbl, cfg) <==> Labelled(at'[a], lbl, cfg)
    {
      if a in addrs {
        var gone :| Discardable(at[a], gone) && at'[a] == Minus(at[a], gone);
        DiscardedIsSafe(at[a], gone);
      }
    }
  }

  // What happens at other addresses does not matter to a Service.
  lemma OthersStayInSync(
      name: Naming, at: map<string, Varnish>, at': map<string, Varnish>, addrs: set<string>, svc: Svc)
    requires Changed(at, at', addrs) && Addrs(svc.insts) !! addrs && SvcInSync(name, at, svc)
    ensures SvcInSync(name, at', svc)
  {
  }

  lemma StillApart(s: State, s': State)
    requires Apart(s) && s'.svcs.Keys <= s.svcs.Keys
    requires forall k :: k in s'.svcs ==> s'.svcs[k].insts == s.svcs[k].insts
    ensures Apart(s')
  {
  }

  lemma GoodAgain(name: Naming, s: State, but: set<string>, key: string, s': State)
    requires GoodBut(name, s, but + {key}) && key in s.svcs && key in s'.svcs && s'.svcs == s.svcs[key := s'.svcs[key]]
    requires s'.svcs[key].insts == s.svcs[key].insts &&
      (s'.svcs[key].cfgLoaded ==> SvcInSync(name, s'.at, s'.svcs[key]))
    requires Changed(s.at, s'.at, Addrs(s.svcs[key].insts)) && AllSafe(s'.at)
    ensures GoodBut(name, s', but - {key})
  {
    StillApart(s, s');
    forall k | k in s'.svcs && k !in but - {key} && k != key && s'.svcs[k].cfgLoaded
      ensures SvcInSync(name, s'.at, s'.svcs[k])
    {
      OthersStayInSync(name, s.at, s'.at, Addrs(s.svcs[key].insts), s.svcs[k]);
    }
  }

  // Updating a Service makes cfgLoaded true to its name again, whatever it
  // said before.
  lemma SyncedIsGood(
      name: Naming, renders: Renders, s: State, but: set<string>, key: string, s': State, failed: bool)
    requires GoodBut(name, s, but + {key}) && key in s.svcs && Synced1(name, renders, s, key, s', failed)
    ensures GoodBut(name, s', but - {key})
  {
    var svc, svc' := s.svcs[key], s'.svcs[key];
    assert svc' == svc.(cfgLoaded := svc'.cfgLoaded);
    if svc.secrName != "" && svc.spec.Some? && renders(svc.spec.value.spec) {
      UpdatedAllIsSafe(s.at, s'.at, svc.insts, name(svc.spec.value), failed);
    }
    GoodAgain(name, s, but, key, s');
  }

  lemma UpdateKeepsGood(
      name: Naming, renders: Renders, s: State, but: set<string>, key: string, c: VclConfig, s': State, failed: bool)
    requires GoodBut(name, s, but) && Updated(name, renders, s, key, c, s', failed)
    ensures GoodBut(name, s', but - {key})
  {
    var t := WithSpec(s, key, c);
    assert GoodBut(name, t, but + {key}) && GoodBut(name, t, but - {key});
    if SvcOrNew(s, key).insts != [] {
      SyncedIsGood(name, renders, t, but, key, s', failed);
    }
  }

  lemma NotReadyKeepsGood(name: Naming, s: State, but: set<string>, key: string, s': State, failed: bool)
    requires GoodBut(name, s, but) && NotReadied(s, key, s', failed)
    ensures GoodBut(name, s', but - {key})
  {
    if key in s.svcs {
      UnreadiedAllIsSafe(s.at, s'.at, Addrs(s.svcs[key].insts));
      GoodAgain(name, s, but, key, s');
    }
  }

  // No other Service has one of the addresses.
  ghost predicate Free(s: State, key: string, addrs: set<string>) {
    forall k :: k in s.svcs && k != key ==> Addrs(s.svcs[k].insts) !! addrs
  }

  lemma ReaddressedIsGoodBut(
      name: Naming, s: State, but: set<string>, key: string, addrs: set<string>, secrName: string, known: bool,
      t: State)
    requires GoodBut(name, s, but) && Free(s, key, addrs) && Readdressed(s, key, addrs, secrName, known, t)
    ensures GoodBut(name, t, but + {key})
  {
    var dropped := Addrs(SvcOrNew(s, key).insts) - addrs;
    UnreadiedAllIsSafe(s.at, t.at, dropped);
    forall k | k in t.svcs && k != key ensures Addrs(s.svcs[k].insts) !! dropped {
    }
    forall k | k in t.svcs && k !in but + {key} && t.svcs[k].cfgLoaded ensures SvcInSync(name, t.at, t.svcs[k]) {
      OthersStayInSync(name, s.at, t.at, dropped, s.svcs[k]);
    }
  }

  lemma AddOrUpdateKeepsGood(
      name: Naming, renders: Renders, s: State, but: set<string>, key: string, addrs: set<string>, secrName: string,
      known: bool, s': State, failed: bool)
    requires GoodBut(name, s, but) && Free(s, key, addrs) &&
      AddedOrUpdated(name, renders, s, key, addrs, secrName, known, true, s', failed)
    ensures GoodBut(name, s', but - {key})
  {
    var t, e :| Readdressed(s, key, addrs, secrName, known, t) && LoadedIf(name, renders, t, key, true, s', e);
    ReaddressedIsGoodBut(name, s, but, key, addrs, secrName, known, t);
    SyncedIsGood(name, renders, t, but, key, s', e);
  }

  lemma SecretKeepsGood(
      name: Naming, renders: Renders, s: State, but: set<string>, key: string, secrName: string, known: bool, s': State,
      failed: bool)
    requires GoodBut(name, s, but) && Secreted(name, renders, s, key, secrName, known, s', failed)
    ensures GoodBut(name, s', but - {key})
  {
    if key in s.svcs || known {
      var svc := Rekeyed(SvcOrNew(s, key), if known then secrName else "", known);
      assert Addrs(svc.insts) == Addrs(SvcOrNew(s, key).insts) by {
        assert forall i :: 0 <= i < |svc.insts| ==> svc.insts[i].addr == SvcOrNew(s, key).insts[i].addr;
      }
      SyncedIsGood(name, renders, s.(svcs := s.svcs[key := svc]), but, key, s', failed);
    }
  }

  lemma MonitorKeepsGood(
      name: Naming, renders: Renders, s: State, but: set<string>, key: string, s': State, good: bool)
    requires GoodBut(name, s, but) && Monitored(name, renders, s, key, s', good)
    ensures GoodBut(name, s', but - {key})
  {
    var at, failed :|
      CheckedAll(s.at, at, Addrs(s.svcs[key].insts)) && Synced1(name, renders, s.(at := at), key, s', failed);
    CheckedAllIsSafe(s.at, at, Addrs(s.svcs[key].insts));
    SyncedIsGood(name, renders, s.(at := at), but, key, s', failed);
  }

  // ---- What instances do of themselves ----

  ghost predicate RetemperedAll(s: State, s': State) {
    s'.svcs == s.svcs && s'.at.Keys == s.at.Keys && forall a :: a in s.at ==> Retempered(s.at[a], s'.at[a])
  }

  function Restarted(s: State, addr: string): State
    requires addr in s.at
  {
    s.(at := s.at[addr := START])
  }

  // The Services with an instance at an address.
  ghost function Owners(s: State, addr: string): set<string> {
    set k | k in s.svcs && addr in Addrs(s.svcs[k].insts)
  }

  lemma RetemperedIsGood(name: Naming, s: State, but: set<string>, s': State)
    requires GoodBut(name, s, but) && RetemperedAll(s, s')
    ensures GoodBut(name, s', but)
  {
    forall a | a in s'.at
      ensures Safe(s'.at[a]) && forall lbl, cfg :: Labelled(s.at[a], lbl, cfg) <==> Labelled(s'.at[a], lbl, cfg)
    {
      assert Safe(s.at[a]);
    }
    forall k | k in s'.svcs && k !in but && s'.svcs[k].cfgLoaded ensures SvcInSync(name, s'.at, s'.svcs[k]) {
      assert SvcInSync(name, s.at, s.svcs[k]);
    }
  }

  // A restart concerns the Services that have the instance.
  lemma RestartedIsGood(name: Naming, s: State, but: set<string>, addr: string)
    requires GoodBut(name, s, but) && addr in s.at
    ensures GoodBut(name, Restarted(s, addr), but + Owners(s, addr))
  {
    StartIsSafe();
  }

  // ---- Where it is lost ----

  // An instance that restarts does not have the configuration any more, and
  // its Service is not told.
  lemma RestartLosesTruth(name: Naming, s: State, addr: string)
    requires Good(name, s) && addr in s.at
    ensures Good(name, Restarted(s, addr)) <==>
      forall k :: k in Owners(s, addr) ==> !(s.svcs[k].cfgLoaded && s.svcs[k].spec.Some?)
  {
    var s' := Restarted(s, addr);
    RestartedIsGood(name, s, {}, addr);
    forall k | k in Owners(s, addr) && s.svcs[k].cfgLoaded && s.svcs[k].spec.Some?
      ensures !SvcInSync(name, s'.at, s'.svcs[k])
    {
      var cfg := name(s.svcs[k].spec.value);
      NamesApart(cfg);
      assert !Loaded(s'.at[addr], cfg);
    }
  }

  // Without loading the configuration, the invariant is kept exactly if every
  // new instance happens to have it.
  lemma WithoutLoading(name: Naming, s: State, key: string, addrs: set<string>, secrName: string, known: bool, t: State)
    requires Good(name, s) && Free(s, key, addrs) && Readdressed(s, key, addrs, secrName, known, t)
    ensures Good(name, t) <==>
      (key in s.svcs && s.svcs[key].cfgLoaded && s.svcs[key].spec.Some? ==>
        forall a :: a in addrs - Addrs(s.svcs[key].insts) ==> InSync(s.at, a, name(s.svcs[key].spec.value)))
  {
    ReaddressedIsGoodBut(name, s, {}, key, addrs, secrName, known, t);
    if key in s.svcs && s.svcs[key].cfgLoaded && s.svcs[key].spec.Some? {
      var cfg := name(s.svcs[key].spec.value);
      var kept := addrs * Addrs(s.svcs[key].insts);
      assert SvcInSync(name, s.at, s.svcs[key]);
      assert forall a :: a in addrs ==> (InSync(s.at, a, cfg) <==> InSync(t.at, a, cfg));
      assert Good(name, t) <==> SvcInSync(name, t.at, t.svcs[key]);
    }
  }

  // A Service that is deleted without error stays, and goes on saying that its
  // configuration is loaded.
  lemma DeletedOutcome(name: Naming, s: State, key: string, s': State)
    requires Good(name, s) && key in s.svcs && Deleted(s, key, s', false)
    ensures Good(name, s') <==>
      (s.svcs[key].cfgLoaded && s.svcs[key].spec.Some? ==> forall a :: a in Addrs(s.svcs[key].insts) ==>
        s'.at[a] == s.at[a])
  {
    var svc := s.svcs[key];
    UnreadiedAllIsSafe(s.at, s'.at, Addrs(svc.insts));
    StillApart(s, s');
    forall k | k in s.svcs && k != key && s.svcs[k].cfgLoaded ensures SvcInSync(name, s'.at, s'.svcs[k]) {
      OthersStayInSync(name, s.at, s'.at, Addrs(svc.insts), s.svcs[k]);
    }
    if svc.cfgLoaded && svc.spec.Some? {
      var cfg := name(svc.spec.value);
      assert SvcInSync(name, s.at, svc);
      forall a | a in Addrs(svc.insts) ensures InSync(s'.at, a, cfg) <==> s'.at[a] == s.at[a] {
        assert InSync(s.at, a, cfg);
      }
      assert Good(name, s') <==> SvcInSync(name, s'.at, svc);
    }
  }

  // A Service that has its configuration loaded somewhere, and can be deleted
  // without error.
  ghost predicate LosesTruth(svc: Svc) {
    AllKnown(svc.insts) && svc.insts != [] && svc.cfgLoaded && svc.spec.Some?
  }

  // It is enough that one of its instances is set to not ready.
  lemma DeletedUntruthful(name: Naming, s: State, key: string) returns (s': State)
    requires Good(name, s) && key in s.svcs && LosesTruth(s.svcs[key])
    ensures Deleted(s, key, s', false) && !Good(name, s')
  {
    var svc := s.svcs[key];
    var a := svc.insts[0].addr;
    assert a in Addrs(svc.insts);
    assert SvcInSync(name, s.at, svc) && InSync(s.at, a, name(svc.spec.value));
    s' := s.(at := s.at[a := Apply(s.at[a], UNREADY)]);
    assert Safe(s.at[a]);
    assert s'.at[a] != s.at[a] by {
      assert s'.at[a][READINESS] != s.at[a][READINESS];
    }
    DeletedOutcome(name, s, key, s');
  }

  // So every deletion without error keeps what Services say true exactly if
  // there is no such Service.
  lemma DeletedWithoutError(name: Naming, s: State, key: string)
    requires Good(name, s) && key in s.svcs
    ensures (forall s' :: Deleted(s, key, s', false) ==> Good(name, s')) <==> !LosesTruth(s.svcs[key])
  {
    if LosesTruth(s.svcs[key]) {
      var s' := DeletedUntruthful(name, s, key);
    } else {
      forall s' | Deleted(s, key, s', false) ensures Good(name, s') {
        DeletedOutcome(name, s, key, s');
      }
    }
  }

  lemma DeletedWithError(name: Naming, s: State, key: string, s': State)
    requires Good(name, s) && key in s.svcs && Deleted(s, key, s', true)
    ensures Good(name, s')
  {
    UnreadiedAllIsSafe(s.at, s'.at, Addrs(s.svcs[key].insts));
    forall k | k in s'.svcs && s'.svcs[k].cfgLoaded ensures SvcInSync(name, s'.at, s'.svcs[k]) {
      OthersStayInSync(name, s.at, s'.at, Addrs(s.svcs[key].insts), s.svcs[k]);
    }
  }

  // An instance that still says it is ready.
  ghost predicate StillReady(at: map<string, Varnish>, insts: seq<Inst>) {
    exists i :: 0 <= i < |insts| && ReadyOne(at, insts[i])
  }

  ghost predicate ReadyOne(at: map<string, Varnish>, inst: Inst) {
    inst.addr in at && Labelled(at[inst.addr], READINESS, READY)
  }

  // A Service can be set to not ready without error and have an instance that
  // is still ready, exactly if there is one and all of them are in reach.
  lemma NotReadyUnnoticed(s: State, key: string)
    requires key in s.svcs
    ensures var insts := s.svcs[key].insts;
      (exists s' :: NotReadied(s, key, s', false) && StillReady(s'.at, insts)) <==>
        CanReach(s.at, insts) && StillReady(s.at, insts)
  {
    var insts := s.svcs[key].insts;
    if CanReach(s.at, insts) && StillReady(s.at, insts) {
      var s' := s.(svcs := s.svcs[key := s.svcs[key].(spec := None)]);
      assert NotReadied(s, key, s', false) && StillReady(s'.at, insts);
    }
    if s' :| NotReadied(s, key, s', false) && StillReady(s'.at, insts) {
      var i :| 0 <= i < |insts| && ReadyOne(s'.at, insts[i]);
      assert insts[i].addr in Addrs(insts);
      assert MaybeUnreadied(s.at[insts[i].addr], s'.at[insts[i].addr]);
      assert ReadyOne(s.at, insts[i]);
    }
  }

  // Asking whether a configuration is loaded dereferences nil, if the Service
  // says that one is loaded but has none. This is what becomes of a Service
  // that was updated and then set to not ready.
  predicate AsksForNil(s: State, key: string) {
    key in s.svcs && s.svcs[key].cfgLoaded && s.svcs[key].spec.None?
  }

  lemma NotReadyAsksForNil(s: State, key: string, s': State, failed: bool, other: string)
    requires NotReadied(s, key, s', failed)
    ensures AsksForNil(s', key) <==> key in s.svcs && s.svcs[key].cfgLoaded
    ensures other != key ==> (AsksForNil(s', other) <==> AsksForNil(s, other))
  {
  }

  lemma UpdatedThenNotReady(
      name: Naming, renders: Renders, s: State, key: string, c: VclConfig, s1: State, s2: State, failed: bool)
    requires Updated(name, renders, s, key, c, s1, false) && NotReadied(s1, key, s2, failed)
    ensures AsksForNil(s2, key) && !AsksForNil(s1, key)
  {
  }

  // Turning a whitelist into a blacklist, or back, gives a different
  // configuration, for which an instance that has the old one is sent nothing.
  lemma WhitelistChangeLoadsNothing(sha: Sha, fb: FloatBits, v: Varnish, c: VclConfig, i: nat)
    requires Sound(v) && i < |c.spec.acls| && ConcordantSpec(c.spec)
    ensures var d := c.(spec := c.spec.(acls := c.spec.acls[i := Toggled(c.spec.acls[i])]));
      && Canon(c.spec) != Canon(d.spec)
      && forall k :: Commands(Synced(v, ConfigNames(sha, fb)(c)), ConfigNames(sha, fb)(d), k) == []
  {
    WhitelistNotInName(sha, fb, c.spec, i);
    SyncedExactly(v, ConfigNames(sha, fb)(c));
  }

  // ---- Runs ----

  // The addresses to have instances at come as a list. The last two are what
  // instances do of themselves: configurations become cold or warm, and an
  // instance goes back to where it started.
  datatype Op =
    | Update(key: string, c: VclConfig)
    | SetNotReady(key: string)
    | AddOrUpdate(key: string, listed: seq<string>, secrName: string, known: bool, loadVCL: bool)
    | ForSecret(key: string, secrName: string, known: bool)
    | MonitorRound(key: string)
    | Retemper
    | Restart(addr: string)

  function Keys(listed: seq<string>): set<string> {
    set a | a in listed
  }

  ghost predicate Happens(name: Naming, renders: Renders, s: State, op: Op, s': State) {
    match op
    case Update(key, c) => exists failed :: Updated(name, renders, s, key, c, s', failed)
    case SetNotReady(key) => exists failed :: NotReadied(s, key, s', failed)
    case AddOrUpdate(key, listed, secrName, known, loadVCL) =>
      exists failed :: AddedOrUpdated(name, renders, s, key, Keys(listed), secrName, known, loadVCL, s', failed)
    case ForSecret(key, secrName, known) =>
      exists failed :: Secreted(name, renders, s, key, secrName, known, s', failed)
    case MonitorRound(key) => exists good :: Monitored(name, renders, s, key, s', good)
    case Retemper => RetemperedAll(s, s')
    case Restart(addr) => addr in s.at && s' == Restarted(s, addr)
  }

  ghost predicate IsRunOf(name: Naming, renders: Renders, states: seq<State>, ops: seq<Op>) {
    && |states| == |ops| + 1
    && states[0].svcs == map[] && (forall a :: a in states[0].at ==> states[0].at[a] == START)
    && forall i :: 0 <= i < |ops| ==> Happens(name, renders, states[i], ops[i], states[i + 1])
  }

  // New instances get the configuration, and are those of no other Service.
  ghost predicate Careful(s: State, op: Op) {
    op.AddOrUpdate? ==> op.loadVCL && Free(s, op.key, Keys(op.listed))
  }

  ghost predicate CarefulRun(name: Naming, renders: Renders, states: seq<State>, ops: seq<Op>) {
    IsRunOf(name, renders, states, ops) && forall j :: 0 <= j < |ops| ==> Careful(states[j], ops[j])
  }

  predicate OfService(op: Op) {
    !op.Retemper? && !op.Restart?
  }

  // The Services that have an instance that restarted since they were last
  // looked after.
  ghost function NowStale(s: State, op: Op, stale: set<string>): set<string> {
    match op
    case Retemper => stale
    case Restart(addr) => stale + Owners(s, addr)
    case _ => stale - {op.key}
  }

  ghost function Stale(states: seq<State>, ops: seq<Op>, i: nat): set<string>
    requires i <= |ops| && |states| == |ops| + 1
  {
    if i == 0 then {} else NowStale(states[i - 1], ops[i - 1], Stale(states, ops, i - 1))
  }

  ghost predicate Hit(states: seq<State>, ops: seq<Op>, j: nat, k: string)
    requires j < |ops| && |states| == |ops| + 1
  {
    ops[j].Restart? && k in Owners(states[j], ops[j].addr)
  }

  ghost predicate Untouched(ops: seq<Op>, j: nat, i: nat, k: string)
    requires i <= |ops|
  {
    forall l :: j < l < i && OfService(ops[l]) ==> ops[l].key != k
  }

  lemma {:induction false} StaleExactly(states: seq<State>, ops: seq<Op>, i: nat, k: string)
    requires i <= |ops| && |states| == |ops| + 1
    ensures k in Stale(states, ops, i) <==> exists j :: 0 <= j < i && Hit(states, ops, j, k) && Untouched(ops, j, i, k)
  {
    if i > 0 {
      StaleExactly(states, ops, i - 1, k);
      if k in Stale(states, ops, i) {
        if Hit(states, ops, i - 1, k) {
          assert Untouched(ops, i - 1, i, k);
        } else {
          var j :| 0 <= j < i - 1 && Hit(states, ops, j, k) && Untouched(ops, j, i - 1, k);
          assert Untouched(ops, j, i, k);
        }
      }
      if j :| 0 <= j < i && Hit(states, ops, j, k) && Untouched(ops, j, i, k) {
        assert Untouched(ops, j, i - 1, k);
      }
    }
  }

  lemma HappensKeepsGood(name: Naming, renders: Renders, s: State, but: set<string>, op: Op, s': State)
    requires GoodBut(name, s, but) && Happens(name, renders, s, op, s') && Careful(s, op)
    ensures GoodBut(name, s', NowStale(s, op, but))
  {
    match op {
      case Update(key, c) =>
        var failed :| Updated(name, renders, s, key, c, s', failed);
        UpdateKeepsGood(name, renders, s, but, key, c, s', failed);
      case SetNotReady(key) =>
        var failed :| NotReadied(s, key, s', failed);
        NotReadyKeepsGood(name, s, but, key, s', failed);
      case AddOrUpdate(key, listed, secrName, known, loadVCL) =>
        var failed :| AddedOrUpdated(name, renders, s, key, Keys(listed), secrName, known, loadVCL, s', failed);
        AddOrUpdateKeepsGood(name, renders, s, but, key, Keys(listed), secrName, known, s', failed);
      case ForSecret(key, secrName, known) =>
        var failed :| Secreted(name, renders, s, key, secrName, known, s', failed);
        SecretKeepsGood(name, renders, s, but, key, secrName, known, s', failed);
      case MonitorRound(key) =>
        var good :| Monitored(name, renders, s, key, s', good);
        MonitorKeepsGood(name, renders, s, but, key, s', good);
      case Retemper => RetemperedIsGood(name, s, but, s');
      case Restart(addr) => RestartedIsGood(name, s, but, addr);
    }
  }

  // In every state of every careful run, a Service whose configuration is said
  // to be loaded has all of its instances serving it, unless one of them
  // restarted since the Service was last looked after.
  lemma {:induction false} AlwaysTruthful(name: Naming, renders: Renders, states: seq<State>, ops: seq<Op>, i: nat)
    requires CarefulRun(name, renders, states, ops) && i < |states|
    ensures GoodBut(name, states[i], Stale(states, ops, i))
  {
    if i == 0 {
      StartIsSafe();
    } else {
      AlwaysTruthful(name, renders, states, ops, i - 1);
      HappensKeepsGood(name, renders, states[i - 1], Stale(states, ops, i - 1), ops[i - 1], states[i]);
    }
  }

  // ---- Two runs ----

  // A Service with one instance that has just started.
  function Alone(key: string, addr: string, secrName: string): State {
    State(map[key := Svc([Inst(addr, true)], None, secrName, false)], map[addr := START])
  }

  // The one instance of a Service gets a configuration.
  function UpdatedAlone(name: Naming, s: State, key: string, addr: string, c: VclConfig): State
    requires key in s.svcs && addr in s.at
  {
    State(
      s.svcs[key := s.svcs[key].(spec := Some(c), cfgLoaded := true)],
      s.at[addr := Synced(s.at[addr], name(c))])
  }

  ghost predicate IsAlone(s: State, key: string, addr: string) {
    && key in s.svcs && s.svcs[key].insts == [Inst(addr, true)] && addr in s.at && s.svcs[key].secrName != ""
    && Addrs(s.svcs[key].insts) == {addr}
  }

  lemma AloneHappens(name: Naming, renders: Renders, key: string, addr: string, secrName: string)
    requires secrName != ""
    ensures var s, op := State(map[], map[addr := START]), AddOrUpdate(key, [addr], secrName, true, true);
      && Happens(name, renders, s, op, Alone(key, addr, secrName)) && Careful(s, op)
      && IsAlone(Alone(key, addr, secrName), key, addr)
  {
    var s, t := State(map[], map[addr := START]), Alone(key, addr, secrName);
    assert Keys([addr]) == {addr};
    assert t.svcs[key].insts[0].addr == addr;
    assert Addrs(t.svcs[key].insts) == {addr};
    assert Readdressed(s, key, {addr}, secrName, true, t);
    assert LoadedIf(name, renders, t, key, true, t, false);
    assert AddedOrUpdated(name, renders, s, key, {addr}, secrName, true, true, t, false);
  }

  lemma SyncedAlone(name: Naming, renders: Renders, s: State, key: string, addr: string)
    requires IsAlone(s, key, addr) && s.svcs[key].spec.Some? && renders(s.svcs[key].spec.value.spec)
    ensures Synced1(name, renders, s, key, UpdatedAlone(name, s, key, addr, s.svcs[key].spec.value), false)
  {
    var cfg := name(s.svcs[key].spec.value);
    var at := s.at[addr := Synced(s.at[addr], cfg)];
    assert AfterSome(s.at[addr], cfg, at[addr]);
    assert UpdatedAll(s.at, at, s.svcs[key].insts, cfg, false);
  }

  lemma UpdateHappens(name: Naming, renders: Renders, s: State, key: string, addr: string, c: VclConfig)
    requires IsAlone(s, key, addr) && renders(c.spec)
    ensures var t := UpdatedAlone(name, s, key, addr, c);
      Updated(name, renders, s, key, c, t, false) && IsAlone(t, key, addr)
  {
    var t := WithSpec(s, key, c);
    assert UpdatedAlone(name, t, key, addr, c) == UpdatedAlone(name, s, key, addr, c);
    SyncedAlone(name, renders, t, key, addr);
  }

  lemma OneMore(name: Naming, renders: Renders, states: seq<State>, ops: seq<Op>, op: Op, s': State)
    requires CarefulRun(name, renders, states, ops)
    requires Happens(name, renders, states[|ops|], op, s') && Careful(states[|ops|], op)
    ensures CarefulRun(name, renders, states + [s'], ops + [op])
  {
  }

  // A Service gets an instance, and a configuration.
  lemma UpdateRun(name: Naming, renders: Renders, key: string, addr: string, secrName: string, c: VclConfig)
    returns (states: seq<State>, ops: seq<Op>)
    requires secrName != "" && renders(c.spec)
    ensures CarefulRun(name, renders, states, ops)
    ensures ops == [AddOrUpdate(key, [addr], secrName, true, true), Update(key, c)]
    ensures Updated(name, renders, states[1], key, c, states[2], false)
    ensures states[2] == UpdatedAlone(name, Alone(key, addr, secrName), key, addr, c) && IsAlone(states[2], key, addr)
  {
    var s0, s1 := State(map[], map[addr := START]), Alone(key, addr, secrName);
    AloneHappens(name, renders, key, addr, secrName);
    var s2 := UpdatedAlone(name, s1, key, addr, c);
    UpdateHappens(name, renders, s1, key, addr, c);
    OneMore(name, renders, [s0], [], AddOrUpdate(key, [addr], secrName, true, true), s1);
    assert [s0] + [s1] == [s0, s1];
    OneMore(name, renders, [s0, s1], [AddOrUpdate(key, [addr], secrName, true, true)], Update(key, c), s2);
    assert [s0, s1] + [s2] == [s0, s1, s2];
    states := [s0, s1, s2];
    ops := [AddOrUpdate(key, [addr], secrName, true, true), Update(key, c)];
  }

  lemma NotReadyHappens(s: State, key: string, addr: string) returns (s': State)
    requires IsAlone(s, key, addr) && Permitted(s.at[addr], UNREADY)
    ensures NotReadied(s, key, s', false)
  {
    s' := State(s.svcs[key := s.svcs[key].(spec := None)], s.at[addr := Apply(s.at[addr], UNREADY)]);
    assert MaybeUnreadied(s.at[addr], s'.at[addr]);
  }

  // Any Service with one instance that is updated and set to not ready, with
  // nothing going wrong, ends where asking for its configuration is asking for
  // nil.
  lemma NilRun(name: Naming, renders: Renders, key: string, addr: string, secrName: string, c: VclConfig)
    returns (states: seq<State>, ops: seq<Op>)
    requires secrName != "" && renders(c.spec)
    ensures CarefulRun(name, renders, states, ops)
    ensures ops == [AddOrUpdate(key, [addr], secrName, true, true), Update(key, c), SetNotReady(key)]
    ensures Updated(name, renders, states[1], key, c, states[2], false) && NotReadied(states[2], key, states[3], false)
    ensures !AsksForNil(states[2], key) && AsksForNil(states[3], key)
  {
    states, ops := UpdateRun(name, renders, key, addr, secrName, c);
    NamesApart(name(c));
    var s' := NotReadyHappens(states[2], key, addr);
    OneMore(name, renders, states, ops, SetNotReady(key), s');
    states, ops := states + [s'], ops + [SetNotReady(key)];
  }

  // A configuration that was replaced and became cold is discarded by the next
  // round of the monitor.
  lemma MonitorDiscardsRun(
      name: Naming, renders: Renders, key: string, addr: string, secrName: string, c: VclConfig, d: VclConfig)
    returns (states: seq<State>, ops: seq<Op>)
    requires secrName != "" && renders(c.spec) && renders(d.spec) && name(c) != name(d)
    ensures CarefulRun(name, renders, states, ops)
    ensures ops ==
      [AddOrUpdate(key, [addr], secrName, true, true), Update(key, c), Update(key, d), Op.Retemper, MonitorRound(key)]
    ensures addr in states[4].at && ColdConfigs(states[4].at[addr]) == {name(c)}
    ensures addr in states[5].at && states[5].at[addr] == Minus(states[4].at[addr], {name(c)})
    ensures InSync(states[5].at, addr, name(d))
  {
    states, ops := UpdateRun(name, renders, key, addr, secrName, c);
    var s3 := UpdatedAlone(name, states[2], key, addr, d);
    UpdateHappens(name, renders, states[2], key, addr, d);
    OneMore(name, renders, states, ops, Update(key, d), s3);
    states, ops := states + [s3], ops + [Update(key, d)];
    var v, v' := ReplacedIsDiscarded(name(c), name(d));
    assert s3.at[addr] == Synced(Synced(START, name(c)), name(d));
    states, ops := DiscardingRun(name, renders, states, ops, key, addr, v, name(c));
  }

  // One more configuration becomes cold, and the monitor discards it.
  lemma DiscardingRun(
      name: Naming, renders: Renders, before: seq<State>, done: seq<Op>, key: string, addr: string, v: Varnish,
      cfg: string)
    returns (states: seq<State>, ops: seq<Op>)
    requires CarefulRun(name, renders, before, done)
    requires var s := before[|done|];
      && IsAlone(s, key, addr) && s.svcs[key].spec.Some? && s.svcs[key].cfgLoaded
      && renders(s.svcs[key].spec.value.spec) && Retempered(s.at[addr], v) && Discardable(v, {cfg})
      && Synced(Minus(v, {cfg}), name(s.svcs[key].spec.value)) == Minus(v, {cfg})
    ensures CarefulRun(name, renders, states, ops) && ops == done + [Op.Retemper, MonitorRound(key)]
    ensures var s := before[|done|];
      states == before + [s.(at := s.at[addr := v]), s.(at := s.at[addr := Minus(v, {cfg})])]
  {
    var s := before[|done|];
    var cold := s.(at := s.at[addr := v]);
    assert RetemperedAll(s, cold);
    OneMore(name, renders, before, done, Op.Retemper, cold);
    states, ops := before + [cold], done + [Op.Retemper];
    var after := cold.(at := cold.at[addr := Minus(v, {cfg})]);
    RoundHappens(name, renders, cold, key, addr, {cfg});
    OneMore(name, renders, states, ops, MonitorRound(key), after);
    assert after == s.(at := s.at[addr := Minus(v, {cfg})]);
    assert before + [cold] + [after] == before + [cold, after];
    assert done + [Op.Retemper] + [MonitorRound(key)] == done + [Op.Retemper, MonitorRound(key)];
    states, ops := states + [after], ops + [MonitorRound(key)];
  }

  lemma ReplacedIsDiscarded(cfg: string, other: string) returns (v: Varnish, v': Varnish)
    requires IsIng(cfg) && IsIng(other) && cfg != other
    ensures Retempered(Synced(Synced(START, cfg), other), v) && ColdConfigs(v) == {cfg}
    ensures Discardable(v, {cfg}) && v' == Minus(v, {cfg}) && Synced(v', other) == v'
    ensures Loaded(v', other) && Labelled(v', REGULAR, other) && Labelled(v', READINESS, READY)
  {
    NamesApart(cfg);
    NamesApart(other);
    v := Synced(Synced(START, cfg), other)[cfg := Config(true)];
    v' := Minus(v, {cfg});
  }

  lemma RoundHappens(name: Naming, renders: Renders, s: State, key: string, addr: string, gone: set<string>)
    requires IsAlone(s, key, addr) && s.svcs[key].spec.Some? && s.svcs[key].cfgLoaded
    requires renders(s.svcs[key].spec.value.spec)
    requires Discardable(s.at[addr], gone)
    requires var v := Minus(s.at[addr], gone); Synced(v, name(s.svcs[key].spec.value)) == v
    ensures Happens(name, renders, s, MonitorRound(key), s.(at := s.at[addr := Minus(s.at[addr], gone)]))
  {
    var at := s.at[addr := Minus(s.at[addr], gone)];
    var t := s.(at := at);
    assert DiscardedSome(s.at[addr], at[addr]);
    assert CheckedAll(s.at, at, {addr});
    SyncedAlone(name, renders, t, key, addr);
    assert UpdatedAlone(name, t, key, addr, s.svcs[key].spec.value) == t;
    assert Monitored(name, renders, s, key, t, false);
  }

  // ---- The number of instances ----

  ghost function SomeKey(svcs: map<string, Svc>): (k: string)
    requires svcs != map[]
    ensures k in svcs
  {
    var k :| k in svcs;
    k
  }

  // How many instances there are.
  ghost function Total(svcs: map<string, Svc>): nat {
    if svcs == map[] then 0
    else
      var k := SomeKey(svcs);
      |svcs[k].insts| + Total(svcs - {k})
  }

  lemma {:induction false} TotalWithout(svcs: map<string, Svc>, k: string)
    requires k in svcs
    ensures Total(svcs) == |svcs[k].insts| + Total(svcs - {k})
    decreases |svcs|
  {
    var j := SomeKey(svcs);
    if j != k {
      TotalWithout(svcs - {j}, k);
      TotalWithout(svcs - {k}, j);
      assert svcs - {j} - {k} == svcs - {k} - {j};
    }
  }

  lemma TotalWith(svcs: map<string, Svc>, k: string, svc: Svc)
    ensures Total(svcs[k := svc]) == Total(svcs) + |svc.insts| - if k in svcs then |svcs[k].insts| else 0
  {
    TotalWithout(svcs[k := svc], k);
    if k in svcs {
      TotalWithout(svcs, k);
      assert svcs[k := svc] - {k} == svcs - {k};
    } else {
      assert svcs[k := svc] - {k} == svcs;
    }
  }

  // By how much the number that is kept changes. An instance that cannot be
  // set to not ready goes on being counted, and so does what is twice in the
  // list for a new Service.
  function GaugeChange(was: set<string>, addrs: set<string>, known: bool): int {
    |addrs - was| - if known then |was - addrs| else 0
  }

  ghost function GaugeStep(s: State, key: string, listed: seq<string>, known: bool): int {
    if key in s.svcs then GaugeChange(Addrs(s.svcs[key].insts), Keys(listed), known) else |listed|
  }

  // The number that is kept, and how many of it are failed removals and
  // repeated addresses.
  datatype Tally = Tally(gauge: int, failedRemovals: int, repeated: int)

  ghost function Counted(t: Tally, s: State, op: Op): Tally {
    match op
    case AddOrUpdate(key, listed, _, known, _) =>
      Tally(
        t.gauge + GaugeStep(s, key, listed, known),
        t.failedRemovals + if known then 0 else |Dropped(s, key, Keys(listed))|,
        t.repeated + if key in s.svcs then 0 else |listed| - |Keys(listed)|)
    case _ => t
  }

  ghost function TallyAt(states: seq<State>, ops: seq<Op>, i: nat): Tally
    requires i <= |ops| && |states| == |ops| + 1
  {
    if i == 0 then Tally(0, 0, 0) else Counted(TallyAt(states, ops, i - 1), states[i - 1], ops[i - 1])
  }

  ghost predicate Balanced(t: Tally, s: State) {
    t.gauge == Total(s.svcs) + t.failedRemovals + t.repeated
  }

  ghost predicate AllDistinct(s: State) {
    forall k :: k in s.svcs ==> DistinctAddrs(s.svcs[k].insts)
  }

  lemma {:induction false} DistinctCount(insts: seq<Inst>)
    requires DistinctAddrs(insts)
    ensures |Addrs(insts)| == |insts|
  {
    if insts != [] {
      var front, last := insts[..|insts| - 1], insts[|insts| - 1];
      DistinctCount(front);
      LastAddr(insts);
    }
  }

  lemma LastAddr(insts: seq<Inst>)
    requires DistinctAddrs(insts) && insts != []
    ensures var front, last := insts[..|insts| - 1], insts[|insts| - 1];
      Addrs(insts) == Addrs(front) + {last.addr} && last.addr !in Addrs(front)
  {
    var n := |insts| - 1;
    forall a | a in Addrs(insts) ensures a in Addrs(insts[..n]) || a == insts[n].addr {
      var i :| 0 <= i < |insts| && insts[i].addr == a;
      assert i < n ==> insts[..n][i].addr == a;
    }
    forall a | a in Addrs(insts[..n]) ensures a in Addrs(insts) {
      var i :| 0 <= i < n && insts[..n][i].addr == a;
      assert insts[i].addr == a;
    }
    assert insts[n].addr in Addrs(insts);
  }

  // One Service was replaced, and has as many instances as before.
  lemma SameTotal(s: State, key: string, svc: Svc)
    requires |svc.insts| == |SvcOrNew(s, key).insts|
    ensures Total(s.svcs[key := svc]) == Total(s.svcs)
  {
    TotalWith(s.svcs, key, svc);
  }

  lemma SyncedTotal(name: Naming, renders: Renders, s: State, key: string, s': State, failed: bool)
    requires Synced1(name, renders, s, key, s', failed) && AllDistinct(s)
    ensures Total(s'.svcs) == Total(s.svcs) && AllDistinct(s')
  {
    if key in s.svcs {
      SameTotal(s, key, s'.svcs[key]);
    }
  }

  lemma UpdatedTotal(name: Naming, renders: Renders, s: State, key: string, c: VclConfig, s': State, failed: bool)
    requires Updated(name, renders, s, key, c, s', failed) && AllDistinct(s)
    ensures Total(s'.svcs) == Total(s.svcs) && AllDistinct(s')
  {
    var t := WithSpec(s, key, c);
    SameTotal(s, key, t.svcs[key]);
    if SvcOrNew(s, key).insts != [] {
      SyncedTotal(name, renders, t, key, s', failed);
    }
  }

  lemma SecretedTotal(
      name: Naming, renders: Renders, s: State, key: string, secrName: string, known: bool, s': State, failed: bool)
    requires Secreted(name, renders, s, key, secrName, known, s', failed) && AllDistinct(s)
    ensures Total(s'.svcs) == Total(s.svcs) && AllDistinct(s')
  {
    if key in s.svcs || known {
      var svc := Rekeyed(SvcOrNew(s, key), if known then secrName else "", known);
      SameTotal(s, key, svc);
      SyncedTotal(name, renders, s.(svcs := s.svcs[key := svc]), key, s', failed);
    }
  }

  lemma GaugeCountsFailedRemovals(was: set<string>, addrs: set<string>, known: bool)
    ensures GaugeChange(was, addrs, known) == |addrs| - |was| + if known then 0 else |was - addrs|
  {
    assert |addrs| == |addrs - was| + |addrs * was| by {
      assert addrs == (addrs - was) + addrs * was;
    }
    assert |was| == |was - addrs| + |addrs * was| by {
      assert was == (was - addrs) + addrs * was;
    }
  }

  lemma AddedTotal(
      name: Naming, renders: Renders, s: State, t: Tally, key: string, listed: seq<string>, secrName: string,
      known: bool, loadVCL: bool, s': State, failed: bool)
    requires AddedOrUpdated(name, renders, s, key, Keys(listed), secrName, known, loadVCL, s', failed)
    requires AllDistinct(s) && Balanced(t, s)
    ensures AllDistinct(s') && Balanced(Counted(t, s, AddOrUpdate(key, listed, secrName, known, loadVCL)), s')
  {
    var u, e :| Readdressed(s, key, Keys(listed), secrName, known, u) &&
      LoadedIf(name, renders, u, key, loadVCL, s', e);
    var svc := u.svcs[key];
    TotalWith(s.svcs, key, svc);
    assert u.svcs == s.svcs[key := svc];
    DistinctCount(svc.insts);
    if key in s.svcs {
      DistinctCount(s.svcs[key].insts);
      GaugeCountsFailedRemovals(Addrs(s.svcs[key].insts), Keys(listed), known);
    } else {
      assert Dropped(s, key, Keys(listed)) == {};
    }
    if loadVCL {
      SyncedTotal(name, renders, u, key, s', e);
    }
  }

  lemma HappensKeepsBalance(name: Naming, renders: Renders, s: State, t: Tally, op: Op, s': State)
    requires Happens(name, renders, s, op, s') && AllDistinct(s) && Balanced(t, s)
    ensures AllDistinct(s') && Balanced(Counted(t, s, op), s')
  {
    match op {
      case Update(key, c) =>
        var failed :| Updated(name, renders, s, key, c, s', failed);
        UpdatedTotal(name, renders, s, key, c, s', failed);
      case SetNotReady(key) =>
        if key in s.svcs {
          SameTotal(s, key, s'.svcs[key]);
        }
      case AddOrUpdate(key, listed, secrName, known, loadVCL) =>
        var failed :| AddedOrUpdated(name, renders, s, key, Keys(listed), secrName, known, loadVCL, s', failed);
        AddedTotal(name, renders, s, t, key, listed, secrName, known, loadVCL, s', failed);
      case ForSecret(key, secrName, known) =>
        var failed :| Secreted(name, renders, s, key, secrName, known, s', failed);
        SecretedTotal(name, renders, s, key, secrName, known, s', failed);
      case MonitorRound(key) =>
        var good :| Monitored(name, renders, s, key, s', good);
        var at, failed :|
          CheckedAll(s.at, at, Addrs(s.svcs[key].insts)) && Synced1(name, renders, s.(at := at), key, s', failed);
        SyncedTotal(name, renders, s.(at := at), key, s', failed);
      case Retemper =>
      case Restart(_) =>
    }
  }

  lemma StartIsBalanced(states: seq<State>, ops: seq<Op>)
    requires |states| == |ops| + 1 && states[0].svcs == map[]
    ensures AllDistinct(states[0]) && Balanced(TallyAt(states, ops, 0), states[0])
  {
  }

  lemma BalanceStep(name: Naming, renders: Renders, states: seq<State>, ops: seq<Op>, i: nat)
    requires IsRunOf(name, renders, states, ops) && i < |ops|
    requires AllDistinct(states[i]) && Balanced(TallyAt(states, ops, i), states[i])
    ensures AllDistinct(states[i + 1]) && Balanced(TallyAt(states, ops, i + 1), states[i + 1])
  {
    HappensKeepsBalance(name, renders, states[i], TallyAt(states, ops, i), ops[i], states[i + 1]);
  }

  // In every state of every run, the number that is kept is that of the
  // instances, plus that of the removals that failed, plus that of the
  // addresses that were there twice for a new Service.
  lemma {:induction false} GaugeInEveryRun(name: Naming, renders: Renders, states: seq<State>, ops: seq<Op>, i: nat)
    requires IsRunOf(name, renders, states, ops) && i < |states|
    ensures AllDistinct(states[i]) && Balanced(TallyAt(states, ops, i), states[i])
  {
    if i == 0 {
      StartIsBalanced(states, ops);
    } else {
      GaugeInEveryRun(name, renders, states, ops, i - 1);
      BalanceStep(name, renders, states, ops, i - 1);
    }
  }

  ghost predicate NoRepetition(listed: seq<string>) {
    forall i, j :: 0 <= i < j < |listed| ==> listed[i] != listed[j]
  }

  // A new Service is counted by the length of its list, which is right exactly
  // if no address is in it twice.
  lemma {:induction false} NewServiceCount(listed: seq<string>)
    ensures |Keys(listed)| <= |listed|
    ensures |Keys(listed)| == |listed| <==> NoRepetition(listed)
  {
    if listed != [] {
      var front, last := listed[..|listed| - 1], listed[|listed| - 1];
      NewServiceCount(front);
      assert listed == front + [last];
      OneKeyMore(front, last);
    }
  }

  lemma OneKeyMore(front: seq<string>, last: string)
    ensures |Keys(front + [last])| == |Keys(front)| + if last in front then 0 else 1
    ensures NoRepetition(front + [last]) <==> NoRepetition(front) && last !in front
  {
    var all := front + [last];
    assert Keys(all) == Keys(front) + {last};
    if last in front {
      assert Keys(all) == Keys(front);
    }
    if NoRepetition(all) {
      assert forall i :: 0 <= i < |front| ==> all[i] == front[i] && all[i] != all[|front|];
      assert forall i, j :: 0 <= i < j < |front| ==> all[i] != all[j];
    }
  }
}
