// The controller: its tables of Varnish Services and Secrets, and the
// operations on them.
module Controller {
  import opened Prelude
  import opened StableSort
  import opened VclSpec
  import opened CanonicalForm
  import opened DeepHash
  import opened Varnishd
  import opened Protocol
  import opened Instances
  import opened Services
  import Backends
  import Dispositions

  class VarnishSvc {
    var instances: seq<VarnishInst>
    var spec: Option<VclConfig>
    var secrName: string
    var cfgLoaded: bool

    constructor ()
      ensures instances == [] && spec == None && secrName == "" && !cfgLoaded
    {
      instances, spec, secrName, cfgLoaded := [], None, "", false;
    }

    ghost function View(): Svc
      reads this, instances
    {
      Svc(InstsOf(instances), spec, secrName, cfgLoaded)
    }
  }

  ghost function InstsOf(instances: seq<VarnishInst>): (r: seq<Inst>)
    reads instances
    ensures |r| == |instances|
    ensures forall i :: 0 <= i < |r| ==> r[i] == Inst(instances[i].addr, instances[i].admSecret != null)
  {
    FirstInsts(instances, |instances|)
  }

  ghost function FirstInsts(instances: seq<VarnishInst>, n: nat): (r: seq<Inst>)
    requires n <= |instances|
    reads instances
    ensures |r| == n
    ensures forall i :: 0 <= i < n ==> r[i] == Inst(instances[i].addr, instances[i].admSecret != null)
  {
    if n == 0 then []
    else FirstInsts(instances, n - 1) + [Inst(instances[n - 1].addr, instances[n - 1].admSecret != null)]
  }

  // ---- Loops over instances ----

  lemma AddrsOfPrefix(insts: seq<Inst>, i: nat)
    requires i < |insts|
    ensures Addrs(insts[..i + 1]) == Addrs(insts[..i]) + {insts[i].addr}
    ensures DistinctAddrs(insts) ==> insts[i].addr !in Addrs(insts[..i])
    ensures forall k :: 0 <= k < |insts| ==> insts[k].addr in Addrs(insts)
  {
    var now := insts[..i + 1];
    forall a | a in Addrs(insts[..i]) + {insts[i].addr} ensures a in Addrs(now) {
      if a == insts[i].addr {
        assert now[i].addr == a;
      } else {
        var j :| 0 <= j < i && insts[..i][j].addr == a;
        assert now[j].addr == a;
      }
    }
    forall a | a in Addrs(now) ensures a in Addrs(insts[..i]) + {insts[i].addr} {
      var j :| 0 <= j < |now| && now[j].addr == a;
      if j < i {
        assert insts[..i][j].addr == a;
      }
    }
  }

  lemma UpdatedAllNext(
      at: map<string, Varnish>, now: map<string, Varnish>, next: map<string, Varnish>,
      insts: seq<Inst>, i: nat, cfg: string, failed: bool, failedHere: bool, n: nat)
    requires i < |insts| && DistinctAddrs(insts) && UpdatedAll(at, now, insts[..i], cfg, failed)
    requires next == now ||
      (insts[i].addr in now && n <= 3 && next == now[insts[i].addr := After(now[insts[i].addr], cfg, n)])
    requires !failedHere ==>
      insts[i].known && insts[i].addr in now && next == now[insts[i].addr := Synced(now[insts[i].addr], cfg)]
    ensures UpdatedAll(at, next, insts[..i + 1], cfg, failed || failedHere)
  {
    var addr := insts[i].addr;
    AddrsOfPrefix(insts, i);
    forall a | a in at && a in Addrs(insts[..i + 1]) ensures AfterSome(at[a], cfg, next[a]) {
      if a == addr {
        assert After(at[a], cfg, 0) == at[a];
      } else {
        assert AfterSome(at[a], cfg, now[a]);
      }
    }
    if !failed && !failedHere {
      forall j | 0 <= j < i + 1 ensures UpdatedOne(at, next, insts[j], cfg) {
        if j < i {
          assert UpdatedOne(at, now, insts[..i][j], cfg);
          assert insts[j].addr != addr;
        }
      }
    }
  }

  // Nothing stands in the way of updating these instances.
  ghost predicate Reachable(at: map<string, Varnish>, insts: seq<Inst>) {
    forall i :: 0 <= i < |insts| ==> ReachableOne(at, insts[i])
  }

  ghost predicate ReachableOne(at: map<string, Varnish>, inst: Inst) {
    inst.known && inst.addr in at && Sound(at[inst.addr])
  }

  method UpdateInstances(net: Network, instances: seq<VarnishInst>, cfg: string) returns (failed: bool)
    requires IsIng(cfg) && DistinctAddrs(InstsOf(instances))
    modifies net
    ensures UpdatedAll(old(net.at), net.at, InstsOf(instances), cfg, failed)
    ensures net.failures >= old(net.failures)
    ensures Reachable(old(net.at), InstsOf(instances)) && failed ==> net.failures > old(net.failures)
  {
    failed := false;
    ghost var at, insts := net.at, InstsOf(instances);
    for i := 0 to |instances|
      invariant InstsOf(instances) == insts && net.failures >= old(net.failures)
      invariant UpdatedAll(at, net.at, insts[..i], cfg, failed)
      invariant Reachable(at, insts) && failed ==> net.failures > old(net.failures)
    {
      failed := UpdateNext(net, instances[i], cfg, failed, at, insts, i);
    }
    assert insts[..|insts|] == insts;
  }

  // An error is kept, and the next instance updated all the same.
  method UpdateNext(
      net: Network, inst: VarnishInst, cfg: string, failed: bool, ghost at: map<string, Varnish>,
      ghost insts: seq<Inst>, ghost i: nat)
    returns (failed': bool)
    requires IsIng(cfg) && DistinctAddrs(insts) && i < |insts| && insts[i] == Inst(inst.addr, inst.admSecret != null)
    requires UpdatedAll(at, net.at, insts[..i], cfg, failed)
    modifies net
    ensures UpdatedAll(at, net.at, insts[..i + 1], cfg, failed') && net.failures >= old(net.failures)
    ensures failed ==> failed'
    ensures Reachable(at, insts) && failed' && !failed ==> net.failures > old(net.failures)
  {
    ghost var now, n, m := net.at, 0, 0;
    var e;
    AddrsOfPrefix(insts, i);
    assert Reachable(at, insts) ==> ReachableOne(at, insts[i]) && now[inst.addr] == at[inst.addr];
    e, n, m := UpdateVarnishInstance(net, inst, cfg);
    UpdatedAllNext(at, now, net.at, insts, i, cfg, failed, e.Some?, n);
    failed' := failed || e.Some?;
  }

  lemma UnreadiedAllNext(
      at: map<string, Varnish>, now: map<string, Varnish>, next: map<string, Varnish>, insts: seq<Inst>, i: nat,
      o: Outcome)
    requires i < |insts| && UnreadiedAll(at, now, Addrs(insts[..i]))
    requires !o.Replied? ==> next == now
    requires o.Replied? ==>
      insts[i].addr in now && insts[i].addr in next && next == now[insts[i].addr := next[insts[i].addr]]
    requires o.Replied? ==> Executed(now[insts[i].addr], UNREADY, next[insts[i].addr], o.reply)
    ensures UnreadiedAll(at, next, Addrs(insts[..i + 1]))
  {
    var addr := insts[i].addr;
    AddrsOfPrefix(insts, i);
    forall a | a in at && a in Addrs(insts[..i + 1]) ensures MaybeUnreadied(at[a], next[a]) {
      if a in Addrs(insts[..i]) {
        assert MaybeUnreadied(at[a], now[a]);
      }
      assert Apply(Apply(at[a], UNREADY), UNREADY) == Apply(at[a], UNREADY);
    }
  }

  // All of the instances are really set to not ready.
  ghost predicate AllUnready(at: map<string, Varnish>, insts: seq<Inst>) {
    forall i :: 0 <= i < |insts| ==> UnreadyOne(at, insts[i])
  }

  ghost predicate UnreadyOne(at: map<string, Varnish>, inst: Inst) {
    inst.addr in at && Labelled(at[inst.addr], READINESS, NOT_AVAILABLE)
  }

  function UnreadyAt(addr: string): (string, Command) {
    (addr, UNREADY)
  }

  lemma AllUnreadyNext(now: map<string, Varnish>, next: map<string, Varnish>, insts: seq<Inst>, i: nat)
    requires i < |insts| && AllUnready(now, insts[..i]) && UnreadyOne(next, insts[i])
    requires next.Keys == now.Keys && forall a :: a in now ==> MaybeUnreadied(now[a], next[a])
    ensures AllUnready(next, insts[..i + 1])
  {
    forall k | 0 <= k < i + 1 ensures UnreadyOne(next, insts[k]) {
      if k < i {
        assert UnreadyOne(now, insts[..i][k]);
      }
    }
  }

  lemma PrefixCounts(insts: seq<Inst>, i: nat, sent: seq<string>)
    requires i < |insts|
    ensures KnownCount(insts, i + 1) == KnownCount(insts, i) + if insts[i].known then 1 else 0
    ensures IsSubsequence(sent, insts, i) ==>
      IsSubsequence(sent, insts, i + 1) && IsSubsequence(sent + [insts[i].addr], insts, i + 1)
  {
    var more := sent + [insts[i].addr];
    assert more[..|more| - 1] == sent;
  }

  // The first i instances were each set to not ready once. If nothing failed
  // that need not have, and all are in reach, then all of them are.
  ghost predicate Unreadied(
      at: map<string, Varnish>, now: map<string, Varnish>, insts: seq<Inst>, i: nat,
      errors: nat, sent: seq<string>, mayClose: bool, quiet: bool)
  {
    && i <= |insts| && AllSafe(now) && UnreadiedAll(at, now, Addrs(insts[..i]))
    && i - KnownCount(insts, i) <= errors <= i && (mayClose ==> errors == i - KnownCount(insts, i))
    && (!mayClose && errors == 0 ==> InReach(at, insts[..i]))
    && IsSubsequence(sent, insts, i)
    && (quiet && errors == 0 && InReach(at, insts) ==> AllUnready(now, insts[..i]) && |sent| == i)
  }

  // What setting one instance to not ready does.
  ghost predicate Tried(
    now: map<string, Varnish>, next: map<string, Varnish>, inst: Inst, o: Outcome, quiet: bool)
  {
    && (o.NoKnownSecret? <==> !inst.known) && (!o.Replied? ==> next == now)
    && (o.Replied? ==>
      && inst.addr in now && inst.addr in next && next == now[inst.addr := next[inst.addr]]
      && Executed(now[inst.addr], UNREADY, next[inst.addr], o.reply))
    && (quiet && inst.known && inst.addr in now ==> o == Replied(Done))
  }

  lemma UnreadiedNext(
      at: map<string, Varnish>, now: map<string, Varnish>, next: map<string, Varnish>, insts: seq<Inst>, i: nat,
      errors: nat, sent: seq<string>, mayClose: bool, quiet: bool, quietHere: bool, o: Outcome)
    requires Unreadied(at, now, insts, i, errors, sent, mayClose, quiet) && i < |insts|
    requires Tried(now, next, insts[i], o, quietHere)
    ensures Unreadied(
      at, next, insts, i + 1, if Reported(o, mayClose) then errors + 1 else errors,
      if o.Replied? then sent + [insts[i].addr] else sent, mayClose, quiet && quietHere)
  {
    OneUnready(now, next, insts[i], o);
    UnreadiedAllNext(at, now, next, insts, i, o);
    PrefixCounts(insts, i, sent);
    if InReach(at, insts[..i]) && o.Replied? {
      InReachNext(at, insts, i);
    }
    if quiet && quietHere && errors == 0 && InReach(at, insts) && !Reported(o, mayClose) {
      assert InReachOne(at, insts[i]);
      AllUnreadyNext(now, next, insts, i);
    }
  }

  lemma InReachNext(at: map<string, Varnish>, insts: seq<Inst>, i: nat)
    requires i < |insts| && InReach(at, insts[..i]) && insts[i].addr in at
    ensures InReach(at, insts[..i + 1])
  {
    forall k | 0 <= k < i + 1 ensures InReachOne(at, insts[k]) {
      assert k < i ==> InReachOne(at, insts[..i][k]);
    }
  }

  // What there is of the network, and how far the loop got.
  datatype Seen = Seen(at: map<string, Varnish>, log: seq<(string, Command)>, failures: nat)

  datatype Progress = Progress(i: nat, errors: nat, sent: seq<string>)

  ghost function See(net: Network): Seen
    reads net
  {
    Seen(net.at, net.log, net.failures)
  }

  ghost predicate Unreadying(was: Seen, now: Seen, insts: seq<Inst>, p: Progress, mayClose: bool) {
    && now.failures >= was.failures && now.log == was.log + Map(UnreadyAt, p.sent)
    && Unreadied(was.at, now.at, insts, p.i, p.errors, p.sent, mayClose, now.failures == was.failures)
  }

  lemma UnreadyingNext(was: Seen, now: Seen, next: Seen, insts: seq<Inst>, p: Progress, mayClose: bool, o: Outcome)
    requires Unreadying(was, now, insts, p, mayClose) && p.i < |insts| && next.failures >= now.failures
    requires Tried(now.at, next.at, insts[p.i], o, next.failures == now.failures)
    requires next.log == now.log + if o.Replied? then [(insts[p.i].addr, UNREADY)] else []
    ensures Unreadying(was, next, insts, Progressed(p, insts[p.i].addr, mayClose, o), mayClose)
  {
    UnreadiedNext(
      was.at, now.at, next.at, insts, p.i, p.errors, p.sent, mayClose, now.failures == was.failures,
      next.failures == now.failures, o);
    LogNext(was.log, p.sent, insts[p.i].addr);
  }

  function Progressed(p: Progress, addr: string, mayClose: bool, o: Outcome): Progress {
    Progress(
      p.i + 1, if Reported(o, mayClose) then p.errors + 1 else p.errors,
      if o.Replied? then p.sent + [addr] else p.sent)
  }

  // With mayClose, only a Secret that is not known is an error.
  method UnreadyInstances(net: Network, instances: seq<VarnishInst>, mayClose: bool)
    returns (errors: nat, ghost sent: seq<string>)
    requires AllSafe(net.at)
    modifies net
    ensures Unreadying(
      old(See(net)), See(net), InstsOf(instances), Progress(|instances|, errors, sent), mayClose)
  {
    errors, sent := 0, [];
    ghost var was, insts, p := See(net), InstsOf(instances), Progress(0, 0, []);
    UnreadyingStart(was, insts, mayClose);
    for i := 0 to |instances|
      invariant p == Progress(i, errors, sent) && Unreadying(was, See(net), insts, p, mayClose)
    {
      assert insts[i] == Inst(instances[i].addr, instances[i].admSecret != null);
      var failed;
      failed, p := UnreadyInstance(net, instances[i], mayClose, was, insts, p);
      errors, sent := if failed then errors + 1 else errors, p.sent;
    }
  }

  method UnreadyInstance(
      net: Network, inst: VarnishInst, mayClose: bool, ghost was: Seen, ghost insts: seq<Inst>, ghost p: Progress)
    returns (failed: bool, ghost p': Progress)
    requires p.i < |insts| && insts[p.i] == Inst(inst.addr, inst.admSecret != null)
    requires Unreadying(was, See(net), insts, p, mayClose)
    modifies net
    ensures Unreadying(was, See(net), insts, p', mayClose)
    ensures p'.i == p.i + 1 && p'.errors == p.errors + if failed then 1 else 0
  {
    ghost var now, o := See(net), NotConnected;
    failed, o := TryUnready(net, inst, mayClose);
    UnreadyingNext(was, now, See(net), insts, p, mayClose, o);
    p' := Progressed(p, inst.addr, mayClose, o);
  }

  lemma UnreadyingStart(was: Seen, insts: seq<Inst>, mayClose: bool)
    requires AllSafe(was.at)
    ensures Unreadying(was, was, insts, Progress(0, 0, []), mayClose)
  {
    assert insts[..0] == [];
    assert was.log == was.log + Map(UnreadyAt, []);
  }

  method TryUnready(net: Network, inst: VarnishInst, mayClose: bool) returns (failed: bool, ghost o: Outcome)
    requires AllSafe(net.at)
    modifies net
    ensures failed == Reported(o, mayClose) && net.failures >= old(net.failures)
    ensures Tried(old(net.at), net.at, Inst(inst.addr, inst.admSecret != null), o, net.failures == old(net.failures))
    ensures net.log == old(net.log) + if o.Replied? then [(inst.addr, UNREADY)] else []
  {
    if inst.addr in net.at {
      ReadinessCanBeSet(net.at[inst.addr]);
    }
    failed, o := SetCfgLabel(net, inst, NOT_AVAILABLE, READINESS, mayClose);
  }

  lemma LogNext(log: seq<(string, Command)>, sent: seq<string>, addr: string)
    ensures log + Map(UnreadyAt, sent) + [(addr, UNREADY)] == log + Map(UnreadyAt, sent + [addr])
  {
    assert Map(UnreadyAt, sent + [addr]) == Map(UnreadyAt, sent) + [(addr, UNREADY)];
  }

  lemma ReadinessCanBeSet(v: Varnish)
    requires Safe(v)
    ensures Permitted(v, UNREADY)
  {
  }

  ghost predicate InReach(at: map<string, Varnish>, insts: seq<Inst>) {
    forall i :: 0 <= i < |insts| ==> InReachOne(at, insts[i])
  }

  ghost predicate InReachOne(at: map<string, Varnish>, inst: Inst) {
    inst.addr in at
  }

  lemma OneUnready(now: map<string, Varnish>, next: map<string, Varnish>, inst: Inst, o: Outcome)
    requires AllSafe(now) && (!o.Replied? ==> next == now)
    requires o.Replied? ==> inst.addr in now && inst.addr in next && next == now[inst.addr := next[inst.addr]]
    requires o.Replied? ==> Executed(now[inst.addr], UNREADY, next[inst.addr], o.reply)
    ensures AllSafe(next) && next.Keys == now.Keys && forall a :: a in now ==> MaybeUnreadied(now[a], next[a])
    ensures o == Replied(Done) ==> UnreadyOne(next, inst)
    ensures inst.addr in now ==> Permitted(now[inst.addr], UNREADY)
  {
    if o.Replied? {
      NotReadyExactly(now[inst.addr], next[inst.addr], o.reply);
    }
  }

  // How many of the first n have a Secret that is known.
  function KnownCount(insts: seq<Inst>, n: nat): (k: nat)
    requires n <= |insts|
    ensures k <= n
  {
    if n == 0 then 0 else KnownCount(insts, n - 1) + if insts[n - 1].known then 1 else 0
  }

  function KnownCountOf(insts: seq<Inst>): nat {
    KnownCount(insts, |insts|)
  }

  lemma {:induction false} AllCounted(insts: seq<Inst>, n: nat)
    requires n <= |insts|
    ensures KnownCount(insts, n) == n <==> forall i :: 0 <= i < n ==> insts[i].known
  {
    if n > 0 {
      AllCounted(insts, n - 1);
    }
  }

  // Some of the first n, in the same order, each at most once.
  ghost predicate IsSubsequence(sent: seq<string>, insts: seq<Inst>, n: nat)
    requires n <= |insts|
  {
    if n == 0 then sent == []
    else
      || IsSubsequence(sent, insts, n - 1)
      || (sent != [] && sent[|sent| - 1] == insts[n - 1].addr && IsSubsequence(sent[..|sent| - 1], insts, n - 1))
  }

  // A good check of all instances discarded everything that was cold.
  ghost predicate Checked1(at: map<string, Varnish>, at': map<string, Varnish>, insts: seq<Inst>, i: nat, good: bool) {
    && i <= |insts| && CheckedAll(at, at', Addrs(insts[..i]))
    && (good ==> forall k :: 0 <= k < i ==> CheckedFully(at, at', insts[k]))
  }

  lemma Checked1Next(
      at: map<string, Varnish>, now: map<string, Varnish>, next: map<string, Varnish>, insts: seq<Inst>, i: nat,
      good: bool, goodHere: bool, gone: set<string>)
    requires i < |insts| && DistinctAddrs(insts) && Checked1(at, now, insts, i, good)
    requires insts[i].addr in now ==>
      Discardable(now[insts[i].addr], gone) && next == now[insts[i].addr := Minus(now[insts[i].addr], gone)]
    requires insts[i].addr !in now ==> next == now && !goodHere
    requires goodHere ==> gone == ColdConfigs(now[insts[i].addr])
    ensures Checked1(at, next, insts, i + 1, good && goodHere)
  {
    var addr := insts[i].addr;
    AddrsOfPrefix(insts, i);
    forall a | a in at && a in Addrs(insts[..i + 1]) ensures DiscardedSome(at[a], next[a]) {
      if a != addr {
        assert DiscardedSome(at[a], now[a]);
      }
    }
    if good && goodHere {
      forall k | 0 <= k < i + 1 ensures CheckedFully(at, next, insts[k]) {
        assert k < i ==> CheckedFully(at, now, insts[k]) && insts[k].addr != addr;
      }
    }
  }

  method CheckInstances(net: Network, instances: seq<VarnishInst>) returns (good: bool)
    requires DistinctAddrs(InstsOf(instances))
    modifies net
    ensures Checked1(old(net.at), net.at, InstsOf(instances), |instances|, good)
  {
    good := true;
    ghost var at, insts := net.at, InstsOf(instances);
    for i := 0 to |instances|
      invariant InstsOf(instances) == insts && Checked1(at, net.at, insts, i, good)
    {
      ghost var now, gone := net.at, {};
      var ok;
      ok, gone := CheckInst(net, instances[i]);
      Checked1Next(at, now, net.at, insts, i, good, ok, gone);
      if !ok {
        good := false;
      }
    }
  }

  // ---- One Service ----

  lemma NothingToSync(name: Naming, renders: Renders, svc: Svc, at: map<string, Varnish>)
    requires svc.secrName == "" || svc.spec.None? || !renders(svc.spec.value.spec)
    ensures SvcSynced(name, renders, svc, at, svc.(cfgLoaded := false), at, svc.secrName == "" || svc.spec.Some?)
  {
  }

  lemma SomethingToSync(
      name: Naming, renders: Renders, svc: Svc, at: map<string, Varnish>, at': map<string, Varnish>, failed: bool)
    requires svc.secrName != "" && svc.spec.Some? && renders(svc.spec.value.spec)
    requires UpdatedAll(at, at', svc.insts, name(svc.spec.value), failed)
    ensures SvcSynced(name, renders, svc, at, svc.(cfgLoaded := !failed), at', failed)
  {
  }

  // Nothing stands in the way of updating a Service.
  ghost predicate CanSync(renders: Renders, at: map<string, Varnish>, svc: Svc) {
    svc.secrName != "" && (svc.spec.Some? ==> renders(svc.spec.value.spec)) && Reachable(at, svc.insts)
  }

  method SyncService(net: Network, name: Naming, renders: Renders, svc: VarnishSvc) returns (failed: bool)
    requires DifferentAddrs(svc.instances)
    modifies net, svc`cfgLoaded
    ensures SvcSynced(name, renders, old(svc.View()), old(net.at), svc.View(), net.at, failed)
    ensures net.failures >= old(net.failures)
    ensures failed && CanSync(renders, old(net.at), svc.View()) ==> net.failures > old(net.failures)
  {
    ghost var was, at := svc.View(), net.at;
    svc.cfgLoaded := false;
    if svc.secrName == "" || svc.spec.None? || !renders(svc.spec.value.spec) {
      NothingToSync(name, renders, was, at);
      return svc.secrName == "" || svc.spec.Some?;
    }
    AddrsOfInsts(svc.instances);
    failed := UpdateInstances(net, svc.instances, name(svc.spec.value));
    MarkLoaded(svc, !failed);
    SomethingToSync(name, renders, was, at, net.at, failed);
  }

  method MarkLoaded(svc: VarnishSvc, loaded: bool)
    modifies svc`cfgLoaded
    ensures svc.View() == old(svc.View()).(cfgLoaded := loaded)
  {
    svc.cfgLoaded := loaded;
  }

  // The Service keeps saying whether its configuration was loaded.
  method UnreadyService(net: Network, svc: VarnishSvc) returns (failed: bool)
    requires AllSafe(net.at)
    modifies net, svc`spec
    ensures svc.View() == old(svc.View()).(spec := None)
    ensures UnreadiedAll(old(net.at), net.at, Addrs(svc.View().insts))
    ensures if failed then svc.View().insts != [] else CanReach(old(net.at), svc.View().insts)
    ensures !failed && net.failures == old(net.failures) && Addrs(svc.View().insts) <= old(net.at.Keys) ==>
      AllUnreadyAt(net.at, Addrs(svc.View().insts))
  {
    ghost var insts := InstsOf(svc.instances);
    svc.spec := None;
    var errors;
    ghost var sent;
    errors, sent := UnreadyInstances(net, svc.instances, false);
    UnreadiedResult(old(net.at), net.at, insts, errors, sent, false, net.failures == old(net.failures));
    return errors > 0;
  }

  // What it means to have gone through all instances.
  lemma UnreadiedResult(
      at: map<string, Varnish>, now: map<string, Varnish>, insts: seq<Inst>, errors: nat, sent: seq<string>,
      mayClose: bool, quiet: bool)
    requires Unreadied(at, now, insts, |insts|, errors, sent, mayClose, quiet)
    ensures UnreadiedAll(at, now, Addrs(insts)) && AllSafe(now)
    ensures errors == 0 && !mayClose ==> CanReach(at, insts)
    ensures errors > 0 ==> insts != []
    ensures quiet && errors == 0 && Addrs(insts) <= at.Keys ==> AllUnreadyAt(now, Addrs(insts)) && |sent| == |insts|
  {
    assert insts[..|insts|] == insts;
    AllCounted(insts, |insts|);
    if Addrs(insts) <= at.Keys {
      AddrsInReach(at, insts);
    }
    if AllUnready(now, insts) {
      AddrsUnready(now, insts);
    }
    if InReach(at, insts) {
      InReachAddrs(at, insts);
    }
  }

  lemma InReachAddrs(at: map<string, Varnish>, insts: seq<Inst>)
    requires InReach(at, insts)
    ensures Addrs(insts) <= at.Keys
  {
    forall a | a in Addrs(insts) ensures a in at {
      var i :| 0 <= i < |insts| && insts[i].addr == a;
      assert InReachOne(at, insts[i]);
    }
  }

  // ---- Addresses ----

  function AddrKey(a: Address): string {
    a.ip + ":" + Backends.Itoa(a.port)
  }

  // Different addresses have different keys, of any form of IP.
  lemma AddrKeyExactly(a: Address, b: Address)
    ensures AddrKey(a) == AddrKey(b) <==> a == b
  {
    NoColon(a.port);
    NoColon(b.port);
    if AddrKey(a) == AddrKey(b) {
      var s := AddrKey(a);
      assert s[|a.ip|] == ':' && s[|b.ip|] == ':';
      assert forall i :: |a.ip| < i < |s| ==> s[i] == Backends.Itoa(a.port)[i - |a.ip| - 1];
      assert forall i :: |b.ip| < i < |s| ==> s[i] == Backends.Itoa(b.port)[i - |b.ip| - 1];
      assert |a.ip| == |b.ip|;
      assert a.ip == s[..|a.ip|] == b.ip;
      assert Backends.Itoa(a.port) == s[|a.ip| + 1..] == Backends.Itoa(b.port);
      Backends.ItoaInjective(a.port, b.port);
    }
  }

  lemma NoColon(n: int)
    ensures forall i :: 0 <= i < |Backends.Itoa(n)| ==> Backends.Itoa(n)[i] != ':'
  {
    DecimalHasNoColon(if n < 0 then -n else n);
  }

  lemma {:induction false} DecimalHasNoColon(n: nat)
    ensures forall i :: 0 <= i < |Dispositions.Decimal(n)| ==> Dispositions.Decimal(n)[i] != ':'
  {
    if n >= 10 {
      DecimalHasNoColon(n / 10);
    }
  }

  function AddrList(addrs: seq<Address>): seq<string> {
    Map(AddrKey, addrs)
  }

  function AddrKeys(addrs: seq<Address>): set<string> {
    Keys(AddrList(addrs))
  }

  ghost function AddrsOf(instances: seq<VarnishInst>): set<string> {
    set i | 0 <= i < |instances| :: instances[i].addr
  }

  ghost predicate DifferentAddrs(instances: seq<VarnishInst>) {
    forall i, j :: 0 <= i < j < |instances| ==> instances[i].addr != instances[j].addr
  }

  lemma AddrsOfInsts(instances: seq<VarnishInst>)
    ensures Addrs(InstsOf(instances)) == AddrsOf(instances)
    ensures DistinctAddrs(InstsOf(instances)) <==> DifferentAddrs(instances)
  {
    var insts := InstsOf(instances);
    assert forall i :: 0 <= i < |insts| ==> insts[i].addr == instances[i].addr;
    forall a | a in AddrsOf(instances) ensures a in Addrs(insts) {
      var i :| 0 <= i < |instances| && instances[i].addr == a;
      assert insts[i].addr == a;
    }
  }

  lemma AddrsOfMore(instances: seq<VarnishInst>, more: seq<VarnishInst>)
    ensures AddrsOf(instances + more) == AddrsOf(instances) + AddrsOf(more)
    ensures DifferentAddrs(instances) && DifferentAddrs(more) && AddrsOf(instances) !! AddrsOf(more) ==>
      DifferentAddrs(instances + more)
    ensures |more| == 1 ==> AddrsOf(more) == {more[0].addr} && DifferentAddrs(more)
  {
    var all := instances + more;
    forall a | a in AddrsOf(instances) + AddrsOf(more) ensures a in AddrsOf(all) {
      if i :| 0 <= i < |instances| && instances[i].addr == a {
        assert all[i].addr == a;
      } else {
        var i :| 0 <= i < |more| && more[i].addr == a;
        assert all[|instances| + i].addr == a;
      }
    }
    assert forall i :: 0 <= i < |instances| ==> instances[i].addr in AddrsOf(instances);
    assert forall i :: 0 <= i < |more| ==> more[i].addr in AddrsOf(more);
    if |more| == 1 {
      assert more[0].addr in AddrsOf(more);
    }
  }

  // One instance for each of the addresses.
  ghost predicate OneForEach(instances: seq<VarnishInst>, addrs: set<string>) {
    AddrsOf(instances) == addrs && DifferentAddrs(instances) && |instances| == |addrs|
  }

  lemma OneMore(instances: seq<VarnishInst>, addrs: set<string>, inst: VarnishInst)
    requires OneForEach(instances, addrs) && inst.addr !in addrs
    ensures OneForEach(instances + [inst], addrs + {inst.addr})
  {
    AddrsOfMore(instances, [inst]);
  }

  // The instances by their addresses, the last one for each.
  method ByAddress(instances: seq<VarnishInst>) returns (prev: map<string, VarnishInst>)
    ensures prev.Keys == AddrsOf(instances)
    ensures forall a :: a in prev ==> prev[a].addr == a
    ensures forall m :: m in prev.Values ==> m in instances
  {
    prev := map[];
    for i := 0 to |instances|
      invariant prev.Keys == AddrsOf(instances[..i])
      invariant forall a :: a in prev ==> prev[a] in instances && prev[a].addr == a
    {
      AddrsOfMore(instances[..i], [instances[i]]);
      assert instances[..i + 1] == instances[..i] + [instances[i]];
      prev := prev[instances[i].addr := instances[i]];
    }
    assert instances[..|instances|] == instances;
  }

  lemma Split(addrs: set<string>, keys: set<string>, addr: string)
    requires addr !in addrs
    ensures (addrs + {addr}) * keys == if addr in keys then addrs * keys + {addr} else addrs * keys
    ensures (addrs + {addr}) - keys == if addr in keys then addrs - keys else addrs - keys + {addr}
  {
  }

  lemma OneFromTodo(all: set<string>, done: set<string>, todo: set<string>, addr: string)
    requires done !! todo && done + todo == all && addr in todo
    ensures (done + {addr}) !! (todo - {addr}) && (done + {addr}) + (todo - {addr}) == all
    ensures |todo - {addr}| < |todo|
  {
  }

  ghost predicate Carry(instances: seq<VarnishInst>, secr: Secret?)
    reads instances
  {
    forall i :: 0 <= i < |instances| ==> instances[i].admSecret == secr
  }

  method MakeOne(addr: string, secr: Secret?, made: seq<VarnishInst>, ghost addrs: set<string>)
    returns (more: seq<VarnishInst>)
    requires OneForEach(made, addrs) && addr !in addrs && Carry(made, secr)
    ensures OneForEach(more, addrs + {addr}) && Carry(more, secr)
    ensures forall m :: m in more ==> m in made || fresh(m)
  {
    var inst := new VarnishInst(addr, secr);
    OneMore(made, addrs, inst);
    more := made + [inst];
  }

  lemma KeepOne(keep: seq<VarnishInst>, kept: set<string>, prev: map<string, VarnishInst>, addr: string)
    requires OneForEach(keep, kept) && (forall m :: m in keep ==> m in prev.Values)
    requires addr in prev && prev[addr].addr == addr && addr !in kept
    ensures OneForEach(keep + [prev[addr]], kept + {addr}) && forall m :: m in keep + [prev[addr]] ==> m in prev.Values
  {
    OneMore(keep, kept, prev[addr]);
  }

  lemma NothingDone(all: set<string>)
    ensures all - all == {}
  {
  }

  lemma AllDone(all: set<string>)
    ensures all - {} == all
  {
  }

  lemma OneDone(all: set<string>, todo: set<string>, addr: string)
    requires todo <= all && addr in todo
    ensures all - (todo - {addr}) == (all - todo) + {addr}
    ensures todo - {addr} <= all && addr !in all - todo && |todo - {addr}| < |todo|
  {
  }

  // The instances for some of the addresses: those that are kept, and those
  // that are made.
  ghost predicate Placed(
      keep: seq<VarnishInst>, made: seq<VarnishInst>, done: set<string>, prev: map<string, VarnishInst>, secr: Secret?)
    reads made
  {
    && OneForEach(keep, done * prev.Keys) && (forall m :: m in keep ==> m in prev.Values)
    && OneForEach(made, done - prev.Keys) && Carry(made, secr)
  }

  method PlaceOne(
      addr: string, prev: map<string, VarnishInst>, secr: Secret?, keep: seq<VarnishInst>, made: seq<VarnishInst>,
      ghost done: set<string>)
    returns (keep': seq<VarnishInst>, made': seq<VarnishInst>)
    requires Placed(keep, made, done, prev, secr) && addr !in done && (addr in prev ==> prev[addr].addr == addr)
    ensures Placed(keep', made', done + {addr}, prev, secr)
    ensures forall m :: m in made' ==> m in made || fresh(m)
  {
    Split(done, prev.Keys, addr);
    if addr in prev {
      KeepOne(keep, done * prev.Keys, prev, addr);
      return keep + [prev[addr]], made;
    }
    keep' := keep;
    made' := MakeOne(addr, secr, made, done - prev.Keys);
  }

  // Keeps the instances at the given addresses, and makes new ones for the
  // others, in any order.
  method KeepOrMake(addrs: set<string>, prev: map<string, VarnishInst>, secr: Secret?)
    returns (keep: seq<VarnishInst>, made: seq<VarnishInst>)
    requires forall a :: a in prev ==> prev[a].addr == a
    ensures Placed(keep, made, addrs, prev, secr)
    ensures forall m :: m in made ==> fresh(m)
  {
    keep, made := [], [];
    var todo := addrs;
    NothingDone(addrs);
    while todo != {}
      invariant todo <= addrs && Placed(keep, made, addrs - todo, prev, secr)
      invariant forall m :: m in made ==> fresh(m)
      decreases |todo|
    {
      var addr :| addr in todo;
      OneDone(addrs, todo, addr);
      keep, made := PlaceOne(addr, prev, secr, keep, made, addrs - todo);
      todo := todo - {addr};
    }
    AllDone(addrs);
  }

  method NoLongerAt(addrs: set<string>, prev: map<string, VarnishInst>) returns (rem: seq<VarnishInst>)
    requires forall a :: a in prev ==> prev[a].addr == a
    ensures OneForEach(rem, prev.Keys - addrs) && forall m :: m in rem ==> m in prev.Values
  {
    rem := [];
    var todo := prev.Keys;
    ghost var done: set<string>, gone: set<string> := {}, {};
    while todo != {}
      invariant done !! todo && done + todo == prev.Keys && gone == done - addrs
      invariant OneForEach(rem, gone) && forall m :: m in rem ==> m in prev.Values
      decreases |todo|
    {
      var addr :| addr in todo;
      Split(done, addrs, addr);
      OneFromTodo(prev.Keys, done, todo, addr);
      if addr !in addrs {
        OneMore(rem, gone, prev[addr]);
        rem, gone := rem + [prev[addr]], gone + {addr};
      }
      todo, done := todo - {addr}, done + {addr};
    }
  }

  lemma {:induction false} CarriedCount(insts: seq<Inst>, n: nat, known: bool)
    requires n <= |insts| && forall i :: 0 <= i < n ==> insts[i].known == known
    ensures KnownCount(insts, n) == if known then n else 0
  {
    if n > 0 {
      CarriedCount(insts, n - 1, known);
    }
  }

  lemma {:induction false} SubsequenceMembers(sent: seq<string>, insts: seq<Inst>, n: nat)
    requires n <= |insts| && IsSubsequence(sent, insts, n) && DistinctAddrs(insts)
    ensures NoRepetition(sent) && forall a :: a in sent ==> exists i :: 0 <= i < n && insts[i].addr == a
    decreases n
  {
    if n > 0 {
      if IsSubsequence(sent, insts, n - 1) {
        SubsequenceMembers(sent, insts, n - 1);
      } else {
        var front := sent[..|sent| - 1];
        SubsequenceMembers(front, insts, n - 1);
        assert sent == front + [insts[n - 1].addr];
        forall a | a in sent ensures exists i :: 0 <= i < n && insts[i].addr == a {
          if a in front {
            var i :| 0 <= i < n - 1 && insts[i].addr == a;
          } else {
            assert insts[n - 1].addr == a;
          }
        }
        assert insts[n - 1].addr !in front;
      }
    }
  }

  ghost predicate AllUnreadyAt(at: map<string, Varnish>, addrs: set<string>) {
    forall a :: a in addrs ==> a in at && Labelled(at[a], READINESS, NOT_AVAILABLE)
  }

  // Sets the instances that are dropped to not ready, each once.
  method Drop(net: Network, rem: seq<VarnishInst>, secr: Secret?, ghost dropped: set<string>)
    returns (errors: nat, ghost sent: seq<string>)
    requires AllSafe(net.at) && Carry(rem, secr) && OneForEach(rem, dropped)
    modifies net
    ensures errors == if secr == null then |dropped| else 0
    ensures UnreadiedAll(old(net.at), net.at, dropped) && AllSafe(net.at)
    ensures net.log == old(net.log) + Map(UnreadyAt, sent)
    ensures NoRepetition(sent) && forall a :: a in sent ==> a in dropped
    ensures secr != null && net.failures == old(net.failures) && dropped <= old(net.at.Keys) ==>
      AllUnreadyAt(net.at, dropped) && multiset(sent) == multiset(dropped)
  {
    ghost var insts := InstsOf(rem);
    AddrsOfInsts(rem);
    CarriedCount(insts, |insts|, secr != null);
    errors, sent := UnreadyInstances(net, rem, true);
    SubsequenceMembers(sent, insts, |insts|);
    UnreadiedResult(old(net.at), net.at, insts, errors, sent, true, net.failures == old(net.failures));
    if |sent| == |rem| {
      SentToAll(sent, dropped);
    }
  }

  lemma SentToAll(sent: seq<string>, dropped: set<string>)
    requires NoRepetition(sent) && (forall a :: a in sent ==> a in dropped) && |sent| == |dropped|
    ensures multiset(sent) == multiset(dropped)
  {
    NewServiceCount(sent);
    assert Keys(sent) <= dropped;
    assert |dropped - Keys(sent)| == |dropped| - |Keys(sent)|;
    assert Keys(sent) == dropped;
    OnceEach(sent);
  }

  lemma {:induction false} OnceEach(sent: seq<string>)
    requires NoRepetition(sent)
    ensures multiset(sent) == multiset(Keys(sent))
  {
    if sent != [] {
      var front, last := sent[..|sent| - 1], sent[|sent| - 1];
      OnceEach(front);
      assert sent == front + [last];
      OneKeyMore(front, last);
      assert Keys(sent) == Keys(front) + {last};
    }
  }

  lemma AddrsInReach(at: map<string, Varnish>, insts: seq<Inst>)
    requires Addrs(insts) <= at.Keys
    ensures InReach(at, insts)
  {
    forall i | 0 <= i < |insts| ensures InReachOne(at, insts[i]) {
      assert insts[i].addr in Addrs(insts);
    }
  }

  lemma AddrsUnready(at: map<string, Varnish>, insts: seq<Inst>)
    requires AllUnready(at, insts)
    ensures AllUnreadyAt(at, Addrs(insts))
  {
    forall a | a in Addrs(insts) ensures a in at && Labelled(at[a], READINESS, NOT_AVAILABLE) {
      var i :| 0 <= i < |insts| && insts[i].addr == a;
      assert UnreadyOne(at, insts[i]);
    }
  }

  lemma CarrySome(some: seq<VarnishInst>, all: seq<VarnishInst>, secr: Secret?)
    requires Carry(all, secr) && forall m :: m in some ==> m in all
    ensures Carry(some, secr)
  {
    forall i | 0 <= i < |some| ensures some[i].admSecret == secr {
      assert some[i] in all;
      var j :| 0 <= j < |all| && all[j] == some[i];
    }
  }

  lemma MemberAddr(instances: seq<VarnishInst>, m: VarnishInst)
    requires m in instances
    ensures m.addr in AddrsOf(instances)
  {
    var i :| 0 <= i < |instances| && instances[i] == m;
  }

  lemma KeptOrMade(
      keep: seq<VarnishInst>, made: seq<VarnishInst>, addrs: set<string>, prev: map<string, VarnishInst>,
      was: seq<VarnishInst>)
    requires forall m :: m in keep ==> m in prev.Values
    requires OneForEach(made, addrs - prev.Keys)
    requires prev.Keys == AddrsOf(was) && forall m :: m in prev.Values ==> m in was
    ensures forall m :: m in keep + made ==> m in was || (m in made && m.addr !in AddrsOf(was))
  {
    forall m | m in made ensures m.addr !in AddrsOf(was) {
      MemberAddr(made, m);
    }
  }

  // What is kept is the same object as before.
  method Rearranged(was: seq<VarnishInst>, addrs: set<string>, secr: Secret?)
    returns (instances: seq<VarnishInst>, added: nat, rem: seq<VarnishInst>)
    requires Carry(was, secr)
    ensures OneForEach(instances, addrs) && Carry(instances, secr)
    ensures forall m :: m in instances ==> m in was || (fresh(m) && m.addr !in AddrsOf(was))
    ensures added == |addrs - AddrsOf(was)|
    ensures OneForEach(rem, AddrsOf(was) - addrs) && Carry(rem, secr)
  {
    var prev := ByAddress(was);
    var keep, made := KeepOrMake(addrs, prev, secr);
    rem := NoLongerAt(addrs, prev);
    CarrySome(keep, was, secr);
    CarrySome(rem, was, secr);
    KeptOrMade(keep, made, addrs, prev, was);
    Together(keep, made, addrs, prev.Keys);
    instances := keep + made;
    added := |made|;
  }

  method Rearrange(svc: VarnishSvc, addrs: set<string>, secr: Secret?) returns (added: nat, rem: seq<VarnishInst>)
    requires Carry(svc.instances, secr)
    modifies svc`instances
    ensures OneForEach(svc.instances, addrs) && Carry(svc.instances, secr)
    ensures forall m :: m in svc.instances ==>
      m in old(svc.instances) || (fresh(m) && m.addr !in old(AddrsOf(svc.instances)))
    ensures added == |addrs - old(AddrsOf(svc.instances))|
    ensures OneForEach(rem, old(AddrsOf(svc.instances)) - addrs) && Carry(rem, secr)
  {
    var instances;
    instances, added, rem := Rearranged(svc.instances, addrs, secr);
    svc.instances := instances;
  }

  // The instances of a Service become those at the given addresses.
  method Readdress(net: Network, svc: VarnishSvc, addrs: set<string>, secr: Secret?)
    returns (failed: bool, gauge: int, ghost sent: seq<string>)
    requires AllSafe(net.at) && Carry(svc.instances, secr)
    modifies net, svc`instances
    ensures OneForEach(svc.instances, addrs) && Carry(svc.instances, secr)
    ensures forall m :: m in svc.instances ==>
      m in old(svc.instances) || (fresh(m) && m.addr !in old(AddrsOf(svc.instances)))
    ensures UnreadiedAll(old(net.at), net.at, old(AddrsOf(svc.instances)) - addrs) && AllSafe(net.at)
    ensures failed <==> secr == null && old(AddrsOf(svc.instances)) - addrs != {}
    ensures gauge == GaugeChange(old(AddrsOf(svc.instances)), addrs, secr != null)
    ensures net.log == old(net.log) + Map(UnreadyAt, sent) && NoRepetition(sent)
    ensures forall a :: a in sent ==> a in old(AddrsOf(svc.instances)) - addrs
    ensures var dropped := old(AddrsOf(svc.instances)) - addrs;
      secr != null && net.failures == old(net.failures) && dropped <= old(net.at.Keys) ==>
        AllUnreadyAt(net.at, dropped) && multiset(sent) == multiset(dropped)
  {
    ghost var dropped := AddrsOf(svc.instances) - addrs;
    var added, rem := Rearrange(svc, addrs, secr);
    var errors;
    errors, sent := Drop(net, rem, secr, dropped);
    failed := errors > 0;
    gauge := added - (|rem| - errors);
  }

  lemma Together(keep: seq<VarnishInst>, made: seq<VarnishInst>, addrs: set<string>, keys: set<string>)
    requires OneForEach(keep, addrs * keys) && OneForEach(made, addrs - keys)
    ensures OneForEach(keep + made, addrs)
  {
    AddrsOfMore(keep, made);
    assert addrs == addrs * keys + (addrs - keys);
    assert |addrs| == |addrs * keys| + |addrs - keys|;
  }

  // ---- Secrets ----

  method AssignSecret(instances: seq<VarnishInst>, secr: Secret?)
    modifies instances`admSecret
    ensures Carry(instances, secr)
  {
    for i := 0 to |instances|
      invariant forall j :: 0 <= j < i ==> instances[j].admSecret == secr
    {
      instances[i].admSecret := secr;
    }
  }

  lemma RekeyedInsts(svc: Svc, secrName: string, secr: Secret?, instances: seq<VarnishInst>)
    requires Carry(instances, secr) && |instances| == |svc.insts|
    requires forall i :: 0 <= i < |instances| ==> instances[i].addr == svc.insts[i].addr
    ensures InstsOf(instances) == Rekeyed(svc, secrName, secr != null).insts
  {
  }

  // A Service gets a Secret, and so do all of its instances.
  method GiveSecret(svc: VarnishSvc, secrName: string, secr: Secret?)
    modifies svc`secrName, svc.instances`admSecret
    ensures svc.View() == Rekeyed(old(svc.View()), secrName, secr != null) && Carry(svc.instances, secr)
  {
    ghost var was := svc.View();
    svc.secrName := secrName;
    AssignSecret(svc.instances, secr);
    RekeyedInsts(was, secrName, secr, svc.instances);
  }

  // A Service whose instances are those at the given addresses, and carry the
  // given Secret.
  ghost predicate SetUpWith(svc: Svc, svc': Svc, addrs: set<string>, secrName: string, known: bool) {
    && svc' == svc.(insts := svc'.insts, secrName := secrName)
    && DistinctAddrs(svc'.insts) && Addrs(svc'.insts) == addrs
    && forall i :: 0 <= i < |svc'.insts| ==> svc'.insts[i].known == known
  }

  method SetUp(net: Network, svc: VarnishSvc, addrs: set<string>, secrName: string, secr: Secret?)
    returns (failed: bool, gauge: int)
    requires AllSafe(net.at)
    modifies net, svc`secrName, svc`instances, svc.instances`admSecret
    ensures SetUpWith(old(svc.View()), svc.View(), addrs, secrName, secr != null) && DifferentAddrs(svc.instances)
    ensures forall m :: m in svc.instances ==> m in old(svc.instances) || fresh(m)
    ensures UnreadiedAll(old(net.at), net.at, old(AddrsOf(svc.instances)) - addrs)
    ensures failed <==> secr == null && old(AddrsOf(svc.instances)) - addrs != {}
    ensures gauge == GaugeChange(old(AddrsOf(svc.instances)), addrs, secr != null)
  {
    GiveSecret(svc, secrName, secr);
    ghost var sent;
    failed, gauge, sent := Readdress(net, svc, addrs, secr);
    AddrsOfInsts(svc.instances);
  }

  // A new Service has an instance for each of the addresses before the ones
  // that are there twice are dropped. Those are counted all the same.
  method SetUpNew(net: Network, addrs: seq<Address>, secrName: string, secr: Secret?)
    returns (svc: VarnishSvc, gauge: int)
    requires AllSafe(net.at)
    modifies net
    ensures fresh(svc) && forall m :: m in svc.instances ==> fresh(m)
    ensures SetUpWith(NEW_SVC, svc.View(), AddrKeys(addrs), secrName, secr != null) && DifferentAddrs(svc.instances)
    ensures UnreadiedAll(old(net.at), net.at, {}) && gauge == |addrs|
  {
    svc := new VarnishSvc();
    assert svc.View() == NEW_SVC;
    svc.instances := MakeInstances(addrs);
    assert svc.View() == NEW_SVC.(insts := svc.View().insts);
    assert AddrKeys(addrs) - AddrKeys(addrs) == {};
    gauge := |addrs|;
    var failed, change := SetUp(net, svc, AddrKeys(addrs), secrName, secr);
    gauge := gauge + change;
  }

  // One instance for every address of the list, even if it is there twice.
  method MakeInstances(addrs: seq<Address>) returns (instances: seq<VarnishInst>)
    ensures |instances| == |addrs| && AddrsOf(instances) == AddrKeys(addrs)
    ensures forall i :: 0 <= i < |instances| ==> fresh(instances[i])
  {
    instances := [];
    for i := 0 to |addrs|
      invariant |instances| == i && forall j :: 0 <= j < i ==>
        fresh(instances[j]) && instances[j].addr == AddrKey(addrs[j])
    {
      var inst := new VarnishInst(AddrKey(addrs[i]), null);
      instances := instances + [inst];
    }
    forall a | a in AddrKeys(addrs) ensures a in AddrsOf(instances) {
      var j :| 0 <= j < |addrs| && AddrList(addrs)[j] == a;
      assert instances[j].addr == a;
    }
  }

  // ---- Comparing configurations ----

  // The dereference of a configuration that is not there.
  datatype NilSpec = NilSpec

  // The same resources in the same versions, and equal canonical forms.
  predicate SameConfig(a: VclConfig, b: VclConfig) {
    a.ings == b.ings && a.vcfg == b.vcfg && a.bcfg == b.bcfg && Canon(a.spec) == Canon(b.spec)
  }

  // Which is to say the same resources and equivalent specifications.
  lemma SameConfigExactly(a: VclConfig, b: VclConfig)
    requires ConcordantSpec(a.spec) && ConcordantSpec(b.spec)
    ensures SameConfig(a, b) <==>
      a.ings == b.ings && a.vcfg == b.vcfg && a.bcfg == b.bcfg && Equivalent(a.spec, b.spec)
  {
    CanonNormalForm(a.spec, b.spec);
  }

  // Looks up everything on one side on the other side. With equal sizes, that
  // is enough for equality.
  method AllFound(metas: map<string, Meta>, known: map<string, Meta>) returns (found: bool)
    requires |metas| == |known|
    ensures found <==> metas == known
  {
    var todo := metas.Keys;
    while todo != {}
      invariant todo <= metas.Keys
      invariant forall k :: k in metas && k !in todo ==> k in known && known[k] == metas[k]
      decreases |todo|
    {
      var k :| k in todo;
      todo := todo - {k};
      if k !in known {
        return false;
      }
      if known[k].key != metas[k].key || known[k].uid != metas[k].uid || known[k].ver != metas[k].ver {
        return false;
      }
    }
    SubmapOfSameSize(metas, known);
    return true;
  }

  lemma SubmapOfSameSize(a: map<string, Meta>, b: map<string, Meta>)
    requires |a| == |b| && forall k :: k in a ==> k in b && b[k] == a[k]
    ensures a == b
  {
    assert |b.Keys - a.Keys| == |b.Keys| - |a.Keys|;
    assert b.Keys - a.Keys == {};
  }

  // ---- The controller ----

  ghost predicate Unshared(a: seq<VarnishInst>, b: seq<VarnishInst>) {
    forall i, j :: 0 <= i < |a| && 0 <= j < |b| ==> a[i] != b[j]
  }

  class Controller {
    var svcs: map<string, VarnishSvc>
    var secrets: map<string, Secret>
    const net: Network
    const name: Naming
    const renders: Renders
    var instsGauge: int

    constructor (net: Network, name: Naming, renders: Renders)
      ensures Valid() && svcs == map[] && secrets == map[] && instsGauge == 0
      ensures this.net == net && this.name == name && this.renders == renders
    {
      this.net, this.name, this.renders := net, name, renders;
      svcs, secrets, instsGauge := map[], map[], 0;
    }

    // No two Services share an object, and the instances of one are at
    // different addresses.
    ghost predicate Valid()
      reads *
    {
      && (forall k, l :: k in svcs && l in svcs && k != l ==>
        svcs[k] != svcs[l] && Unshared(svcs[k].instances, svcs[l].instances))
      && (forall k :: k in svcs ==> DifferentAddrs(svcs[k].instances))
    }

    ghost function InstancesOf(key: string): seq<VarnishInst>
      reads this, svcs.Values
    {
      if key in svcs then svcs[key].instances else []
    }

    ghost function AddrsAt(key: string): set<string>
      reads this, svcs.Values
    {
      if key in svcs then AddrsOf(svcs[key].instances) else {}
    }

    ghost function View(): State
      reads *
    {
      State(Table(), net.at)
    }

    ghost function Table(): map<string, Svc>
      reads *
    {
      map k | k in svcs :: svcs[k].View()
    }

    // The instances are the same as before.
    twostate predicate SameInstances()
      reads *
    {
      && svcs == old(svcs)
      && forall k :: k in svcs ==> svcs[k].instances == old(svcs[k].instances)
    }

    twostate lemma StillValid()
      requires old(Valid()) && SameInstances()
      ensures Valid()
    {
    }

    // Nothing but one Service and the network was changed.
    twostate lemma OneService(key: string)
      requires key in svcs && svcs == old(svcs)[key := svcs[key]]
      requires forall k :: k in svcs && k != key ==> svcs[k].View() == old(svcs[k].View())
      ensures View() == State(old(View()).svcs[key := svcs[key].View()], net.at)
    {
      forall k | k in svcs && k != key ensures k in old(svcs) && Table()[k] == old(Table())[k] {
        assert svcs[k].View() == old(svcs[k].View());
      }
      MapUpdate(old(Table()), Table(), key);
    }

    // The objects of the other Services are what they were before.
    twostate lemma OtherServices(key: string)
      requires key in svcs && svcs == old(svcs)[key := svcs[key]]
      requires forall k :: k in svcs && k != key ==> unchanged(svcs[k]) && unchanged(svcs[k].instances)
      ensures forall k :: k in svcs && k != key ==> svcs[k].View() == old(svcs[k].View())
      ensures View() == State(old(View()).svcs[key := svcs[key].View()], net.at)
    {
      OneService(key);
    }

    twostate lemma OnlyNetwork()
      requires old(Valid()) && SameInstances()
      requires forall k :: k in svcs ==> svcs[k].View() == old(svcs[k].View())
      ensures Valid() && View() == old(View()).(at := net.at)
    {
      forall k | k in svcs ensures Table()[k] == old(Table())[k] {
        assert svcs[k].View() == old(svcs[k].View());
      }
      assert Table() == old(Table());
    }

    twostate lemma NewService(key: string)
      requires old(Valid()) && key in svcs && svcs == old(svcs)[key := svcs[key]]
      requires fresh(svcs[key]) && svcs[key].instances == []
      requires forall k :: k in old(svcs) ==> svcs[k].instances == old(svcs[k].instances)
      ensures Valid()
    {
    }

    method SyncAt(key: string) returns (failed: bool)
      requires Valid() && key in svcs
      modifies net, {svcs[key]}`cfgLoaded
      ensures Valid() && View() == State(old(View()).svcs[key := svcs[key].View()], net.at)
      ensures SvcSynced(name, renders, old(svcs[key].View()), old(net.at), svcs[key].View(), net.at, failed)
    {
      failed := SyncService(net, name, renders, svcs[key]);
      StillValid();
      MapSame(svcs, key);
      OneService(key);
    }

    method UpdateVarnishSvc(key: string) returns (failed: bool)
      requires Valid()
      modifies net, (if key in svcs then {svcs[key]} else {})`cfgLoaded
      ensures Valid() && Synced1(name, renders, old(View()), key, View(), failed)
    {
      if key !in svcs {
        return true;
      }
      ghost var was := View();
      failed := SyncAt(key);
      SyncedView(name, renders, was, key, svcs[key].View(), net.at, failed);
    }

    // The entry for a Service, which is a new one if there is none.
    method Obtain(key: string) returns (svc: VarnishSvc)
      requires Valid()
      modifies this`svcs
      ensures Valid() && svcs == old(svcs)[key := svc] && key in svcs
      ensures (key in old(svcs) && svc == old(svcs[key])) || (key !in old(svcs) && fresh(svc) && svc.instances == [])
      ensures View() == State(old(View()).svcs[key := SvcOrNew(old(View()), key)], net.at)
    {
      if key in svcs {
        svc := svcs[key];
        MapSame(svcs, key);
        MapSame(Table(), key);
        return;
      } else {
        svc := new VarnishSvc();
        svcs := svcs[key := svc];
        NewService(key);
        OneService(key);
      }
    }

    // Gives a Service a configuration, which is not loaded yet.
    method Configure(key: string, c: VclConfig) returns (svc: VarnishSvc)
      requires Valid()
      modifies this`svcs, if key in svcs then {svcs[key]} else {}
      ensures Valid() && View() == WithSpec(old(View()), key, c)
      ensures svcs == old(svcs)[key := svc] && key in svcs
      ensures (key in old(svcs) && svc == old(svcs[key])) || (key !in old(svcs) && fresh(svc))
    {
      ghost var was := View();
      svc := Obtain(key);
      ghost var now := View();
      SetSpec(key, Some(c));
      MapUpdateTwice(was.svcs, key, SvcOrNew(was, key), View().svcs[key]);
    }

    method Update(key: string, c: VclConfig) returns (failed: bool)
      requires Valid()
      modifies this`svcs, net, if key in svcs then {svcs[key]} else {}
      ensures Valid() && Updated(name, renders, old(View()), key, c, View(), failed)
    {
      ghost var was := View();
      var svc := Configure(key, c);
      assert View().svcs[key].insts == InstsOf(svc.instances);
      if |svc.instances| == 0 {
        UpdatedNow(name, renders, was, key, c, View(), true);
        return true;
      }
      failed := UpdateVarnishSvc(key);
      UpdatedNow(name, renders, was, key, c, View(), failed);
    }

    method SetSpec(key: string, spec: Option<VclConfig>)
      requires Valid() && key in svcs
      modifies svcs[key]
      ensures Valid()
      ensures View() == State(old(View()).svcs[key := old(View()).svcs[key].(spec := spec, cfgLoaded := false)], net.at)
      ensures svcs[key].instances == old(svcs[key].instances)
    {
      svcs[key].cfgLoaded := false;
      svcs[key].spec := spec;
      StillValid();
      MapSame(svcs, key);
      OtherServices(key);
      assert svcs[key].View() == old(svcs[key].View()).(spec := spec, cfgLoaded := false);
      assert old(View()).svcs[key] == old(svcs[key].View());
    }

    method SetNotReady(key: string) returns (failed: bool)
      requires Valid() && AllSafe(net.at)
      modifies net, (if key in svcs then {svcs[key]} else {})`spec
      ensures Valid() && NotReadied(old(View()), key, View(), failed)
      ensures key in svcs && !failed && net.failures == old(net.failures) ==>
        AllUnreadyAt(net.at, Addrs(View().svcs[key].insts))
    {
      if key !in svcs {
        return true;
      }
      failed := UnreadyService(net, svcs[key]);
      StillValid();
      MapSame(svcs, key);
      OneService(key);
    }

    // On Delete, the instances are set to not ready. The Service is removed if
    // that fails.
    method DeleteVarnishSvc(key: string) returns (failed: bool)
      requires Valid() && AllSafe(net.at)
      modifies this`svcs, this`instsGauge, net
      ensures Valid() && Deleted(old(View()), key, View(), failed)
      ensures key in old(svcs) ==> instsGauge == old(instsGauge) - KnownCountOf(old(View()).svcs[key].insts)
    {
      if key !in svcs {
        return false;
      }
      ghost var was := View();
      failed := RemoveInstancesOf(key);
      if failed {
        RemoveService(key);
        DeletedNow(was, key, View(), true);
      } else {
        DeletedNow(was, key, View(), false);
      }
    }

    method RemoveInstancesOf(key: string) returns (failed: bool)
      requires Valid() && AllSafe(net.at) && key in svcs
      modifies this`instsGauge, net
      ensures Valid() && View() == old(View()).(at := net.at)
      ensures UnreadiedAll(old(net.at), net.at, Addrs(old(View()).svcs[key].insts))
      ensures instsGauge == old(instsGauge) - KnownCountOf(old(View()).svcs[key].insts)
      ensures failed <==> !AllKnown(old(View()).svcs[key].insts)
    {
      AllCounted(InstsOf(svcs[key].instances), |svcs[key].instances|);
      failed := RemoveVarnishInstances(svcs[key].instances);
      OnlyNetwork();
    }

    method RemoveService(key: string)
      requires Valid()
      modifies this`svcs
      ensures Valid() && View() == WithoutService(old(View()), key)
    {
      svcs := map k | k in svcs && k != key :: svcs[k];
      StillValidWithout(key);
      OneServiceLess(key);
    }

    twostate lemma StillValidWithout(key: string)
      requires old(Valid()) && svcs.Keys == old(svcs.Keys) - {key}
      requires forall k :: k in svcs ==> svcs[k] == old(svcs[k]) && svcs[k].instances == old(svcs[k].instances)
      ensures Valid()
    {
    }

    twostate lemma OneServiceLess(key: string)
      requires svcs.Keys == old(svcs.Keys) - {key} && net.at == old(net.at)
      requires forall k :: k in svcs ==> svcs[k].View() == old(svcs[k].View())
      requires forall k :: k in svcs ==> svcs[k] == old(svcs[k])
      ensures View() == WithoutService(old(View()), key)
    {
      forall k | k in svcs ensures Table()[k] == old(Table())[k] {
        assert svcs[k].View() == old(svcs[k].View());
      }
      MapWithout(old(Table()), Table(), key);
    }

    method RemoveVarnishInstances(instances: seq<VarnishInst>) returns (failed: bool)
      requires AllSafe(net.at)
      modifies this`instsGauge, net
      ensures UnreadiedAll(old(net.at), net.at, Addrs(InstsOf(instances))) && AllSafe(net.at)
      ensures instsGauge == old(instsGauge) - KnownCountOf(InstsOf(instances))
      ensures failed <==> KnownCountOf(InstsOf(instances)) < |instances|
      ensures exists sent ::
        net.log == old(net.log) + Map(UnreadyAt, sent) && IsSubsequence(sent, InstsOf(instances), |instances|)
    {
      ghost var insts := InstsOf(instances);
      var errors;
      ghost var sent;
      errors, sent := UnreadyInstances(net, instances, true);
      UnreadiedResult(old(net.at), net.at, insts, errors, sent, true, net.failures == old(net.failures));
      instsGauge := instsGauge - (|instances| - errors);
      return errors > 0;
    }

    // What the monitor does for one of the Services.
    method MonitorService(key: string) returns (good: bool)
      requires Valid() && key in svcs
      modifies net, {svcs[key]}`cfgLoaded
      ensures Valid() && Monitored(name, renders, old(View()), key, View(), good)
    {
      ghost var was := View();
      var checked := CheckAt(key);
      ghost var at := net.at;
      var failed := UpdateVarnishSvc(key);
      MonitoredNow(name, renders, was, key, at, View(), checked, failed);
      good := checked && !failed;
    }

    method CheckAt(key: string) returns (good: bool)
      requires Valid() && key in svcs
      modifies net
      ensures Valid() && View() == old(View()).(at := net.at)
      ensures CheckedAll(old(net.at), net.at, Addrs(old(View()).svcs[key].insts))
      ensures good ==> forall i :: 0 <= i < |old(View()).svcs[key].insts| ==>
        CheckedFully(old(net.at), net.at, old(View()).svcs[key].insts[i])
    {
      AddrsOfInsts(svcs[key].instances);
      good := CheckInstances(net, svcs[key].instances);
      OnlyNetwork();
      assert InstsOf(svcs[key].instances)[..|svcs[key].instances|] == InstsOf(svcs[key].instances);
    }

    // ---- Secrets ----

    method Rekey(key: string, secrName: string, secr: Secret?)
      requires Valid() && key in svcs
      modifies {svcs[key]}`secrName, svcs[key].instances`admSecret
      ensures Valid() &&
        View() == State(old(View()).svcs[key := Rekeyed(old(View()).svcs[key], secrName, secr != null)], net.at)
      ensures Carry(svcs[key].instances, secr)
    {
      GiveSecret(svcs[key], secrName, secr);
      StillValid();
      MapSame(svcs, key);
      OtherServices(key);
    }

    twostate lemma SetUpValid(key: string)
      requires old(Valid()) && key in svcs && svcs == old(svcs)[key := svcs[key]]
      requires (key in old(svcs) && svcs[key] == old(svcs[key])) || (key !in old(svcs) && fresh(svcs[key]))
      requires forall k :: k in svcs && k != key ==> svcs[k].instances == old(svcs[k].instances)
      requires forall m :: m in svcs[key].instances ==> fresh(m) || (key in old(svcs) && m in old(svcs[key].instances))
      requires DifferentAddrs(svcs[key].instances)
      ensures Valid()
    {
      forall k | k in svcs && k != key
        ensures svcs[k] != svcs[key] && Unshared(svcs[k].instances, svcs[key].instances) &&
          Unshared(svcs[key].instances, svcs[k].instances)
      {
        forall i, j | 0 <= i < |svcs[k].instances| && 0 <= j < |svcs[key].instances|
          ensures svcs[k].instances[i] != svcs[key].instances[j]
        {
          var m := svcs[key].instances[j];
          assert m in svcs[key].instances;
          if key in old(svcs) && m in old(svcs[key].instances) {
            assert old(Unshared(svcs[k].instances, svcs[key].instances));
          }
        }
      }
    }

    // Sets up a Service that is there, and leaves the objects of the others
    // alone.
    method SetUpAt(key: string, addrs: set<string>, secrName: string, secr: Secret?) returns (failed: bool, gauge: int)
      requires Valid() && AllSafe(net.at) && key in svcs
      modifies net, svcs[key], svcs[key].instances`admSecret
      ensures SetUpWith(old(svcs[key].View()), svcs[key].View(), addrs, secrName, secr != null)
      ensures forall m :: m in svcs[key].instances ==> m in old(svcs[key].instances) || fresh(m)
      ensures forall k :: k in svcs && k != key ==> unchanged(svcs[k]) && unchanged(svcs[k].instances)
      ensures failed <==> secr == null && old(AddrsAt(key)) - addrs != {}
      ensures UnreadiedAll(old(net.at), net.at, old(AddrsAt(key)) - addrs)
      ensures gauge == GaugeChange(old(AddrsAt(key)), addrs, secr != null)
    {
      var svc := svcs[key];
      failed, gauge := SetUp(net, svc, addrs, secrName, secr);
      forall k | k in svcs && k != key ensures unchanged(svcs[k]) && unchanged(svcs[k].instances) {
        assert old(Unshared(svcs[k].instances, svcs[key].instances));
      }
    }

    twostate lemma SetUpView(key: string)
      requires old(Valid()) && key in svcs && svcs == old(svcs)
      requires forall m :: m in svcs[key].instances ==> fresh(m) || m in old(svcs[key].instances)
      requires forall k :: k in svcs && k != key ==> unchanged(svcs[k]) && unchanged(svcs[k].instances)
      requires DistinctAddrs(svcs[key].View().insts)
      ensures Valid() && View() == State(old(View()).svcs[key := svcs[key].View()], net.at)
    {
      AddrsOfInsts(svcs[key].instances);
      MapSame(svcs, key);
      SetUpValid(key);
      OtherServices(key);
    }

    method AddNew(key: string, addrs: seq<Address>, secrName: string, secr: Secret?) returns (gauge: int)
      requires Valid() && AllSafe(net.at) && key !in svcs
      modifies net, this`svcs
      ensures Valid() && key in svcs && View() == State(old(View()).svcs[key := svcs[key].View()], net.at)
      ensures SetUpWith(NEW_SVC, svcs[key].View(), AddrKeys(addrs), secrName, secr != null)
      ensures UnreadiedAll(old(net.at), net.at, {}) && gauge == |addrs|
      ensures svcs == old(svcs)[key := svcs[key]] && fresh(svcs[key])
    {
      var svc;
      svc, gauge := SetUpNew(net, addrs, secrName, secr);
      svcs := svcs[key := svc];
      NewView(key);
    }

    twostate lemma NewView(key: string)
      requires old(Valid()) && key in svcs && key !in old(svcs) && svcs == old(svcs)[key := svcs[key]]
      requires fresh(svcs[key]) && forall m :: m in svcs[key].instances ==> fresh(m)
      requires forall k :: k in svcs && k != key ==> unchanged(svcs[k]) && unchanged(svcs[k].instances)
      requires DifferentAddrs(svcs[key].instances)
      ensures Valid() && View() == State(old(View()).svcs[key := svcs[key].View()], net.at)
    {
      SetUpValid(key);
      OtherServices(key);
    }

    // By how much the number of instances is about to change.
    ghost function StepAt(key: string, listed: seq<string>, known: bool): int
      reads this, svcs.Values
    {
      if key in svcs then GaugeChange(AddrsAt(key), Keys(listed), known) else |listed|
    }

    lemma StepAtIsGaugeStep(key: string, listed: seq<string>, known: bool)
      ensures StepAt(key, listed, known) == GaugeStep(View(), key, listed, known)
    {
      if key in svcs {
        AddrsOfInsts(svcs[key].instances);
      }
    }

    // Afterwards the Service has exactly one instance for each address.
    method AddOrUpdateVarnishSvc(key: string, addrs: seq<Address>, secrName: string, loadVCL: bool)
      returns (failed: bool)
      requires Valid() && AllSafe(net.at)
      modifies this`svcs, this`instsGauge, net, if key in svcs then {svcs[key]} else {}, InstancesOf(key)`admSecret
      ensures Valid()
      ensures AddedOrUpdated(
        name, renders, old(View()), key, AddrKeys(addrs), secrName, secrName in old(secrets), loadVCL, View(), failed)
      ensures instsGauge == old(instsGauge) + old(StepAt(key, AddrList(addrs), secrName in secrets))
    {
      ghost var was, keys, known := View(), AddrKeys(addrs), secrName in secrets;
      var dropFailed := Place(key, addrs, secrName);
      ghost var gauge := instsGauge;
      failed := LoadIf(key, loadVCL, dropFailed, was, keys, secrName, known);
      assert instsGauge == gauge;
    }

    method Count(change: int)
      requires Valid()
      modifies this`instsGauge
      ensures Valid() && View() == old(View()) && instsGauge == old(instsGauge) + change
    {
      instsGauge := instsGauge + change;
      OnlyNetwork();
    }

    method LoadIf(
        key: string, loadVCL: bool, dropFailed: bool, ghost was: State, ghost addrs: set<string>,
        ghost secrName: string, ghost known: bool)
      returns (failed: bool)
      requires Valid() && key in svcs && Readdressed(was, key, addrs, secrName, known, View())
      requires dropFailed <==> !known && Dropped(was, key, addrs) != {}
      modifies net, {svcs[key]}`cfgLoaded
      ensures Valid() && AddedOrUpdated(name, renders, was, key, addrs, secrName, known, loadVCL, View(), failed)
    {
      ghost var now := View();
      if !loadVCL {
        AddedOnly(name, renders, was, key, addrs, secrName, known, now);
        return dropFailed;
      }
      var e := UpdateVarnishSvc(key);
      AddedNow(name, renders, was, key, addrs, secrName, known, now, View(), e);
      failed := e || dropFailed;
    }

    method Place(key: string, addrs: seq<Address>, secrName: string) returns (failed: bool)
      requires Valid() && AllSafe(net.at)
      modifies this`svcs, this`instsGauge, net, if key in svcs then {svcs[key]} else {}, InstancesOf(key)`admSecret
      ensures Valid() && key in svcs
      ensures (key in old(svcs) && svcs[key] == old(svcs[key])) || (key !in old(svcs) && fresh(svcs[key]))
      ensures Readdressed(old(View()), key, AddrKeys(addrs), secrName, secrName in old(secrets), View())
      ensures failed <==> secrName !in old(secrets) && Dropped(old(View()), key, AddrKeys(addrs)) != {}
      ensures instsGauge == old(instsGauge) + old(StepAt(key, AddrList(addrs), secrName in secrets))
    {
      var secr := if secrName in secrets then secrets[secrName] else null;
      if key in svcs {
        failed := PlaceOld(key, AddrKeys(addrs), secrName, secr);
      } else {
        PlaceNew(key, addrs, secrName, secr);
        failed := false;
        assert Addrs([]) == {};
      }
    }

    method PlaceOld(key: string, addrs: set<string>, secrName: string, secr: Secret?) returns (failed: bool)
      requires Valid() && AllSafe(net.at) && key in svcs
      modifies net, this`instsGauge, svcs[key], svcs[key].instances`admSecret
      ensures Valid() && Readdressed(old(View()), key, addrs, secrName, secr != null, View())
      ensures failed <==> secr == null && Dropped(old(View()), key, addrs) != {}
      ensures instsGauge == old(instsGauge) + GaugeChange(old(AddrsAt(key)), addrs, secr != null)
    {
      ghost var was := View();
      AddrsOfInsts(svcs[key].instances);
      var gauge;
      failed, gauge := SetUpAt(key, addrs, secrName, secr);
      SetUpView(key);
      ReaddressedNow(was, key, addrs, secrName, secr != null, svcs[key].View(), net.at);
      Count(gauge);
    }

    method PlaceNew(key: string, addrs: seq<Address>, secrName: string, secr: Secret?)
      requires Valid() && AllSafe(net.at) && key !in svcs
      modifies net, this`svcs, this`instsGauge
      ensures Valid() && Readdressed(old(View()), key, AddrKeys(addrs), secrName, secr != null, View())
      ensures key in svcs && fresh(svcs[key])
      ensures instsGauge == old(instsGauge) + |addrs|
    {
      ghost var was := View();
      var gauge := AddNew(key, addrs, secrName, secr);
      assert {} - AddrKeys(addrs) == {};
      ReaddressedNow(was, key, AddrKeys(addrs), secrName, secr != null, svcs[key].View(), net.at);
      Count(gauge);
    }

    // A Secret that is not known counts as none.
    method UpdateSvcForSecret(key: string, secretKey: string) returns (failed: bool)
      requires Valid()
      modifies this`svcs, net, if key in svcs then {svcs[key]} else {}, InstancesOf(key)`admSecret
      ensures Valid() && Secreted(name, renders, old(View()), key, secretKey, secretKey in old(secrets), View(), failed)
    {
      ghost var was := View();
      var secretName, secr := secretKey, null;
      if secretKey in secrets {
        secr := secrets[secretKey];
      } else {
        secretName := "";
      }
      if key !in svcs && secr == null {
        return false;
      }
      RekeyOrNew(key, secretName, secr);
      failed := UpdateVarnishSvc(key);
      SecretedNow(name, renders, was, key, secretKey, secr != null, View(), failed);
    }

    method RekeyOrNew(key: string, secrName: string, secr: Secret?)
      requires Valid()
      modifies this`svcs, (if key in svcs then {svcs[key]} else {})`secrName, InstancesOf(key)`admSecret
      ensures Valid() && key in svcs && svcs == old(svcs)[key := svcs[key]]
      ensures View() ==
        State(old(View()).svcs[key := Rekeyed(SvcOrNew(old(View()), key), secrName, secr != null)], net.at)
      ensures Carry(svcs[key].instances, secr)
      ensures (key in old(svcs) && svcs[key] == old(svcs[key])) || (key !in old(svcs) && fresh(svcs[key]))
    {
      ghost var was := View();
      var svc := Obtain(key);
      assert svc.instances == old(InstancesOf(key));
      Rekey(key, secrName, secr);
      MapUpdateTwice(was.svcs, key, SvcOrNew(was, key), View().svcs[key]);
    }

    // Whether a configuration is loaded everywhere. Nobody asks if there is one
    // before it is compared.
    method HasConfig(key: string, c: VclConfig) returns (r: Result<bool, NilSpec>)
      requires Valid()
      ensures r.Err? <==> AsksForNil(View(), key)
      ensures r.Ok? ==>
        (r.value <==> key in svcs && svcs[key].cfgLoaded && SameConfig(svcs[key].spec.value, c))
    {
      if key !in svcs || !svcs[key].cfgLoaded {
        return Ok(false);
      }
      if svcs[key].spec.None? {
        return Err(NilSpec);
      }
      var spec := svcs[key].spec.value;
      if |c.ings| != |spec.ings| || |c.bcfg| != |spec.bcfg| {
        return Ok(false);
      }
      if c.vcfg.key != spec.vcfg.key || c.vcfg.uid != spec.vcfg.uid || c.vcfg.ver != spec.vcfg.ver {
        return Ok(false);
      }
      var found := AllFound(c.ings, spec.ings);
      if !found {
        return Ok(false);
      }
      found := AllFound(c.bcfg, spec.bcfg);
      if !found {
        return Ok(false);
      }
      return Ok(Canon(spec.spec) == Canon(c.spec));
    }

    method SetAdmSecret(key: string, secret: seq<uint8>)
      modifies this`secrets, secrets.Values
      ensures key in secrets && secrets == old(secrets)[key := secrets[key]]
      ensures key in old(secrets) ==>
        secrets[key] == old(secrets[key]) && secrets[key].data == Overlaid(old(secrets[key].data), secret)
      ensures key !in old(secrets) ==> fresh(secrets[key]) && secrets[key].data == secret
    {
      if key !in secrets {
        var secr := new Secret(seq(|secret|, _ => 0));
        secrets := secrets[key := secr];
      } else {
        MapSame(secrets, key);
      }
      secrets[key].data := Overlaid(secrets[key].data, secret);
    }

    method DeleteAdmSecret(key: string)
      modifies this`secrets
      ensures secrets == map k | k in old(secrets) && k != key :: old(secrets)[k]
    {
      secrets := map k | k in secrets && k != key :: secrets[k];
    }
  }

  // Copies as many bytes as there are in both.
  function Overlaid(data: seq<uint8>, secret: seq<uint8>): seq<uint8> {
    if |secret| <= |data| then secret + data[|secret|..] else secret[..|data|]
  }

  // A Secret that is changed is stored as it is only if its length stays the
  // same.
  lemma SecretStoredExactly(data: seq<uint8>, secret: seq<uint8>)
    ensures Overlaid(data, secret) == secret <==> |secret| == |data|
    ensures |Overlaid(data, secret)| == |data|
    ensures forall i :: 0 <= i < |data| ==> Overlaid(data, secret)[i] == if i < |secret| then secret[i] else data[i]
  {
    if |secret| == |data| {
      assert secret + data[|secret|..] == secret;
    }
  }

  lemma MapSame<V>(m: map<string, V>, key: string)
    requires key in m
    ensures m == m[key := m[key]]
  {
  }

  lemma MapUpdateTwice<V>(m: map<string, V>, key: string, v: V, w: V)
    ensures m[key := v][key := w] == m[key := w]
  {
  }

  lemma MapWithout<V>(was: map<string, V>, now: map<string, V>, key: string)
    requires now.Keys == was.Keys - {key} && forall k :: k in now ==> now[k] == was[k]
    ensures now == map k | k in was && k != key :: was[k]
  {
  }

  lemma MapUpdate<V>(was: map<string, V>, now: map<string, V>, key: string)
    requires key in now && now.Keys == was.Keys + {key}
    requires forall k :: k in now && k != key ==> now[k] == was[k]
    ensures now == was[key := now[key]]
  {
  }

  lemma SecretedNow(
      name: Naming, renders: Renders, s: State, key: string, secrName: string, known: bool, s': State, failed: bool)
    requires key in s.svcs || known
    requires var t := s.(svcs := s.svcs[key := Rekeyed(SvcOrNew(s, key), if known then secrName else "", known)]);
      Synced1(name, renders, t, key, s', failed)
    ensures Secreted(name, renders, s, key, secrName, known, s', failed)
  {
  }

  lemma ReaddressedNow(
      s: State, key: string, addrs: set<string>, secrName: string, known: bool, svc: Svc, at: map<string, Varnish>)
    requires SetUpWith(SvcOrNew(s, key), svc, addrs, secrName, known)
    requires UnreadiedAll(s.at, at, Addrs(SvcOrNew(s, key).insts) - addrs)
    ensures Readdressed(s, key, addrs, secrName, known, State(s.svcs[key := svc], at))
  {
  }

  lemma AddedNow(
      name: Naming, renders: Renders, s: State, key: string, addrs: set<string>, secrName: string, known: bool,
      t: State, s': State, failed: bool)
    requires Readdressed(s, key, addrs, secrName, known, t) && Synced1(name, renders, t, key, s', failed)
    ensures AddedOrUpdated(
      name, renders, s, key, addrs, secrName, known, true, s', failed || (!known && Dropped(s, key, addrs) != {}))
  {
    assert LoadedIf(name, renders, t, key, true, s', failed);
  }

  lemma AddedOnly(
      name: Naming, renders: Renders, s: State, key: string, addrs: set<string>, secrName: string, known: bool,
      t: State)
    requires Readdressed(s, key, addrs, secrName, known, t)
    ensures AddedOrUpdated(
      name, renders, s, key, addrs, secrName, known, false, t, !known && Dropped(s, key, addrs) != {})
  {
    assert LoadedIf(name, renders, t, key, false, t, false);
  }

  lemma MonitoredNow(
      name: Naming, renders: Renders, s: State, key: string, at: map<string, Varnish>, s': State, checked: bool,
      failed: bool)
    requires key in s.svcs && CheckedAll(s.at, at, Addrs(s.svcs[key].insts))
    requires checked ==> forall i :: 0 <= i < |s.svcs[key].insts| ==> CheckedFully(s.at, at, s.svcs[key].insts[i])
    requires Synced1(name, renders, s.(at := at), key, s', failed)
    ensures Monitored(name, renders, s, key, s', checked && !failed)
  {
  }

  lemma DeletedNow(s: State, key: string, s': State, failed: bool)
    requires key in s.svcs && UnreadiedAll(s.at, s'.at, Addrs(s.svcs[key].insts)) &&
      (failed <==> !AllKnown(s.svcs[key].insts))
    requires s' == if failed then WithoutService(s.(at := s'.at), key) else s.(at := s'.at)
    ensures Deleted(s, key, s', failed)
  {
  }

  lemma UpdatedNow(name: Naming, renders: Renders, s: State, key: string, c: VclConfig, s': State, failed: bool)
    requires if SvcOrNew(s, key).insts == [] then s' == WithSpec(s, key, c) && failed
      else Synced1(name, renders, WithSpec(s, key, c), key, s', failed)
    ensures Updated(name, renders, s, key, c, s', failed)
  {
  }

  lemma SyncedView(
      name: Naming, renders: Renders, s: State, key: string, svc: Svc, at: map<string, Varnish>, failed: bool)
    requires key in s.svcs && SvcSynced(name, renders, s.svcs[key], s.at, svc, at, failed)
    ensures Synced1(name, renders, s, key, State(s.svcs[key := svc], at), failed)
  {
  }
}
