// What the controller does at one Varnish instance.
module Instances {
  import opened Prelude
  import opened StableSort
  import opened DeepHash
  import opened Varnishd
  import opened Protocol

  // The contents of a Secret. Instances and the table of Secrets refer to the
  // same one.
  class Secret {
    var data: seq<uint8>

    constructor (data: seq<uint8>)
      ensures this.data == data
    {
      this.data := data;
    }
  }

  class VarnishInst {
    const addr: string
    var admSecret: Secret?

    constructor (addr: string, admSecret: Secret?)
      ensures this.addr == addr && this.admSecret == admSecret
    {
      this.addr := addr;
      this.admSecret := admSecret;
    }
  }

  datatype Listed = Listed(name: string, vcl: VCL)

  ghost predicate Lists(list: seq<Listed>, v: Varnish) {
    && (forall i :: 0 <= i < |list| ==> list[i].name in v && v[list[i].name] == list[i].vcl)
    && (forall i, j :: 0 <= i < j < |list| ==> list[i].name != list[j].name)
    && (forall k :: k in v ==> Listed(k, v[k]) in list)
  }

  // The instances by their addresses, the commands sent to them so far, and
  // the number of times that something failed that need not have.
  class Network {
    var at: map<string, Varnish>
    var log: seq<(string, Command)>
    var failures: nat

    constructor ()
      ensures at == map[] && log == [] && failures == 0
    {
      at, log, failures := map[], [], 0;
    }

    // Connecting, and everything else that changes nothing and may fail.
    method Ask(addr: string) returns (ok: bool)
      modifies this
      ensures at == old(at) && log == old(log) && (ok ==> addr in at)
      ensures failures == old(failures) + if addr in at && !ok then 1 else 0
    {
      ok := *;
      if addr !in at {
        ok := false;
      } else if !ok {
        failures := failures + 1;
      }
    }

    method VCLList(addr: string) returns (r: Option<seq<Listed>>)
      requires addr in at
      modifies this
      ensures at == old(at) && log == old(log) && failures == old(failures) + if r.None? then 1 else 0
      ensures r.Some? ==> Lists(r.value, at[addr])
    {
      var ok := Ask(addr);
      if !ok {
        return None;
      }
      var list: seq<Listed>, todo := [], at[addr].Keys;
      while todo != {}
        invariant todo <= at[addr].Keys && at == old(at) && log == old(log) && failures == old(failures)
        invariant forall i :: 0 <= i < |list| ==>
          list[i].name in at[addr] && list[i].name !in todo && at[addr][list[i].name] == list[i].vcl
        invariant forall i, j :: 0 <= i < j < |list| ==> list[i].name != list[j].name
        invariant forall k :: k in at[addr] && k !in todo ==> Listed(k, at[addr][k]) in list
        decreases |todo|
      {
        var k :| k in todo;
        list, todo := list + [Listed(k, at[addr][k])], todo - {k};
      }
      return Some(list);
    }

    method Send(addr: string, c: Command) returns (reply: Reply)
      requires addr in at
      modifies this
      ensures addr in at && at == old(at)[addr := at[addr]] && Executed(old(at[addr]), c, at[addr], reply)
      ensures log == old(log) + [(addr, c)]
      ensures failures == old(failures) + if !reply.Done? && Permitted(old(at[addr]), c) then 1 else 0
    {
      log := log + [(addr, c)];
      ghost var permitted := Permitted(at[addr], c);
      var possible := IsPermitted(at[addr], c);
      assert at == at[addr := at[addr]];
      var choice: int := *;
      reply :=
        if choice == 0 then Refused
        else if choice == 1 then EOF
        else if choice == 2 then Timeout
        else if possible then Done
        else Refused;
      if reply.Done? {
        at := at[addr := Apply(at[addr], c)];
      } else if possible {
        var anyway: bool := *;
        if anyway && !reply.Refused? {
          at := at[addr := Apply(at[addr], c)];
        }
        failures := failures + 1;
      }
    }

    method IsPermitted(v: Varnish, c: Command) returns (b: bool)
      ensures b == Permitted(v, c)
    {
      match c {
        case Inline(name) => b := name !in v;
        case SetLabel(lbl, cfg) => b := Loaded(v, cfg) && !Loaded(v, lbl);
        case Discard(name) =>
          b := Loaded(v, name) && name != BOOT && forall lbl :: lbl in v ==> v[lbl] != Label(name);
          assert forall lbl :: lbl in v && v[lbl] == Label(name) ==> Labelled(v, lbl, name);
      }
    }
  }

  // ---- Update ----

  function If(b: bool, c: Command): seq<Command> {
    if b then [c] else []
  }

  // The commands of the first k steps of an update, given what is there, and
  // what they lead to: loading, labelling, and making ready.
  function Commands(v: Varnish, cfg: string, k: nat): seq<Command> {
    If(k > 0 && cfg !in v, Inline(cfg)) + If(k > 1 && !Labelled(v, REGULAR, cfg), SetLabel(REGULAR, cfg))
      + If(k > 2 && !Labelled(v, READINESS, READY), SetLabel(READINESS, READY))
  }

  function After(v: Varnish, cfg: string, k: nat): Varnish {
    var v1 := if k > 0 && cfg !in v then v[cfg := Config(false)] else v;
    var v2 := if k > 1 then v1[REGULAR := Label(cfg)] else v1;
    if k > 2 then v2[READINESS := Label(READY)] else v2
  }

  function Synced(v: Varnish, cfg: string): Varnish {
    After(v, cfg, 3)
  }

  function To(addr: string): Command -> (string, Command) {
    (c: Command) => (addr, c)
  }

  datatype Failure = NoSecret | NoConnection | NoList | CommandFailed(reply: Reply)

  // The command of one step of an update.
  function StepCommand(cfg: string, k: nat): Command
    requires k < 3
  {
    match k case 0 => Inline(cfg) case 1 => SetLabel(REGULAR, cfg) case 2 => SetLabel(READINESS, READY)
  }

  predicate Needed(v: Varnish, cfg: string, k: nat)
    requires k < 3
  {
    match k case 0 => cfg !in v case 1 => !Labelled(v, REGULAR, cfg) case 2 => !Labelled(v, READINESS, READY)
  }

  lemma StepApplies(v: Varnish, cfg: string, k: nat)
    requires k < 3 && IsIng(cfg)
    ensures Needed(v, cfg, k) ==> After(v, cfg, k + 1) == Apply(After(v, cfg, k), StepCommand(cfg, k))
    ensures !Needed(v, cfg, k) ==> After(v, cfg, k + 1) == After(v, cfg, k)
    ensures Commands(v, cfg, k + 1) == Commands(v, cfg, k) + If(Needed(v, cfg, k), StepCommand(cfg, k))
  {
    NamesApart(cfg);
    var now := After(v, cfg, k);
    match k {
      case 0 =>
      case 1 => assert Labelled(v, REGULAR, cfg) ==> now[REGULAR := Label(cfg)] == now;
      case 2 => assert Labelled(v, READINESS, READY) ==> now[READINESS := Label(READY)] == now;
    }
  }

  // Nothing that is done in this order can be refused for what is there.
  lemma {:induction false} AfterIsSound(v: Varnish, cfg: string, k: nat)
    requires Sound(v) && IsIng(cfg) && k <= 3
    ensures Sound(After(v, cfg, k))
    ensures k < 3 && Needed(v, cfg, k) ==> Permitted(After(v, cfg, k), StepCommand(cfg, k))
  {
    NamesApart(cfg);
    if k > 0 {
      AfterIsSound(v, cfg, k - 1);
      StepApplies(v, cfg, k - 1);
    }
  }

  // How far an update got: n of its steps are done, and the commands of m of
  // them were sent.
  ghost predicate Reached(
    at0: map<string, Varnish>, log0: seq<(string, Command)>, at: map<string, Varnish>, log: seq<(string, Command)>,
    addr: string, cfg: string, n: nat, m: nat)
  {
    && addr in at0 && n <= m <= n + 1 && m <= 3
    && at == at0[addr := After(at0[addr], cfg, n)]
    && log == log0 + Map(To(addr), Commands(at0[addr], cfg, m))
  }

  lemma ReachedStart(at: map<string, Varnish>, log: seq<(string, Command)>, addr: string, cfg: string)
    requires addr in at
    ensures Reached(at, log, at, log, addr, cfg, 0, 0)
  {
    assert at[addr := at[addr]] == at;
    assert log + Map(To(addr), []) == log;
  }

  lemma ReachedNext(at: map<string, Varnish>, log: seq<(string, Command)>, addr: string, cfg: string, k: nat,
      needed: bool)
    requires k < 3 && IsIng(cfg) && addr in at && needed == Needed(at[addr], cfg, k)
    ensures Map(To(addr), Commands(at[addr], cfg, k + 1))
      == Map(To(addr), Commands(at[addr], cfg, k)) + if needed then [(addr, StepCommand(cfg, k))] else []
  {
    StepApplies(at[addr], cfg, k);
  }

  // One step of an update. After a failure the command may have been carried
  // out or not.
  method DoStep(net: Network, addr: string, cfg: string, needed: bool, k: nat,
                ghost at: map<string, Varnish>, ghost log: seq<(string, Command)>)
    returns (reply: Reply, ghost n: nat)
    requires k < 3 && IsIng(cfg) && addr in at && needed == Needed(at[addr], cfg, k)
    requires Reached(at, log, net.at, net.log, addr, cfg, k, k)
    modifies net
    ensures Reached(at, log, net.at, net.log, addr, cfg, n, k + 1)
    ensures net.failures >= old(net.failures) && (reply.Done? ==> n == k + 1)
    ensures Sound(at[addr]) && !reply.Done? ==> net.failures > old(net.failures)
  {
    StepApplies(at[addr], cfg, k);
    ReachedNext(at, log, addr, cfg, k, needed);
    n := k + 1;
    if !needed {
      return Done, n;
    }
    if Sound(at[addr]) {
      AfterIsSound(at[addr], cfg, k);
    }
    reply := net.Send(addr, StepCommand(cfg, k));
    n := if net.at[addr] == After(at[addr], cfg, k + 1) then k + 1 else k;
  }

  // What an update finds out from the list.
  method Examine(list: seq<Listed>, cfg: string, ghost v: Varnish) returns (loaded: bool, labelled: bool, ready: bool)
    requires Lists(list, v)
    ensures loaded == (cfg in v) && labelled == Labelled(v, REGULAR, cfg) && ready == Labelled(v, READINESS, READY)
  {
    loaded, labelled, ready := false, false, false;
    for i := 0 to |list|
      invariant loaded <==> exists j :: 0 <= j < i && list[j].name == cfg
      invariant labelled <==> exists j :: 0 <= j < i && list[j] == Listed(REGULAR, Label(cfg))
      invariant ready <==> exists j :: 0 <= j < i && list[j] == Listed(READINESS, Label(READY))
    {
      var vcl := list[i];
      if vcl.name == cfg {
        loaded := true;
      }
      if vcl.vcl == Label(cfg) && vcl.name == REGULAR {
        labelled := true;
      }
      if vcl.vcl == Label(READY) && vcl.name == READINESS {
        ready := true;
      }
    }
  }

  // An update carries out its steps in order, and stops at the first one
  // that fails.
  method UpdateVarnishInstance(net: Network, inst: VarnishInst, cfg: string)
    returns (e: Option<Failure>, ghost n: nat, ghost m: nat)
    requires IsIng(cfg)
    modifies net
    ensures inst.admSecret == null ==> e == Some(NoSecret)
    ensures if e.None? || e.value.CommandFailed?
      then Reached(old(net.at), old(net.log), net.at, net.log, inst.addr, cfg, n, m)
      else net.at == old(net.at) && net.log == old(net.log)
    ensures e.None? ==> n == 3
    ensures net.failures >= old(net.failures)
    ensures e.Some? && inst.admSecret != null && inst.addr in old(net.at) && Sound(old(net.at[inst.addr])) ==>
      net.failures > old(net.failures)
  {
    n, m := 0, 0;
    if inst.admSecret == null {
      return Some(NoSecret), n, m;
    }
    var ok := net.Ask(inst.addr);
    if !ok {
      return Some(NoConnection), n, m;
    }
    ghost var at, log := net.at, net.log;
    ReachedStart(at, log, inst.addr, cfg);
    var vcls := net.VCLList(inst.addr);
    if vcls.None? {
      return Some(NoList), n, m;
    }
    var loaded, labelled, ready := Examine(vcls.value, cfg, at[inst.addr]);
    var reply;
    reply, n := DoStep(net, inst.addr, cfg, !loaded, 0, at, log);
    if !reply.Done? {
      return Some(CommandFailed(reply)), n, 1;
    }
    reply, n := DoStep(net, inst.addr, cfg, !labelled, 1, at, log);
    if !reply.Done? {
      return Some(CommandFailed(reply)), n, 2;
    }
    reply, n := DoStep(net, inst.addr, cfg, !ready, 2, at, log);
    m := 3;
    if !reply.Done? {
      return Some(CommandFailed(reply)), n, m;
    }
    return None, n, m;
  }

  // An update that is done has the effect it is meant to, and leaves nothing
  // for another one to do.
  lemma SyncedExactly(v: Varnish, cfg: string)
    requires Sound(v) && IsIng(cfg)
    ensures Loaded(Synced(v, cfg), cfg) && Labelled(Synced(v, cfg), REGULAR, cfg) &&
      Labelled(Synced(v, cfg), READINESS, READY)
    ensures forall k :: k in v && k !in {cfg, REGULAR, READINESS} ==> k in Synced(v, cfg) && Synced(v, cfg)[k] == v[k]
    ensures Safe(Synced(v, cfg)) && forall k :: Commands(Synced(v, cfg), cfg, k) == []
    ensures Synced(Synced(v, cfg), cfg) == Synced(v, cfg)
  {
    NamesApart(cfg);
    AfterIsSound(v, cfg, 3);
  }

  // Wherever an update stops, a safe instance is still safe, and one that
  // serves still serves.
  lemma AfterIsSafe(v: Varnish, cfg: string, k: nat)
    requires Safe(v) && IsIng(cfg) && k <= 3
    ensures Safe(After(v, cfg, k)) && (Serves(v) ==> Serves(After(v, cfg, k)))
  {
    NamesApart(cfg);
    AfterIsSound(v, cfg, k);
  }

  // The commands are those of an update session, one after the other.
  function Script(s: Session): seq<Command> {
    match s
    case Loading(cfg, labelled, ready) =>
      [Inline(cfg)] + If(!labelled, SetLabel(REGULAR, cfg)) + If(!ready, SetLabel(READINESS, READY))
    case Labelling(cfg, ready) => [SetLabel(REGULAR, cfg)] + If(!ready, SetLabel(READINESS, READY))
    case Readying(_) => [SetLabel(READINESS, READY)]
    case _ => []
  }

  lemma ScriptOfSession(v: Varnish, cfg: string, s: Session)
    requires AfterList(v, Listing(cfg), s)
    ensures Script(s) == Commands(v, cfg, 3)
  {
  }

  lemma ScriptStep(s: Session)
    requires s.Loading? || s.Labelling? || s.Readying?
    ensures Script(s) == [CommandOf(s)] + Script(AfterDone(s))
  {
  }

  // ---- Labels ----

  // What became of setting a label, and whether that is reported as an error.
  datatype Outcome = NoKnownSecret | NotConnected | Replied(reply: Reply)

  predicate Reported(o: Outcome, mayClose: bool) {
    match o
    case NoKnownSecret => true
    case NotConnected => !mayClose
    case Replied(reply) => reply.EOF? && !mayClose
  }

  method SetCfgLabel(net: Network, inst: VarnishInst, cfg: string, lbl: string, mayClose: bool)
    returns (failed: bool, ghost o: Outcome)
    modifies net
    ensures failed == Reported(o, mayClose)
    ensures failed <==> inst.admSecret == null || (!mayClose && (o == NotConnected || o == Replied(EOF)))
    ensures o.NoKnownSecret? <==> inst.admSecret == null
    ensures !o.Replied? ==> net.at == old(net.at) && net.log == old(net.log)
    ensures o.Replied? ==>
      inst.addr in old(net.at) && inst.addr in net.at && net.at == old(net.at)[inst.addr := net.at[inst.addr]]
    ensures o.Replied? ==> Executed(old(net.at[inst.addr]), SetLabel(lbl, cfg), net.at[inst.addr], o.reply)
    ensures o.Replied? ==> net.log == old(net.log) + [(inst.addr, SetLabel(lbl, cfg))]
    ensures net.failures >= old(net.failures)
    ensures net.failures == old(net.failures) && inst.admSecret != null && inst.addr in old(net.at) ==>
      o.Replied? && (Permitted(old(net.at[inst.addr]), SetLabel(lbl, cfg)) ==> o.reply.Done?)
  {
    if inst.admSecret == null {
      return true, NoKnownSecret;
    }
    var ok := net.Ask(inst.addr);
    if !ok {
      return !mayClose, NotConnected;
    }
    var reply := net.Send(inst.addr, SetLabel(lbl, cfg));
    if reply.EOF? {
      return !mayClose, Replied(reply);
    }
    return false, Replied(reply);
  }

  // An error that is not the end of the connection is never reported. So an
  // instance can go on being ready without anybody noticing, exactly if it was
  // ready before.
  lemma NotReadyUnnoticed(v: Varnish, mayClose: bool)
    ensures (exists v', reply ::
        && Executed(v, SetLabel(READINESS, NOT_AVAILABLE), v', reply) && !Reported(Replied(reply), mayClose)
        && Labelled(v', READINESS, READY))
      <==> Labelled(v, READINESS, READY)
  {
    if Labelled(v, READINESS, READY) {
      assert Executed(v, SetLabel(READINESS, NOT_AVAILABLE), v, Refused);
    }
  }

  // But if a reply was good, or nothing failed, the label is where it should be.
  lemma NotReadyExactly(v: Varnish, v': Varnish, reply: Reply)
    requires Safe(v) && Executed(v, SetLabel(READINESS, NOT_AVAILABLE), v', reply)
    ensures Safe(v') && (Serves(v) <==> Serves(v'))
    ensures Permitted(v, SetLabel(READINESS, NOT_AVAILABLE))
    ensures reply.Done? ==> Route(v', "k8s", "/ready") == Synth(503)
  {
  }

  // ---- Monitoring ----

  function Minus(v: Varnish, gone: set<string>): Varnish {
    map k | k in v && k !in gone :: v[k]
  }

  ghost predicate Discardable(v: Varnish, gone: set<string>) {
    gone <= ColdConfigs(v) && forall k :: k in gone ==> !InUse(v, k)
  }

  lemma DiscardNext(v: Varnish, gone: set<string>, name: string)
    requires Discardable(v, gone) && name in ColdConfigs(v)
    ensures Apply(Minus(v, gone), Discard(name)) == Minus(v, gone + {name})
    ensures Permitted(Minus(v, gone), Discard(name)) ==> Discardable(v, gone + {name})
  {
    forall lbl | Labelled(v, lbl, name) ensures InUse(Minus(v, gone), name) {
      assert Labelled(Minus(v, gone), lbl, name);
    }
  }

  lemma DiscardedIsSafe(v: Varnish, gone: set<string>)
    requires Safe(v) && Discardable(v, gone)
    ensures Safe(Minus(v, gone))
    ensures forall lbl, cfg :: Labelled(v, lbl, cfg) <==> Labelled(Minus(v, gone), lbl, cfg)
    ensures Serves(v) <==> Serves(Minus(v, gone))
  {
    forall k | k in gone ensures k !in {REGULAR, READINESS, READY, NOT_AVAILABLE, BOOT} {
      NamesApart(k);
    }
    forall lbl | lbl in v && v[lbl].Label? ensures v[lbl].cfg !in gone {
      assert Labelled(v, lbl, v[lbl].cfg);
    }
  }

  // A check discards what is listed as cold. Only if it did so with all of it,
  // the check is good.
  method CheckInst(net: Network, inst: VarnishInst) returns (good: bool, ghost gone: set<string>)
    modifies net
    ensures inst.admSecret == null || inst.addr !in old(net.at) ==> !good && gone == {} && net.at == old(net.at)
    ensures inst.addr in old(net.at) ==>
      net.at == old(net.at)[inst.addr := Minus(old(net.at[inst.addr]), gone)] &&
        Discardable(old(net.at[inst.addr]), gone)
    ensures good ==> gone == ColdConfigs(old(net.at[inst.addr]))
  {
    gone := {};
    ghost var at := net.at;
    if inst.addr in at {
      assert Minus(at[inst.addr], {}) == at[inst.addr] && at[inst.addr := at[inst.addr]] == at;
    }
    if inst.admSecret == null {
      return false, gone;
    }
    var connected := net.Ask(inst.addr);
    if !connected {
      return false, gone;
    }
    var pong := net.Ask(inst.addr);
    if !pong {
      return false, gone;
    }
    var status := net.Ask(inst.addr);
    if !status {
      return false, gone;
    }
    var panics := net.Ask(inst.addr);
    if !panics {
      return false, gone;
    }
    var vcls := net.VCLList(inst.addr);
    if vcls.None? {
      return false, gone;
    }
    good, gone := DiscardCold(net, inst.addr, vcls.value);
  }

  method DiscardCold(net: Network, addr: string, vcls: seq<Listed>) returns (good: bool, ghost gone: set<string>)
    requires addr in net.at && Lists(vcls, net.at[addr])
    modifies net
    ensures net.at == old(net.at)[addr := Minus(old(net.at[addr]), gone)] && Discardable(old(net.at[addr]), gone)
    ensures good ==> gone == ColdConfigs(old(net.at[addr]))
  {
    gone := {};
    ghost var at, v := net.at, net.at[addr];
    assert Minus(v, {}) == v && at[addr := v] == at;
    for i := 0 to |vcls|
      invariant net.at == at[addr := Minus(v, gone)] && Discardable(v, gone)
      invariant forall k :: k in gone <==> k in ColdConfigs(v) && exists j :: 0 <= j < i && vcls[j].name == k
    {
      var vcl := vcls[i];
      if IsIng(vcl.name) && vcl.vcl == Config(true) {
        DiscardNext(v, gone, vcl.name);
        var reply := net.Send(addr, Discard(vcl.name));
        if !reply.Done? {
          if net.at[addr] != Minus(v, gone) {
            gone := gone + {vcl.name};
          }
          return false, gone;
        }
        gone := gone + {vcl.name};
      }
    }
    forall k | k in ColdConfigs(v) ensures k in gone {
      assert Listed(k, v[k]) in vcls;
    }
    return true, gone;
  }
}
