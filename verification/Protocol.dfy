// Any number of sessions of the controller with one Varnish instance, whose
// commands come in any order, while the instance may restart at any time.
module Protocol {
  import opened DeepHash
  import opened Varnishd

  // The next thing that a session does. The first four are the steps of an
  // update, and the last three those of a check by the monitor, which keeps
  // account of the configurations it found cold and of those loaded since.
  datatype Session =
    | Listing(cfg: string)
    | Loading(cfg: string, labelled: bool, ready: bool)
    | Labelling(cfg: string, ready: bool)
    | Readying(cfg: string)
    | Unreadying
    | Checking
    | Discarding(todo: seq<string>, cold: set<string>, since: set<string>)
    | Checked(cold: set<string>, since: set<string>)
    | Closed

  predicate Sends(s: Session) {
    s.Loading? || s.Labelling? || s.Readying? || s.Unreadying? || (s.Discarding? && s.todo != [])
  }

  function CommandOf(s: Session): Command
    requires Sends(s)
  {
    match s
    case Loading(cfg, _, _) => Inline(cfg)
    case Labelling(cfg, _) => SetLabel(REGULAR, cfg)
    case Readying(_) => SetLabel(READINESS, READY)
    case Unreadying => SetLabel(READINESS, NOT_AVAILABLE)
    case Discarding(todo, _, _) => Discard(todo[0])
  }

  // What is left of an update.
  function Then(cfg: string, loaded: bool, labelled: bool, ready: bool): Session {
    if !loaded then Loading(cfg, labelled, ready)
    else if !labelled then Labelling(cfg, ready)
    else if !ready then Readying(cfg)
    else Closed
  }

  // A check is over when there is nothing more to discard.
  function Rest(todo: seq<string>, cold: set<string>, since: set<string>): Session {
    if todo == [] then Checked(cold, since) else Discarding(todo, cold, since)
  }

  function AfterDone(s: Session): Session
    requires Sends(s)
  {
    match s
    case Loading(cfg, labelled, ready) => Then(cfg, true, labelled, ready)
    case Labelling(cfg, ready) => Then(cfg, true, true, ready)
    case Readying(_) => Closed
    case Unreadying => Closed
    case Discarding(todo, cold, since) => Rest(todo[1..], cold, since)
  }

  ghost function ColdConfigs(v: Varnish): set<string> {
    set k | k in v && IsIng(k) && v[k] == Config(true)
  }

  ghost predicate AfterList(v: Varnish, s: Session, s': Session) {
    match s
    case Listing(cfg) => s' == Then(cfg, cfg in v, Labelled(v, REGULAR, cfg), Labelled(v, READINESS, READY))
    case Checking => exists todo :: multiset(todo) == multiset(ColdConfigs(v)) && s' == Rest(todo, ColdConfigs(v), {})
    case _ => false
  }

  datatype System = System(v: Varnish, sessions: seq<Session>)

  datatype Step =
    | Open(session: Session)
    | List(i: nat, next: Session)
    | Do(i: nat, reply: Reply)
    | Drop(i: nat)
    | Restart
    | Retemper

  predicate Opening(s: Session) {
    (s.Listing? && IsIng(s.cfg)) || s.Unreadying? || s.Checking?
  }

  // What a command of one session means for the account of another.
  function Noticed(s: Session, c: Command): Session {
    match (s, c)
    case (Discarding(todo, cold, since), Inline(name)) => Discarding(todo, cold, since + {name})
    case (Checked(cold, since), Inline(name)) => Checked(cold, since + {name})
    case _ => s
  }

  function AllNoticed(sessions: seq<Session>, c: Command): seq<Session> {
    seq(|sessions|, i requires 0 <= i < |sessions| => Noticed(sessions[i], c))
  }

  ghost predicate Next(a: System, b: System, step: Step) {
    match step
    case Open(session) => Opening(session) && b == a.(sessions := a.sessions + [session])
    case List(i, next) =>
      i < |a.sessions| && AfterList(a.v, a.sessions[i], next) && b == a.(sessions := a.sessions[i := next])
    case Do(i, reply) =>
      && i < |a.sessions| && Sends(a.sessions[i])
      && var c := CommandOf(a.sessions[i]);
      && Executed(a.v, c, b.v, reply)
      && var noticed := if b.v == a.v then a.sessions else AllNoticed(a.sessions, c);
      && b.sessions == noticed[i := if reply.Done? then AfterDone(a.sessions[i]) else Closed]
    case Drop(i) => i < |a.sessions| && b == a.(sessions := a.sessions[i := Closed])
    case Restart => b == System(START, [])
    case Retemper => Retempered(a.v, b.v) && b.sessions == a.sessions
  }

  const INIT := System(START, [])

  ghost predicate IsRun(run: seq<System>) {
    && |run| > 0 && run[0] == INIT
    && forall i :: 0 < i < |run| ==> Follows(run[i - 1], run[i])
  }

  ghost predicate Follows(a: System, b: System) {
    exists step :: Next(a, b, step)
  }

  // ---- Safety ----

  // An update that is about to make the instance ready has something to serve.
  ghost predicate SessionOk(v: Varnish, s: Session) {
    match s
    case Listing(cfg) => IsIng(cfg)
    case Loading(cfg, labelled, ready) => IsIng(cfg) && (labelled ==> Serves(v))
    case Labelling(cfg, ready) => IsIng(cfg)
    case Readying(cfg) => Serves(v)
    case Discarding(todo, cold, since) =>
      && (forall i :: 0 <= i < |todo| ==> todo[i] in cold)
      && (forall k :: k in cold ==> IsIng(k) && (k in todo || k !in v || k in since))
    case Checked(cold, since) => forall k :: k in cold ==> IsIng(k) && (k !in v || k in since)
    case _ => true
  }

  ghost predicate Inv(s: System) {
    Safe(s.v) && forall i :: 0 <= i < |s.sessions| ==> SessionOk(s.v, s.sessions[i])
  }

  // A command keeps an instance safe, if readiness comes last.
  lemma CommandIsSafe(v: Varnish, s: Session)
    requires Safe(v) && SessionOk(v, s) && Sends(s) && Permitted(v, CommandOf(s))
    ensures Safe(Apply(v, CommandOf(s)))
    ensures Serves(v) ==> Serves(Apply(v, CommandOf(s)))
    ensures forall k :: k in v && k !in Apply(v, CommandOf(s)) ==> IsIng(k) && !InUse(v, k)
    ensures forall k :: k in Apply(v, CommandOf(s)) && k !in v ==> CommandOf(s) == Inline(k)
  {
    var c, v' := CommandOf(s), Apply(v, CommandOf(s));
    match c {
      case Inline(name) => NamesApart(name);
      case SetLabel(lbl, cfg) =>
        if s.Labelling? {
          NamesApart(cfg);
        }
      case Discard(name) =>
        NamesApart(name);
        assert forall lbl :: Labelled(v, lbl, name) ==> InUse(v, name);
        forall k | k in v' && v'[k].Label? ensures Loaded(v', v'[k].cfg) {
          assert Labelled(v, k, v[k].cfg);
        }
    }
  }

  lemma SessionStaysOk(v: Varnish, v': Varnish, s: Session)
    requires SessionOk(v, s) && (Serves(v) ==> Serves(v')) && v'.Keys <= v.Keys
    ensures SessionOk(v', s)
  {
  }

  lemma NoticedIsOk(v: Varnish, v': Varnish, s: Session, c: Command)
    requires SessionOk(v, s) && (Serves(v) ==> Serves(v'))
    requires forall k :: k in v' && k !in v ==> c == Inline(k)
    ensures SessionOk(v', Noticed(s, c))
  {
  }

  lemma AfterDoneIsOk(v: Varnish, s: Session)
    requires Safe(v) && SessionOk(v, s) && Sends(s) && Permitted(v, CommandOf(s))
    ensures SessionOk(Apply(v, CommandOf(s)), AfterDone(s))
  {
    var v' := Apply(v, CommandOf(s));
    CommandIsSafe(v, s);
    if s.Discarding? {
      assert s.todo == [s.todo[0]] + s.todo[1..];
    }
  }

  lemma AfterListIsOk(v: Varnish, s: Session, s': Session)
    requires Safe(v) && SessionOk(v, s) && AfterList(v, s, s')
    ensures SessionOk(v, s')
  {
    if s.Checking? {
      var todo :| multiset(todo) == multiset(ColdConfigs(v)) && s' == Rest(todo, ColdConfigs(v), {});
      forall k ensures k in todo <==> k in ColdConfigs(v) {
        assert k in todo <==> k in multiset(todo);
      }
    }
  }

  lemma DoKeepsInv(a: System, b: System, i: nat, reply: Reply)
    requires Inv(a) && Next(a, b, Do(i, reply))
    ensures Inv(b)
  {
    var s := a.sessions[i];
    var c := CommandOf(s);
    assert SessionOk(a.v, s);
    if Permitted(a.v, c) {
      CommandIsSafe(a.v, s);
    }
    forall j | 0 <= j < |b.sessions| ensures SessionOk(b.v, b.sessions[j]) {
      if j == i {
        if reply.Done? {
          AfterDoneIsOk(a.v, s);
        }
      } else {
        assert SessionOk(a.v, a.sessions[j]);
        if b.v != a.v {
          NoticedIsOk(a.v, b.v, a.sessions[j], c);
        }
      }
    }
  }

  lemma NextKeepsInv(a: System, b: System, step: Step)
    requires Inv(a) && Next(a, b, step)
    ensures Inv(b)
  {
    match step {
      case Open(session) =>
      case List(i, next) =>
        AfterListIsOk(a.v, a.sessions[i], next);
      case Do(i, reply) => DoKeepsInv(a, b, i, reply);
      case Drop(i) =>
      case Restart => StartIsSafe();
      case Retemper =>
        assert forall k :: k in a.v && a.v[k].Label? ==> b.v[k] == a.v[k];
        forall i | 0 <= i < |b.sessions| ensures SessionOk(b.v, b.sessions[i]) {
          SessionStaysOk(a.v, b.v, a.sessions[i]);
        }
    }
  }

  lemma StartIsSafe()
    ensures Safe(START)
  {
  }

  // In every state of every run, whatever fails and however sessions mix.
  lemma {:induction false} AlwaysSafe(run: seq<System>, i: nat)
    requires IsRun(run) && i < |run|
    ensures Inv(run[i])
  {
    if i == 0 {
      StartIsSafe();
    } else {
      AlwaysSafe(run, i - 1);
      assert Follows(run[i - 1], run[i]);
      var step :| Next(run[i - 1], run[i], step);
      NextKeepsInv(run[i - 1], run[i], step);
    }
  }

  lemma ReadinessIsNeverWrong(run: seq<System>, i: nat, socket: string, url: string)
    requires IsRun(run) && i < |run| && socket != "k8s"
    requires Route(run[i].v, "k8s", "/ready") == Synth(200)
    ensures exists cfg :: Route(run[i].v, socket, url) == Serve(cfg) && IsIng(cfg) && Loaded(run[i].v, cfg)
  {
    AlwaysSafe(run, i);
    ReadyMeansServing(run[i].v, socket, url);
  }

  // Short of a restart, traffic once served is served for ever, and what goes
  // away was found cold by a check and was not in use.
  lemma OnlyColdGoesAway(a: System, b: System, step: Step, k: string)
    requires Inv(a) && Next(a, b, step) && !step.Restart?
    ensures Serves(a.v) ==> Serves(b.v)
    ensures k in a.v && k !in b.v ==>
      && IsIng(k) && !InUse(a.v, k)
      && step.Do? && a.sessions[step.i].Discarding? && k in a.sessions[step.i].cold
  {
    if step.Do? {
      var s := a.sessions[step.i];
      assert SessionOk(a.v, s);
      if Permitted(a.v, CommandOf(s)) {
        CommandIsSafe(a.v, s);
      }
    }
  }

  // A check that was successful leaves none of the configurations that it
  // found cold, except for those loaded again in the meantime.
  lemma CheckIsComplete(run: seq<System>, i: nat, j: nat, k: string)
    requires IsRun(run) && i < |run| && j < |run[i].sessions| && run[i].sessions[j].Checked?
    requires k in run[i].sessions[j].cold
    ensures k !in run[i].v || k in run[i].sessions[j].since
  {
    AlwaysSafe(run, i);
    assert SessionOk(run[i].v, run[i].sessions[j]);
  }

  // The order of the commands is what makes this work. An update that made the
  // instance ready before it labels the configuration could leave it ready
  // with nothing to serve.
  lemma ReadinessFirstIsUnsafe()
    ensures var v := Apply(START, SetLabel(READINESS, READY));
      Safe(START) && Permitted(START, SetLabel(READINESS, READY)) && !Safe(v)
      && Route(v, "k8s", "/ready") == Synth(200) && Route(v, "", "/") == Synth(503)
  {
    StartIsSafe();
    assert NOT_AVAILABLE[5] != INGRESS_PREFIX[5];
  }
}
