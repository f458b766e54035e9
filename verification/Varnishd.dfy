// A Varnish instance as its administrator sees it: the configurations that
// are loaded, and the labels.
module Varnishd {
  import opened DeepHash

  const REGULAR := "vk8s_regular"
  const READINESS := "vk8s_readiness"
  const READY := "vk8s_ready"
  const NOT_AVAILABLE := "vk8s_notavailable"
  const BOOT := "boot"

  datatype VCL = Config(cold: bool) | Label(cfg: string)

  type Varnish = map<string, VCL>

  // What the start script sets up, with boot as the active configuration.
  const START: Varnish := map[
    READY := Config(false), NOT_AVAILABLE := Config(false), BOOT := Config(false),
    READINESS := Label(NOT_AVAILABLE), REGULAR := Label(NOT_AVAILABLE)]

  predicate IsIng(name: string) {
    INGRESS_PREFIX <= name
  }

  predicate Loaded(v: Varnish, name: string) {
    name in v && v[name].Config?
  }

  predicate Labelled(v: Varnish, lbl: string, cfg: string) {
    lbl in v && v[lbl] == Label(cfg)
  }

  ghost predicate InUse(v: Varnish, name: string) {
    name == BOOT || exists lbl :: Labelled(v, lbl, name)
  }

  // The commands that change something.
  datatype Command = Inline(name: string) | SetLabel(lbl: string, cfg: string) | Discard(name: string)

  // A label can only point at a loaded configuration, and a configuration
  // that is labelled or active is not discarded.
  ghost predicate Permitted(v: Varnish, c: Command) {
    match c
    case Inline(name) => name !in v
    case SetLabel(lbl, cfg) => Loaded(v, cfg) && !Loaded(v, lbl)
    case Discard(name) => Loaded(v, name) && !InUse(v, name)
  }

  function Apply(v: Varnish, c: Command): Varnish {
    match c
    case Inline(name) => v[name := Config(false)]
    case SetLabel(lbl, cfg) => v[lbl := Label(cfg)]
    case Discard(name) => map k | k in v && k != name :: v[k]
  }

  // A command can fail for any reason. When the connection is closed or times
  // out, it may or may not have been carried out.
  datatype Reply = Done | Refused | EOF | Timeout

  ghost predicate Executed(v: Varnish, c: Command, v': Varnish, reply: Reply) {
    match reply
    case Done => Permitted(v, c) && v' == Apply(v, c)
    case Refused => v' == v
    case EOF | Timeout => v' == v || (Permitted(v, c) && v' == Apply(v, c))
  }

  // A configuration becomes cold or warm in its own time.
  ghost predicate Retempered(v: Varnish, v': Varnish) {
    v'.Keys == v.Keys && forall k :: k in v ==> v'[k] == v[k] || (v[k].Config? && v'[k].Config?)
  }

  // Where boot sends a request: only the readiness check of the cluster is
  // answered by way of the one label, all other traffic by way of the other.
  datatype Answer = Synth(status: int) | Serve(cfg: string) | Fail

  function Through(v: Varnish, lbl: string): Answer {
    if lbl in v && v[lbl].Label? && Loaded(v, v[lbl].cfg) then
      if v[lbl].cfg == READY then Synth(200)
      else if v[lbl].cfg == NOT_AVAILABLE then Synth(503)
      else Serve(v[lbl].cfg)
    else Fail
  }

  function Route(v: Varnish, socket: string, url: string): Answer {
    if socket == "k8s" then
      if url == "/ready" then Through(v, READINESS) else Synth(404)
    else Through(v, REGULAR)
  }

  // ---- What always holds ----

  // The regular label points at a configuration made from Ingresses.
  predicate Serves(v: Varnish) {
    REGULAR in v && v[REGULAR].Label? && IsIng(v[REGULAR].cfg)
  }

  ghost predicate Sound(v: Varnish) {
    && Loaded(v, READY) && Loaded(v, NOT_AVAILABLE) && Loaded(v, BOOT)
    && (forall k :: k in v && v[k].Label? ==> k in {REGULAR, READINESS} && Loaded(v, v[k].cfg))
    && (Serves(v) || Labelled(v, REGULAR, NOT_AVAILABLE))
    && (Labelled(v, READINESS, READY) || Labelled(v, READINESS, NOT_AVAILABLE))
  }

  // Ready only when there is something to serve.
  ghost predicate Safe(v: Varnish) {
    Sound(v) && (Labelled(v, READINESS, READY) ==> Serves(v))
  }

  lemma NamesApart(name: string)
    requires IsIng(name)
    ensures name !in {REGULAR, READINESS, READY, NOT_AVAILABLE, BOOT}
  {
    assert name[5] == INGRESS_PREFIX[5] == 'i';
  }

  // When the readiness check succeeds, all other traffic goes to a loaded
  // configuration made from Ingresses.
  lemma ReadyMeansServing(v: Varnish, socket: string, url: string)
    requires Safe(v)
    ensures Route(v, "k8s", "/ready") in {Synth(200), Synth(503)}
    ensures Route(v, "k8s", "/ready") == Synth(200) && socket != "k8s" ==>
      exists cfg :: Route(v, socket, url) == Serve(cfg) && IsIng(cfg) && Loaded(v, cfg)
  {
    if Serves(v) {
      NamesApart(v[REGULAR].cfg);
    }
  }
}
