// The specification of a VCL configuration, as values. A string stands for a
// Go string: a sequence of bytes, one char per byte.

module Prelude {
  datatype Option<+T> = None | Some(value: T)

  datatype Result<+T, +E> = Ok(value: T) | Err(error: E)

  type uint8 = x: int | 0 <= x < 0x100
  type uint16 = x: int | 0 <= x < 0x1_0000
  type uint32 = x: int | 0 <= x < 0x1_0000_0000
  type uint64 = x: int | 0 <= x < 0x1_0000_0000_0000_0000
  type int32 = x: int | -0x8000_0000 <= x < 0x8000_0000
}

module VclSpec {
  import opened Prelude

  datatype Address = Address(ip: string, port: int32)

  datatype Director = Director(rampup: string, warmup: real, kind: uint8)

  datatype Probe = Probe(
    url: string, request: seq<string>, expResponse: uint16, timeout: string,
    interval: string, initial: string, window: string, threshold: string)

  // The fields of a Service that come from its BackendConfig.
  datatype Backend = Backend(
    probe: Option<Probe>, director: Option<Director>, hostHeader: string,
    connectTimeout: string, firstByteTimeout: string,
    betweenBytesTimeout: string, maxConnections: uint32, proxyHeader: uint8)

  const NO_BACKEND := Backend(None, None, "", "", "", "", 0, 0)

  datatype Service = Service(name: string, addresses: seq<Address>, backend: Backend)

  const NO_SERVICE := Service("", [], NO_BACKEND)

  datatype Rule = Rule(host: string, pathMap: map<string, Service>)

  datatype ShardCluster = ShardCluster(nodes: seq<Service>, probe: Probe, maxSecondaryTTL: string)

  datatype CompareType = Equal | Match | Prefix | Exists | Greater | GreaterEqual | Less | LessEqual

  datatype MatchTerm = MatchTerm(comparand: string, value: string, compare: CompareType, negate: bool)

  datatype Auth = Auth(
    conditions: seq<MatchTerm>, credentials: seq<string>, realm: string, status: uint16, utf8: bool)

  datatype ACLAddress = ACLAddress(addr: string, maskBits: uint8, negate: bool)

  datatype ResultHdr = ResultHdr(header: string, success: string, failure: string)

  datatype ACL = ACL(
    name: string, comparand: string, failStatus: uint16, whitelist: bool,
    addresses: seq<ACLAddress>, conditions: seq<MatchTerm>, resultHdr: ResultHdr)

  datatype RewriteRule = RewriteRule(value: string, rewrite: string)

  datatype MatchFlags = MatchFlags(
    maxMem: uint64, anchor: uint8, utf8: bool, posixSyntax: bool,
    longestMatch: bool, literal: bool, neverCapture: bool,
    caseSensitive: bool, perlClasses: bool, wordBoundary: bool)

  datatype Rewrite = Rewrite(
    rules: seq<RewriteRule>, matchFlags: MatchFlags, target: string, source: string,
    method_: uint8, compare: CompareType, negate: bool, vclSub: uint8, select: uint8)

  datatype Condition = Condition(
    values: seq<string>, matchFlags: MatchFlags, count: Option<uint64>,
    comparand: string, compare: CompareType, negate: bool)

  datatype Disposition = Disposition(action: string, status: uint16, reason: string)

  datatype DispositionSpec = DispositionSpec(conditions: seq<Condition>, disposition: Disposition)

  datatype Spec = Spec(
    defaultService: Service,
    rules: seq<Rule>,
    allServices: map<string, Service>,
    shardCluster: ShardCluster,
    auths: seq<Auth>,
    vcl: string,
    acls: seq<ACL>,
    rewrites: seq<Rewrite>,
    dispositions: seq<DispositionSpec>)
}
