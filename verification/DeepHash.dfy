// The byte stream that a Spec is hashed from, and the name of a configuration.
module DeepHash {
  import opened Prelude
  import opened Orders
  import opened StableSort
  import opened VclSpec
  import opened CanonicalForm

  // The bits of a float64, and SHA-512/224 (section 6.6 of FIPS 180-4), are
  // left open: any function from numbers to 8 bytes, and any function from
  // byte strings to 28 bytes.
  type Digest = s: string | |s| == 28 && forall i :: 0 <= i < |s| ==> s[i] as int < 256
    witness seq(28, _ => '\0')

  type FloatBits = real -> string
  type Sha = string -> Digest

  function BigEndian(n: nat, width: nat): string {
    if width == 0 then "" else BigEndian(n / 256, width - 1) + [(n % 256) as char]
  }

  function Byte(n: uint8): string {
    [n as char]
  }

  function Flag(b: bool, s: string): string {
    if b then s else ""
  }

  function Concat<T>(f: T -> string, s: seq<T>): string {
    if s == [] then "" else Concat(f, s[..|s| - 1]) + f(s[|s| - 1])
  }

  function AddressStream(a: Address): string {
    a.ip + BigEndian(a.port % 0x1_0000_0000, 4)
  }

  function ProbeStream(p: Probe): string {
    p.url + Concat(Itself, p.request) + BigEndian(p.expResponse, 2) + p.timeout + p.interval
      + p.initial + p.window + p.threshold
  }

  function DirectorStream(fb: FloatBits, d: Director): string {
    d.rampup + fb(d.warmup) + Byte(d.kind)
  }

  function BackendStream(fb: FloatBits, b: Backend): string {
    (if b.probe.Some? then ProbeStream(b.probe.value) else "")
      + (if b.director.Some? then DirectorStream(fb, b.director.value) else "")
      + b.hostHeader + b.connectTimeout + b.firstByteTimeout + b.betweenBytesTimeout
      + Byte(b.proxyHeader) + BigEndian(b.maxConnections, 4)
  }

  function ServiceStream(fb: FloatBits): Service -> string {
    (s: Service) => s.name + Concat(AddressStream, s.addresses) + BackendStream(fb, s.backend)
  }

  // One entry of a map of services.
  function EntryStream(fb: FloatBits, m: map<string, Service>): string -> string {
    (k: string) => if k in m then k + ServiceStream(fb)(m[k]) else k
  }

  // The keys of a map, each once, in some order.
  ghost predicate Enumerates(e: seq<string>, keys: set<string>) {
    multiset(e) == multiset(keys)
  }

  ghost function Enumeration(keys: set<string>): (e: seq<string>)
    ensures Enumerates(e, keys)
  {
    if keys == {} then []
    else
      var k :| k in keys;
      assert multiset(keys) == multiset{k} + multiset(keys - {k});
      [k] + Enumeration(keys - {k})
  }

  // Sorting forgets in which order the keys came.
  ghost function SortedKeys(keys: set<string>): seq<string> {
    SortStrings(Enumeration(keys))
  }

  lemma SortedKeysUnique(e: seq<string>, keys: set<string>)
    requires Enumerates(e, keys)
    ensures SortStrings(e) == SortedKeys(keys)
  {
    SortStringsNormalForm(e, Enumeration(keys));
  }

  ghost function MapStream(fb: FloatBits, m: map<string, Service>): string {
    Concat(EntryStream(fb, m), SortedKeys(m.Keys))
  }

  ghost function RuleStream(fb: FloatBits): Rule -> string {
    (r: Rule) => r.host + MapStream(fb, r.pathMap)
  }

  function ShardStream(fb: FloatBits, c: ShardCluster): string {
    Concat(ServiceStream(fb), c.nodes) + ProbeStream(c.probe) + c.maxSecondaryTTL
  }

  function CompareCode(c: CompareType): uint8 {
    match c
    case Equal => 0
    case Match => 1
    case Prefix => 2
    case Exists => 3
    case Greater => 4
    case GreaterEqual => 5
    case Less => 6
    case LessEqual => 7
  }

  function BoolByte(b: bool): string {
    Byte(if b then 1 else 0)
  }

  function TermStream(t: MatchTerm): string {
    t.comparand + t.value + Byte(CompareCode(t.compare)) + BoolByte(t.negate)
  }

  function AuthStream(a: Auth): string {
    a.realm + Concat(Itself, a.credentials) + BigEndian(a.status, 2) + Concat(TermStream, a.conditions)
      + Flag(a.utf8, "UTF8")
  }

  function ACLAddressStream(a: ACLAddress): string {
    a.addr + Byte(a.maskBits) + Flag(a.negate, "Negate")
  }

  // Whether the list is a whitelist is not written.
  function ACLStream(a: ACL): string {
    a.name + a.comparand + BigEndian(a.failStatus, 2) + Concat(ACLAddressStream, a.addresses)
      + Concat(TermStream, a.conditions) + a.resultHdr.header + a.resultHdr.success + a.resultHdr.failure
  }

  function FlagsStream(f: MatchFlags): string {
    BigEndian(f.maxMem, 8) + Byte(f.anchor) + Flag(f.utf8, "UTF8") + Flag(f.posixSyntax, "PosixSyntax")
      + Flag(f.longestMatch, "LongestMatch") + Flag(f.literal, "Literal") + Flag(f.neverCapture, "NeverCapture")
      + Flag(f.caseSensitive, "CaseSensitive") + Flag(f.perlClasses, "PerlClasses")
      + Flag(f.wordBoundary, "WordBoundary")
  }

  function RewriteRuleStream(r: RewriteRule): string {
    r.value + r.rewrite
  }

  function RewriteStream(r: Rewrite): string {
    Concat(RewriteRuleStream, r.rules) + FlagsStream(r.matchFlags) + r.target + r.source + Byte(r.method_)
      + Byte(CompareCode(r.compare)) + BoolByte(r.negate) + Byte(r.vclSub) + Byte(r.select)
  }

  function ConditionStream(c: Condition): string {
    Concat(Itself, c.values) + FlagsStream(c.matchFlags)
      + (if c.count.Some? then BigEndian(c.count.value, 8) else "")
      + c.comparand + Byte(CompareCode(c.compare)) + BoolByte(c.negate)
  }

  const RECV_SYNTH := "synth"

  // The reason is not written, and the status only for a synthetic response.
  function DispositionStream(d: DispositionSpec): string {
    Concat(ConditionStream, d.conditions) + d.disposition.action
      + (if d.disposition.action == RECV_SYNTH then BigEndian(d.disposition.status, 2) else "")
  }

  // The stream is written in the order of these parts.
  ghost function ServicesStream(fb: FloatBits, v: Spec): string {
    ServiceStream(fb)(v.defaultService) + Concat(RuleStream(fb), v.rules) + MapStream(fb, v.allServices)
  }

  function ConfigStream(fb: FloatBits, v: Spec): string {
    ShardStream(fb, v.shardCluster) + v.vcl + Concat(AuthStream, v.auths) + Concat(ACLStream, v.acls)
      + Concat(RewriteStream, v.rewrites) + Concat(DispositionStream, v.dispositions)
  }

  ghost function SpecStream(fb: FloatBits, v: Spec): string {
    ServicesStream(fb, v) + ConfigStream(fb, v)
  }

  // The state of the hash: everything written to it so far.
  class Hash {
    var written: string

    constructor ()
      ensures written == ""
    {
      written := "";
    }

    method Write(bytes: string)
      modifies this
      ensures written == old(written) + bytes
    {
      written := written + bytes;
    }
  }

  // Loops that write one element of a list after the other.
  method WriteAll<T>(h: Hash, f: T -> string, s: seq<T>)
    modifies h
    ensures h.written == old(h.written) + Concat(f, s)
  {
    for i := 0 to |s|
      invariant h.written == old(h.written) + Concat(f, s[..i])
    {
      assert s[..i + 1][..i] == s[..i];
      h.Write(f(s[i]));
    }
    assert s[..|s|] == s;
  }

  // Collects the keys in whatever order the map yields them, and sorts them.
  method KeysInOrder(m: map<string, Service>) returns (keys: array<string>)
    ensures fresh(keys) && keys[..] == SortedKeys(m.Keys)
  {
    keys := new string[|m|](_ => "");
    var i, todo := 0, m.Keys;
    while todo != {}
      invariant todo <= m.Keys && i + |todo| == |m.Keys| == keys.Length
      invariant multiset(keys[..i]) == multiset(m.Keys - todo)
    {
      var k :| k in todo;
      assert multiset(m.Keys - (todo - {k})) == multiset(m.Keys - todo) + multiset{k};
      ghost var before := keys[..i];
      keys[i] := k;
      assert keys[..i + 1] == before + [k];
      i, todo := i + 1, todo - {k};
    }
    assert keys[..] == keys[..i] && m.Keys - {} == m.Keys;
    SortedKeysUnique(keys[..], m.Keys);
    Stable(keys, Itself, StrLess);
  }

  method HashServices(fb: FloatBits, m: map<string, Service>, h: Hash)
    modifies h
    ensures h.written == old(h.written) + MapStream(fb, m)
  {
    var keys := KeysInOrder(m);
    WriteAll(h, EntryStream(fb, m), keys[..]);
  }

  method HashRule(fb: FloatBits, r: Rule, h: Hash)
    modifies h
    ensures h.written == old(h.written) + RuleStream(fb)(r)
  {
    h.Write(r.host);
    HashServices(fb, r.pathMap, h);
  }

  method HashRules(fb: FloatBits, rules: seq<Rule>, h: Hash)
    modifies h
    ensures h.written == old(h.written) + Concat(RuleStream(fb), rules)
  {
    ghost var f, start := RuleStream(fb), h.written;
    for i := 0 to |rules|
      invariant h.written == start + Concat(f, rules[..i])
    {
      HashRule(fb, rules[i], h);
      ConcatStep(f, rules, i);
    }
    assert rules[..|rules|] == rules;
  }

  lemma ConcatStep<T>(f: T -> string, s: seq<T>, i: nat)
    requires i < |s|
    ensures forall start: string :: start + Concat(f, s[..i + 1]) == (start + Concat(f, s[..i])) + f(s[i])
  {
    assert s[..i + 1][..i] == s[..i];
  }

  // The digits of big.Int's Text: 0-9, a-z, A-Z.
  function Digit(n: nat): (c: char)
    requires n < 62
    ensures AlNum(c)
  {
    if n < 10 then ('0' as int + n) as char
    else if n < 36 then ('a' as int + n - 10) as char
    else ('A' as int + n - 36) as char
  }

  function Base62(n: nat): (r: string)
    ensures r != "" && (n >= 62 ==> |r| > 1)
    ensures forall i :: 0 <= i < |r| ==> AlNum(r[i])
  {
    if n < 62 then [Digit(n)] else Base62(n / 62) + [Digit(n % 62)]
  }

  function Number(bytes: string): nat {
    if bytes == "" then 0 else Number(bytes[..|bytes| - 1]) * 256 + bytes[|bytes| - 1] as int
  }

  ghost function DeepHashOf(sha: Sha, fb: FloatBits, v: Spec): string {
    Base62(Number(sha(SpecStream(fb, v))))
  }

  method HashServicesOf(fb: FloatBits, v: Spec, h: Hash)
    requires h.written == ""
    modifies h
    ensures h.written == ServicesStream(fb, v)
  {
    ghost var first, rules := ServiceStream(fb)(v.defaultService), Concat(RuleStream(fb), v.rules);
    h.Write(ServiceStream(fb)(v.defaultService));
    assert h.written == first;
    HashRules(fb, v.rules, h);
    assert h.written == first + rules;
    HashServices(fb, v.allServices, h);
  }

  method HashConfigOf(fb: FloatBits, v: Spec, h: Hash)
    modifies h
    ensures h.written == old(h.written) + ConfigStream(fb, v)
  {
    ghost var start := h.written;
    h.Write(ShardStream(fb, v.shardCluster));
    h.Write(v.vcl);
    WriteAll(h, AuthStream, v.auths);
    WriteAll(h, ACLStream, v.acls);
    WriteAll(h, RewriteStream, v.rewrites);
    WriteAll(h, DispositionStream, v.dispositions);
    ConcatAll(start, ShardStream(fb, v.shardCluster), v.vcl, Concat(AuthStream, v.auths), Concat(ACLStream, v.acls),
      Concat(RewriteStream, v.rewrites), Concat(DispositionStream, v.dispositions));
  }

  lemma ConcatAll(start: string, a: string, b: string, c: string, d: string, e: string, f: string)
    ensures start + a + b + c + d + e + f == start + (a + b + c + d + e + f)
  {
    assert start + a + b == start + (a + b);
    assert start + (a + b) + c == start + (a + b + c);
    assert start + (a + b + c) + d == start + (a + b + c + d);
    assert start + (a + b + c + d) + e == start + (a + b + c + d + e);
    assert start + (a + b + c + d + e) + f == start + (a + b + c + d + e + f);
  }

  method DeepHash(sha: Sha, fb: FloatBits, v: Spec) returns (r: string)
    ensures r == DeepHashOf(sha, fb, v)
  {
    var h := new Hash();
    HashServicesOf(fb, v, h);
    HashConfigOf(fb, v, h);
    r := Base62(Number(sha(h.written)));
  }

  // The name of a configuration.
  const INGRESS_PREFIX := "vk8s_ing_"

  predicate AlNum(c: char) {
    '0' <= c <= '9' || 'A' <= c <= 'Z' || 'a' <= c <= 'z'
  }

  // Every run of characters that are not alphanumeric becomes an underscore.
  function ReplaceNonAlNum(s: string): string {
    if s == "" then ""
    else if AlNum(s[0]) then [s[0]] + ReplaceNonAlNum(s[1..])
    else "_" + ReplaceNonAlNum(s[NonAlNumRun(s)..])
  }

  function NonAlNumRun(s: string): (n: nat)
    ensures n <= |s| && (s != "" && !AlNum(s[0]) ==> n > 0)
  {
    if s == "" || AlNum(s[0]) then 0 else 1 + NonAlNumRun(s[1..])
  }

  function NameOfDigest(d: Digest): string {
    ReplaceNonAlNum(INGRESS_PREFIX + Base62(Number(d)))
  }

  ghost function ConfigName(sha: Sha, fb: FloatBits, v: Spec): string {
    NameOfDigest(sha(SpecStream(fb, Canon(v))))
  }

  method ConfigNameOf(sha: Sha, fb: FloatBits, v: Spec) returns (name: string)
    ensures name == ConfigName(sha, fb, v)
  {
    var hash := DeepHash(sha, fb, Canon(v));
    name := ReplaceNonAlNum(INGRESS_PREFIX + hash);
  }

  // Faithfulness of names to digests.
  lemma {:induction false} Base62Injective(m: nat, n: nat)
    requires Base62(m) == Base62(n)
    ensures m == n
  {
    var a, b := Base62(m), Base62(n);
    assert a[|a| - 1] == Digit(m % 62) && b[|b| - 1] == Digit(n % 62);
    if m >= 62 && n >= 62 {
      assert Base62(m / 62) == a[..|a| - 1] && Base62(n / 62) == b[..|b| - 1];
      Base62Injective(m / 62, n / 62);
    }
  }

  lemma {:induction false} NumberInjective(a: string, b: string)
    requires |a| == |b| && Number(a) == Number(b)
    requires forall i :: 0 <= i < |a| ==> a[i] as int < 256 && b[i] as int < 256
    ensures a == b
  {
    if a != "" {
      var x, y := Number(a[..|a| - 1]), Number(b[..|b| - 1]);
      assert x * 256 + a[|a| - 1] as int == y * 256 + b[|b| - 1] as int;
      assert x == y;
      NumberInjective(a[..|a| - 1], b[..|b| - 1]);
      assert a == a[..|a| - 1] + [a[|a| - 1]] && b == b[..|b| - 1] + [b[|b| - 1]];
    }
  }

  // Replacing does nothing to a string whose only other characters are single
  // underscores.
  ghost predicate SingleUnderscores(s: string) {
    && (forall i :: 0 <= i < |s| && !AlNum(s[i]) ==> s[i] == '_')
    && (forall i :: 0 < i < |s| && !AlNum(s[i]) ==> AlNum(s[i - 1]))
  }

  lemma {:induction false} ReplaceNothing(s: string)
    requires SingleUnderscores(s)
    ensures ReplaceNonAlNum(s) == s
  {
    if s != "" {
      var t := s[1..];
      assert forall i :: 0 < i < |t| ==> t[i] == s[i + 1] && t[i - 1] == s[i];
      ReplaceNothing(t);
      assert s == [s[0]] + t;
      assert !AlNum(s[0]) ==> NonAlNumRun(s) == 1;
    }
  }

  lemma NameIsPrefixAndDigits(d: Digest)
    ensures NameOfDigest(d) == INGRESS_PREFIX + Base62(Number(d))
  {
    var s := INGRESS_PREFIX + Base62(Number(d));
    assert INGRESS_PREFIX == ['v', 'k', '8', 's', '_', 'i', 'n', 'g', '_'];
    forall i | 9 <= i < |s| ensures AlNum(s[i]) {
      assert s[i] == Base62(Number(d))[i - 9];
    }
    assert forall i :: 0 <= i < 9 ==> s[i] == INGRESS_PREFIX[i];
    ReplaceNothing(s);
  }

  // Different digests give different names; every name has the prefix, and is
  // none of the fixed names on an instance.
  lemma NamesFaithful(d: Digest, d': Digest)
    ensures NameOfDigest(d) == NameOfDigest(d') <==> d == d'
    ensures INGRESS_PREFIX <= NameOfDigest(d)
    ensures NameOfDigest(d) !in {"vk8s_regular", "vk8s_readiness", "vk8s_ready", "vk8s_notavailable", "boot"}
  {
    NameIsPrefixAndDigits(d);
    NameIsPrefixAndDigits(d');
    var b, b' := Base62(Number(d)), Base62(Number(d'));
    if NameOfDigest(d) == NameOfDigest(d') {
      assert b == NameOfDigest(d)[9..] && b' == NameOfDigest(d')[9..];
      Base62Injective(Number(d), Number(d'));
      NumberInjective(d, d');
    }
    assert NameOfDigest(d)[5] == 'i';
  }

  // Equivalent Specs have the same name.
  lemma EquivalentSameName(sha: Sha, fb: FloatBits, a: Spec, b: Spec)
    requires ConcordantSpec(a) && ConcordantSpec(b) && Equivalent(a, b)
    ensures ConfigName(sha, fb, a) == ConfigName(sha, fb, b)
  {
    CanonNormalForm(a, b);
  }

  // What the stream does not show: whether an ACL is a whitelist, the reason
  // of a disposition, and the status of one that is not synthetic.
  function UnmarkedACL(a: ACL): ACL {
    a.(whitelist := false)
  }

  function UnmarkedDisposition(d: DispositionSpec): DispositionSpec {
    var status := if d.disposition.action == RECV_SYNTH then d.disposition.status else 0;
    d.(disposition := d.disposition.(reason := "", status := status))
  }

  function Unmarked(v: Spec): Spec {
    v.(acls := Map(UnmarkedACL, v.acls), dispositions := Map(UnmarkedDisposition, v.dispositions))
  }

  lemma {:induction false} ConcatMap<T>(f: T -> string, g: T -> T, s: seq<T>)
    requires forall i :: 0 <= i < |s| ==> f(g(s[i])) == f(s[i])
    ensures Concat(f, Map(g, s)) == Concat(f, s)
  {
    if s != [] {
      ConcatMap(f, g, s[..|s| - 1]);
      assert Map(g, s)[..|s| - 1] == Map(g, s[..|s| - 1]);
    }
  }

  lemma UnmarkedStream(fb: FloatBits, v: Spec)
    ensures SpecStream(fb, Unmarked(v)) == SpecStream(fb, v)
  {
    ConcatMap(ACLStream, UnmarkedACL, v.acls);
    ConcatMap(DispositionStream, UnmarkedDisposition, v.dispositions);
  }

  lemma UnmarkedCanon(v: Spec)
    ensures Unmarked(Canon(v)) == Canon(Unmarked(v))
  {
    SortMap(ACLNameOf, ACLNameOf, StrLess, UnmarkedACL, v.acls);
    var sorted := Sort(ACLNameOf, StrLess, v.acls);
    assert Map(UnmarkedACL, Map(CanonACL, sorted)) == Map(CanonACL, Map(UnmarkedACL, sorted));
    assert Map(UnmarkedDisposition, Map(CanonDisposition, v.dispositions)) ==
      Map(CanonDisposition, Map(UnmarkedDisposition, v.dispositions));
  }

  lemma UnmarkedSameName(sha: Sha, fb: FloatBits, a: Spec, b: Spec)
    requires Unmarked(a) == Unmarked(b)
    ensures ConfigName(sha, fb, a) == ConfigName(sha, fb, b)
  {
    UnmarkedCanon(a);
    UnmarkedCanon(b);
    UnmarkedStream(fb, Canon(a));
    UnmarkedStream(fb, Canon(b));
  }

  lemma {:induction false} WithKeyUpdate<T, K>(key: T -> K, s: seq<T>, i: nat, y: T) returns (j: nat)
    requires i < |s| && key(y) == key(s[i])
    ensures j < |WithKey(key, s, key(y))| && WithKey(key, s, key(y))[j] == s[i]
    ensures WithKey(key, s[i := y], key(y)) == WithKey(key, s, key(y))[j := y]
  {
    var front := s[..|s| - 1];
    if i == |s| - 1 {
      assert s[i := y][..|s| - 1] == front;
      j := |WithKey(key, front, key(y))|;
    } else {
      assert s[i := y][..|s| - 1] == front[i := y];
      j := WithKeyUpdate(key, front, i, y);
    }
  }

  function Toggled(a: ACL): ACL {
    a.(whitelist := !a.whitelist)
  }

  lemma ToggledIsDifferent(acls: seq<ACL>, i: nat)
    requires i < |acls|
    ensures !PairwisePerKey(ACLNameOf, SameACL, acls, acls[i := Toggled(acls[i])])
  {
    var y := Toggled(acls[i]);
    var j := WithKeyUpdate(ACLNameOf, acls, i, y);
    var was, now := WithKey(ACLNameOf, acls, y.name), WithKey(ACLNameOf, acls[i := y], y.name);
    assert was[j] == acls[i] && now[j] == y;
    assert !SameACL(was[j], now[j]);
    assert !Pairwise(SameACL, was, now);
  }

  // So turning a whitelist into a blacklist changes the configuration but
  // never its name, whatever the hash function is.
  lemma WhitelistNotInName(sha: Sha, fb: FloatBits, v: Spec, i: nat)
    requires i < |v.acls| && ConcordantSpec(v)
    ensures var w := v.(acls := v.acls[i := Toggled(v.acls[i])]);
      !Equivalent(v, w) && Canon(v) != Canon(w) && ConfigName(sha, fb, v) == ConfigName(sha, fb, w)
  {
    var w := v.(acls := v.acls[i := Toggled(v.acls[i])]);
    assert Unmarked(v).acls == Unmarked(w).acls;
    UnmarkedSameName(sha, fb, v, w);
    ToggledIsDifferent(v.acls, i);
    assert !Equivalent(v, w);
    CanonNormalForm(v, w);
  }

  // Nor does the stream show where one string ends and the next one begins.
  lemma BoundariesNotInStream(fb: FloatBits, v: Spec, s: string, t: string, u: string)
    ensures SpecStream(fb, v.(shardCluster := v.shardCluster.(maxSecondaryTTL := s + t), vcl := u))
         == SpecStream(fb, v.(shardCluster := v.shardCluster.(maxSecondaryTTL := s), vcl := t + u))
  {
    var a := v.(shardCluster := v.shardCluster.(maxSecondaryTTL := s + t), vcl := u);
    var b := v.(shardCluster := v.shardCluster.(maxSecondaryTTL := s), vcl := t + u);
    var head := Concat(ServiceStream(fb), v.shardCluster.nodes) + ProbeStream(v.shardCluster.probe);
    assert head + (s + t) + u == head + s + (t + u);
    assert ConfigStream(fb, a) == ConfigStream(fb, b);
  }

  // The stream is the same whatever order the map yields its keys in.
  lemma StreamIgnoresMapOrder(fb: FloatBits, m: map<string, Service>, e: seq<string>, e': seq<string>)
    requires Enumerates(e, m.Keys) && Enumerates(e', m.Keys)
    ensures Concat(EntryStream(fb, m), SortStrings(e)) == Concat(EntryStream(fb, m), SortStrings(e')) ==
      MapStream(fb, m)
  {
    SortedKeysUnique(e, m.Keys);
    SortedKeysUnique(e', m.Keys);
  }
}
