// What the stream that is hashed shows of a Spec. Boundaries of strings do not
// show, but of Specs of the same shape it shows everything that is written.
module Streams {
  import opened Prelude
  import opened Orders
  import opened StableSort
  import opened VclSpec
  import opened CanonicalForm
  import opened DeepHash

  // ---- Parts of equal length ----

  lemma Cut2(a: string, x: string, b: string, y: string)
    requires |a| == |b| && |x| == |y|
    ensures |a + x| == |b + y| && (a + x == b + y <==> a == b && x == y)
  {
    var s, t := a + x, b + y;
    if s == t {
      assert a == s[..|a|] && b == t[..|b|];
      assert x == s[|a|..] && y == t[|b|..];
    }
  }

  lemma Cut3(a: string, x1: string, x2: string, b: string, y1: string, y2: string)
    requires |a| == |b| && |x1| == |y1| && |x2| == |y2|
    ensures |a + x1 + x2| == |b + y1 + y2|
    ensures a + x1 + x2 == b + y1 + y2 <==> a == b && x1 == y1 && x2 == y2
  {
    Cut2(a, x1, b, y1);
    Cut2(a + x1, x2, b + y1, y2);
  }

  lemma Cut4(a: string, x1: string, x2: string, x3: string, b: string, y1: string, y2: string, y3: string)
    requires |a| == |b| && |x1| == |y1| && |x2| == |y2| && |x3| == |y3|
    ensures |a + x1 + x2 + x3| == |b + y1 + y2 + y3|
    ensures a + x1 + x2 + x3 == b + y1 + y2 + y3 <==> a == b && x1 == y1 && x2 == y2 && x3 == y3
  {
    Cut3(a, x1, x2, b, y1, y2);
    Cut2(a + x1 + x2, x3, b + y1 + y2, y3);
  }

  lemma Cut5(
      a: string, x1: string, x2: string, x3: string, x4: string, b: string, y1: string, y2: string, y3: string,
      y4: string)
    requires |a| == |b| && |x1| == |y1| && |x2| == |y2| && |x3| == |y3| && |x4| == |y4|
    ensures |a + x1 + x2 + x3 + x4| == |b + y1 + y2 + y3 + y4|
    ensures a + x1 + x2 + x3 + x4 == b + y1 + y2 + y3 + y4 <==>
      a == b && x1 == y1 && x2 == y2 && x3 == y3 && x4 == y4
  {
    Cut4(a, x1, x2, x3, b, y1, y2, y3);
    Cut2(a + x1 + x2 + x3, x4, b + y1 + y2 + y3, y4);
  }

  lemma Inside(before: string, x: string, y: string, after: string)
    ensures before + x + after == before + y + after <==> x == y
  {
    var s, t := before + x + after, before + y + after;
    if s == t {
      assert |x| == |y|;
      assert x == s[|before|..|before| + |x|] && y == t[|before|..|before| + |y|];
    }
  }

  // ---- Numbers ----

  function Power(width: nat): nat {
    if width == 0 then 1 else 256 * Power(width - 1)
  }

  // The bytes of a number are its digits to base 256, the first one counting
  // most.
  lemma {:induction false} BigEndianIsNumber(n: nat, width: nat)
    requires n < Power(width)
    ensures |BigEndian(n, width)| == width && Number(BigEndian(n, width)) == n
  {
    if width > 0 {
      BigEndianIsNumber(n / 256, width - 1);
      var front := BigEndian(n / 256, width - 1);
      assert (front + [(n % 256) as char])[..width - 1] == front;
    }
  }

  lemma BytesExactly(m: nat, n: nat, width: nat)
    requires m < Power(width) && n < Power(width)
    ensures |BigEndian(m, width)| == width == |BigEndian(n, width)|
    ensures BigEndian(m, width) == BigEndian(n, width) <==> m == n
  {
    BigEndianIsNumber(m, width);
    BigEndianIsNumber(n, width);
  }

  lemma Powers()
    ensures Power(2) == 0x1_0000 && Power(4) == 0x1_0000_0000 && Power(8) == 0x1_0000_0000_0000_0000
  {
    assert Power(2) == 256 * Power(1) == 256 * (256 * Power(0));
    assert Power(4) == 256 * Power(3) == 256 * (256 * Power(2));
    assert Power(6) == 256 * Power(5) == 256 * (256 * Power(4));
    assert Power(8) == 256 * Power(7) == 256 * (256 * Power(6));
  }

  // ---- Lists ----

  lemma {:induction false} ConcatExactly<T>(f: T -> string, a: seq<T>, b: seq<T>)
    requires |a| == |b| && forall i :: 0 <= i < |a| ==> |f(a[i])| == |f(b[i])|
    ensures |Concat(f, a)| == |Concat(f, b)|
    ensures Concat(f, a) == Concat(f, b) <==> forall i :: 0 <= i < |a| ==> f(a[i]) == f(b[i])
  {
    if a != [] {
      var n := |a| - 1;
      var front, front' := a[..n], b[..n];
      assert forall i :: 0 <= i < n ==> front[i] == a[i] && front'[i] == b[i];
      ConcatExactly(f, front, front');
      Cut2(Concat(f, front), f(a[n]), Concat(f, front'), f(b[n]));
      assert Concat(f, a) == Concat(f, front) + f(a[n]) && Concat(f, b) == Concat(f, front') + f(b[n]);
    }
  }

  // Elements that show all of themselves but what g takes away.
  lemma ListExactly<T(!new)>(f: T -> string, g: T -> T, shape: (T, T) -> bool, a: seq<T>, b: seq<T>)
    requires Pairwise(shape, a, b)
    requires forall x, y :: shape(x, y) ==> |f(x)| == |f(y)| && (f(x) == f(y) <==> g(x) == g(y))
    ensures |Concat(f, a)| == |Concat(f, b)|
    ensures Concat(f, a) == Concat(f, b) <==> Map(g, a) == Map(g, b)
  {
    ConcatExactly(f, a, b);
    var ga, gb := Map(g, a), Map(g, b);
    assert ga == gb <==> forall i :: 0 <= i < |a| ==> ga[i] == gb[i];
    assert forall i :: 0 <= i < |a| ==> (ga[i] == gb[i] <==> f(a[i]) == f(b[i]));
  }

  lemma MapItself<T>(s: seq<T>)
    ensures Map(Itself, s) == s
  {
  }

  ghost predicate SameLength(a: string, b: string) {
    |a| == |b|
  }

  lemma StringsExactly(a: seq<string>, b: seq<string>)
    requires Pairwise(SameLength, a, b)
    ensures |Concat(Itself, a)| == |Concat(Itself, b)| && (Concat(Itself, a) == Concat(Itself, b) <==> a == b)
  {
    ListExactly(Itself, Itself, SameLength, a, b);
    MapItself(a);
    MapItself(b);
  }

  // ---- Services ----

  // A warmup is given in percent.
  predicate Percent(w: real) {
    var p := 100.0 * w;
    p.Floor as real == p && -0x8000_0000 <= p.Floor < 0x8000_0000
  }

  // The bits of a number are eight bytes, and different ones for different
  // percentages.
  ghost predicate IsBits(fb: FloatBits) {
    && (forall x :: |fb(x)| == 8)
    && forall x, y :: Percent(x) && Percent(y) && fb(x) == fb(y) ==> x == y
  }

  function PercentBits(w: real): string {
    BigEndian((100.0 * w).Floor % 0x1_0000_0000_0000_0000, 8)
  }

  lemma PercentsDiffer(x: real, y: real)
    requires Percent(x) && Percent(y)
    ensures |PercentBits(x)| == 8 && (PercentBits(x) == PercentBits(y) <==> x == y)
  {
    var m, n := (100.0 * x).Floor, (100.0 * y).Floor;
    Powers();
    BytesExactly(m % 0x1_0000_0000_0000_0000, n % 0x1_0000_0000_0000_0000, 8);
    assert m == n ==> 100.0 * x == 100.0 * y;
  }

  // There are such bits.
  lemma SomeBits()
    ensures IsBits(PercentBits)
  {
    forall x ensures |PercentBits(x)| == 8 {
      Powers();
      BigEndianIsNumber((100.0 * x).Floor % 0x1_0000_0000_0000_0000, 8);
    }
    forall x, y | Percent(x) && Percent(y) && PercentBits(x) == PercentBits(y) ensures x == y {
      PercentsDiffer(x, y);
    }
  }

  ghost predicate AddressShape(a: Address, b: Address) {
    |a.ip| == |b.ip|
  }

  lemma AddressExactly(a: Address, b: Address)
    requires AddressShape(a, b)
    ensures |AddressStream(a)| == |AddressStream(b)| && (AddressStream(a) == AddressStream(b) <==> a == b)
  {
    Powers();
    BytesExactly(a.port % 0x1_0000_0000, b.port % 0x1_0000_0000, 4);
    Cut2(a.ip, BigEndian(a.port % 0x1_0000_0000, 4), b.ip, BigEndian(b.port % 0x1_0000_0000, 4));
  }

  lemma AddressesExactly(a: seq<Address>, b: seq<Address>)
    requires Pairwise(AddressShape, a, b)
    ensures |Concat(AddressStream, a)| == |Concat(AddressStream, b)|
    ensures Concat(AddressStream, a) == Concat(AddressStream, b) <==> a == b
  {
    forall x, y | AddressShape(x, y)
      ensures |AddressStream(x)| == |AddressStream(y)| && (AddressStream(x) == AddressStream(y) <==> x == y)
    {
      AddressExactly(x, y);
    }
    ListExactly(AddressStream, Itself, AddressShape, a, b);
    MapItself(a);
    MapItself(b);
  }

  ghost predicate ProbeShape(a: Probe, b: Probe) {
    && |a.url| == |b.url| && Pairwise(SameLength, a.request, b.request) && |a.timeout| == |b.timeout|
    && |a.interval| == |b.interval| && |a.initial| == |b.initial| && |a.window| == |b.window|
    && |a.threshold| == |b.threshold|
  }

  lemma ProbeExactly(a: Probe, b: Probe)
    requires ProbeShape(a, b)
    ensures |ProbeStream(a)| == |ProbeStream(b)| && (ProbeStream(a) == ProbeStream(b) <==> a == b)
  {
    Powers();
    var ra, rb := Concat(Itself, a.request), Concat(Itself, b.request);
    var ea, eb := BigEndian(a.expResponse, 2), BigEndian(b.expResponse, 2);
    StringsExactly(a.request, b.request);
    BytesExactly(a.expResponse, b.expResponse, 2);
    Cut5(a.url, ra, ea, a.timeout, a.interval, b.url, rb, eb, b.timeout, b.interval);
    Cut4(
      a.url + ra + ea + a.timeout + a.interval, a.initial, a.window, a.threshold,
      b.url + rb + eb + b.timeout + b.interval, b.initial, b.window, b.threshold);
  }

  lemma ByteExactly(m: uint8, n: uint8)
    ensures |Byte(m)| == |Byte(n)| == 1 && (Byte(m) == Byte(n) <==> m == n)
  {
    assert Byte(m)[0] as int == m && Byte(n)[0] as int == n;
  }

  ghost predicate DirectorShape(a: Director, b: Director) {
    |a.rampup| == |b.rampup| && Percent(a.warmup) && Percent(b.warmup)
  }

  lemma DirectorExactly(fb: FloatBits, a: Director, b: Director)
    requires IsBits(fb) && DirectorShape(a, b)
    ensures |DirectorStream(fb, a)| == |DirectorStream(fb, b)|
    ensures DirectorStream(fb, a) == DirectorStream(fb, b) <==> a == b
  {
    ByteExactly(a.kind, b.kind);
    Cut3(a.rampup, fb(a.warmup), Byte(a.kind), b.rampup, fb(b.warmup), Byte(b.kind));
  }

  ghost predicate BackendShape(a: Backend, b: Backend) {
    && (a.probe.Some? <==> b.probe.Some?) && (a.probe.Some? ==> ProbeShape(a.probe.value, b.probe.value))
    && (a.director.Some? <==> b.director.Some?)
    && (a.director.Some? ==> DirectorShape(a.director.value, b.director.value))
    && |a.hostHeader| == |b.hostHeader| && |a.connectTimeout| == |b.connectTimeout|
    && |a.firstByteTimeout| == |b.firstByteTimeout| && |a.betweenBytesTimeout| == |b.betweenBytesTimeout|
  }

  lemma BackendExactly(fb: FloatBits, a: Backend, b: Backend)
    requires IsBits(fb) && BackendShape(a, b)
    ensures |BackendStream(fb, a)| == |BackendStream(fb, b)|
    ensures BackendStream(fb, a) == BackendStream(fb, b) <==> a == b
  {
    Powers();
    var pa, pb := if a.probe.Some? then ProbeStream(a.probe.value) else "",
      if b.probe.Some? then ProbeStream(b.probe.value) else "";
    var da, db := if a.director.Some? then DirectorStream(fb, a.director.value) else "",
      if b.director.Some? then DirectorStream(fb, b.director.value) else "";
    if a.probe.Some? {
      ProbeExactly(a.probe.value, b.probe.value);
    }
    if a.director.Some? {
      DirectorExactly(fb, a.director.value, b.director.value);
    }
    ByteExactly(a.proxyHeader, b.proxyHeader);
    BytesExactly(a.maxConnections, b.maxConnections, 4);
    Cut5(
      pa, da, a.hostHeader, a.connectTimeout, a.firstByteTimeout,
      pb, db, b.hostHeader, b.connectTimeout, b.firstByteTimeout);
    Cut4(
      pa + da + a.hostHeader + a.connectTimeout + a.firstByteTimeout,
      a.betweenBytesTimeout, Byte(a.proxyHeader), BigEndian(a.maxConnections, 4),
      pb + db + b.hostHeader + b.connectTimeout + b.firstByteTimeout,
      b.betweenBytesTimeout, Byte(b.proxyHeader), BigEndian(b.maxConnections, 4));
  }

  ghost predicate ServiceShape(a: Service, b: Service) {
    |a.name| == |b.name| && Pairwise(AddressShape, a.addresses, b.addresses) && BackendShape(a.backend, b.backend)
  }

  lemma ServiceExactly(fb: FloatBits, a: Service, b: Service)
    requires IsBits(fb) && ServiceShape(a, b)
    ensures |ServiceStream(fb)(a)| == |ServiceStream(fb)(b)|
    ensures ServiceStream(fb)(a) == ServiceStream(fb)(b) <==> a == b
  {
    AddressesExactly(a.addresses, b.addresses);
    BackendExactly(fb, a.backend, b.backend);
    Cut3(
      a.name, Concat(AddressStream, a.addresses), BackendStream(fb, a.backend),
      b.name, Concat(AddressStream, b.addresses), BackendStream(fb, b.backend));
  }

  // ---- Maps ----

  type Entry = (string, Service)

  function EntryAt(m: map<string, Service>): string -> Entry {
    (k: string) => (k, if k in m then m[k] else NO_SERVICE)
  }

  ghost function Entries(m: map<string, Service>): (r: seq<Entry>)
    ensures |r| == |SortedKeys(m.Keys)|
  {
    Map(EntryAt(m), SortedKeys(m.Keys))
  }

  function PairStream(fb: FloatBits): Entry -> string {
    (e: Entry) => e.0 + ServiceStream(fb)(e.1)
  }

  lemma {:induction false} ConcatCompose<T, U>(f: T -> string, g: U -> string, h: T -> U, s: seq<T>)
    requires forall i :: 0 <= i < |s| ==> f(s[i]) == g(h(s[i]))
    ensures Concat(f, s) == Concat(g, Map(h, s))
  {
    if s != [] {
      ConcatCompose(f, g, h, s[..|s| - 1]);
      assert Map(h, s)[..|s| - 1] == Map(h, s[..|s| - 1]);
    }
  }

  lemma KeysMember(keys: set<string>, k: string)
    ensures k in SortedKeys(keys) <==> k in keys
  {
    var e := Enumeration(keys);
    SortMember(Itself, StrLess, e, k);
    assert k in e <==> k in multiset(e);
  }

  lemma MapStreamIsEntries(fb: FloatBits, m: map<string, Service>)
    ensures MapStream(fb, m) == Concat(PairStream(fb), Entries(m))
  {
    var keys := SortedKeys(m.Keys);
    forall i | 0 <= i < |keys| ensures EntryStream(fb, m)(keys[i]) == PairStream(fb)(EntryAt(m)(keys[i])) {
      KeysMember(m.Keys, keys[i]);
    }
    ConcatCompose(EntryStream(fb, m), PairStream(fb), EntryAt(m), keys);
  }

  lemma EntriesExactly(m: map<string, Service>, n: map<string, Service>)
    ensures Entries(m) == Entries(n) <==> m == n
  {
    if Entries(m) == Entries(n) {
      EntriesInclude(m, n);
      EntriesInclude(n, m);
    }
  }

  lemma EntriesInclude(m: map<string, Service>, n: map<string, Service>)
    requires Entries(m) == Entries(n)
    ensures forall k :: k in m ==> k in n && n[k] == m[k]
  {
    var ks, ls := SortedKeys(m.Keys), SortedKeys(n.Keys);
    forall k | k in m ensures k in n && n[k] == m[k] {
      KeysMember(m.Keys, k);
      var i :| 0 <= i < |ks| && ks[i] == k;
      assert Entries(m)[i] == (k, m[k]) && Entries(n)[i] == EntryAt(n)(ls[i]);
      KeysMember(n.Keys, ls[i]);
    }
  }

  ghost predicate EntryShape(a: Entry, b: Entry) {
    |a.0| == |b.0| && ServiceShape(a.1, b.1)
  }

  // Key by key in order.
  ghost predicate MapShape(m: map<string, Service>, n: map<string, Service>) {
    Pairwise(EntryShape, Entries(m), Entries(n))
  }

  lemma MapExactly(fb: FloatBits, m: map<string, Service>, n: map<string, Service>)
    requires IsBits(fb) && MapShape(m, n)
    ensures |MapStream(fb, m)| == |MapStream(fb, n)| && (MapStream(fb, m) == MapStream(fb, n) <==> m == n)
  {
    var f := PairStream(fb);
    forall x, y | EntryShape(x, y) ensures |f(x)| == |f(y)| && (f(x) == f(y) <==> x == y) {
      ServiceExactly(fb, x.1, y.1);
      Cut2(x.0, ServiceStream(fb)(x.1), y.0, ServiceStream(fb)(y.1));
    }
    MapStreamIsEntries(fb, m);
    MapStreamIsEntries(fb, n);
    ListExactly(f, Itself, EntryShape, Entries(m), Entries(n));
    MapItself(Entries(m));
    MapItself(Entries(n));
    EntriesExactly(m, n);
  }

  ghost predicate RuleShape(a: Rule, b: Rule) {
    |a.host| == |b.host| && MapShape(a.pathMap, b.pathMap)
  }

  lemma RulesExactly(fb: FloatBits, a: seq<Rule>, b: seq<Rule>)
    requires IsBits(fb) && Pairwise(RuleShape, a, b)
    ensures |Concat(RuleStream(fb), a)| == |Concat(RuleStream(fb), b)|
    ensures Concat(RuleStream(fb), a) == Concat(RuleStream(fb), b) <==> a == b
  {
    var f := RuleStream(fb);
    forall x, y | RuleShape(x, y) ensures |f(x)| == |f(y)| && (f(x) == f(y) <==> x == y) {
      MapExactly(fb, x.pathMap, y.pathMap);
      Cut2(x.host, MapStream(fb, x.pathMap), y.host, MapStream(fb, y.pathMap));
    }
    ListExactly(f, Itself, RuleShape, a, b);
    MapItself(a);
    MapItself(b);
  }

  ghost predicate ShardShape(a: ShardCluster, b: ShardCluster) {
    && Pairwise(ServiceShape, a.nodes, b.nodes) && ProbeShape(a.probe, b.probe)
    && |a.maxSecondaryTTL| == |b.maxSecondaryTTL|
  }

  lemma ShardExactly(fb: FloatBits, a: ShardCluster, b: ShardCluster)
    requires IsBits(fb) && ShardShape(a, b)
    ensures |ShardStream(fb, a)| == |ShardStream(fb, b)| && (ShardStream(fb, a) == ShardStream(fb, b) <==> a == b)
  {
    var f := ServiceStream(fb);
    forall x, y | ServiceShape(x, y) ensures |f(x)| == |f(y)| && (f(x) == f(y) <==> x == y) {
      ServiceExactly(fb, x, y);
    }
    ListExactly(f, Itself, ServiceShape, a.nodes, b.nodes);
    MapItself(a.nodes);
    MapItself(b.nodes);
    ProbeExactly(a.probe, b.probe);
    Cut3(
      Concat(f, a.nodes), ProbeStream(a.probe), a.maxSecondaryTTL,
      Concat(f, b.nodes), ProbeStream(b.probe), b.maxSecondaryTTL);
  }

  // ---- Flags ----

  // The texts of those of the first n flags that are set.
  function Texts(set_: seq<bool>, texts: seq<string>, n: nat): string
    requires n <= |set_| && n <= |texts|
  {
    if n == 0 then "" else Texts(set_, texts, n - 1) + Flag(set_[n - 1], texts[n - 1])
  }

  function End(s: string): (char, char) {
    if |s| < 2 then ('_', '_') else (s[|s| - 2], s[|s| - 1])
  }

  // Texts that can be told apart by their last two letters.
  ghost predicate Ends(texts: seq<string>) {
    && (forall i :: 0 <= i < |texts| ==> |texts[i]| >= 2)
    && forall i, j :: 0 <= i < j < |texts| ==> End(texts[i]) != End(texts[j])
  }

  lemma Peel(x: string, b: bool, y: string, c: bool, text: string)
    requires |text| >= 2 && (x == "" || End(x) != End(text)) && (y == "" || End(y) != End(text))
    ensures x + Flag(b, text) == y + Flag(c, text) <==> x == y && b == c
  {
    assert End(x + text) == End(text) && End(y + text) == End(text);
    if x + text == y + text {
      assert x == (x + text)[..|x|] && y == (y + text)[..|y|];
    }
    assert x + "" == x && y + "" == y;
  }

  lemma EndOfBoth(s: string, text: string)
    requires |text| >= 2
    ensures End(s + text) == End(text)
  {
  }

  lemma PlusNothing(s: string)
    ensures s + "" == s
  {
  }

  lemma {:induction false} TextsEnd(set_: seq<bool>, texts: seq<string>, n: nat) returns (k: nat)
    requires n <= |set_| && n <= |texts| && Ends(texts) && Texts(set_, texts, n) != ""
    ensures k < n && End(Texts(set_, texts, n)) == End(texts[k])
  {
    if set_[n - 1] {
      k := n - 1;
      EndOfBoth(Texts(set_, texts, n - 1), texts[n - 1]);
    } else {
      PlusNothing(Texts(set_, texts, n - 1));
      k := TextsEnd(set_, texts, n - 1);
    }
  }

  lemma LastTextDiffers(set_: seq<bool>, texts: seq<string>, n: nat)
    requires n < |set_| && n < |texts| && Ends(texts)
    ensures Texts(set_, texts, n) == "" || End(Texts(set_, texts, n)) != End(texts[n])
  {
    if Texts(set_, texts, n) != "" {
      var k := TextsEnd(set_, texts, n);
    }
  }

  ghost predicate Agree(b: seq<bool>, c: seq<bool>, n: nat)
    requires n <= |b| && n <= |c|
  {
    forall k :: 0 <= k < n ==> b[k] == c[k]
  }

  lemma AgreeStep(b: seq<bool>, c: seq<bool>, n: nat)
    requires n < |b| && n < |c|
    ensures Agree(b, c, n + 1) <==> Agree(b, c, n) && b[n] == c[n]
  {
  }

  lemma LastText(b: seq<bool>, c: seq<bool>, texts: seq<string>, n: nat)
    requires n < |b| && n < |c| && n < |texts| && Ends(texts)
    ensures Texts(b, texts, n + 1) == Texts(c, texts, n + 1) <==>
      Texts(b, texts, n) == Texts(c, texts, n) && b[n] == c[n]
  {
    LastTextDiffers(b, texts, n);
    LastTextDiffers(c, texts, n);
    Peel(Texts(b, texts, n), b[n], Texts(c, texts, n), c[n], texts[n]);
  }

  // All of the flags show.
  lemma {:induction false} TextsExactly(b: seq<bool>, c: seq<bool>, texts: seq<string>, n: nat)
    requires n <= |b| && n <= |c| && n <= |texts| && Ends(texts)
    ensures Texts(b, texts, n) == Texts(c, texts, n) <==> Agree(b, c, n)
  {
    if n > 0 {
      TextsExactly(b, c, texts, n - 1);
      LastText(b, c, texts, n - 1);
      AgreeStep(b, c, n - 1);
    }
  }

  lemma OneText(start: string, b: seq<bool>, texts: seq<string>, n: nat)
    requires n < |b| && n < |texts|
    ensures start + Texts(b, texts, n + 1) == start + Texts(b, texts, n) + Flag(b[n], texts[n])
  {
    assert start + (Texts(b, texts, n) + Flag(b[n], texts[n])) == start + Texts(b, texts, n) + Flag(b[n], texts[n]);
  }

  lemma EightTexts(start: string, b: seq<bool>, t: seq<string>)
    requires |b| == |t| == 8
    ensures start + Texts(b, t, 8) ==
      start + Flag(b[0], t[0]) + Flag(b[1], t[1]) + Flag(b[2], t[2]) + Flag(b[3], t[3]) + Flag(b[4], t[4])
        + Flag(b[5], t[5]) + Flag(b[6], t[6]) + Flag(b[7], t[7])
  {
    assert start + Texts(b, t, 0) == start;
    OneText(start, b, t, 0);
    OneText(start, b, t, 1);
    OneText(start, b, t, 2);
    OneText(start, b, t, 3);
    OneText(start, b, t, 4);
    OneText(start, b, t, 5);
    OneText(start, b, t, 6);
    OneText(start, b, t, 7);
  }

  const FLAG_TEXTS := [
    "UTF8", "PosixSyntax", "LongestMatch", "Literal", "NeverCapture", "CaseSensitive", "PerlClasses", "WordBoundary"]

  function FlagsSet(f: MatchFlags): seq<bool> {
    [f.utf8, f.posixSyntax, f.longestMatch, f.literal, f.neverCapture, f.caseSensitive, f.perlClasses, f.wordBoundary]
  }

  lemma FlagEnds()
    ensures Ends(FLAG_TEXTS)
  {
    var t := FLAG_TEXTS;
    assert End(t[0]) == ('F', '8') && End(t[1]) == ('a', 'x') && End(t[2]) == ('c', 'h') && End(t[3]) == ('a', 'l');
    assert End(t[4]) == ('r', 'e') && End(t[5]) == ('v', 'e') && End(t[6]) == ('e', 's') && End(t[7]) == ('r', 'y');
  }

  lemma FlagsAre(f: MatchFlags)
    ensures FlagsStream(f) == BigEndian(f.maxMem, 8) + Byte(f.anchor) + Texts(FlagsSet(f), FLAG_TEXTS, 8)
  {
    EightTexts(BigEndian(f.maxMem, 8) + Byte(f.anchor), FlagsSet(f), FLAG_TEXTS);
  }

  // Flags show entirely, whichever are set.
  lemma FlagsExactly(f: MatchFlags, g: MatchFlags)
    ensures FlagsStream(f) == FlagsStream(g) <==> f == g
  {
    FlagsAre(f);
    FlagsAre(g);
    FlagEnds();
    TextsExactly(FlagsSet(f), FlagsSet(g), FLAG_TEXTS, 8);
    NumbersOfFlags(f, g);
    var a, b := BigEndian(f.maxMem, 8) + Byte(f.anchor), BigEndian(g.maxMem, 8) + Byte(g.anchor);
    StartsAlike(a, Texts(FlagsSet(f), FLAG_TEXTS, 8), b, Texts(FlagsSet(g), FLAG_TEXTS, 8));
    FlagsSetExactly(f, g);
  }

  lemma StartsAlike(a: string, x: string, b: string, y: string)
    requires |a| == |b|
    ensures a + x == b + y <==> a == b && x == y
  {
    if a + x == b + y {
      assert |x| == |y|;
      Cut2(a, x, b, y);
    }
  }

  lemma NumbersOfFlags(f: MatchFlags, g: MatchFlags)
    ensures var a, b := BigEndian(f.maxMem, 8) + Byte(f.anchor), BigEndian(g.maxMem, 8) + Byte(g.anchor);
      |a| == |b| && (a == b <==> f.maxMem == g.maxMem && f.anchor == g.anchor)
  {
    Powers();
    BytesExactly(f.maxMem, g.maxMem, 8);
    ByteExactly(f.anchor, g.anchor);
    Cut2(BigEndian(f.maxMem, 8), Byte(f.anchor), BigEndian(g.maxMem, 8), Byte(g.anchor));
  }

  lemma FlagsSetExactly(f: MatchFlags, g: MatchFlags)
    ensures FlagsSet(f) == FlagsSet(g) <==> Agree(FlagsSet(f), FlagsSet(g), 8)
    ensures FlagsSet(f) == FlagsSet(g) <==> g == f.(maxMem := g.maxMem, anchor := g.anchor)
  {
    var a, b := FlagsSet(f), FlagsSet(g);
    if a == b {
      assert a[0] == b[0] && a[1] == b[1] && a[2] == b[2] && a[3] == b[3];
      assert a[4] == b[4] && a[5] == b[5] && a[6] == b[6] && a[7] == b[7];
    }
  }

  ghost predicate FlagsShape(f: MatchFlags, g: MatchFlags) {
    FlagsSet(f) == FlagsSet(g)
  }

  lemma FlagsLength(f: MatchFlags, g: MatchFlags)
    requires FlagsShape(f, g)
    ensures |FlagsStream(f)| == |FlagsStream(g)|
  {
    FlagsAre(f);
    FlagsAre(g);
    NumbersOfFlags(f, g);
  }

  // ---- The rest of a Spec ----

  lemma CodesDiffer(a: CompareType, b: CompareType)
    ensures CompareCode(a) == CompareCode(b) <==> a == b
  {
  }

  lemma OneByte(a: bool, b: bool)
    ensures |BoolByte(a)| == |BoolByte(b)| && (BoolByte(a) == BoolByte(b) <==> a == b)
  {
    ByteExactly(if a then 1 else 0, if b then 1 else 0);
  }

  ghost predicate TermShape(a: MatchTerm, b: MatchTerm) {
    |a.comparand| == |b.comparand| && |a.value| == |b.value|
  }

  lemma TermExactly(a: MatchTerm, b: MatchTerm)
    requires TermShape(a, b)
    ensures |TermStream(a)| == |TermStream(b)| && (TermStream(a) == TermStream(b) <==> a == b)
  {
    CodesDiffer(a.compare, b.compare);
    ByteExactly(CompareCode(a.compare), CompareCode(b.compare));
    OneByte(a.negate, b.negate);
    Cut4(
      a.comparand, a.value, Byte(CompareCode(a.compare)), BoolByte(a.negate),
      b.comparand, b.value, Byte(CompareCode(b.compare)), BoolByte(b.negate));
  }

  lemma TermsExactly(a: seq<MatchTerm>, b: seq<MatchTerm>)
    requires Pairwise(TermShape, a, b)
    ensures |Concat(TermStream, a)| == |Concat(TermStream, b)|
    ensures Concat(TermStream, a) == Concat(TermStream, b) <==> a == b
  {
    forall x, y | TermShape(x, y)
      ensures |TermStream(x)| == |TermStream(y)| && (TermStream(x) == TermStream(y) <==> x == y)
    {
      TermExactly(x, y);
    }
    ListExactly(TermStream, Itself, TermShape, a, b);
    MapItself(a);
    MapItself(b);
  }

  ghost predicate AuthShape(a: Auth, b: Auth) {
    && |a.realm| == |b.realm| && Pairwise(SameLength, a.credentials, b.credentials)
    && Pairwise(TermShape, a.conditions, b.conditions) && a.utf8 == b.utf8
  }

  lemma AuthExactly(a: Auth, b: Auth)
    requires AuthShape(a, b)
    ensures |AuthStream(a)| == |AuthStream(b)| && (AuthStream(a) == AuthStream(b) <==> a == b)
  {
    Powers();
    StringsExactly(a.credentials, b.credentials);
    BytesExactly(a.status, b.status, 2);
    TermsExactly(a.conditions, b.conditions);
    Cut5(
      a.realm, Concat(Itself, a.credentials), BigEndian(a.status, 2), Concat(TermStream, a.conditions),
      Flag(a.utf8, "UTF8"),
      b.realm, Concat(Itself, b.credentials), BigEndian(b.status, 2), Concat(TermStream, b.conditions),
      Flag(b.utf8, "UTF8"));
  }

  ghost predicate ACLAddressShape(a: ACLAddress, b: ACLAddress) {
    |a.addr| == |b.addr| && a.negate == b.negate
  }

  lemma ACLAddressesExactly(a: seq<ACLAddress>, b: seq<ACLAddress>)
    requires Pairwise(ACLAddressShape, a, b)
    ensures |Concat(ACLAddressStream, a)| == |Concat(ACLAddressStream, b)|
    ensures Concat(ACLAddressStream, a) == Concat(ACLAddressStream, b) <==> a == b
  {
    var f := ACLAddressStream;
    forall x, y | ACLAddressShape(x, y) ensures |f(x)| == |f(y)| && (f(x) == f(y) <==> x == y) {
      ByteExactly(x.maskBits, y.maskBits);
      Cut3(x.addr, Byte(x.maskBits), Flag(x.negate, "Negate"), y.addr, Byte(y.maskBits), Flag(y.negate, "Negate"));
    }
    ListExactly(f, Itself, ACLAddressShape, a, b);
    MapItself(a);
    MapItself(b);
  }

  ghost predicate ACLShape(a: ACL, b: ACL) {
    && |a.name| == |b.name| && |a.comparand| == |b.comparand| && Pairwise(ACLAddressShape, a.addresses, b.addresses)
    && Pairwise(TermShape, a.conditions, b.conditions) && |a.resultHdr.header| == |b.resultHdr.header|
    && |a.resultHdr.success| == |b.resultHdr.success| && |a.resultHdr.failure| == |b.resultHdr.failure|
  }

  lemma ACLExactly(a: ACL, b: ACL)
    requires ACLShape(a, b)
    ensures |ACLStream(a)| == |ACLStream(b)| && (ACLStream(a) == ACLStream(b) <==> UnmarkedACL(a) == UnmarkedACL(b))
  {
    Powers();
    var sa, sb := BigEndian(a.failStatus, 2), BigEndian(b.failStatus, 2);
    var aa, ab := Concat(ACLAddressStream, a.addresses), Concat(ACLAddressStream, b.addresses);
    var ca, cb := Concat(TermStream, a.conditions), Concat(TermStream, b.conditions);
    BytesExactly(a.failStatus, b.failStatus, 2);
    ACLAddressesExactly(a.addresses, b.addresses);
    TermsExactly(a.conditions, b.conditions);
    Cut5(a.name, a.comparand, sa, aa, ca, b.name, b.comparand, sb, ab, cb);
    Cut4(
      a.name + a.comparand + sa + aa + ca, a.resultHdr.header, a.resultHdr.success, a.resultHdr.failure,
      b.name + b.comparand + sb + ab + cb, b.resultHdr.header, b.resultHdr.success, b.resultHdr.failure);
  }

  ghost predicate RewriteRuleShape(a: RewriteRule, b: RewriteRule) {
    |a.value| == |b.value| && |a.rewrite| == |b.rewrite|
  }

  lemma RewriteRulesExactly(a: seq<RewriteRule>, b: seq<RewriteRule>)
    requires Pairwise(RewriteRuleShape, a, b)
    ensures |Concat(RewriteRuleStream, a)| == |Concat(RewriteRuleStream, b)|
    ensures Concat(RewriteRuleStream, a) == Concat(RewriteRuleStream, b) <==> a == b
  {
    var f := RewriteRuleStream;
    forall x, y | RewriteRuleShape(x, y) ensures |f(x)| == |f(y)| && (f(x) == f(y) <==> x == y) {
      Cut2(x.value, x.rewrite, y.value, y.rewrite);
    }
    ListExactly(f, Itself, RewriteRuleShape, a, b);
    MapItself(a);
    MapItself(b);
  }

  ghost predicate RewriteShape(a: Rewrite, b: Rewrite) {
    && Pairwise(RewriteRuleShape, a.rules, b.rules) && FlagsShape(a.matchFlags, b.matchFlags)
    && |a.target| == |b.target| && |a.source| == |b.source|
  }

  lemma RewriteExactly(a: Rewrite, b: Rewrite)
    requires RewriteShape(a, b)
    ensures |RewriteStream(a)| == |RewriteStream(b)| && (RewriteStream(a) == RewriteStream(b) <==> a == b)
  {
    var ra, rb := Concat(RewriteRuleStream, a.rules), Concat(RewriteRuleStream, b.rules);
    var fa, fb := FlagsStream(a.matchFlags), FlagsStream(b.matchFlags);
    RewriteRulesExactly(a.rules, b.rules);
    FlagsExactly(a.matchFlags, b.matchFlags);
    FlagsLength(a.matchFlags, b.matchFlags);
    CodesDiffer(a.compare, b.compare);
    ByteExactly(a.method_, b.method_);
    ByteExactly(CompareCode(a.compare), CompareCode(b.compare));
    OneByte(a.negate, b.negate);
    ByteExactly(a.vclSub, b.vclSub);
    ByteExactly(a.select, b.select);
    Cut5(ra, fa, a.target, a.source, Byte(a.method_), rb, fb, b.target, b.source, Byte(b.method_));
    Cut5(
      ra + fa + a.target + a.source + Byte(a.method_),
      Byte(CompareCode(a.compare)), BoolByte(a.negate), Byte(a.vclSub), Byte(a.select),
      rb + fb + b.target + b.source + Byte(b.method_),
      Byte(CompareCode(b.compare)), BoolByte(b.negate), Byte(b.vclSub), Byte(b.select));
  }

  lemma RewritesExactly(a: seq<Rewrite>, b: seq<Rewrite>)
    requires Pairwise(RewriteShape, a, b)
    ensures |Concat(RewriteStream, a)| == |Concat(RewriteStream, b)|
    ensures Concat(RewriteStream, a) == Concat(RewriteStream, b) <==> a == b
  {
    var f := RewriteStream;
    forall x, y | RewriteShape(x, y) ensures |f(x)| == |f(y)| && (f(x) == f(y) <==> x == y) {
      RewriteExactly(x, y);
    }
    ListExactly(f, Itself, RewriteShape, a, b);
    MapItself(a);
    MapItself(b);
  }

  ghost predicate ConditionShape(a: Condition, b: Condition) {
    && Pairwise(SameLength, a.values, b.values) && FlagsShape(a.matchFlags, b.matchFlags)
    && (a.count.Some? <==> b.count.Some?) && |a.comparand| == |b.comparand|
  }

  lemma ConditionExactly(a: Condition, b: Condition)
    requires ConditionShape(a, b)
    ensures |ConditionStream(a)| == |ConditionStream(b)| && (ConditionStream(a) == ConditionStream(b) <==> a == b)
  {
    Powers();
    var va, vb := Concat(Itself, a.values), Concat(Itself, b.values);
    var fa, fb := FlagsStream(a.matchFlags), FlagsStream(b.matchFlags);
    var ca, cb := if a.count.Some? then BigEndian(a.count.value, 8) else "",
      if b.count.Some? then BigEndian(b.count.value, 8) else "";
    StringsExactly(a.values, b.values);
    FlagsExactly(a.matchFlags, b.matchFlags);
    FlagsLength(a.matchFlags, b.matchFlags);
    if a.count.Some? {
      BytesExactly(a.count.value, b.count.value, 8);
    }
    CodesDiffer(a.compare, b.compare);
    ByteExactly(CompareCode(a.compare), CompareCode(b.compare));
    OneByte(a.negate, b.negate);
    Cut5(
      va, fa, ca, a.comparand, Byte(CompareCode(a.compare)), vb, fb, cb, b.comparand, Byte(CompareCode(b.compare)));
    Cut2(
      va + fa + ca + a.comparand + Byte(CompareCode(a.compare)), BoolByte(a.negate),
      vb + fb + cb + b.comparand + Byte(CompareCode(b.compare)), BoolByte(b.negate));
  }

  lemma ConditionsExactly(a: seq<Condition>, b: seq<Condition>)
    requires Pairwise(ConditionShape, a, b)
    ensures |Concat(ConditionStream, a)| == |Concat(ConditionStream, b)|
    ensures Concat(ConditionStream, a) == Concat(ConditionStream, b) <==> a == b
  {
    var f := ConditionStream;
    forall x, y | ConditionShape(x, y) ensures |f(x)| == |f(y)| && (f(x) == f(y) <==> x == y) {
      ConditionExactly(x, y);
    }
    ListExactly(f, Itself, ConditionShape, a, b);
    MapItself(a);
    MapItself(b);
  }

  ghost predicate DispositionShape(a: DispositionSpec, b: DispositionSpec) {
    && Pairwise(ConditionShape, a.conditions, b.conditions) && |a.disposition.action| == |b.disposition.action|
    && (a.disposition.action == "synth" <==> b.disposition.action == "synth")
  }

  lemma DispositionExactly(a: DispositionSpec, b: DispositionSpec)
    requires DispositionShape(a, b)
    ensures |DispositionStream(a)| == |DispositionStream(b)|
    ensures DispositionStream(a) == DispositionStream(b) <==> UnmarkedDisposition(a) == UnmarkedDisposition(b)
  {
    Powers();
    var sa, sb := if a.disposition.action == RECV_SYNTH then BigEndian(a.disposition.status, 2) else "",
      if b.disposition.action == RECV_SYNTH then BigEndian(b.disposition.status, 2) else "";
    ConditionsExactly(a.conditions, b.conditions);
    BytesExactly(a.disposition.status, b.disposition.status, 2);
    Cut3(
      Concat(ConditionStream, a.conditions), a.disposition.action, sa,
      Concat(ConditionStream, b.conditions), b.disposition.action, sb);
  }

  // ---- Whole Specs ----

  ghost predicate ServicesShape(a: Spec, b: Spec) {
    && ServiceShape(a.defaultService, b.defaultService) && Pairwise(RuleShape, a.rules, b.rules)
    && MapShape(a.allServices, b.allServices)
  }

  ghost predicate ConfigShape(a: Spec, b: Spec) {
    && ShardShape(a.shardCluster, b.shardCluster) && |a.vcl| == |b.vcl| && Pairwise(AuthShape, a.auths, b.auths)
    && Pairwise(ACLShape, a.acls, b.acls) && Pairwise(RewriteShape, a.rewrites, b.rewrites)
    && Pairwise(DispositionShape, a.dispositions, b.dispositions)
  }

  // The same lengths of all strings and lists, and the same optional parts and
  // flags.
  ghost predicate SameShape(a: Spec, b: Spec) {
    ServicesShape(a, b) && ConfigShape(a, b)
  }

  lemma ServicesExactly(fb: FloatBits, a: Spec, b: Spec)
    requires IsBits(fb) && ServicesShape(a, b)
    ensures |ServicesStream(fb, a)| == |ServicesStream(fb, b)|
    ensures ServicesStream(fb, a) == ServicesStream(fb, b) <==>
      a.defaultService == b.defaultService && a.rules == b.rules && a.allServices == b.allServices
  {
    ServiceExactly(fb, a.defaultService, b.defaultService);
    RulesExactly(fb, a.rules, b.rules);
    MapExactly(fb, a.allServices, b.allServices);
    Cut3(
      ServiceStream(fb)(a.defaultService), Concat(RuleStream(fb), a.rules), MapStream(fb, a.allServices),
      ServiceStream(fb)(b.defaultService), Concat(RuleStream(fb), b.rules), MapStream(fb, b.allServices));
  }

  lemma AuthsExactly(a: seq<Auth>, b: seq<Auth>)
    requires Pairwise(AuthShape, a, b)
    ensures |Concat(AuthStream, a)| == |Concat(AuthStream, b)|
    ensures Concat(AuthStream, a) == Concat(AuthStream, b) <==> a == b
  {
    var f := AuthStream;
    forall x, y | AuthShape(x, y) ensures |f(x)| == |f(y)| && (f(x) == f(y) <==> x == y) {
      AuthExactly(x, y);
    }
    ListExactly(f, Itself, AuthShape, a, b);
    MapItself(a);
    MapItself(b);
  }

  lemma ACLsExactly(a: seq<ACL>, b: seq<ACL>)
    requires Pairwise(ACLShape, a, b)
    ensures |Concat(ACLStream, a)| == |Concat(ACLStream, b)|
    ensures Concat(ACLStream, a) == Concat(ACLStream, b) <==> Map(UnmarkedACL, a) == Map(UnmarkedACL, b)
  {
    var f, g := ACLStream, UnmarkedACL;
    forall x, y | ACLShape(x, y) ensures |f(x)| == |f(y)| && (f(x) == f(y) <==> g(x) == g(y)) {
      ACLExactly(x, y);
    }
    ListExactly(f, g, ACLShape, a, b);
  }

  lemma DispositionsExactly(a: seq<DispositionSpec>, b: seq<DispositionSpec>)
    requires Pairwise(DispositionShape, a, b)
    ensures |Concat(DispositionStream, a)| == |Concat(DispositionStream, b)|
    ensures Concat(DispositionStream, a) == Concat(DispositionStream, b) <==>
      Map(UnmarkedDisposition, a) == Map(UnmarkedDisposition, b)
  {
    var f, g := DispositionStream, UnmarkedDisposition;
    forall x, y | DispositionShape(x, y) ensures |f(x)| == |f(y)| && (f(x) == f(y) <==> g(x) == g(y)) {
      DispositionExactly(x, y);
    }
    ListExactly(f, g, DispositionShape, a, b);
  }

  lemma ConfigExactly(fb: FloatBits, a: Spec, b: Spec)
    requires IsBits(fb) && ConfigShape(a, b)
    ensures |ConfigStream(fb, a)| == |ConfigStream(fb, b)|
    ensures ConfigStream(fb, a) == ConfigStream(fb, b) <==>
      && a.shardCluster == b.shardCluster && a.vcl == b.vcl && a.auths == b.auths
      && Map(UnmarkedACL, a.acls) == Map(UnmarkedACL, b.acls) && a.rewrites == b.rewrites
      && Map(UnmarkedDisposition, a.dispositions) == Map(UnmarkedDisposition, b.dispositions)
  {
    ShardExactly(fb, a.shardCluster, b.shardCluster);
    AuthsExactly(a.auths, b.auths);
    ACLsExactly(a.acls, b.acls);
    RewritesExactly(a.rewrites, b.rewrites);
    DispositionsExactly(a.dispositions, b.dispositions);
    var sa, sb := ShardStream(fb, a.shardCluster), ShardStream(fb, b.shardCluster);
    var ua, ub := Concat(AuthStream, a.auths), Concat(AuthStream, b.auths);
    var la, lb := Concat(ACLStream, a.acls), Concat(ACLStream, b.acls);
    var ra, rb := Concat(RewriteStream, a.rewrites), Concat(RewriteStream, b.rewrites);
    Cut5(sa, a.vcl, ua, la, ra, sb, b.vcl, ub, lb, rb);
    Cut2(
      sa + a.vcl + ua + la + ra, Concat(DispositionStream, a.dispositions),
      sb + b.vcl + ub + lb + rb, Concat(DispositionStream, b.dispositions));
  }

  // Specs of the same shape have the same stream exactly if they are the same,
  // but for what is not written.
  lemma StreamExactly(fb: FloatBits, a: Spec, b: Spec)
    requires IsBits(fb) && SameShape(a, b)
    ensures SpecStream(fb, a) == SpecStream(fb, b) <==> Unmarked(a) == Unmarked(b)
  {
    ServicesExactly(fb, a, b);
    ConfigExactly(fb, a, b);
    Cut2(ServicesStream(fb, a), ConfigStream(fb, a), ServicesStream(fb, b), ConfigStream(fb, b));
  }

  // Two strings that do not have the same digest.
  ghost predicate NoCollision(sha: Sha, s: string, t: string) {
    sha(s) == sha(t) ==> s == t
  }

  // So names of configurations of the same shape differ exactly if what is
  // written does.
  lemma NamesExactly(sha: Sha, fb: FloatBits, a: Spec, b: Spec)
    requires IsBits(fb) && SameShape(Canon(a), Canon(b))
    requires NoCollision(sha, SpecStream(fb, Canon(a)), SpecStream(fb, Canon(b)))
    ensures ConfigName(sha, fb, a) == ConfigName(sha, fb, b) <==> Unmarked(Canon(a)) == Unmarked(Canon(b))
  {
    NamesFaithful(sha(SpecStream(fb, Canon(a))), sha(SpecStream(fb, Canon(b))));
    StreamExactly(fb, Canon(a), Canon(b));
  }
}
