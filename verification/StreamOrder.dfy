// In which order a Spec is written: a Spec all of whose parts are letters of
// their own, and the text that it is hashed from.
module StreamOrder {
  import opened Prelude
  import opened Orders
  import opened StableSort
  import opened VclSpec
  import opened CanonicalForm
  import opened DeepHash
  import opened Streams

  lemma TwoBytes(a: char, b: char)
    requires a as int < 256 && b as int < 256
    ensures BigEndian(a as int * 256 + b as int, 2) == [a, b]
  {
    assert BigEndian(a as int, 1) == BigEndian(0, 0) + [a];
    assert BigEndian(a as int * 256 + b as int, 2) == BigEndian(a as int, 1) + [b];
  }

  lemma FourBytes(a: char, b: char, c: char, d: char)
    requires a as int < 256 && b as int < 256 && c as int < 256 && d as int < 256
    ensures BigEndian(((a as int * 256 + b as int) * 256 + c as int) * 256 + d as int, 4) == [a, b, c, d]
  {
    var ab := a as int * 256 + b as int;
    TwoBytes(a, b);
    assert BigEndian(ab * 256 + c as int, 3) == BigEndian(ab, 2) + [c];
    assert BigEndian((ab * 256 + c as int) * 256 + d as int, 4) == BigEndian(ab * 256 + c as int, 3) + [d];
  }

  lemma OneOf<T>(f: T -> string, x: T)
    ensures Concat(f, [x]) == f(x)
  {
    assert Concat(f, [x]) == Concat(f, [x][..0]) + f(x) == "" + f(x);
  }

  lemma TwoOf<T>(f: T -> string, x: T, y: T)
    ensures Concat(f, [x, y]) == f(x) + f(y)
  {
    OneOf(f, x);
    assert [x, y][..1] == [x];
  }

  // A probe.
  lemma ProbeInOrder()
    ensures ProbeStream(Probe("a", ["b", "c"], 0x6465, "f", "g", "h", "i", "j")) == "abcdefghij"
  {
    TwoOf(Itself, "b", "c");
    TwoBytes('d', 'e');
    assert 'd' as int * 256 + 'e' as int == 0x6465;
  }

  lemma AddressInOrder()
    ensures AddressStream(Address("a", 0x6263_6465)) == "abcde"
  {
    FourBytes('b', 'c', 'd', 'e');
    assert (('b' as int * 256 + 'c' as int) * 256 + 'd' as int) * 256 + 'e' as int == 0x6263_6465;
  }

  lemma DirectorInOrder(fb: FloatBits, w: real)
    ensures DirectorStream(fb, Director("a", w, 0x62)) == "a" + fb(w) + "b"
  {
  }

  lemma BackendInOrder(fb: FloatBits, p: Probe, d: Director)
    ensures BackendStream(fb, Backend(Some(p), Some(d), "a", "b", "c", "d", 0x6667_6869, 0x65)) ==
      ProbeStream(p) + DirectorStream(fb, d) + "a" + "b" + "c" + "d" + "e" + "fghi"
  {
    FourBytes('f', 'g', 'h', 'i');
    assert (('f' as int * 256 + 'g' as int) * 256 + 'h' as int) * 256 + 'i' as int == 0x6667_6869;
  }

  // A Service.
  lemma ServiceInOrder(fb: FloatBits, a: Address, b: Address, c: Backend)
    ensures ServiceStream(fb)(Service("n", [a, b], c)) ==
      "n" + (AddressStream(a) + AddressStream(b)) + BackendStream(fb, c)
  {
    TwoOf(AddressStream, a, b);
  }

  lemma TermInOrder()
    ensures TermStream(MatchTerm("a", "b", LessEqual, true)) == "ab" + [7 as char, 1 as char]
  {
  }

  // Credentials and an ACL.
  lemma AuthInOrder(s: MatchTerm, t: MatchTerm)
    ensures AuthStream(Auth([s, t], ["b", "c"], "a", 0x6465, true)) ==
      "abcde" + (TermStream(s) + TermStream(t)) + "UTF8"
  {
    TwoOf(Itself, "b", "c");
    TwoBytes('d', 'e');
    assert 'd' as int * 256 + 'e' as int == 0x6465;
    TwoOf(TermStream, s, t);
  }

  lemma ACLAddressInOrder()
    ensures ACLAddressStream(ACLAddress("a", 0x62, true)) == "ab" + "Negate"
  {
  }

  lemma ACLInOrder(a: ACLAddress, b: ACLAddress, s: MatchTerm, t: MatchTerm, whitelist: bool)
    ensures ACLStream(ACL("a", "b", 0x6364, whitelist, [a, b], [s, t], ResultHdr("e", "f", "g"))) ==
      "abcd" + (ACLAddressStream(a) + ACLAddressStream(b)) + (TermStream(s) + TermStream(t)) + "e" + "f" + "g"
  {
    TwoBytes('c', 'd');
    assert 'c' as int * 256 + 'd' as int == 0x6364;
    TwoOf(ACLAddressStream, a, b);
    TwoOf(TermStream, s, t);
  }

  // Flags, all of which are set.
  lemma FlagsInOrder(n: uint64)
    ensures FlagsStream(MatchFlags(n, 0x61, true, true, true, true, true, true, true, true)) ==
      BigEndian(n, 8) + "a" + "UTF8" + "PosixSyntax" + "LongestMatch" + "Literal" + "NeverCapture" + "CaseSensitive"
        + "PerlClasses" + "WordBoundary"
  {
  }

  // A rewrite and a disposition.
  lemma RewriteInOrder(f: MatchFlags)
    ensures RewriteStream(
      Rewrite([RewriteRule("a", "b"), RewriteRule("c", "d")], f, "e", "f", 0x67, Match, false, 0x68, 0x69)) ==
        "abcd" + FlagsStream(f) + "e" + "f" + "g" + [1 as char] + [0 as char] + "h" + "i"
  {
    TwoOf(RewriteRuleStream, RewriteRule("a", "b"), RewriteRule("c", "d"));
  }

  lemma ConditionInOrder(f: MatchFlags, n: uint64)
    ensures ConditionStream(Condition(["a", "b"], f, Some(n), "c", Prefix, true)) ==
      "ab" + FlagsStream(f) + BigEndian(n, 8) + "c" + [2 as char] + [1 as char]
  {
    TwoOf(Itself, "a", "b");
  }

  lemma DispositionInOrder(c: Condition, d: Condition, reason: string)
    ensures DispositionStream(DispositionSpec([c, d], Disposition("synth", 0x6162, reason))) ==
      ConditionStream(c) + ConditionStream(d) + "synth" + "ab"
  {
    TwoOf(ConditionStream, c, d);
    TwoBytes('a', 'b');
    assert 'a' as int * 256 + 'b' as int == 0x6162;
  }

  lemma TwoSorted<T>(lt: (T, T) -> bool, x: T, y: T)
    requires !lt(y, x)
    ensures Sort(Itself, lt, [x, y]) == [x, y]
  {
    assert [x, y][..1] == [x] && [x][..0] == [];
    assert Sort(Itself, lt, [x]) == Insert(Itself, lt, [], x) == [x];
    assert Sort(Itself, lt, [x, y]) == Insert(Itself, lt, [x], y) == [x] + [y];
  }

  lemma KeysInOrder(x: string, y: string)
    requires x != y && !StrLess(y, x)
    ensures SortedKeys({x, y}) == [x, y]
  {
    assert multiset([x, y]) == multiset({x, y});
    SortedKeysUnique([x, y], {x, y});
    TwoSorted(StrLess, x, y);
  }

  lemma EntryInOrder(fb: FloatBits, m: map<string, Service>, k: string)
    requires k in m
    ensures EntryStream(fb, m)(k) == k + ServiceStream(fb)(m[k])
  {
  }

  // A map of two entries.
  lemma MapInOrder(fb: FloatBits, m: map<string, Service>, x: string, y: string)
    requires m.Keys == {x, y} && Precedes(x, y)
    ensures MapStream(fb, m) == (x + ServiceStream(fb)(m[x])) + (y + ServiceStream(fb)(m[y]))
  {
    NotBoth(x, y);
    KeysInOrder(x, y);
    assert x in m.Keys && y in m.Keys;
    EntryInOrder(fb, m, x);
    EntryInOrder(fb, m, y);
    TwoOf(EntryStream(fb, m), x, y);
  }

  lemma NotBoth(x: string, y: string)
    requires Precedes(x, y)
    ensures x != y && !StrLess(y, x)
  {
    StrLessExactly(x, y);
    StrLessIrreflexive(x);
    if StrLess(y, x) {
      StrLessTransitive(x, y, x);
    }
  }

  // A whole Spec.
  lemma SpecInOrder(
      fb: FloatBits, s: Service, m: map<string, Service>, n: map<string, Service>, node: Service, probe: Probe,
      auth: Auth, acl: ACL, rewrite: Rewrite, disp: DispositionSpec)
    ensures SpecStream(
      fb, Spec(s, [Rule("h", m)], n, ShardCluster([node], probe, "t"), [auth], "v", [acl], [rewrite], [disp])) ==
        ServiceStream(fb)(s) + ("h" + MapStream(fb, m)) + MapStream(fb, n)
          + (ServiceStream(fb)(node) + ProbeStream(probe) + "t" + "v" + AuthStream(auth) + ACLStream(acl)
            + RewriteStream(rewrite) + DispositionStream(disp))
  {
    OneOf(RuleStream(fb), Rule("h", m));
    OneOf(ServiceStream(fb), node);
    OneOf(AuthStream, auth);
    OneOf(ACLStream, acl);
    OneOf(RewriteStream, rewrite);
    OneOf(DispositionStream, disp);
  }

  // ---- The text of the digest ----

  function ValueOf(c: char): nat {
    if '0' <= c <= '9' then c as int - '0' as int
    else if 'a' <= c <= 'z' then c as int - 'a' as int + 10
    else if 'A' <= c <= 'Z' then c as int - 'A' as int + 36
    else 0
  }

  function Read62(s: string): nat {
    if s == "" then 0 else Read62(s[..|s| - 1]) * 62 + ValueOf(s[|s| - 1])
  }

  // It is the number to base 62, with 0-9, a-z and A-Z for digits, and no zero
  // in front.
  lemma {:induction false} Base62Reads(n: nat)
    ensures Read62(Base62(n)) == n && (n > 0 ==> Base62(n)[0] != '0')
  {
    assert ValueOf(Digit(n % 62)) == n % 62;
    if n >= 62 {
      Base62Reads(n / 62);
      assert Base62(n)[..|Base62(n)| - 1] == Base62(n / 62);
      assert Base62(n)[0] == Base62(n / 62)[0];
    } else {
      assert Base62(n) == [Digit(n)] && Base62(n)[..0] == "";
      assert Read62(Base62(n)) == Read62("") * 62 + ValueOf(Digit(n));
    }
  }
}
