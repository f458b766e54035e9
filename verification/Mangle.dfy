// Names of VCL objects, made from the names of the Services and hosts they
// are for.
module Mangle {
  import opened Prelude
  import opened DeepHash

  // FNV-1a, 32 bits wide, is left open.
  type Fnv = string -> uint32

  const PREFIX := "vk8s_"
  const MAX_SYM_LEN := 46

  predicate IsBytes(s: string) {
    forall i :: 0 <= i < |s| ==> s[i] as int < 256
  }

  predicate Legal(c: char) {
    AlNum(c) || c == '_' || c == '-'
  }

  predicate AllLegal(s: string) {
    forall i :: 0 <= i < |s| ==> Legal(s[i])
  }

  predicate NoUnderscore(s: string) {
    forall i :: 0 <= i < |s| ==> s[i] != '_'
  }

  // Hexadecimal digits, two for a byte.
  function HexDigit(n: nat): (c: char)
    requires n < 16
    ensures AlNum(c)
  {
    if n < 10 then ('0' as int + n) as char else ('a' as int + n - 10) as char
  }

  function HexByte(c: char): string {
    [HexDigit(c as int / 16 % 16), HexDigit(c as int % 16)]
  }

  function Hex(s: string): (r: string)
    ensures forall i :: 0 <= i < |r| ==> AlNum(r[i])
  {
    if s == "" then "" else Hex(s[..|s| - 1]) + HexByte(s[|s| - 1])
  }

  function Quoted(ill: string): string {
    "_" + Hex(ill) + "_"
  }

  method ReplIllegal(ill: string) returns (repl: string)
    ensures repl == Quoted(ill)
  {
    repl := "_";
    for i := 0 to |ill|
      invariant repl == "_" + Hex(ill[..i])
    {
      assert ill[..i + 1][..i] == ill[..i];
      repl := repl + HexByte(ill[i]);
    }
    assert ill[..|ill|] == ill;
    repl := repl + "_";
  }

  // The length of the run of illegal bytes that s starts with.
  function IllegalRun(s: string): (n: nat)
    ensures n <= |s| && (n < |s| ==> Legal(s[n]))
    ensures forall i :: 0 <= i < n ==> !Legal(s[i])
  {
    if s == "" || Legal(s[0]) then 0 else 1 + IllegalRun(s[1..])
  }

  function ReplaceIllegal(s: string): string {
    if s == "" then ""
    else if Legal(s[0]) then [s[0]] + ReplaceIllegal(s[1..])
    else
      var n := IllegalRun(s);
      Quoted(s[..n]) + ReplaceIllegal(s[n..])
  }

  method ReplaceAllIllegal(s: string) returns (r: string)
    ensures r == ReplaceIllegal(s)
  {
    var i := 0;
    r := "";
    while i < |s|
      invariant i <= |s| && ReplaceIllegal(s) == r + ReplaceIllegal(s[i..])
    {
      ghost var rest := s[i..];
      if Legal(s[i]) {
        assert rest[1..] == s[i + 1..];
        assert ReplaceIllegal(rest) == [s[i]] + ReplaceIllegal(s[i + 1..]);
        ConcatAssoc(r, [s[i]], ReplaceIllegal(s[i + 1..]));
        r, i := r + [s[i]], i + 1;
      } else {
        var n := IllegalRun(s[i..]);
        assert rest[..n] == s[i..i + n] && rest[n..] == s[i + n..];
        assert ReplaceIllegal(rest) == Quoted(s[i..i + n]) + ReplaceIllegal(s[i + n..]);
        var repl := ReplIllegal(s[i..i + n]);
        ConcatAssoc(r, repl, ReplaceIllegal(s[i + n..]));
        r, i := r + repl, i + n;
      }
    }
  }

  lemma ConcatAssoc(a: string, b: string, c: string)
    ensures a + (b + c) == a + b + c
  {
  }

  // The text of the hash of s. What it does not fill of its six bytes keeps
  // the bytes of s.
  function HashText(fnv: Fnv, s: string): string {
    Base62(fnv(s))
  }

  function Stamp(fnv: Fnv, s: string, l: nat): string
    requires 7 <= l < |s| && |HashText(fnv, s)| <= 6
  {
    HashText(fnv, s) + s[l - 6 + |HashText(fnv, s)|..l]
  }

  function BoundOf(fnv: Fnv, s: string, l: nat): string
    requires |s| <= l || (7 <= l && |HashText(fnv, s)| <= 6)
  {
    if |s| <= l then s else s[..l - 7] + "_" + Stamp(fnv, s, l)
  }

  // A number below 62 ^ k has at most k digits, and one with exactly k digits
  // is at least 62 ^ (k - 1).
  function Power62(k: nat): nat {
    if k == 0 then 1 else 62 * Power62(k - 1)
  }

  lemma {:induction false} Base62Width(n: nat, k: nat)
    requires k > 0
    ensures n < Power62(k) <==> |Base62(n)| <= k
  {
    if k > 1 && n >= 62 {
      Base62Width(n / 62, k - 1);
    } else if k == 1 {
      assert Power62(1) == 62 * Power62(0);
    } else {
      assert Power62(k - 1) >= 1 by { Power62Positive(k - 1); }
    }
  }

  lemma Power62Positive(k: nat)
    ensures Power62(k) >= 1
  {
  }

  lemma HashFits(fnv: Fnv, s: string)
    ensures |HashText(fnv, s)| <= 6
  {
    assert Power62(6) == 56800235584 by {
      assert Power62(2) == 3844 && Power62(4) == 62 * 62 * 3844;
    }
    Base62Width(fnv(s), 6);
  }

  lemma Stamped(b: string, fnv: Fnv, s: string, l: nat)
    requires 7 <= l < |s| && |b| == |s| && |HashText(fnv, s)| <= 6
    requires var was, n := s[l - 7 := '_'], |HashText(fnv, s)|;
      b[..l - 6] == was[..l - 6] && b[l - 6..l - 6 + n] == HashText(fnv, s) && b[l - 6 + n..] == was[l - 6..][n..]
    ensures b[..l] == BoundOf(fnv, s, l)
  {
    var n := |HashText(fnv, s)|;
    assert b[..l - 6] == s[..l - 7] + "_";
    assert b[l - 6 + n..l] == b[l - 6 + n..][..6 - n] == s[l - 6 + n..l];
    assert b[l - 6..l] == b[l - 6..l - 6 + n] + b[l - 6 + n..l] == Stamp(fnv, s, l);
    assert b[..l] == b[..l - 6] + b[l - 6..l];
  }

  // Copies as much of text as there is room for between two places of a buffer.
  method Copy(b: array<char>, from: nat, to: nat, text: string) returns (n: nat)
    requires from <= to <= b.Length
    modifies b
    ensures n == (if |text| < to - from then |text| else to - from)
    ensures b[..from] == old(b[..from]) && b[from..from + n] == text[..n]
    ensures b[from + n..] == old(b[from..])[n..]
  {
    n := if |text| < to - from then |text| else to - from;
    for i := 0 to n
      invariant b[..from] == old(b[..from]) && b[from..from + i] == text[..i]
      invariant b[from + i..] == old(b[from..])[i..]
    {
      b[from + i] := text[i];
    }
  }

  // Without a seventh byte before the end the source would index out of its
  // buffer.
  method Bound(fnv: Fnv, s: string, l: nat) returns (r: string)
    requires |s| <= l || 7 <= l
    ensures |HashText(fnv, s)| <= 6 && r == BoundOf(fnv, s, l)
  {
    HashFits(fnv, s);
    if |s| <= l {
      return s;
    }
    var b := new char[|s|](i requires 0 <= i < |s| => s[i]);
    var text := HashText(fnv, s);
    b[l - 7] := '_';
    ghost var was := b[..];
    assert was == s[l - 7 := '_'];
    var n := Copy(b, l - 6, l, text);
    assert text[..n] == text && b[..][..l - 6] == was[..l - 6] && b[..][l - 6..l - 6 + n] == text;
    assert b[..][l - 6 + n..] == was[l - 6..][n..];
    Stamped(b[..], fnv, s, l);
    r := b[..l];
  }

  ghost function MangleOf(fnv: Fnv, s: string): string {
    HashFits(fnv, ReplaceIllegal(PREFIX + s));
    if s == "" then s else BoundOf(fnv, ReplaceIllegal(PREFIX + s), MAX_SYM_LEN)
  }

  method Mangle(fnv: Fnv, s: string) returns (r: string)
    ensures r == MangleOf(fnv, s)
  {
    if s == "" {
      return s;
    }
    var mangled := ReplaceAllIllegal(PREFIX + s);
    r := Bound(fnv, mangled, MAX_SYM_LEN);
  }

  // Legal text passes through, and ends a run.
  lemma {:induction false} ReplaceLegalPrefix(s: string, t: string)
    requires AllLegal(s)
    ensures ReplaceIllegal(s + t) == s + ReplaceIllegal(t)
  {
    if s == "" {
      assert s + t == t;
    } else {
      ReplaceLegalPrefix(s[1..], t);
      assert (s + t)[1..] == s[1..] + t;
    }
  }

  lemma {:induction false} RunBeforeLegal(s: string, t: string)
    requires t != "" && Legal(t[0])
    ensures IllegalRun(s + t) == IllegalRun(s)
  {
    if s == "" {
      assert s + t == t;
    } else if !Legal(s[0]) {
      RunBeforeLegal(s[1..], t);
      assert (s + t)[1..] == s[1..] + t;
    }
  }

  lemma {:induction false} ReplaceLegalSuffix(s: string, t: string)
    requires AllLegal(t)
    ensures ReplaceIllegal(s + t) == ReplaceIllegal(s) + t
    decreases |s|
  {
    if t == "" {
      assert s + t == s;
    } else if s == "" {
      assert s + t == t && t + "" == t;
      ReplaceLegalPrefix(t, "");
    } else if Legal(s[0]) {
      ReplaceLegalSuffix(s[1..], t);
      assert (s + t)[1..] == s[1..] + t;
      ConcatAssoc([s[0]], ReplaceIllegal(s[1..]), t);
    } else {
      var n := IllegalRun(s);
      RunBeforeLegal(s, t);
      ReplaceLegalSuffix(s[n..], t);
      assert (s + t)[n..] == s[n..] + t && (s + t)[..n] == s[..n];
      ConcatAssoc(Quoted(s[..n]), ReplaceIllegal(s[n..]), t);
    }
  }

  lemma {:induction false} ReplacedIsLegal(s: string)
    ensures AllLegal(ReplaceIllegal(s))
    decreases |s|
  {
    if s != "" && Legal(s[0]) {
      ReplacedIsLegal(s[1..]);
    } else if s != "" {
      ReplacedIsLegal(s[IllegalRun(s)..]);
    }
  }

  // The bound: exactly l bytes of longer input, and legal ones of legal input.
  lemma BoundWidth(fnv: Fnv, s: string, l: nat)
    requires |s| <= l || 7 <= l
    ensures |HashText(fnv, s)| <= 6
    ensures |BoundOf(fnv, s, l)| == if |s| <= l then |s| else l
    ensures AllLegal(s) ==> AllLegal(BoundOf(fnv, s, l))
    ensures forall i :: 0 <= i < |s| && i < l - 7 ==> BoundOf(fnv, s, l)[i] == s[i]
  {
    HashFits(fnv, s);
    assert AllLegal(s) && |s| > l ==> AllLegal(s[..l - 7]) && AllLegal(HashText(fnv, s));
  }

  lemma MangledNamesAreSymbols(fnv: Fnv, s: string)
    ensures MangleOf(fnv, s) == "" <==> s == ""
    ensures s != "" ==> PREFIX <= MangleOf(fnv, s)
    ensures AllLegal(MangleOf(fnv, s)) && |MangleOf(fnv, s)| <= MAX_SYM_LEN
  {
    var r := ReplaceIllegal(PREFIX + s);
    ReplaceLegalPrefix(PREFIX, s);
    ReplacedIsLegal(PREFIX + s);
    BoundWidth(fnv, r, MAX_SYM_LEN);
    if s != "" {
      var m := MangleOf(fnv, s);
      assert r[..5] == PREFIX;
      assert m[..5] == r[..5];
    }
  }

  // Two long strings get the same bounded name exactly when their first bytes
  // agree, and so do their hashes with the bytes left over behind them.
  lemma SplitAtUnderscore(x: string, y: string, u: string, v: string)
    requires |x| == |y|
    ensures x + "_" + u == y + "_" + v <==> x == y && u == v
  {
    var a, b := x + "_" + u, y + "_" + v;
    assert a[..|x|] == x && b[..|y|] == y && a[|x| + 1..] == u && b[|y| + 1..] == v;
  }

  lemma BoundCollisions(fnv: Fnv, s: string, t: string, l: nat)
    requires 7 <= l < |s| && l < |t|
    ensures |HashText(fnv, s)| <= 6 && |HashText(fnv, t)| <= 6
    ensures BoundOf(fnv, s, l) == BoundOf(fnv, t, l) <==>
      s[..l - 7] == t[..l - 7] && Stamp(fnv, s, l) == Stamp(fnv, t, l)
    ensures fnv(s) >= Power62(5) && fnv(t) >= Power62(5) ==>
      (Stamp(fnv, s, l) == Stamp(fnv, t, l) <==> fnv(s) == fnv(t))
  {
    HashFits(fnv, s);
    HashFits(fnv, t);
    SplitAtUnderscore(s[..l - 7], t[..l - 7], Stamp(fnv, s, l), Stamp(fnv, t, l));
    Base62Width(fnv(s), 5);
    Base62Width(fnv(t), 5);
    if fnv(s) >= Power62(5) && fnv(t) >= Power62(5) {
      assert Stamp(fnv, s, l) == HashText(fnv, s) && Stamp(fnv, t, l) == HashText(fnv, t);
      if Base62(fnv(s)) == Base62(fnv(t)) {
        Base62Injective(fnv(s), fnv(t));
      }
    }
  }

  // The inverse: hexadecimal digits stand between underscores.
  function HexValue(c: char): nat {
    if '0' <= c <= '9' then c as int - '0' as int
    else if 'a' <= c <= 'f' then c as int - 'a' as int + 10
    else 0
  }

  function Unhex(h: string): string {
    if |h| < 2 then ""
    else Unhex(h[..|h| - 2]) + [(HexValue(h[|h| - 2]) * 16 + HexValue(h[|h| - 1])) as char]
  }

  function UpToUnderscore(s: string): (n: nat)
    ensures n <= |s| && (n < |s| ==> s[n] == '_')
    ensures forall i :: 0 <= i < n ==> s[i] != '_'
  {
    if s == "" || s[0] == '_' then 0 else 1 + UpToUnderscore(s[1..])
  }

  function Unreplace(t: string): string {
    if t == "" then ""
    else if t[0] != '_' then [t[0]] + Unreplace(t[1..])
    else
      var n := UpToUnderscore(t[1..]);
      Unhex(t[1..n + 1]) + if n + 1 < |t| then Unreplace(t[n + 2..]) else ""
  }

  // What follows the prefix.
  function Uncut(m: string): string {
    if |m| < 5 then "" else m[5..]
  }

  function Unmangle(m: string): string {
    Unreplace(Uncut(m))
  }

  lemma HexByteValue(c: char)
    requires c as int < 256
    ensures HexValue(HexByte(c)[0]) * 16 + HexValue(HexByte(c)[1]) == c as int
  {
    var high := c as int / 16;
    assert high % 16 == high;
    assert HexValue(HexDigit(high)) == high;
  }

  lemma {:induction false} UnhexHex(s: string)
    requires IsBytes(s)
    ensures Unhex(Hex(s)) == s
  {
    if s != "" {
      var c := s[|s| - 1];
      UnhexHex(s[..|s| - 1]);
      var h := Hex(s);
      assert h[..|h| - 2] == Hex(s[..|s| - 1]);
      assert h[|h| - 2] == HexByte(c)[0] && h[|h| - 1] == HexByte(c)[1];
      HexByteValue(c);
      assert s == s[..|s| - 1] + [c];
    }
  }

  lemma {:induction false} UnreplaceReplace(s: string)
    requires IsBytes(s) && NoUnderscore(s)
    ensures Unreplace(ReplaceIllegal(s)) == s
    decreases |s|
  {
    if s != "" && Legal(s[0]) {
      UnreplaceReplace(s[1..]);
      UnreplaceLegal(s[0], ReplaceIllegal(s[1..]));
      assert s == [s[0]] + s[1..];
    } else if s != "" {
      var n := IllegalRun(s);
      UnreplaceReplace(s[n..]);
      UnreplaceQuoted(s[..n], ReplaceIllegal(s[n..]));
      assert s == s[..n] + s[n..];
    }
  }

  lemma UnreplaceLegal(c: char, rest: string)
    requires c != '_'
    ensures Unreplace([c] + rest) == [c] + Unreplace(rest)
  {
    assert ([c] + rest)[1..] == rest;
  }

  lemma UnreplaceQuoted(ill: string, rest: string)
    requires IsBytes(ill)
    ensures Unreplace(Quoted(ill) + rest) == ill + Unreplace(rest)
  {
    var t, h := Quoted(ill) + rest, Hex(ill);
    var u := h + ("_" + rest);
    assert t == "_" + u;
    assert t[1..] == u;
    assert forall i :: 0 <= i < |h| ==> u[i] == h[i] && h[i] != '_';
    assert u[|h|] == '_';
    assert UpToUnderscore(u) == |h|;
    assert t[1..|h| + 1] == h && t[|h| + 2..] == rest;
    UnhexHex(ill);
  }

  // Short enough once replaced, so that it is not cut off.
  predicate Short(s: string) {
    |ReplaceIllegal(PREFIX + s)| <= MAX_SYM_LEN
  }

  lemma UnmangleMangle(fnv: Fnv, s: string)
    requires IsBytes(s) && NoUnderscore(s) && Short(s)
    ensures Unmangle(MangleOf(fnv, s)) == s
  {
    UnreplaceReplace(s);
    if s != "" {
      ShortName(fnv, s);
    }
  }

  lemma MangledEnding(fnv: Fnv, s: string, ending: string)
    requires s + ending != "" && AllLegal(ending) && Short(s + ending)
    ensures Uncut(MangleOf(fnv, s + ending)) == ReplaceIllegal(s) + ending
  {
    ShortName(fnv, s + ending);
    ReplaceLegalSuffix(s, ending);
  }

  lemma ShortName(fnv: Fnv, s: string)
    requires s != "" && Short(s)
    ensures Uncut(MangleOf(fnv, s)) == ReplaceIllegal(s)
  {
    ReplaceLegalPrefix(PREFIX, s);
    var m := MangleOf(fnv, s);
    assert m == PREFIX + ReplaceIllegal(s);
  }

  // So different names stay different, also with the same legal ending.
  lemma MangledNamesDiffer(fnv: Fnv, s: string, t: string, ending: string)
    requires IsBytes(s) && NoUnderscore(s) && IsBytes(t) && NoUnderscore(t)
    requires AllLegal(ending) && Short(s + ending) && Short(t + ending)
    ensures MangleOf(fnv, s + ending) == MangleOf(fnv, t + ending) <==> s == t
  {
    if MangleOf(fnv, s + ending) == MangleOf(fnv, t + ending) {
      MangledNamesAreSymbols(fnv, s + ending);
      MangledNamesAreSymbols(fnv, t + ending);
      if s + ending == "" || t + ending == "" {
        return;
      }
      MangledEnding(fnv, s, ending);
      MangledEnding(fnv, t, ending);
      CutSuffix(ReplaceIllegal(s), ReplaceIllegal(t), ending);
      UnreplaceReplace(s);
      UnreplaceReplace(t);
    }
  }

  lemma CutSuffix(x: string, y: string, ending: string)
    requires x + ending == y + ending
    ensures x == y
  {
    assert |x| == |y|;
    assert x == (x + ending)[..|x|] == (y + ending)[..|y|] == y;
  }

  // With an underscore the name can stand for something else.
  lemma UnderscoreCollides(fnv: Fnv)
    ensures MangleOf(fnv, "a/b") == MangleOf(fnv, "a_2f_b")
  {
    var q := "/b";
    assert IllegalRun(q) == 1 by { assert IllegalRun(q[1..]) == 0; }
    assert q[..1] == "/" && q[1..] == "b";
    assert Hex("/") == "2f" by { assert "/"[..0] == ""; }
    ReplaceLegalPrefix("b", "");
    assert "b" + "" == "b";
    assert ReplaceIllegal(q) == "_2f_b";
    ReplaceLegalPrefix(PREFIX + "a", q);
    assert PREFIX + "a" + q == PREFIX + "a/b";
    ReplaceLegalPrefix(PREFIX + "a_2f_b", "");
    assert PREFIX + "a_2f_b" + "" == PREFIX + "a_2f_b";
    assert PREFIX + "a" + "_2f_b" == PREFIX + "a_2f_b";
  }

  // Names of backends: a Service and an IPv4 address, whose dots become
  // underscores.
  datatype Quad = Quad(a: string, b: string, c: string, d: string)

  ghost predicate Octet(s: string) {
    forall i :: 0 <= i < |s| ==> AlNum(s[i])
  }

  ghost predicate IsQuad(q: Quad) {
    Octet(q.a) && Octet(q.b) && Octet(q.c) && Octet(q.d)
  }

  function ReplaceDots(s: string): string {
    if s == "" then "" else [if s[0] == '.' then '_' else s[0]] + ReplaceDots(s[1..])
  }

  function Dotted(q: Quad): string {
    q.a + "." + q.b + "." + q.c + "." + q.d
  }

  function Underscored(q: Quad): string {
    q.a + "_" + q.b + "_" + q.c + "_" + q.d
  }

  ghost function BackendName(fnv: Fnv, service: string, addr: string): string {
    MangleOf(fnv, service + "_" + ReplaceDots(addr))
  }

  lemma {:induction false} ReplaceDotsConcat(s: string, t: string)
    ensures ReplaceDots(s + t) == ReplaceDots(s) + ReplaceDots(t)
  {
    if s == "" {
      assert s + t == t;
    } else {
      var all, c := s + t, if s[0] == '.' then '_' else s[0];
      assert all[0] == s[0] && all[1..] == s[1..] + t;
      ReplaceDotsConcat(s[1..], t);
      ConcatAssoc([c], ReplaceDots(s[1..]), ReplaceDots(t));
      assert ReplaceDots(all) == [c] + ReplaceDots(all[1..]);
    }
  }

  lemma {:induction false} ReplaceDotsOctet(s: string)
    requires Octet(s)
    ensures ReplaceDots(s) == s
  {
    if s != "" {
      ReplaceDotsOctet(s[1..]);
    }
  }

  lemma ReplaceDotsQuad(q: Quad)
    requires IsQuad(q)
    ensures ReplaceDots(Dotted(q)) == Underscored(q) && AllLegal(Underscored(q))
  {
    ReplaceDotsOctet(q.a);
    ReplaceDotsOctet(q.b);
    ReplaceDotsOctet(q.c);
    ReplaceDotsOctet(q.d);
    assert ReplaceDots(".") == "_" by { assert "."[1..] == ""; }
    ReplaceDotsConcat(q.a, ".");
    ReplaceDotsConcat(q.a + ".", q.b);
    ReplaceDotsConcat(q.a + "." + q.b, ".");
    ReplaceDotsConcat(q.a + "." + q.b + ".", q.c);
    ReplaceDotsConcat(q.a + "." + q.b + "." + q.c, ".");
    ReplaceDotsConcat(q.a + "." + q.b + "." + q.c + ".", q.d);
  }

  lemma CutField(x: string, y: string, u: string, v: string)
    requires x + "_" + u == y + "_" + v && NoUnderscore(u) && NoUnderscore(v)
    ensures x == y && u == v
  {
    var s := x + "_" + u;
    assert s[|x|] == '_' && s[|y|] == '_';
    assert forall i :: |x| < i < |s| ==> s[i] == u[i - |x| - 1];
    assert forall i :: |y| < i < |s| ==> s[i] == v[i - |y| - 1];
    SplitAtUnderscore(x, y, u, v);
  }

  lemma CutQuad(x: string, y: string, q: Quad, r: Quad)
    requires IsQuad(q) && IsQuad(r)
    requires x + "_" + Underscored(q) == y + "_" + Underscored(r)
    ensures x == y && q == r
  {
    var x1, y1 := x + "_" + q.a, y + "_" + r.a;
    var x2, y2 := x1 + "_" + q.b, y1 + "_" + r.b;
    var x3, y3 := x2 + "_" + q.c, y2 + "_" + r.c;
    assert x + "_" + Underscored(q) == x3 + "_" + q.d;
    assert y + "_" + Underscored(r) == y3 + "_" + r.d;
    CutField(x3, y3, q.d, r.d);
    CutField(x2, y2, q.c, r.c);
    CutField(x1, y1, q.b, r.b);
    CutField(x, y, q.a, r.a);
  }

  // Two backends have the same name exactly when Service and address agree.
  lemma BackendNamesDiffer(fnv: Fnv, s: string, t: string, q: Quad, r: Quad)
    requires IsBytes(s) && NoUnderscore(s) && IsBytes(t) && NoUnderscore(t) && IsQuad(q) && IsQuad(r)
    requires Short(s + "_" + ReplaceDots(Dotted(q))) && Short(t + "_" + ReplaceDots(Dotted(r)))
    ensures BackendName(fnv, s, Dotted(q)) == BackendName(fnv, t, Dotted(r)) <==> s == t && q == r
  {
    ReplaceDotsQuad(q);
    ReplaceDotsQuad(r);
    if BackendName(fnv, s, Dotted(q)) == BackendName(fnv, t, Dotted(r)) {
      ConcatAssoc(s, "_", Underscored(q));
      ConcatAssoc(t, "_", Underscored(r));
      MangledEnding(fnv, s, "_" + Underscored(q));
      MangledEnding(fnv, t, "_" + Underscored(r));
      ConcatAssoc(ReplaceIllegal(s), "_", Underscored(q));
      ConcatAssoc(ReplaceIllegal(t), "_", Underscored(r));
      CutQuad(ReplaceIllegal(s), ReplaceIllegal(t), q, r);
      UnreplaceReplace(s);
      UnreplaceReplace(t);
    }
  }

  // Names of the matchers of hosts, whose dots become underscores as well.
  ghost function UrlMatcher(fnv: Fnv, host: string): string {
    MangleOf(fnv, ReplaceDots(host) + "_url")
  }

  // A host, without what may stand for its first label.
  predicate Labels(h: string) {
    forall i :: 0 <= i < |h| ==> Legal(h[i]) || h[i] == '.'
  }

  function Host(wildcard: bool, h: string): string {
    if wildcard then "*" + h else h
  }

  // Only a wildcard stands right before a dot.
  predicate IsHost(wildcard: bool, h: string) {
    Labels(h) && (!wildcard && h != "" ==> AlNum(h[0]))
  }

  // The same, but for dots and underscores.
  predicate SameButDots(h: string, g: string) {
    |h| == |g| && forall i :: 0 <= i < |h| ==> h[i] == g[i] || (h[i] in {'.', '_'} && g[i] in {'.', '_'})
  }

  lemma {:induction false} DotsReplaced(h: string)
    ensures |ReplaceDots(h)| == |h|
    ensures forall i :: 0 <= i < |h| ==> ReplaceDots(h)[i] == if h[i] == '.' then '_' else h[i]
  {
    if h != "" {
      DotsReplaced(h[1..]);
    }
  }

  lemma SameButDotsExactly(h: string, g: string)
    ensures ReplaceDots(h) == ReplaceDots(g) <==> SameButDots(h, g)
  {
    DotsReplaced(h);
    DotsReplaced(g);
    if ReplaceDots(h) == ReplaceDots(g) {
      forall i | 0 <= i < |h| ensures h[i] == g[i] || (h[i] in {'.', '_'} && g[i] in {'.', '_'}) {
        assert ReplaceDots(h)[i] == ReplaceDots(g)[i];
      }
    }
  }

  // A host once it is replaced, which starts with an underscore if it is a
  // wildcard.
  lemma HostReplaced(wildcard: bool, h: string)
    requires IsHost(wildcard, h)
    ensures ReplaceIllegal(ReplaceDots(Host(wildcard, h))) == (if wildcard then "_2a_" else "") + ReplaceDots(h)
  {
    var t := ReplaceDots(h);
    DotsReplaced(h);
    assert AllLegal(t);
    if wildcard {
      assert ("*" + h)[1..] == h;
      ReplaceLegalSuffix("*", t);
      StarReplaced();
    } else {
      ReplaceLegalPrefix(t, "");
      assert t + "" == t && "" + t == t;
    }
  }

  lemma StarReplaced()
    ensures ReplaceIllegal("*") == "_2a_"
  {
    var star := "*";
    assert star[1..] == "" && star[..0] == "" && star[..1] == star;
    assert IllegalRun(star) == 1;
    assert Hex(star) == HexByte('*') == "2a";
    assert Quoted(star) == "_2a_";
    assert ReplaceIllegal(star) == Quoted(star) + "";
  }

  // Two hosts have the same matcher exactly if they are the same but for dots
  // and underscores.
  lemma HostMatchersDiffer(fnv: Fnv, w: bool, h: string, x: bool, g: string)
    requires IsHost(w, h) && IsHost(x, g)
    requires Short(ReplaceDots(Host(w, h)) + "_url") && Short(ReplaceDots(Host(x, g)) + "_url")
    ensures UrlMatcher(fnv, Host(w, h)) == UrlMatcher(fnv, Host(x, g)) <==> w == x && SameButDots(h, g)
  {
    var s, t := ReplaceDots(Host(w, h)), ReplaceDots(Host(x, g));
    MatchersDiffer(fnv, s, t);
    HostReplaced(w, h);
    HostReplaced(x, g);
    HostsApart(w, h, x, g);
    SameButDotsExactly(h, g);
    assert w == x && ReplaceDots(h) == ReplaceDots(g) ==> s == t;
  }

  lemma MatchersDiffer(fnv: Fnv, s: string, t: string)
    requires Short(s + "_url") && Short(t + "_url")
    ensures MangleOf(fnv, s + "_url") == MangleOf(fnv, t + "_url") ==> ReplaceIllegal(s) == ReplaceIllegal(t)
  {
    MangledEnding(fnv, s, "_url");
    MangledEnding(fnv, t, "_url");
    if ReplaceIllegal(s) + "_url" == ReplaceIllegal(t) + "_url" {
      CutSuffix(ReplaceIllegal(s), ReplaceIllegal(t), "_url");
    }
  }

  // So hosts without underscore, as there are in DNS, have matchers of their
  // own.
  lemma HostMatchersOfTheirOwn(fnv: Fnv, w: bool, h: string, x: bool, g: string)
    requires IsHost(w, h) && IsHost(x, g) && NoUnderscore(h) && NoUnderscore(g)
    requires Short(ReplaceDots(Host(w, h)) + "_url") && Short(ReplaceDots(Host(x, g)) + "_url")
    ensures UrlMatcher(fnv, Host(w, h)) == UrlMatcher(fnv, Host(x, g)) <==> Host(w, h) == Host(x, g)
  {
    HostMatchersDiffer(fnv, w, h, x, g);
    if SameButDots(h, g) {
      assert h == g;
    }
    if Host(w, h) == Host(x, g) {
      assert Host(w, h) != "" ==> (w <==> Host(w, h)[0] == '*') && (x <==> Host(x, g)[0] == '*');
      assert w ==> Host(w, h)[1..] == h && Host(x, g)[1..] == g;
    }
  }

  lemma HostsApart(w: bool, h: string, x: bool, g: string)
    requires IsHost(w, h) && IsHost(x, g)
    ensures (if w then "_2a_" else "") + ReplaceDots(h) == (if x then "_2a_" else "") + ReplaceDots(g) <==>
      w == x && ReplaceDots(h) == ReplaceDots(g)
  {
    DotsReplaced(h);
    DotsReplaced(g);
    var s, t := (if w then "_2a_" else "") + ReplaceDots(h), (if x then "_2a_" else "") + ReplaceDots(g);
    if w && x {
      assert s[4..] == ReplaceDots(h) && t[4..] == ReplaceDots(g);
    } else if w {
      assert s[0] == '_' && (t != "" ==> t[0] != '_');
    } else if x {
      assert t[0] == '_' && (s != "" ==> s[0] != '_');
    } else {
      assert s == ReplaceDots(h) && t == ReplaceDots(g);
    }
  }

  // Two hosts, of which one has an underscore, whose matchers have one name.
  lemma HostsCollide(fnv: Fnv)
    ensures UrlMatcher(fnv, "a.b") == UrlMatcher(fnv, "a_b")
  {
    SameButDotsExactly("a.b", "a_b");
  }

  // How names are put together, if there is nothing illegal in them but dots.
  lemma BackendNameIs(fnv: Fnv, s: string, q: Quad)
    requires AllLegal(s) && IsQuad(q) && |s| + |Dotted(q)| <= 40
    ensures BackendName(fnv, s, Dotted(q)) == "vk8s_" + (s + "_" + (q.a + "_" + q.b + "_" + q.c + "_" + q.d))
  {
    ReplaceDotsQuad(q);
    LegalName(fnv, s + "_" + Underscored(q));
  }

  lemma UrlMatcherIs(fnv: Fnv, h: string)
    requires Labels(h) && |h| <= 37
    ensures |ReplaceDots(h)| == |h| && UrlMatcher(fnv, h) == "vk8s_" + (ReplaceDots(h) + "_url")
    ensures forall i :: 0 <= i < |h| ==> ReplaceDots(h)[i] == if h[i] == '.' then '_' else h[i]
  {
    DotsReplaced(h);
    LegalName(fnv, ReplaceDots(h) + "_url");
  }

  lemma LegalName(fnv: Fnv, s: string)
    requires s != "" && AllLegal(s) && |s| <= MAX_SYM_LEN - |PREFIX|
    ensures MangleOf(fnv, s) == PREFIX + s
  {
    ReplaceLegalPrefix(PREFIX + s, "");
    assert PREFIX + s + "" == PREFIX + s;
  }
}
