// The order on byte strings and the library's stable sort, which the canonical
// form of a VCL specification is built from.

module Orders {
  // A Go string is a sequence of bytes; a char here stands for one byte, and
  // Go's < on strings is the lexicographic order on bytes.
  predicate StrLess(a: string, b: string) {
    if b == [] then false
    else if a == [] then true
    else a[0] < b[0] || (a[0] == b[0] && StrLess(a[1..], b[1..]))
  }

  // The first byte that differs decides, or else the length.
  ghost predicate Precedes(a: string, b: string) {
    exists n :: 0 <= n <= |a| && n < |b| && a[..n] == b[..n] && (n == |a| || a[n] < b[n])
  }

  lemma {:induction false} StrLessExactly(a: string, b: string)
    ensures StrLess(a, b) <==> Precedes(a, b)
  {
    if a != [] && b != [] {
      StrLessExactly(a[1..], b[1..]);
      if n :| 0 <= n <= |a| && n < |b| && a[..n] == b[..n] && (n == |a| || a[n] < b[n]) {
        if n > 0 {
          assert a[0] == a[..n][0] == b[..n][0] == b[0];
          assert a[1..][..n - 1] == a[..n][1..] == b[..n][1..] == b[1..][..n - 1];
          assert Precedes(a[1..], b[1..]);
        }
      }
      if a[0] == b[0] && Precedes(a[1..], b[1..]) {
        var n :| 0 <= n <= |a[1..]| && n < |b[1..]| && a[1..][..n] == b[1..][..n] &&
          (n == |a[1..]| || a[1..][n] < b[1..][n]);
        assert a[..n + 1] == [a[0]] + a[1..][..n] == [b[0]] + b[1..][..n] == b[..n + 1];
      }
      if a[0] < b[0] {
        assert a[..0] == b[..0];
      }
    } else if b != [] {
      assert a[..0] == b[..0];
    }
  }

  predicate NatLess(a: nat, b: nat) {
    a < b
  }

  ghost predicate StrictTotal<K(!new)>(lt: (K, K) -> bool) {
    && (forall x :: !lt(x, x))
    && (forall x, y, z :: lt(x, y) && lt(y, z) ==> lt(x, z))
    && (forall x, y :: x != y ==> lt(x, y) || lt(y, x))
  }

  lemma {:induction false} StrLessIrreflexive(a: string)
    ensures !StrLess(a, a)
  {
    if a != [] {
      StrLessIrreflexive(a[1..]);
    }
  }

  lemma {:induction false} StrLessTransitive(a: string, b: string, c: string)
    requires StrLess(a, b) && StrLess(b, c)
    ensures StrLess(a, c)
  {
    if a != [] && a[0] == b[0] && b[0] == c[0] {
      StrLessTransitive(a[1..], b[1..], c[1..]);
    }
  }

  lemma {:induction false} StrLessConnected(a: string, b: string)
    requires a != b
    ensures StrLess(a, b) || StrLess(b, a)
  {
    if a != [] && b != [] && a[0] == b[0] {
      assert a == [a[0]] + a[1..] && b == [b[0]] + b[1..];
      StrLessConnected(a[1..], b[1..]);
    }
  }

  lemma StrLessIsStrictTotal()
    ensures StrictTotal(StrLess)
  {
    forall a: string ensures !StrLess(a, a) {
      StrLessIrreflexive(a);
    }
    forall a: string, b: string, c: string | StrLess(a, b) && StrLess(b, c) ensures StrLess(a, c) {
      StrLessTransitive(a, b, c);
    }
    forall a: string, b: string | a != b ensures StrLess(a, b) || StrLess(b, a) {
      StrLessConnected(a, b);
    }
  }
}

// sort.Stable on a slice, with the comparison given as an order on a key of
// the elements. The algorithm is the insertion sort that the library uses on
// its blocks.
module StableSort {
  import opened Orders

  // x goes behind every element that it does not have to precede.
  function Insert<T, K>(key: T -> K, lt: (K, K) -> bool, s: seq<T>, x: T): (r: seq<T>)
    ensures |r| == |s| + 1
  {
    if s == [] || !lt(key(x), key(s[|s| - 1])) then s + [x]
    else Insert(key, lt, s[..|s| - 1], x) + [s[|s| - 1]]
  }

  function Sort<T, K>(key: T -> K, lt: (K, K) -> bool, s: seq<T>): (r: seq<T>)
    ensures |r| == |s|
  {
    if s == [] then []
    else Insert(key, lt, Sort(key, lt, s[..|s| - 1]), s[|s| - 1])
  }

  lemma {:induction false} InsertElements<T, K>(key: T -> K, lt: (K, K) -> bool, s: seq<T>, x: T)
    ensures multiset(Insert(key, lt, s, x)) == multiset(s) + multiset{x}
  {
    if s != [] && lt(key(x), key(s[|s| - 1])) {
      InsertElements(key, lt, s[..|s| - 1], x);
      assert s == s[..|s| - 1] + [s[|s| - 1]];
    }
  }

  lemma {:induction false} SortElements<T, K>(key: T -> K, lt: (K, K) -> bool, s: seq<T>)
    ensures multiset(Sort(key, lt, s)) == multiset(s)
  {
    if s != [] {
      SortElements(key, lt, s[..|s| - 1]);
      InsertElements(key, lt, Sort(key, lt, s[..|s| - 1]), s[|s| - 1]);
      assert s == s[..|s| - 1] + [s[|s| - 1]];
    }
  }

  lemma InsertMember<T, K>(key: T -> K, lt: (K, K) -> bool, s: seq<T>, x: T, y: T)
    ensures y in Insert(key, lt, s, x) <==> y in s || y == x
  {
    InsertElements(key, lt, s, x);
    assert y in Insert(key, lt, s, x) <==> y in multiset(Insert(key, lt, s, x));
  }

  lemma SortMember<T, K>(key: T -> K, lt: (K, K) -> bool, s: seq<T>, x: T)
    ensures x in Sort(key, lt, s) <==> x in s
  {
    SortElements(key, lt, s);
    assert x in s <==> x in multiset(s);
    assert x in Sort(key, lt, s) <==> x in multiset(Sort(key, lt, s));
  }

  // The elements of s with key k, in the order of s.
  function WithKey<T, K(==)>(key: T -> K, s: seq<T>, k: K): seq<T> {
    if s == [] then []
    else WithKey(key, s[..|s| - 1], k) + (if key(s[|s| - 1]) == k then [s[|s| - 1]] else [])
  }

  ghost predicate AgreePerKey<T, K(!new)>(key: T -> K, a: seq<T>, b: seq<T>) {
    forall k :: WithKey(key, a, k) == WithKey(key, b, k)
  }

  function Itself<T>(x: T): T {
    x
  }

  ghost predicate Sorted<T, K>(key: T -> K, lt: (K, K) -> bool, s: seq<T>) {
    forall i, j :: 0 <= i < j < |s| ==> !lt(key(s[j]), key(s[i]))
  }

  function Map<A, B>(f: A -> B, s: seq<A>): (r: seq<B>)
    ensures |r| == |s| && forall i :: 0 <= i < |s| ==> r[i] == f(s[i])
  {
    seq(|s|, i requires 0 <= i < |s| => f(s[i]))
  }

  lemma {:induction false} InsertSorted<T, K(!new)>(key: T -> K, lt: (K, K) -> bool, s: seq<T>, x: T)
    requires StrictTotal(lt) && Sorted(key, lt, s)
    ensures Sorted(key, lt, Insert(key, lt, s, x))
  {
    if s != [] && lt(key(x), key(s[|s| - 1])) {
      var front, last := s[..|s| - 1], s[|s| - 1];
      InsertSorted(key, lt, front, x);
      var r := Insert(key, lt, front, x);
      forall i | 0 <= i < |r| ensures !lt(key(last), key(r[i])) {
        InsertMember(key, lt, front, x, r[i]);
      }
    }
  }

  lemma {:induction false} SortSorted<T, K(!new)>(key: T -> K, lt: (K, K) -> bool, s: seq<T>)
    requires StrictTotal(lt)
    ensures Sorted(key, lt, Sort(key, lt, s))
  {
    if s != [] {
      SortSorted(key, lt, s[..|s| - 1]);
      InsertSorted(key, lt, Sort(key, lt, s[..|s| - 1]), s[|s| - 1]);
    }
  }

  lemma {:induction false} InsertKeepsOrder<T, K(!new)>(key: T -> K, lt: (K, K) -> bool, s: seq<T>, x: T, k: K)
    requires StrictTotal(lt)
    ensures WithKey(key, Insert(key, lt, s, x), k) == WithKey(key, s, k) + (if key(x) == k then [x] else [])
  {
    if s == [] || !lt(key(x), key(s[|s| - 1])) {
      assert (s + [x])[..|s|] == s;
    } else {
      var front, last := s[..|s| - 1], s[|s| - 1];
      var r := Insert(key, lt, front, x);
      assert (r + [last])[..|r|] == r;
      InsertKeepsOrder(key, lt, front, x, k);
    }
  }

  // Stability: sorting keeps the order of elements with equal keys.
  lemma {:induction false} SortIsStable<T, K(!new)>(key: T -> K, lt: (K, K) -> bool, s: seq<T>, k: K)
    requires StrictTotal(lt)
    ensures WithKey(key, Sort(key, lt, s), k) == WithKey(key, s, k)
  {
    if s != [] {
      SortIsStable(key, lt, s[..|s| - 1], k);
      InsertKeepsOrder(key, lt, Sort(key, lt, s[..|s| - 1]), s[|s| - 1], k);
    }
  }

  lemma {:induction false} WithKeyMember<T, K>(key: T -> K, s: seq<T>, k: K, x: T)
    ensures x in WithKey(key, s, k) <==> x in s && key(x) == k
  {
    if s != [] {
      WithKeyMember(key, s[..|s| - 1], k, x);
      assert s == s[..|s| - 1] + [s[|s| - 1]];
    }
  }

  // A sorted sequence is determined by its subsequences at each key.
  lemma {:induction false} SortedUnique<T, K(!new)>(key: T -> K, lt: (K, K) -> bool, a: seq<T>, b: seq<T>)
    requires StrictTotal(lt) && Sorted(key, lt, a) && Sorted(key, lt, b)
    requires AgreePerKey(key, a, b)
    ensures a == b
    decreases |a|
  {
    if a == [] {
      if b != [] {
        var k := key(b[0]);
        WithKeyMember(key, a, k, b[0]);
        WithKeyMember(key, b, k, b[0]);
      }
    } else {
      var x := a[|a| - 1];
      WithKeyMember(key, a, key(x), x);
      WithKeyMember(key, b, key(x), x);
      assert x in WithKey(key, a, key(x));
      assert x in b;
      var y := b[|b| - 1];
      WithKeyMember(key, a, key(y), y);
      WithKeyMember(key, b, key(y), y);
      assert y in WithKey(key, b, key(y));
      assert y in a;
      assert !lt(key(y), key(x)) && !lt(key(x), key(y));
      assert key(x) == key(y);
      var front, front' := a[..|a| - 1], b[..|b| - 1];
      forall k ensures WithKey(key, front, k) == WithKey(key, front', k) {
        var va, vb := WithKey(key, front, k), WithKey(key, front', k);
        assert WithKey(key, a, k) == WithKey(key, b, k);
        if k == key(x) {
          assert WithKey(key, a, k) == va + [x] && WithKey(key, b, k) == vb + [y];
          assert |va| == |vb|;
          assert va == (va + [x])[..|va|] && vb == (vb + [y])[..|va|];
        } else {
          assert WithKey(key, a, k) == va && WithKey(key, b, k) == vb;
        }
      }
      assert WithKey(key, a, key(x)) == WithKey(key, b, key(x));
      assert WithKey(key, a, key(x)) == WithKey(key, front, key(x)) + [x];
      assert WithKey(key, b, key(x)) == WithKey(key, front', key(x)) + [y];
      assert (WithKey(key, front, key(x)) + [x])[|WithKey(key, front, key(x))|] == x;
      assert (WithKey(key, front', key(x)) + [y])[|WithKey(key, front', key(x))|] == y;
      SortedUnique(key, lt, front, front');
      assert a == a[..|a| - 1] + [x] && b == b[..|b| - 1] + [y];
    }
  }

  // Two lists sort to the same list exactly when, for every key, they have the
  // same elements with that key in the same order.
  lemma SortNormalForm<T, K(!new)>(key: T -> K, lt: (K, K) -> bool, a: seq<T>, b: seq<T>)
    requires StrictTotal(lt)
    ensures Sort(key, lt, a) == Sort(key, lt, b) <==> AgreePerKey(key, a, b)
  {
    var sa, sb := Sort(key, lt, a), Sort(key, lt, b);
    forall k ensures WithKey(key, sa, k) == WithKey(key, a, k) && WithKey(key, sb, k) == WithKey(key, b, k) {
      SortIsStable(key, lt, a, k);
      SortIsStable(key, lt, b, k);
    }
    if AgreePerKey(key, a, b) {
      SortSorted(key, lt, a);
      SortSorted(key, lt, b);
      SortedUnique(key, lt, sa, sb);
    }
  }

  lemma SortIdempotent<T, K(!new)>(key: T -> K, lt: (K, K) -> bool, s: seq<T>)
    requires StrictTotal(lt)
    ensures Sort(key, lt, Sort(key, lt, s)) == Sort(key, lt, s)
  {
    forall k ensures WithKey(key, Sort(key, lt, s), k) == WithKey(key, s, k) {
      SortIsStable(key, lt, s, k);
    }
    SortNormalForm(key, lt, Sort(key, lt, s), s);
  }

  // With keys that are the elements themselves, sorting forgets exactly the order.
  lemma {:induction false} WithKeyCounts<T(!new)>(s: seq<T>, k: T)
    ensures WithKey(Itself, s, k) == seq(multiset(s)[k], _ => k)
  {
    if s != [] {
      WithKeyCounts(s[..|s| - 1], k);
      assert s == s[..|s| - 1] + [s[|s| - 1]];
    }
  }

  lemma SortByValueNormalForm<T(!new)>(lt: (T, T) -> bool, a: seq<T>, b: seq<T>)
    requires StrictTotal(lt)
    ensures Sort(Itself, lt, a) == Sort(Itself, lt, b) <==> multiset(a) == multiset(b)
  {
    if Sort(Itself, lt, a) == Sort(Itself, lt, b) {
      SortElements(Itself, lt, a);
      SortElements(Itself, lt, b);
    }
    if multiset(a) == multiset(b) {
      forall k ensures WithKey(Itself, a, k) == WithKey(Itself, b, k) {
        WithKeyCounts(a, k);
        WithKeyCounts(b, k);
      }
      SortNormalForm(Itself, lt, a, b);
    }
  }

  // An update of the elements that keeps their keys commutes with selecting a
  // key, and with sorting.
  lemma {:induction false} WithKeyMap<T, U, K>(key: T -> K, key': U -> K, f: T -> U, s: seq<T>, k: K)
    requires forall i :: 0 <= i < |s| ==> key'(f(s[i])) == key(s[i])
    ensures WithKey(key', Map(f, s), k) == Map(f, WithKey(key, s, k))
  {
    if s != [] {
      assert Map(f, s)[..|s| - 1] == Map(f, s[..|s| - 1]);
      WithKeyMap(key, key', f, s[..|s| - 1], k);
    }
  }

  lemma {:induction false} InsertMap<T, U, K>(key: T -> K, key': U -> K, lt: (K, K) -> bool, f: T -> U, s: seq<T>, x: T)
    requires forall i :: 0 <= i < |s| ==> key'(f(s[i])) == key(s[i])
    requires key'(f(x)) == key(x)
    ensures Insert(key', lt, Map(f, s), f(x)) == Map(f, Insert(key, lt, s, x))
  {
    if s != [] {
      assert Map(f, s)[..|s| - 1] == Map(f, s[..|s| - 1]);
      InsertMap(key, key', lt, f, s[..|s| - 1], x);
    }
  }

  lemma {:induction false} SortMap<T, U, K>(key: T -> K, key': U -> K, lt: (K, K) -> bool, f: T -> U, s: seq<T>)
    requires forall i :: 0 <= i < |s| ==> key'(f(s[i])) == key(s[i])
    ensures Sort(key', lt, Map(f, s)) == Map(f, Sort(key, lt, s))
  {
    if s != [] {
      var front := Sort(key, lt, s[..|s| - 1]);
      assert Map(f, s)[..|s| - 1] == Map(f, s[..|s| - 1]);
      SortMap(key, key', lt, f, s[..|s| - 1]);
      forall i | 0 <= i < |front| ensures key'(f(front[i])) == key(front[i]) {
        SortMember(key, lt, s[..|s| - 1], front[i]);
      }
      InsertMap(key, key', lt, f, front, s[|s| - 1]);
    }
  }

  ghost predicate DistinctKeys<T, K>(key: T -> K, s: seq<T>) {
    forall i, j :: 0 <= i < j < |s| ==> key(s[i]) != key(s[j])
  }

  lemma {:induction false} DistinctKeysSingle<T, K>(key: T -> K, s: seq<T>, k: K)
    requires DistinctKeys(key, s)
    ensures |WithKey(key, s, k)| <= 1
  {
    if s != [] {
      DistinctKeysSingle(key, s[..|s| - 1], k);
      if key(s[|s| - 1]) == k && WithKey(key, s[..|s| - 1], k) != [] {
        var y := WithKey(key, s[..|s| - 1], k)[0];
        WithKeyMember(key, s[..|s| - 1], k, y);
        assert false;
      }
    }
  }

  // On lists with distinct keys, agreeing at every key is being a permutation.
  lemma DistinctKeysPermutation<T, K(!new)>(key: T -> K, a: seq<T>, b: seq<T>)
    requires DistinctKeys(key, a) && DistinctKeys(key, b)
    ensures AgreePerKey(key, a, b) <==> (forall x :: x in a <==> x in b)
  {
    if AgreePerKey(key, a, b) {
      forall x ensures x in a <==> x in b {
        WithKeyMember(key, a, key(x), x);
        WithKeyMember(key, b, key(x), x);
      }
    }
    if forall x :: x in a <==> x in b {
      forall k ensures WithKey(key, a, k) == WithKey(key, b, k) {
        DistinctKeysSingle(key, a, k);
        DistinctKeysSingle(key, b, k);
        var wa, wb := WithKey(key, a, k), WithKey(key, b, k);
        if |wa| == 1 {
          var x := wa[0];
          WithKeyMember(key, a, k, x);
          WithKeyMember(key, b, k, x);
        }
        if |wb| == 1 {
          var y := wb[0];
          WithKeyMember(key, a, k, y);
          WithKeyMember(key, b, k, y);
        }
      }
    }
  }

  // Only comparisons between elements of the list matter.
  lemma {:induction false} InsertCongruence<T, K>(key: T -> K, lt: (K, K) -> bool, lt': (K, K) -> bool, s: seq<T>, x: T)
    requires forall y :: y in s ==> lt(key(x), key(y)) == lt'(key(x), key(y))
    ensures Insert(key, lt, s, x) == Insert(key, lt', s, x)
  {
    if s != [] && lt(key(x), key(s[|s| - 1])) {
      InsertCongruence(key, lt, lt', s[..|s| - 1], x);
    }
  }

  lemma {:induction false} SortCongruence<T, K>(key: T -> K, lt: (K, K) -> bool, lt': (K, K) -> bool, s: seq<T>)
    requires forall x, y :: x in s && y in s ==> lt(key(x), key(y)) == lt'(key(x), key(y))
    ensures Sort(key, lt, s) == Sort(key, lt', s)
  {
    if s != [] {
      SortCongruence(key, lt, lt', s[..|s| - 1]);
      var front := Sort(key, lt, s[..|s| - 1]);
      forall y | y in front ensures y in s {
        SortMember(key, lt, s[..|s| - 1], y);
      }
      InsertCongruence(key, lt, lt', front, s[|s| - 1]);
    }
  }

  lemma {:induction false} InsertAt<T, K>(key: T -> K, lt: (K, K) -> bool, s: seq<T>, j: nat, x: T)
    requires j <= |s|
    requires j == 0 || !lt(key(x), key(s[j - 1]))
    requires forall k :: j <= k < |s| ==> lt(key(x), key(s[k]))
    ensures Insert(key, lt, s, x) == s[..j] + [x] + s[j..]
  {
    if j == |s| {
      assert s[..j] == s && s[j..] == [];
    } else {
      var front, last := s[..|s| - 1], s[|s| - 1];
      InsertAt(key, lt, front, j, x);
      assert s[j..] == front[j..] + [last];
      assert s[..j] == front[..j];
      assert Insert(key, lt, s, x) == (front[..j] + [x] + front[j..]) + [last];
      assert (front[..j] + [x] + front[j..]) + [last] == front[..j] + [x] + (front[j..] + [last]);
    }
  }

  // The in-place sort itself.
  method Stable<T, K>(a: array<T>, key: T -> K, lt: (K, K) -> bool)
    modifies a
    ensures a[..] == Sort(key, lt, old(a[..]))
  {
    ghost var was := a[..];
    var i := 0;
    while i < a.Length
      invariant 0 <= i <= a.Length
      invariant a[..i] == Sort(key, lt, was[..i])
      invariant a[i..] == was[i..]
    {
      assert a[i] == was[i];
      Sink(a, i, key, lt);
      assert was[..i + 1][..i] == was[..i];
      i := i + 1;
    }
    assert a[..] == a[..i] && was[..i] == was;
  }

  // Swaps the element at i down to its place among the elements before it.
  method Sink<T, K>(a: array<T>, i: nat, key: T -> K, lt: (K, K) -> bool)
    requires i < a.Length
    modifies a
    ensures a[..i + 1] == Insert(key, lt, old(a[..i]), old(a[i]))
    ensures a[i + 1..] == old(a[i + 1..])
  {
    ghost var front, x := a[..i], a[i];
    var j := i;
    while j > 0 && lt(key(a[j]), key(a[j - 1]))
      invariant 0 <= j <= i
      invariant a[j] == x
      invariant forall k :: 0 <= k < j ==> a[k] == front[k]
      invariant forall k :: j <= k < i ==> a[k + 1] == front[k]
      invariant forall k :: j <= k < i ==> lt(key(x), key(front[k]))
      invariant a[i + 1..] == old(a[i + 1..])
    {
      a[j], a[j - 1] := a[j - 1], a[j];
      j := j - 1;
    }
    InsertAt(key, lt, front, j, x);
    assert a[..i + 1] == front[..j] + [x] + front[j..];
  }
}
