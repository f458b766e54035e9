// String literals and names in the text of a VCL program.
module Literals {
  import opened Prelude
  import opened StableSort
  import opened DeepHash

  // What can stand inside of a literal. There are no escapes.
  predicate Clean(s: string) {
    forall i :: 0 <= i < |s| ==> s[i] !in {'"', '\n', '\r'}
  }

  function Quote(s: string): string {
    "\"" + s + "\""
  }

  // How far a literal goes.
  function Scan(s: string): (n: nat)
    ensures n <= |s| && (n < |s| ==> s[n] in {'"', '\n', '\r'})
    ensures Clean(s[..n])
  {
    if s == "" || s[0] in {'"', '\n', '\r'} then 0 else 1 + Scan(s[1..])
  }

  // Reads a literal, and gives its value and the text behind it.
  function ReadString(text: string): Option<(string, string)> {
    if text == "" || text[0] != '"' then None
    else
      var rest := text[1..];
      var n := Scan(rest);
      if n < |rest| && rest[n] == '"' then Some((rest[..n], rest[n + 1..])) else None
  }

  // The value of a text that is one literal, and nothing else.
  function ReadWhole(text: string): Option<string> {
    match ReadString(text)
    case Some((s, rest)) => if rest == "" then Some(s) else None
    case None => None
  }

  lemma {:induction false} ScanClean(s: string, c: char, rest: string)
    requires Clean(s) && c in {'"', '\n', '\r'}
    ensures Scan(s + [c] + rest) == |s|
  {
    var t := s + [c] + rest;
    if s != "" {
      assert t[1..] == s[1..] + [c] + rest && t[0] == s[0];
      ScanClean(s[1..], c, rest);
    }
  }

  lemma {:induction false} ScanStops(s: string, rest: string)
    requires !Clean(s)
    ensures Scan(s + rest) < |s|
  {
    assert (s + rest)[0] == s[0];
    if s[0] !in {'"', '\n', '\r'} {
      assert (s + rest)[1..] == s[1..] + rest;
      assert s == [s[0]] + s[1..];
      ScanStops(s[1..], rest);
    }
  }

  // A quoted string reads back, whatever follows it, exactly if it has no
  // quote and no line break.
  lemma ReadsBack(s: string, rest: string)
    ensures ReadString(Quote(s) + rest) == Some((s, rest)) <==> Clean(s)
  {
    var text, after := Quote(s) + rest, s + ['"'] + rest;
    assert text[1..] == after;
    if Clean(s) {
      ScanClean(s, '"', rest);
      assert after[..|s|] == s && after[|s| + 1..] == rest;
    }
  }

  // Standing alone, it either reads back or is no literal at all.
  lemma ReadsWhole(s: string)
    ensures ReadWhole(Quote(s)) == if Clean(s) then Some(s) else None
  {
    ReadsBack(s, "");
    assert Quote(s) + "" == Quote(s);
    var after := s + ['"'];
    assert Quote(s)[1..] == after;
    if !Clean(s) {
      ScanStops(s, ['"']);
    }
  }

  // From the first quote on, a value is program text.
  lemma BreaksOut(a: string, b: string)
    requires Clean(a)
    ensures ReadString(Quote(a + "\"" + b)) == Some((a, b + "\""))
  {
    ReadsBack(a, b + "\"");
    assert Quote(a + "\"" + b) == Quote(a) + (b + "\"");
  }

  predicate AllClean(values: seq<string>) {
    forall i :: 0 <= i < |values| ==> Clean(values[i])
  }

  function ReadAll(texts: seq<string>): Option<seq<string>> {
    if texts == [] then Some([])
    else
      match (ReadAll(texts[..|texts| - 1]), ReadWhole(texts[|texts| - 1]))
      case (Some(front), Some(last)) => Some(front + [last])
      case _ => None
  }

  lemma {:induction false} ReadsAll(values: seq<string>)
    ensures ReadAll(Map(Quote, values)) == if AllClean(values) then Some(values) else None
  {
    if values != [] {
      var front, last := values[..|values| - 1], values[|values| - 1];
      ReadsAll(front);
      ReadsWhole(last);
      assert Map(Quote, values)[..|values| - 1] == Map(Quote, front);
      assert values == front + [last];
      assert AllClean(values) <==> AllClean(front) && Clean(last);
    }
  }

  // The name of a variable or header.
  predicate IsName(s: string) {
    s != "" && forall i :: 0 <= i < |s| ==> AlNum(s[i]) || s[i] in {'_', '-', '.'}
  }
}
