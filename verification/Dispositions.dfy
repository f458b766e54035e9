// Dispositions of client requests, as a VarnishConfig resource states them.
module Resource {
  import opened Prelude

  type int64 = x: int | -0x8000_0000_0000_0000 <= x < 0x8000_0000_0000_0000

  // Any other text means the default.
  datatype Compare =
    | Equal | NotEqual | Match | NotMatch | Prefix | NotPrefix | Exists | NotExists
    | Greater | GreaterEqual | Less | LessEqual | Other(text: string)

  datatype Anchor = NoAnchor | Start | Both | OtherAnchor(text: string)

  datatype Flags = Flags(
    maxMem: Option<uint64>, anchor: Anchor, utf8: bool, posixSyntax: bool,
    longestMatch: bool, literal: bool, neverCapture: bool,
    caseSensitive: Option<bool>, perlClasses: bool, wordBoundary: bool)

  datatype Condition = Condition(
    values: seq<string>, matchFlags: Option<Flags>, count: Option<int64>,
    comparand: string, compare: Compare)

  datatype Disposition = Disposition(action: string, status: Option<int64>, reason: string)

  datatype RequestDisp = RequestDisp(conditions: seq<Condition>, disposition: Disposition)
}

module Dispositions {
  import opened Prelude
  import opened StableSort
  import opened VclSpec
  import opened DeepHash
  import opened Literals
  import R = Resource

  // ---- Validation ----

  datatype Invalid =
    | NoStatus
    | NothingToCompare(comparand: string)
    | ValuesAndCount(comparand: string)
    | IllegalCompare(comparand: string, compare: R.Compare)
    | IllegalComparand(comparand: string)

  const NUMERIC := {"req.esi_level", "req.restarts"}

  predicate IsHeader(comparand: string) {
    "req.http" <= comparand
  }

  predicate Textual(comparand: string) {
    comparand in {"req.url", "req.method", "req.proto"} || IsHeader(comparand)
  }

  predicate IsExistence(c: R.Compare) {
    c.Exists? || c.NotExists?
  }

  predicate IsOrder(c: R.Compare) {
    c.Greater? || c.GreaterEqual? || c.Less? || c.LessEqual?
  }

  // Values are compared as strings, a count as a number, and nothing at all
  // only tested for existence.
  predicate Acceptable(c: R.Condition) {
    if c.count.Some? then
      c.values == [] && !Textual(c.comparand) &&
        (c.compare.Equal? || c.compare.NotEqual? || IsOrder(c.compare) || c.compare.Other?)
    else if c.values != [] then
      c.comparand !in NUMERIC && !IsOrder(c.compare)
    else
      IsExistence(c.compare)
  }

  predicate HasStatus(d: R.RequestDisp) {
    d.disposition.action == RECV_SYNTH ==> d.disposition.status.Some?
  }

  ghost predicate AcceptableDisp(d: R.RequestDisp) {
    HasStatus(d) && forall j :: 0 <= j < |d.conditions| ==> Acceptable(d.conditions[j])
  }

  ghost predicate AllAcceptable(disps: seq<R.RequestDisp>) {
    forall i :: 0 <= i < |disps| ==> AcceptableDisp(disps[i])
  }

  // The error is about the first disposition that is not acceptable.
  ghost predicate Blames(e: Invalid, d: R.RequestDisp) {
    if e.NoStatus? then !HasStatus(d)
    else
      exists j ::
        && 0 <= j < |d.conditions| && !Acceptable(d.conditions[j]) && d.conditions[j].comparand == e.comparand
        && forall k :: 0 <= k < j ==> Acceptable(d.conditions[k])
  }

  method ValidateCondition(cond: R.Condition) returns (e: Option<Invalid>)
    ensures e.None? <==> Acceptable(cond)
    ensures e.Some? ==> !e.value.NoStatus? && e.value.comparand == cond.comparand
    ensures e.Some? && e.value.NothingToCompare? <==>
      cond.values == [] && cond.count.None? && !cond.compare.Exists? && !cond.compare.NotExists?
    ensures e.Some? && e.value.ValuesAndCount? <==> cond.values != [] && cond.count.Some?
    ensures cond.values != [] && cond.count.None? ==>
      (e.Some? && e.value.IllegalCompare? <==> cond.compare in {R.Greater, R.GreaterEqual, R.Less, R.LessEqual})
    ensures cond.values == [] && cond.count.Some? ==>
      (e.Some? && e.value.IllegalCompare? <==>
        cond.compare in {R.Match, R.NotMatch, R.Prefix, R.NotPrefix, R.Exists, R.NotExists})
    ensures e.Some? && e.value.IllegalCompare? ==> e.value.compare == cond.compare
  {
    var comparand := cond.comparand;
    if |cond.values| == 0 && cond.count.None? && !cond.compare.Exists? && !cond.compare.NotExists? {
      return Some(NothingToCompare(comparand));
    }
    if |cond.values| != 0 && cond.count.Some? {
      return Some(ValuesAndCount(comparand));
    }
    if |cond.values| > 0 {
      match cond.compare {
        case Greater | GreaterEqual | Less | LessEqual => return Some(IllegalCompare(comparand, cond.compare));
        case _ =>
      }
      if comparand == "req.esi_level" || comparand == "req.restarts" {
        return Some(IllegalComparand(comparand));
      }
    }
    if cond.count.Some? {
      match cond.compare {
        case Match | NotMatch | Prefix | NotPrefix | Exists | NotExists =>
          return Some(IllegalCompare(comparand, cond.compare));
        case _ =>
      }
      var err := comparand == "req.url" || comparand == "req.method" || comparand == "req.proto";
      if "req.http" <= comparand {
        err := true;
      }
      if err {
        return Some(IllegalComparand(comparand));
      }
    }
    return None;
  }

  method ValidateReqDisps(disps: seq<R.RequestDisp>) returns (e: Option<Invalid>)
    ensures e.None? <==> AllAcceptable(disps)
    ensures e.Some? ==>
      exists i ::
        && 0 <= i < |disps| && AllAcceptable(disps[..i])
        && !AcceptableDisp(disps[i]) && Blames(e.value, disps[i])
  {
    for i := 0 to |disps|
      invariant AllAcceptable(disps[..i])
    {
      var disp := disps[i];
      if disp.disposition.action == RECV_SYNTH && disp.disposition.status.None? {
        assert Blames(NoStatus, disps[i]);
        return Some(NoStatus);
      }
      for j := 0 to |disp.conditions|
        invariant forall k :: 0 <= k < j ==> Acceptable(disp.conditions[k])
      {
        e := ValidateCondition(disp.conditions[j]);
        if e.Some? {
          assert Blames(e.value, disps[i]);
          return;
        }
      }
    }
    assert disps[..|disps|] == disps;
    return None;
  }

  // ---- Translation ----

  function ConfigComparison(cmp: R.Compare): (CompareType, bool) {
    match cmp
    case Equal => (Equal, false)
    case NotEqual => (Equal, true)
    case Match => (Match, false)
    case NotMatch => (Match, true)
    case Prefix => (Prefix, false)
    case NotPrefix => (Prefix, true)
    case Exists => (Exists, false)
    case NotExists => (Exists, true)
    case Greater => (Greater, false)
    case GreaterEqual => (GreaterEqual, false)
    case Less => (Less, false)
    case LessEqual => (LessEqual, false)
    case Other(_) => (Equal, false)
  }

  const NONE: uint8 := 0
  const START: uint8 := 1
  const BOTH: uint8 := 2

  const DEFAULT_FLAGS := MatchFlags(0, NONE, false, false, false, false, false, true, false, false)

  function ConfigMatchFlags(f: R.Flags): MatchFlags {
    MatchFlags(
      if f.maxMem.Some? then f.maxMem.value else 0,
      match f.anchor case Start => START case Both => BOTH case _ => NONE,
      f.utf8, f.posixSyntax, f.longestMatch, f.literal, f.neverCapture,
      f.caseSensitive.None? || f.caseSensitive.value, f.perlClasses, f.wordBoundary)
  }

  // Every flag comes from the field of its name, and letter case matters
  // unless it is said not to.
  lemma MatchFlagsExactly(f: R.Flags)
    ensures var g := ConfigMatchFlags(f);
      && (f.maxMem.None? ==> g.maxMem == 0) && (f.maxMem.Some? ==> g.maxMem == f.maxMem.value)
      && (g.anchor == 1 <==> f.anchor == R.Start) && (g.anchor == 2 <==> f.anchor == R.Both) && g.anchor <= 2
      && g.utf8 == f.utf8 && g.posixSyntax == f.posixSyntax && g.longestMatch == f.longestMatch
      && g.literal == f.literal && g.neverCapture == f.neverCapture && g.perlClasses == f.perlClasses
      && g.wordBoundary == f.wordBoundary && (!g.caseSensitive <==> f.caseSensitive == Some(false))
    ensures forall c: R.Condition :: c.matchFlags == None ==>
      Translated(c).matchFlags == MatchFlags(0, 0, false, false, false, false, false, true, false, false)
    ensures forall c: R.Condition :: c.matchFlags == Some(f) ==> Translated(c).matchFlags == ConfigMatchFlags(f)
  {
  }

  function Translated(c: R.Condition): Condition {
    var (compare, negate) := ConfigComparison(c.compare);
    Condition(
      c.values,
      if c.matchFlags.Some? then ConfigMatchFlags(c.matchFlags.value) else DEFAULT_FLAGS,
      if c.count.Some? then Some(c.count.value % 0x1_0000_0000_0000_0000) else None,
      c.comparand, compare, negate)
  }

  function TranslatedDisp(d: R.RequestDisp): DispositionSpec
    requires HasStatus(d)
  {
    DispositionSpec(
      seq(|d.conditions|, j requires 0 <= j < |d.conditions| => Translated(d.conditions[j])),
      if d.disposition.action == RECV_SYNTH
      then Disposition(RECV_SYNTH, d.disposition.status.value % 0x1_0000, d.disposition.reason)
      else Disposition(d.disposition.action, 0, ""))
  }

  function TranslatedDisps(disps: seq<R.RequestDisp>): (r: seq<DispositionSpec>)
    requires forall i :: 0 <= i < |disps| ==> HasStatus(disps[i])
    ensures |r| == |disps| && forall i :: 0 <= i < |disps| ==> r[i] == TranslatedDisp(disps[i])
  {
    if disps == [] then [] else [TranslatedDisp(disps[0])] + TranslatedDisps(disps[1..])
  }

  // The dereference of a status that is not set.
  datatype Panic = NilStatus

  // With no dispositions the Spec stays as it is.
  method ConfigReqDisps(spec: Spec, disps: seq<R.RequestDisp>) returns (r: Result<Spec, Panic>)
    ensures r.Ok? <==> forall i :: 0 <= i < |disps| ==> HasStatus(disps[i])
    ensures r.Ok? ==> r.value == spec.(dispositions := if disps == [] then spec.dispositions else r.value.dispositions)
    ensures r.Ok? && disps != [] ==> r.value.dispositions == TranslatedDisps(disps)
  {
    if |disps| == 0 {
      return Ok(spec);
    }
    var translated: seq<DispositionSpec> := [];
    for i := 0 to |disps|
      invariant |translated| == i
      invariant forall k :: 0 <= k < i ==> HasStatus(disps[k]) && translated[k] == TranslatedDisp(disps[k])
    {
      var disp := disps[i];
      var conditions: seq<Condition> := [];
      for j := 0 to |disp.conditions|
        invariant |conditions| == j
        invariant forall k :: 0 <= k < j ==> conditions[k] == Translated(disp.conditions[k])
      {
        var cond := disp.conditions[j];
        var vcl := Condition(cond.values, DEFAULT_FLAGS, None, cond.comparand, Equal, false);
        if cond.count.Some? {
          vcl := vcl.(count := Some(cond.count.value % 0x1_0000_0000_0000_0000));
        }
        var (compare, negate) := ConfigComparison(cond.compare);
        vcl := vcl.(compare := compare, negate := negate);
        if cond.matchFlags.Some? {
          vcl := vcl.(matchFlags := ConfigMatchFlags(cond.matchFlags.value));
        }
        conditions := conditions + [vcl];
      }
      var disposition := Disposition(disp.disposition.action, 0, "");
      if disp.disposition.action == RECV_SYNTH {
        if disp.disposition.status.None? {
          return Err(NilStatus);
        }
        var status := disp.disposition.status.value % 0x1_0000;
        disposition := disposition.(status := status, reason := disp.disposition.reason);
      }
      translated := translated + [DispositionSpec(conditions, disposition)];
    }
    return Ok(spec.(dispositions := translated));
  }

  // ---- Rendering ----

  function CmpRelation(cmp: CompareType, negate: bool): string {
    match cmp
    case Equal => if negate then "!=" else "=="
    case Match => if negate then "!~" else "~"
    case Greater => ">"
    case GreaterEqual => ">="
    case Less => "<"
    case LessEqual => "<="
    case _ => "__INVALID_COMPARISON_TYPE__"
  }

  predicate ReqNeedsMatcher(c: Condition) {
    match c.compare
    case Match | Prefix => true
    case Exists | Greater | GreaterEqual | Less | LessEqual => false
    case Equal => !(c.count.Some? || |c.values| == 1)
  }

  function Vmod(cmp: CompareType): string {
    match cmp
    case Equal | Prefix => "selector"
    case Match => "re2"
    case _ => "__INVALID_COMPARISON_FOR_VMOD__"
  }

  function MatchMethod(cmp: CompareType): string {
    match cmp
    case Match | Equal => "match"
    case Prefix => "hasprefix"
    case _ => "__INVALID_MATCH_OPERATION__"
  }

  function Decimal(n: nat): (r: string)
    ensures r != "" && (n >= 10 ==> |r| > 1)
  {
    if n < 10 then [Digit(n)] else Decimal(n / 10) + [Digit(n % 10)]
  }

  const DEFAULT_MEM := 8388608

  // The flags of a matcher, which are joined by commas.
  datatype Setting =
    | MaxMem(n: nat) | AnchorStart | AnchorBoth | UTF8 | PosixSyntax | LongestMatch | Literal
    | CaseInsensitive | PerlClasses | WordBoundary

  function SettingText(o: Setting): string {
    match o
    case MaxMem(n) => "max_mem=" + Decimal(n)
    case AnchorStart => "anchor=start"
    case AnchorBoth => "anchor=both"
    case UTF8 => "utf8=true"
    case PosixSyntax => "posix_syntax=true"
    case LongestMatch => "longest_match=true"
    case Literal => "literal=true"
    case CaseInsensitive => "case_sensitive=false"
    case PerlClasses => "perl_classes=true"
    case WordBoundary => "word_boundary=true"
  }

  function If(b: bool, o: Setting): seq<Setting> {
    if b then [o] else []
  }

  function SizeFlags(f: MatchFlags): seq<Setting> {
    If(f.maxMem != 0 && f.maxMem != DEFAULT_MEM, MaxMem(f.maxMem))
    + If(f.anchor == START, AnchorStart) + If(f.anchor == BOTH, AnchorBoth)
  }

  function SyntaxFlags(f: MatchFlags): seq<Setting> {
    If(f.utf8, UTF8) + If(f.posixSyntax, PosixSyntax) + If(f.longestMatch, LongestMatch) + If(f.literal, Literal)
  }

  function ClassFlags(f: MatchFlags): seq<Setting> {
    If(!f.caseSensitive, CaseInsensitive) + If(f.perlClasses, PerlClasses) + If(f.wordBoundary, WordBoundary)
  }

  function MatcherFlags(isSelector: bool, f: MatchFlags): seq<Setting> {
    if isSelector then If(!f.caseSensitive, CaseInsensitive)
    else SizeFlags(f) + SyntaxFlags(f) + ClassFlags(f)
  }

  // A condition in VCL. Values are in it as the text of literals.
  datatype Operand = Number(count: nat) | Text(literal: string)

  datatype Expr =
    | Not(e: Expr)
    | Call(vmod: string, flags: seq<Setting>, literals: seq<string>, op: string, comparand: string)
    | Present(comparand: string)
    | Relation(comparand: string, op: string, operand: Operand)

  // A value is the first of no values at all.
  datatype NoValue = NoValue

  function ReqValue(c: Condition): Result<Operand, NoValue> {
    if c.count.Some? then Ok(Number(c.count.value))
    else if c.values == [] then Err(NoValue)
    else Ok(Text(Quote(c.values[0])))
  }

  function RenderPositive(c: Condition): Result<Expr, NoValue> {
    if ReqNeedsMatcher(c) then
      var flags := MatcherFlags(c.compare != Match, c.matchFlags);
      Ok(Call(Vmod(c.compare), flags, Map(Quote, c.values), MatchMethod(c.compare), c.comparand))
    else if c.compare == Exists then Ok(Present(c.comparand))
    else
      match ReqValue(c)
      case Ok(v) => Ok(Relation(c.comparand, CmpRelation(c.compare, c.negate), v))
      case Err(e) => Err(e)
  }

  // The negation goes in front of whatever follows it.
  function Render(c: Condition): Result<Expr, NoValue> {
    match RenderPositive(c)
    case Ok(e) => Ok(if c.negate then Not(e) else e)
    case Err(e) => Err(e)
  }

  // ---- Meaning ----

  // A request: the strings it has, and its counters. Folding letters to one
  // case, matching a regular expression under given flags, and whether a kind
  // of matcher takes a string that it has already are left open.
  datatype Request = Request(text: string -> Option<string>, number: string -> int)

  datatype Engine = Engine(
    fold: string -> string, matches: (MatchFlags, string, string) -> bool, takesTwice: string -> bool)

  function Folded(en: Engine, sensitive: bool, s: string): string {
    if sensitive then s else en.fold(s)
  }

  // Whether a matcher takes all of the strings that are added to it.
  predicate Takes(en: Engine, vmod: string, values: seq<string>) {
    en.takesTwice(vmod) || forall i, j :: 0 <= i < j < |values| ==> values[i] != values[j]
  }

  predicate AnyEqual(en: Engine, sensitive: bool, values: seq<string>, s: string) {
    exists i :: 0 <= i < |values| && Folded(en, sensitive, values[i]) == Folded(en, sensitive, s)
  }

  predicate AnyPrefix(en: Engine, sensitive: bool, values: seq<string>, s: string) {
    exists i :: 0 <= i < |values| && Folded(en, sensitive, values[i]) <= Folded(en, sensitive, s)
  }

  predicate AnyMatch(en: Engine, f: MatchFlags, values: seq<string>, s: string) {
    exists i :: 0 <= i < |values| && en.matches(f, values[i], s)
  }

  // Whether captures are recorded and how much memory the patterns may take
  // is not a matter of what matches.
  function Matching(f: MatchFlags): MatchFlags {
    f.(neverCapture := false, maxMem := 0)
  }

  // The flags of a matcher, read back.
  function FlagsOf(opts: seq<Setting>): MatchFlags {
    MatchFlags(
      0, if AnchorStart in opts then START else if AnchorBoth in opts then BOTH else NONE,
      UTF8 in opts, PosixSyntax in opts, LongestMatch in opts, Literal in opts, false,
      CaseInsensitive !in opts, PerlClasses in opts, WordBoundary in opts)
  }

  function Compared(op: string, x: int, y: int): Option<bool> {
    if op == "==" then Some(x == y)
    else if op == "!=" then Some(x != y)
    else if op == ">" then Some(x > y)
    else if op == ">=" then Some(x >= y)
    else if op == "<" then Some(x < y)
    else if op == "<=" then Some(x <= y)
    else None
  }

  // The value of a VCL condition, or None if its text is none: every literal
  // has to read back as one. A header that is not there is equal to nothing
  // and matches nothing, and a counter stands for whether it is not zero.
  function Eval(en: Engine, req: Request, e: Expr): Option<bool> {
    match e
    case Not(e1) =>
      (match Eval(en, req, e1) case Some(b) => Some(!b) case None => None)
    case Present(comparand) =>
      if !IsName(comparand) then None
      else if comparand in NUMERIC then Some(req.number(comparand) != 0)
      else Some(req.text(comparand).Some?)
    case Relation(comparand, op, operand) =>
      if !IsName(comparand) then None
      else
        (match operand
         case Number(n) => Compared(op, req.number(comparand), n)
         case Text(literal) => Related(op, req.text(comparand), ReadWhole(literal)))
    case Call(vmod, flags, literals, op, comparand) =>
      var values := ReadAll(literals);
      if !IsName(comparand) || values.None? || !Takes(en, vmod, values.value) then None
      else Called(en, vmod, op, FlagsOf(flags), values.value, req.text(comparand))
  }

  function Related(op: string, there: Option<string>, value: Option<string>): Option<bool> {
    if value.None? then None
    else if op == "==" then Some(there == value)
    else if op == "!=" then Some(there != value)
    else None
  }

  function Called(en: Engine, vmod: string, op: string, f: MatchFlags, values: seq<string>, there: Option<string>)
    : Option<bool>
  {
    if vmod == "selector" && op == "match" then
      Some(there.Some? && AnyEqual(en, f.caseSensitive, values, there.value))
    else if vmod == "selector" && op == "hasprefix" then
      Some(there.Some? && AnyPrefix(en, f.caseSensitive, values, there.value))
    else if vmod == "re2" && op == "match" then
      Some(there.Some? && AnyMatch(en, f, values, there.value))
    else None
  }

  // What the resource promises of a condition.
  function Sensitive(c: R.Condition): bool {
    c.matchFlags.None? || c.matchFlags.value.caseSensitive.None? || c.matchFlags.value.caseSensitive.value
  }

  predicate EqualHolds(en: Engine, req: Request, c: R.Condition) {
    if c.count.Some? then req.number(c.comparand) == c.count.value
    else
      var there := req.text(c.comparand);
      there.Some? && AnyEqual(en, Sensitive(c), c.values, there.value)
  }

  predicate PrefixHolds(en: Engine, req: Request, c: R.Condition) {
    var there := req.text(c.comparand);
    there.Some? && AnyPrefix(en, Sensitive(c), c.values, there.value)
  }

  predicate MatchHolds(en: Engine, req: Request, c: R.Condition) {
    var there := req.text(c.comparand);
    there.Some? && AnyMatch(en, Matching(Translated(c).matchFlags), c.values, there.value)
  }

  predicate Holds(en: Engine, req: Request, c: R.Condition) {
    match c.compare
    case Equal => EqualHolds(en, req, c)
    case NotEqual => !EqualHolds(en, req, c)
    case Match => MatchHolds(en, req, c)
    case NotMatch => !MatchHolds(en, req, c)
    case Prefix => PrefixHolds(en, req, c)
    case NotPrefix => !PrefixHolds(en, req, c)
    case Exists => req.text(c.comparand).Some?
    case NotExists => req.text(c.comparand).None?
    case Greater => c.count.Some? && req.number(c.comparand) > c.count.value
    case GreaterEqual => c.count.Some? && req.number(c.comparand) >= c.count.value
    case Less => c.count.Some? && req.number(c.comparand) < c.count.value
    case LessEqual => c.count.Some? && req.number(c.comparand) <= c.count.value
    case Other(_) => EqualHolds(en, req, c)
  }

  // The flags survive rendering, except for those that do not matter.
  lemma SizeChosen(o: Setting, f: MatchFlags)
    ensures o in SizeFlags(f) <==>
      match o
      case MaxMem(n) => n == f.maxMem && n != 0 && n != DEFAULT_MEM
      case AnchorStart => f.anchor == START
      case AnchorBoth => f.anchor == BOTH
      case _ => false
  {
  }

  lemma SyntaxChosen(o: Setting, f: MatchFlags)
    ensures o in SyntaxFlags(f) <==>
      match o
      case UTF8 => f.utf8
      case PosixSyntax => f.posixSyntax
      case LongestMatch => f.longestMatch
      case Literal => f.literal
      case _ => false
  {
  }

  lemma ClassChosen(o: Setting, f: MatchFlags)
    ensures o in ClassFlags(f) <==>
      match o
      case CaseInsensitive => !f.caseSensitive
      case PerlClasses => f.perlClasses
      case WordBoundary => f.wordBoundary
      case _ => false
  {
  }

  lemma Chosen(o: Setting, f: MatchFlags)
    ensures o in MatcherFlags(false, f) <==> o in SizeFlags(f) || o in SyntaxFlags(f) || o in ClassFlags(f)
    ensures o in SizeFlags(f) ==> o.MaxMem? || o.AnchorStart? || o.AnchorBoth?
    ensures o in SyntaxFlags(f) ==> o.UTF8? || o.PosixSyntax? || o.LongestMatch? || o.Literal?
    ensures o in ClassFlags(f) ==> o.CaseInsensitive? || o.PerlClasses? || o.WordBoundary?
  {
    SizeChosen(o, f);
    SyntaxChosen(o, f);
    ClassChosen(o, f);
  }

  lemma SizeReadBack(f: MatchFlags)
    requires f.anchor <= BOTH
    ensures FlagsOf(MatcherFlags(false, f)).anchor == f.anchor
  {
    Chosen(AnchorStart, f);
    Chosen(AnchorBoth, f);
    SizeChosen(AnchorStart, f);
    SizeChosen(AnchorBoth, f);
  }

  lemma SyntaxReadBack(f: MatchFlags)
    ensures var g := FlagsOf(MatcherFlags(false, f));
      g.utf8 == f.utf8 && g.posixSyntax == f.posixSyntax && g.longestMatch == f.longestMatch && g.literal == f.literal
  {
    forall o: Setting ensures (o in MatcherFlags(false, f) <==> o in SyntaxFlags(f)) || o.MaxMem? || o.AnchorStart?
      || o.AnchorBoth? || o.CaseInsensitive? || o.PerlClasses? || o.WordBoundary?
    {
      Chosen(o, f);
    }
    SyntaxChosen(UTF8, f);
    SyntaxChosen(PosixSyntax, f);
    SyntaxChosen(LongestMatch, f);
    SyntaxChosen(Literal, f);
  }

  lemma ClassReadBack(f: MatchFlags)
    ensures var g := FlagsOf(MatcherFlags(false, f));
      g.caseSensitive == f.caseSensitive && g.perlClasses == f.perlClasses && g.wordBoundary == f.wordBoundary
  {
    Chosen(CaseInsensitive, f);
    Chosen(PerlClasses, f);
    Chosen(WordBoundary, f);
    ClassChosen(CaseInsensitive, f);
    ClassChosen(PerlClasses, f);
    ClassChosen(WordBoundary, f);
  }

  lemma FlagsReadBack(f: MatchFlags)
    requires f.anchor <= BOTH
    ensures FlagsOf(MatcherFlags(false, f)) == Matching(f)
    ensures FlagsOf(MatcherFlags(true, f)).caseSensitive == f.caseSensitive
  {
    SizeReadBack(f);
    SyntaxReadBack(f);
    ClassReadBack(f);
  }

  lemma SettingsAreDistinct(o: Setting, p: Setting)
    requires SettingText(o) == SettingText(p)
    ensures o == p
  {
    var s, t := SettingText(o), SettingText(p);
    assert s[0] == t[0] && s[1] == t[1] && |s| == |t|;
    if o.MaxMem? && p.MaxMem? {
      assert s[8..] == Decimal(o.n) && t[8..] == Decimal(p.n);
      DecimalInjective(o.n, p.n);
    }
  }

  lemma {:induction false} DecimalInjective(m: nat, n: nat)
    requires Decimal(m) == Decimal(n)
    ensures m == n
  {
    var a, b := Decimal(m), Decimal(n);
    assert a[|a| - 1] == Digit(m % 10) && b[|b| - 1] == Digit(n % 10);
    if m >= 10 && n >= 10 {
      assert a[..|a| - 1] == Decimal(m / 10) && b[..|b| - 1] == Decimal(n / 10);
      DecimalInjective(m / 10, n / 10);
    }
  }

  // Every accepted condition is rendered, in exactly one of three ways, and
  // nothing the templates call invalid is ever written.
  lemma ValidatedRenders(c: R.Condition)
    requires Acceptable(c)
    ensures var d := Translated(c);
      if ReqNeedsMatcher(d) then
        d.values != [] && Vmod(d.compare) in {"selector", "re2"} && MatchMethod(d.compare) in {"match", "hasprefix"}
      else
        d.compare == Exists ||
          (ReqValue(d).Ok? && CmpRelation(d.compare, d.negate) in {"==", "!=", ">", ">=", "<", "<="})
    ensures Render(Translated(c)).Ok?
  {
  }

  // The limits that the schema of the resource sets to a condition. Of the
  // characters of a header's name, only IsName allows what VCL does.
  predicate ConditionInSchema(c: R.Condition) {
    && (c.count.Some? ==> c.count.value >= 0)
    && (c.comparand in {"req.url", "req.method", "req.proto"} || c.comparand in NUMERIC
        || ("req.http." <= c.comparand && |c.comparand| > |"req.http."|))
  }

  // What has to stand in the text of a condition can be read there, and a
  // matcher takes it.
  predicate Readable(en: Engine, c: R.Condition) {
    && IsName(c.comparand) && (IsExistence(c.compare) || AllClean(c.values))
    && (ReqNeedsMatcher(Translated(c)) ==> Takes(en, Vmod(Translated(c).compare), c.values))
  }

  // A comparison without a matcher: with one value, or with a count.
  predicate Plain(c: R.Condition) {
    |c.values| == 1 || c.count.Some?
  }

  predicate PlainEquality(c: R.Condition) {
    Plain(c) && (c.compare.Equal? || c.compare.Other?)
  }

  function Rendered(en: Engine, req: Request, c: R.Condition): Option<bool>
    requires Acceptable(c)
  {
    ValidatedRenders(c);
    Eval(en, req, Render(Translated(c)).value)
  }

  function Negated(b: Option<bool>, negate: bool): Option<bool> {
    if b.Some? then Some(b.value != negate) else None
  }

  lemma NegationInFront(en: Engine, req: Request, c: R.Condition)
    requires Acceptable(c)
    ensures RenderPositive(Translated(c)).Ok?
    ensures Rendered(en, req, c) == Negated(Eval(en, req, RenderPositive(Translated(c)).value), Translated(c).negate)
  {
    var e := RenderPositive(Translated(c)).value;
    assert Eval(en, req, Not(e)) == Negated(Eval(en, req, e), true);
    assert Negated(Eval(en, req, e), false) == Eval(en, req, e);
  }

  // What stands behind the negation.
  predicate Matches(en: Engine, req: Request, c: R.Condition) {
    match Translated(c).compare
    case Match => MatchHolds(en, req, c)
    case Prefix => PrefixHolds(en, req, c)
    case _ => EqualHolds(en, req, c)
  }

  lemma MatchesOrNot(en: Engine, req: Request, c: R.Condition)
    requires Acceptable(c) && ReqNeedsMatcher(Translated(c))
    ensures Holds(en, req, c) <==> Matches(en, req, c) != Translated(c).negate
  {
  }

  lemma CallMeaning(en: Engine, req: Request, c: R.Condition)
    requires ReqNeedsMatcher(Translated(c)) && c.count.None?
    ensures RenderPositive(Translated(c)).Ok?
    ensures Eval(en, req, RenderPositive(Translated(c)).value) ==
      if Readable(en, c) then Some(Matches(en, req, c)) else None
  {
    var d, there := Translated(c), req.text(c.comparand);
    var flags := MatcherFlags(d.compare != Match, d.matchFlags);
    ReadsAll(c.values);
    if Readable(en, c) {
      assert Eval(en, req, RenderPositive(d).value) ==
        Called(en, Vmod(d.compare), MatchMethod(d.compare), FlagsOf(flags), c.values, there);
      CalledMeaning(en, req, c);
    }
  }

  lemma CalledMeaning(en: Engine, req: Request, c: R.Condition)
    requires ReqNeedsMatcher(Translated(c)) && c.count.None?
    ensures var d := Translated(c);
      var flags := MatcherFlags(d.compare != Match, d.matchFlags);
      Called(en, Vmod(d.compare), MatchMethod(d.compare), FlagsOf(flags), c.values, req.text(c.comparand)) ==
        Some(Matches(en, req, c))
  {
    var d, there := Translated(c), req.text(c.comparand);
    FlagsReadBack(d.matchFlags);
    if d.compare == Match {
      assert Called(en, "re2", "match", Matching(d.matchFlags), c.values, there) == Some(MatchHolds(en, req, c));
    } else {
      var f := FlagsOf(MatcherFlags(true, d.matchFlags));
      assert f.caseSensitive == Sensitive(c);
      assert Called(en, "selector", "hasprefix", f, c.values, there) == Some(PrefixHolds(en, req, c));
      assert Called(en, "selector", "match", f, c.values, there) == Some(EqualHolds(en, req, c));
    }
  }

  lemma ValueMeaning(en: Engine, req: Request, c: R.Condition)
    requires Acceptable(c) && |c.values| == 1 && !ReqNeedsMatcher(Translated(c)) && !IsExistence(c.compare)
    ensures RenderPositive(Translated(c)).Ok?
    ensures Eval(en, req, RenderPositive(Translated(c)).value) ==
      if Readable(en, c) then Some(EqualHolds(en, req, c.(matchFlags := None)) != Translated(c).negate) else None
  {
    var v, there := c.values[0], req.text(c.comparand);
    ReadsWhole(v);
    assert AllClean(c.values) <==> Clean(v);
    assert there.Some? ==> (AnyEqual(en, true, c.values, there.value) <==> there.value == v);
  }

  lemma CountMeaning(en: Engine, req: Request, c: R.Condition)
    requires Acceptable(c) && c.count.Some? && c.count.value >= 0
    ensures RenderPositive(Translated(c)).Ok?
    ensures Eval(en, req, RenderPositive(Translated(c)).value) ==
      if Readable(en, c) then Some(Holds(en, req, c)) else None
  {
    var d := Translated(c);
    var op := CmpRelation(d.compare, d.negate);
    assert RenderPositive(d).value == Relation(c.comparand, op, Number(c.count.value));
    assert Compared(op, req.number(c.comparand), c.count.value) == Some(Holds(en, req, c));
  }

  lemma MatcherMeaning(en: Engine, req: Request, c: R.Condition)
    requires Acceptable(c) && ReqNeedsMatcher(Translated(c))
    ensures Rendered(en, req, c) == if Readable(en, c) then Some(Holds(en, req, c)) else None
  {
    var negate, positive := Translated(c).negate, if Readable(en, c) then Some(Matches(en, req, c)) else None;
    assert Rendered(en, req, c) == Negated(positive, negate) by {
      NegationInFront(en, req, c);
      CallMeaning(en, req, c);
    }
    MatchesOrNot(en, req, c);
  }

  lemma ExistenceMeaning(en: Engine, req: Request, c: R.Condition)
    requires Acceptable(c) && IsExistence(c.compare)
    ensures Rendered(en, req, c) ==
      if !Readable(en, c) then None
      else if c.comparand in NUMERIC then Some((req.number(c.comparand) != 0) == c.compare.Exists?)
      else Some(Holds(en, req, c))
  {
    NegationInFront(en, req, c);
  }

  lemma PlainMeaning(en: Engine, req: Request, c: R.Condition)
    requires Acceptable(c) && ConditionInSchema(c) && !ReqNeedsMatcher(Translated(c)) && !IsExistence(c.compare)
    ensures Rendered(en, req, c) ==
      if !Readable(en, c) then None
      else if c.compare.NotEqual? || PlainEquality(c) then Some(EqualHolds(en, req, c.(matchFlags := None)))
      else Some(Holds(en, req, c))
  {
    NegationInFront(en, req, c);
    if c.count.Some? {
      CountMeaning(en, req, c);
    } else {
      ValueMeaning(en, req, c);
    }
  }

  // What an accepted condition means once rendered. The relation is already
  // negated when the negation is put in front of it, and a relation does not
  // know of flags. What cannot be read has no meaning.
  lemma RenderedMeaning(en: Engine, req: Request, c: R.Condition)
    requires Acceptable(c) && ConditionInSchema(c)
    ensures Rendered(en, req, c) ==
      if !Readable(en, c) then None
      else if Plain(c) && c.compare.NotEqual? then Some(EqualHolds(en, req, c.(matchFlags := None)))
      else if PlainEquality(c) then Some(EqualHolds(en, req, c.(matchFlags := None)))
      else if IsExistence(c.compare) && c.comparand in NUMERIC then
        Some((req.number(c.comparand) != 0) == c.compare.Exists?)
      else Some(Holds(en, req, c))
  {
    if ReqNeedsMatcher(Translated(c)) {
      MatcherMeaning(en, req, c);
    } else if IsExistence(c.compare) {
      ExistenceMeaning(en, req, c);
    } else {
      PlainMeaning(en, req, c);
    }
  }

  // So it means what the resource promises, of all requests, exactly when its
  // text can be read, existence is that of a header, and it is neither a plain
  // inequality nor a plain equality to be tested without regard to case with
  // a value that some other string folds to.
  ghost predicate RendersFaithfully(en: Engine, c: R.Condition)
    requires Acceptable(c)
  {
    forall req :: Agrees(en, req, c)
  }

  // Nothing is promised of the existence of anything but a header.
  predicate Promises(c: R.Condition) {
    IsExistence(c.compare) ==> IsHeader(c.comparand)
  }

  ghost predicate Agrees(en: Engine, req: Request, c: R.Condition)
    requires Acceptable(c)
  {
    Promises(c) && Rendered(en, req, c) == Some(Holds(en, req, c))
  }

  ghost predicate CaseMatters(en: Engine, v: string) {
    forall s :: en.fold(s) == en.fold(v) ==> s == v
  }

  ghost predicate IgnoresCase(en: Engine, c: R.Condition) {
    PlainEquality(c) && c.count.None? && !Sensitive(c) && |c.values| == 1 && !CaseMatters(en, c.values[0])
  }

  lemma FaithfulExactly(en: Engine, c: R.Condition)
    requires Acceptable(c) && ConditionInSchema(c)
    ensures RendersFaithfully(en, c) <==>
      Readable(en, c) && Promises(c) && !(Plain(c) && c.compare.NotEqual?) && !IgnoresCase(en, c)
  {
    if !Readable(en, c) {
      Unread(en, c);
    } else if !Promises(c) {
      assert !Agrees(en, Request(_ => None, _ => 0), c);
    } else if Plain(c) && c.compare.NotEqual? {
      PlainInequality(en, c);
    } else if IgnoresCase(en, c) {
      CaseIgnored(en, c);
    } else {
      forall req ensures Agrees(en, req, c) {
        Agreement(en, req, c);
      }
    }
  }

  lemma Unread(en: Engine, c: R.Condition)
    requires Acceptable(c) && ConditionInSchema(c) && !Readable(en, c)
    ensures !RendersFaithfully(en, c)
  {
    var req := Request(_ => None, _ => 0);
    RenderedMeaning(en, req, c);
    assert !Agrees(en, req, c);
  }

  // A request that has just the value is told to be different from it.
  lemma PlainInequality(en: Engine, c: R.Condition)
    requires Acceptable(c) && ConditionInSchema(c) && Readable(en, c) && Plain(c) && c.compare.NotEqual?
    ensures !RendersFaithfully(en, c)
  {
    var req := Request(_ => if c.values == [] then None else Some(c.values[0]), _ => 0);
    RenderedMeaning(en, req, c);
    if c.values != [] {
      assert AnyEqual(en, true, c.values, c.values[0]) && AnyEqual(en, Sensitive(c), c.values, c.values[0]);
    }
    assert !Agrees(en, req, c);
  }

  lemma CaseIgnored(en: Engine, c: R.Condition)
    requires Acceptable(c) && ConditionInSchema(c) && Readable(en, c) && IgnoresCase(en, c)
    ensures !RendersFaithfully(en, c)
  {
    var s :| en.fold(s) == en.fold(c.values[0]) && s != c.values[0];
    var req := Request(_ => Some(s), _ => 0);
    RenderedMeaning(en, req, c);
    assert AnyEqual(en, false, c.values, s) && !AnyEqual(en, true, c.values, s);
    assert !Agrees(en, req, c);
  }

  lemma Agreement(en: Engine, req: Request, c: R.Condition)
    requires Acceptable(c) && ConditionInSchema(c) && Readable(en, c) && Promises(c)
    requires !(Plain(c) && c.compare.NotEqual?) && !IgnoresCase(en, c)
    ensures Agrees(en, req, c)
  {
    RenderedMeaning(en, req, c);
    if PlainEquality(c) && c.count.None? {
      SameWithoutFlags(en, req, c);
    }
    if IsHeader(c.comparand) {
      HeadersAreNotNumeric(c.comparand);
    }
  }

  lemma HeadersAreNotNumeric(comparand: string)
    requires IsHeader(comparand)
    ensures comparand !in NUMERIC
  {
    assert comparand[4] == "req.http"[4] == 'h';
  }

  lemma SameWithoutFlags(en: Engine, req: Request, c: R.Condition)
    requires |c.values| == 1 && c.count.None? && (Sensitive(c) || CaseMatters(en, c.values[0]))
    ensures EqualHolds(en, req, c.(matchFlags := None)) == EqualHolds(en, req, c)
  {
    var there := req.text(c.comparand);
    if there.Some? {
      assert AnyEqual(en, true, c.values, there.value) <==> there.value == c.values[0];
      assert AnyEqual(en, Sensitive(c), c.values, there.value) <==>
        Folded(en, Sensitive(c), c.values[0]) == Folded(en, Sensitive(c), there.value);
    }
  }

  // A condition that is accepted, and whose value is a test of its own.
  lemma ValueBecomesCode(en: Engine)
    ensures var c := R.Condition(["x\" || req.url == \"y"], None, None, "req.url", R.Equal);
      && Acceptable(c) && ConditionInSchema(c) && !RendersFaithfully(en, c)
      && ReadString(Quote(c.values[0])) == Some(("x", " || req.url == \"y\""))
  {
    var c := R.Condition(["x\" || req.url == \"y"], None, None, "req.url", R.Equal);
    assert c.values[0] == "x" + "\"" + " || req.url == \"y";
    BreaksOut("x", " || req.url == \"y");
    assert " || req.url == \"y" + "\"" == " || req.url == \"y\"";
    assert c.values[0][1] == '"';
    assert !Clean(c.values[0]) && !AllClean(c.values);
    assert |c.comparand| == 7 && c.comparand !in NUMERIC;
    FaithfulExactly(en, c);
  }

  // And one that is accepted although it has a value twice, which is only as
  // it is meant if the matcher takes it twice.
  lemma ValueTwice(en: Engine)
    ensures var c := R.Condition(["/a", "/a"], None, None, "req.url", R.Equal);
      && Acceptable(c) && ConditionInSchema(c)
      && (RendersFaithfully(en, c) <==> en.takesTwice("selector"))
  {
    var c := R.Condition(["/a", "/a"], None, None, "req.url", R.Equal);
    assert c.values[0] == c.values[1];
    assert |c.comparand| == 7 && c.comparand !in NUMERIC;
    FaithfulExactly(en, c);
  }

  // ---- Whole configurations ----

  // A disposition applies when all of its conditions hold, and the first one
  // that applies is taken.
  ghost predicate Applies(en: Engine, req: Request, d: R.RequestDisp) {
    forall j :: 0 <= j < |d.conditions| ==> Holds(en, req, d.conditions[j])
  }

  function EvalCondition(en: Engine, req: Request, c: Condition): Option<bool> {
    match Render(c)
    case Ok(e) => Eval(en, req, e)
    case Err(_) => None
  }

  ghost predicate RenderedApplies(en: Engine, req: Request, d: DispositionSpec) {
    forall j :: 0 <= j < |d.conditions| ==> EvalCondition(en, req, d.conditions[j]) == Some(true)
  }

  datatype Action = Return(action: string) | Synth(status: int, reason: string)

  function ActionOf(action: string, status: int, reason: string): Action {
    if action == RECV_SYNTH then Synth(status, reason) else Return(action)
  }

  // The reason is written as a literal, if there is one.
  function RenderedAction(d: Disposition): Option<Action> {
    if d.action == RECV_SYNTH && d.reason != "" then
      match ReadWhole(Quote(d.reason))
      case Some(reason) => Some(Synth(d.status, reason))
      case None => None
    else Some(ActionOf(d.action, d.status, d.reason))
  }

  function PromisedAction(d: R.Disposition): Action {
    ActionOf(d.action, if d.status.Some? then d.status.value else 0, d.reason)
  }

  predicate ReasonReadable(d: R.RequestDisp) {
    d.disposition.action == RECV_SYNTH ==> Clean(d.disposition.reason)
  }

  // The limits that the schema sets to a disposition.
  predicate InSchema(d: R.RequestDisp) {
    && (d.disposition.status.Some? ==> 200 <= d.disposition.status.value <= 599)
    && d.conditions != [] && forall j :: 0 <= j < |d.conditions| ==> ConditionInSchema(d.conditions[j])
  }

  lemma ActionKept(d: R.RequestDisp)
    requires HasStatus(d) && InSchema(d)
    ensures RenderedAction(TranslatedDisp(d).disposition) == Some(PromisedAction(d.disposition)) <==> ReasonReadable(d)
  {
    ReadsWhole(d.disposition.reason);
  }

  ghost function Promised(en: Engine, req: Request, disps: seq<R.RequestDisp>): Action {
    if disps == [] then Return("hash")
    else if Applies(en, req, disps[0]) then PromisedAction(disps[0].disposition)
    else Promised(en, req, disps[1..])
  }

  // A list of no conditions is not VCL.
  ghost predicate IsVCL(en: Engine, req: Request, d: DispositionSpec) {
    && d.conditions != [] && RenderedAction(d.disposition).Some?
    && forall j :: 0 <= j < |d.conditions| ==> EvalCondition(en, req, d.conditions[j]).Some?
  }

  ghost function Performed(en: Engine, req: Request, disps: seq<DispositionSpec>): Option<Action> {
    if disps == [] then Some(Return("hash"))
    else
      var others := Performed(en, req, disps[1..]);
      if others.None? || !IsVCL(en, req, disps[0]) then None
      else if RenderedApplies(en, req, disps[0]) then RenderedAction(disps[0].disposition)
      else others
  }

  // Every condition and every reason is rendered as it is meant.
  ghost predicate AllFaithful(en: Engine, disps: seq<R.RequestDisp>)
    requires AllAcceptable(disps)
  {
    forall i :: 0 <= i < |disps| ==> FaithfulDisp(en, disps[i])
  }

  ghost predicate FaithfulDisp(en: Engine, d: R.RequestDisp)
    requires AcceptableDisp(d)
  {
    ReasonReadable(d) && forall j :: 0 <= j < |d.conditions| ==> RendersFaithfully(en, d.conditions[j])
  }

  // What is validated is configured, and then does what is promised, if it is
  // rendered as it is meant.
  lemma {:induction false} PromisesKept(en: Engine, req: Request, disps: seq<R.RequestDisp>)
    requires AllAcceptable(disps) && AllFaithful(en, disps) && forall i :: 0 <= i < |disps| ==> InSchema(disps[i])
    ensures Performed(en, req, TranslatedDisps(disps)) == Some(Promised(en, req, disps))
  {
    if disps != [] {
      var d, t := disps[0], TranslatedDisp(disps[0]);
      OnePromiseKept(en, req, d);
      PromisesKept(en, req, disps[1..]);
      assert TranslatedDisps(disps)[1..] == TranslatedDisps(disps[1..]);
    }
  }

  lemma OnePromiseKept(en: Engine, req: Request, d: R.RequestDisp)
    requires AcceptableDisp(d) && InSchema(d) && FaithfulDisp(en, d)
    ensures IsVCL(en, req, TranslatedDisp(d))
    ensures RenderedApplies(en, req, TranslatedDisp(d)) <==> Applies(en, req, d)
    ensures RenderedAction(TranslatedDisp(d).disposition) == Some(PromisedAction(d.disposition))
  {
    var t := TranslatedDisp(d);
    ActionKept(d);
    forall j | 0 <= j < |d.conditions|
      ensures EvalCondition(en, req, t.conditions[j]) == Some(Holds(en, req, d.conditions[j]))
    {
      assert RendersFaithfully(en, d.conditions[j]);
      assert Agrees(en, req, d.conditions[j]);
    }
  }
}
