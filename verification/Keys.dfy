/** The keys under which overlapping MCP tool calls are shared. Two calls are
    answered by one execution exactly when their keys agree, so a key has to
    determine the call it was built from. */
module Keys {
  import opened Sequences
  import opened Orders

  /** Go strings are byte sequences. */
  newtype Byte = x: int | 0 <= x < 256
  type Text = seq<Byte>

  const SPACE: Byte := 32
  const PERCENT: Byte := 37
  const AMPERSAND: Byte := 38
  const PLUS: Byte := 43
  const COMMA: Byte := 44
  const COLON: Byte := 58
  const EQUALS: Byte := 61
  const QUESTION: Byte := 63

  predicate IsAscii(s: string) {
    forall i :: 0 <= i < |s| ==> s[i] as int < 128
  }

  /** A literal as the bytes it stands for. */
  function Ascii(s: string): Text
    requires IsAscii(s)
  {
    seq(|s|, i requires 0 <= i < |s| => s[i] as int as Byte)
  }

  lemma AsciiIsInjective(a: string, b: string)
    requires IsAscii(a) && IsAscii(b)
    requires Ascii(a) == Ascii(b)
    ensures a == b
  {
    assert |a| == |Ascii(a)| == |Ascii(b)| == |b|;
    forall i | 0 <= i < |a| ensures a[i] == b[i] {
      assert Ascii(a)[i] == Ascii(b)[i];
    }
  }

  /** Letters, digits, '-', '.', '_' and '~'. */
  predicate IsUnreserved(c: Byte) {
    97 <= c <= 122 || 65 <= c <= 90 || 48 <= c <= 57 || c == 45 || c == 46 || c == 95 || c == 126
  }

  /** One of "0123456789ABCDEF". */
  function HexDigit(n: Byte): Byte
    requires n < 16
  {
    if n < 10 then n + 48 else n - 10 + 65
  }

  function HexValue(c: Byte): (n: Byte)
    ensures n < 16
  {
    if 48 <= c <= 57 then c - 48 else if 65 <= c <= 70 then c - 65 + 10 else 0
  }

  function EscapeByte(c: Byte): Text {
    if IsUnreserved(c) then [c]
    else if c == SPACE then [PLUS]
    else [PERCENT, HexDigit(c / 16), HexDigit(c % 16)]
  }

  /** url.QueryEscape: percent-encoding (section 2.1 of RFC 3986) with '+' for a space. */
  function QueryEscape(s: Text): Text {
    if s == [] then [] else EscapeByte(s[0]) + QueryEscape(s[1..])
  }

  /** url.QueryUnescape on well-formed input. */
  function QueryUnescape(s: Text): Text {
    if s == [] then []
    else if s[0] == PLUS then [SPACE] + QueryUnescape(s[1..])
    else if s[0] == PERCENT && |s| >= 3 then
      [16 * HexValue(s[1]) + HexValue(s[2])] + QueryUnescape(s[3..])
    else [s[0]] + QueryUnescape(s[1..])
  }

  /** One escaped byte in front of any text. */
  lemma UnescapeOfOne(c: Byte, tail: Text)
    ensures QueryUnescape(EscapeByte(c) + tail) == [c] + QueryUnescape(tail)
  {
    var head := EscapeByte(c);
    assert (head + tail)[|head|..] == tail;
  }

  lemma {:induction false} UnescapeOfEscape(s: Text)
    ensures QueryUnescape(QueryEscape(s)) == s
  {
    if s != [] {
      UnescapeOfOne(s[0], QueryEscape(s[1..]));
      UnescapeOfEscape(s[1..]);
      assert [s[0]] + s[1..] == s;
    }
  }

  /** The bytes the keys use as punctuation. */
  predicate IsPunctuation(mark: Byte) {
    mark == COLON || mark == QUESTION || mark == AMPERSAND || mark == EQUALS || mark == COMMA
  }

  /** An escaped text holds no punctuation. */
  lemma {:induction false} EscapeHidesPunctuation(s: Text, mark: Byte)
    requires IsPunctuation(mark)
    ensures Free(QueryEscape(s), mark)
  {
    if s != [] {
      EscapeHidesPunctuation(s[1..], mark);
      assert Free(EscapeByte(s[0]), mark);
    }
  }

  // ---------------------------------------------------------------- url.Values

  /** url.Values: every name carries its values in order. */
  type Values = map<Text, seq<Text>>

  datatype Pair = Pair(name: Text, value: Text)

  function Tagged(name: Text, values: seq<Text>): seq<Pair> {
    seq(|values|, i requires 0 <= i < |values| => Pair(name, values[i]))
  }

  function PairsUnder(names: seq<Text>, params: Values): seq<Pair>
    requires forall name :: name in names ==> name in params
  {
    if names == [] then []
    else Tagged(names[0], params[names[0]]) + PairsUnder(names[1..], params)
  }

  function EncodePair(p: Pair): Text {
    QueryEscape(p.name) + [EQUALS] + QueryEscape(p.value)
  }

  function EncodePairs(pairs: seq<Pair>): seq<Text> {
    seq(|pairs|, i requires 0 <= i < |pairs| => EncodePair(pairs[i]))
  }

  predicate ByteLess(a: Byte, b: Byte) {
    a < b
  }

  predicate ByteOrder(a: Text, b: Text) {
    LexBy(ByteLess, a, b)
  }

  lemma ByteOrderIsTotal()
    ensures StrictOrder(ByteOrder) && Total(ByteOrder)
  {
    forall a: Text, b: Text ensures (ByteOrder(a, b) || a == b || ByteOrder(b, a)) && !ByteOrder(a, a) {
      LexByTotal(ByteLess, a, b);
    }
    forall a: Text, b: Text, c: Text | ByteOrder(a, b) && ByteOrder(b, c) ensures ByteOrder(a, c) {
      LexByTransitive(ByteLess, a, b, c);
    }
  }

  ghost function SortedNames(params: Values): (names: seq<Text>)
    ensures StrictlySorted(ByteOrder, names)
    ensures forall name :: name in names <==> name in params
  {
    ByteOrderIsTotal();
    Listing(ByteOrder, params.Keys)
  }

  /** url.Values.Encode: name=value for every value, the names in sorted order. */
  ghost function Encode(params: Values): Text {
    Join(EncodePairs(PairsUnder(SortedNames(params), params)), AMPERSAND)
  }

  function ValuesOf(pairs: seq<Pair>, name: Text): seq<Text> {
    if pairs == [] then []
    else (if pairs[0].name == name then [pairs[0].value] else []) + ValuesOf(pairs[1..], name)
  }

  lemma {:induction false} ValuesOfAppend(a: seq<Pair>, b: seq<Pair>, name: Text)
    ensures ValuesOf(a + b, name) == ValuesOf(a, name) + ValuesOf(b, name)
  {
    if a == [] {
      assert a + b == b;
    } else {
      assert (a + b)[1..] == a[1..] + b;
      ValuesOfAppend(a[1..], b, name);
    }
  }

  lemma {:induction false} ValuesOfTagged(owner: Text, values: seq<Text>, name: Text)
    ensures ValuesOf(Tagged(owner, values), name) == if owner == name then values else []
  {
    if values != [] {
      var pairs, rest := Tagged(owner, values), values[1..];
      assert pairs[0] == Pair(owner, values[0]) && pairs[1..] == Tagged(owner, rest);
      ValuesOfTagged(owner, rest, name);
      assert [values[0]] + rest == values;
    }
  }

  lemma {:induction false} ValuesOfPairs(names: seq<Text>, params: Values, name: Text)
    requires forall n :: n in names ==> n in params
    requires forall i, j :: 0 <= i < j < |names| ==> names[i] != names[j]
    ensures ValuesOf(PairsUnder(names, params), name) == if name in names then params[name] else []
  {
    if names != [] {
      var rest := names[1..];
      assert forall i, j :: 0 <= i < j < |rest| ==> rest[i] == names[i + 1] && rest[j] == names[j + 1];
      ValuesOfPairs(rest, params, name);
      ValuesOfTagged(names[0], params[names[0]], name);
      ValuesOfAppend(Tagged(names[0], params[names[0]]), PairsUnder(rest, params), name);
      assert name in names <==> name == names[0] || name in rest;
      assert names[0] !in rest;
    }
  }

  lemma PairIsDetermined(p: Pair, q: Pair)
    requires EncodePair(p) == EncodePair(q)
    ensures p == q
  {
    forall s: Text ensures Free(QueryEscape(s), EQUALS) { EscapeHidesPunctuation(s, EQUALS); }
    SplitAppend(QueryEscape(p.name), EQUALS, QueryEscape(p.value));
    SplitAppend(QueryEscape(q.name), EQUALS, QueryEscape(q.value));
    SplitOfFree(QueryEscape(p.name), EQUALS);
    SplitOfFree(QueryEscape(p.value), EQUALS);
    SplitOfFree(QueryEscape(q.name), EQUALS);
    SplitOfFree(QueryEscape(q.value), EQUALS);
    var parts := Split(EncodePair(p), EQUALS);
    assert parts == [QueryEscape(p.name), QueryEscape(p.value)];
    assert parts == [QueryEscape(q.name), QueryEscape(q.value)];
    assert QueryEscape(p.name) == parts[0] == QueryEscape(q.name);
    assert QueryEscape(p.value) == parts[1] == QueryEscape(q.value);
    UnescapeOfEscape(p.name);
    UnescapeOfEscape(q.name);
    UnescapeOfEscape(p.value);
    UnescapeOfEscape(q.value);
  }

  lemma EncodedPairShape(p: Pair, mark: Byte)
    requires mark == COLON || mark == QUESTION || mark == AMPERSAND
    ensures Free(EncodePair(p), mark) && EncodePair(p) != []
  {
    EscapeHidesPunctuation(p.name, mark);
    EscapeHidesPunctuation(p.value, mark);
  }

  /** The encoded list of pairs gives the pairs back. */
  lemma PairsAreDetermined(ps: seq<Pair>, qs: seq<Pair>)
    requires Join(EncodePairs(ps), AMPERSAND) == Join(EncodePairs(qs), AMPERSAND)
    ensures ps == qs
  {
    forall p: Pair ensures Free(EncodePair(p), AMPERSAND) && EncodePair(p) != [] { EncodedPairShape(p, AMPERSAND); }
    forall rs: seq<Pair> | rs != []
      ensures Split(Join(EncodePairs(rs), AMPERSAND), AMPERSAND) == EncodePairs(rs)
      ensures Join(EncodePairs(rs), AMPERSAND) != []
    {
      SplitOfJoin(EncodePairs(rs), AMPERSAND);
      assert EncodePairs(rs)[0] == EncodePair(rs[0]);
      assert Split([], AMPERSAND) == [[]];
    }
    assert ps == [] <==> qs == [];
    if ps != [] {
      assert EncodePairs(ps) == EncodePairs(qs);
      assert |ps| == |EncodePairs(ps)| == |EncodePairs(qs)| == |qs|;
      forall i | 0 <= i < |ps| ensures ps[i] == qs[i] {
        assert EncodePairs(ps)[i] == EncodePair(ps[i]) && EncodePairs(qs)[i] == EncodePair(qs[i]);
        PairIsDetermined(ps[i], qs[i]);
      }
    }
  }

  predicate NoEmptyName(params: Values) {
    forall name :: name in params ==> params[name] != []
  }

  lemma ValuesOfEncoded(p: Values, name: Text)
    ensures ValuesOf(PairsUnder(SortedNames(p), p), name) == if name in p then p[name] else []
  {
    ByteOrderIsTotal();
    ValuesOfPairs(SortedNames(p), p, name);
  }

  lemma EncodeIsInjective(p: Values, q: Values)
    requires NoEmptyName(p) && NoEmptyName(q)
    requires Encode(p) == Encode(q)
    ensures p == q
  {
    PairsAreDetermined(PairsUnder(SortedNames(p), p), PairsUnder(SortedNames(q), q));
    forall name: Text ensures (name in p <==> name in q) && (name in p ==> p[name] == q[name]) {
      ValuesOfEncoded(p, name);
      ValuesOfEncoded(q, name);
    }
  }

  lemma EncodeHidesPunctuation(params: Values, mark: Byte)
    requires mark == COLON || mark == QUESTION
    ensures Free(Encode(params), mark)
  {
    var texts := EncodePairs(PairsUnder(SortedNames(params), params));
    forall t | t in texts ensures Free(t, mark) {
      var i :| 0 <= i < |texts| && texts[i] == t;
      EncodedPairShape(PairsUnder(SortedNames(params), params)[i], mark);
    }
    FreeJoin(texts, AMPERSAND, mark);
  }

  // ------------------------------------------------------------------ requests

  /** A shared tool call, with every argument that reaches its execution. */
  datatype Request =
    | RbacScan(namespace: Text)
    | NetworkScan(namespace: Text)
    | FrameworkScan(namespace: Text, framework: Text)
    | ControlScan(namespace: Text, controlIds: seq<Text>)
    | LocalIac(path: Text, framework: Text)
    | LocalIacControls(path: Text, controlIds: seq<Text>)
    | Remediation(path: Text, reportPath: Text, basePath: Text, controlIds: seq<Text>)
    | WorkloadScan(workload: Text, namespace: Text, path: Text, framework: Text)
    | Analysis(tool: Text, params: Values)
  {
    /** What CallTool has established when it builds the key: parseControlIDs
        refuses an empty list, and every analysis argument has a value. */
    predicate Accepted() {
      && (ControlScan? || LocalIacControls? || Remediation? ==> controlIds != [])
      && (Analysis? ==> NoEmptyName(params))
    }

    /** No control ID carries the comma that the key joins them with. */
    predicate CommaFree() {
      ControlScan? || LocalIacControls? || Remediation? ==> forall id :: id in controlIds ==> Free(id, COMMA)
    }

    /** Analyses do not take a scan slot; every other shared call does. */
    predicate Limited() {
      !Analysis?
    }
  }

  function JoinIds(ids: seq<Text>): Text {
    Join(ids, COMMA)
  }

  predicate TakesNamespace(r: Request) {
    r.RbacScan? || r.NetworkScan? || r.FrameworkScan? || r.ControlScan?
  }

  /** The constant the keys of a namespace scan start with. */
  function NamespaceTag(r: Request): (tag: string)
    requires TakesNamespace(r)
    ensures IsAscii(tag) && ':' !in tag
  {
    match r
    case RbacScan(_) => "rbac_scan"
    case NetworkScan(_) => "network_scan"
    case FrameworkScan(_, _) => "framework_scan"
    case ControlScan(_, _) => "control_scan"
  }

  /** The constant a tool's keys start with. */
  function TagName(r: Request): (tag: string)
    ensures IsAscii(tag) && ':' !in tag
  {
    if TakesNamespace(r) then NamespaceTag(r)
    else match r
         case LocalIac(_, _) => "scan_local_iac"
         case LocalIacControls(_, _) => "scan_local_iac_controls"
         case Remediation(_, _, _, _) => "apply_remediation"
         case WorkloadScan(_, _, _, _) => "workload_scan"
         case Analysis(_, _) => "analysis"
  }

  function Tag(r: Request): Text {
    Ascii(TagName(r))
  }

  function Colon(left: Text, right: Text): Text {
    left + [COLON] + right
  }

  function ColonEscaped(left: Text, right: Text): Text {
    Colon(left, QueryEscape(right))
  }

  /** The key CallTool, remediationKey or analysisKey builds. */
  ghost function KeyOf(r: Request): Text {
    match r
    case RbacScan(ns) => Colon(Tag(r), ns)
    case NetworkScan(ns) => Colon(Tag(r), ns)
    case FrameworkScan(ns, fw) => ColonEscaped(Colon(Tag(r), ns), fw)
    case ControlScan(ns, ids) => ColonEscaped(Colon(Tag(r), ns), JoinIds(ids))
    case LocalIac(path, fw) => ColonEscaped(ColonEscaped(Tag(r), path), fw)
    case LocalIacControls(path, ids) => ColonEscaped(ColonEscaped(Tag(r), path), JoinIds(ids))
    case Remediation(path, report, base, ids) =>
      ColonEscaped(ColonEscaped(ColonEscaped(ColonEscaped(Tag(r), path), report), base), JoinIds(ids))
    case WorkloadScan(workload, ns, path, fw) =>
      ColonEscaped(ColonEscaped(ColonEscaped(ColonEscaped(Tag(r), workload), ns), path), fw)
    case Analysis(tool, params) => Colon(Tag(r), AnalysisBody(tool, params))
  }

  ghost function AnalysisBody(tool: Text, params: Values): Text {
    QueryEscape(tool) + [QUESTION] + Encode(params)
  }

  /** The request with its control IDs cut again at every comma. */
  function Canonical(r: Request): Request {
    match r
    case ControlScan(ns, ids) => ControlScan(ns, Split(JoinIds(ids), COMMA))
    case LocalIacControls(path, ids) => LocalIacControls(path, Split(JoinIds(ids), COMMA))
    case Remediation(path, report, base, ids) => Remediation(path, report, base, Split(JoinIds(ids), COMMA))
    case _ => r
  }

  /** The key cut at its colons. The namespaces of four tools are not escaped,
      so they may contribute several pieces. */
  ghost function Pieces(r: Request): seq<Text> {
    [Tag(r)] +
    match r
    case RbacScan(ns) => Split(ns, COLON)
    case NetworkScan(ns) => Split(ns, COLON)
    case FrameworkScan(ns, fw) => Split(ns, COLON) + [QueryEscape(fw)]
    case ControlScan(ns, ids) => Split(ns, COLON) + [QueryEscape(JoinIds(ids))]
    case LocalIac(path, fw) => [QueryEscape(path), QueryEscape(fw)]
    case LocalIacControls(path, ids) => [QueryEscape(path), QueryEscape(JoinIds(ids))]
    case Remediation(path, report, base, ids) =>
      [QueryEscape(path), QueryEscape(report), QueryEscape(base), QueryEscape(JoinIds(ids))]
    case WorkloadScan(workload, ns, path, fw) =>
      [QueryEscape(workload), QueryEscape(ns), QueryEscape(path), QueryEscape(fw)]
    case Analysis(tool, params) => [AnalysisBody(tool, params)]
  }

  lemma TagIsOnePiece(r: Request)
    ensures Split(Tag(r), COLON) == [Tag(r)]
  {
    assert Free(Tag(r), COLON);
    SplitOfFree(Tag(r), COLON);
  }

  lemma CutEscaped(left: Text, right: Text)
    ensures Split(ColonEscaped(left, right), COLON) == Split(left, COLON) + [QueryEscape(right)]
  {
    EscapeHidesPunctuation(right, COLON);
    SplitOfFree(QueryEscape(right), COLON);
    SplitAppend(left, COLON, QueryEscape(right));
  }

  lemma CutFourEscaped(tag: Text, a: Text, b: Text, c: Text, d: Text)
    requires Split(tag, COLON) == [tag]
    ensures Split(ColonEscaped(ColonEscaped(ColonEscaped(ColonEscaped(tag, a), b), c), d), COLON)
         == [tag] + [QueryEscape(a), QueryEscape(b), QueryEscape(c), QueryEscape(d)]
  {
    var one := ColonEscaped(tag, a);
    var two := ColonEscaped(one, b);
    var three := ColonEscaped(two, c);
    CutEscaped(tag, a);
    CutEscaped(one, b);
    CutEscaped(two, c);
    CutEscaped(three, d);
  }

  lemma NamespaceKeyCut(r: Request)
    requires TakesNamespace(r)
    ensures Split(KeyOf(r), COLON) == Pieces(r)
  {
    TagIsOnePiece(r);
    SplitAppend(Tag(r), COLON, r.namespace);
    if r.FrameworkScan? {
      CutEscaped(Colon(Tag(r), r.namespace), r.framework);
    } else if r.ControlScan? {
      CutEscaped(Colon(Tag(r), r.namespace), JoinIds(r.controlIds));
    }
  }

  lemma PathKeyCut(r: Request)
    requires r.LocalIac? || r.LocalIacControls?
    ensures Split(KeyOf(r), COLON) == Pieces(r)
  {
    TagIsOnePiece(r);
    CutEscaped(Tag(r), r.path);
    CutEscaped(ColonEscaped(Tag(r), r.path), if r.LocalIac? then r.framework else JoinIds(r.controlIds));
  }

  lemma EscapedKeyCut(r: Request)
    requires r.Remediation? || r.WorkloadScan?
    ensures Split(KeyOf(r), COLON) == Pieces(r)
  {
    TagIsOnePiece(r);
    if r.Remediation? {
      CutFourEscaped(Tag(r), r.path, r.reportPath, r.basePath, JoinIds(r.controlIds));
    } else {
      CutFourEscaped(Tag(r), r.workload, r.namespace, r.path, r.framework);
    }
  }

  lemma AnalysisKeyCut(r: Request)
    requires r.Analysis?
    ensures Split(KeyOf(r), COLON) == Pieces(r)
  {
    TagIsOnePiece(r);
    var body := AnalysisBody(r.tool, r.params);
    EscapeHidesPunctuation(r.tool, COLON);
    EncodeHidesPunctuation(r.params, COLON);
    SplitOfFree(body, COLON);
    SplitAppend(Tag(r), COLON, body);
  }

  lemma KeyCutAtColons(r: Request)
    ensures Split(KeyOf(r), COLON) == Pieces(r)
  {
    if r.LocalIac? || r.LocalIacControls? { PathKeyCut(r); }
    else if r.Remediation? || r.WorkloadScan? { EscapedKeyCut(r); }
    else if r.Analysis? { AnalysisKeyCut(r); }
    else { NamespaceKeyCut(r); }
  }

  lemma EscapeIsInjective(a: Text, b: Text)
    requires QueryEscape(a) == QueryEscape(b)
    ensures a == b
  {
    UnescapeOfEscape(a);
    UnescapeOfEscape(b);
  }

  lemma AnalysisBodyCut(tool: Text, params: Values)
    ensures Split(AnalysisBody(tool, params), QUESTION) == [QueryEscape(tool), Encode(params)]
  {
    EscapeHidesPunctuation(tool, QUESTION);
    EncodeHidesPunctuation(params, QUESTION);
    SplitOfFree(QueryEscape(tool), QUESTION);
    SplitOfFree(Encode(params), QUESTION);
    SplitAppend(QueryEscape(tool), QUESTION, Encode(params));
  }

  lemma AnalysisBodyIsInjective(tool: Text, params: Values, tool': Text, params': Values)
    requires NoEmptyName(params) && NoEmptyName(params')
    requires AnalysisBody(tool, params) == AnalysisBody(tool', params')
    ensures tool == tool' && params == params'
  {
    AnalysisBodyCut(tool, params);
    AnalysisBodyCut(tool', params');
    var parts := Split(AnalysisBody(tool, params), QUESTION);
    assert QueryEscape(tool) == parts[0] == QueryEscape(tool');
    assert Encode(params) == parts[1] == Encode(params');
    EscapeIsInjective(tool, tool');
    EncodeIsInjective(params, params');
  }

  lemma SameTagSameTool(r: Request, r': Request)
    requires Tag(r) == Tag(r')
    ensures TagName(r) == TagName(r')
  {
    AsciiIsInjective(TagName(r), TagName(r'));
  }

  lemma SplitIsInjective(a: Text, b: Text, sep: Byte)
    requires Split(a, sep) == Split(b, sep)
    ensures a == b
  {
    JoinOfSplit(a, sep);
    JoinOfSplit(b, sep);
  }

  /** Everything after the tag determines the request, up to how the control
      IDs were cut. */
  lemma PiecesDetermineRequest(r: Request, r': Request)
    requires r.Accepted() && r'.Accepted()
    requires Pieces(r) == Pieces(r')
    ensures Canonical(r) == Canonical(r')
  {
    var p, q := Pieces(r), Pieces(r');
    assert p[0] == Tag(r) && q[0] == Tag(r');
    SameTagSameTool(r, r');
    var ps, qs := p[1..], q[1..];
    match r
    case RbacScan(ns) =>
      assert ps == Split(ns, COLON) && qs == Split(r'.namespace, COLON);
      SplitIsInjective(ns, r'.namespace, COLON);
    case NetworkScan(ns) =>
      assert ps == Split(ns, COLON) && qs == Split(r'.namespace, COLON);
      SplitIsInjective(ns, r'.namespace, COLON);
    case FrameworkScan(ns, fw) =>
      assert ps[..|ps| - 1] == Split(ns, COLON) && qs[..|qs| - 1] == Split(r'.namespace, COLON);
      SplitIsInjective(ns, r'.namespace, COLON);
      assert ps[|ps| - 1] == QueryEscape(fw) && qs[|qs| - 1] == QueryEscape(r'.framework);
      EscapeIsInjective(fw, r'.framework);
    case ControlScan(ns, ids) =>
      assert ps[..|ps| - 1] == Split(ns, COLON) && qs[..|qs| - 1] == Split(r'.namespace, COLON);
      SplitIsInjective(ns, r'.namespace, COLON);
      assert ps[|ps| - 1] == QueryEscape(JoinIds(ids)) && qs[|qs| - 1] == QueryEscape(JoinIds(r'.controlIds));
      EscapeIsInjective(JoinIds(ids), JoinIds(r'.controlIds));
    case LocalIac(path, fw) =>
      assert ps == [QueryEscape(path), QueryEscape(fw)];
      EscapeIsInjective(path, r'.path);
      EscapeIsInjective(fw, r'.framework);
    case LocalIacControls(path, ids) =>
      assert ps == [QueryEscape(path), QueryEscape(JoinIds(ids))];
      EscapeIsInjective(path, r'.path);
      EscapeIsInjective(JoinIds(ids), JoinIds(r'.controlIds));
    case Remediation(path, report, base, ids) =>
      assert ps == [QueryEscape(path), QueryEscape(report), QueryEscape(base), QueryEscape(JoinIds(ids))];
      EscapeIsInjective(path, r'.path);
      EscapeIsInjective(report, r'.reportPath);
      EscapeIsInjective(base, r'.basePath);
      EscapeIsInjective(JoinIds(ids), JoinIds(r'.controlIds));
    case WorkloadScan(workload, ns, path, fw) =>
      assert ps == [QueryEscape(workload), QueryEscape(ns), QueryEscape(path), QueryEscape(fw)];
      EscapeIsInjective(workload, r'.workload);
      EscapeIsInjective(ns, r'.namespace);
      EscapeIsInjective(path, r'.path);
      EscapeIsInjective(fw, r'.framework);
    case Analysis(tool, params) =>
      assert ps == [AnalysisBody(tool, params)];
      AnalysisBodyIsInjective(tool, params, r'.tool, r'.params);
  }

  /** Two accepted calls share a key exactly when they are the same call once
      their control IDs are cut at every comma. */
  lemma KeysAreExact(r: Request, r': Request)
    requires r.Accepted() && r'.Accepted()
    ensures KeyOf(r) == KeyOf(r') <==> Canonical(r) == Canonical(r')
  {
    if KeyOf(r) == KeyOf(r') {
      KeyCutAtColons(r);
      KeyCutAtColons(r');
      PiecesDetermineRequest(r, r');
    }
    if Canonical(r) == Canonical(r') {
      KeyOfCanonical(r);
      KeyOfCanonical(r');
    }
  }

  lemma KeyOfCanonical(r: Request)
    ensures KeyOf(Canonical(r)) == KeyOf(r)
  {
    if r.ControlScan? || r.LocalIacControls? || r.Remediation? {
      JoinOfSplit(JoinIds(r.controlIds), COMMA);
    }
  }

  lemma CommaFreeIsCanonical(r: Request)
    requires r.Accepted() && r.CommaFree()
    ensures Canonical(r) == r
  {
    if r.ControlScan? || r.LocalIacControls? || r.Remediation? {
      SplitOfJoin(r.controlIds, COMMA);
    }
  }

  /** With comma-free control IDs the key determines the call outright. */
  lemma SameKeySameRequest(r: Request, r': Request)
    requires r.Accepted() && r'.Accepted() && r.CommaFree() && r'.CommaFree()
    ensures KeyOf(r) == KeyOf(r') <==> r == r'
  {
    KeysAreExact(r, r');
    CommaFreeIsCanonical(r);
    CommaFreeIsCanonical(r');
  }

  /** A control ID with a comma, which the array form of control_ids lets
      through, shares the key of the two IDs it looks like. */
  lemma CommaMergesControlIds(a: Text, b: Text, ns: Text)
    ensures var joined, apart := ControlScan(ns, [a + [COMMA] + b]), ControlScan(ns, [a, b]);
            joined.Accepted() && apart.Accepted() && joined != apart && KeyOf(joined) == KeyOf(apart)
  {
    assert JoinIds([a, b]) == a + [COMMA] + JoinIds([b]);
    assert |[a + [COMMA] + b]| != |[a, b]|;
  }
}
