/** The CoRE link format (section 2 of RFC 6690): records printed to a string and parsed from it. */
module CoreLinks {
  import opened Bytes
  import opened Text

  type uint32 = n: int | 0 <= n < 0x1_0000_0000

  datatype Value = Number(n: uint32) | Str(s: string)
  datatype Parameter = Parameter(name: string, value: Value)
  datatype Record = Record(path: string, parameters: seq<Parameter>)

  // ---------------------------------------------------------------- printing

  function PrintValue(v: Value): string {
    match v
    case Number(n) => Digits(n)
    case Str(s) => ['"'] + s + ['"']
  }

  function PrintParameter(p: Parameter): string { [';'] + p.name + ['='] + PrintValue(p.value) }

  function PrintParameters(ps: seq<Parameter>): string {
    if ps == [] then [] else PrintParameter(ps[0]) + PrintParameters(ps[1..])
  }

  function PrintRecord(r: Record): string {
    ['<', '/'] + r.path + ['>'] + PrintParameters(r.parameters)
  }

  function PrintRecords(rs: seq<Record>): string {
    if rs == [] then []
    else if |rs| == 1 then PrintRecord(rs[0])
    else PrintRecord(rs[0]) + [','] + PrintRecords(rs[1..])
  }

  // ----------------------------------------------------------------- parsing

  /** The text behind the first `c`, if there is one. */
  function Behind(s: string, c: char): (r: Option<string>)
    ensures r.Some? ==> |r.value| < |s|
  {
    if Span(s, c) < |s| then Some(s[Span(s, c) + 1..]) else None
  }

  /** `atoi`, assigned to an unsigned number. */
  function Atoi(s: string, longMax: nat): uint32 { Strtol(s, longMax) % 0x1_0000_0000 }

  /** A quoted string: the search for the closing quote skips the first character. */
  function ReadString(body: string): string {
    if body == [] then [] else [body[0]] + body[1..][..Span(body[1..], '"')]
  }

  function ReadValue(v: string, longMax: nat): Value {
    if v != [] && v[0] == '"' then Str(ReadString(v[1..]))
    else Number(Atoi(v[..Span(v, ';')], longMax))
  }

  /** The parameters from `rest` on; each search starts behind the previous semicolon, not behind the value. */
  function ReadParameters(rest: string, longMax: nat): Option<seq<Parameter>>
    decreases |rest|
  {
    match Behind(rest, ';')
    case None => Some([])
    case Some(after) =>
      match Behind(after, '=')
      case None => None
      case Some(v) =>
        match ReadParameters(after, longMax)
        case None => None
        case Some(ps) => Some([Parameter(after[..Span(after, '=')], ReadValue(v, longMax))] + ps)
  }

  /** The position of the first "</". */
  function FindUri(s: string): (n: nat)
    ensures n < |s| ==> n + 1 < |s| && s[n] == '<' && s[n + 1] == '/'
  {
    if |s| < 2 then |s|
    else if s[0] == '<' && s[1] == '/' then 0
    else if FindUri(s[1..]) < |s| - 1 then 1 + FindUri(s[1..])
    else |s|
  }

  /** Where the path ends: a bracket before the "</" counts, and then the path goes on to the end of the line. */
  function ReadPath(line: string, open: nat, closing: nat): string
    requires open < closing < |line|
  {
    var uri := FindUri(line);
    if uri < |line| then
      if uri + 2 <= closing then line[uri + 2..closing] else line[uri + 2..]
    else line[open + 1..closing]
  }

  function ReadRecord(line: string, longMax: nat): Option<Record> {
    var open := Span(line, '<');
    if open == |line| then None
    else
      var closing := open + 1 + Span(line[open + 1..], '>');
      if closing == |line| then None
      else
        match ReadParameters(line[closing + 1..], longMax)
        case None => None
        case Some(ps) => Some(Record(ReadPath(line, open, closing), ps))
  }

  /** The records up to the first line that is refused, and whether none was. */
  datatype Parsed = Parsed(records: seq<Record>, ok: bool)

  function ReadRecords(lines: seq<string>, longMax: nat): Parsed {
    if lines == [] then Parsed([], true)
    else
      match ReadRecord(lines[0], longMax)
      case None => Parsed([], false)
      case Some(r) =>
        var rest := ReadRecords(lines[1..], longMax);
        Parsed([r] + rest.records, rest.ok)
  }

  /** What a fresh object holds after parsing `text`. */
  function ReadCoreLink(text: string, longMax: nat): Parsed {
    ReadRecords(Tokens(CStr(text), ','), longMax)
  }

  // ----------------------------------------------- what survives the round trip

  predicate ValueSurvives(v: Value, longMax: nat) {
    match v
    case Number(n) => n <= longMax
    case Str(s) => s != [] && ';' !in s && '"' !in s[1..]
  }

  predicate ParameterSurvives(p: Parameter, longMax: nat) {
    '=' !in p.name && ';' !in p.name && ValueSurvives(p.value, longMax)
  }

  ghost predicate RecordSurvives(r: Record, longMax: nat) {
    '>' !in r.path && forall p :: p in r.parameters ==> ParameterSurvives(p, longMax)
  }

  /** `c` occurs in no path, name or string. */
  ghost predicate Free(r: Record, c: char) {
    c !in r.path && forall p :: p in r.parameters ==> FreeParameter(p, c)
  }

  predicate FreeParameter(p: Parameter, c: char) {
    c !in p.name && (p.value.Str? ==> c !in p.value.s)
  }

  ghost predicate Survives(r: Record, longMax: nat) {
    Free(r, ',') && Free(r, NUL) && RecordSurvives(r, longMax)
  }

  // ----------------------------------------------------------- one value

  lemma ValueComesBack(v: Value, tail: string, longMax: nat)
    requires tail == [] || tail[0] == ';'
    requires v.Str? ==> ';' !in v.s
    ensures ReadValue(PrintValue(v) + tail, longMax) == v <==> ValueSurvives(v, longMax)
  {
    match v
    case Number(n) =>
      DigitsAreDigits(n);
      assert Digits(n)[0] in Digits(n);
      assert ';' !in Digits(n);
      SpanOfConcatenation(Digits(n), tail, ';');
      assert (Digits(n) + tail)[..|Digits(n)|] == Digits(n);
      StrtolPrinted(n, longMax);
    case Str(s) =>
      var body := s + ['"'] + tail;
      assert (PrintValue(v) + tail)[1..] == body;
      StringComesBack(s, tail);
  }

  lemma StringComesBack(s: string, tail: string)
    ensures ReadString(s + ['"'] + tail) == s <==> s != [] && '"' !in s[1..]
  {
    var body := s + ['"'] + tail;
    if s != [] {
      var t := s[1..];
      assert body[1..] == t + (['"'] + tail);
      if '"' !in t {
        SpanOfConcatenation(t, ['"'] + tail, '"');
        assert body[1..][..|t|] == t;
      } else {
        var i :| 0 <= i < |t| && t[i] == '"';
        assert body[1..][i] == '"';
        SpanAtMost(body[1..], '"', i);
      }
    }
  }

  // ------------------------------------------------------------ parameters

  /** Text without a semicolon in front of a parameter list does not matter. */
  lemma SkipsTo(x: string, tail: string, longMax: nat)
    requires ';' !in x && (tail == [] || tail[0] == ';')
    ensures ReadParameters(x + tail, longMax) == ReadParameters(tail, longMax)
  {
    BehindSkips(x, tail);
    ReadsFrom(x + tail, longMax);
    ReadsFrom(tail, longMax);
  }

  lemma BehindSkips(x: string, tail: string)
    requires ';' !in x && (tail == [] || tail[0] == ';')
    ensures Behind(x + tail, ';') == Behind(tail, ';')
  {
    SpanOfConcatenation(x, tail, ';');
    if tail != [] {
      assert (x + tail)[|x| + 1..] == tail[1..];
    }
  }

  /** One turn of the parameter loop. */
  lemma ReadsFrom(rest: string, longMax: nat)
    ensures ReadParameters(rest, longMax) ==
              match Behind(rest, ';')
              case None => Some([])
              case Some(after) => ReadFirst(after, longMax)
  {
  }

  function ReadFirst(after: string, longMax: nat): Option<seq<Parameter>> {
    match Behind(after, '=')
    case None => None
    case Some(v) =>
      match ReadParameters(after, longMax)
      case None => None
      case Some(ps) => Some([Parameter(after[..Span(after, '=')], ReadValue(v, longMax))] + ps)
  }

  lemma NoSemicolon(v: Value)
    requires v.Str? ==> ';' !in v.s
    ensures ';' !in PrintValue(v)
  {
    if v.Number? {
      DigitsAreDigits(v.n);
    }
  }

  lemma StartsWithSemicolon(ps: seq<Parameter>)
    ensures PrintParameters(ps) == [] || PrintParameters(ps)[0] == ';'
  {
  }

  /** What is read for a name and its value. */
  lemma NameComesBack(name: string, v: string)
    ensures var after := name + ['='] + v;
            && Behind(after, '=').Some?
            && (after[..Span(after, '=')] == name <==> '=' !in name)
            && ('=' !in name ==> Behind(after, '=') == Some(v))
  {
    var after := name + ['='] + v;
    assert after == name + (['='] + v);
    if '=' !in name {
      SpanOfConcatenation(name, ['='] + v, '=');
      assert after[..|name|] == name && after[|name| + 1..] == v;
    } else {
      var i :| 0 <= i < |name| && name[i] == '=';
      assert after[i] == '=';
      SpanAtMost(after, '=', i);
    }
  }

  /** Reading the first of some printed parameters. */
  lemma FirstParameter(p: Parameter, tail: string, longMax: nat)
    requires FreeParameter(p, ';') && (tail == [] || tail[0] == ';')
    ensures var r, rest := ReadParameters(PrintParameter(p) + tail, longMax), ReadParameters(tail, longMax);
            if rest.None? then r.None?
            else r.Some? && |r.value| == 1 + |rest.value| && r.value[1..] == rest.value
                 && (r.value[0] == p <==> ParameterSurvives(p, longMax))
  {
    hide PrintValue, ReadValue, ValueSurvives, ReadParameters;
    var v := PrintValue(p.value);
    var after := p.name + ['='] + (v + tail);
    PrintedParts(p, tail);
    ReadsFrom(PrintParameter(p) + tail, longMax);
    NoSemicolon(p.value);
    assert after == (p.name + ['='] + v) + tail;
    SkipsTo(p.name + ['='] + v, tail, longMax);
    NameComesBack(p.name, v + tail);
    ValueComesBack(p.value, tail, longMax);
  }

  lemma PrintedParts(p: Parameter, tail: string)
    ensures Behind(PrintParameter(p) + tail, ';') == Some(p.name + ['='] + (PrintValue(p.value) + tail))
  {
    hide PrintValue;
    var text := PrintParameter(p) + tail;
    assert text[0] == ';';
    assert text[1..] == p.name + ['='] + (PrintValue(p.value) + tail);
  }

  ghost predicate AllFree(ps: seq<Parameter>, c: char) { forall p :: p in ps ==> FreeParameter(p, c) }

  lemma {:induction false} ParametersComeBack(ps: seq<Parameter>, longMax: nat)
    requires AllFree(ps, ';')
    ensures ReadParameters(PrintParameters(ps), longMax).Some?
    ensures ReadParameters(PrintParameters(ps), longMax) == Some(ps)
            <==> forall p :: p in ps ==> ParameterSurvives(p, longMax)
  {
    hide ReadParameters, ParameterSurvives, FreeParameter, PrintParameter;
    if ps == [] {
      ReadsNoParameters(longMax);
    } else {
      var p, rest := ps[0], ps[1..];
      assert ps == [p] + rest && p in ps;
      ParametersComeBack(rest, longMax);
      StartsWithSemicolon(rest);
      FirstParameter(p, PrintParameters(rest), longMax);
      var r := ReadParameters(PrintParameters(ps), longMax).value;
      assert r == ps <==> r[0] == p && r[1..] == rest by {
        assert r == [r[0]] + r[1..];
      }
    }
  }

  lemma ReadsNoParameters(longMax: nat)
    ensures ReadParameters(PrintParameters([]), longMax) == Some([])
  {
  }

  /** How many semicolons a text has. */
  function Semicolons(s: string): nat {
    if s == [] then 0 else (if s[0] == ';' then 1 else 0) + Semicolons(s[1..])
  }

  lemma {:induction false} SemicolonsAdd(a: string, b: string)
    ensures Semicolons(a + b) == Semicolons(a) + Semicolons(b)
  {
    if a == [] {
      assert a + b == b;
    } else {
      SemicolonsAdd(a[1..], b);
      assert (a + b)[1..] == a[1..] + b;
    }
  }

  lemma {:induction false} SemicolonsNone(s: string)
    ensures Semicolons(s) == 0 <==> ';' !in s
  {
    if s != [] {
      SemicolonsNone(s[1..]);
      assert s == [s[0]] + s[1..];
    }
  }

  /** The parser finds a parameter behind every semicolon. */
  lemma {:induction false} ReadCount(rest: string, longMax: nat)
    requires ReadParameters(rest, longMax).Some?
    ensures |ReadParameters(rest, longMax).value| == Semicolons(rest)
    decreases |rest|
  {
    var n := Span(rest, ';');
    SpanStops(rest, ';');
    SemicolonsNone(rest[..n]);
    assert rest == rest[..n] + rest[n..];
    SemicolonsAdd(rest[..n], rest[n..]);
    if n < |rest| {
      assert rest[n..][1..] == rest[n + 1..];
      ReadCount(rest[n + 1..], longMax);
    }
  }

  lemma ParameterSemicolons(p: Parameter)
    ensures Semicolons(PrintParameter(p)) >= 1
    ensures Semicolons(PrintParameter(p)) == 1 ==> FreeParameter(p, ';')
  {
    var v := PrintValue(p.value);
    assert PrintParameter(p) == ([';'] + p.name) + (['='] + v);
    SemicolonsAdd([';'] + p.name, ['='] + v);
    SemicolonsAdd([';'], p.name);
    SemicolonsAdd(['='], v);
    SemicolonsNone(p.name);
    SemicolonsNone(v);
    assert Semicolons([';']) == 1 by { assert [';'][1..] == []; }
    if p.value.Str? && ';' in p.value.s {
      var i :| 0 <= i < |p.value.s| && p.value.s[i] == ';';
      assert v[i + 1] == ';';
    }
  }

  lemma {:induction false} ParametersSemicolons(ps: seq<Parameter>)
    ensures Semicolons(PrintParameters(ps)) >= |ps|
    ensures Semicolons(PrintParameters(ps)) == |ps| ==> AllFree(ps, ';')
  {
    if ps != [] {
      ParameterSemicolons(ps[0]);
      ParametersSemicolons(ps[1..]);
      SemicolonsAdd(PrintParameter(ps[0]), PrintParameters(ps[1..]));
      assert ps == [ps[0]] + ps[1..];
    }
  }

  /** Printed parameters are read back as themselves exactly if each survives. */
  lemma ParametersRoundTrip(ps: seq<Parameter>, longMax: nat)
    ensures ReadParameters(PrintParameters(ps), longMax) == Some(ps)
            <==> forall p :: p in ps ==> ParameterSurvives(p, longMax)
  {
    if AllFree(ps, ';') {
      ParametersComeBack(ps, longMax);
    } else {
      ParametersSemicolons(ps);
      if ReadParameters(PrintParameters(ps), longMax) == Some(ps) {
        ReadCount(PrintParameters(ps), longMax);
      }
      var p :| p in ps && !FreeParameter(p, ';');
      assert !ParameterSurvives(p, longMax);
    }
  }

  // --------------------------------------------------------------- records

  lemma RecordRoundTrip(r: Record, longMax: nat)
    ensures ReadRecord(PrintRecord(r), longMax) == Some(r) <==> RecordSurvives(r, longMax)
  {
    hide PrintParameters, ReadParameters, FindUri, ParameterSurvives;
    var line, ps := PrintRecord(r), PrintParameters(r.parameters);
    OpensWithUri(line);
    var behind := ['/'] + r.path + ['>'] + ps;
    assert line[1..] == behind;
    if '>' !in r.path {
      assert behind == (['/'] + r.path) + (['>'] + ps);
      SpanOfConcatenation(['/'] + r.path, ['>'] + ps, '>');
      var closing := 2 + |r.path|;
      assert line[2..closing] == r.path && line[closing + 1..] == ps;
      ParametersRoundTrip(r.parameters, longMax);
    } else {
      var i :| 0 <= i < |r.path| && r.path[i] == '>';
      assert behind[i + 1] == '>';
      SpanAtMost(behind, '>', i + 1);
    }
  }

  lemma OpensWithUri(line: string)
    requires |line| >= 2 && line[0] == '<' && line[1] == '/'
    ensures Span(line, '<') == 0 && FindUri(line) == 0
  {
  }

  // ----------------------------------------------------------------- lists

  function Lines(rs: seq<Record>): seq<string> {
    if rs == [] then [] else [PrintRecord(rs[0])] + Lines(rs[1..])
  }

  lemma {:induction false} LinesComeBack(rs: seq<Record>, longMax: nat)
    ensures ReadRecords(Lines(rs), longMax) == Parsed(rs, true) <==> forall r :: r in rs ==> RecordSurvives(r, longMax)
  {
    hide RecordSurvives, ReadRecord, PrintRecord;
    if rs != [] {
      var rest := rs[1..];
      RecordRoundTrip(rs[0], longMax);
      LinesComeBack(rest, longMax);
      assert Lines(rs)[1..] == Lines(rest);
      assert rs == [rs[0]] + rest;
    }
  }

  /** Characters that the format itself does not use. */
  predicate Foreign(c: char) { c == ',' || c == NUL }

  lemma PrintedValueFree(v: Value, c: char)
    requires Foreign(c)
    ensures c !in PrintValue(v) <==> (v.Str? ==> c !in v.s)
  {
    if v.Number? {
      DigitsAreDigits(v.n);
    }
  }

  lemma {:induction false} PrintedParametersFree(ps: seq<Parameter>, c: char)
    requires Foreign(c)
    ensures c !in PrintParameters(ps) <==> AllFree(ps, c)
  {
    hide PrintValue;
    if ps != [] {
      PrintedValueFree(ps[0].value, c);
      PrintedParametersFree(ps[1..], c);
      assert c !in PrintParameter(ps[0]) <==> FreeParameter(ps[0], c);
      assert ps == [ps[0]] + ps[1..];
    }
  }

  lemma PrintedFree(r: Record, c: char)
    requires Foreign(c)
    ensures c !in PrintRecord(r) <==> Free(r, c)
  {
    PrintedParametersFree(r.parameters, c);
  }

  /** The lines of a printed list are its tokens if no record has a comma. */
  lemma {:induction false} LinesAreTokens(rs: seq<Record>)
    requires forall r :: r in rs ==> Free(r, ',')
    ensures Tokens(PrintRecords(rs), ',') == Lines(rs)
  {
    hide PrintRecord, Free;
    if rs != [] {
      var line, rest := PrintRecord(rs[0]), rs[1..];
      assert rs[0] in rs;
      PrintedFree(rs[0], ',');
      LineNotEmpty(rs[0]);
      if |rs| == 1 {
        FirstToken(line, [], ',');
        assert line + [] == line;
        assert rest == [];
      } else {
        forall r | r in rest ensures Free(r, ',') {
          assert r in rs;
        }
        LinesAreTokens(rest);
        var behind := [','] + PrintRecords(rest);
        FirstToken(line, behind, ',');
        assert behind[1..] == PrintRecords(rest);
        assert PrintRecords(rs) == line + behind;
      }
    }
  }

  lemma LineNotEmpty(r: Record)
    ensures PrintRecord(r) != []
  {
  }

  lemma {:induction false} PrintedListFree(rs: seq<Record>)
    requires forall r :: r in rs ==> Free(r, NUL)
    ensures NUL !in PrintRecords(rs)
  {
    hide PrintRecord, Free;
    if rs != [] {
      assert rs[0] in rs;
      PrintedFree(rs[0], NUL);
      forall r | r in rs[1..] ensures Free(r, NUL) {
        assert r in rs;
      }
      PrintedListFree(rs[1..]);
    }
  }

  /** What is read has no character that the line does not have. */
  lemma {:induction false} ReadParametersFree(rest: string, c: char, longMax: nat)
    requires c !in rest
    ensures ReadParameters(rest, longMax).Some? ==> AllFree(ReadParameters(rest, longMax).value, c)
    decreases |rest|
  {
    ReadsFrom(rest, longMax);
    match Behind(rest, ';')
    case None =>
    case Some(after) =>
      BehindFree(rest, ';', c);
      match Behind(after, '=')
      case None =>
      case Some(v) =>
        BehindFree(after, '=', c);
        ReadValueFree(v, c, longMax);
        ReadParametersFree(after, c, longMax);
  }

  lemma BehindFree(s: string, x: char, c: char)
    requires c !in s
    ensures Behind(s, x).Some? ==> c !in Behind(s, x).value
  {
  }

  lemma ReadValueFree(v: string, c: char, longMax: nat)
    requires c !in v
    ensures ReadValue(v, longMax).Str? ==> c !in ReadValue(v, longMax).s
  {
  }

  lemma ReadFree(line: string, c: char, longMax: nat)
    requires c !in line
    ensures ReadRecord(line, longMax).Some? ==> Free(ReadRecord(line, longMax).value, c)
  {
    hide ReadParameters;
    var open := Span(line, '<');
    if open < |line| {
      var closing := open + 1 + Span(line[open + 1..], '>');
      if closing < |line| {
        ReadParametersFree(line[closing + 1..], c, longMax);
      }
    }
  }

  lemma {:induction false} ReadRecordsFree(lines: seq<string>, c: char, longMax: nat)
    requires forall t :: t in lines ==> c !in t
    ensures forall r :: r in ReadRecords(lines, longMax).records ==> Free(r, c)
  {
    hide ReadRecord, Free;
    if lines != [] {
      assert lines[0] in lines;
      ReadFree(lines[0], c, longMax);
      forall t | t in lines[1..] ensures c !in t {
        assert t in lines;
      }
      ReadRecordsFree(lines[1..], c, longMax);
    }
  }

  /** Parsing a printed list into a fresh object gives the records back exactly if every record survives. */
  lemma CoreLinkRoundTrip(rs: seq<Record>, longMax: nat)
    ensures ReadCoreLink(PrintRecords(rs), longMax) == Parsed(rs, true)
            <==> forall r :: r in rs ==> Survives(r, longMax)
  {
    hide ReadRecord, Free, PrintRecord, ReadRecords, RecordSurvives;
    var text := PrintRecords(rs);
    CStrWhole(text);
    TokensAreTokens(CStr(text), ',');
    LinesComeBack(rs, longMax);
    if ReadCoreLink(text, longMax) == Parsed(rs, true) {
      ReadRecordsFree(Tokens(CStr(text), ','), ',', longMax);
      ReadRecordsFree(Tokens(CStr(text), ','), NUL, longMax);
    }
    if (forall r :: r in rs ==> Free(r, ',')) && (forall r :: r in rs ==> Free(r, NUL)) {
      LinesAreTokens(rs);
      PrintedListFree(rs);
    }
  }

  /** A semicolon in a quoted string, which the format allows, is lost: the text behind it is taken for a parameter. */
  lemma QuotedSemicolonIsLost(longMax: nat)
    ensures var r := Record("s", [Parameter("title", Str("a;b"))]);
            ReadCoreLink(PrintRecords([r]), longMax) != Parsed([r], true)
  {
    var p := Parameter("title", Str("a;b"));
    var r := Record("s", [p]);
    CoreLinkRoundTrip([r], longMax);
    assert p in r.parameters && r in [r] && p.value.s[1] == ';';
    assert !ParameterSurvives(p, longMax);
  }

  // ------------------------------------------------------------ the object

  function Find(s: string, c: char, from: nat): (n: nat)
    ensures n <= |s| && (n < |s| ==> from <= n && s[n] == c)
  {
    if from > |s| then |s|
    else
      SpanStops(s[from..], c);
      from + Span(s[from..], c)
  }

  lemma FindIs(line: string, c: char, from: nat)
    requires from <= |line|
    ensures Behind(line[from..], c) ==
              if Find(line, c, from) < |line| then Some(line[Find(line, c, from) + 1..]) else None
    ensures Find(line, c, from) < |line| ==> Span(line[from..], c) == Find(line, c, from) - from
  {
    SpanStops(line[from..], c);
    var n := Span(line[from..], c);
    if n < |line| - from {
      assert line[from..][n + 1..] == line[from + n + 1..];
    }
  }

  function Prepend(done: seq<Parameter>, left: Option<seq<Parameter>>): Option<seq<Parameter>> {
    match left
    case None => None
    case Some(ps) => Some(done + ps)
  }

  lemma PrependNothing(left: Option<seq<Parameter>>)
    ensures Prepend([], left) == left
  {
    if left.Some? {
      assert [] + left.value == left.value;
    }
  }

  lemma PrependEmpty(done: seq<Parameter>)
    ensures Prepend(done, Some([])) == Some(done)
  {
    assert done + [] == done;
  }

  lemma PrependTurn(whole: Option<seq<Parameter>>, done: seq<Parameter>, p: Parameter,
                    here: Option<seq<Parameter>>, left: Option<seq<Parameter>>)
    requires whole == Prepend(done, here) && here == Prepend([p], left)
    ensures whole == Prepend(done + [p], left)
  {
    PrependMore(done, p, left);
  }

  lemma ReadFirstFails(after: string, longMax: nat, done: seq<Parameter>)
    requires Behind(after, '=') == None
    ensures Prepend(done, ReadFirst(after, longMax)) == None
  {
  }

  lemma ReadFirstIs(after: string, v: string, longMax: nat)
    requires Behind(after, '=') == Some(v)
    ensures ReadFirst(after, longMax)
         == Prepend([Parameter(after[..Span(after, '=')], ReadValue(v, longMax))], ReadParameters(after, longMax))
  {
  }

  lemma PrependMore(done: seq<Parameter>, p: Parameter, left: Option<seq<Parameter>>)
    ensures Prepend(done + [p], left) == Prepend(done, Prepend([p], left))
  {
    if left.Some? {
      assert done + [p] + left.value == done + ([p] + left.value);
    }
  }

  lemma PrintsNext(rs: seq<Record>, i: nat)
    requires i < |rs|
    ensures PrintRecords(rs[i..]) ==
              PrintRecord(rs[i]) + if i + 1 < |rs| then [','] + PrintRecords(rs[i + 1..]) else []
  {
    hide PrintRecord;
    assert rs[i..][1..] == rs[i + 1..];
  }

  lemma Regroup(a: string, b: string, c: string)
    ensures a + (b + c) == a + b + c
  {
  }

  lemma PrintsNone()
    ensures PrintParameters([]) == []
  {
  }

  lemma PrintsNextParameter(ps: seq<Parameter>, i: nat)
    requires i < |ps|
    ensures PrintParameters(ps[i..]) == PrintParameter(ps[i]) + PrintParameters(ps[i + 1..])
  {
    hide PrintParameter;
    assert ps[i..][1..] == ps[i + 1..];
  }

  lemma ReadsFirst(line: string, rest: seq<string>, longMax: nat)
    ensures ReadRecords([line] + rest, longMax) ==
              match ReadRecord(line, longMax)
              case None => Parsed([], false)
              case Some(r) =>
                Parsed([r] + ReadRecords(rest, longMax).records, ReadRecords(rest, longMax).ok)
  {
    hide ReadRecord;
    assert ([line] + rest)[1..] == rest;
  }

  class CoreLink {
    var payload: seq<Record>
    var coreLink: string
    const longMax: nat

    constructor (longMax: nat)
      ensures payload == [] && coreLink == [] && this.longMax == longMax
    {
      payload, coreLink := [], [];
      this.longMax := longMax;
    }

    /** Prints the records; an object without records keeps its string and reports an error. */
    method CreateCoreLink() returns (ok: bool)
      modifies this`coreLink
      ensures ok == (payload != [])
      ensures coreLink == if ok then PrintRecords(payload) else old(coreLink)
    {
      hide PrintRecord;
      if payload == [] {
        return false;
      }
      coreLink := [];
      var i := 0;
      while i < |payload|
        invariant 0 <= i <= |payload|
        invariant coreLink + PrintRecords(payload[i..]) == PrintRecords(payload)
      {
        ghost var before := coreLink;
        AppendRecord(payload[i]);
        if i + 1 < |payload| {
          coreLink := coreLink + [','];
        }
        PrintsNext(payload, i);
        i := i + 1;
      }
      ok := true;
    }

    method AppendRecord(r: Record)
      modifies this`coreLink
      ensures coreLink == old(coreLink) + PrintRecord(r)
    {
      hide PrintParameters;
      coreLink := coreLink + (['<', '/'] + r.path + ['>']);
      ghost var whole := coreLink + PrintParameters(r.parameters);
      assert whole == old(coreLink) + PrintRecord(r);
      var i := 0;
      assert r.parameters[0..] == r.parameters;
      PrintsNone();
      while i < |r.parameters|
        invariant 0 <= i <= |r.parameters|
        invariant coreLink + PrintParameters(r.parameters[i..]) == whole
      {
        var p := r.parameters[i];
        var value := if p.value.Number? then Digits(p.value.n) else ['"'] + p.value.s + ['"'];
        var printed := [';'] + p.name + ['='] + value;
        PrintsNextParameter(r.parameters, i);
        Regroup(coreLink, printed, PrintParameters(r.parameters[i + 1..]));
        coreLink := coreLink + printed;
        i := i + 1;
      }
      assert r.parameters[i..] == [];
      assert coreLink + [] == coreLink;
    }

    /** Parses one line and adds its record, or reports an error and adds nothing. */
    method ParseRecord(line: string) returns (ok: bool)
      modifies this`payload
      ensures var r := ReadRecord(line, longMax);
              && ok == r.Some?
              && payload == old(payload) + if r.Some? then [r.value] else []
    {
      hide ReadParameters, ReadPath, Span, FindUri;
      assert line[0..] == line;
      var offset := Find(line, '<', 0);
      if offset == |line| {
        return false;
      }
      var closing := Find(line, '>', offset + 1);
      if closing == |line| {
        return false;
      }
      var path := ReadPath(line, offset, closing);
      var failed, parameters := ParseParameters(line, closing);
      if failed {
        return false;
      }
      payload := payload + [Record(path, parameters)];
      ok := true;
    }

    /** The loop over the parameters behind the closing bracket. */
    method ParseParameters(line: string, closing: nat) returns (failed: bool, parameters: seq<Parameter>)
      requires closing < |line|
      ensures var r := ReadParameters(line[closing + 1..], longMax);
              failed == r.None? && (!failed ==> parameters == r.value)
    {
      hide ReadValue, ReadParameters, Find, Span, Prepend, Behind, ReadFirst;
      failed, parameters := false, [];
      ghost var whole := ReadParameters(line[closing + 1..], longMax);
      var offset := closing;
      PrependNothing(whole);
      while true
        invariant closing <= offset < |line|
        invariant whole == Prepend(parameters, ReadParameters(line[offset + 1..], longMax))
        decreases |line| - offset
      {
        ghost var rest := line[offset + 1..];
        ReadsFrom(rest, longMax);
        FindIs(line, ';', offset + 1);
        offset := Find(line, ';', offset + 1);
        if offset == |line| {
          PrependEmpty(parameters);
          return;
        }
        ghost var after := line[offset + 1..];
        FindIs(line, '=', offset + 1);
        var separator := Find(line, '=', offset + 1);
        if separator == |line| {
          ReadFirstFails(after, longMax, parameters);
          failed := true;
          return;
        }
        var name := line[offset + 1..separator];
        assert after[..separator - offset - 1] == name;
        var value := ReadValue(line[separator + 1..], longMax);
        var p := Parameter(name, value);
        ReadFirstIs(after, line[separator + 1..], longMax);
        PrependTurn(whole, parameters, p, ReadParameters(rest, longMax), ReadParameters(after, longMax));
        parameters := parameters + [p];
      }
    }

    /** Adds the records of all lines up to the first that is refused. */
    method ParseCoreLink(text: string) returns (ok: bool)
      modifies this`payload
      ensures var r := ReadCoreLink(text, longMax);
              ok == r.ok && payload == old(payload) + r.records
    {
      hide ReadRecord, ReadRecords;
      var buffer := CStr(text);
      assert buffer[0..] == buffer;
      ghost var whole := ReadRecords(Tokens(buffer, ','), longMax);
      ReadsNothing(longMax);
      var token, next := NextToken(buffer, 0, ',');
      while token.Some?
        invariant 0 <= next <= |buffer|
        invariant Leads(whole, old(payload), payload,
                        ReadRecords(if token.Some? then [token.value] + Tokens(buffer[next..], ',') else [], longMax))
        decreases token.Some?, |buffer| - next
      {
        ghost var line, rest := token.value, Tokens(buffer[next..], ',');
        ReadsFirst(line, rest, longMax);
        ghost var before := payload;
        ok := ParseRecord(token.value);
        if !ok {
          return;
        }
        token, next := NextToken(buffer, next, ',');
        LeadsOn(whole, old(payload), before, ReadRecord(line, longMax).value, ReadRecords(rest, longMax));
      }
      ok := true;
    }
  }

  /** Reading `whole` onto `start` has led to `now`, and `left` remains to be read. */
  ghost predicate Leads(whole: Parsed, start: seq<Record>, now: seq<Record>, left: Parsed) {
    whole.ok == left.ok && start + whole.records == now + left.records
  }

  lemma LeadsOn(whole: Parsed, start: seq<Record>, now: seq<Record>, r: Record, left: Parsed)
    requires Leads(whole, start, now, Parsed([r] + left.records, left.ok))
    ensures Leads(whole, start, now + [r], left)
  {
    assert now + ([r] + left.records) == now + [r] + left.records;
  }

  lemma ReadsNothing(longMax: nat)
    ensures ReadRecords([], longMax) == Parsed([], true)
  {
  }
}
