/** The CoRE link format in literal characters: what lists print to, and what any text is parsed to. */
module CoreLinkFormat {
  import opened Bytes
  import opened Text
  import opened TextFormat
  import opened CoreLinks

  // ---------------------------------------------------------------- printing

  /** A number without quotes, as its numeral; a string between quotes. */
  lemma PrintsValue(name: string, n: uint32, numeral: string, s: string)
    requires IsDecimal(numeral, n)
    ensures PrintParameter(Parameter(name, Number(n))) == ";" + name + "=" + numeral
    ensures PrintParameter(Parameter(name, Str(s))) == ";" + name + "=\"" + s + "\""
  {
    hide IsDecimal, Digits;
    DecimalsEqual(numeral, n);
    assert ";" + name + "=" + (['"'] + s + ['"']) == ";" + name + "=\"" + s + "\"";
  }

  lemma {:induction false} PrintsParameterLast(ps: seq<Parameter>, p: Parameter)
    ensures PrintParameters(ps + [p]) == PrintParameters(ps) + PrintParameter(p)
  {
    hide PrintParameter;
    if ps == [] {
      assert ps + [p] == [p] && [p][1..] == [];
    } else {
      PrintsParameterLast(ps[1..], p);
      assert (ps + [p])[1..] == ps[1..] + [p];
    }
  }

  /** A record is its path in brackets behind a slash, and its parameters one after the other. */
  lemma PrintsRecord(path: string, ps: seq<Parameter>, p: Parameter)
    ensures PrintRecord(Record(path, [])) == "</" + path + ">"
    ensures PrintRecord(Record(path, ps + [p])) == PrintRecord(Record(path, ps)) + PrintParameter(p)
  {
    hide PrintParameter;
    PrintsParameterLast(ps, p);
    PrintsNone();
  }

  /** Records are separated by commas. */
  lemma {:induction false} PrintsList(rs: seq<Record>, r: Record)
    ensures PrintRecords([]) == "" && PrintRecords([r]) == PrintRecord(r)
    ensures rs != [] ==> PrintRecords(rs + [r]) == PrintRecords(rs) + "," + PrintRecord(r)
  {
    hide PrintRecord;
    if |rs| == 1 {
      assert (rs + [r])[1..] == [r];
    } else if |rs| > 1 {
      PrintsList(rs[1..], r);
      assert (rs + [r])[1..] == rs[1..] + [r];
    }
  }

  // ----------------------------------------------------------------- a value

  /** A quoted value is its first character and what follows up to the next quote. */
  lemma ReadsQuoted(first: char, t: string, rest: string, longMax: nat)
    requires '"' !in t && (rest == [] || rest[0] == '"')
    ensures ReadValue("\"", longMax) == Str("")
    ensures ReadValue("\"" + ([first] + (t + rest)), longMax) == Str([first] + t)
  {
    var body := [first] + (t + rest);
    assert ("\"" + body)[1..] == body && body[1..] == t + rest && ("\"")[1..] == [];
    SpanOfConcatenation(t, rest, '"');
    assert (t + rest)[..|t|] == t;
  }

  /** Any other value is the number in front of the next semicolon, modulo two to the 32. */
  lemma ReadsUnquoted(t: string, rest: string, longMax: nat)
    requires ';' !in t && (rest == [] || rest[0] == ';') && (t + rest == [] || (t + rest)[0] != '"')
    ensures ReadValue(t + rest, longMax).Number?
    ensures ReadValue(t + rest, longMax).n == Strtol(t, longMax) % 4294967296
  {
    hide Strtol;
    SpanOfConcatenation(t, rest, ';');
    assert (t + rest)[..|t|] == t;
  }

  // -------------------------------------------------------------- parameters

  lemma BehindIs(a: string, b: string, c: char)
    requires c !in a
    ensures Behind(a, c) == None && Behind(a + [c] + b, c) == Some(b) && Span(a + [c] + b, c) == |a|
  {
    assert a + [c] + b == a + ([c] + b) && (a + [c] + b)[|a| + 1..] == b;
    SpanOfConcatenation(a, [c] + b, c);
    SpanOfConcatenation(a, [], c);
    assert a + [] == a;
  }

  /** Without a semicolon there is no parameter, and a semicolon without an equals sign behind it is refused. */
  lemma ReadsNoParameter(x: string, after: string, longMax: nat)
    requires ';' !in x && '=' !in after
    ensures ReadParameters(x, longMax) == Some([])
    ensures ReadParameters(x + ";" + after, longMax) == None
  {
    BehindIs(x, after, ';');
    BehindIs(after, "", '=');
    ReadsFrom(x, longMax);
    ReadsFrom(x + ";" + after, longMax);
  }

  /** Behind the first semicolon come a name and a value, and from there on, with the name, the next parameters. */
  lemma ReadsParameter(x: string, name: string, v: string, longMax: nat)
    requires ';' !in x && '=' !in name
    ensures var after := name + "=" + v;
            var r, rest := ReadParameters(x + ";" + after, longMax), ReadParameters(after, longMax);
            && (r.None? <==> rest.None?)
            && (rest.Some? ==> r == Some([Parameter(name, ReadValue(v, longMax))] + rest.value))
  {
    hide ReadParameters, ReadValue, Span;
    var after := name + "=" + v;
    BehindIs(x, after, ';');
    BehindIs(name, v, '=');
    ReadsFrom(x + ";" + after, longMax);
    assert after[..|name|] == name;
  }

  // ---------------------------------------------------------------- a record

  predicate UriAt(line: string, i: nat) { i + 1 < |line| && line[i] == '<' && line[i + 1] == '/' }

  /** The first "</" of the line is at `u`. */
  predicate FirstUri(line: string, u: nat) { UriAt(line, u) && forall i: nat :: i < u ==> !UriAt(line, i) }

  predicate NoUri(line: string) { forall i: nat :: i < |line| ==> !UriAt(line, i) }

  lemma {:induction false} FindsUri(line: string)
    ensures if FindUri(line) < |line| then FirstUri(line, FindUri(line)) else NoUri(line)
    decreases |line|
  {
    if |line| >= 2 && !UriAt(line, 0) {
      var rest := line[1..];
      FindsUri(rest);
      forall i: nat | 1 <= i < |line| ensures UriAt(line, i) <==> UriAt(rest, i - 1) {
      }
    }
  }

  /** The brackets that count: the first opening one and the first closing one behind it. */
  predicate Brackets(line: string, open: nat, closing: nat) {
    && open < closing < |line|
    && line[open] == '<' && '<' !in line[..open]
    && line[closing] == '>' && '>' !in line[open + 1..closing]
  }

  /** What is read of a line with both brackets. */
  lemma ReadsRecord(line: string, open: nat, closing: nat, u: nat, longMax: nat)
    requires Brackets(line, open, closing) && (NoUri(line) || FirstUri(line, u))
    ensures var r, ps := ReadRecord(line, longMax), ReadParameters(line[closing + 1..], longMax);
            && (r.None? <==> ps.None?)
            && (r.Some? ==>
                  && r.value.parameters == ps.value
                  && r.value.path == (if NoUri(line) then line[open + 1..closing]
                                      else if u + 2 <= closing then line[u + 2..closing]
                                      else line[u + 2..]))
  {
    hide ReadParameters, FindUri;
    FindsUri(line);
    SpanIs(line, '<', open);
    SpanIs(line[open + 1..], '>', closing - open - 1);
    assert line[open + 1..][..closing - open - 1] == line[open + 1..closing];
    if !NoUri(line) {
      UriUnique(line, u, FindUri(line));
    }
  }

  lemma UriUnique(line: string, u: nat, n: nat)
    requires FirstUri(line, u) && (if n < |line| then FirstUri(line, n) else NoUri(line))
    ensures n == u
  {
  }

  lemma SpanIs(s: string, c: char, n: nat)
    requires n < |s| && s[n] == c && c !in s[..n]
    ensures Span(s, c) == n
  {
    assert s == s[..n] + s[n..];
    SpanOfConcatenation(s[..n], s[n..], c);
  }

  /** A line without both brackets in this order is refused. */
  lemma NeedsBrackets(line: string, longMax: nat)
    ensures ReadRecord(line, longMax).Some? ==> exists open, closing :: Brackets(line, open, closing)
  {
    hide ReadParameters, ReadPath;
    SpanStops(line, '<');
    var open := Span(line, '<');
    if open < |line| {
      var rest := line[open + 1..];
      SpanStops(rest, '>');
      var n := Span(rest, '>');
      if n < |rest| {
        assert line[open + 1..open + 1 + n] == rest[..n] && line[open + 1 + n] == '>';
        assert Brackets(line, open, open + 1 + n);
      }
    }
  }

  // ------------------------------------------------------------------ a list

  lemma {:induction false} ReadsLines(a: seq<string>, b: seq<string>, longMax: nat)
    ensures var x, y := ReadRecords(a, longMax), ReadRecords(b, longMax);
            ReadRecords(a + b, longMax) == if x.ok then Parsed(x.records + y.records, y.ok) else x
  {
    hide ReadRecord, ReadRecords;
    var y := ReadRecords(b, longMax);
    if a == [] {
      assert a + b == b && [] + y.records == y.records;
      ReadsNothing(longMax);
    } else {
      var line, rest := a[0], a[1..];
      ReadsLines(rest, b, longMax);
      assert a == [line] + rest && a + b == [line] + (rest + b);
      ReadsFirst(line, rest, longMax);
      ReadsFirst(line, rest + b, longMax);
      if ReadRecord(line, longMax).Some? {
        var r := ReadRecord(line, longMax).value;
        assert [r] + (ReadRecords(rest, longMax).records + y.records)
            == [r] + ReadRecords(rest, longMax).records + y.records;
      }
    }
  }

  /** A comma divides a text: what is behind it is read if nothing in front of it is refused. */
  lemma ReadsComma(a: string, b: string, longMax: nat)
    requires '\0' !in a && '\0' !in b
    ensures var x, y := ReadCoreLink(a, longMax), ReadCoreLink(b, longMax);
            ReadCoreLink(a + "," + b, longMax) == if x.ok then Parsed(x.records + y.records, y.ok) else x
  {
    hide ReadRecords, Tokens;
    CStrWhole(a);
    CStrWhole(b);
    CStrWhole(a + "," + b);
    TokensSplit(a, b, ',');
    ReadsLines(Tokens(a, ','), Tokens(b, ','), longMax);
  }

  /** A text without a comma is one record, or none if it is empty; a zero character ends it. */
  lemma ReadsLine(line: string, behind: string, longMax: nat)
    requires '\0' !in line && ',' !in line && (behind == [] || behind[0] == '\0')
    ensures var r := ReadRecord(line, longMax);
            ReadCoreLink(line + behind, longMax) ==
              if line == [] then Parsed([], true) else if r.None? then Parsed([], false) else Parsed([r.value], true)
  {
    hide ReadRecord, CStr;
    CStrIs(line + behind, line);
    TokensWithin(line, ',');
    ReadsFirst(line, [], longMax);
    ReadsNothing(longMax);
    assert [line] + [] == [line];
  }

  // ---------------------------------------------------------------- examples

  lemma PrintsFirst()
    ensures PrintRecord(Record("s", [Parameter("ct", Number(40)), Parameter("rt", Str("x"))]))
         == "</s>;ct=40;rt=\"x\""
  {
    hide PrintRecord, PrintParameter;
    var ct, rt := Parameter("ct", Number(40)), Parameter("rt", Str("x"));
    Forty();
    PrintsValue("ct", 40, "40", "");
    PrintsValue("rt", 40, "40", "x");
    PrintsRecord("s", [], ct);
    PrintsRecord("s", [ct], rt);
    assert [] + [ct] == [ct] && [ct] + [rt] == [ct, rt];
  }

  /** Two records as text. */
  lemma PrintsExample()
    ensures PrintRecords([Record("s", [Parameter("ct", Number(40)), Parameter("rt", Str("x"))]), Record("t", [])])
         == "</s>;ct=40;rt=\"x\",</t>"
  {
    hide PrintRecords, PrintRecord;
    var ct, rt := Parameter("ct", Number(40)), Parameter("rt", Str("x"));
    PrintsFirst();
    PrintsRecord("t", [], ct);
    PrintsList([], Record("s", [ct, rt]));
    PrintsList([Record("s", [ct, rt])], Record("t", []));
    assert [Record("s", [ct, rt])] + [Record("t", [])] == [Record("s", [ct, rt]), Record("t", [])];
  }

  lemma Forty()
    ensures IsDecimal("40", 40)
  {
    assert "40"[..1] == "4" && "4"[..0] == "";
    assert NumberOf("4") == 4;
  }

  /** Without the slash the path is what stands between the brackets. */
  lemma ReadsSensors(longMax: nat)
    ensures ReadRecord("<sensors>", longMax) == Some(Record("sensors", []))
  {
    hide ReadRecord, ReadParameters;
    var line := "<sensors>";
    forall i: nat | i < |line| ensures !UriAt(line, i) {
    }
    ReadsRecord(line, 0, 8, 0, longMax);
    ReadsNoParameter("", "", longMax);
    assert line[9..] == "" && line[1..8] == "sensors";
  }
}
