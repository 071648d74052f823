/** The C library functions the text codecs use: strings that end at a zero, `strtok`, `strtol` and printed numbers. */
module Text {
  import opened Bytes

  const NUL := '\0'

  /** What a C function sees of a string. */
  function CStr(s: string): string {
    if s == [] || s[0] == NUL then [] else [s[0]] + CStr(s[1..])
  }

  lemma {:induction false} CStrWhole(s: string)
    ensures CStr(s) == s <==> NUL !in s
    ensures NUL !in CStr(s)
  {
    if s != [] {
      CStrWhole(s[1..]);
      assert s == [s[0]] + s[1..];
    }
  }

  // ------------------------------------------------------------------ tokens

  /** The length of the longest start of `s` without `c`. */
  function Span(s: string, c: char): (n: nat)
    ensures n <= |s|
  {
    if s == [] || s[0] == c then 0 else 1 + Span(s[1..], c)
  }

  lemma {:induction false} SpanStops(s: string, c: char)
    ensures c !in s[..Span(s, c)]
    ensures Span(s, c) < |s| ==> s[Span(s, c)] == c
  {
    if s != [] && s[0] != c {
      SpanStops(s[1..], c);
      assert s[..Span(s, c)] == [s[0]] + s[1..][..Span(s[1..], c)];
    }
  }

  lemma {:induction false} SpanAtMost(s: string, c: char, i: nat)
    requires i < |s| && s[i] == c
    ensures Span(s, c) <= i
  {
    if i > 0 {
      SpanAtMost(s[1..], c, i - 1);
    }
  }

  lemma {:induction false} SpanOfConcatenation(a: string, b: string, c: char)
    requires c !in a && (b == [] || b[0] == c)
    ensures Span(a + b, c) == |a|
  {
    if a == [] {
      assert a + b == b;
    } else {
      assert (a + b)[1..] == a[1..] + b;
      SpanOfConcatenation(a[1..], b, c);
    }
  }

  /** The tokens that repeated calls of `strtok` return. */
  function Tokens(s: string, c: char): seq<string>
    decreases |s|
  {
    if s == [] then []
    else if s[0] == c then Tokens(s[1..], c)
    else [s[..Span(s, c)]] + Tokens(s[Span(s, c)..], c)
  }

  predicate IsToken(t: string, c: char) { t != [] && c !in t }

  lemma {:induction false} TokensAreTokens(s: string, c: char)
    ensures forall t :: t in Tokens(s, c) ==> IsToken(t, c) && forall x :: x in t ==> x in s
    decreases |s|
  {
    if s != [] {
      var n := Span(s, c);
      if s[0] == c {
        TokensAreTokens(s[1..], c);
      } else {
        TokensAreTokens(s[n..], c);
        SpanStops(s, c);
        assert IsToken(s[..n], c);
      }
    }
  }

  /** Tokens with the separator in front of each. */
  function Led(tokens: seq<string>, c: char): string {
    if tokens == [] then [] else [c] + tokens[0] + Led(tokens[1..], c)
  }

  /** A token followed by the separator or the end is the first one returned. */
  lemma FirstToken(t: string, rest: string, c: char)
    requires IsToken(t, c) && (rest == [] || rest[0] == c)
    ensures Tokens(t + rest, c) == [t] + Tokens(rest, c)
  {
    SpanOfConcatenation(t, rest, c);
    assert (t + rest)[0] == t[0];
    assert t[0] in t;
    assert (t + rest)[..|t|] == t && (t + rest)[|t|..] == rest;
  }

  lemma {:induction false} TokensOfLed(tokens: seq<string>, c: char)
    requires forall t :: t in tokens ==> IsToken(t, c)
    ensures Tokens(Led(tokens, c), c) == tokens
  {
    hide Span, Tokens;
    if tokens == [] {
      NoTokens(c);
    } else {
      var t, rest := tokens[0], Led(tokens[1..], c);
      assert t in tokens;
      TokensOfLed(tokens[1..], c);
      var led := Led(tokens, c);
      assert led[1..] == t + rest && led[0..] == led;
      SkipsSeparator(led, 0, c);
      FirstToken(t, rest, c);
      assert tokens == [t] + tokens[1..];
    }
  }

  /** The tokens themselves say whether they come back. */
  lemma TokensComeBack(tokens: seq<string>, c: char)
    ensures Tokens(Led(tokens, c), c) == tokens <==> forall t :: t in tokens ==> IsToken(t, c)
  {
    TokensAreTokens(Led(tokens, c), c);
    if forall t :: t in tokens ==> IsToken(t, c) {
      TokensOfLed(tokens, c);
    }
  }

  lemma SkipsSeparator(s: string, i: nat, c: char)
    requires i < |s| && s[i] == c
    ensures Tokens(s[i..], c) == Tokens(s[i + 1..], c)
  {
    assert s[i..][1..] == s[i + 1..];
  }

  lemma SpanGoesOn(s: string, i: nat, c: char)
    requires i < |s| && s[i] != c
    ensures Span(s[i..], c) == 1 + Span(s[i + 1..], c)
  {
    assert s[i..][1..] == s[i + 1..];
  }

  lemma TokenBetween(s: string, start: nat, end: nat, c: char)
    requires start < end <= |s| && s[start] != c && Span(s[start..], c) == end - start
    ensures Tokens(s[start..], c) == [s[start..end]] + Tokens(s[end..], c)
  {
    assert s[start..][..end - start] == s[start..end];
    assert s[start..][end - start..] == s[end..];
  }

  /** One call of `strtok`: the token at or behind `from`, and where it ends. */
  method NextToken(s: string, from: nat, c: char) returns (token: Option<string>, next: nat)
    requires from <= |s|
    ensures next <= |s|
    ensures token.None? ==> Tokens(s[from..], c) == []
    ensures token.Some? ==> from < next && Tokens(s[from..], c) == [token.value] + Tokens(s[next..], c)
  {
    hide Span, Tokens;
    var start := from;
    while start < |s| && s[start] == c
      invariant from <= start <= |s|
      invariant Tokens(s[start..], c) == Tokens(s[from..], c)
    {
      SkipsSeparator(s, start, c);
      start := start + 1;
    }
    if start == |s| {
      NoTokens(c);
      return None, start;
    }
    next := start;
    while next < |s| && s[next] != c
      invariant start <= next <= |s|
      invariant next == start ==> s[next] != c
      invariant Span(s[start..], c) == next - start + Span(s[next..], c)
    {
      SpanGoesOn(s, next, c);
      next := next + 1;
    }
    NoSpan(s[next..], c);
    token := Some(s[start..next]);
    TokenBetween(s, start, next, c);
  }

  lemma NoTokens(c: char)
    ensures Tokens([], c) == []
  {
  }

  lemma NoSpan(s: string, c: char)
    requires s == [] || s[0] == c
    ensures Span(s, c) == 0
  {
  }

  // ----------------------------------------------------------------- numbers

  predicate IsDigit(c: char) { '0' <= c <= '9' }

  predicate IsSpace(c: char) { c == ' ' || '\t' <= c <= '\r' }

  function DigitChar(d: nat): (c: char)
    requires d < 10
    ensures IsDigit(c) && DigitValue(c) == d
  {
    ('0' as int + d) as char
  }

  function DigitValue(c: char): nat
    requires IsDigit(c)
  {
    c as int - '0' as int
  }

  function Digits(n: nat): string {
    if n < 10 then [DigitChar(n)] else Digits(n / 10) + [DigitChar(n % 10)]
  }

  function ToString(n: int): string { if n < 0 then "-" + Digits(-n) else Digits(n) }

  /** The number that the digits at the start of `s` continue from `n`. */
  function ReadDigits(s: string, n: nat): nat {
    if s == [] || !IsDigit(s[0]) then n else ReadDigits(s[1..], 10 * n + DigitValue(s[0]))
  }

  function Negative(n: int): int { -n }

  function Clamp(n: int, longMax: nat): int {
    if n > longMax then longMax else if n < Negative(longMax + 1) then Negative(longMax + 1) else n
  }

  /** `strtol` with base ten on a host whose `long` reaches up to `longMax`. */
  function Strtol(s: string, longMax: nat): int {
    if s == [] then 0
    else if IsSpace(s[0]) then Strtol(s[1..], longMax)
    else if s[0] == '-' then Clamp(Negative(ReadDigits(s[1..], 0)), longMax)
    else if s[0] == '+' then Clamp(ReadDigits(s[1..], 0), longMax)
    else Clamp(ReadDigits(s, 0), longMax)
  }

  lemma {:induction false} DigitsAreDigits(n: nat)
    ensures Digits(n) != [] && forall c :: c in Digits(n) ==> IsDigit(c)
  {
    if n >= 10 {
      DigitsAreDigits(n / 10);
    }
  }

  lemma {:induction false} ReadsOn(a: string, b: string, n: nat)
    requires forall c :: c in a ==> IsDigit(c)
    ensures ReadDigits(a + b, n) == ReadDigits(b, ReadDigits(a, n))
  {
    if a == [] {
      assert a + b == b;
    } else {
      assert a[0] in a;
      assert (a + b)[1..] == a[1..] + b;
      ReadsOn(a[1..], b, 10 * n + DigitValue(a[0]));
    }
  }

  lemma {:induction false} ReadsPrinted(n: nat)
    ensures ReadDigits(Digits(n), 0) == n
  {
    if n >= 10 {
      ReadsPrinted(n / 10);
      DigitsAreDigits(n / 10);
      ReadsOn(Digits(n / 10), [DigitChar(n % 10)], 0);
      assert ReadDigits([DigitChar(n % 10)], n / 10) == n by {
        assert [DigitChar(n % 10)][1..] == [];
      }
    } else {
      assert [DigitChar(n)][1..] == [];
    }
  }

  /** A printed number is read back clamped to the range of `long`. */
  lemma StrtolPrinted(n: int, longMax: nat)
    ensures Strtol(ToString(n), longMax) == Clamp(n, longMax)
  {
    var d := if n < 0 then -n else n;
    DigitsAreDigits(d);
    ReadsPrinted(d);
    assert Digits(d)[0] in Digits(d);
    if n < 0 {
      assert ToString(n)[1..] == Digits(d);
    }
  }

  /** Printed numbers contain digits and a sign only. */
  lemma PrintedChars(n: int)
    ensures ToString(n) != []
    ensures forall c :: c in ToString(n) ==> IsDigit(c) || c == '-'
    ensures n >= 0 <==> IsDigit(ToString(n)[0])
  {
    var d := if n < 0 then -n else n;
    DigitsAreDigits(d);
    assert Digits(d)[0] in Digits(d);
  }
}
