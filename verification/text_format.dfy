/** The C library functions in literal terms: what each returns is determined by its input text alone. */
module TextFormat {
  import opened Text

  // ------------------------------------------------------ strings and tokens

  /** `t` is the start of `s` in front of its first zero character. */
  predicate ZeroFree(t: string, s: string) {
    t <= s && '\0' !in t && (|t| < |s| ==> s[|t|] == '\0')
  }

  lemma {:induction false} CStrIs(s: string, t: string)
    ensures t == CStr(s) <==> ZeroFree(t, s)
    decreases |s|
  {
    if s != [] && s[0] != '\0' {
      CStrIs(s[1..], CStr(s[1..]));
      assert s == [s[0]] + s[1..];
      assert CStr(s)[1..] == CStr(s[1..]);
      if t != [] {
        CStrIs(s[1..], t[1..]);
        assert t == [t[0]] + t[1..];
        assert t <= s <==> t[0] == s[0] && t[1..] <= s[1..];
      }
    }
  }

  /** A separator divides a string into the tokens in front of it and those behind it. */
  lemma {:induction false} TokensSplit(a: string, b: string, c: char)
    ensures Tokens(a + [c] + b, c) == Tokens(a, c) + Tokens(b, c)
    decreases |a|
  {
    hide Span;
    if a == [] {
      SkipsSeparator([c] + b, 0, c);
      assert ([c] + b)[0..] == [c] + b && ([c] + b)[1..] == b;
      assert a + [c] + b == [c] + b;
      NoTokens(c);
    } else if a[0] == c {
      TokensSplit(a[1..], b, c);
      assert (a + [c] + b)[1..] == a[1..] + [c] + b;
    } else {
      SpanStops(a, c);
      SpanNotNone(a, c);
      var n := Span(a, c);
      TokensSplit(a[n..], b, c);
      TokenFirst(a[..n], a[n..], b, c);
      assert a == a[..n] + a[n..];
    }
  }

  lemma TokenFirst(t: string, rest: string, b: string, c: char)
    requires IsToken(t, c) && (rest == [] || rest[0] == c)
    ensures Tokens(t + rest, c) == [t] + Tokens(rest, c)
    ensures Tokens(t + rest + [c] + b, c) == [t] + Tokens(rest + [c] + b, c)
  {
    hide Tokens;
    assert t + rest + [c] + b == t + (rest + [c] + b);
    FirstToken(t, rest, c);
    FirstToken(t, rest + [c] + b, c);
  }

  lemma SpanNotNone(s: string, c: char)
    requires s != [] && s[0] != c
    ensures Span(s, c) >= 1
  {
  }

  /** A string without the separator is its own token, unless it is empty. */
  lemma TokensWithin(t: string, c: char)
    requires c !in t
    ensures Tokens(t, c) == if t == [] then [] else [t]
  {
    hide Tokens;
    NoTokens(c);
    if t != [] {
      FirstToken(t, [], c);
      assert t + [] == t;
    }
  }

  // ----------------------------------------------------------------- numbers

  predicate AllDigits(s: string) { forall i :: 0 <= i < |s| ==> '0' <= s[i] <= '9' }

  /** The number that decimal digits write. */
  function NumberOf(s: string): nat
    requires AllDigits(s)
  {
    if s == [] then 0 else 10 * NumberOf(s[..|s| - 1]) + (s[|s| - 1] as int - 48)
  }

  /** The numeral of a number: its digits without a zero in front. */
  predicate IsDecimal(s: string, n: int) {
    AllDigits(s) && s != [] && NumberOf(s) == n && (|s| > 1 ==> s[0] != '0')
  }

  predicate IsNumeral(s: string, n: int) {
    if n < 0 then s != [] && s[0] == '-' && IsDecimal(s[1..], -n) else IsDecimal(s, n)
  }

  lemma {:induction false} DecimalsEqual(s: string, n: nat)
    ensures IsDecimal(s, n) <==> s == Digits(n)
    decreases n
  {
    hide AllDigits;
    if n < 10 {
      OneDigit(s, n);
    } else {
      DecimalsEqual(Digits(n / 10), n / 10);
      LastDigit(Digits(n / 10), n);
      if IsDecimal(s, n) {
        DropLast(s, n);
        DecimalsEqual(s[..|s| - 1], n / 10);
        assert s == s[..|s| - 1] + [s[|s| - 1]];
      }
    }
  }

  lemma OneDigit(s: string, n: nat)
    requires n < 10
    ensures IsDecimal(s, n) <==> s == [DigitChar(n)]
  {
    var d := [DigitChar(n)];
    assert d[..0] == [];
    assert NumberOf(d) == DigitChar(n) as int - 48 == n;
    if IsDecimal(s, n) {
      if |s| > 1 {
        AtLeastTen(s);
        assert false;
      }
      assert s[..0] == [];
      assert s[0] as int == DigitChar(n) as int;
    }
  }

  lemma {:induction false} AtLeastTen(s: string)
    requires AllDigits(s) && |s| > 1 && s[0] != '0'
    ensures NumberOf(s) >= 10
    decreases |s|
  {
    var a := s[..|s| - 1];
    if |s| == 2 {
      assert a[..0] == [];
      assert NumberOf(a) == s[0] as int - 48;
    } else {
      AtLeastTen(a);
    }
  }

  lemma LastDigit(a: string, n: nat)
    requires n >= 10 && IsDecimal(a, n / 10)
    ensures IsDecimal(a + [DigitChar(n % 10)], n)
  {
    var s := a + [DigitChar(n % 10)];
    assert s[..|s| - 1] == a;
    OneDigitValue(a);
    assert 10 * (n / 10) + n % 10 == n;
  }

  lemma DropLast(s: string, n: nat)
    requires n >= 10 && IsDecimal(s, n)
    ensures |s| > 1 && IsDecimal(s[..|s| - 1], n / 10) && s[|s| - 1] == DigitChar(n % 10)
  {
    var a, d: nat := s[..|s| - 1], s[|s| - 1] as int - 48;
    OneDigitValue(s);
    assert n == 10 * NumberOf(a) + d;
  }

  lemma OneDigitValue(s: string)
    requires AllDigits(s) && s != []
    ensures |s| == 1 ==> NumberOf(s) == s[0] as int - 48
  {
    assert s[..0] == [];
  }

  /** A number is printed as its numeral, which is the only one. */
  lemma PrintsNumeral(s: string, n: int)
    ensures s == ToString(n) <==> IsNumeral(s, n)
  {
    hide IsDecimal, Digits;
    if n < 0 {
      if s != [] {
        DecimalsEqual(s[1..], -n);
        assert s == [s[0]] + s[1..];
      }
      assert ToString(n)[1..] == Digits(-n);
    } else {
      DecimalsEqual(s, n);
    }
  }

  // ----------------------------------------------------------------- reading

  /** Digits are read up to the first other character. */
  lemma {:induction false} ReadsNumber(s: string, rest: string)
    requires AllDigits(s) && (rest == [] || !('0' <= rest[0] <= '9'))
    ensures ReadDigits(s + rest, 0) == NumberOf(s)
    decreases |s|
  {
    if s == [] {
      assert s + rest == rest;
    } else {
      var a, d := s[..|s| - 1], [s[|s| - 1]];
      ReadsNumber(a, []);
      assert a + [] == a && s == a + d && s + rest == a + (d + rest);
      forall x | x in a ensures IsDigit(x) {
      }
      ReadsOn(a, d + rest, 0);
      assert (d + rest)[1..] == rest;
    }
  }

  predicate AllSpaces(s: string) { forall i :: 0 <= i < |s| ==> s[i] == ' ' || '\t' <= s[i] <= '\r' }

  /** What no number of this sign starts with once its digits are read. */
  predicate Stops(sign: string, digits: string, rest: string) {
    rest == [] || (&& !('0' <= rest[0] <= '9')
                   && (sign == [] && digits == [] ==>
                         rest[0] != '-' && rest[0] != '+' && rest[0] != ' ' && !('\t' <= rest[0] <= '\r')))
  }

  function Limited(n: int, longMax: nat): int {
    if n > longMax then longMax else if n + longMax + 1 < 0 then 0 - longMax - 1 else n
  }

  lemma {:induction false} SkipsSpaces(spaces: string, s: string, longMax: nat)
    requires AllSpaces(spaces)
    ensures Strtol(spaces + s, longMax) == Strtol(s, longMax)
  {
    if spaces == [] {
      assert spaces + s == s;
    } else {
      assert (spaces + s)[1..] == spaces[1..] + s;
      SkipsSpaces(spaces[1..], s, longMax);
    }
  }

  /** Every text is spaces, perhaps a sign, digits and a rest; the number read is that of the digits, limited. */
  lemma StrtolIs(spaces: string, sign: string, digits: string, rest: string, longMax: nat)
    requires AllSpaces(spaces) && sign in ["", "-", "+"] && AllDigits(digits) && Stops(sign, digits, rest)
    ensures Strtol(spaces + (sign + (digits + rest)), longMax) ==
              Limited(if sign == "-" then 0 - NumberOf(digits) else NumberOf(digits), longMax)
  {
    hide NumberOf, ReadDigits, Strtol;
    SkipsSpaces(spaces, sign + (digits + rest), longMax);
    ReadsNumber(digits, rest);
    SignedNumber(sign, digits + rest, longMax, digits, rest);
  }

  lemma SignedNumber(sign: string, s: string, longMax: nat, digits: string, rest: string)
    requires sign in ["", "-", "+"] && AllDigits(digits) && Stops(sign, digits, rest) && s == digits + rest
    ensures var n := ReadDigits(s, 0);
            Strtol(sign + s, longMax) == Limited(if sign == "-" then 0 - n else n, longMax)
  {
    if sign == [] {
      assert sign + s == s;
      if digits == [] {
        assert s == rest;
      }
    } else {
      assert (sign + s)[1..] == s;
    }
  }
}
