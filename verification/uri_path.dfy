/** URI paths: segments printed with a slash in front of each, and read back with `strtok`. */
module UriPaths {
  import opened Bytes
  import opened Text

  const URI_PATH_MAX_LENGTH := 256
  const SLASH := '/'

  datatype Uri = Strings(segments: seq<string>) | Integers(numbers: seq<int>)

  /** The test on the first byte of the first segment: its high half is that of the digits. */
  predicate LooksNumeric(c: char) { '0' <= c <= '?' }

  function Numbers(tokens: seq<string>, longMax: nat): (r: seq<int>)
    ensures |r| == |tokens|
  {
    seq(|tokens|, i requires 0 <= i < |tokens| => Strtol(tokens[i], longMax))
  }

  /** What a fresh object holds after reading `path`; `longMax` is the largest `long` of the host. */
  function ReadPath(path: string, longMax: nat): Option<Uri> {
    if |path| >= URI_PATH_MAX_LENGTH then None
    else
      var tokens := Tokens(CStr(path), SLASH);
      if tokens == [] then None
      else if tokens[0] != [] && LooksNumeric(tokens[0][0]) then Some(Integers(Numbers(tokens, longMax)))
      else Some(Strings(tokens))
  }

  function Printed(numbers: seq<int>): (r: seq<string>)
    ensures |r| == |numbers|
  {
    seq(|numbers|, i requires 0 <= i < |numbers| => ToString(numbers[i]))
  }

  function PrintPath(u: Uri): string {
    match u
    case Strings(segments) => Led(segments, SLASH)
    case Integers(numbers) => Led(Printed(numbers), SLASH)
  }

  predicate InLong(n: int, longMax: nat) { Negative(longMax + 1) <= n <= longMax }

  /** The segments that come back: none empty, none with a slash or a zero, the first not numeric. */
  predicate SegmentsSurvive(segments: seq<string>) {
    && segments != []
    && (forall t :: t in segments ==> IsToken(t, SLASH) && NUL !in t)
    && segments[0] in segments && !LooksNumeric(segments[0][0])
  }

  predicate UriSurvives(u: Uri) {
    && |PrintPath(u)| < URI_PATH_MAX_LENGTH
    && match u
       case Strings(segments) => SegmentsSurvive(segments)
       case Integers(numbers) => numbers != [] && numbers[0] >= 0
  }

  lemma {:induction false} LedClean(tokens: seq<string>, c: char, x: char)
    requires x != c
    ensures x !in Led(tokens, c) <==> forall t :: t in tokens ==> x !in t
  {
    if tokens != [] {
      LedClean(tokens[1..], c, x);
      assert tokens == [tokens[0]] + tokens[1..];
    }
  }

  /** Reading what was printed gives the segments back exactly if they survive. */
  lemma PathRoundTrip(u: Uri, longMax: nat)
    requires u.Integers? ==> forall i :: 0 <= i < |u.numbers| ==> InLong(u.numbers[i], longMax)
    ensures ReadPath(PrintPath(u), longMax) == Some(u) <==> UriSurvives(u)
  {
    var path := PrintPath(u);
    match u
    case Strings(segments) =>
      SegmentsComeBack(segments);
    case Integers(numbers) =>
      var printed := Printed(numbers);
      PrintedNumbers(numbers, longMax);
      SegmentsComeBack(printed);
      if numbers != [] {
        assert printed[0] in printed;
      }
      assert Numbers(Tokens(CStr(path), SLASH), longMax) == numbers;
  }

  /** The tokens of printed segments are the segments exactly if these are tokens without zeros. */
  lemma SegmentsComeBack(segments: seq<string>)
    ensures Tokens(CStr(Led(segments, SLASH)), SLASH) == segments
            <==> forall t :: t in segments ==> IsToken(t, SLASH) && NUL !in t
    ensures segments != [] ==> segments[0] in segments
  {
    var path := Led(segments, SLASH);
    CStrWhole(path);
    LedClean(segments, SLASH, NUL);
    TokensAreTokens(CStr(path), SLASH);
    TokensComeBack(segments, SLASH);
  }

  lemma PrintedNumbers(numbers: seq<int>, longMax: nat)
    requires forall i :: 0 <= i < |numbers| ==> InLong(numbers[i], longMax)
    ensures forall t :: t in Printed(numbers) ==> IsToken(t, SLASH) && NUL !in t
    ensures Numbers(Printed(numbers), longMax) == numbers
    ensures numbers != [] ==> (LooksNumeric(Printed(numbers)[0][0]) <==> numbers[0] >= 0)
  {
    forall i | 0 <= i < |numbers|
      ensures var t := Printed(numbers)[i];
              && IsToken(t, SLASH) && NUL !in t && Strtol(t, longMax) == numbers[i]
              && (LooksNumeric(t[0]) <==> numbers[i] >= 0)
    {
      PrintedChars(numbers[i]);
      StrtolPrinted(numbers[i], longMax);
      assert ToString(numbers[i])[0] in ToString(numbers[i]);
    }
  }

  /** What reading a path gives can be printed and read again, unless the printed path is too long. */
  lemma ReadPrintedAgain(path: string, longMax: nat)
    requires ReadPath(path, longMax).Some?
    ensures var u := ReadPath(path, longMax).value;
            ReadPath(PrintPath(u), longMax) == Some(u) <==> |PrintPath(u)| < URI_PATH_MAX_LENGTH
  {
    var u, tokens := ReadPath(path, longMax).value, Tokens(CStr(path), SLASH);
    TokensAreTokens(CStr(path), SLASH);
    CStrWhole(path);
    if u.Integers? {
      forall i | 0 <= i < |tokens| ensures InLong(Strtol(tokens[i], longMax), longMax) {
        StrtolInRange(tokens[i], longMax);
      }
      assert tokens[0] in tokens;
      NumericNotNegative(tokens[0], longMax);
    } else {
      assert tokens[0] in tokens;
      forall t | t in tokens ensures NUL !in t {}
    }
    PathRoundTrip(u, longMax);
  }

  lemma StrtolInRange(s: string, longMax: nat)
    ensures InLong(Strtol(s, longMax), longMax)
  {
  }

  lemma NumericNotNegative(s: string, longMax: nat)
    requires s != [] && LooksNumeric(s[0])
    ensures Strtol(s, longMax) >= 0
  {
  }

  /** A path of the greatest length without a slash in front is read, but its segments are not read again. */
  lemma LongestPathNotRepeated()
    ensures var path := seq(255, _ => 'a');
            && ReadPath(path, 0x7FFF_FFFF) == Some(Strings([path]))
            && ReadPath(PrintPath(Strings([path])), 0x7FFF_FFFF) == None
  {
    var path := seq(255, _ => 'a');
    assert NUL !in path && SLASH !in path && path[0] == 'a';
    CStrWhole(path);
    FirstToken(path, [], SLASH);
    assert path + [] == path;
    assert Tokens(path, SLASH) == [path] by { assert Tokens([], SLASH) == []; }
    assert [path][1..] == [];
    assert Led([path], SLASH) == [SLASH] + path;
    assert |Led([path], SLASH)| == 256;
  }

  /** The path object; both conversions append to what is there. */
  class UriPath {
    var path: string
    var isString: bool
    var segments: seq<string>
    var numbers: seq<int>
    const longMax: nat

    constructor (longMax: nat)
      ensures path == [] && !isString && segments == [] && numbers == [] && this.longMax == longMax
    {
      path, isString, segments, numbers := [], false, [], [];
      this.longMax := longMax;
    }

    ghost function Value(): Uri
      reads this
    {
      if isString then Strings(segments) else Integers(numbers)
    }

    method PathToUri() returns (ok: bool)
      modifies this`isString, this`segments, this`numbers
      ensures ok == ReadPath(path, longMax).Some?
      ensures !ok ==> unchanged(this)
      ensures ok ==>
                var u := ReadPath(path, longMax).value;
                && isString == u.Strings?
                && segments == old(segments) + (if u.Strings? then u.segments else [])
                && numbers == old(numbers) + (if u.Integers? then u.numbers else [])
    {
      hide Tokens, CStr, Strtol, LooksNumeric;
      if |path| >= URI_PATH_MAX_LENGTH {
        return false;
      }
      var buffer := CStr(path);
      ghost var tokens := Tokens(buffer, SLASH);
      assert buffer[0..] == buffer;
      var token, next := NextToken(buffer, 0, SLASH);
      if token.None? {
        return false;
      }
      TokensAreTokens(buffer, SLASH);
      assert tokens[0] == token.value && tokens[0] in tokens;
      isString := !LooksNumeric(token.value[0]);
      ghost var done: nat := 0;
      while token.Some?
        invariant 0 <= next <= |buffer| && done <= |tokens|
        invariant token.Some? ==> done < |tokens| && token.value == tokens[done]
                                  && tokens[done + 1..] == Tokens(buffer[next..], SLASH)
        invariant token.None? ==> done == |tokens|
        invariant segments == old(segments) + (if isString then tokens[..done] else [])
        invariant numbers == old(numbers) + (if isString then [] else Numbers(tokens, longMax)[..done])
        invariant isString == !LooksNumeric(tokens[0][0]) && path == old(path)
        decreases |tokens| - done
      {
        if isString {
          segments := segments + [token.value];
        } else {
          numbers := numbers + [Strtol(token.value, longMax)];
        }
        done := done + 1;
        token, next := NextToken(buffer, next, SLASH);
        assert token.Some? ==> tokens[done..][0] == token.value && tokens[done..][1..] == tokens[done + 1..];
      }
      assert tokens[..done] == tokens && Numbers(tokens, longMax)[..done] == Numbers(tokens, longMax);
      ok := true;
    }

    method UriToPath()
      modifies this`path
      ensures path == old(path) + PrintPath(Value())
    {
      if isString {
        AppendSegments(segments);
      } else {
        AppendSegments(Printed(numbers));
      }
    }

    /** The loop over the segments, a slash in front of each. */
    method AppendSegments(parts: seq<string>)
      modifies this`path
      ensures path == old(path) + Led(parts, SLASH)
    {
      ghost var whole := old(path) + Led(parts, SLASH);
      assert parts[0..] == parts;
      var i := 0;
      while i < |parts|
        invariant 0 <= i <= |parts|
        invariant path + Led(parts[i..], SLASH) == whole
      {
        LedNext(parts, i, path);
        path := path + [SLASH];
        path := path + parts[i];
        i := i + 1;
      }
      assert parts[i..] == [];
      assert path + [] == path;
    }
  }

  lemma LedNext(parts: seq<string>, i: nat, path: string)
    requires i < |parts|
    ensures path + Led(parts[i..], SLASH) == path + [SLASH] + parts[i] + Led(parts[i + 1..], SLASH)
  {
    assert parts[i..][1..] == parts[i + 1..];
  }
}
