/** URI paths in literal terms: how a path grows segment by segment, and what any path is read as. */
module UriFormat {
  import opened Bytes
  import opened Text
  import opened TextFormat
  import opened UriPaths

  /** The separated segments, one more on the right. */
  lemma {:induction false} LedOn(segments: seq<string>, s: string)
    ensures Led([], '/') == "" && Led(segments + [s], '/') == Led(segments, '/') + "/" + s
  {
    if segments == [] {
      assert segments + [s] == [s] && [s][1..] == [];
    } else {
      LedOn(segments[1..], s);
      assert (segments + [s])[1..] == segments[1..] + [s];
    }
  }

  /** Each segment is printed behind the previous ones, a slash in front of it. */
  lemma PrintsStrings(segments: seq<string>, s: string)
    ensures PrintPath(Strings([])) == ""
    ensures PrintPath(Strings(segments + [s])) == PrintPath(Strings(segments)) + "/" + s
  {
    LedOn(segments, s);
  }

  /** Each number is printed behind the previous ones as its numeral, a slash in front of it. */
  lemma PrintsIntegers(numbers: seq<int>, n: int, numeral: string)
    requires IsNumeral(numeral, n)
    ensures PrintPath(Integers([])) == ""
    ensures PrintPath(Integers(numbers + [n])) == PrintPath(Integers(numbers)) + "/" + numeral
  {
    hide ToString, IsNumeral;
    PrintsNumeral(numeral, n);
    assert Printed(numbers + [n]) == Printed(numbers) + [numeral];
    assert Printed([]) == [];
    LedOn(Printed(numbers), numeral);
  }

  /** A path of at most 255 characters with a segment; the first character of all decides about numbers. */
  lemma ReadsPath(path: string, longMax: nat)
    ensures var t, r := Tokens(CStr(path), '/'), ReadPath(path, longMax);
            && (r.Some? <==> |path| <= 255 && t != [])
            && (t != [] ==> t[0] != [])
            && (r.Some? ==> (r.value.Integers? <==> 48 <= t[0][0] as int <= 63))
            && (r.Some? && r.value.Strings? ==> r.value.segments == t)
            && (r.Some? && r.value.Integers? ==>
                  && |r.value.numbers| == |t|
                  && forall i :: 0 <= i < |t| ==> r.value.numbers[i] == Strtol(t[i], longMax))
  {
    hide Tokens, CStr, Strtol;
    TokensAreTokens(CStr(path), '/');
    var t := Tokens(CStr(path), '/');
    if t != [] {
      assert t[0] in t;
    }
  }

  /** Slashes may be repeated, and those at the ends do not matter. */
  lemma ReadsSlashes(longMax: nat)
    ensures ReadPath("a//b/", longMax) == Some(Strings(["a", "b"]))
  {
    hide Tokens, CStr;
    var path := "a//b/";
    CStrWhole(path);
    assert path == "a" + ['/'] + "/b/" && "/b/" == "" + ['/'] + "b/" && "b/" == "b" + ['/'] + "";
    TokensSplit("a", "/b/", '/');
    TokensSplit("", "b/", '/');
    TokensSplit("b", "", '/');
    TokensWithin("a", '/');
    TokensWithin("b", '/');
    TokensWithin("", '/');
    assert Tokens(path, '/') == ["a", "b"];
  }
}
