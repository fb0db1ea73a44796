/**
 * Python's str.split(sep) with an explicit one-character separator, and
 * str.strip() with no argument, over strings as sequences of characters.
 */
module PyStrings {

  /**
   * The characters for which Python's str.isspace() holds, which are the
   * ones str.strip() removes: tab through carriage return, the four
   * information separators, space, next line, no-break space, and the
   * Unicode space and line/paragraph separators.
   */
  predicate IsSpace(c: char) {
    || ('\U{0009}' <= c <= '\U{000D}')
    || ('\U{001C}' <= c <= '\U{001F}')
    || c == ' ' || c == '\U{0085}' || c == '\U{00A0}' || c == '\U{1680}'
    || ('\U{2000}' <= c <= '\U{200A}')
    || c == '\U{2028}' || c == '\U{2029}' || c == '\U{202F}' || c == '\U{205F}' || c == '\U{3000}'
  }

  /** s with its leading whitespace removed. */
  function StripLeft(s: string): (r: string)
    ensures |r| <= |s| && r == s[|s| - |r|..]
    ensures r == [] || !IsSpace(r[0])
    ensures forall i :: 0 <= i < |s| - |r| ==> IsSpace(s[i])
  {
    if s != [] && IsSpace(s[0]) then StripLeft(s[1..]) else s
  }

  /** s with its trailing whitespace removed. */
  function StripRight(s: string): (r: string)
    ensures |r| <= |s| && r == s[..|r|]
    ensures r == [] || !IsSpace(r[|r| - 1])
    ensures forall i :: |r| <= i < |s| ==> IsSpace(s[i])
  {
    if s != [] && IsSpace(s[|s| - 1]) then StripRight(s[..|s| - 1]) else s
  }

  /** str.strip(): s without leading and trailing whitespace. */
  function Strip(s: string): string {
    StripRight(StripLeft(s))
  }

  /** Everything of s outside s[a..b] is whitespace. */
  predicate OnlySpaceAround(s: string, a: nat, b: nat)
    requires a <= b <= |s|
  {
    (forall i :: 0 <= i < a ==> IsSpace(s[i])) && (forall i :: b <= i < |s| ==> IsSpace(s[i]))
  }

  /**
   * The stripped string is a contiguous piece of s, and everything cut off
   * around it is whitespace.
   */
  lemma StripPiece(s: string)
    ensures exists a: nat, b: nat :: a <= b <= |s| && Strip(s) == s[a..b] && OnlySpaceAround(s, a, b)
  {
    var a, b := StripBounds(s);
  }

  /** Where the stripped string sits in s. */
  lemma StripBounds(s: string) returns (a: nat, b: nat)
    ensures a <= b <= |s| && Strip(s) == s[a..b] && OnlySpaceAround(s, a, b)
  {
    var l := StripLeft(s);
    var r := StripRight(l);
    a := |s| - |l|;
    b := a + |r|;
    PieceAround(s, l, r);
  }

  /**
   * A prefix r of a suffix l of s, where the cut parts are whitespace, is the
   * piece s[|s| - |l|..|s| - |l| + |r|] with only whitespace around it.
   */
  lemma PieceAround(s: string, l: string, r: string)
    requires |l| <= |s| && l == s[|s| - |l|..] && forall i :: 0 <= i < |s| - |l| ==> IsSpace(s[i])
    requires |r| <= |l| && r == l[..|r|] && forall i :: |r| <= i < |l| ==> IsSpace(l[i])
    ensures r == s[|s| - |l|..|s| - |l| + |r|] && OnlySpaceAround(s, |s| - |l|, |s| - |l| + |r|)
  {
    var a := |s| - |l|;
    forall i | a + |r| <= i < |s|
      ensures IsSpace(s[i])
    {
      assert s[i] == l[i - a];
    }
  }

  /** The stripped string neither starts nor ends with whitespace, so stripping again changes nothing. */
  lemma StripIdempotent(s: string)
    ensures Strip(s) == [] || (!IsSpace(Strip(s)[0]) && !IsSpace(Strip(s)[|Strip(s)| - 1]))
    ensures Strip(Strip(s)) == Strip(s)
  {
    var l := StripLeft(s);
    var r := StripRight(l);
    if r != [] {
      assert r[0] == l[0];
      assert StripLeft(r) == r;
    }
  }

  /** A string that neither starts nor ends with whitespace is its own strip. */
  lemma StripKeeps(s: string)
    requires s != [] && !IsSpace(s[0]) && !IsSpace(s[|s| - 1])
    ensures Strip(s) == s
  {
    assert StripLeft(s) == s;
  }

  /** Leading whitespace is dropped by the strip. */
  lemma StripDropsLeading(c: char, s: string)
    requires IsSpace(c)
    ensures Strip([c] + s) == Strip(s)
  {
    assert ([c] + s)[1..] == s;
  }

  /** The number of occurrences of c in s. */
  function Count(s: string, c: char): nat {
    if s == [] then 0 else (if s[0] == c then 1 else 0) + Count(s[1..], c)
  }

  /** str.split(sep): the pieces between occurrences of sep, empty ones included. */
  function Split(s: string, sep: char): (r: seq<string>)
    ensures |r| >= 1
  {
    if s == [] then [[]]
    else
      var rest := Split(s[1..], sep);
      if s[0] == sep then [[]] + rest else [[s[0]] + rest[0]] + rest[1..]
  }

  /** sep.join(parts). */
  function Join(parts: seq<string>, sep: char): string
    requires |parts| >= 1
  {
    if |parts| == 1 then parts[0] else parts[0] + [sep] + Join(parts[1..], sep)
  }

  /**
   * Splitting yields one more piece than there are separators, no piece
   * contains the separator, and joining the pieces back gives s.
   */
  lemma {:induction false} SplitJoin(s: string, sep: char)
    ensures |Split(s, sep)| == Count(s, sep) + 1
    ensures forall i :: 0 <= i < |Split(s, sep)| ==> sep !in Split(s, sep)[i]
    ensures Join(Split(s, sep), sep) == s
  {
    if s != [] {
      var rest := Split(s[1..], sep);
      SplitJoin(s[1..], sep);
      assert s == [s[0]] + s[1..];
      if s[0] == sep {
        assert Split(s, sep)[1..] == rest;
      } else {
        var r := Split(s, sep);
        assert r[0] == [s[0]] + rest[0];
        if |rest| == 1 {
          assert Join(r, sep) == r[0];
        } else {
          assert r[1..] == rest[1..];
          assert Join(rest, sep) == rest[0] + [sep] + Join(rest[1..], sep);
          assert Join(r, sep) == r[0] + [sep] + Join(rest[1..], sep);
        }
        forall i | 0 <= i < |r|
          ensures sep !in r[i]
        {
          if i == 0 {
            assert r[0] == [s[0]] + rest[0];
          } else {
            assert r[i] == rest[i];
          }
        }
      }
    }
  }

  /** A first character other than the separator joins the first piece of the rest. */
  lemma SplitCons(c: char, s: string, sep: char)
    requires c != sep
    ensures Split([c] + s, sep) == [[c] + Split(s, sep)[0]] + Split(s, sep)[1..]
  {
    assert ([c] + s)[0] == c && ([c] + s)[1..] == s;
  }

  /** A string without the separator splits into itself alone. */
  lemma SplitNoSeparator(s: string, sep: char)
    requires sep !in s
    ensures Split(s, sep) == [s]
  {
    SplitJoin(s, sep);
    assert Join(Split(s, sep), sep) == Split(s, sep)[0];
  }
}
