/**
 * The string primitives the handlers use: Python's `str.strip()`,
 * `str.lstrip(chars)` and `str.isdigit()`, restricted to ASCII.
 */
module Text {

  /**
   * The ASCII characters for which Python's `str.isspace()` holds, i.e. what `strip()` removes: the
   * space, tab through carriage return (9 to 13) and the four separators 28 to 31.
   */
  predicate IsSpace(c: char)
  {
    c == ' ' || '\t' <= c <= '\r' || '\U{1C}' <= c <= '\U{1F}'
  }

  const Whitespace: set<char> := set c: char | IsSpace(c)

  /** `s.lstrip(drop)`: the longest suffix of `s` that does not start with a character of `drop`. */
  function TrimLeft(s: string, drop: set<char>): (r: string)
    ensures |r| <= |s| && r == s[|s| - |r|..]
    ensures forall i :: 0 <= i < |s| - |r| ==> s[i] in drop
    ensures r == [] || r[0] !in drop
  {
    if s != [] && s[0] in drop then TrimLeft(s[1..], drop) else s
  }

  /** `s.rstrip(drop)`: the longest prefix of `s` that does not end with a character of `drop`. */
  function TrimRight(s: string, drop: set<char>): (r: string)
    ensures |r| <= |s| && r == s[..|r|]
    ensures forall i :: |r| <= i < |s| ==> s[i] in drop
    ensures r == [] || r[|r| - 1] !in drop
  {
    if s != [] && s[|s| - 1] in drop then TrimRight(s[..|s| - 1], drop) else s
  }

  /** `s.strip()`. */
  function Strip(s: string): string
  {
    TrimRight(TrimLeft(s, Whitespace), Whitespace)
  }

  /** A string with no whitespace at either end is its own `strip()`. */
  lemma StripNoop(s: string)
    requires s == [] || (s[0] !in Whitespace && s[|s| - 1] !in Whitespace)
    ensures Strip(s) == s
  {
    assert TrimLeft(s, Whitespace) == s;
  }

  /** A string with no whitespace at either end, followed by one newline, strips back to itself. */
  lemma StripNewline(s: string)
    requires s != [] && s[0] !in Whitespace && s[|s| - 1] !in Whitespace
    ensures Strip(s + "\n") == s
  {
    var p := s + "\n";
    assert p[0] == s[0];
    assert TrimLeft(p, Whitespace) == p;
    assert p[|p| - 1] in Whitespace && p[..|p| - 1] == s;
    assert TrimRight(p, Whitespace) == TrimRight(s, Whitespace);
    StripNoop(s);
  }

  /** `strip()` leaves no whitespace at either end of its result, never grows, and is idempotent. */
  lemma StripSpec(s: string)
    ensures |Strip(s)| <= |s|
    ensures Strip(s) == [] || (Strip(s)[0] !in Whitespace && Strip(s)[|Strip(s)| - 1] !in Whitespace)
    ensures Strip(Strip(s)) == Strip(s)
  {
    var l := TrimLeft(s, Whitespace);
    var r := TrimRight(l, Whitespace);
    if r != [] {
      assert r[0] !in Whitespace by {
        assert r == l[..|r|];
        assert r[0] == l[0];
      }
    }
    StripNoop(r);
  }

  predicate IsDigit(c: char)
  {
    '0' <= c <= '9'
  }

  /** `s.isdigit()` for ASCII, except that it also holds of the empty string. */
  predicate AllDigits(s: string)
  {
    forall i :: 0 <= i < |s| ==> IsDigit(s[i])
  }
}
