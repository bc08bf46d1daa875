/**
 * The few JavaScript string operations the core relies on: `trim`, `startsWith`,
 * `endsWith` and `indexOf`, over `string` (a sequence of UTF-16 code units in the
 * source, of characters here).
 */
module Text {

  /**
   * The characters `String.prototype.trim` removes: ECMAScript's WhiteSpace
   * (tab, vertical tab, form feed, space, no-break space, byte order mark and the
   * Unicode space separators) and LineTerminator (LF, CR, line and paragraph separator).
   */
  predicate IsWhitespace(c: char) {
    || c == '\t' || c == '\n' || c == '\U{000B}' || c == '\U{000C}' || c == '\r' || c == ' '
    || c == '\U{00A0}' || c == '\U{1680}' || ('\U{2000}' <= c <= '\U{200A}')
    || c == '\U{2028}' || c == '\U{2029}' || c == '\U{202F}' || c == '\U{205F}'
    || c == '\U{3000}' || c == '\U{FEFF}'
  }

  predicate AllWhitespace(s: string) {
    forall k | 0 <= k < |s| :: IsWhitespace(s[k])
  }

  /** `s` without its leading whitespace. */
  function TrimStart(s: string): string {
    if s != [] && IsWhitespace(s[0]) then TrimStart(s[1..]) else s
  }

  /** `s` without its trailing whitespace. */
  function TrimEnd(s: string): string {
    if s != [] && IsWhitespace(s[|s| - 1]) then TrimEnd(s[..|s| - 1]) else s
  }

  /** `s.trim()`. */
  function Trim(s: string): string {
    TrimEnd(TrimStart(s))
  }

  /** `TrimStart` keeps the longest suffix of `s` that does not start with whitespace. */
  lemma {:induction false} TrimStartShape(s: string)
    ensures var r := TrimStart(s);
      && |r| <= |s| && r == s[|s| - |r|..]
      && AllWhitespace(s[..|s| - |r|])
      && (r != [] ==> !IsWhitespace(r[0]))
    decreases |s|
  {
    if s != [] && IsWhitespace(s[0]) {
      TrimStartShape(s[1..]);
      var r := TrimStart(s);
      assert s[1..][|s| - 1 - |r|..] == s[|s| - |r|..];
      assert s[..|s| - |r|] == [s[0]] + s[1..][..|s| - 1 - |r|];
    } else {
      assert s[..0] == [];
    }
  }

  /** `TrimEnd` keeps the longest prefix of `s` that does not end with whitespace. */
  lemma {:induction false} TrimEndShape(s: string)
    ensures var r := TrimEnd(s);
      && |r| <= |s| && r == s[..|r|]
      && AllWhitespace(s[|r|..])
      && (r != [] ==> !IsWhitespace(r[|r| - 1]))
    decreases |s|
  {
    if s != [] && IsWhitespace(s[|s| - 1]) {
      var t := s[..|s| - 1];
      TrimEndShape(t);
      var r := TrimEnd(s);
      assert t[..|r|] == s[..|r|];
      assert forall k | |r| <= k < |s| :: s[k] == if k == |s| - 1 then s[|s| - 1] else t[|r|..][k - |r|];
    } else {
      assert s[|s|..] == [];
    }
  }

  /** What `trim()` keeps starts and ends with a non-whitespace character. */
  lemma TrimShape(s: string)
    ensures |Trim(s)| <= |s|
    ensures Trim(s) != [] ==> !IsWhitespace(Trim(s)[0]) && !IsWhitespace(Trim(s)[|Trim(s)| - 1])
  {
    TrimStartShape(s);
    TrimEndShape(TrimStart(s));
    var t, r := TrimStart(s), Trim(s);
    if r != [] {
      assert r[0] == t[0];
    }
  }

  /** An input is blank after `trim()` exactly when every character of it is whitespace. */
  lemma TrimEmptyIff(s: string)
    ensures Trim(s) == [] <==> AllWhitespace(s)
  {
    TrimStartShape(s);
    TrimEndShape(TrimStart(s));
    var t := TrimStart(s);
    if t == [] {
      assert s[..|s|] == s;
    } else {
      assert t[0] == s[|s| - |t|];
    }
  }

  /** Trimming takes out only whitespace: what it keeps is a contiguous piece of `s`, surrounded by whitespace. */
  lemma TrimIsInfix(s: string)
    ensures exists lead | 0 <= lead <= |s| - |Trim(s)| ::
      && s[lead..lead + |Trim(s)|] == Trim(s)
      && AllWhitespace(s[..lead])
      && AllWhitespace(s[lead + |Trim(s)|..])
  {
    TrimStartShape(s);
    TrimEndShape(TrimStart(s));
    var t := TrimStart(s);
    var lead := |s| - |t|;
    var r := Trim(s);
    assert s[lead..] == t;
    assert t[..|r|] == r;
    assert s[lead..lead + |r|] == r;
    assert s[lead + |r|..] == t[|r|..];
  }

  /** Trimming twice is trimming once. */
  lemma TrimIdempotent(s: string)
    ensures Trim(Trim(s)) == Trim(s)
  {
    var r := Trim(s);
    TrimShape(s);
    assert TrimStart(r) == r;
    assert TrimEnd(r) == r;
  }

  /** A whitespace character at the end does not change what `trim()` returns. */
  lemma {:induction false} TrimEndIgnoresWhitespace(s: string, c: char)
    requires IsWhitespace(c)
    ensures TrimEnd(s + [c]) == TrimEnd(s)
  {
    assert (s + [c])[..|s + [c]| - 1] == s;
  }

  lemma {:induction false} TrimStartAppend(s: string, c: char)
    requires IsWhitespace(c)
    ensures TrimStart(s + [c]) == TrimStart(s) + [c] || (TrimStart(s) == [] && TrimStart(s + [c]) == [])
    decreases |s|
  {
    if s != [] && IsWhitespace(s[0]) {
      assert (s + [c])[1..] == s[1..] + [c];
      TrimStartAppend(s[1..], c);
    } else if s == [] {
      assert TrimStart([c][1..]) == [];
    }
  }

  /** `(s + "\r").trim()` equals `s.trim()`, and likewise for any trailing whitespace character. */
  lemma TrimIgnoresTrailingWhitespace(s: string, c: char)
    requires IsWhitespace(c)
    ensures Trim(s + [c]) == Trim(s)
  {
    TrimStartAppend(s, c);
    if TrimStart(s + [c]) == TrimStart(s) + [c] {
      TrimEndIgnoresWhitespace(TrimStart(s), c);
    }
  }

  /** `s.startsWith(p)`. */
  predicate StartsWith(s: string, p: string) {
    |p| <= |s| && s[..|p|] == p
  }

  /** `s.endsWith(p)`. */
  predicate EndsWith(s: string, p: string) {
    |p| <= |s| && s[|s| - |p|..] == p
  }

  /** `startsWith` holds exactly when `s` is `p` followed by something. */
  lemma StartsWithIff(s: string, p: string)
    ensures StartsWith(s, p) <==> exists t :: s == p + t
  {
    if StartsWith(s, p) {
      assert s == p + s[|p|..];
    }
    if exists t :: s == p + t {
      var t :| s == p + t;
      assert s[..|p|] == p;
    }
  }

  /** `endsWith` holds exactly when `s` is something followed by `p`. */
  lemma EndsWithIff(s: string, p: string)
    ensures EndsWith(s, p) <==> exists t :: s == t + p
  {
    if EndsWith(s, p) {
      assert s == s[..|s| - |p|] + p;
    }
    if exists t :: s == t + p {
      var t :| s == t + p;
      assert s[|t|..] == p;
    }
  }

  /** `s.indexOf(c)`: the index of the first `c` in `s`, or -1 when there is none. */
  function IndexOf(s: string, c: char): (i: int)
    ensures -1 <= i < |s|
  {
    if s == [] then -1
    else if s[0] == c then 0
    else
      var j := IndexOf(s[1..], c);
      if j == -1 then -1 else j + 1
  }

  /** `indexOf` gives -1 exactly when `c` does not occur, and otherwise the index of its first occurrence. */
  lemma {:induction false} IndexOfFinds(s: string, c: char)
    ensures var i := IndexOf(s, c);
      && (i == -1 <==> c !in s)
      && (0 <= i ==> s[i] == c && c !in s[..i])
    decreases |s|
  {
    if s != [] && s[0] != c {
      IndexOfFinds(s[1..], c);
      var j := IndexOf(s[1..], c);
      assert c in s <==> c in s[1..] by {
        assert s == [s[0]] + s[1..];
      }
      if j != -1 {
        assert s[..j + 1] == [s[0]] + s[1..][..j];
      }
    }
  }

  /** Searching `a + b` finds the first `c` of `a` when `a` has one, and otherwise searches `b`. */
  lemma {:induction false} IndexOfAppend(a: string, b: string, c: char)
    ensures IndexOf(a + b, c) ==
      if IndexOf(a, c) != -1 then IndexOf(a, c)
      else if IndexOf(b, c) != -1 then |a| + IndexOf(b, c)
      else -1
    decreases |a|
  {
    if a == [] {
      assert a + b == b;
    } else if a[0] != c {
      assert (a + b)[1..] == a[1..] + b;
      IndexOfAppend(a[1..], b, c);
    }
  }
}
