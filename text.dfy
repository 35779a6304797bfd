/**
 * The Python string operations the pipeline relies on: `startswith`, `in`
 * (substring), `replace` (all occurrences, left to right), `strip()`,
 * `strip(ch)` and `sep.join(parts)`.
 */
module Text {

  predicate StartsWith(s: string, p: string) {
    |p| <= |s| && s[..|p|] == p
  }

  /** Python's `p in s`. */
  predicate Contains(s: string, p: string)
    decreases |s|
  {
    StartsWith(s, p) || (|s| > 0 && Contains(s[1..], p))
  }

  lemma StartsWithConcat(p: string, rest: string)
    ensures StartsWith(p + rest, p)
  {
    assert (p + rest)[..|p|] == p;
  }

  lemma StartsWithTrans(a: string, b: string, c: string)
    requires StartsWith(a, b) && StartsWith(b, c)
    ensures StartsWith(a, c)
  {
    assert a[..|c|] == a[..|b|][..|c|];
  }

  /** A one-character pattern occurs exactly when the character does. */
  lemma {:induction false} ContainsChar(s: string, c: char)
    ensures Contains(s, [c]) <==> c in s
  {
    if |s| > 0 {
      ContainsChar(s[1..], c);
      assert s == [s[0]] + s[1..];
    }
  }

  /** Python's `s.replace(pat, rep)` for a non-empty pattern. */
  function ReplaceAll(s: string, pat: string, rep: string): string
    requires |pat| > 0
    decreases |s|
  {
    if |s| < |pat| then s
    else if s[..|pat|] == pat then rep + ReplaceAll(s[|pat|..], pat, rep)
    else [s[0]] + ReplaceAll(s[1..], pat, rep)
  }

  /** Replacing a pattern that does not occur changes nothing. */
  lemma {:induction false} ReplaceAbsent(s: string, pat: string, rep: string)
    requires |pat| > 0
    requires !Contains(s, pat)
    ensures ReplaceAll(s, pat, rep) == s
    decreases |s|
  {
    if |s| >= |pat| {
      assert !StartsWith(s, pat);
      ReplaceAbsent(s[1..], pat, rep);
      assert s == [s[0]] + s[1..];
    }
  }

  /**
   * Replacing a single character by text that lacks it removes every
   * occurrence; any other character is present afterwards exactly when it was
   * present before or comes from the replacement.
   */
  lemma {:induction false} ReplaceCharSpec(s: string, c: char, rep: string, d: char)
    requires c !in rep
    ensures c !in ReplaceAll(s, [c], rep)
    ensures d != c ==> (d in ReplaceAll(s, [c], rep) <==> d in s || (c in s && d in rep))
    decreases |s|
  {
    if |s| >= 1 {
      ReplaceCharSpec(s[1..], c, rep, d);
      assert s == [s[0]] + s[1..];
      assert s[..1] == [s[0]];
    }
  }

  /** Deleting a character keeps a first and a last character that differ from it. */
  lemma {:induction false} DeleteCharEnds(s: string, c: char)
    requires s != [] && s[0] != c && s[|s| - 1] != c
    ensures var r := ReplaceAll(s, [c], "");
      r != [] && r[0] == s[0] && r[|r| - 1] == s[|s| - 1]
    decreases |s|
  {
    assert s[..1] == [s[0]];
    if |s| > 1 {
      var tail := s[1..];
      var rt := ReplaceAll(tail, [c], "");
      assert ReplaceAll(s, [c], "") == [s[0]] + rt;
      if tail[0] != c {
        DeleteCharEnds(tail, c);
      } else {
        DeleteCharLast(tail, c);
      }
    }
  }

  lemma {:induction false} DeleteCharLast(s: string, c: char)
    requires s != [] && s[|s| - 1] != c
    ensures var r := ReplaceAll(s, [c], "");
      r != [] && r[|r| - 1] == s[|s| - 1]
    decreases |s|
  {
    assert s[..1] == [s[0]];
    if |s| > 1 {
      DeleteCharLast(s[1..], c);
    }
  }

  /**
   * Replacing a character by non-empty text: the result starts (ends) with the
   * replacement's first (last) character when the text started (ended) with
   * the replaced one, and with the text's own character otherwise.
   */
  lemma {:induction false} ReplaceCharEnds(s: string, c: char, rep: string)
    requires s != [] && rep != []
    ensures var r := ReplaceAll(s, [c], rep);
      && r != []
      && r[0] == (if s[0] == c then rep[0] else s[0])
      && r[|r| - 1] == (if s[|s| - 1] == c then rep[|rep| - 1] else s[|s| - 1])
    decreases |s|
  {
    assert s[..1] == [s[0]];
    if |s| > 1 {
      ReplaceCharEnds(s[1..], c, rep);
    }
  }

  /** Python's `str.isspace()` for one character. */
  predicate IsSpace(c: char) {
    || c == ' ' || c == '\t' || c == '\n' || c == '\r' || c == '\U{000B}' || c == '\U{000C}'
    || ('\U{001C}' <= c <= '\U{001F}') || c == '\U{0085}' || c == '\U{00A0}' || c == '\U{1680}'
    || ('\U{2000}' <= c <= '\U{200A}') || c == '\U{2028}' || c == '\U{2029}' || c == '\U{202F}'
    || c == '\U{205F}' || c == '\U{3000}'
  }

  function StripLeft(s: string): (r: string)
    ensures |r| <= |s| && r == s[|s| - |r|..]
    ensures r != [] ==> !IsSpace(r[0])
    decreases |s|
  {
    if s != [] && IsSpace(s[0]) then StripLeft(s[1..]) else s
  }

  function StripRight(s: string): (r: string)
    ensures |r| <= |s| && r == s[..|r|]
    ensures r != [] ==> !IsSpace(r[|r| - 1])
    decreases |s|
  {
    if s != [] && IsSpace(s[|s| - 1]) then StripRight(s[..|s| - 1]) else s
  }

  /** Python's `s.strip()`. */
  function Strip(s: string): (r: string)
    ensures r != [] ==> !IsSpace(r[0]) && !IsSpace(r[|r| - 1])
  {
    var l := StripLeft(s);
    var r := StripRight(l);
    assert r != [] ==> r[0] == l[0];
    r
  }

  /** Text with no white space at either end is its own strip. */
  lemma StripNoop(s: string)
    requires s != [] ==> !IsSpace(s[0]) && !IsSpace(s[|s| - 1])
    ensures Strip(s) == s
  {
  }

  /** Python's `s.strip(ch)`: trim one character from both ends. */
  function TrimChar(s: string, ch: char): (r: string)
    ensures r != [] ==> r[0] != ch && r[|r| - 1] != ch
    decreases |s|
  {
    if s != [] && s[0] == ch then TrimChar(s[1..], ch)
    else if s != [] && s[|s| - 1] == ch then TrimChar(s[..|s| - 1], ch)
    else s
  }

  /** Python's `sep.join(parts)`. */
  function Join(parts: seq<string>, sep: string): string {
    if parts == [] then ""
    else if |parts| == 1 then parts[0]
    else parts[0] + sep + Join(parts[1..], sep)
  }

  /** Occurrences of a character. */
  function CountChar(s: string, c: char): (n: nat)
    ensures n <= |s|
    ensures n == 0 <==> c !in s
  {
    if s == [] then 0 else (if s[0] == c then 1 else 0) + CountChar(s[1..], c)
  }

  lemma {:induction false} CountCharConcat(a: string, b: string, c: char)
    ensures CountChar(a + b, c) == CountChar(a, c) + CountChar(b, c)
  {
    if a != [] {
      assert (a + b)[1..] == a[1..] + b;
      CountCharConcat(a[1..], b, c);
    } else {
      assert a + b == b;
    }
  }

  /**
   * Joining non-empty parts that do not contain the one-character separator
   * gives text with one separator fewer than parts, empty exactly when there
   * are no parts.
   */
  lemma {:induction false} JoinCount(parts: seq<string>, sep: char)
    requires forall i :: 0 <= i < |parts| ==> parts[i] != "" && sep !in parts[i]
    ensures parts == [] <==> Join(parts, [sep]) == ""
    ensures parts != [] ==> CountChar(Join(parts, [sep]), sep) == |parts| - 1
  {
    if |parts| > 1 {
      JoinCount(parts[1..], sep);
      var rest := Join(parts[1..], [sep]);
      CountCharConcat(parts[0], [sep], sep);
      CountCharConcat(parts[0] + [sep], rest, sep);
      assert CountChar(parts[0], sep) == 0;
    } else if |parts| == 1 {
      assert CountChar(parts[0], sep) == 0;
    }
  }
}
