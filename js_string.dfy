/** The three JavaScript string operations the search box depends on:
    `toLowerCase`, `trim` and `includes`, each with an independent
    characterisation proved about it. */
module JsString {

  /** Lower-case mapping of one character. Only the ASCII letters A-Z are
      mapped; every other character is left as it is. */
  function Lower(c: char): (r: char)
    ensures !('A' <= r <= 'Z')
    ensures r == c || ('A' <= c <= 'Z' && r as int == c as int + 32)
  {
    if 'A' <= c <= 'Z' then (c as int + 32) as char else c
  }

  /** `s.toLowerCase()`: the same length, no upper-case ASCII letter left,
      and each character either kept or, for A-Z, shifted to its lower-case
      letter. */
  function ToLower(s: string): (r: string)
    ensures |r| == |s|
    ensures forall i :: 0 <= i < |r| ==> !('A' <= r[i] <= 'Z')
    ensures forall i :: 0 <= i < |s| ==>
              r[i] == s[i] || ('A' <= s[i] <= 'Z' && r[i] as int == s[i] as int + 32)
  {
    seq(|s|, i requires 0 <= i < |s| => Lower(s[i]))
  }

  /** Lower-casing twice is lower-casing once. */
  lemma ToLowerIdempotent(s: string)
    ensures ToLower(ToLower(s)) == ToLower(s)
  {
    var t := ToLower(s);
    assert forall i :: 0 <= i < |t| ==> Lower(t[i]) == t[i];
  }

  /** Lower-casing works character by character, so it distributes over
      concatenation. */
  lemma ToLowerAppend(a: string, b: string)
    ensures ToLower(a + b) == ToLower(a) + ToLower(b)
  {
    assert forall i :: 0 <= i < |a| ==> (a + b)[i] == a[i];
    assert forall i :: |a| <= i < |a| + |b| ==> (a + b)[i] == b[i - |a|];
  }

  /** The characters `String.prototype.trim` removes: the ECMAScript
      WhiteSpace set (tab, vertical tab, form feed, space, no-break space,
      the byte order mark and the Unicode space separators) and the
      LineTerminator set (line feed, carriage return, line and paragraph
      separators). Among the ASCII characters these are exactly the space
      and tab through carriage return. */
  predicate IsWhitespace(c: char)
    ensures c as int < 128 ==> (IsWhitespace(c) <==> c == ' ' || '\t' <= c <= '\r')
  {
    c == '\t' || c == '\n' || c == '\U{000B}' || c == '\U{000C}' || c == '\r' ||
    c == ' ' || c == '\U{00A0}' || c == '\U{1680}' ||
    ('\U{2000}' <= c <= '\U{200A}') ||
    c == '\U{2028}' || c == '\U{2029}' || c == '\U{202F}' || c == '\U{205F}' ||
    c == '\U{3000}' || c == '\U{FEFF}'
  }

  predicate AllWhitespace(s: string)
  {
    forall i :: 0 <= i < |s| ==> IsWhitespace(s[i])
  }

  /** Drops the leading whitespace. */
  function TrimStart(s: string): string
  {
    if s != [] && IsWhitespace(s[0]) then TrimStart(s[1..]) else s
  }

  /** Drops the trailing whitespace. */
  function TrimEnd(s: string): string
  {
    if s != [] && IsWhitespace(s[|s| - 1]) then TrimEnd(s[..|s| - 1]) else s
  }

  /** `s.trim()`: what is left is no longer and neither starts nor ends
      with whitespace. */
  function Trim(s: string): (r: string)
    ensures |r| <= |s|
    ensures r != [] ==> !IsWhitespace(r[0]) && !IsWhitespace(r[|r| - 1])
  {
    TrimStartKeepsSuffix(s);
    TrimEndKeepsPrefix(TrimStart(s));
    TrimEnd(TrimStart(s))
  }

  /** `TrimStart` keeps the suffix of `s` that starts at its first
      non-whitespace character. */
  lemma {:induction false} TrimStartKeepsSuffix(s: string)
    ensures |TrimStart(s)| <= |s| && TrimStart(s) == s[|s| - |TrimStart(s)|..]
    ensures AllWhitespace(s[..|s| - |TrimStart(s)|])
    ensures TrimStart(s) != [] ==> !IsWhitespace(TrimStart(s)[0])
  {
    if s != [] && IsWhitespace(s[0]) {
      TrimStartKeepsSuffix(s[1..]);
    }
  }

  /** `TrimEnd` keeps the prefix of `s` that ends at its last non-whitespace
      character. */
  lemma {:induction false} TrimEndKeepsPrefix(s: string)
    ensures |TrimEnd(s)| <= |s| && TrimEnd(s) == s[..|TrimEnd(s)|]
    ensures AllWhitespace(s[|TrimEnd(s)|..])
    ensures TrimEnd(s) != [] ==> !IsWhitespace(TrimEnd(s)[|TrimEnd(s)| - 1])
  {
    if s != [] && IsWhitespace(s[|s| - 1]) {
      TrimEndKeepsPrefix(s[..|s| - 1]);
      var k := |TrimEnd(s)|;
      forall i | k <= i < |s| - 1 ensures IsWhitespace(s[i]) {
        assert s[i] == s[..|s| - 1][k..][i - k];
      }
    }
  }

  /** Trimming leaves nothing exactly when every character is whitespace. */
  lemma TrimEmptyIff(s: string)
    ensures Trim(s) == [] <==> AllWhitespace(s)
  {
    var t := TrimStart(s);
    var k := |s| - |t|;
    var r := TrimEnd(t);
    TrimStartKeepsSuffix(s);
    TrimEndKeepsPrefix(t);
    if r == [] {
      assert t == [];
      forall i | 0 <= i < |s| ensures IsWhitespace(s[i]) {
        assert s[i] == s[..k][i];
      }
    } else {
      assert r[0] == t[0] == s[k];
    }
  }

  /** `n` occurs in `h` starting at index `i`. */
  predicate OccursAt(h: string, n: string, i: nat)
  {
    i + |n| <= |h| && h[i..i + |n|] == n
  }

  /** `n` is a substring of `h`. */
  ghost predicate IsSubstring(n: string, h: string)
  {
    exists i: nat :: i <= |h| && OccursAt(h, n, i)
  }

  /** `h.includes(n)`: a left-to-right scan for an occurrence of `n`. Every
      string includes the empty string, and none includes a longer one. */
  function Includes(h: string, n: string): (b: bool)
    ensures n == [] ==> b
    ensures b ==> |n| <= |h|
    decreases |h|
  {
    if |h| < |n| then false
    else if h[..|n|] == n then true
    else |h| > 0 && Includes(h[1..], n)
  }

  /** The scan finds an occurrence exactly when `n` is a substring of `h`. */
  lemma {:induction false} IncludesIff(h: string, n: string)
    ensures Includes(h, n) <==> IsSubstring(n, h)
    decreases |h|
  {
    if |h| < |n| {
    } else if h[..|n|] == n {
      assert OccursAt(h, n, 0);
    } else {
      IncludesIff(h[1..], n);
      if IsSubstring(n, h) {
        var i: nat :| i <= |h| && OccursAt(h, n, i);
        assert i != 0;
        assert h[1..][i - 1..i - 1 + |n|] == h[i..i + |n|];
        assert OccursAt(h[1..], n, i - 1);
      }
      if IsSubstring(n, h[1..]) {
        var j: nat :| j <= |h[1..]| && OccursAt(h[1..], n, j);
        assert h[1..][j..j + |n|] == h[j + 1..j + 1 + |n|];
        assert OccursAt(h, n, j + 1);
      }
    }
  }


  /** A haystack without the needle's first character does not include it. */
  lemma MissingFirstCharExcludes(h: string, n: string)
    requires |n| > 0 && n[0] !in h
    ensures !Includes(h, n)
  {
    IncludesIff(h, n);
  }
}
