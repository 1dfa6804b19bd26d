/** String helpers that stand for the JavaScript string methods the handlers use:
    toLowerCase (ASCII letters only), trim, split(sep)[0], Array.join and the `||` default. */
module Text {
  import opened Wrappers

  /** String.prototype.toLowerCase on one character, restricted to the ASCII letters. */
  function LowerChar(c: char): char {
    if 'A' <= c <= 'Z' then (c as int + 32) as char else c
  }

  function Lower(s: string): string {
    seq(|s|, i requires 0 <= i < |s| => LowerChar(s[i]))
  }

  /** The characters String.prototype.trim removes: ECMAScript WhiteSpace and LineTerminator. */
  predicate IsSpace(c: char) {
    || c == '\t' || c == '\n' || c == '\U{000B}' || c == '\U{000C}' || c == '\r' || c == ' '
    || c == '\U{00A0}' || c == '\U{1680}' || ('\U{2000}' <= c <= '\U{200A}')
    || c == '\U{2028}' || c == '\U{2029}' || c == '\U{202F}' || c == '\U{205F}'
    || c == '\U{3000}' || c == '\U{FEFF}'
  }

  function TrimStart(s: string): string
    decreases |s|
  {
    if s != [] && IsSpace(s[0]) then TrimStart(s[1..]) else s
  }

  function TrimEnd(s: string): string
    decreases |s|
  {
    if s != [] && IsSpace(s[|s| - 1]) then TrimEnd(s[..|s| - 1]) else s
  }

  /** String.prototype.trim. */
  function Trim(s: string): string {
    TrimEnd(TrimStart(s))
  }

  /** The normalisation `s.toLowerCase().trim()` used for e-mail addresses. */
  function Normalize(s: string): string {
    Trim(Lower(s))
  }

  /** `s.split(sep)[0]`: the part of `s` before the first `sep`, or all of `s`. */
  function PrefixBefore(s: string, sep: char): (r: string)
    ensures r <= s
    ensures sep !in r
    ensures r == s || (|r| < |s| && s[|r|] == sep)
  {
    if s == [] then []
    else if s[0] == sep then []
    else [s[0]] + PrefixBefore(s[1..], sep)
  }

  /** `a || b` on a string that may be absent: the default replaces an absent or empty value. */
  function OrElse(a: Option<string>, b: string): (r: string)
    ensures a.Some? && a.value != "" ==> r == a.value
    ensures a.None? || a.value == "" ==> r == b
  {
    if a.Some? && a.value != "" then a.value else b
  }

  /** Array.prototype.join. */
  function Join(parts: seq<string>, sep: string): string
    decreases |parts|
  {
    if |parts| == 0 then ""
    else if |parts| == 1 then parts[0]
    else parts[0] + sep + Join(parts[1..], sep)
  }

  // ---------------------------------------------------------------------------
  // Lemmas

  lemma LowerCharKeepsSpace(c: char)
    ensures IsSpace(LowerChar(c)) == IsSpace(c)
  {
  }

  lemma {:induction false} LowerSlices(s: string)
    ensures |Lower(s)| == |s|
    ensures s != [] ==> Lower(s)[0] == LowerChar(s[0]) && Lower(s[1..]) == Lower(s)[1..]
    ensures s != [] ==> (Lower(s)[|s| - 1] == LowerChar(s[|s| - 1])
                         && Lower(s[..|s| - 1]) == Lower(s)[..|s| - 1])
  {
  }

  lemma {:induction false} LowerTrimStart(s: string)
    ensures Lower(TrimStart(s)) == TrimStart(Lower(s))
    decreases |s|
  {
    LowerSlices(s);
    if s != [] {
      LowerCharKeepsSpace(s[0]);
      if IsSpace(s[0]) {
        LowerTrimStart(s[1..]);
      }
    }
  }

  lemma {:induction false} LowerTrimEnd(s: string)
    ensures Lower(TrimEnd(s)) == TrimEnd(Lower(s))
    decreases |s|
  {
    LowerSlices(s);
    if s != [] {
      LowerCharKeepsSpace(s[|s| - 1]);
      if IsSpace(s[|s| - 1]) {
        LowerTrimEnd(s[..|s| - 1]);
      }
    }
  }

  /** Lower-casing and trimming commute, so `s.toLowerCase().trim()` and
      `s.trim().toLowerCase()` give the same key. */
  lemma LowerTrimCommute(s: string)
    ensures Lower(Trim(s)) == Trim(Lower(s))
  {
    LowerTrimStart(s);
    LowerTrimEnd(TrimStart(s));
  }

  lemma {:induction false} TrimStartOfTrimmed(s: string)
    requires s == [] || !IsSpace(s[0])
    ensures TrimStart(s) == s
  {
  }

  lemma {:induction false} TrimEndNoSpace(s: string)
    ensures TrimEnd(s) == [] || !IsSpace(TrimEnd(s)[|TrimEnd(s)| - 1])
    decreases |s|
  {
    if s != [] && IsSpace(s[|s| - 1]) {
      TrimEndNoSpace(s[..|s| - 1]);
    }
  }

  lemma {:induction false} TrimStartNoSpace(s: string)
    ensures TrimStart(s) == [] || !IsSpace(TrimStart(s)[0])
    decreases |s|
  {
    if s != [] && IsSpace(s[0]) {
      TrimStartNoSpace(s[1..]);
    }
  }

  lemma {:induction false} TrimEndKeepsFirst(s: string)
    requires s != [] && !IsSpace(s[0])
    ensures TrimEnd(s) != [] && TrimEnd(s)[0] == s[0]
    decreases |s|
  {
    if IsSpace(s[|s| - 1]) {
      TrimEndKeepsFirst(s[..|s| - 1]);
    }
  }

  /** A trimmed string has neither leading nor trailing white space. */
  lemma TrimHasNoOuterSpace(s: string)
    ensures var t := Trim(s); t == [] || (!IsSpace(t[0]) && !IsSpace(t[|t| - 1]))
  {
    TrimStartNoSpace(s);
    TrimEndNoSpace(TrimStart(s));
    if TrimStart(s) != [] {
      TrimEndKeepsFirst(TrimStart(s));
    }
  }

  /** trim leaves a string alone exactly when it has no white space at either end. */
  lemma {:induction false} TrimFixpoint(s: string)
    ensures Trim(s) == s <==> (s == [] || (!IsSpace(s[0]) && !IsSpace(s[|s| - 1])))
  {
    TrimHasNoOuterSpace(s);
    if s == [] || (!IsSpace(s[0]) && !IsSpace(s[|s| - 1])) {
      TrimStartOfTrimmed(s);
    }
  }

  lemma {:induction false} TrimIdempotent(s: string)
    ensures Trim(Trim(s)) == Trim(s)
  {
    TrimHasNoOuterSpace(s);
    TrimFixpoint(Trim(s));
  }

  /** The same key comes out whichever order the two normalisation steps are applied in. */
  lemma NormalizeTrimmed(s: string)
    requires Trim(s) == s
    ensures Normalize(s) == Lower(s)
  {
    LowerTrimCommute(s);
  }

  lemma {:induction false} JoinFive(a: string, b: string, c: string, d: string, e: string, sep: string)
    ensures Join([a, b, c, d, e], sep) == a + sep + b + sep + c + sep + d + sep + e
  {
    assert Join([e], sep) == e;
    assert Join([d, e], sep) == d + sep + e by { assert [d, e][1..] == [e]; }
    assert Join([c, d, e], sep) == c + sep + d + sep + e by { assert [c, d, e][1..] == [d, e]; }
    assert Join([b, c, d, e], sep) == b + sep + c + sep + d + sep + e by { assert [b, c, d, e][1..] == [c, d, e]; }
    assert [a, b, c, d, e][1..] == [b, c, d, e];
  }
}
