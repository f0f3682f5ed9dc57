/** The string operations the client relies on: Foundation's character
    classes, `trimmingCharacters(in:)`, `hasPrefix` and the `+=` fold that
    accumulates streamed text. Strings are sequences of Unicode scalars. */
module Text {

  /** `CharacterSet.whitespaces`: general category Zs plus horizontal tab. */
  predicate IsWhitespace(c: char) {
    || c == '\t'
    || c == ' '
    || c == '\U{00A0}'
    || c == '\U{1680}'
    || ('\U{2000}' <= c <= '\U{200A}')
    || c == '\U{202F}'
    || c == '\U{205F}'
    || c == '\U{3000}'
  }

  /** The newline characters of `CharacterSet.whitespacesAndNewlines`:
      U+000A to U+000D, U+0085, and the line and paragraph separators. */
  predicate IsNewline(c: char) {
    || ('\n' <= c <= '\r')
    || c == '\U{0085}'
    || c == '\U{2028}'
    || c == '\U{2029}'
  }

  /** `CharacterSet.whitespacesAndNewlines`. */
  predicate IsWhitespaceOrNewline(c: char) {
    IsWhitespace(c) || IsNewline(c)
  }

  /** Drops the longest prefix made of characters in `p`. */
  function TrimStart(s: string, p: char -> bool): (r: string)
    ensures |r| <= |s|
  {
    if |s| > 0 && p(s[0]) then TrimStart(s[1..], p) else s
  }

  /** Drops the longest suffix made of characters in `p`. */
  function TrimEnd(s: string, p: char -> bool): (r: string)
    ensures |r| <= |s|
  {
    if |s| > 0 && p(s[|s| - 1]) then TrimEnd(s[..|s| - 1], p) else s
  }

  /** `s.trimmingCharacters(in: p)`. */
  function Trim(s: string, p: char -> bool): string {
    TrimEnd(TrimStart(s, p), p)
  }

  /** How many characters trimming removes from the front of `s`. */
  function Leading(s: string, p: char -> bool): nat {
    |s| - |TrimStart(s, p)|
  }

  lemma {:induction false} TrimStartSpec(s: string, p: char -> bool)
    ensures |TrimStart(s, p)| <= |s|
    ensures TrimStart(s, p) == s[Leading(s, p)..]
    ensures forall k :: 0 <= k < Leading(s, p) ==> p(s[k])
    ensures |TrimStart(s, p)| > 0 ==> !p(TrimStart(s, p)[0])
    decreases |s|
  {
    if |s| > 0 && p(s[0]) {
      TrimStartSpec(s[1..], p);
    }
  }

  lemma {:induction false} TrimEndSpec(s: string, p: char -> bool)
    ensures |TrimEnd(s, p)| <= |s|
    ensures TrimEnd(s, p) == s[..|TrimEnd(s, p)|]
    ensures forall k :: |TrimEnd(s, p)| <= k < |s| ==> p(s[k])
    ensures |TrimEnd(s, p)| > 0 ==> !p(TrimEnd(s, p)[|TrimEnd(s, p)| - 1])
    decreases |s|
  {
    if |s| > 0 && p(s[|s| - 1]) {
      assert forall k :: 0 <= k < |s| - 1 ==> s[..|s| - 1][k] == s[k];
      TrimEndSpec(s[..|s| - 1], p);
    }
  }

  /** Trimming leaves the slice of `s` between a run of `p` characters at
      the front and a run at the back, and that slice neither starts nor
      ends with a `p` character. */
  lemma TrimSpec(s: string, p: char -> bool)
    ensures Leading(s, p) + |Trim(s, p)| <= |s|
    ensures Trim(s, p) == s[Leading(s, p)..Leading(s, p) + |Trim(s, p)|]
    ensures forall k :: 0 <= k < Leading(s, p) ==> p(s[k])
    ensures forall k :: Leading(s, p) + |Trim(s, p)| <= k < |s| ==> p(s[k])
    ensures |Trim(s, p)| > 0 ==> !p(Trim(s, p)[0]) && !p(Trim(s, p)[|Trim(s, p)| - 1])
  {
    var front := TrimStart(s, p);
    TrimStartSpec(s, p);
    TrimEndSpec(front, p);
    var r := Trim(s, p);
    var i := Leading(s, p);
    assert forall k :: i + |r| <= k < |s| ==> s[k] == front[k - i];
  }

  /** `s.hasPrefix(prefix)`. */
  predicate HasPrefix(s: string, prefix: string) {
    |prefix| <= |s| && s[..|prefix|] == prefix
  }

  /** The text built by appending `parts` one after another to an empty
      string, as `streamingContent += chunk` does. */
  function Concat(parts: seq<string>): (r: string)
    ensures r == "" <==> forall i :: 0 <= i < |parts| ==> parts[i] == ""
  {
    if |parts| == 0 then ""
    else Concat(parts[..|parts| - 1]) + parts[|parts| - 1]
  }

  /** Accumulating two runs of fragments is accumulating each in turn. */
  lemma {:induction false} ConcatAppend(a: seq<string>, b: seq<string>)
    ensures Concat(a + b) == Concat(a) + Concat(b)
    decreases |b|
  {
    if |b| == 0 {
      assert a + b == a;
    } else {
      assert (a + b)[..|a + b| - 1] == a + b[..|b| - 1];
      assert (a + b)[|a + b| - 1] == b[|b| - 1];
      ConcatAppend(a, b[..|b| - 1]);
    }
  }
}
