/** The JavaScript string built-ins the application relies on (trim,
    toLowerCase, includes, split, join, substring), over `seq<char>`. */
module JsString {

  /** The code points JavaScript's `trim()` removes: the WhiteSpace and
      LineTerminator productions of ECMAScript (with the Zs category as of
      Unicode 15). */
  predicate IsWhitespace(c: char) {
    c == '\t' || c == '\n' || c == '\U{000B}' || c == '\U{000C}' || c == '\r' || c == ' ' ||
    c == '\U{00A0}' || c == '\U{1680}' || ('\U{2000}' <= c <= '\U{200A}') ||
    c == '\U{2028}' || c == '\U{2029}' || c == '\U{202F}' || c == '\U{205F}' ||
    c == '\U{3000}' || c == '\U{FEFF}'
  }

  predicate AllWhitespace(s: string) {
    forall i | 0 <= i < |s| :: IsWhitespace(s[i])
  }

  /** The number of whitespace characters at the front of `s`. */
  function LeadingSpace(s: string): (n: nat)
    ensures n <= |s|
    ensures forall i | 0 <= i < n :: IsWhitespace(s[i])
    ensures n == |s| || !IsWhitespace(s[n])
  {
    if s == [] || !IsWhitespace(s[0]) then 0 else 1 + LeadingSpace(s[1..])
  }

  /** The number of whitespace characters at the end of `s`. */
  function TrailingSpace(s: string): (n: nat)
    ensures n <= |s|
    ensures forall i | |s| - n <= i < |s| :: IsWhitespace(s[i])
    ensures n == |s| || !IsWhitespace(s[|s| - n - 1])
  {
    if s == [] || !IsWhitespace(s[|s| - 1]) then 0 else 1 + TrailingSpace(s[..|s| - 1])
  }

  /** `s.trim()`: the part of `s` between its leading and trailing whitespace. */
  function Trim(s: string): (r: string)
    ensures LeadingSpace(s) + |r| <= |s|
    ensures r == s[LeadingSpace(s)..LeadingSpace(s) + |r|]
    ensures forall i | 0 <= i < LeadingSpace(s) || LeadingSpace(s) + |r| <= i < |s| :: IsWhitespace(s[i])
    ensures r != [] ==> !IsWhitespace(r[0]) && !IsWhitespace(r[|r| - 1])
    ensures r == [] <==> AllWhitespace(s)
  {
    var a := LeadingSpace(s);
    var rest := s[a..];
    rest[..|rest| - TrailingSpace(rest)]
  }

  /** Trimming a trimmed string changes nothing. */
  lemma TrimIdempotent(s: string)
    ensures Trim(Trim(s)) == Trim(s)
  {
    var t := Trim(s);
    if t != [] {
      assert LeadingSpace(t) == 0;
      assert TrailingSpace(t) == 0;
    }
  }

  /** The ASCII part of `toLowerCase()`: `A`..`Z` become `a`..`z`. */
  function LowerChar(c: char): (d: char)
    ensures 'A' <= c <= 'Z' ==> 'a' <= d <= 'z'
    ensures !('A' <= c <= 'Z') ==> d == c
  {
    if 'A' <= c <= 'Z' then (c as int - 'A' as int + 'a' as int) as char else c
  }

  /** `s.toLowerCase()`, restricted to ASCII letters. */
  function ToLower(s: string): (r: string)
    ensures |r| == |s|
    ensures forall i | 0 <= i < |s| :: r[i] == LowerChar(s[i])
  {
    seq(|s|, i requires 0 <= i < |s| => LowerChar(s[i]))
  }

  /** `t` occurs in `s` at position `i`. */
  predicate OccursAt(s: string, t: string, i: int) {
    0 <= i && i + |t| <= |s| && s[i..i + |t|] == t
  }

  /** `s.includes(t)`: `t` occurs somewhere in `s`; the empty string occurs everywhere. */
  function Includes(s: string, t: string): (b: bool)
    ensures b <==> exists i :: OccursAt(s, t, i)
    decreases |s|
  {
    if t <= s then
      assert OccursAt(s, t, 0);
      true
    else if |s| == 0 then
      false
    else
      var b := Includes(s[1..], t);
      assert forall i :: OccursAt(s[1..], t, i) ==> OccursAt(s, t, i + 1);
      assert forall i :: OccursAt(s, t, i) && i > 0 ==> OccursAt(s[1..], t, i - 1);
      b
  }

  /** The number of occurrences of `c` in `s`. */
  function Count(s: string, c: char): (n: nat)
    ensures n <= |s|
  {
    if s == [] then 0 else (if s[0] == c then 1 else 0) + Count(s[1..], c)
  }

  /** No occurrence is counted exactly when the character is absent. */
  lemma {:induction false} CountZero(s: string, c: char)
    ensures Count(s, c) == 0 <==> c !in s
  {
    if s != [] {
      CountZero(s[1..], c);
      assert s == [s[0]] + s[1..];
    }
  }

  lemma {:induction false} CountAppend(a: string, b: string, c: char)
    ensures Count(a + b, c) == Count(a, c) + Count(b, c)
  {
    if a != [] {
      assert (a + b)[1..] == a[1..] + b;
      CountAppend(a[1..], b, c);
    } else {
      assert a + b == b;
    }
  }

  /** `s.split(sep)` for a one-character separator: the pieces between
      separators, so `"".split(sep)` is `[""]`. A separator in front starts
      a new empty piece; any other character joins the first piece. */
  function Split(s: string, sep: char): (parts: seq<string>)
    ensures |parts| >= 1
  {
    if s == [] then [[]]
    else
      var r := Split(s[1..], sep);
      if s[0] == sep then [[]] + r else [[s[0]] + r[0]] + r[1..]
  }

  /** No piece of a split holds the separator. */
  lemma {:induction false} SplitPiecesLackSeparator(s: string, sep: char)
    ensures forall k | 0 <= k < |Split(s, sep)| :: sep !in Split(s, sep)[k]
  {
    if s != [] {
      var r := Split(s[1..], sep);
      SplitPiecesLackSeparator(s[1..], sep);
      if s[0] != sep {
        assert sep !in r[0];
      }
    }
  }

  /** A split has one piece more than the string has separators. */
  lemma {:induction false} SplitLength(s: string, sep: char)
    ensures |Split(s, sep)| == Count(s, sep) + 1
  {
    if s != [] {
      SplitLength(s[1..], sep);
    }
  }

  /** `parts.join(sep)` for a one-character separator. */
  function Join(parts: seq<string>, sep: char): string
  {
    if |parts| == 0 then ""
    else if |parts| == 1 then parts[0]
    else parts[0] + [sep] + Join(parts[1..], sep)
  }

  lemma JoinCons(p: string, rest: seq<string>, sep: char)
    requires |rest| >= 1
    ensures Join([p] + rest, sep) == p + [sep] + Join(rest, sep)
  {
    assert ([p] + rest)[1..] == rest;
  }

  /** Putting a character in front of the first piece puts it in front of
      the join. */
  lemma JoinGrowHead(c: char, r: seq<string>, sep: char)
    requires |r| >= 1
    ensures Join([[c] + r[0]] + r[1..], sep) == [c] + Join(r, sep)
  {
    if |r| > 1 {
      JoinCons([c] + r[0], r[1..], sep);
      JoinCons(r[0], r[1..], sep);
      assert r == [r[0]] + r[1..];
    }
  }

  /** Joining the pieces of a split gives back the original string. */
  lemma {:induction false} JoinSplit(s: string, sep: char)
    ensures Join(Split(s, sep), sep) == s
  {
    if s != [] {
      var r := Split(s[1..], sep);
      JoinSplit(s[1..], sep);
      if s[0] == sep {
        JoinCons([], r, sep);
      } else {
        JoinGrowHead(s[0], r, sep);
      }
      assert s == [s[0]] + s[1..];
    }
  }

  /** Behind a leading separator, the join of the first `k` pieces is that
      separator followed by the join of the first `k - 1` pieces of the rest. */
  lemma JoinSplitAtSeparator(s: string, sep: char, k: nat)
    requires s != [] && s[0] == sep && 1 < k <= |Split(s, sep)|
    ensures Join(Split(s, sep)[..k], sep) == [sep] + Join(Split(s[1..], sep)[..k - 1], sep)
  {
    var r := Split(s[1..], sep);
    assert Split(s, sep)[..k] == [[]] + r[..k - 1];
    JoinCons([], r[..k - 1], sep);
  }

  /** Behind any other leading character, the join of the first `k` pieces
      is that character followed by the join of the first `k` pieces of the
      rest. */
  lemma JoinSplitAtOther(s: string, sep: char, k: nat)
    requires s != [] && s[0] != sep && 1 <= k <= |Split(s, sep)|
    ensures k <= |Split(s[1..], sep)|
    ensures Join(Split(s, sep)[..k], sep) == [s[0]] + Join(Split(s[1..], sep)[..k], sep)
  {
    var rk := Split(s[1..], sep)[..k];
    assert Split(s, sep)[..k] == [[s[0]] + rk[0]] + rk[1..];
    JoinGrowHead(s[0], rk, sep);
  }

  /** Joining the first `k` pieces of a split gives a prefix of the original
      string holding `k - 1` separators. */
  lemma {:induction false} JoinSplitPrefix(s: string, sep: char, k: nat)
    requires 1 <= k <= |Split(s, sep)|
    ensures Join(Split(s, sep)[..k], sep) <= s
    ensures Count(Join(Split(s, sep)[..k], sep), sep) == k - 1
  {
    if s != [] && s[0] == sep && k == 1 {
      assert Split(s, sep)[..k] == [[]];
    } else if s != [] {
      if s[0] == sep {
        JoinSplitAtSeparator(s, sep, k);
        JoinSplitPrefix(s[1..], sep, k - 1);
        var j := Join(Split(s[1..], sep)[..k - 1], sep);
        assert ([sep] + j)[1..] == j;
      } else {
        JoinSplitAtOther(s, sep, k);
        JoinSplitPrefix(s[1..], sep, k);
        var j := Join(Split(s[1..], sep)[..k], sep);
        assert ([s[0]] + j)[1..] == j;
      }
    }
  }

  /** When pieces remain after the first `k`, the character of the original
      that follows their join is a separator. */
  lemma {:induction false} JoinSplitBoundary(s: string, sep: char, k: nat)
    requires 1 <= k < |Split(s, sep)|
    ensures |Join(Split(s, sep)[..k], sep)| < |s|
    ensures s[|Join(Split(s, sep)[..k], sep)|] == sep
  {
    if s[0] == sep && k == 1 {
      assert Split(s, sep)[..k] == [[]];
    } else if s[0] == sep {
      JoinSplitAtSeparator(s, sep, k);
      JoinSplitBoundary(s[1..], sep, k - 1);
    } else {
      JoinSplitAtOther(s, sep, k);
      JoinSplitBoundary(s[1..], sep, k);
    }
  }

  /** The index `substring` uses: negative arguments become 0, arguments past
      the end become the length. */
  function ClampIndex(i: int, len: nat): (k: nat)
    ensures k <= len
    ensures 0 <= i <= len ==> k == i
    ensures i < 0 ==> k == 0
  {
    if i < 0 then 0 else if i > len then len else i
  }

  /** `s.substring(start, end)`: both indices clamped into range, and swapped
      when the start lies after the end. */
  function Substring(s: string, start: int, end: int): string
  {
    var a, b := ClampIndex(start, |s|), ClampIndex(end, |s|);
    if a <= b then s[a..b] else s[b..a]
  }
}
