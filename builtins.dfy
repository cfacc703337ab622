/**
  The Python 2 string and list built-ins the digest script relies on, with
  the semantics CPython 2.7 gives them: `split()`, `splitlines()`, `join`,
  `startswith`, the substring test `in`, `list.index` and the ordering of
  strings used by `sorted`.
 */
module Builtins {

  /** Python 2 has byte strings (`str`) and text strings (`unicode`); they disagree on whitespace. */
  datatype Kind = Str | Unicode

  /** Whitespace as `str.split()` / `unicode.split()` see it. */
  predicate IsSpace(c: char, kind: Kind) {
    var n := c as int;
    (9 <= n <= 13) || n == 32 ||
    (kind == Unicode &&
      ((28 <= n <= 31) || n == 0x85 || n == 0xA0 || n == 0x1680 || n == 0x180E ||
       (0x2000 <= n <= 0x200A) || n == 0x2028 || n == 0x2029 || n == 0x202F ||
       n == 0x205F || n == 0x3000))
  }

  /** A token `split()` can produce: non-empty and free of whitespace. */
  predicate IsWord(w: string, kind: Kind) {
    w != [] && forall i :: 0 <= i < |w| ==> !IsSpace(w[i], kind)
  }

  /** Length of the longest whitespace-free prefix of `s`. */
  function WordLength(s: string, kind: Kind): (n: nat)
    ensures n <= |s|
    ensures forall i :: 0 <= i < n ==> !IsSpace(s[i], kind)
    ensures n < |s| ==> IsSpace(s[n], kind)
  {
    if s == [] || IsSpace(s[0], kind) then 0 else 1 + WordLength(s[1..], kind)
  }

  /** `s.split()` with no separator: the maximal runs of non-space characters, in order. */
  function Words(s: string, kind: Kind): (r: seq<string>)
    ensures forall i :: 0 <= i < |r| ==> IsWord(r[i], kind)
    decreases |s|
  {
    if s == [] then []
    else if IsSpace(s[0], kind) then Words(s[1..], kind)
    else
      var n := WordLength(s, kind);
      [s[..n]] + Words(s[n..], kind)
  }

  /** `sep.join(parts)`. */
  function Join(parts: seq<string>, sep: string): string
  {
    if |parts| == 0 then []
    else if |parts| == 1 then parts[0]
    else parts[0] + sep + Join(parts[1..], sep)
  }

  lemma {:induction false} JoinAppend(a: seq<string>, b: seq<string>, sep: string)
    requires a != [] && b != []
    ensures Join(a + b, sep) == Join(a, sep) + sep + Join(b, sep)
    decreases |a|
  {
    if |a| == 1 {
      assert a + b == [a[0]] + b;
      assert (a + b)[1..] == b;
    } else {
      assert (a + b)[1..] == a[1..] + b;
      JoinAppend(a[1..], b, sep);
    }
  }

  lemma {:induction false} WordLengthOfWord(w: string, rest: string, kind: Kind)
    requires forall i :: 0 <= i < |w| ==> !IsSpace(w[i], kind)
    requires rest == [] || IsSpace(rest[0], kind)
    ensures WordLength(w + rest, kind) == |w|
    decreases |w|
  {
    if w != [] {
      assert (w + rest)[1..] == w[1..] + rest;
      WordLengthOfWord(w[1..], rest, kind);
    } else {
      assert w + rest == rest;
    }
  }

  /** A word followed by whitespace (or nothing) is split off as one token. */
  lemma WordsAfterWord(w: string, rest: string, kind: Kind)
    requires IsWord(w, kind)
    requires rest == [] || IsSpace(rest[0], kind)
    ensures Words(w + rest, kind) == [w] + Words(rest, kind)
  {
    WordLengthOfWord(w, rest, kind);
    assert (w + rest)[..|w|] == w;
    assert (w + rest)[|w|..] == rest;
  }

  /** Splitting words joined by single spaces gives the words back. */
  lemma {:induction false} WordsOfJoin(ws: seq<string>, kind: Kind)
    requires forall i :: 0 <= i < |ws| ==> IsWord(ws[i], kind)
    ensures Words(Join(ws, " "), kind) == ws
    decreases |ws|
  {
    if |ws| == 0 {
    } else if |ws| == 1 {
      WordsAfterWord(ws[0], [], kind);
      assert ws[0] + [] == ws[0];
    } else {
      var tail := Join(ws[1..], " ");
      assert Join(ws, " ") == ws[0] + (" " + tail);
      WordsAfterWord(ws[0], " " + tail, kind);
      assert (" " + tail)[1..] == tail;
      WordsOfJoin(ws[1..], kind);
      assert ws == [ws[0]] + ws[1..];
    }
  }

  /** `s.startswith(p)`. */
  predicate StartsWith(s: string, p: string) {
    |p| <= |s| && s[..|p|] == p
  }

  /** The substring test `p in s`. */
  function Contains(s: string, p: string): (r: bool)
    ensures r <==> exists i :: 0 <= i <= |s| && StartsWith(s[i..], p)
    decreases |s|
  {
    if StartsWith(s, p) then
      assert StartsWith(s[0..], p);
      true
    else if s == [] then false
    else
      assert forall i :: 1 <= i <= |s| ==> s[i..] == s[1..][i - 1..];
      Contains(s[1..], p)
  }

  /** `s.index(x)`: the position of the first occurrence of `x`. */
  function IndexOf<T(==)>(s: seq<T>, x: T): (i: nat)
    requires x in s
    ensures i < |s| && s[i] == x
    ensures forall k :: 0 <= k < i ==> s[k] != x
  {
    if s[0] == x then 0 else 1 + IndexOf(s[1..], x)
  }

  // ---------------------------------------------------------------------
  // str.splitlines() on a Python 2 byte string: the line breaks are
  // "\n", "\r" and "\r\n"; a final break does not start an empty line.

  predicate IsLineBreak(c: char) {
    c == '\n' || c == '\r'
  }

  predicate IsLine(l: string) {
    forall i :: 0 <= i < |l| ==> !IsLineBreak(l[i])
  }

  /** The three line terminators `splitlines` recognises. */
  predicate IsTerminator(eol: string) {
    eol == "\n" || eol == "\r" || eol == "\r\n"
  }

  /** Length of the longest break-free prefix of `s`. */
  function LineLength(s: string): (n: nat)
    ensures n <= |s|
    ensures IsLine(s[..n])
    ensures n < |s| ==> IsLineBreak(s[n])
  {
    if s == [] || IsLineBreak(s[0]) then 0
    else
      var n := 1 + LineLength(s[1..]);
      assert s[..n] == [s[0]] + s[1..][..n - 1];
      n
  }

  /** Where the next line starts, given the length `n` of the current one. */
  function NextLineStart(s: string, n: nat): (k: nat)
    requires n <= |s|
    ensures n < k <= |s| || k == n == |s|
  {
    if n == |s| then n
    else if s[n] == '\r' && n + 1 < |s| && s[n + 1] == '\n' then n + 2
    else n + 1
  }

  /** `s.splitlines()`. */
  function SplitLines(s: string): (r: seq<string>)
    ensures forall i :: 0 <= i < |r| ==> IsLine(r[i])
    ensures r == [] <==> s == []
    decreases |s|
  {
    if s == [] then []
    else
      var n := LineLength(s);
      [s[..n]] + SplitLines(s[NextLineStart(s, n)..])
  }

  /** One terminated line comes off the front as one element. */
  lemma SplitLinesCons(l: string, eol: string, rest: string)
    requires IsLine(l) && IsTerminator(eol)
    requires eol == "\r" ==> rest == [] || rest[0] != '\n'
    ensures SplitLines(l + eol + rest) == [l] + SplitLines(rest)
  {
    var s := l + eol + rest;
    LineLengthOfLine(l, eol + rest);
    assert s == l + (eol + rest);
    assert s[..|l|] == l;
    assert s[NextLineStart(s, |l|)..] == rest;
  }

  lemma {:induction false} LineLengthOfLine(l: string, rest: string)
    requires IsLine(l)
    requires rest == [] || IsLineBreak(rest[0])
    ensures LineLength(l + rest) == |l|
    decreases |l|
  {
    if l == [] {
      assert l + rest == rest;
    } else {
      assert (l + rest)[1..] == l[1..] + rest;
      LineLengthOfLine(l[1..], rest);
    }
  }

  /** Lines each followed by the same terminator. */
  function Terminated(ls: seq<string>, eol: string): string
  {
    if ls == [] then [] else ls[0] + eol + Terminated(ls[1..], eol)
  }

  /**
    A file of lines that all end in the same terminator, possibly followed by
    an unterminated last line, splits back into exactly those lines; blank
    lines are kept.
   */
  lemma {:induction false} SplitLinesOfFile(ls: seq<string>, eol: string, last: string)
    requires IsTerminator(eol)
    requires forall i :: 0 <= i < |ls| ==> IsLine(ls[i])
    requires IsLine(last)
    ensures SplitLines(Terminated(ls, eol) + last) == ls + (if last == [] then [] else [last])
    decreases |ls|
  {
    var final := if last == [] then [] else [last];
    if ls == [] {
      SplitLinesOfLastLine(last);
      assert Terminated(ls, eol) + last == last;
    } else {
      var rest := Terminated(ls[1..], eol) + last;
      assert Terminated(ls, eol) + last == ls[0] + eol + rest;
      if eol != "\n" {
        NoLeadingNewline(ls[1..], eol, last);
      }
      SplitLinesCons(ls[0], eol, rest);
      SplitLinesOfFile(ls[1..], eol, last);
      HeadAndRest(ls, final);
    }
  }

  lemma HeadAndRest<T>(s: seq<T>, t: seq<T>)
    requires s != []
    ensures s + t == [s[0]] + (s[1..] + t)
  {
    assert s == [s[0]] + s[1..];
  }

  lemma SplitLinesOfLastLine(last: string)
    requires IsLine(last)
    ensures SplitLines(last) == if last == [] then [] else [last]
  {
    if last != [] {
      LineLengthOfLine(last, []);
      assert last + [] == last;
      assert last[..|last|] == last;
    }
  }

  lemma NoLeadingNewline(ls: seq<string>, eol: string, last: string)
    requires eol == "\r" || eol == "\r\n"
    requires forall i :: 0 <= i < |ls| ==> IsLine(ls[i])
    requires IsLine(last)
    ensures var s := Terminated(ls, eol) + last; s == [] || s[0] != '\n'
  {
    if ls != [] {
      var s := Terminated(ls, eol) + last;
      assert s == ls[0] + (eol + (Terminated(ls[1..], eol) + last));
      if ls[0] == [] {
        assert s[0] == eol[0];
      } else {
        assert s[0] == ls[0][0];
      }
    }
  }

  // ---------------------------------------------------------------------
  // Python's ordering of strings: code point by code point, a proper
  // prefix before the longer string.

  predicate LessEq(a: string, b: string) {
    a == [] || (b != [] && (a[0] < b[0] || (a[0] == b[0] && LessEq(a[1..], b[1..]))))
  }

  predicate Less(a: string, b: string) {
    LessEq(a, b) && a != b
  }

  lemma {:induction false} LessEqTotal(a: string, b: string)
    ensures LessEq(a, b) || LessEq(b, a)
    decreases |a|
  {
    if a != [] && b != [] && a[0] == b[0] {
      LessEqTotal(a[1..], b[1..]);
    }
  }

  lemma {:induction false} LessEqAntisymmetric(a: string, b: string)
    requires LessEq(a, b) && LessEq(b, a)
    ensures a == b
    decreases |a|
  {
    if a != [] {
      LessEqAntisymmetric(a[1..], b[1..]);
      assert a == [a[0]] + a[1..];
      assert b == [b[0]] + b[1..];
    }
  }

  lemma {:induction false} LessEqTransitive(a: string, b: string, c: string)
    requires LessEq(a, b) && LessEq(b, c)
    ensures LessEq(a, c)
    decreases |a|
  {
    if a != [] && a[0] == b[0] && b[0] == c[0] {
      LessEqTransitive(a[1..], b[1..], c[1..]);
    }
  }
}
