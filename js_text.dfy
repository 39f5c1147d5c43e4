// The pieces of the JavaScript string and regular-expression semantics that the
// parser relies on: the `\s`, `.`, `\d` and `\w` character classes, String.prototype.trim,
// and the greedy runs that `.*`, `\d+` and friends consume.

module JsText {

  datatype Option<T> = None | Some(value: T)

  /** ECMAScript LineTerminator: the characters `.` refuses to match. */
  predicate IsLineTerminator(c: char) {
    c == '\n' || c == '\r' || c == '\U{2028}' || c == '\U{2029}'
  }

  /** ECMAScript WhiteSpace or LineTerminator: the class `\s` and what `trim` removes. */
  predicate IsSpace(c: char) {
    c == '\t' || c == '\U{000B}' || c == '\U{000C}' || c == ' ' || c == '\U{00A0}' ||
    c == '\U{1680}' || ('\U{2000}' <= c <= '\U{200A}') || c == '\U{202F}' || c == '\U{205F}' ||
    c == '\U{3000}' || c == '\U{FEFF}' || IsLineTerminator(c)
  }

  /** The class `\d` (no Unicode flag): ASCII digits. */
  predicate IsDigit(c: char) {
    '0' <= c <= '9'
  }

  /** The class `\w` (no Unicode flag). */
  predicate IsWordChar(c: char) {
    ('a' <= c <= 'z') || ('A' <= c <= 'Z') || IsDigit(c) || c == '_'
  }

  predicate AllSpace(s: string) {
    forall i :: 0 <= i < |s| ==> IsSpace(s[i])
  }

  /** No line terminator in s[lo..hi]: the span can be matched by a run of `.`. */
  predicate NoLineTerminator(s: string, lo: int, hi: int)
    requires 0 <= lo <= hi <= |s|
  {
    forall x :: lo <= x < hi ==> !IsLineTerminator(s[x])
  }

  /** s holds no line terminator: `.*` can match all of it. */
  predicate OnOneLine(s: string) {
    NoLineTerminator(s, 0, |s|)
  }

  /** Index of the first character at or after i that trimStart keeps. */
  function SkipSpace(s: string, i: nat): (a: nat)
    requires i <= |s|
    ensures i <= a <= |s|
    ensures forall x :: i <= x < a ==> IsSpace(s[x])
    ensures a < |s| ==> !IsSpace(s[a])
    decreases |s| - i
  {
    if i == |s| || !IsSpace(s[i]) then i else SkipSpace(s, i + 1)
  }

  /** Index just past the last character of s[lo..hi] that trimEnd keeps. */
  function SkipSpaceBack(s: string, lo: nat, hi: nat): (e: nat)
    requires lo <= hi <= |s|
    ensures lo <= e <= hi
    ensures forall x :: e <= x < hi ==> IsSpace(s[x])
    ensures lo < e ==> !IsSpace(s[e - 1])
    decreases hi - lo
  {
    if hi == lo || !IsSpace(s[hi - 1]) then hi else SkipSpaceBack(s, lo, hi - 1)
  }

  /** String.prototype.trim: the text between the leading and the trailing white space. */
  function Trim(s: string): (t: string)
    ensures |t| <= |s|
    ensures exists a: nat :: TrimmedAt(s, a, |t|) && t == s[a..a + |t|]
    ensures t == [] || (!IsSpace(t[0]) && !IsSpace(t[|t| - 1]))
    ensures t == [] <==> AllSpace(s)
  {
    var a := SkipSpace(s, 0);
    var e := SkipSpaceBack(s, a, |s|);
    assert TrimmedAt(s, a, e - a);
    s[a..e]
  }

  /** s[a..a+n] is s with white space only before and after it. */
  ghost predicate TrimmedAt(s: string, a: nat, n: nat) {
    a + n <= |s| &&
    (forall x :: 0 <= x < a ==> IsSpace(s[x])) &&
    (forall x :: a + n <= x < |s| ==> IsSpace(s[x]))
  }

  /** s is not empty and neither starts nor ends with white space. */
  predicate Unpadded(s: string) {
    s != [] && !IsSpace(s[0]) && !IsSpace(s[|s| - 1])
  }

  /** Trimming a string without surrounding white space changes nothing. */
  lemma TrimOfTrimmed(s: string)
    requires s == [] || Unpadded(s)
    ensures Trim(s) == s
  {
    if s != [] {
      assert SkipSpace(s, 0) == 0;
      assert SkipSpaceBack(s, 0, |s|) == |s|;
    }
  }

  /** Trimming removes exactly the white space around a text that neither starts nor ends
      with white space. */
  lemma TrimAround(before: string, t: string, after: string)
    requires AllSpace(before) && AllSpace(after)
    requires Unpadded(t)
    ensures Trim(before + t + after) == t
  {
    var s := before + t + after;
    var a := SkipSpace(s, 0);
    assert s[|before|] == t[0];
    assert a == |before|;
    var e := SkipSpaceBack(s, a, |s|);
    assert s[|before| + |t| - 1] == t[|t| - 1];
    assert forall x :: |before| + |t| <= x < |s| ==> IsSpace(s[x]) by {
      assert forall x :: |before| + |t| <= x < |s| ==> s[x] == after[x - |before| - |t|];
    }
    assert e == |before| + |t|;
    assert s[a..e] == t;
  }

  /** Where Trim cuts s: the white space before and after the trimmed text. */
  lemma TrimCut(s: string) returns (a: nat)
    ensures TrimmedAt(s, a, |Trim(s)|) && Trim(s) == s[a..a + |Trim(s)|]
  {
    a := SkipSpace(s, 0);
  }

  /** A trimmed text is its first n characters, some white space, and the rest trimmed. */
  lemma TrimTail(t: string, n: nat) returns (gap: string)
    requires n <= |t| && (t == [] || Unpadded(t))
    ensures AllSpace(gap) && t == t[..n] + gap + Trim(t[n..])
  {
    var u := t[n..];
    assert u == [] || u[|u| - 1] == t[|t| - 1];
    gap := TrimFront(u);
    CutAt(t, n, gap, Trim(u));
  }

  /** A text is its first n characters followed by the pieces its rest is made of. */
  lemma CutAt(t: string, n: nat, gap: string, rest: string)
    requires n <= |t| && t[n..] == gap + rest
    ensures t == t[..n] + gap + rest
  {
    assert t == t[..n] + t[n..];
  }

  /** A text that does not end in white space is its leading white space and its trim. */
  lemma TrimFront(u: string) returns (gap: string)
    requires u == [] || !IsSpace(u[|u| - 1])
    ensures AllSpace(gap) && u == gap + Trim(u)
  {
    var a := TrimCut(u);
    var rest := Trim(u);
    assert a + |rest| == |u|;
    gap := u[..a];
    assert u == gap + rest;
  }

  /** Length of the run `.*` matches greedily from position i. */
  function LineRun(s: string, i: nat): (n: nat)
    requires i <= |s|
    ensures i + n <= |s|
    ensures NoLineTerminator(s, i, i + n)
    ensures i + n == |s| || IsLineTerminator(s[i + n])
    decreases |s| - i
  {
    if i == |s| || IsLineTerminator(s[i]) then 0 else 1 + LineRun(s, i + 1)
  }

  /** The line run from i is n when the n characters after i are on the line and a line
      terminator or the end follows them. */
  lemma {:induction false} LineRunIs(s: string, i: nat, n: nat)
    requires i + n <= |s| && NoLineTerminator(s, i, i + n)
    requires i + n == |s| || IsLineTerminator(s[i + n])
    ensures LineRun(s, i) == n
    decreases n
  {
    if n > 0 {
      LineRunIs(s, i + 1, n - 1);
    }
  }

  /** Length of the run of character c starting at position i (`c+`, `c*`, `c{n,}`). */
  function CharRun(s: string, i: nat, c: char): (n: nat)
    requires i <= |s|
    ensures i + n <= |s|
    ensures forall x :: i <= x < i + n ==> s[x] == c
    ensures i + n == |s| || s[i + n] != c
    decreases |s| - i
  {
    if i == |s| || s[i] != c then 0 else 1 + CharRun(s, i + 1, c)
  }

  /** The run of c from i is n when n copies of c follow i and another character or the
      end comes after them. */
  lemma {:induction false} CharRunIs(s: string, i: nat, c: char, n: nat)
    requires i + n <= |s| && forall x :: i <= x < i + n ==> s[x] == c
    requires i + n == |s| || s[i + n] != c
    ensures CharRun(s, i, c) == n
    decreases n
  {
    if n > 0 {
      CharRunIs(s, i + 1, c, n - 1);
    }
  }

  /** c written n times, as in a run of `#` before a heading or of `-` in a rule. */
  function Repeat(c: char, n: nat): string
  {
    seq(n, x => c)
  }

  /** Length of the run of `\d` starting at position i. */
  function DigitRun(s: string, i: nat): (n: nat)
    requires i <= |s|
    ensures i + n <= |s|
    ensures forall x :: i <= x < i + n ==> IsDigit(s[x])
    ensures i + n == |s| || !IsDigit(s[i + n])
    decreases |s| - i
  {
    if i == |s| || !IsDigit(s[i]) then 0 else 1 + DigitRun(s, i + 1)
  }

  /** The digit run from i is n when n digits follow i and a non-digit or the end comes
      after them. */
  lemma {:induction false} DigitRunIs(s: string, i: nat, n: nat)
    requires i + n <= |s| && forall x :: i <= x < i + n ==> IsDigit(s[x])
    requires i + n == |s| || !IsDigit(s[i + n])
    ensures DigitRun(s, i) == n
    decreases n
  {
    if n > 0 {
      DigitRunIs(s, i + 1, n - 1);
    }
  }

  /** Length of the run of `\w` starting at position i. */
  function WordRun(s: string, i: nat): (n: nat)
    requires i <= |s|
    ensures i + n <= |s|
    ensures forall x :: i <= x < i + n ==> IsWordChar(s[x])
    ensures i + n == |s| || !IsWordChar(s[i + n])
    decreases |s| - i
  {
    if i == |s| || !IsWordChar(s[i]) then 0 else 1 + WordRun(s, i + 1)
  }

  /** Does t occur in s at position i? */
  predicate OccursAt(s: string, t: string, i: nat) {
    i + |t| <= |s| && s[i..i + |t|] == t
  }

  /** String.prototype.indexOf, for a needle known to occur at `at`: the first occurrence
      at or after `from`. */
  function IndexOf(s: string, t: string, from: nat, at: nat): (r: nat)
    requires from <= at && OccursAt(s, t, at)
    ensures from <= r <= at && OccursAt(s, t, r)
    ensures forall x :: from <= x < r ==> !OccursAt(s, t, x)
    decreases at - from
  {
    if OccursAt(s, t, from) then from else IndexOf(s, t, from + 1, at)
  }

  /** Index of the first c at or after `from`, or |s|. */
  function CharIndex(s: string, from: nat, c: char): (r: nat)
    requires from <= |s|
    ensures from <= r <= |s|
    ensures forall x :: from <= x < r ==> s[x] != c
    ensures r < |s| ==> s[r] == c
    decreases |s| - from
  {
    if from == |s| || s[from] == c then from else CharIndex(s, from + 1, c)
  }

  /** The first c at or after `from` is at r when none comes before it. */
  lemma {:induction false} CharIndexIs(s: string, from: nat, c: char, r: nat)
    requires from <= r <= |s| && forall x :: from <= x < r ==> s[x] != c
    requires r == |s| || s[r] == c
    ensures CharIndex(s, from, c) == r
    decreases r - from
  {
    if from < r {
      CharIndexIs(s, from + 1, c, r);
    }
  }

  /** `s.split(/\n+/)`: the pieces between the runs of newlines. */
  function SplitLines(s: string): (r: seq<string>)
    ensures |r| >= 1
    ensures forall k, x :: 0 <= k < |r| && 0 <= x < |r[k]| ==> r[k][x] != '\n'
    decreases |s|
  {
    var i := CharIndex(s, 0, '\n');
    if i == |s| then [s]
    else [s[..i]] + SplitLines(s[i + CharRun(s, i, '\n')..])
  }

  /** A line and the newline ending it split into the line and an empty piece. */
  lemma SplitLineEnd(line: string)
    requires forall x :: 0 <= x < |line| ==> line[x] != '\n'
    ensures SplitLines(line + "\n") == [line, []]
  {
    LineThenNewline(line);
    SplitLinesLast(line + "\n", |line|);
  }

  /** In a line followed by one newline, the newline is the first and is alone. */
  lemma LineThenNewline(line: string)
    requires forall x :: 0 <= x < |line| ==> line[x] != '\n'
    ensures var s := line + "\n";
      CharIndex(s, 0, '\n') == |line| && CharRun(s, |line|, '\n') == 1 && s[..|line|] == line
  {
    var s := line + "\n";
    assert forall x :: 0 <= x < |line| ==> s[x] == line[x];
    CharIndexIs(s, 0, '\n', |line|);
    assert s[..|line|] == line;
  }

  /** A text whose only newline is its last character splits into the text before it and
      an empty piece. */
  lemma SplitLinesLast(s: string, i: nat)
    requires i + 1 == |s| && CharIndex(s, 0, '\n') == i && CharRun(s, i, '\n') == 1
    ensures SplitLines(s) == [s[..i], []]
  {
    assert s[i + 1..] == [];
    assert SplitLines([]) == [[]];
  }

  /** `lines.join('\n')` */
  function JoinLines(lines: seq<string>): (s: string)
    requires |lines| >= 1
  {
    if |lines| == 1 then lines[0] else lines[0] + "\n" + JoinLines(lines[1..])
  }

  /** Splitting undoes joining when no piece is empty or holds a newline. */
  lemma {:induction false} SplitJoinLines(lines: seq<string>)
    requires |lines| >= 1
    requires forall k :: 0 <= k < |lines| ==> lines[k] != []
    requires forall k, x :: 0 <= k < |lines| && 0 <= x < |lines[k]| ==> lines[k][x] != '\n'
    ensures SplitLines(JoinLines(lines)) == lines
    decreases |lines|
  {
    var s := JoinLines(lines);
    var first := lines[0];
    if |lines| == 1 {
      assert CharIndex(s, 0, '\n') == |s| by {
        assert forall x :: 0 <= x < |s| ==> s[x] == first[x];
      }
    } else {
      var tail := lines[1..];
      var rest := JoinLines(tail);
      assert s == first + "\n" + rest;
      assert rest[0] == tail[0][0] by {
        if |tail| > 1 {
          assert rest == tail[0] + ("\n" + JoinLines(tail[1..]));
        }
      }
      SplitAfterLine(first, rest);
      SplitJoinLines(tail);
      assert lines == [first] + tail;
    }
  }

  /** A line, one newline and text that does not start with a newline split into the line
      and the pieces of that text. */
  lemma SplitAfterLine(first: string, rest: string)
    requires forall x :: 0 <= x < |first| ==> first[x] != '\n'
    requires rest != [] && rest[0] != '\n'
    ensures SplitLines(first + "\n" + rest) == [first] + SplitLines(rest)
  {
    var s := first + "\n" + rest;
    assert forall x :: 0 <= x < |first| ==> s[x] == first[x];
    assert s[|first|] == '\n';
    assert CharIndex(s, 0, '\n') == |first|;
    assert CharRun(s, |first|, '\n') == 1 by {
      assert s[|first| + 1] == rest[0];
    }
    assert s[|first| + 1..] == rest;
    assert s[..|first|] == first;
  }

  /** `lines.filter((line) => line.trim() !== '')` */
  function NonBlank(lines: seq<string>): (r: seq<string>)
    ensures |r| <= |lines|
    ensures forall k :: 0 <= k < |r| ==> !AllSpace(r[k])
    ensures forall x :: x in r <==> x in lines && !AllSpace(x)
  {
    if lines == [] then []
    else if AllSpace(lines[0]) then NonBlank(lines[1..])
    else [lines[0]] + NonBlank(lines[1..])
  }

  /** The filter works line by line: filtering two lists one after the other is filtering
      them joined, so the lines kept stay in their order. */
  lemma {:induction false} NonBlankAppend(a: seq<string>, b: seq<string>)
    ensures NonBlank(a + b) == NonBlank(a) + NonBlank(b)
    decreases |a|
  {
    if a != [] {
      assert (a + b)[0] == a[0] && (a + b)[1..] == a[1..] + b;
      NonBlankAppend(a[1..], b);
    } else {
      assert a + b == b;
    }
  }

  /** The filter keeps lines that are not blank, all of them, in order. */
  lemma {:induction false} NonBlankKeepsAll(lines: seq<string>)
    requires forall k :: 0 <= k < |lines| ==> !AllSpace(lines[k])
    ensures NonBlank(lines) == lines
    decreases |lines|
  {
    if lines != [] {
      NonBlankKeepsAll(lines[1..]);
      assert [lines[0]] + lines[1..] == lines;
    }
  }
}
