// splitLinkFromText (lib/splitLinkFromText.ts, repeated in lib/parser.ts): the text cut
// around every match of the link pattern `\[.+?\]\(.+?\)`.
//
// The pattern is searched as a JavaScript regular expression does: the leftmost start
// wins; at that start the lazy label `.+?` ends at the first `]` that lets the rest match,
// and the lazy url `.+?` at the first `)` after it. `.` matches anything but a line
// terminator, and both label and url hold at least one character.

module LinkSplit {
  import opened JsText

  /** The positions of one match: the `[`, the `]` and the `)`. The match is
      s[start..paren + 1]. */
  datatype LinkMatch = LinkMatch(start: nat, close: nat, paren: nat)

  /** A label `.+` from just after i up to the `]` at j, followed by `(`. */
  predicate LabelEndsAt(s: string, i: nat, j: nat) {
    i + 2 <= j && j + 1 < |s| && s[j] == ']' && s[j + 1] == '(' && NoLineTerminator(s, i + 1, j)
  }

  /** A url `.+` from j + 2 up to the `)` at k. */
  predicate UrlEndsAt(s: string, j: nat, k: nat) {
    j + 3 <= k < |s| && s[k] == ')' && NoLineTerminator(s, j + 2, k)
  }

  /** `\[.+\]\(.+\)` matches s[i..k + 1] with its `]` at j. Lazy and greedy quantifiers
      accept the same strings, so this is also what the greedy form matches. */
  predicate LinkAt(s: string, i: nat, j: nat, k: nat) {
    i < |s| && s[i] == '[' && LabelEndsAt(s, i, j) && UrlEndsAt(s, j, k)
  }

  /** m is the match JavaScript reports when searching from `from`: the leftmost start,
      then the earliest `]`, then the earliest `)`. */
  ghost predicate FirstLink(s: string, from: nat, m: LinkMatch) {
    from <= m.start && LinkAt(s, m.start, m.close, m.paren) &&
    (forall i: nat, j: nat, k: nat :: from <= i < m.start ==> !LinkAt(s, i, j, k)) &&
    (forall j: nat, k: nat :: j < m.close ==> !LinkAt(s, m.start, j, k)) &&
    (forall k: nat :: k < m.paren ==> !LinkAt(s, m.start, m.close, k))
  }

  ghost predicate NoLinkFrom(s: string, from: nat) {
    forall i: nat, j: nat, k: nat :: from <= i ==> !LinkAt(s, i, j, k)
  }

  /** The lazy url: the first `)` at or after k, at least one character after the `(`
      at j + 1, with no line terminator on the way. */
  function UrlClose(s: string, j: nat, k: nat): (r: Option<nat>)
    requires j + 2 <= k <= |s| && NoLineTerminator(s, j + 2, k)
    ensures r.Some? ==> k <= r.value && UrlEndsAt(s, j, r.value)
    ensures r.Some? ==> forall e: nat :: k <= e < r.value ==> !UrlEndsAt(s, j, e)
    ensures r.None? ==> forall e: nat :: k <= e ==> !UrlEndsAt(s, j, e)
    decreases |s| - k
  {
    if k == |s| then None
    else if IsLineTerminator(s[k]) then None
    else if s[k] == ')' && j + 3 <= k then Some(k)
    else UrlClose(s, j, k + 1)
  }

  /** The lazy label: the first `]` at or after j that is followed by `(` and a url. */
  function LabelClose(s: string, i: nat, j: nat): (r: Option<(nat, nat)>)
    requires i + 1 <= j <= |s| && NoLineTerminator(s, i + 1, j)
    ensures r.Some? ==> j <= r.value.0 && LabelEndsAt(s, i, r.value.0) && UrlEndsAt(s, r.value.0, r.value.1)
    ensures r.Some? ==> forall e: nat, k: nat :: j <= e < r.value.0 ==> !(LabelEndsAt(s, i, e) && UrlEndsAt(s, e, k))
    ensures r.Some? ==> forall k: nat :: k < r.value.1 ==> !UrlEndsAt(s, r.value.0, k)
    ensures r.None? ==> forall e: nat, k: nat :: j <= e ==> !(LabelEndsAt(s, i, e) && UrlEndsAt(s, e, k))
    decreases |s| - j
  {
    if j == |s| then None
    else if IsLineTerminator(s[j]) then None
    else if LabelEndsAt(s, i, j) && UrlClose(s, j, j + 2).Some? then
      Some((j, UrlClose(s, j, j + 2).value))
    else LabelClose(s, i, j + 1)
  }

  /** The match of `\[.+?\]\(.+?\)` at or after position `from`, if any. */
  function FindLink(s: string, from: nat): (r: Option<LinkMatch>)
    requires from <= |s|
    ensures r.Some? ==> FirstLink(s, from, r.value)
    ensures r.None? ==> NoLinkFrom(s, from)
    decreases |s| - from
  {
    if from == |s| then None
    else if s[from] == '[' && LabelClose(s, from, from + 1).Some? then
      var jk := LabelClose(s, from, from + 1).value;
      Some(LinkMatch(from, jk.0, jk.1))
    else FindLink(s, from + 1)
  }

  /** Whether the pattern matches anywhere in s (`linkRegexp.test`). */
  function HasLink(s: string): (b: bool)
    ensures b <==> exists i: nat, j: nat, k: nat :: LinkAt(s, i, j, k)
  {
    var r := FindLink(s, 0);
    if r.Some? then
      assert LinkAt(s, r.value.start, r.value.close, r.value.paren);
      true
    else false
  }

  /** Only the characters of the match decide whether there is a match: a link found in
      a piece of s is found in s at the same place, and back. */
  lemma LinkAtShift(s: string, t: string, x: nat, i: nat, j: nat, k: nat)
    requires OccursAt(s, t, x) && k < |t|
    ensures LinkAt(t, i, j, k) <==> LinkAt(s, x + i, x + j, x + k)
  {
    assert forall y :: 0 <= y < |t| ==> t[y] == s[x + y];
    if LinkAt(t, i, j, k) {
      assert NoLineTerminator(s, x + i + 1, x + j) by {
        forall y | x + i + 1 <= y < x + j ensures !IsLineTerminator(s[y]) {
          assert s[y] == t[y - x];
        }
      }
      assert NoLineTerminator(s, x + j + 2, x + k) by {
        forall y | x + j + 2 <= y < x + k ensures !IsLineTerminator(s[y]) {
          assert s[y] == t[y - x];
        }
      }
    }
    if LinkAt(s, x + i, x + j, x + k) {
      assert NoLineTerminator(t, i + 1, j) by {
        forall y | i + 1 <= y < j ensures !IsLineTerminator(t[y]) {
          assert t[y] == s[x + y];
        }
      }
      assert NoLineTerminator(t, j + 2, k) by {
        forall y | j + 2 <= y < k ensures !IsLineTerminator(t[y]) {
          assert t[y] == s[x + y];
        }
      }
    }
  }

  /** The text of a match occurs nowhere before the match itself, so `indexOf` on the
      matched text gives back the match's start. */
  lemma {:induction false} IndexOfMatch(s: string, m: LinkMatch)
    requires FirstLink(s, 0, m)
    ensures IndexOf(s, s[m.start..m.paren + 1], 0, m.start) == m.start
  {
    var link := s[m.start..m.paren + 1];
    var at := IndexOf(s, link, 0, m.start);
    if at < m.start {
      CopyIsLink(s, m, at);
      assert false;
    }
  }

  /** Another copy of a match's text is a match too, at the copy's place. */
  lemma CopyIsLink(s: string, m: LinkMatch, at: nat)
    requires LinkAt(s, m.start, m.close, m.paren) && m.start <= m.paren < |s|
    requires OccursAt(s, s[m.start..m.paren + 1], at)
    ensures LinkAt(s, at, at + (m.close - m.start), at + (m.paren - m.start))
  {
    var link := s[m.start..m.paren + 1];
    var j, k := m.close - m.start, m.paren - m.start;
    assert OccursAt(s, link, m.start);
    LinkAtShift(s, link, m.start, 0, j, k);
    assert LinkAt(link, 0, j, k);
    LinkAtShift(s, link, at, 0, j, k);
  }

  /** Where `indexOf` finds the text of the first match: at the match itself. */
  function LinkIndex(s: string, m: LinkMatch): (at: nat)
    requires FindLink(s, 0) == Some(m)
    ensures at == m.start
  {
    IndexOfMatch(s, m);
    IndexOf(s, s[m.start..m.paren + 1], 0, m.start)
  }

  /** A match is unique. */
  lemma FirstLinkUnique(s: string, from: nat, m: LinkMatch, n: LinkMatch)
    requires FirstLink(s, from, m) && FirstLink(s, from, n)
    ensures m == n
  {
  }

  /** s is, as a whole, the first match of the pattern in s. */
  predicate IsLink(s: string) {
    var r := FindLink(s, 0);
    r.Some? && r.value.start == 0 && r.value.paren + 1 == |s|
  }

  /** The match cut out of s is a link on its own. */
  lemma MatchIsLink(s: string, m: LinkMatch)
    requires FirstLink(s, 0, m)
    ensures IsLink(s[m.start..m.paren + 1])
  {
    var t := s[m.start..m.paren + 1];
    var n := LinkMatch(0, m.close - m.start, m.paren - m.start);
    LinkAtShift(s, t, m.start, 0, n.close, n.paren);
    forall j: nat, k: nat | j < n.close ensures !LinkAt(t, 0, j, k) {
      if k < |t| { LinkAtShift(s, t, m.start, 0, j, k); }
    }
    forall k: nat | k < n.paren ensures !LinkAt(t, 0, n.close, k) {
      LinkAtShift(s, t, m.start, 0, n.close, k);
    }
    assert FirstLink(t, 0, n);
    FirstLinkUnique(t, 0, FindLink(t, 0).value, n);
  }

  /** A link-free piece of s: no match in s starts inside it. */
  lemma PieceWithoutLink(s: string, t: string, x: nat)
    requires OccursAt(s, t, x)
    requires forall i: nat, j: nat, k: nat :: x <= i < x + |t| ==> !LinkAt(s, i, j, k)
    ensures !HasLink(t)
  {
    forall i: nat, j: nat, k: nat ensures !LinkAt(t, i, j, k) {
      if LinkAt(t, i, j, k) {
        LinkAtShift(s, t, x, i, j, k);
      }
    }
  }

  /** `filter(Boolean)` on strings: the empty ones are dropped. */
  function DropEmpty(xs: seq<string>): (r: seq<string>)
    ensures forall i :: 0 <= i < |r| ==> r[i] != []
  {
    if xs == [] then []
    else if xs[0] == [] then DropEmpty(xs[1..])
    else [xs[0]] + DropEmpty(xs[1..])
  }

  /** Dropping the empty strings keeps the concatenation. */
  lemma {:induction false} DropEmptyKeeps(xs: seq<string>)
    ensures Concat(DropEmpty(xs)) == Concat(xs)
  {
    if xs != [] {
      var rest := DropEmpty(xs[1..]);
      DropEmptyKeeps(xs[1..]);
      ConcatCons(xs[0], xs[1..]);
      assert xs == [xs[0]] + xs[1..];
      if xs[0] != [] {
        ConcatCons(xs[0], rest);
      }
    }
  }

  /** Dropping the empty strings keeps every piece a link or link-free. */
  lemma {:induction false} DropEmptyClassified(xs: seq<string>)
    requires Classified(xs)
    ensures Classified(DropEmpty(xs))
  {
    if xs != [] {
      assert Classified(xs[1..]) by {
        forall i | 0 <= i < |xs| - 1 ensures IsLink(xs[1..][i]) || !HasLink(xs[1..][i]) {
          assert xs[1..][i] == xs[i + 1];
        }
      }
      DropEmptyClassified(xs[1..]);
      if xs[0] != [] {
        var rest := DropEmpty(xs[1..]);
        forall i | 0 <= i < |[xs[0]] + rest| ensures IsLink(([xs[0]] + rest)[i]) || !HasLink(([xs[0]] + rest)[i]) {
          if i > 0 { assert ([xs[0]] + rest)[i] == rest[i - 1]; }
        }
      }
    }
  }

  /** The pieces joined back together. */
  function Concat(xs: seq<string>): string
  {
    if xs == [] then [] else xs[0] + Concat(xs[1..])
  }

  lemma ConcatCons(x: string, xs: seq<string>)
    ensures Concat([x] + xs) == x + Concat(xs)
  {
    assert ([x] + xs)[1..] == xs;
  }

  /** splitLinkFromText: the text before the first link, the link, and the split of the
      rest, with empty pieces dropped. The link is located again with `indexOf`. */
  function SplitLinkFromText(input: string): (r: seq<string>)
    ensures input != [] ==> forall i :: 0 <= i < |r| ==> r[i] != []
    ensures input == [] ==> r == [[]]
    decreases |input|
  {
    match FindLink(input, 0)
    case None => [input]
    case Some(m) =>
      var link := input[m.start..m.paren + 1];
      var at := LinkIndex(input, m);
      var after := input[at + |link|..];
      var tail := SplitLinkFromText(after);
      DropEmpty([input[..at], link] + tail)
  }

  /** Concatenating the fragments gives the input back. */
  lemma {:induction false} SplitJoinsAll(input: string)
    ensures Concat(SplitLinkFromText(input)) == input
    decreases |input|
  {
    match FindLink(input, 0)
    case None =>
      ConcatCons(input, []);
    case Some(m) =>
      var after := input[m.paren + 1..];
      SplitJoinsAll(after);
      SplitAtMatch(input, m);
      SplitStep(input, m, SplitLinkFromText(after));
  }

  /** Without a link the text comes back as the only fragment. */
  lemma SplitNoLink(input: string)
    requires !HasLink(input)
    ensures SplitLinkFromText(input) == [input]
  {
  }

  /** Links and link-free pieces only. */
  predicate Classified(xs: seq<string>) {
    forall i :: 0 <= i < |xs| ==> IsLink(xs[i]) || !HasLink(xs[i])
  }

  /** One step of SplitLinkFromText puts the input back together. */
  lemma SplitJoins(input: string, m: LinkMatch, tail: seq<string>)
    requires m.start <= m.paren < |input|
    requires Concat(tail) == input[m.paren + 1..]
    ensures Concat([input[..m.start], input[m.start..m.paren + 1]] + tail) == input
  {
    var link := input[m.start..m.paren + 1];
    var before := input[..m.start];
    var after := input[m.paren + 1..];
    ConcatCons(link, tail);
    ConcatCons(before, [link] + tail);
    assert [before, link] + tail == [before] + ([link] + tail);
    assert before + (link + after) == input;
  }

  /** One step of SplitLinkFromText gives a link-free piece, then the link. */
  lemma SplitClassified(input: string, m: LinkMatch, tail: seq<string>)
    requires FirstLink(input, 0, m)
    requires Classified(tail)
    ensures Classified([input[..m.start], input[m.start..m.paren + 1]] + tail)
  {
    MatchIsLink(input, m);
    PieceWithoutLink(input, input[..m.start], 0);
  }

  /** One step of SplitLinkFromText, once the empty pieces are dropped. */
  lemma SplitStep(input: string, m: LinkMatch, tail: seq<string>)
    requires m.start <= m.paren < |input|
    requires Concat(tail) == input[m.paren + 1..]
    ensures var r := DropEmpty([input[..m.start], input[m.start..m.paren + 1]] + tail);
            Concat(r) == input && forall i :: 0 <= i < |r| ==> r[i] != []
  {
    SplitJoins(input, m, tail);
    DropEmptyKeeps([input[..m.start], input[m.start..m.paren + 1]] + tail);
  }

  /** Every piece SplitLinkFromText returns is a link on its own or holds no link. */
  lemma {:induction false} SplitClassifiedAll(input: string)
    ensures Classified(SplitLinkFromText(input))
    decreases |input|
  {
    match FindLink(input, 0)
    case None =>
    case Some(m) =>
      var tail := SplitLinkFromText(input[m.paren + 1..]);
      SplitAtMatch(input, m);
      SplitClassifiedAll(input[m.paren + 1..]);
      SplitClassified(input, m, tail);
      var pieces := [input[..m.start], input[m.start..m.paren + 1]] + tail;
      DropEmptyClassified(pieces);
  }

  // ---------------------------------------------------------------------------------
  // Which texts are split, and how

  /** Text that can appear between the brackets or the parentheses of a simple link. */
  predicate LinkPart(x: string) {
    x != [] && forall y :: 0 <= y < |x| ==> !IsBracket(x[y]) && !IsLineTerminator(x[y])
  }

  predicate IsBracket(c: char) {
    c == '[' || c == ']' || c == '(' || c == ')'
  }

  /** `[l](u)` */
  function SimpleLink(l: string, u: string): (s: string)
  {
    "[" + l + "](" + u + ")"
  }

  /** A link alone is not cut further. */
  lemma {:induction false} SingleLink(s: string)
    requires IsLink(s)
    ensures SplitLinkFromText(s) == [s]
  {
    var m := FindLink(s, 0).value;
    SplitAtMatch(s, m);
    var e: string := [];
    assert s[..0] == e && s[0..|s|] == s && s[|s|..] == e;
    DropEmptyAround(s);
  }

  /** SplitLinkFromText cuts at the match itself: `indexOf` never finds the matched text
      earlier. */
  lemma SplitAtMatch(s: string, m: LinkMatch)
    requires FindLink(s, 0) == Some(m)
    ensures SplitLinkFromText(s)
         == DropEmpty([s[..m.start], s[m.start..m.paren + 1]] + SplitLinkFromText(s[m.paren + 1..]))
  {
    var at := LinkIndex(s, m);
    assert at + |s[m.start..m.paren + 1]| == m.paren + 1;
  }

  lemma DropEmptyAround(s: string)
    requires s != []
    ensures DropEmpty([[], s] + [[]]) == [s]
  {
    var e: string := [];
    assert [e, s] + [e] == [e, s, e];
    assert [e, s, e][1..] == [s, e];
    assert [s, e][1..] == [e];
    assert [e][1..] == [];
    assert DropEmpty([e]) == [];
    assert DropEmpty([s, e]) == [s] + [];
    assert DropEmpty([e, s, e]) == DropEmpty([s, e]);
  }

  /** Without `](` there is nothing to split: a `[` with no `]`, or a `]` not followed by
      `(`, leaves the text whole. */
  lemma NoCloseNoSplit(s: string)
    requires forall y :: 0 <= y < |s| - 1 ==> !(s[y] == ']' && s[y + 1] == '(')
    ensures SplitLinkFromText(s) == [s]
  {
    forall i: nat, j: nat, k: nat ensures !LinkAt(s, i, j, k) {
      if j + 1 < |s| {
        assert !(s[j] == ']' && s[j + 1] == '(');
      }
    }
  }

  /** `[](u)`: the label must hold a character, so this is no link. */
  lemma EmptyLabelNoSplit(u: string)
    requires LinkPart(u)
    ensures !HasLink("[](" + u + ")")
    ensures SplitLinkFromText("[](" + u + ")") == ["[](" + u + ")"]
  {
    var s := "[](" + u + ")";
    assert s[1] == ']';
    assert forall y :: 3 <= y < 3 + |u| ==> s[y] == u[y - 3];
    forall i: nat, j: nat, k: nat ensures !LinkAt(s, i, j, k) {
      if 3 <= j < 3 + |u| {
        assert s[j] == u[j - 3];
      }
    }
  }

  /** `[l]()`: the url must hold a character, so this is no link. */
  lemma EmptyUrlNoSplit(l: string)
    requires LinkPart(l)
    ensures !HasLink("[" + l + "]()")
    ensures SplitLinkFromText("[" + l + "]()") == ["[" + l + "]()"]
  {
    var s := "[" + l + "]()";
    assert forall y :: 1 <= y < 1 + |l| ==> s[y] == l[y - 1];
    forall i: nat, j: nat, k: nat ensures !LinkAt(s, i, j, k) {
      if 1 <= j < 1 + |l| {
        assert s[j] == l[j - 1];
      }
    }
  }

  /** Text without `[` holds no link. */
  lemma NoOpenNoLink(s: string)
    requires forall y :: 0 <= y < |s| ==> s[y] != '['
    ensures !HasLink(s)
  {
    forall i: nat, j: nat, k: nat ensures !LinkAt(s, i, j, k) {
      if i < |s| {
        assert s[i] != '[';
      }
    }
  }

  /** Where the characters of `[l](u)` sit. */
  lemma SimpleLinkChars(l: string, u: string)
    ensures var s := SimpleLink(l, u);
            |s| == |l| + |u| + 4 && s[0] == '[' && s[|l| + 1] == ']' && s[|l| + 2] == '(' &&
            s[|s| - 1] == ')' &&
            (forall y :: 1 <= y < |l| + 1 ==> s[y] == l[y - 1]) &&
            (forall y :: |l| + 3 <= y < |s| - 1 ==> s[y] == u[y - |l| - 3])
  {
  }

  /** A simple link at position a, with no `[` before it, is the first match. */
  lemma SimpleLinkFirst(s: string, a: nat, l: string, u: string)
    requires OccursAt(s, SimpleLink(l, u), a)
    requires forall y :: 0 <= y < a ==> s[y] != '['
    requires LinkPart(l) && LinkPart(u)
    ensures FirstLink(s, 0, LinkMatch(a, a + 1 + |l|, a + |SimpleLink(l, u)| - 1))
  {
    var link := SimpleLink(l, u);
    var c := a + 1 + |l|;
    var q := a + |link| - 1;
    SimpleLinkChars(l, u);
    assert forall y :: a <= y < a + |link| ==> s[y] == link[y - a];
    assert LinkAt(s, a, c, q) by {
      assert s[a] == '[' && s[c] == ']' && s[c + 1] == '(' && s[q] == ')';
      forall y | a + 1 <= y < c ensures !IsLineTerminator(s[y]) {
        assert s[y] == l[y - a - 1];
      }
      forall y | c + 2 <= y < q ensures !IsLineTerminator(s[y]) {
        assert s[y] == u[y - c - 2];
      }
    }
    forall i: nat, j: nat, k: nat | i < a ensures !LinkAt(s, i, j, k) {
      assert s[i] != '[';
    }
    forall j: nat, k: nat | j < c ensures !LinkAt(s, a, j, k) {
      if a + 2 <= j { assert s[j] == l[j - a - 1]; }
    }
    forall k: nat | k < q ensures !LinkAt(s, a, c, k) {
      if c + 3 <= k { assert s[k] == u[k - c - 2]; }
    }
  }

  /** The first simple link after text without `[` is cut out of the text, and the rest
      is split on its own. */
  lemma SplitAroundLink(p: string, l: string, u: string, t: string)
    requires forall y :: 0 <= y < |p| ==> p[y] != '['
    requires LinkPart(l) && LinkPart(u)
    ensures SplitLinkFromText(p + SimpleLink(l, u) + t)
         == DropEmpty([p, SimpleLink(l, u)] + SplitLinkFromText(t))
  {
    var link := SimpleLink(l, u);
    var s := p + link + t;
    var m := LinkMatch(|p|, |p| + 1 + |l|, |p| + |link| - 1);
    FindAfterPrefix(p, l, u, t);
    SplitAtMatch(s, m);
    Slices(p, link, t);
  }

  lemma Slices(p: string, x: string, t: string)
    ensures var s := p + x + t;
            s[..|p|] == p && s[|p|..|p| + |x|] == x && s[|p| + |x|..] == t
  {
  }

  lemma FindAfterPrefix(p: string, l: string, u: string, t: string)
    requires forall y :: 0 <= y < |p| ==> p[y] != '['
    requires LinkPart(l) && LinkPart(u)
    ensures FindLink(p + SimpleLink(l, u) + t, 0)
         == Some(LinkMatch(|p|, |p| + 1 + |l|, |p| + |SimpleLink(l, u)| - 1))
  {
    var link := SimpleLink(l, u);
    var s := p + link + t;
    PrefixThenPiece(p, link, t);
    SimpleLinkFirst(s, |p|, l, u);
    FindLinkIs(s, LinkMatch(|p|, |p| + 1 + |l|, |p| + |link| - 1));
  }

  /** In p + x + t, x occurs right after p, and p's characters come first. */
  lemma PrefixThenPiece(p: string, x: string, t: string)
    requires forall y :: 0 <= y < |p| ==> p[y] != '['
    ensures OccursAt(p + x + t, x, |p|)
    ensures forall y :: 0 <= y < |p| ==> (p + x + t)[y] != '['
  {
    var s := p + x + t;
    assert s[|p|..|p| + |x|] == x;
    assert forall y :: 0 <= y < |p| ==> s[y] == p[y];
  }

  /** The search from the start returns the first match. */
  lemma FindLinkIs(s: string, m: LinkMatch)
    requires FirstLink(s, 0, m)
    ensures FindLink(s, 0) == Some(m)
  {
    assert LinkAt(s, m.start, m.close, m.paren);
    FirstLinkUnique(s, 0, FindLink(s, 0).value, m);
  }

  lemma DropEmptyPair(x: string, y: string)
    requires x != [] && y != []
    ensures DropEmpty([[], x] + [y]) == [x, y]
  {
    var e: string := [];
    assert [e, x] + [y] == [e, x, y];
    assert [e, x, y][1..] == [x, y];
    assert [x, y][1..] == [y];
    assert [y][1..] == [];
    assert DropEmpty([y]) == [y] + DropEmpty([]);
    assert DropEmpty([x, y]) == [x] + DropEmpty([y]);
  }

  /** Dropping the empty strings from non-empty strings changes nothing. */
  lemma {:induction false} DropEmptyNone(xs: seq<string>)
    requires forall i :: 0 <= i < |xs| ==> xs[i] != []
    ensures DropEmpty(xs) == xs
  {
    if xs != [] {
      DropEmptyNone(xs[1..]);
    }
  }

  /** A simple link at the head of the text is cut off, and the rest is split on its own. */
  lemma LeadingLink(l: string, u: string, t: string)
    requires LinkPart(l) && LinkPart(u) && t != []
    ensures SplitLinkFromText(SimpleLink(l, u) + t) == [SimpleLink(l, u)] + SplitLinkFromText(t)
  {
    LinkAtHead(l, u, t);
    DropEmptyLead(SimpleLink(l, u), SplitLinkFromText(t));
  }

  lemma LinkAtHead(l: string, u: string, t: string)
    requires LinkPart(l) && LinkPart(u)
    ensures SplitLinkFromText(SimpleLink(l, u) + t) == DropEmpty([[], SimpleLink(l, u)] + SplitLinkFromText(t))
  {
    var link := SimpleLink(l, u);
    var s := link + t;
    var m := LinkMatch(0, 1 + |l|, |link| - 1);
    assert s[0..|link|] == link;
    SimpleLinkFirst(s, 0, l, u);
    FirstLinkUnique(s, 0, FindLink(s, 0).value, m);
    SplitAtMatch(s, m);
    assert s[..0] == [] && s[0..m.paren + 1] == link && s[m.paren + 1..] == t;
  }

  lemma DropEmptyLead(x: string, xs: seq<string>)
    requires x != [] && forall i :: 0 <= i < |xs| ==> xs[i] != []
    ensures DropEmpty([[], x] + xs) == [x] + xs
  {
    DropEmptySkip(x, xs);
    DropEmptyNone(xs);
    DropEmptyCons(x, xs);
  }

  lemma DropEmptySkip(x: string, xs: seq<string>)
    ensures DropEmpty([[], x] + xs) == DropEmpty([x] + xs)
  {
    var e: string := [];
    var ys := [e, x] + xs;
    assert ys[0] == [] && ys[1..] == [x] + xs;
  }

  lemma DropEmptyCons(x: string, xs: seq<string>)
    requires x != []
    ensures DropEmpty([x] + xs) == [x] + DropEmpty(xs)
  {
    assert ([x] + xs)[1..] == xs;
  }

  /** Two links side by side come out as two pieces. */
  lemma AdjacentLinks(l1: string, u1: string, l2: string, u2: string)
    requires LinkPart(l1) && LinkPart(u1) && LinkPart(l2) && LinkPart(u2)
    ensures SplitLinkFromText(SimpleLink(l1, u1) + SimpleLink(l2, u2))
         == [SimpleLink(l1, u1), SimpleLink(l2, u2)]
  {
    SimpleLinkAlone(l2, u2);
    LeadingLink(l1, u1, SimpleLink(l2, u2));
  }

  /** A simple link alone is one piece. */
  lemma SimpleLinkAlone(l: string, u: string)
    requires LinkPart(l) && LinkPart(u)
    ensures SplitLinkFromText(SimpleLink(l, u)) == [SimpleLink(l, u)]
  {
    var e: string := [];
    var link := SimpleLink(l, u);
    SplitAroundLink(e, l, u, e);
    assert e + link + e == link;
    DropEmptyAround(link);
  }

  /** Text, a link, text: three pieces in their order. */
  lemma LinkBetweenText(p: string, l: string, u: string, t: string)
    requires p != [] && t != []
    requires forall y :: 0 <= y < |p| ==> p[y] != '['
    requires forall y :: 0 <= y < |t| ==> t[y] != '['
    requires LinkPart(l) && LinkPart(u)
    ensures SplitLinkFromText(p + SimpleLink(l, u) + t) == [p, SimpleLink(l, u), t]
  {
    SplitAroundLink(p, l, u, t);
    NoOpenNoLink(t);
    ThreePieces(p, SimpleLink(l, u), t);
  }

  /** Three pieces none of which is empty are all kept. */
  lemma ThreePieces(a: string, b: string, c: string)
    requires a != [] && b != [] && c != []
    ensures DropEmpty([a, b] + [c]) == [a, b, c]
  {
    assert [a, b] + [c] == [a, b, c];
    DropEmptyNone([a, b, c]);
  }
}
