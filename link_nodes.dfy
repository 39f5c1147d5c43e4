// parseLinkInTextBody (lib/parseLinkInTextBody.ts, repeated in lib/parser.ts) and the
// inline body every text-bearing block builds: styles first, then links inside the plain
// runs.

module LinkNodes {
  import opened JsText
  import opened Definition
  import opened TextStyle
  import opened LinkSplit

  /** `\<open>(.+)\<close>` matches text[i..j + 1]: the capture is text[i + 1..j]. */
  predicate GreedyAt(text: string, i: nat, j: nat, open: char, close: char) {
    i < |text| && text[i] == open && i + 2 <= j < |text| && text[j] == close &&
    NoLineTerminator(text, i + 1, j)
  }

  /** The last c in text[lo..hi], if any. */
  function LastBefore(text: string, lo: nat, hi: nat, c: char): (r: Option<nat>)
    requires lo <= hi <= |text|
    ensures r.Some? ==> lo <= r.value < hi && text[r.value] == c
    ensures r.Some? ==> forall y :: r.value < y < hi ==> text[y] != c
    ensures r.None? ==> forall y :: lo <= y < hi ==> text[y] != c
    decreases hi - lo
  {
    if hi == lo then None
    else if text[hi - 1] == c then Some(hi - 1)
    else LastBefore(text, lo, hi - 1, c)
  }

  /** The greedy match of `\<open>(.+)\<close>` searched from i: the leftmost opening
      character that has a closing one after it on the same line, and the last such closing
      character. */
  function GreedyFrom(text: string, i: nat, open: char, close: char): (r: Option<(nat, nat)>)
    requires i <= |text| && !IsLineTerminator(close)
    ensures r.Some? ==> i <= r.value.0 && GreedyAt(text, r.value.0, r.value.1, open, close)
    ensures r.Some? ==> forall a: nat, b: nat :: i <= a < r.value.0 ==> !GreedyAt(text, a, b, open, close)
    ensures r.Some? ==> forall b: nat :: r.value.1 < b ==> !GreedyAt(text, r.value.0, b, open, close)
    ensures r.None? ==> forall a: nat, b: nat :: i <= a ==> !GreedyAt(text, a, b, open, close)
    decreases |text| - i
  {
    if i == |text| then None
    else
      var e := i + 1 + LineRun(text, i + 1);
      GreedyWithinLine(text, i, open, close);
      if text[i] == open && i + 2 <= e && LastBefore(text, i + 2, e, close).Some? then
        Some((i, LastBefore(text, i + 2, e, close).value))
      else
        GreedyFrom(text, i + 1, open, close)
  }

  /** A greedy capture stays on its line. */
  lemma GreedyWithinLine(text: string, i: nat, open: char, close: char)
    requires i < |text| && !IsLineTerminator(close)
    ensures forall b: nat :: GreedyAt(text, i, b, open, close) ==> b < i + 1 + LineRun(text, i + 1)
  {
    var e := i + 1 + LineRun(text, i + 1);
    if e < |text| {
      assert IsLineTerminator(text[e]);
    }
  }

  /** `text.match(/\[(.+)\]/)?.[1] ?? ''` and its counterpart for parentheses. */
  function Capture(text: string, open: char, close: char): (c: string)
    requires !IsLineTerminator(close)
    ensures c != [] <==> exists i: nat, j: nat :: GreedyAt(text, i, j, open, close)
    ensures OnOneLine(c)
  {
    match GreedyFrom(text, 0, open, close)
    case None => []
    case Some(p) => text[p.0 + 1..p.1]
  }

  /** The node one fragment of the split becomes: a link whose label is tokenized, or
      the fragment as text in the style of the run it came from. A link node always has a
      non-empty label and a non-empty url on one line. */
  function FragmentNode(style: Style, fragment: string): (n: Inline)
    ensures n.TextNode? <==> !HasLink(fragment)
    ensures n.TextNode? ==> n.text == TextBody(style, fragment)
    ensures n.LinkNode? ==> n.link.body != [] && n.link.url != [] && OnOneLine(n.link.url)
  {
    if HasLink(fragment) then
      LinkPartsCaptured(fragment);
      LinkNode(Link(ParseTextBody(Capture(fragment, '[', ']')), Capture(fragment, '(', ')')))
    else
      TextNode(TextBody(style, fragment))
  }

  /** Text holding a link has a bracket capture and a parenthesis capture. */
  lemma LinkPartsCaptured(f: string)
    requires HasLink(f)
    ensures Capture(f, '[', ']') != [] && Capture(f, '(', ')') != []
  {
    var i: nat, j: nat, k: nat :| LinkAt(f, i, j, k);
    assert GreedyAt(f, i, j, '[', ']');
    assert GreedyAt(f, j + 1, k, '(', ')');
  }

  /** parseLinkInTextBody: one node per fragment of splitLinkFromText, in order. */
  function ParseLinkInTextBody(input: TextBody): (r: seq<Inline>)
    ensures var fragments := SplitLinkFromText(input.value);
            |r| == |fragments| &&
            forall k :: 0 <= k < |r| ==>
              (r[k].TextNode? <==> !HasLink(fragments[k])) &&
              (r[k].TextNode? ==> r[k].text == TextBody(input.style, fragments[k])) &&
              (r[k].LinkNode? ==> IsLink(fragments[k]))
  {
    var fragments := SplitLinkFromText(input.value);
    SplitClassifiedAll(input.value);
    seq(|fragments|, k requires 0 <= k < |fragments| => FragmentNode(input.style, fragments[k]))
  }

  // ---------------------------------------------------------------------------------
  // Properties

  /** Without a link the run comes back unchanged, style and all. */
  lemma NoLinkUnchanged(input: TextBody)
    requires !HasLink(input.value)
    ensures ParseLinkInTextBody(input) == [TextNode(input)]
  {
  }

  /** A link fragment holds no line terminator. */
  lemma LinkOnOneLine(f: string)
    requires IsLink(f)
    ensures OnOneLine(f)
  {
    var m := FindLink(f, 0).value;
    assert LinkAt(f, 0, m.close, m.paren);
    forall y | 0 <= y < |f| ensures !IsLineTerminator(f[y]) {
      if y == 0 || y == m.close || y == m.close + 1 || y == m.paren {
      } else if y < m.close {
        assert 1 <= y;
      } else {
        assert m.close + 2 <= y < m.paren;
      }
    }
  }

  /** The label of a link node is the text between the fragment's first `[` and its last
      `]`, and the url the text between its first `(` and its last `)`. */
  lemma LinkCaptures(f: string, c: nat, q: nat)
    requires IsLink(f)
    requires c < |f| && f[c] == ']' && forall y :: c < y < |f| ==> f[y] != ']'
    requires q < |f| && f[q] == '(' && forall y :: 0 <= y < q ==> f[y] != '('
    ensures Capture(f, '[', ']') == f[1..c]
    ensures Capture(f, '(', ')') == f[q + 1..|f| - 1]
  {
    var m := FindLink(f, 0).value;
    assert LinkAt(f, 0, m.close, m.paren);
    LinkOnOneLine(f);
    assert m.close <= c;
    assert q <= m.close + 1;
    assert GreedyAt(f, 0, c, '[', ']');
    assert GreedyAt(f, q, |f| - 1, '(', ')');
    var brackets := GreedyFrom(f, 0, '[', ']').value;
    assert brackets.1 == c by {
      assert GreedyAt(f, 0, brackets.1, '[', ']');
    }
    var parens := GreedyFrom(f, 0, '(', ')').value;
    assert parens == (q, |f| - 1) by {
      assert GreedyAt(f, parens.0, parens.1, '(', ')');
    }
  }

  /** `[l](u)` is, as a whole, a link. */
  lemma SimpleLinkIsLink(l: string, u: string)
    requires LinkPart(l) && LinkPart(u)
    ensures IsLink(SimpleLink(l, u))
  {
    var s := SimpleLink(l, u);
    assert s[0..|s|] == s;
    SimpleLinkFirst(s, 0, l, u);
    FirstLinkUnique(s, 0, FindLink(s, 0).value, LinkMatch(0, 1 + |l|, |s| - 1));
  }

  /** The fragment `[l](u)` becomes a link node: its body is l tokenized, its url u
      verbatim. */
  lemma SimpleLinkFragment(style: Style, l: string, u: string)
    requires LinkPart(l) && LinkPart(u)
    ensures FragmentNode(style, SimpleLink(l, u)) == LinkNode(Link(ParseTextBody(l), u))
  {
    var s := SimpleLink(l, u);
    SimpleLinkIsLink(l, u);
    SimpleLinkChars(l, u);
    assert s[1..1 + |l|] == l;
    assert s[|l| + 3..|s| - 1] == u;
    LinkCaptures(s, |l| + 1, |l| + 2);
  }

  /** A run that is just `[l](u)` becomes one link node. */
  lemma SimpleLinkNode(style: Style, l: string, u: string)
    requires LinkPart(l) && LinkPart(u)
    ensures ParseLinkInTextBody(TextBody(style, SimpleLink(l, u)))
         == [LinkNode(Link(ParseTextBody(l), u))]
  {
    SimpleLinkAlone(l, u);
    SimpleLinkFragment(style, l, u);
  }

  /** A styled label: `[**x**](u)` gets the body [strong x]. */
  lemma StrongLabel(style: Style, x: string, u: string)
    requires LinkPart(x) && MarkerFree(x) && LinkPart(u)
    ensures ParseLinkInTextBody(TextBody(style, SimpleLink("**" + x + "**", u)))
         == [LinkNode(Link([TextBody(Strong, x)], u))]
  {
    var l := "**" + x + "**";
    assert forall y :: 2 <= y < |x| + 2 ==> l[y] == x[y - 2];
    assert LinkPart(l);
    SimpleLinkNode(style, l, u);
    ClosedSpanAlone("**", x, "**");
  }

  /** Text, a link, text: the text keeps the run's style, the link in between. */
  lemma LinkBetweenTextNodes(style: Style, p: string, l: string, u: string, t: string)
    requires p != [] && t != []
    requires forall y :: 0 <= y < |p| ==> p[y] != '['
    requires forall y :: 0 <= y < |t| ==> t[y] != '['
    requires LinkPart(l) && LinkPart(u)
    ensures ParseLinkInTextBody(TextBody(style, p + SimpleLink(l, u) + t))
         == [TextNode(TextBody(style, p)), LinkNode(Link(ParseTextBody(l), u)), TextNode(TextBody(style, t))]
  {
    var input := TextBody(style, p + SimpleLink(l, u) + t);
    LinkBetweenText(p, l, u, t);
    ThreeFragments(input, p, SimpleLink(l, u), t);
    NoOpenNoLink(p);
    NoOpenNoLink(t);
    SimpleLinkFragment(style, l, u);
  }

  /** A run split into three fragments becomes their three nodes, in order. */
  lemma ThreeFragments(input: TextBody, a: string, b: string, c: string)
    requires SplitLinkFromText(input.value) == [a, b, c]
    ensures ParseLinkInTextBody(input)
         == [FragmentNode(input.style, a), FragmentNode(input.style, b), FragmentNode(input.style, c)]
  {
    NodeOfFragment(input, 0);
    NodeOfFragment(input, 1);
    NodeOfFragment(input, 2);
    ThreeItems(ParseLinkInTextBody(input));
  }

  /** A sequence of three elements is the display of those elements. */
  lemma ThreeItems(r: seq<Inline>)
    requires |r| == 3
    ensures r == [r[0], r[1], r[2]]
  {
  }

  /** Node k is made from fragment k alone. */
  lemma NodeOfFragment(input: TextBody, k: nat)
    requires k < |SplitLinkFromText(input.value)|
    ensures k < |ParseLinkInTextBody(input)|
    ensures ParseLinkInTextBody(input)[k] == FragmentNode(input.style, SplitLinkFromText(input.value)[k])
  {
  }

  /** `[](u)` and `[l]()` are no links: the run comes back as it is. */
  lemma EmptyPartsStayText(style: Style, l: string, u: string)
    requires LinkPart(l) && LinkPart(u)
    ensures ParseLinkInTextBody(TextBody(style, "[](" + u + ")")) == [TextNode(TextBody(style, "[](" + u + ")"))]
    ensures ParseLinkInTextBody(TextBody(style, "[" + l + "]()")) == [TextNode(TextBody(style, "[" + l + "]()"))]
  {
    EmptyLabelNoSplit(u);
    EmptyUrlNoSplit(l);
  }
}
