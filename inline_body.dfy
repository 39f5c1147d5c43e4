// The body every text-bearing block builds (lib/parser.ts:69-78, 236-242, 254-260,
// 283-289): the text is tokenized into styled runs first, then each plain run that holds a
// link is replaced by the nodes parseLinkInTextBody makes of it, and the lists are flattened.

module InlineBody {
  import opened Definition
  import opened TextStyle
  import opened LinkSplit
  import opened LinkNodes

  /** The nodes one run becomes: a plain run with a link is split into text and links;
      every other run is kept as a text node. A run always gives at least one node, its
      text nodes keep its style, and a styled run is never searched for links. */
  function RunNodes(run: TextBody): (r: seq<Inline>)
    ensures r != []
    ensures forall k :: 0 <= k < |r| && r[k].TextNode? ==> r[k].text.style == run.style
    ensures run.style != Plain || !HasLink(run.value) ==> r == [TextNode(run)]
  {
    if run.style == Plain && HasLink(run.value) then
      SplitJoinsAll(run.value);
      ParseLinkInTextBody(run)
    else [TextNode(run)]
  }

  /** `runs.map(RunNodes).flat()`: every run gives at least one node. */
  function Flatten(runs: seq<TextBody>): (r: seq<Inline>)
    ensures |r| >= |runs|
    ensures runs == [] ==> r == []
  {
    if runs == [] then [] else RunNodes(runs[0]) + Flatten(runs[1..])
  }

  /** The body of a paragraph, heading, quote or list item holding `text`: empty exactly
      when the text is. */
  function Body(text: string): (r: seq<Inline>)
    ensures r == [] <==> text == []
  {
    Flatten(ParseTextBody(text))
  }

  /** Every run as a text node. */
  function TextNodes(runs: seq<TextBody>): seq<Inline>
  {
    seq(|runs|, i requires 0 <= i < |runs| => TextNode(runs[i]))
  }

  /** No run is plain with a link in it. */
  predicate LinkFree(runs: seq<TextBody>) {
    forall i :: 0 <= i < |runs| ==> runs[i].style != Plain || !HasLink(runs[i].value)
  }

  // ---------------------------------------------------------------------------------
  // Properties

  /** The map-then-flatten works run by run: the body of two lists of runs is the two
      bodies one after the other. */
  lemma {:induction false} FlattenAppend(a: seq<TextBody>, b: seq<TextBody>)
    ensures Flatten(a + b) == Flatten(a) + Flatten(b)
    decreases |a|
  {
    if a != [] {
      var t := a[1..];
      assert a == [a[0]] + t;
      assert a + b == [a[0]] + (t + b);
      FlattenCons(a[0], t);
      FlattenCons(a[0], t + b);
      FlattenAppend(t, b);
      AppendAssoc(RunNodes(a[0]), Flatten(t), Flatten(b));
    } else {
      assert a + b == b;
    }
  }

  /** One run in front: its nodes come first. */
  lemma FlattenCons(run: TextBody, rest: seq<TextBody>)
    ensures Flatten([run] + rest) == RunNodes(run) + Flatten(rest)
  {
    assert ([run] + rest)[1..] == rest;
  }

  /** Runs with no link to extract are kept one for one, in order. */
  lemma {:induction false} FlattenLinkFree(runs: seq<TextBody>)
    requires LinkFree(runs)
    ensures Flatten(runs) == TextNodes(runs)
    decreases |runs|
  {
    if runs != [] {
      var tail := runs[1..];
      assert LinkFree(tail) by {
        forall i | 0 <= i < |tail| ensures tail[i].style != Plain || !HasLink(tail[i].value) {
          assert tail[i] == runs[i + 1];
        }
      }
      FlattenLinkFree(tail);
      assert TextNodes(runs) == [TextNode(runs[0])] + TextNodes(tail);
    }
  }

  /** Marker-free text is handed whole to parseLinkInTextBody as one plain run. */
  lemma PlainBody(s: string)
    requires s != [] && MarkerFree(s)
    ensures Body(s) == ParseLinkInTextBody(TextBody(Plain, s))
  {
    PlainText(s);
    var run := TextBody(Plain, s);
    assert Flatten([run]) == RunNodes(run) + Flatten([]);
    if !HasLink(s) {
      NoLinkUnchanged(run);
    }
  }

  /** Marked-up text without links gives back the runs it was written from, as text
      nodes. */
  lemma RenderedBody(runs: seq<TextBody>)
    requires Renderable(runs) && LinkFree(runs)
    ensures Body(Render(runs)) == TextNodes(runs)
  {
    RenderRoundTrip(runs, []);
    assert [] + runs == runs;
    FlattenLinkFree(runs);
  }

  /** Styles are read before links: in a block, `[**x**](u)` is torn apart by the strong
      marker, and no run holds the whole link, so no link node is made. */
  lemma StyledLabelInBlock(x: string, u: string)
    requires LinkPart(x) && MarkerFree(x) && LinkPart(u) && MarkerFree(u)
    ensures Body(SimpleLink("**" + x + "**", u))
         == [TextNode(TextBody(Plain, "[")), TextNode(TextBody(Strong, x)), TextNode(TextBody(Plain, "](" + u + ")"))]
  {
    var runs := [TextBody(Plain, "["), TextBody(Strong, x), TextBody(Plain, "](" + u + ")")];
    StyledLabelRuns(x, u);
    StyledRunsLinkFree(x, u);
    FlattenLinkFree(runs);
    ThreeTextNodes(runs[0], runs[1], runs[2]);
  }

  /** None of the plain runs `[` and `](u)` holds a link. */
  lemma StyledRunsLinkFree(x: string, u: string)
    requires LinkPart(u)
    ensures LinkFree([TextBody(Plain, "["), TextBody(Strong, x), TextBody(Plain, "](" + u + ")")])
  {
    var rest := "](" + u + ")";
    forall i: nat, j: nat, k: nat ensures !LinkAt("[", i, j, k) {
    }
    assert forall y :: 2 <= y < |rest| - 1 ==> rest[y] == u[y - 2];
    NoOpenNoLink(rest);
  }

  /** Three runs as text nodes. */
  lemma ThreeTextNodes(a: TextBody, b: TextBody, c: TextBody)
    ensures TextNodes([a, b, c]) == [TextNode(a), TextNode(b), TextNode(c)]
  {
  }

  /** The runs `[**x**](u)` is tokenized into. */
  lemma StyledLabelRuns(x: string, u: string)
    requires x != [] && MarkerFree(x) && MarkerFree(u)
    ensures ParseTextBody(SimpleLink("**" + x + "**", u))
         == [TextBody(Plain, "["), TextBody(Strong, x), TextBody(Plain, "](" + u + ")")]
  {
    var runs := [TextBody(Plain, "["), TextBody(Strong, x), TextBody(Plain, "](" + u + ")")];
    StyledLabelRenderable(x, u);
    StyledLabelRender(x, u);
    RenderRoundTrip(runs, []);
    assert [] + runs == runs;
  }

  /** The runs of `[**x**](u)` can be written out and read back. */
  lemma StyledLabelRenderable(x: string, u: string)
    requires x != [] && MarkerFree(x) && MarkerFree(u)
    ensures Renderable([TextBody(Plain, "["), TextBody(Strong, x), TextBody(Plain, "](" + u + ")")])
  {
    var rest := "](" + u + ")";
    assert forall y :: 2 <= y < |rest| - 1 ==> rest[y] == u[y - 2];
  }

  /** Writing out the runs of `[**x**](u)` gives `[**x**](u)` back. */
  lemma StyledLabelRender(x: string, u: string)
    ensures SimpleLink("**" + x + "**", u)
         == Render([TextBody(Plain, "["), TextBody(Strong, x), TextBody(Plain, "](" + u + ")")])
  {
    var rest := "](" + u + ")";
    RenderThree(TextBody(Plain, "["), TextBody(Strong, x), TextBody(Plain, rest));
    assert Wrap(TextBody(Strong, x)) == "**" + x + "**";
  }

  /** Three runs written out one after the other. */
  lemma RenderThree(a: TextBody, b: TextBody, c: TextBody)
    ensures Render([a, b, c]) == Wrap(a) + Wrap(b) + Wrap(c)
  {
    var runs := [a, b, c];
    assert runs[1..] == [b, c] && runs[2..] == [c] && runs[3..] == [];
    assert Render(runs[2..]) == Wrap(c);
  }
}
