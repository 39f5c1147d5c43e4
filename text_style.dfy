// The inline style tokenizer of lib/parser.ts: checkHeadStyle, parseTextBodyStyle and
// parseTextBody. A left-to-right state machine over (text, progress, result): `progress`
// is the span being built, `result` the spans already closed.

module TextStyle {
  import opened JsText
  import opened Definition

  /** What checkHeadStyle reports: the style the head of the text opens, and the text
      after the marker. */
  datatype Head = Head(style: Style, text: string)

  predicate IsMarkerChar(c: char) {
    c == '*' || c == '_' || c == '`'
  }

  predicate MarkerFree(s: string) {
    forall i :: 0 <= i < |s| ==> !IsMarkerChar(s[i])
  }

  /** The characters checkHeadStyle strips for each style. */
  function MarkerLength(style: Style): nat {
    match style
    case Plain => 0
    case Strong => 2
    case Italic => 1
    case Code => 1
  }

  /** checkHeadStyle: `**` is tried before `*`, then `_`, then the backtick. */
  function CheckHeadStyle(text: string): (h: Head)
    ensures |text| - |h.text| == MarkerLength(h.style)
    ensures h.text == text[MarkerLength(h.style)..]
    ensures h.style == Strong <==> |text| >= 2 && text[..2] == "**"
    ensures h.style == Italic <==> |text| >= 1 && (text[0] == '_' || text[0] == '*') && !(|text| >= 2 && text[..2] == "**")
    ensures h.style == Code <==> |text| >= 1 && text[0] == '`'
    ensures h.style == Plain <==> |text| == 0 || !IsMarkerChar(text[0])
  {
    if |text| >= 2 && text[0] == '*' && text[1] == '*' then Head(Strong, text[2..])
    else if |text| >= 1 && text[0] == '*' then Head(Italic, text[1..])
    else if |text| >= 1 && text[0] == '_' then Head(Italic, text[1..])
    else if |text| >= 1 && text[0] == '`' then Head(Code, text[1..])
    else Head(Plain, text)
  }

  /** `headText[0]` as a string. JavaScript reads `undefined` when headText is empty (the
      text ended right after a marker); the model reads the empty string there. */
  function First(headText: string): string
  {
    if headText == [] then [] else headText[..1]
  }

  /** parseTextBodyStyle: the spans of `text`, appended to `result` after the open span
      `progress`. The record the source returns at the end is ("", null, r); r is returned. */
  function ParseTextBodyStyle(text: string, progress: Option<TextBody>, result: seq<TextBody>): (r: seq<TextBody>)
    ensures |r| >= |result|
    ensures text != [] || progress.Some? ==> |r| > |result|
    decreases |text|
  {
    if |text| == 0 then
      if progress.Some? then result + [progress.value] else result
    else
      var head := CheckHeadStyle(text);
      var first := First(head.text);
      var rest := head.text[|first|..];
      match progress
      case None =>
        ParseTextBodyStyle(rest, Some(TextBody(head.style, first)), result)
      case Some(p) =>
        if p.style == Plain then
          if head.style == Plain then
            ParseTextBodyStyle(rest, Some(TextBody(Plain, p.value + first)), result)
          else
            ParseTextBodyStyle(rest, Some(TextBody(head.style, first)), result + [p])
        else if head.style == p.style then
          ParseTextBodyStyle(head.text, None, result + [p])
        else
          ParseTextBodyStyle(rest, Some(TextBody(p.style, p.value + first)), result)
  }

  /** parseTextBody: the styled runs of `input`. */
  function ParseTextBody(input: string): (r: seq<TextBody>)
    ensures r == [] <==> input == []
    ensures NoAdjacentPlain(r)
  {
    NoAdjacentPlainKept(input, None, []);
    ParseTextBodyStyle(input, None, [])
  }

  // ---------------------------------------------------------------------------------
  // Properties

  /** No two neighbouring runs are both plain. */
  predicate NoAdjacentPlain(r: seq<TextBody>) {
    forall i :: 0 <= i < |r| - 1 ==> !(r[i].style == Plain && r[i + 1].style == Plain)
  }

  /** What holds of every state the tokenizer passes through: a plain run is flushed only
      when a styled marker opens the next span, so a span that may still grow into a plain
      run never follows a plain run. */
  predicate StateOk(progress: Option<TextBody>, result: seq<TextBody>) {
    NoAdjacentPlain(result) &&
    ((progress.None? || progress.value.style == Plain) && result != [] ==> result[|result| - 1].style != Plain)
  }

  lemma {:induction false} NoAdjacentPlainKept(text: string, progress: Option<TextBody>, result: seq<TextBody>)
    requires StateOk(progress, result)
    ensures NoAdjacentPlain(ParseTextBodyStyle(text, progress, result))
    decreases |text|
  {
    if |text| == 0 {
    } else {
      var head := CheckHeadStyle(text);
      var first := First(head.text);
      var rest := head.text[|first|..];
      match progress
      case None =>
        NoAdjacentPlainKept(rest, Some(TextBody(head.style, first)), result);
      case Some(p) =>
        if p.style == Plain {
          if head.style == Plain {
            NoAdjacentPlainKept(rest, Some(TextBody(Plain, p.value + first)), result);
          } else {
            NoAdjacentPlainKept(rest, Some(TextBody(head.style, first)), result + [p]);
          }
        } else if head.style == p.style {
          NoAdjacentPlainKept(head.text, None, result + [p]);
        } else {
          NoAdjacentPlainKept(rest, Some(TextBody(p.style, p.value + first)), result);
        }
    }
  }

  /** The spans already in `result` are kept and never looked at again. */
  lemma {:induction false} Accumulates(text: string, progress: Option<TextBody>, result: seq<TextBody>)
    ensures ParseTextBodyStyle(text, progress, result) == result + ParseTextBodyStyle(text, progress, [])
    decreases |text|
  {
    if |text| == 0 {
      if progress.Some? {
        assert [] + [progress.value] == [progress.value];
      } else {
        assert result + [] == result;
      }
    } else {
      var head := CheckHeadStyle(text);
      var first := First(head.text);
      var rest := head.text[|first|..];
      match progress
      case None =>
        var next := Some(TextBody(head.style, first));
        assert ParseTextBodyStyle(text, progress, result) == ParseTextBodyStyle(rest, next, result);
        assert ParseTextBodyStyle(text, progress, []) == ParseTextBodyStyle(rest, next, []);
        Accumulates(rest, next, result);
      case Some(p) =>
        if p.style == Plain && head.style == Plain {
          var next := Some(TextBody(Plain, p.value + first));
          assert ParseTextBodyStyle(text, progress, result) == ParseTextBodyStyle(rest, next, result);
          assert ParseTextBodyStyle(text, progress, []) == ParseTextBodyStyle(rest, next, []);
          Accumulates(rest, next, result);
        } else if p.style == Plain {
          var next := Some(TextBody(head.style, first));
          assert ParseTextBodyStyle(text, progress, result) == ParseTextBodyStyle(rest, next, result + [p]);
          assert ParseTextBodyStyle(text, progress, []) == ParseTextBodyStyle(rest, next, [] + [p]);
          assert [] + [p] == [p];
          Accumulates(rest, next, result + [p]);
          Accumulates(rest, next, [p]);
          AppendAssoc(result, [p], ParseTextBodyStyle(rest, next, []));
        } else if head.style == p.style {
          assert ParseTextBodyStyle(text, progress, result) == ParseTextBodyStyle(head.text, None, result + [p]);
          assert ParseTextBodyStyle(text, progress, []) == ParseTextBodyStyle(head.text, None, [] + [p]);
          assert [] + [p] == [p];
          Accumulates(head.text, None, result + [p]);
          Accumulates(head.text, None, [p]);
          AppendAssoc(result, [p], ParseTextBodyStyle(head.text, None, []));
        } else {
          var next := Some(TextBody(p.style, p.value + first));
          assert ParseTextBodyStyle(text, progress, result) == ParseTextBodyStyle(rest, next, result);
          assert ParseTextBodyStyle(text, progress, []) == ParseTextBodyStyle(rest, next, []);
          Accumulates(rest, next, result);
        }
    }
  }

  lemma AppendAssoc<T>(a: seq<T>, b: seq<T>, c: seq<T>)
    ensures a + b + c == a + (b + c)
  {
  }

  /** Marker-free text extends the open span, whatever its style. */
  lemma {:induction false} MarkerFreeExtends(w: string, t: string, p: TextBody, result: seq<TextBody>)
    requires MarkerFree(w)
    ensures ParseTextBodyStyle(w + t, Some(p), result)
         == ParseTextBodyStyle(t, Some(TextBody(p.style, p.value + w)), result)
    decreases |w|
  {
    if w != [] {
      var s := w + t;
      assert s[0] == w[0];
      assert CheckHeadStyle(s) == Head(Plain, s);
      assert First(s) == [w[0]];
      assert s[1..] == w[1..] + t;
      MarkerFreeExtends(w[1..], t, TextBody(p.style, p.value + [w[0]]), result);
      assert p.value + [w[0]] + w[1..] == p.value + w;
    } else {
      assert w + t == t;
      assert p.value + w == p.value;
    }
  }

  /** A plain run is flushed when a styled marker comes next. */
  lemma FlushBeforeMarker(t: string, p: TextBody, result: seq<TextBody>)
    requires p.style == Plain && CheckHeadStyle(t).style != Plain
    ensures ParseTextBodyStyle(t, Some(p), result) == ParseTextBodyStyle(t, None, result + [p])
  {
  }

  /** Marker-free text in front of a styled marker becomes one plain run. */
  lemma PlainBeforeMarker(w: string, t: string, result: seq<TextBody>)
    requires w != [] && MarkerFree(w) && CheckHeadStyle(t).style != Plain
    ensures ParseTextBodyStyle(w + t, None, result) == ParseTextBodyStyle(t, None, result + [TextBody(Plain, w)])
  {
    var s := w + t;
    assert s[0] == w[0];
    assert CheckHeadStyle(s) == Head(Plain, s);
    assert First(s) == [w[0]];
    assert s[1..] == w[1..] + t;
    MarkerFreeExtends(w[1..], t, TextBody(Plain, [w[0]]), result);
    assert [w[0]] + w[1..] == w;
    FlushBeforeMarker(t, TextBody(Plain, w), result);
  }

  /** Marker-free text running to the end of the input is one plain run. */
  lemma PlainToEnd(w: string, result: seq<TextBody>)
    requires w != [] && MarkerFree(w)
    ensures ParseTextBodyStyle(w, None, result) == result + [TextBody(Plain, w)]
  {
    assert w[0] == w[0];
    MarkerFreeExtends(w[1..], [], TextBody(Plain, [w[0]]), result);
    assert w[1..] + [] == w[1..];
    assert [w[0]] + w[1..] == w;
  }

  /** The four markers and the styles they open. */
  predicate IsMarker(m: string) {
    m == "**" || m == "*" || m == "_" || m == "`"
  }

  function MarkerStyle(m: string): (st: Style)
    requires IsMarker(m)
    ensures st != Plain && |m| == MarkerLength(st)
  {
    if m == "**" then Strong else if m == "`" then Code else Italic
  }

  /** A marker at the head of the text is recognised as such, unless a single `*` is
      followed by another `*` (then the two form `**`). */
  lemma HeadOfMarker(m: string, t: string)
    requires IsMarker(m) && !(m == "*" && t != [] && t[0] == '*')
    ensures CheckHeadStyle(m + t) == Head(MarkerStyle(m), t)
  {
    var s := m + t;
    assert s[..|m|] == m;
    assert s[|m|..] == t;
    if m != "**" { assert s[0] == m[0]; }
    if m == "*" && t != [] { assert s[1] == t[0]; }
  }

  /** An opening marker takes the character after it into the new span unexamined, and
      the span then collects marker-free text. */
  lemma {:induction false} OpenSpanAt(s: string, st: Style, x: string, t: string, result: seq<TextBody>)
    requires st != Plain && x != [] && MarkerFree(x) && CheckHeadStyle(s) == Head(st, x + t)
    ensures ParseTextBodyStyle(s, None, result) == ParseTextBodyStyle(t, Some(TextBody(st, x)), result)
  {
    FirstOfJoin(x, t);
    OpenStep(s, result);
    MarkerFreeExtends(x[1..], t, TextBody(st, [x[0]]), result);
  }

  /** With no span open, the head of the text opens one holding its first character. */
  lemma OpenStep(s: string, result: seq<TextBody>)
    requires s != []
    ensures var head := CheckHeadStyle(s);
      ParseTextBodyStyle(s, None, result)
      == ParseTextBodyStyle(head.text[|First(head.text)|..], Some(TextBody(head.style, First(head.text))), result)
  {
  }

  /** The first character of x + t, and what follows it, when x is not empty. */
  lemma FirstOfJoin(x: string, t: string)
    requires x != []
    ensures First(x + t) == [x[0]] && (x + t)[1..] == x[1..] + t && [x[0]] + x[1..] == x
  {
    assert (x + t)[1..] == x[1..] + t;
  }

  /** A marker of the open span's style closes it; the text after the marker is
      tokenized afresh. */
  lemma CloseSpanAt(s: string, t: string, p: TextBody, result: seq<TextBody>)
    requires p.style != Plain && CheckHeadStyle(s) == Head(p.style, t)
    ensures ParseTextBodyStyle(s, Some(p), result) == ParseTextBodyStyle(t, None, result + [p])
  {
  }

  /** After an opening marker, the span collects marker-free text. */
  lemma OpenSpan(o: string, x: string, t: string, result: seq<TextBody>)
    requires IsMarker(o) && x != [] && MarkerFree(x)
    ensures ParseTextBodyStyle(o + x + t, None, result)
         == ParseTextBodyStyle(t, Some(TextBody(MarkerStyle(o), x)), result)
  {
    var s := o + x + t;
    assert CheckHeadStyle(s) == Head(MarkerStyle(o), x + t) by {
      assert s == o + (x + t);
      assert (x + t)[0] == x[0] && !IsMarkerChar(x[0]);
      HeadOfMarker(o, x + t);
    }
    OpenSpanAt(s, MarkerStyle(o), x, t, result);
  }

  /** A closed span: `**x**`, `*x*`, `_x_`, `` `x` `` and, since `*` and `_` both mean
      italic, `*x_` and `_x*`, with marker-free x, give one run of that style whose value is
      x, and the text after the closing marker is tokenized afresh. */
  lemma ClosedSpan(o: string, x: string, c: string, t: string, result: seq<TextBody>)
    requires IsMarker(o) && IsMarker(c) && MarkerStyle(o) == MarkerStyle(c)
    requires x != [] && MarkerFree(x)
    requires !(c == "*" && t != [] && t[0] == '*')
    ensures ParseTextBodyStyle(o + x + c + t, None, result)
         == ParseTextBodyStyle(t, None, result + [TextBody(MarkerStyle(o), x)])
  {
    var st := MarkerStyle(o);
    var s := o + x + c + t;
    assert CheckHeadStyle(s) == Head(st, x + (c + t)) by {
      assert s == o + (x + (c + t));
      assert (x + (c + t))[0] == x[0] && !IsMarkerChar(x[0]);
      HeadOfMarker(o, x + (c + t));
    }
    OpenSpanAt(s, st, x, c + t, result);
    HeadOfMarker(c, t);
    CloseSpanAt(c + t, t, TextBody(st, x), result);
  }

  /** An unclosed marker keeps its style up to the end of the input; nothing is raised. */
  lemma UnclosedSpan(o: string, x: string)
    requires IsMarker(o) && x != [] && MarkerFree(x)
    ensures ParseTextBody(o + x) == [TextBody(MarkerStyle(o), x)]
  {
    OpenSpan(o, x, [], []);
    assert o + x + [] == o + x;
  }

  /** Marker-free text is a single plain run, and the empty text has no runs. */
  lemma PlainText(s: string)
    requires MarkerFree(s)
    ensures ParseTextBody(s) == if s == [] then [] else [TextBody(Plain, s)]
  {
    if s != [] { PlainToEnd(s, []); }
  }

  /** A closed span alone gives one run of its style with the markers removed. */
  lemma ClosedSpanAlone(o: string, x: string, c: string)
    requires IsMarker(o) && IsMarker(c) && MarkerStyle(o) == MarkerStyle(c)
    requires x != [] && MarkerFree(x)
    ensures ParseTextBody(o + x + c) == [TextBody(MarkerStyle(o), x)]
  {
    ClosedSpan(o, x, c, [], []);
    assert o + x + c + [] == o + x + c;
  }

  /** Writes runs back as marked-up text: `**` around strong, `_` around italic, a backtick
      around code, plain text as it is. */
  function Render(runs: seq<TextBody>): (s: string)
  {
    if runs == [] then []
    else Wrap(runs[0]) + Render(runs[1..])
  }

  function Wrap(run: TextBody): (s: string)
    ensures run.style != Plain ==> s == Marker(run.style) + run.value + Marker(run.style)
    ensures run.style == Plain ==> s == run.value
  {
    if run.style == Plain then run.value else Marker(run.style) + run.value + Marker(run.style)
  }

  function Marker(st: Style): (m: string)
    requires st != Plain
    ensures IsMarker(m) && MarkerStyle(m) == st && m != "*"
  {
    match st
    case Strong => "**"
    case Italic => "_"
    case Code => "`"
  }

  /** Runs the tokenizer can give back exactly: every value non-empty and free of markers,
      and no two plain runs side by side. */
  predicate Renderable(runs: seq<TextBody>) {
    NoAdjacentPlain(runs) &&
    forall i :: 0 <= i < |runs| ==> runs[i].value != [] && MarkerFree(runs[i].value)
  }

  /** parseTextBody inverts Render on the runs it can produce. */
  lemma {:induction false} RenderRoundTrip(runs: seq<TextBody>, result: seq<TextBody>)
    requires Renderable(runs)
    ensures ParseTextBodyStyle(Render(runs), None, result) == result + runs
    decreases |runs|
  {
    if runs == [] {
      assert result + [] == result;
    } else {
      var run := runs[0];
      var tail := runs[1..];
      var t := Render(tail);
      assert Renderable(tail) by {
        forall i | 0 <= i < |tail| - 1
          ensures !(tail[i].style == Plain && tail[i + 1].style == Plain)
        {
          assert tail[i] == runs[i + 1] && tail[i + 1] == runs[i + 2];
        }
        forall i | 0 <= i < |tail|
          ensures tail[i].value != [] && MarkerFree(tail[i].value)
        {
          assert tail[i] == runs[i + 1];
        }
      }
      RenderRoundTrip(tail, result + [run]);
      AppendAssoc(result, [run], tail);
      assert [run] + tail == runs;
      if run.style == Plain {
        if tail == [] {
          assert Render(runs) == run.value + [];
          assert run.value + [] == run.value;
          PlainToEnd(run.value, result);
        } else {
          var m := Marker(tail[0].style);
          assert t == m + tail[0].value + m + Render(tail[1..]);
          assert t[0] == m[0];
          PlainBeforeMarker(run.value, t, result);
        }
      } else {
        var m := Marker(run.style);
        assert Render(runs) == m + run.value + m + t;
        ClosedSpan(m, run.value, m, t, result);
      }
    }
  }

  /** A marker of another style inside an open styled span is consumed and dropped, and
      the character after it joins the span unexamined. */
  lemma ForeignMarkerDropped(m: string, t: string, p: TextBody, result: seq<TextBody>)
    requires IsMarker(m) && p.style != Plain && MarkerStyle(m) != p.style
    requires t != [] && !(m == "*" && t[0] == '*')
    ensures ParseTextBodyStyle(m + t, Some(p), result)
         == ParseTextBodyStyle(t[1..], Some(TextBody(p.style, p.value + [t[0]])), result)
  {
    HeadOfMarker(m, t);
    assert First(t) == [t[0]];
  }

  /** `*` and `_` both open and close italic, so either closes the other. */
  lemma ItalicMarkersInterchangeable(x: string)
    requires x != [] && MarkerFree(x)
    ensures ParseTextBody("*" + x + "_") == [TextBody(Italic, x)]
    ensures ParseTextBody("_" + x + "*") == [TextBody(Italic, x)]
  {
    ClosedSpanAlone("*", x, "_");
    ClosedSpanAlone("_", x, "*");
  }
}
