// The block recognisers and extractors of lib/parser.ts:60-78, 226-330. Each regular
// expression is written out as a matcher over the head of the text with the backtracking
// order of JavaScript's engine, and each extractor that throws returns Err with the thrown
// message.

module BlockParsers {
  import opened JsText
  import opened Definition
  import opened TextStyle
  import opened LinkSplit
  import opened InlineBody

  // ---------------------------------------------------------------------------------
  // Heading: `^(#{1,6})\s(.+)`

  /** The pattern matches s[..end] with `level` hashes: the hashes, one white-space
      character, and at least one character up to `end` on the same line. */
  predicate HeadingAt(s: string, level: nat, end: nat) {
    1 <= level <= 6 && level + 1 < end <= |s| &&
    (forall x :: 0 <= x < level ==> s[x] == '#') && IsSpace(s[level]) &&
    NoLineTerminator(s, level + 1, end)
  }

  /** The level is the whole run of leading hashes, and `.+` runs to the end of the line. */
  function MatchHeading(s: string): (r: Option<(nat, nat)>)
    ensures r.Some? ==> HeadingAt(s, r.value.0, r.value.1)
    ensures r.Some? ==> forall n: nat, e: nat :: HeadingAt(s, n, e) ==> n == r.value.0 && e <= r.value.1
    ensures r.None? ==> forall n: nat, e: nat :: !HeadingAt(s, n, e)
  {
    var n := CharRun(s, 0, '#');
    HeadingLevel(s);
    if 1 <= n <= 6 && n + 1 < |s| && IsSpace(s[n]) && !IsLineTerminator(s[n + 1]) then
      Some((n, n + 1 + LineRun(s, n + 1)))
    else
      None
  }

  /** Every match has as many hashes as the text starts with, and stays on one line. */
  lemma HeadingLevel(s: string)
    ensures forall n: nat, e: nat :: HeadingAt(s, n, e) ==>
      n == CharRun(s, 0, '#') && n + 1 < |s| && !IsLineTerminator(s[n + 1]) &&
      e <= n + 1 + LineRun(s, n + 1)
  {
    forall n: nat, e: nat | HeadingAt(s, n, e)
      ensures n == CharRun(s, 0, '#') && e <= n + 1 + LineRun(s, n + 1)
    {
      var c := CharRun(s, 0, '#');
      if c < |s| {
        assert s[c] != '#';
      }
      var f := n + 1 + LineRun(s, n + 1);
      if f < |s| {
        assert IsLineTerminator(s[f]);
      }
    }
  }

  /** parseHeadingBlock */
  function ParseHeadingBlock(s: string): (r: Result<Block>)
    ensures r.Err? <==> forall n: nat, e: nat :: !HeadingAt(s, n, e)
    ensures r.Err? ==> r.message == "Invalid heading block"
    ensures r.Ok? ==> r.value.Heading? && HeadingAt(s, r.value.level, MatchHeading(s).value.1)
  {
    var m := MatchHeading(s);
    if m.None? then Err("Invalid heading block") else Ok(HeadingOf(s, m.value.0, m.value.1))
  }

  /** The heading a match of `level` hashes ending at `end` describes. */
  function HeadingOf(s: string, level: nat, end: nat): (b: Block)
    requires 1 <= level <= 6 && level + 1 <= end <= |s|
  {
    Heading(level, Body(s[level + 1..end]))
  }

  /** n hashes. */
  function Hashes(n: nat): string
  {
    Repeat('#', n)
  }

  /** `#` repeated k times, a space and one line of text: a heading of level k whose body is
      the text. */
  lemma HeadingRoundTrip(k: nat, text: string)
    requires 1 <= k <= 6 && text != [] && NoLineTerminator(text, 0, |text|)
    ensures ParseHeadingBlock(Hashes(k) + " " + text) == Ok(Heading(k, Body(text)))
  {
    var s := Hashes(k) + " " + text;
    HeadingMatchOf(k, text);
    HeadingOfMatch(s, k, |s|);
    HeadingText(k, text);
  }

  /** After the hashes and the space comes the text. */
  lemma HeadingText(k: nat, text: string)
    ensures var s := Hashes(k) + " " + text; |s| == k + 1 + |text| && s[k + 1..|s|] == text
  {
    var s := Hashes(k) + " " + text;
    assert s[k + 1..|s|] == text;
  }

  lemma HeadingOfMatch(s: string, n: nat, e: nat)
    requires MatchHeading(s) == Some((n, e)) && n + 1 <= e <= |s|
    ensures ParseHeadingBlock(s) == Ok(Heading(n, Body(s[n + 1..e])))
  {
    assert ParseHeadingBlock(s) == Ok(HeadingOf(s, n, e));
  }

  lemma HeadingMatchOf(k: nat, text: string)
    requires 1 <= k <= 6 && text != [] && NoLineTerminator(text, 0, |text|)
    ensures MatchHeading(Hashes(k) + " " + text) == Some((k, k + 1 + |text|))
  {
    var s := Hashes(k) + " " + text;
    assert forall x :: k + 1 <= x < |s| ==> s[x] == text[x - k - 1];
    assert HeadingAt(s, k, |s|);
  }

  /** Seven hashes are no heading. */
  lemma SevenHashes(text: string)
    ensures ParseHeadingBlock(Hashes(7) + " " + text).Err?
  {
    var s := Hashes(7) + " " + text;
    forall n: nat, e: nat ensures !HeadingAt(s, n, e) {
      if 1 <= n <= 6 && n < |s| {
        assert s[n] == '#';
      }
    }
  }

  // ---------------------------------------------------------------------------------
  // Thematic break: `^-{3,}`

  /** The length of the match: the run of leading dashes when it holds three or more. */
  function MatchThematicBreak(s: string): (r: Option<nat>)
    ensures r.Some? <==> |s| >= 3 && s[0] == '-' && s[1] == '-' && s[2] == '-'
    ensures r.Some? ==> 3 <= r.value <= |s| && (forall x :: 0 <= x < r.value ==> s[x] == '-') &&
                        (r.value == |s| || s[r.value] != '-')
  {
    var n := CharRun(s, 0, '-');
    if n >= 3 then Some(n) else None
  }

  // ---------------------------------------------------------------------------------
  // Paragraph: `^([\s\S]+?)(?:\n|$)`

  /** The length of the match: up to and including the first newline after the first
      character, or the whole text. */
  function MatchParagraph(s: string): (r: Option<nat>)
    ensures r.Some? <==> s != []
    ensures r.Some? ==> 0 < r.value <= |s|
    ensures r.Some? ==> forall x :: 1 <= x < r.value - 1 ==> s[x] != '\n'
    ensures r.Some? ==> r.value == |s| || (r.value >= 2 && s[r.value - 1] == '\n')
    ensures r.Some? && r.value == |s| && |s| >= 2 ==> s[|s| - 1] == '\n' || forall x :: 1 <= x < |s| ==> s[x] != '\n'
  {
    if s == [] then None
    else
      var k := CharIndex(s, 1, '\n');
      Some(if k < |s| then k + 1 else k)
  }

  /** parseParagraphBlock: never throws. */
  function ParseParagraphBlock(s: string): (b: Block)
    ensures b.Paragraph?
  {
    Paragraph(Body(s))
  }

  // ---------------------------------------------------------------------------------
  // Code: "^```(\w+)?\n([\s\S]*?)\n```"

  /** "\n```", the closing fence. */
  function Fence(): string
  {
    "\n```"
  }

  /** The first closing fence at or after k. */
  function FenceFrom(s: string, k: nat): (r: Option<nat>)
    requires k <= |s|
    ensures r.Some? ==> k <= r.value && OccursAt(s, Fence(), r.value)
    ensures r.Some? ==> forall x :: k <= x < r.value ==> !OccursAt(s, Fence(), x)
    ensures r.None? ==> forall x :: k <= x ==> !OccursAt(s, Fence(), x)
    decreases |s| - k
  {
    if k + 4 > |s| then None
    else if OccursAt(s, Fence(), k) then Some(k)
    else FenceFrom(s, k + 1)
  }

  /** The pattern matches with a language of w word characters and the closing fence at k:
      three backticks, the word, a newline, then the code up to a fence at k. */
  predicate CodeAt(s: string, w: nat, k: nat) {
    |s| >= 3 && s[0] == '`' && s[1] == '`' && s[2] == '`' && 3 + w < |s| &&
    (forall x :: 3 <= x < 3 + w ==> IsWordChar(s[x])) && s[3 + w] == '\n' &&
    4 + w <= k && OccursAt(s, Fence(), k)
  }

  /** The pattern: three backticks, an optional word (greedy), a newline, the shortest code,
      then the closing fence. Gives the word length and where the closing fence starts. */
  function MatchCode(s: string): (r: Option<(nat, nat)>)
    ensures r.Some? ==> |s| >= 4 && s[..3] == "```" && 4 + r.value.0 <= r.value.1 && r.value.1 + 4 <= |s|
    ensures r.Some? ==> CodeAt(s, r.value.0, r.value.1)
    ensures r.Some? ==> forall w: nat, k: nat :: CodeAt(s, w, k) ==> w == r.value.0 && r.value.1 <= k
    ensures r.None? <==> forall w: nat, k: nat :: !CodeAt(s, w, k)
  {
    CodeWord(s);
    if |s| >= 3 && s[0] == '`' && s[1] == '`' && s[2] == '`' then
      var w := WordRun(s, 3);
      if 3 + w < |s| && s[3 + w] == '\n' then
        match FenceFrom(s, 4 + w)
        case None => None
        case Some(k) =>
          assert CodeAt(s, w, k);
          Some((w, k))
      else None
    else None
  }

  /** In every match the language is the whole run of word characters after the opening
      backticks. */
  lemma CodeWord(s: string)
    ensures forall w: nat, k: nat :: CodeAt(s, w, k) ==> w == WordRun(s, 3)
  {
  }

  /** parseCodeBlock: the word after the opening fence is the language, if there is one. */
  function ParseCodeBlock(s: string): (r: Result<Block>)
    ensures r.Err? <==> MatchCode(s).None?
    ensures r.Err? ==> r.message == "Invalid code block"
    ensures r.Ok? ==> r.value.CodeBlock? && (r.value.lang.Some? ==> r.value.lang.value != [])
  {
    match MatchCode(s)
    case None => Err("Invalid code block")
    case Some((w, k)) => Ok(CodeBlock(if w == 0 then None else Some(s[3..3 + w]), s[4 + w..k]))
  }

  /** A fenced block written out is read back: the language and the code are recovered. */
  lemma CodeRoundTrip(lang: string, code: string)
    requires forall x :: 0 <= x < |lang| ==> IsWordChar(lang[x])
    requires forall x :: !OccursAt(code, Fence(), x)
    ensures ParseCodeBlock("```" + lang + "\n" + code + Fence())
         == Ok(CodeBlock(if lang == [] then None else Some(lang), code))
  {
    CodeMatchOf(lang, code);
    CodeSlices(lang, code);
  }

  /** The language and the code sit between the opening backticks, the newline and the
      closing fence. */
  lemma CodeSlices(lang: string, code: string)
    ensures var s := "```" + lang + "\n" + code + Fence();
      s[3..3 + |lang|] == lang && s[4 + |lang|..4 + |lang| + |code|] == code
  {
    var s := "```" + lang + "\n" + code + Fence();
    assert s == "```" + lang + ("\n" + code + Fence());
    assert s[4 + |lang|..] == code + Fence();
  }

  lemma CodeMatchOf(lang: string, code: string)
    requires forall x :: 0 <= x < |lang| ==> IsWordChar(lang[x])
    requires forall x :: !OccursAt(code, Fence(), x)
    ensures MatchCode("```" + lang + "\n" + code + Fence()) == Some((|lang|, |lang| + 4 + |code|))
  {
    var s := "```" + lang + "\n" + code + Fence();
    CodeShape(lang, code);
    FenceAfterCode(s, |lang| + 4, code);
    CodeMatchAt(s, |lang|, |lang| + 4 + |code|);
  }

  /** Where the parts of a written code block sit. */
  lemma CodeShape(lang: string, code: string)
    requires forall x :: 0 <= x < |lang| ==> IsWordChar(lang[x])
    ensures var s := "```" + lang + "\n" + code + Fence();
      s[0] == '`' && s[1] == '`' && s[2] == '`' && 3 + |lang| < |s| && s[3 + |lang|] == '\n' &&
      WordRun(s, 3) == |lang| && OccursAt(s, code + Fence(), |lang| + 4)
  {
    var s := "```" + lang + "\n" + code + Fence();
    var w := |lang|;
    assert forall x :: 3 <= x < 3 + w ==> s[x] == lang[x - 3];
    assert s[3 + w] == '\n';
    assert s[w + 4..w + 4 + |code + Fence()|] == code + Fence();
  }

  /** The code pattern once its parts are found: the word, the newline, the first fence. */
  lemma CodeMatchAt(s: string, w: nat, k: nat)
    requires |s| >= 3 && s[0] == '`' && s[1] == '`' && s[2] == '`'
    requires 3 + w < |s| && WordRun(s, 3) == w && s[3 + w] == '\n'
    requires FenceFrom(s, 4 + w) == Some(k)
    ensures MatchCode(s) == Some((w, k))
  {
  }

  /** The fence after the code is the first one when the code holds none. */
  lemma FenceAfterCode(s: string, start: nat, code: string)
    requires forall x :: !OccursAt(code, Fence(), x)
    requires OccursAt(s, code + Fence(), start)
    ensures FenceFrom(s, start) == Some(start + |code|)
  {
    var k := start + |code|;
    assert forall x :: start <= x < k ==> s[x] == code[x - start];
    assert s[k..k + 4] == Fence();
    assert OccursAt(s, Fence(), k);
    forall x | start <= x < k ensures !OccursAt(s, Fence(), x) {
      if x + 4 <= k {
        assert s[x..x + 4] == code[x - start..x - start + 4];
        assert !OccursAt(code, Fence(), x - start);
      } else if x + 4 <= |s| {
        assert s[x..x + 4][k - x] == s[k] == '\n';
      }
    }
  }

  // ---------------------------------------------------------------------------------
  // Image: `^!\[(.*)\]\((.+?)\)(.*)`

  /** The pattern matches with the alt text ending at a (the `]`) and the url at b (the
      `)`). */
  predicate ImageAt(s: string, a: nat, b: nat) {
    |s| >= 2 && s[0] == '!' && s[1] == '[' && 2 <= a && a + 1 < |s| && s[a] == ']' && s[a + 1] == '(' &&
    NoLineTerminator(s, 2, a) && UrlEndsAt(s, a, b)
  }

  /** The greedy alt text: the last `](` below hi that a url closes, with the shortest url. */
  function ImageBelow(s: string, hi: nat): (r: Option<(nat, nat)>)
    requires 2 <= hi <= |s| && s[0] == '!' && s[1] == '[' && NoLineTerminator(s, 2, hi)
    ensures r.Some? ==> r.value.0 < hi && ImageAt(s, r.value.0, r.value.1)
    ensures r.Some? ==> forall a: nat, b: nat :: r.value.0 < a < hi ==> !ImageAt(s, a, b)
    ensures r.Some? ==> forall b: nat :: b < r.value.1 ==> !ImageAt(s, r.value.0, b)
    ensures r.None? ==> forall a: nat, b: nat :: a < hi ==> !ImageAt(s, a, b)
    decreases hi
  {
    if hi == 2 then None
    else
      var a := hi - 1;
      if s[a] == ']' && a + 1 < |s| && s[a + 1] == '(' && UrlClose(s, a, a + 2).Some? then
        Some((a, UrlClose(s, a, a + 2).value))
      else
        ImageBelow(s, hi - 1)
  }

  /** Where the alt text ends and where the url ends, if the pattern matches. */
  function MatchImage(s: string): (r: Option<(nat, nat)>)
    ensures r.Some? ==> ImageAt(s, r.value.0, r.value.1)
    ensures r.Some? ==> forall a: nat, b: nat :: r.value.0 < a ==> !ImageAt(s, a, b)
    ensures r.Some? ==> forall b: nat :: b < r.value.1 ==> !ImageAt(s, r.value.0, b)
    ensures r.None? ==> forall a: nat, b: nat :: !ImageAt(s, a, b)
  {
    if |s| >= 2 && s[0] == '!' && s[1] == '[' then
      ImageWithinLine(s);
      ImageBelow(s, 2 + LineRun(s, 2))
    else None
  }

  /** The alt text stays on the first line. */
  lemma ImageWithinLine(s: string)
    requires |s| >= 2
    ensures forall a: nat, b: nat :: ImageAt(s, a, b) ==> a < 2 + LineRun(s, 2)
  {
    var e := 2 + LineRun(s, 2);
    if e < |s| {
      assert IsLineTerminator(s[e]);
    }
  }

  /** `caption.replace(/^\((.+)\)$/, '$1')`: parentheses around the whole caption are
      removed when they hold at least one character. */
  function Unparenthesize(c: string): (r: string)
    ensures r == c || (c == "(" + r + ")" && r != [])
    ensures r == c <==> !(|c| >= 3 && c[0] == '(' && c[|c| - 1] == ')')
  {
    if |c| >= 3 && c[0] == '(' && c[|c| - 1] == ')' then c[1..|c| - 1] else c
  }

  /** The caption: the rest of the line after the url's `)`, unparenthesized. */
  function CaptionAfter(s: string, b: nat): (c: string)
    requires b < |s|
    ensures |c| < |s| - b && OnOneLine(c)
  {
    var line := s[b + 1..b + 1 + LineRun(s, b + 1)];
    assert OnOneLine(line);
    var c := Unparenthesize(line);
    assert c != line ==> forall x :: 0 <= x < |c| ==> c[x] == line[x + 1];
    c
  }

  /** parseImageBlock: the alt text, the url, and the rest of the line as caption. */
  function ParseImageBlock(s: string): (r: Result<Block>)
    ensures r.Err? <==> forall a: nat, b: nat :: !ImageAt(s, a, b)
    ensures r.Err? ==> r.message == "Invalid image block"
    ensures r.Ok? ==> r.value.Image?
  {
    var m := MatchImage(s);
    if m.None? then Err("Invalid image block")
    else
      var a := m.value.0;
      var b := m.value.1;
      Ok(Image(s[a + 2..b], s[2..a], CaptionAfter(s, b)))
  }

  /** `![alt](url)(caption)` */
  function ImageSource(alt: string, url: string, caption: string): (s: string)
  {
    "![" + alt + "](" + url + ")(" + caption + ")"
  }

  /** `![alt](url)(caption)` is read back; the alt text may itself hold `](`, since the
      last one is taken. */
  lemma ImageRoundTrip(alt: string, url: string, caption: string)
    requires NoLineTerminator(alt, 0, |alt|)
    requires url != [] && forall x :: 0 <= x < |url| ==> url[x] != ')' && url[x] != ']' && !IsLineTerminator(url[x])
    requires caption != [] && forall x :: 0 <= x < |caption| ==> caption[x] != ']' && !IsLineTerminator(caption[x])
    ensures ParseImageBlock(ImageSource(alt, url, caption)) == Ok(Image(url, alt, caption))
  {
    var s := ImageSource(alt, url, caption);
    var a := 2 + |alt|;
    var b := a + 2 + |url|;
    ImageMatchOf(alt, url, caption);
    ImageCaption(alt, url, caption);
    ImageSlices(alt, url, caption);
    ImageFields(s, a, b, alt, url, caption);
  }

  /** The fields parseImageBlock reads off a match. */
  lemma ImageFields(s: string, a: nat, b: nat, alt: string, url: string, caption: string)
    requires MatchImage(s) == Some((a, b))
    requires b + 1 <= |s| && s[a + 2..b] == url && s[2..a] == alt
    requires CaptionAfter(s, b) == caption
    ensures ParseImageBlock(s) == Ok(Image(url, alt, caption))
  {
  }

  lemma ImageSlices(alt: string, url: string, caption: string)
    ensures var s := ImageSource(alt, url, caption);
            var a := 2 + |alt|;
            s[a + 2..a + 2 + |url|] == url && s[2..a] == alt
  {
  }

  /** The caption of `![alt](url)(caption)` loses its parentheses. */
  lemma ImageCaption(alt: string, url: string, caption: string)
    requires caption != [] && forall x :: 0 <= x < |caption| ==> !IsLineTerminator(caption[x])
    ensures var s := ImageSource(alt, url, caption);
            var b := 4 + |alt| + |url|;
            b < |s| && CaptionAfter(s, b) == caption
  {
    var s := ImageSource(alt, url, caption);
    var b := 4 + |alt| + |url|;
    assert forall x :: b + 2 <= x < |s| - 1 ==> s[x] == caption[x - b - 2];
    assert NoLineTerminator(s, b + 1, |s|);
    assert LineRun(s, b + 1) == |s| - b - 1;
    var c := s[b + 1..|s|];
    assert c == "(" + caption + ")";
    assert c[0] == '(' && c[|c| - 1] == ')' && c[1..|c| - 1] == caption;
  }

  lemma ImageMatchOf(alt: string, url: string, caption: string)
    requires NoLineTerminator(alt, 0, |alt|)
    requires url != [] && forall x :: 0 <= x < |url| ==> url[x] != ')' && url[x] != ']' && !IsLineTerminator(url[x])
    requires forall x :: 0 <= x < |caption| ==> caption[x] != ']' && !IsLineTerminator(caption[x])
    ensures MatchImage(ImageSource(alt, url, caption)) == Some((2 + |alt|, 4 + |alt| + |url|))
  {
    var s := ImageSource(alt, url, caption);
    var a := 2 + |alt|;
    var b := a + 2 + |url|;
    assert forall x :: 2 <= x < a ==> s[x] == alt[x - 2];
    assert forall x :: a + 2 <= x < b ==> s[x] == url[x - a - 2];
    assert ImageAt(s, a, b);
    forall x | a < x < |s| ensures s[x] != ']' {
      if b + 2 <= x < |s| - 1 {
        assert s[x] == caption[x - b - 2];
      }
    }
  }


  // ---------------------------------------------------------------------------------
  // Quote: `^(?:>\s.*\n?)+`

  /** A quote line starts here: `>` and one white-space character. */
  predicate QuoteStart(s: string) {
    |s| >= 2 && s[0] == '>' && IsSpace(s[1])
  }

  /** Where one `>\s.*\n?` iteration at the head of s ends: after the rest of the line and
      the newline that follows it, if one does. */
  function QuoteLineEnd(s: string): (n: nat)
    requires QuoteStart(s)
    ensures 2 <= n <= |s|
  {
    var e := 2 + LineRun(s, 2);
    if e < |s| && s[e] == '\n' then e + 1 else e
  }

  /** s[..n] is a run of whole quote-line iterations. */
  predicate QuoteLines(s: string, n: nat)
    decreases n
  {
    n == 0 || (QuoteStart(s) && QuoteLineEnd(s) <= n && QuoteLines(s[QuoteLineEnd(s)..], n - QuoteLineEnd(s)))
  }

  /** The length of the match: quote lines, each taken to the end of its line together with
      the newline after it, for as long as the next one starts with a quote marker. */
  function QuoteLength(s: string): (n: nat)
    ensures n <= |s|
    ensures n > 0 <==> QuoteStart(s)
    ensures QuoteLines(s, n) && !QuoteStart(s[n..])
    decreases |s|
  {
    if QuoteStart(s) then
      var e := 2 + LineRun(s, 2);
      var next := if e < |s| && s[e] == '\n' then e + 1 else e;
      next + QuoteLength(s[next..])
    else 0
  }

  /** `text.replace(/\n>[ ]?/g, '\n')`: the marker after every newline goes, with one space
      after it if there is one. */
  function StripQuoteMarks(s: string): (r: string)
    ensures |r| <= |s|
    ensures (forall x :: 0 <= x < |s| ==> s[x] != '\n') ==> r == s
    decreases |s|
  {
    if |s| >= 2 && s[0] == '\n' && s[1] == '>' then
      "\n" + StripQuoteMarks(if |s| >= 3 && s[2] == ' ' then s[3..] else s[2..])
    else if s == [] then []
    else [s[0]] + StripQuoteMarks(s[1..])
  }

  /** `text.replace(/^>\s/, '')` */
  function StripFirstMark(s: string): (r: string)
    ensures |s| - |r| == (if QuoteStart(s) then 2 else 0) && r == s[|s| - |r|..]
  {
    if QuoteStart(s) then s[2..] else s
  }

  /** parseQuoteBlock: the quote lines with their markers removed. */
  function ParseQuoteBlock(s: string): (r: Result<Block>)
    ensures r.Err? <==> !QuoteStart(s)
    ensures r.Err? ==> r.message == "Invalid quote block"
    ensures r.Ok? ==> r.value.Quote?
  {
    if QuoteStart(s) then Ok(Quote(Body(StripFirstMark(StripQuoteMarks(s[..QuoteLength(s)])))))
    else Err("Invalid quote block")
  }

  /** Lines written as a quote: `> ` before each, joined by newlines. */
  function QuoteSource(lines: seq<string>): (s: string)
    requires |lines| >= 1
    ensures |s| >= 2 && s[..2] == "> "
  {
    if |lines| == 1 then "> " + lines[0] else "> " + lines[0] + "\n" + QuoteSource(lines[1..])
  }

  /** A quote written out is read back: its body is the lines joined by newlines. */
  lemma QuoteRoundTrip(lines: seq<string>)
    requires |lines| >= 1 && forall k :: 0 <= k < |lines| ==> OnOneLine(lines[k])
    ensures ParseQuoteBlock(QuoteSource(lines)) == Ok(Quote(Body(JoinLines(lines))))
  {
    QuoteLengthOfSource(lines);
    QuoteMarksOfSource(lines);
    WholeQuote(QuoteSource(lines), JoinLines(lines));
  }

  /** A text that is one quote match, whose markers leave `> ` and j, has body j. */
  lemma WholeQuote(s: string, j: string)
    requires QuoteLength(s) == |s| > 0 && StripQuoteMarks(s) == "> " + j
    ensures ParseQuoteBlock(s) == Ok(Quote(Body(j)))
  {
    assert s[..|s|] == s;
    assert ("> " + j)[2..] == j;
  }

  /** The match runs over every line of a written quote. */
  lemma {:induction false} QuoteLengthOfSource(lines: seq<string>)
    requires |lines| >= 1 && forall k :: 0 <= k < |lines| ==> OnOneLine(lines[k])
    ensures QuoteLength(QuoteSource(lines)) == |QuoteSource(lines)|
    decreases |lines|
  {
    if |lines| == 1 {
      QuoteLineLength(lines[0], []);
      assert "> " + lines[0] + [] == QuoteSource(lines);
    } else {
      QuoteLengthOfSource(lines[1..]);
      QuoteLineLength(lines[0], "\n" + QuoteSource(lines[1..]));
      assert "> " + lines[0] + ("\n" + QuoteSource(lines[1..])) == QuoteSource(lines);
    }
  }

  /** A quote line is matched to its end, with the newline after it if there is one. */
  lemma QuoteLineLength(l: string, rest: string)
    requires OnOneLine(l)
    requires rest == [] || (rest[0] == '\n' && QuoteLength(rest[1..]) == |rest| - 1)
    ensures QuoteLength("> " + l + rest) == |"> " + l + rest|
  {
    var s := "> " + l + rest;
    assert forall x :: 2 <= x < 2 + |l| ==> s[x] == l[x - 2];
    assert NoLineTerminator(s, 2, 2 + |l|);
    if rest == [] {
      LineRunIs(s, 2, |l|);
      assert s[|s|..] == [];
    } else {
      assert s[2 + |l|] == '\n';
      LineRunIs(s, 2, |l|);
      assert s[3 + |l|..] == rest[1..];
    }
  }

  /** Removing the markers of a written quote leaves the first marker and the lines. */
  lemma {:induction false} QuoteMarksOfSource(lines: seq<string>)
    requires |lines| >= 1 && forall k :: 0 <= k < |lines| ==> OnOneLine(lines[k])
    ensures StripQuoteMarks(QuoteSource(lines)) == "> " + JoinLines(lines)
    decreases |lines|
  {
    var l := lines[0];
    if |lines| == 1 {
      NoNewlineKept("> " + l, []);
      assert "> " + l + [] == "> " + l;
    } else {
      QuoteMarksOfSource(lines[1..]);
      QuoteMarksStep(l, QuoteSource(lines[1..]), JoinLines(lines[1..]));
    }
  }

  /** One step of the induction above: the first line and the marker after it. */
  lemma QuoteMarksStep(l: string, rest: string, joined: string)
    requires OnOneLine(l) && |rest| >= 2 && rest[..2] == "> "
    requires StripQuoteMarks(rest) == "> " + joined
    ensures StripQuoteMarks("> " + l + "\n" + rest) == "> " + (l + "\n" + joined)
  {
    var head := "> " + l;
    MarkedLine(rest);
    DropMarker(StripQuoteMarks(rest[2..]), joined);
    MarkedLineShape(l, rest, joined);
    NoNewlineKept(head, "\n" + rest);
  }

  /** How `"> " + l + "\n" + rest` groups: the marked line, which holds no newline, then
      the newline and the rest. */
  lemma MarkedLineShape(l: string, rest: string, joined: string)
    requires OnOneLine(l)
    ensures "> " + l + "\n" + rest == ("> " + l) + ("\n" + rest)
    ensures ("> " + l) + ("\n" + joined) == "> " + (l + "\n" + joined)
    ensures forall i :: 0 <= i < |"> " + l| ==> ("> " + l)[i] != '\n'
  {
    var head := "> " + l;
    assert forall i :: 2 <= i < |head| ==> head[i] == l[i - 2];
  }

  /** Two texts behind the same marker are the same text. */
  lemma DropMarker(a: string, b: string)
    requires "> " + a == "> " + b
    ensures a == b
  {
    assert ("> " + a)[2..] == a && ("> " + b)[2..] == b;
  }

  /** A marked line, alone or after a newline: its marker goes, the newline stays. */
  lemma MarkedLine(rest: string)
    requires |rest| >= 2 && rest[..2] == "> "
    ensures StripQuoteMarks(rest) == "> " + StripQuoteMarks(rest[2..])
    ensures StripQuoteMarks("\n" + rest) == "\n" + StripQuoteMarks(rest[2..])
  {
    MarkerThenText(rest);
    NoNewlineKept("> ", rest[2..]);
    StripMarkSpace(rest[2..]);
  }

  /** A text that starts with the marker is the marker and the text after it. */
  lemma MarkerThenText(rest: string)
    requires |rest| >= 2 && rest[..2] == "> "
    ensures rest == "> " + rest[2..] && "\n" + rest == "\n> " + rest[2..]
  {
    assert rest == rest[..2] + rest[2..];
  }

  /** A newline, a `>` and a space: the marker and the space go. */
  lemma StripMarkSpace(t: string)
    ensures StripQuoteMarks("\n> " + t) == "\n" + StripQuoteMarks(t)
  {
    var s := "\n> " + t;
    assert s[3..] == t;
  }

  /** A character other than a newline is kept, and the rest is stripped on its own. */
  lemma StripPlain(c: char, t: string)
    requires c != '\n'
    ensures StripQuoteMarks([c] + t) == [c] + StripQuoteMarks(t)
  {
    assert ([c] + t)[1..] == t;
  }

  /** Text without a newline is left as it is, and so is what follows it. */
  lemma {:induction false} NoNewlineKept(x: string, y: string)
    requires '\n' !in x
    ensures StripQuoteMarks(x + y) == x + StripQuoteMarks(y)
    decreases |x|
  {
    if x != [] {
      var t := x[1..];
      assert x == [x[0]] + t;
      NoNewlineKept(t, y);
      assert x + y == [x[0]] + (t + y);
      StripPlain(x[0], t + y);
      AppendAssoc([x[0]], t, StripQuoteMarks(y));
    } else {
      assert x + y == y;
    }
  }
}
