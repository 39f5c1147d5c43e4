// The block dispatcher of lib/parser.ts:317-374: the matchers are tried in a fixed order on
// the head of the text, the first that matches decides the block, its extractor is given the
// trimmed match, and the rest of the text, trimmed, is parsed the same way.

module Dispatcher {
  import opened JsText
  import opened Definition
  import opened InlineBody
  import opened BlockParsers
  import opened ListBlock

  /** The rows of `regexpToParserPairs`. */
  datatype BlockKind =
    | HeadingKind | QuoteKind | ListKind | ImageKind | CodeKind | ThematicBreakKind | ParagraphKind

  /** The order in which the matchers are tried. */
  const Kinds: seq<BlockKind> :=
    [HeadingKind, QuoteKind, ListKind, ImageKind, CodeKind, ThematicBreakKind, ParagraphKind]

  /** The length of `match[0]` for the kind's pattern at the head of s, if it matches. */
  function MatchLength(kind: BlockKind, s: string): (r: Option<nat>)
    ensures r.Some? ==> 0 < r.value <= |s|
  {
    match kind
    case HeadingKind =>
      var m := MatchHeading(s);
      if m.Some? then Some(m.value.1) else None
    case QuoteKind =>
      if QuoteLength(s) > 0 then Some(QuoteLength(s)) else None
    case ListKind =>
      if ListLength(s) > 0 then Some(ListLength(s)) else None
    case ImageKind =>
      var m := MatchImage(s);
      if m.Some? then Some(m.value.1 + 1 + LineRun(s, m.value.1 + 1)) else None
    case CodeKind =>
      var m := MatchCode(s);
      if m.Some? then Some(m.value.1 + 4) else None
    case ThematicBreakKind => MatchThematicBreak(s)
    case ParagraphKind => MatchParagraph(s)
  }

  /** The block a kind's extractor builds. */
  predicate Builds(kind: BlockKind, block: Block) {
    match kind
    case HeadingKind => block.Heading?
    case QuoteKind => block.Quote?
    case ListKind => block.List?
    case ImageKind => block.Image?
    case CodeKind => block.CodeBlock?
    case ThematicBreakKind => block.ThematicBreak?
    case ParagraphKind => block.Paragraph?
  }

  /** The kind's parser applied to the trimmed match: a block of that kind, or one of the
      extractors' errors; the thematic-break and paragraph extractors never throw. */
  function Extract(kind: BlockKind, t: string): (r: Result<Block>)
    ensures r.Ok? ==> Builds(kind, r.value)
    ensures r.Err? ==> ExtractorMessage(r.message)
    ensures kind == ThematicBreakKind || kind == ParagraphKind ==> r.Ok?
  {
    match kind
    case HeadingKind => ParseHeadingBlock(t)
    case QuoteKind => ParseQuoteBlock(t)
    case ListKind => ParseListBlock(t)
    case ImageKind => ParseImageBlock(t)
    case CodeKind => ParseCodeBlock(t)
    case ThematicBreakKind => Ok(ThematicBreak)
    case ParagraphKind => Ok(ParseParagraphBlock(t))
  }

  /** The first kind from position i of the order whose pattern matches, with the match
      length. */
  function FirstMatchFrom(s: string, i: nat): (r: Option<(BlockKind, nat)>)
    requires i <= |Kinds|
    ensures r.Some? ==> 0 < r.value.1 <= |s|
    decreases |Kinds| - i
  {
    if i == |Kinds| then None
    else if MatchLength(Kinds[i], s).Some? then Some((Kinds[i], MatchLength(Kinds[i], s).value))
    else FirstMatchFrom(s, i + 1)
  }

  /** Pattern j is the first from position i of the order that matches s. */
  predicate FirstKindAt(s: string, i: nat, j: nat) {
    i <= j < |Kinds| && MatchLength(Kinds[j], s).Some? &&
    forall x :: i <= x < j ==> MatchLength(Kinds[x], s).None?
  }

  /** The match found is the first pattern from position i of the order that matches, with
      its length; none is found only when no pattern from i matches. */
  lemma {:induction false} FirstMatchMeans(s: string, i: nat)
    requires i <= |Kinds|
    ensures FirstMatchFrom(s, i).Some? ==>
      exists j: nat :: FirstKindAt(s, i, j) && FirstMatchFrom(s, i) == Some((Kinds[j], MatchLength(Kinds[j], s).value))
    ensures FirstMatchFrom(s, i).None? ==> forall j :: i <= j < |Kinds| ==> MatchLength(Kinds[j], s).None?
    decreases |Kinds| - i
  {
    if i == |Kinds| {
    } else if MatchLength(Kinds[i], s).Some? {
      assert FirstKindAt(s, i, i);
    } else {
      FirstMatchMeans(s, i + 1);
      if FirstMatchFrom(s, i + 1).Some? {
        var j: nat :| FirstKindAt(s, i + 1, j) &&
          FirstMatchFrom(s, i + 1) == Some((Kinds[j], MatchLength(Kinds[j], s).value));
        assert FirstKindAt(s, i, j);
      }
    }
  }

  /** The message parseHeadBlock throws when no pattern matches. */
  function NoMatchMessage(input: string): string {
    "No matching block found for input: " + input
  }

  /** What parseHeadBlock returns (or throws) for the text and the blocks found so far. */
  function HeadBlocks(input: string, result: seq<Block>): (r: Result<seq<Block>>)
    decreases |input|
  {
    if Trim(input) == [] then Ok(result)
    else
      match FirstMatchFrom(input, 0)
      case None => Err(NoMatchMessage(input))
      case Some((kind, n)) =>
        match Extract(kind, Trim(input[..n]))
        case Err(message) => Err(message)
        case Ok(block) => HeadBlocks(Trim(input[n..]), result + [block])
  }

  /** What parseBlocks returns (or throws). */
  function Blocks(input: string): (r: Result<seq<Block>>)
  {
    if Trim(input) == [] then Ok([]) else HeadBlocks(input, [])
  }

  /** parseHeadBlock: the loop over the matchers, then the recursive call on the rest. */
  method ParseHeadBlock(input: string, result: seq<Block>) returns (r: Result<seq<Block>>)
    ensures r == HeadBlocks(input, result)
    decreases |input|
  {
    if Trim(input) == [] {
      return Ok(result);
    }
    var i := 0;
    while i < |Kinds|
      invariant 0 <= i <= |Kinds|
      invariant FirstMatchFrom(input, i) == FirstMatchFrom(input, 0)
    {
      var kind := Kinds[i];
      var m := MatchLength(kind, input);
      if m.Some? {
        var block := Extract(kind, Trim(input[..m.value]));
        if block.Err? {
          HeadError(input, result, kind, m.value, block.message);
          return Err(block.message);
        }
        HeadStep(input, result, kind, m.value, block.value);
        r := ParseHeadBlock(Trim(input[m.value..]), result + [block.value]);
        return;
      }
      i := i + 1;
    }
    return Err(NoMatchMessage(input));
  }

  /** parseBlocks */
  method ParseBlocks(input: string) returns (r: Result<seq<Block>>)
    ensures r == Blocks(input)
  {
    if Trim(input) == [] {
      return Ok([]);
    }
    r := ParseHeadBlock(input, []);
  }

  // ---------------------------------------------------------------------------------
  // Properties

  /** The messages the extractors throw. */
  predicate ExtractorMessage(message: string) {
    message == "Invalid heading block" || message == "Invalid quote block" ||
    message == "Invalid list item" || message == "Invalid image block" ||
    message == "Invalid code block"
  }

  /** The paragraph pattern, tried last, matches any text that is not empty: some pattern
      always matches. */
  lemma SomePatternMatches(s: string)
    requires s != []
    ensures FirstMatchFrom(s, 0).Some?
  {
    assert Kinds[6] == ParagraphKind;
    assert MatchLength(Kinds[6], s).Some?;
  }

  /** `r`, when it fails, fails with an extractor's message. */
  predicate ExtractorFailure(r: Result<seq<Block>>) {
    r.Err? ==> ExtractorMessage(r.message)
  }

  /** "No matching block found" is never thrown: every failure is an extractor's. */
  lemma {:induction false} OnlyExtractorErrors(input: string, result: seq<Block>)
    ensures HeadBlocks(input, result).Err? ==> ExtractorMessage(HeadBlocks(input, result).message)
    decreases |input|
  {
    if Trim(input) != [] {
      SomePatternMatches(input);
      var (kind, n) := FirstMatchFrom(input, 0).value;
      var block := Extract(kind, Trim(input[..n]));
      if block.Ok? {
        OnlyExtractorErrors(Trim(input[n..]), result + [block.value]);
        FailureStep(input, result, kind, n, block.value);
      } else {
        HeadError(input, result, kind, n, block.message);
      }
    }
  }

  /** One round of parseHeadBlock fails as the rounds after it fail. */
  lemma FailureStep(input: string, result: seq<Block>, kind: BlockKind, n: nat, block: Block)
    requires !AllSpace(input) && FirstBlock(input, kind, n, block)
    requires ExtractorFailure(HeadBlocks(Trim(input[n..]), result + [block]))
    ensures ExtractorFailure(HeadBlocks(input, result))
  {
    HeadStep(input, result, kind, n, block);
  }

  /** `r`, when it succeeds, starts with the blocks of `result`. */
  predicate KeepsPrefix(r: Result<seq<Block>>, result: seq<Block>) {
    r.Ok? ==> |r.value| >= |result| && r.value[..|result|] == result
  }

  /** The blocks found so far are kept, in front of the ones found later. */
  lemma {:induction false} ResultKept(input: string, result: seq<Block>)
    ensures HeadBlocks(input, result).Ok? ==>
      |HeadBlocks(input, result).value| >= |result| && HeadBlocks(input, result).value[..|result|] == result
    decreases |input|
  {
    if Trim(input) != [] && FirstMatchFrom(input, 0).Some? {
      var (kind, n) := FirstMatchFrom(input, 0).value;
      var block := Extract(kind, Trim(input[..n]));
      if block.Ok? {
        ResultKept(Trim(input[n..]), result + [block.value]);
        KeptStep(input, result, kind, n, block.value);
      }
    }
  }

  /** One round of parseHeadBlock keeps the prefix when the rounds after it keep theirs. */
  lemma KeptStep(input: string, result: seq<Block>, kind: BlockKind, n: nat, block: Block)
    requires !AllSpace(input) && FirstBlock(input, kind, n, block)
    requires KeepsPrefix(HeadBlocks(Trim(input[n..]), result + [block]), result + [block])
    ensures KeepsPrefix(HeadBlocks(input, result), result)
  {
    HeadStep(input, result, kind, n, block);
    PrefixOfLonger(HeadBlocks(Trim(input[n..]), result + [block]), result, block);
  }

  /** A result that keeps `result + [b]` in front keeps `result` in front. */
  lemma PrefixOfLonger(r: Result<seq<Block>>, result: seq<Block>, b: Block)
    requires KeepsPrefix(r, result + [b])
    ensures KeepsPrefix(r, result)
  {
    if r.Ok? {
      assert r.value[..|result|] == (result + [b])[..|result|];
    }
  }

  /** Text that is only white space holds no blocks. */
  lemma BlankHasNoBlocks(input: string)
    requires AllSpace(input)
    ensures Blocks(input) == Ok([])
  {
    assert Trim(input) == [];
  }

  /** The first pattern that matches is the j-th when none before it does. */
  lemma {:induction false} FirstMatchIs(s: string, i: nat, j: nat, n: nat)
    requires i <= j < |Kinds| && MatchLength(Kinds[j], s) == Some(n)
    requires forall x :: i <= x < j ==> MatchLength(Kinds[x], s).None?
    ensures FirstMatchFrom(s, i) == Some((Kinds[j], n))
    decreases j - i
  {
    if i < j {
      FirstMatchIs(s, i + 1, j, n);
    }
  }

  /** The first match of the text is a `kind` match of length n, and its extractor makes
      block of the trimmed match. */
  predicate FirstBlock(input: string, kind: BlockKind, n: nat, block: Block) {
    FirstMatchFrom(input, 0) == Some((kind, n)) && n <= |input| && Extract(kind, Trim(input[..n])) == Ok(block)
  }

  /** The text is not blank, its first match is `kind` over n characters, and that
      extractor throws `message`. */
  predicate FirstFails(input: string, kind: BlockKind, n: nat, message: string) {
    !AllSpace(input) && FirstMatchFrom(input, 0) == Some((kind, n)) && n <= |input| &&
    Extract(kind, Trim(input[..n])) == Err(message)
  }

  /** One round of parseHeadBlock: the block the first match makes, then the rest. */
  lemma HeadStep(input: string, result: seq<Block>, kind: BlockKind, n: nat, block: Block)
    requires !AllSpace(input) && FirstBlock(input, kind, n, block)
    ensures HeadBlocks(input, result) == HeadBlocks(Trim(input[n..]), result + [block])
  {
  }

  /** A round of parseHeadBlock whose extractor throws: the error is the result. */
  lemma HeadError(input: string, result: seq<Block>, kind: BlockKind, n: nat, message: string)
    requires FirstFails(input, kind, n, message)
    ensures HeadBlocks(input, result) == Err(message)
    ensures Blocks(input) == HeadBlocks(input, [])
  {
  }

  /** Once only white space is left, the blocks found are the result. */
  lemma HeadDone(input: string, result: seq<Block>)
    requires AllSpace(input)
    ensures HeadBlocks(input, result) == Ok(result)
  {
  }

  /** Text that is not blank is parsed from the head with no blocks found yet. */
  lemma BlocksFromHead(input: string)
    requires !AllSpace(input)
    ensures Blocks(input) == HeadBlocks(input, [])
  {
  }

  /** n dashes. */
  function Dashes(n: nat): string
  {
    Repeat('-', n)
  }

  /** A run of dashes matches none of the patterns tried before the thematic break. */
  lemma DashesNotEarlier(s: string)
    requires |s| >= 1 && s[0] == '-' && (|s| >= 2 ==> s[1] == '-')
    ensures forall j :: 0 <= j < 5 ==> MatchLength(Kinds[j], s).None?
  {
    assert CharRun(s, 0, '#') == 0;
    assert ItemAt(s, 0).None?;
  }

  /** Three or more dashes are a thematic break, and the text after them is parsed on its
      own. */
  lemma ThematicBreakFirst(n: nat, rest: string, result: seq<Block>)
    requires n >= 3 && (rest == [] || rest[0] != '-')
    ensures HeadBlocks(Dashes(n) + rest, result) == HeadBlocks(Trim(rest), result + [ThematicBreak])
  {
    var s := Dashes(n) + rest;
    assert !IsSpace(s[0]);
    DashesNotEarlier(s);
    CharRunIs(s, 0, '-', n);
    assert MatchLength(Kinds[5], s) == Some(n);
    FirstMatchIs(s, 0, 5, n);
    HeadStep(s, result, ThematicBreakKind, n, ThematicBreak);
    assert s[n..] == rest;
  }

  /** Fewer than three dashes are a paragraph. */
  lemma ShortDashes(n: nat, result: seq<Block>)
    requires 1 <= n <= 2
    ensures HeadBlocks(Dashes(n), result) == Ok(result + [Paragraph(Body(Dashes(n)))])
  {
    var s := Dashes(n);
    assert !IsSpace(s[0]);
    DashesNotEarlier(s);
    assert MatchLength(Kinds[5], s).None?;
    assert MatchLength(Kinds[6], s) == Some(n) by {
      assert CharIndex(s, 1, '\n') == n;
    }
    FirstMatchIs(s, 0, 6, n);
    assert Unpadded(s);
    WholeParagraph(s, result);
  }

  /** Text that the paragraph pattern matches whole, and that trimming leaves as it is, is
      one paragraph. */
  lemma WholeParagraph(s: string, result: seq<Block>)
    requires Unpadded(s) && FirstMatchFrom(s, 0) == Some((ParagraphKind, |s|))
    ensures !AllSpace(s) && HeadBlocks(s, result) == Ok(result + [Paragraph(Body(s))])
  {
    ParagraphExtract(s);
    HeadStep(s, result, ParagraphKind, |s|, Paragraph(Body(s)));
    HeadDone(s[|s|..], result + [Paragraph(Body(s))]);
  }

  /** The paragraph extractor given all of a trimmed text. */
  lemma ParagraphExtract(s: string)
    requires Unpadded(s) && FirstMatchFrom(s, 0) == Some((ParagraphKind, |s|))
    ensures !AllSpace(s) && FirstBlock(s, ParagraphKind, |s|, Paragraph(Body(s)))
  {
    WholeTextExtract(s);
  }

  /** A text without surrounding white space is not blank, and the paragraph extractor
      turns all of it into the paragraph's body. */
  lemma WholeTextExtract(s: string)
    requires Unpadded(s)
    ensures !AllSpace(s) && Extract(ParagraphKind, Trim(s[..|s|])) == Ok(Paragraph(Body(s)))
  {
    assert s[..|s|] == s;
    TrimOfTrimmed(s);
    ParagraphExtractor(s);
    assert !IsSpace(s[0]);
  }

  /** The paragraph extractor never throws: the text becomes the paragraph's body. */
  lemma ParagraphExtractor(t: string)
    ensures Extract(ParagraphKind, t) == Ok(Paragraph(Body(t)))
  {
    var r := Extract(ParagraphKind, t);
    assert r == Ok(ParseParagraphBlock(t));
  }

  /** A heading line whose text is white space passes the heading test, but the trimmed
      match no longer does, so the heading extractor throws. */
  lemma BlankHeadingThrows(k: nat, c: char)
    requires 1 <= k <= 6 && IsSpace(c) && !IsLineTerminator(c)
    ensures Blocks(Hashes(k) + [' ', c]) == Err("Invalid heading block")
  {
    BlankHeadingFails(k, c);
    HeadError(Hashes(k) + [' ', c], [], HeadingKind, k + 2, "Invalid heading block");
  }

  /** The heading pattern is the first to match the line, and its extractor throws. */
  lemma BlankHeadingFails(k: nat, c: char)
    requires 1 <= k <= 6 && IsSpace(c) && !IsLineTerminator(c)
    ensures FirstFails(Hashes(k) + [' ', c], HeadingKind, k + 2, "Invalid heading block")
  {
    BlankHeadingLine(k, c);
    HeadingExtractor(Hashes(k));
  }

  /** The heading extractor is parseHeadingBlock. */
  lemma HeadingExtractor(t: string)
    ensures Extract(HeadingKind, t) == ParseHeadingBlock(t)
  {
  }

  /** The facts BlankHeadingThrows rests on: the line is not blank, its heading match is the
      whole line, and the trimmed line is no heading. */
  lemma BlankHeadingLine(k: nat, c: char)
    requires 1 <= k <= 6 && IsSpace(c) && !IsLineTerminator(c)
    ensures var s := Hashes(k) + [' ', c];
      Trim(s) != [] && FirstMatchFrom(s, 0) == Some((HeadingKind, k + 2)) && s[..k + 2] == s &&
      Trim(s) == Hashes(k) && ParseHeadingBlock(Hashes(k)) == Err("Invalid heading block")
  {
    var s := Hashes(k) + [' ', c];
    BlankHeadingMatch(k, c);
    FirstMatchIs(s, 0, 0, k + 2);
    BlankHeadingTrim(k, c);
    HashesNoHeading(k);
  }

  lemma BlankHeadingMatch(k: nat, c: char)
    requires 1 <= k <= 6 && IsSpace(c) && !IsLineTerminator(c)
    ensures MatchHeading(Hashes(k) + [' ', c]) == Some((k, k + 2))
  {
    var s := Hashes(k) + [' ', c];
    CharRunIs(s, 0, '#', k);
  }

  lemma BlankHeadingTrim(k: nat, c: char)
    requires 1 <= k <= 6 && IsSpace(c)
    ensures var s := Hashes(k) + [' ', c];
      s[..k + 2] == s && Trim(s) == Hashes(k) && Trim(s) != []
  {
    var s := Hashes(k) + [' ', c];
    assert s == [] + Hashes(k) + [' ', c];
    TrimAround([], Hashes(k), [' ', c]);
  }

  /** Hashes alone are no heading. */
  lemma HashesNoHeading(k: nat)
    ensures ParseHeadingBlock(Hashes(k)) == Err("Invalid heading block")
  {
    forall n: nat, e: nat ensures !HeadingAt(Hashes(k), n, e) {
    }
  }

  /** `#` repeated k times, a space and `text` form a heading line that trimming leaves as
      it is. */
  predicate HeadingLine(k: nat, text: string) {
    1 <= k <= 6 && text != [] && OnOneLine(text) && !IsSpace(text[|text| - 1])
  }

  /** A heading line is a heading block, and what follows its line is parsed on its own. */
  lemma HeadingFirst(k: nat, text: string, rest: string, result: seq<Block>)
    requires HeadingLine(k, text) && (rest == [] || IsLineTerminator(rest[0]))
    ensures HeadBlocks(Hashes(k) + " " + text + rest, result)
         == HeadBlocks(Trim(rest), result + [Heading(k, Body(text))])
  {
    var line := Hashes(k) + " " + text;
    var s := line + rest;
    HeadingLineMatch(k, text, rest);
    assert !IsSpace(s[0]);
    FirstMatchIs(s, 0, 0, |line|);
    assert s[..|line|] == line;
    assert line[|line| - 1] == text[|text| - 1];
    TrimOfTrimmed(line);
    HeadingRoundTrip(k, text);
    HeadStep(s, result, HeadingKind, |line|, Heading(k, Body(text)));
    assert s[|line|..] == rest;
  }

  /** The heading pattern stops at the end of the heading's line. */
  lemma HeadingLineMatch(k: nat, text: string, rest: string)
    requires 1 <= k <= 6 && text != [] && OnOneLine(text)
    requires rest == [] || IsLineTerminator(rest[0])
    ensures MatchHeading(Hashes(k) + " " + text + rest) == Some((k, k + 1 + |text|))
  {
    var s := Hashes(k) + " " + text + rest;
    assert forall x :: 0 <= x < k ==> s[x] == '#';
    assert forall x :: k + 1 <= x < k + 1 + |text| ==> s[x] == text[x - k - 1];
    assert HeadingAt(s, k, k + 1 + |text|);
    if k + 1 + |text| < |s| {
      assert s[k + 1 + |text|] == rest[0];
    }
  }

  /** A heading, then blank lines, then a thematic break: two blocks, in order; the blank
      lines make no block. */
  lemma HeadingThenBreak(k: nat, text: string, gap: string, n: nat, result: seq<Block>)
    requires HeadingLine(k, text) && AllSpace(gap) && n >= 3
    ensures HeadBlocks(Hashes(k) + " " + text + ("\n" + gap + Dashes(n)), result)
         == Ok(result + [Heading(k, Body(text)), ThematicBreak])
  {
    var rest := "\n" + gap + Dashes(n);
    assert rest[0] == '\n';
    var heading := Heading(k, Body(text));
    HeadingFirst(k, text, rest, result);
    DashesOnNextLine(gap, n);
    BreakAlone(n, result + [heading]);
    AppendTwo(result, heading, ThematicBreak);
  }

  /** The line of dashes after a newline and blank lines, trimmed. */
  lemma DashesOnNextLine(gap: string, n: nat)
    requires AllSpace(gap) && n >= 1
    ensures Trim("\n" + gap + Dashes(n)) == Dashes(n)
  {
    assert "\n" + gap + Dashes(n) == ("\n" + gap) + Dashes(n) + [];
    assert AllSpace("\n" + gap) by {
      assert forall x :: 1 <= x < |gap| + 1 ==> ("\n" + gap)[x] == gap[x - 1];
    }
    TrimAround("\n" + gap, Dashes(n), []);
  }

  /** Appending two blocks one at a time. */
  lemma AppendTwo(result: seq<Block>, a: Block, b: Block)
    ensures result + [a] + [b] == result + [a, b]
  {
  }

  /** Dashes alone: one thematic break. */
  lemma BreakAlone(n: nat, result: seq<Block>)
    requires n >= 3
    ensures HeadBlocks(Dashes(n), result) == Ok(result + [ThematicBreak])
  {
    ThematicBreakFirst(n, [], result);
    assert Dashes(n) + [] == Dashes(n);
    HeadDone(Trim([]), result + [ThematicBreak]);
  }
}
