// parse (lib/parser.ts:15-20): a document is split into its header and its body, the
// header read as front matter and the body as blocks. A block that cannot be extracted
// makes the whole parse fail.

module Document {
  import opened JsText
  import opened Definition
  import opened Dispatcher
  import opened Frontmatter

  datatype Parsed = Parsed(frontmatter: map<string, string>, blocks: seq<Block>)

  /** The front matter alongside the blocks, or the error the blocks raised. */
  function WithBlocks(frontmatter: map<string, string>, blocks: Result<seq<Block>>): Result<Parsed>
  {
    match blocks
    case Err(message) => Err(message)
    case Ok(b) => Ok(Parsed(frontmatter, b))
  }

  /** What parse returns, or the error it throws. */
  function Parse(input: string): (r: Result<Parsed>)
  {
    var parts := Split(input);
    WithBlocks(FrontmatterOf(parts.head), Blocks(parts.body))
  }

  /** parse: the front matter of the head, then the blocks of the body. */
  method ParseDocument(input: string) returns (r: Result<Parsed>)
    ensures r == Parse(input)
  {
    var parts := Split(input);
    var frontmatter := ParseFrontmatter(parts.head);
    var blocks := ParseBlocks(parts.body);
    if blocks.Err? {
      return Err(blocks.message);
    }
    r := Ok(Parsed(frontmatter, blocks.value));
  }

  /** A document is parsed from the parts split cuts it into. */
  lemma ParseParts(input: string, head: string, body: string)
    requires Split(input) == Parts(head, body)
    ensures Parse(input) == WithBlocks(FrontmatterOf(head), Blocks(body))
  {
  }

  /** A document without a header has empty front matter and the blocks of the whole
      trimmed input. */
  lemma ParseWithoutHeader(input: string)
    requires !Opens(Trim(input))
    ensures Parse(input) == WithBlocks(map[], Blocks(Trim(input)))
  {
    SplitWithoutHeader(input);
    ParseParts(input, [], Trim(input));
    assert FrontmatterOf([]) == map[];
  }

  /** A header of one `key: value` line, blank lines, then the body: the field is read
      from the header and the blocks from the body alone. */
  lemma ParseWithHeader(key: string, value: string, gap: string, body: string)
    requires key != [] && OnOneLine(key) && forall x :: 0 <= x < |key| ==> key[x] != ':'
    requires value != [] && OnOneLine(value)
    requires forall x :: !RuleAt(key + ": " + value, x)
    requires AllSpace(gap) && Unpadded(body)
    ensures Parse(FieldHeader(key, value) + gap + body)
         == WithBlocks(map[Trim(key) := Unquote(Trim(value))], Blocks(body))
  {
    var line := key + ": " + value;
    LineRuleFree(line);
    SplitRoundTrip(line + "\n", gap, body);
    OneField(key, value);
    ParseParts(FieldHeader(key, value) + gap + body, FieldHeader(key, value), body);
  }

  /** A line without a rule, ended by a newline, holds no rule before the closing one. */
  lemma LineRuleFree(line: string)
    requires forall x :: !RuleAt(line, x)
    ensures RuleOnlyAtEnd(line + "\n")
  {
    var fm := line + "\n";
    forall x | 0 <= x < |fm| ensures !RuleAt(fm + Rule(), x) {
      assert x + 3 <= |line| ==> (fm + Rule())[x..x + 3] == line[x..x + 3];
      assert !RuleAt(line, x);
    }
  }
}
