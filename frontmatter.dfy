// The front matter of a document (lib/parser.ts:22-58): `split` cuts the header off the
// trimmed input, and `parseFrontmatter` reads `key: value` lines out of the header into a
// record, later lines overriding earlier ones.

module Frontmatter {
  import opened JsText

  /** The rule `---` starts at position i of s. */
  predicate RuleAt(s: string, i: nat) {
    i + 3 <= |s| && s[i] == '-' && s[i + 1] == '-' && s[i + 2] == '-'
  }

  /** s opens with a rule and a newline, `---\n`. */
  predicate Opens(s: string) {
    |s| >= 4 && RuleAt(s, 0) && s[3] == '\n'
  }

  /** `---` */
  function Rule(): string
  {
    "---"
  }

  /** The first rule at or after k. */
  function RuleFrom(s: string, k: nat): (r: Option<nat>)
    requires k <= |s|
    ensures r.Some? ==> k <= r.value && RuleAt(s, r.value)
    ensures r.Some? ==> forall x :: k <= x < r.value ==> !RuleAt(s, x)
    ensures r.None? ==> forall x :: k <= x ==> !RuleAt(s, x)
    decreases |s| - k
  {
    if k + 3 > |s| then None
    else if RuleAt(s, k) then Some(k)
    else RuleFrom(s, k + 1)
  }

  // ---------------------------------------------------------------------------------
  // split (lib/parser.ts:22-33)

  /** A header as split cuts it: the opening `---\n`, then text, then the first rule after
      the opening, which ends it. */
  predicate Header(h: string) {
    Opens(h) && |h| >= 7 && RuleAt(h, |h| - 3) && forall x :: 4 <= x < |h| - 3 ==> !RuleAt(h, x)
  }

  /** Length of what `^(---\n[\s\S]*?---)` takes from the start of t (the shortest header),
      0 when it does not match. */
  function HeadLength(t: string): (n: nat)
    ensures n <= |t|
    ensures n > 0 <==> Opens(t) && exists x :: 4 <= x && RuleAt(t, x)
  {
    if Opens(t) then
      match RuleFrom(t, 4)
      case None => 0
      case Some(j) => j + 3
    else 0
  }

  datatype Parts = Parts(head: string, body: string)

  /** split: the header of the trimmed input, or "" if it has none, and the rest trimmed. */
  function Split(input: string): (r: Parts)
    ensures r.head == [] || Header(r.head)
    ensures r.body == [] || Unpadded(r.body)
    ensures r.head == [] <==> HeadLength(Trim(input)) == 0
  {
    var t := Trim(input);
    var n := HeadLength(t);
    assert n > 0 ==> Header(t[..n]) by {
      if n > 0 {
        assert forall x: nat :: x + 3 <= n ==> (RuleAt(t[..n], x) <==> RuleAt(t, x));
      }
    }
    Parts(t[..n], Trim(t[n..]))
  }

  // ---------------------------------------------------------------------------------
  // The header's content: `---\n+([\s\S]+)---` (lib/parser.ts:35-39)

  /** The pattern matches from the rule at i with the newline run ending at c and the
      capture s[c..e] followed by the rule at e. */
  predicate Match(s: string, i: nat, c: nat, e: nat) {
    RuleAt(s, i) && i + 4 <= c && c + 1 <= e && RuleAt(s, e) &&
    forall x :: i + 3 <= x < c ==> s[x] == '\n'
  }

  /** The last rule in s[lo..hi]. */
  function LastRule(s: string, lo: nat, hi: nat): (r: Option<nat>)
    ensures r.Some? ==> lo <= r.value < hi && RuleAt(s, r.value)
    ensures r.Some? ==> forall y :: r.value < y < hi ==> !RuleAt(s, y)
    ensures r.None? ==> forall y :: lo <= y < hi ==> !RuleAt(s, y)
    decreases hi - lo
  {
    if hi <= lo then None
    else if RuleAt(s, hi - 1) then Some(hi - 1)
    else LastRule(s, lo, hi - 1)
  }

  /** The match the backtracking search finds from the rule at i, as (c, e): the newline
      run as long as possible, then the capture as long as possible. */
  function MatchAt(s: string, i: nat): (r: Option<(nat, nat)>)
    requires RuleAt(s, i)
    ensures r.Some? ==> Match(s, i, r.value.0, r.value.1)
    ensures r.Some? ==> forall c: nat, e: nat :: Match(s, i, c, e) ==>
                          c < r.value.0 || (c == r.value.0 && e <= r.value.1)
    ensures r.None? ==> forall c: nat, e: nat :: !Match(s, i, c, e)
  {
    var k := CharRun(s, i + 3, '\n');
    var c := i + 3 + k;
    MatchedRun(s, i, c);
    if k == 0 then None
    else
      match LastRule(s, c + 1, |s|)
      case Some(j) => Some((c, j))
      case None =>
        if k >= 2 && RuleAt(s, c) then Some((c - 1, c))
        else
          assert forall c': nat, e: nat :: !Match(s, i, c', e) by {
            forall c': nat, e: nat ensures !Match(s, i, c', e) {
              assert i + 3 <= e < c ==> s[e] == '\n';
            }
          }
          None
  }

  /** Every match from i ends its newline run no later than the full run does. */
  lemma MatchedRun(s: string, i: nat, c: nat)
    requires RuleAt(s, i) && c == i + 3 + CharRun(s, i + 3, '\n')
    ensures forall c': nat, e: nat :: Match(s, i, c', e) ==> c' <= c
  {
    forall c': nat, e: nat ensures Match(s, i, c', e) ==> c' <= c {
      if c < c' {
        assert i + 3 <= c < c';
      }
    }
  }

  /** A match starts at i. */
  predicate MatchesAt(s: string, i: nat) {
    RuleAt(s, i) && MatchAt(s, i).Some?
  }

  /** The leftmost start of a match at or after i. */
  function MatchStart(s: string, i: nat): (r: Option<nat>)
    ensures r.Some? ==> i <= r.value && MatchesAt(s, r.value)
    ensures r.Some? ==> forall x :: i <= x < r.value ==> !MatchesAt(s, x)
    ensures r.None? ==> forall x :: i <= x ==> !MatchesAt(s, x)
    decreases |s| - i
  {
    if i + 3 > |s| then None
    else if MatchesAt(s, i) then Some(i)
    else MatchStart(s, i + 1)
  }

  /** `input.match(/---\n+([\s\S]+)---/)?.[1]` */
  function Content(input: string): (r: Option<string>)
    ensures r.Some? ==> r.value != []
  {
    match MatchStart(input, 0)
    case None => None
    case Some(i) =>
      var m := MatchAt(input, i).value;
      Some(input[m.0..m.1])
  }

  // ---------------------------------------------------------------------------------
  // One line: `^(.+?):\s(.+)`, then the trimmed value with one quote stripped at each end

  /** The key of the line ends at p: `(.+?)` takes line[..p], then a colon, a white-space
      character and at least one more character on the line. */
  predicate KeyAt(line: string, p: nat) {
    1 <= p && p + 2 < |line| && NoLineTerminator(line, 0, p) &&
    line[p] == ':' && IsSpace(line[p + 1]) && !IsLineTerminator(line[p + 2])
  }

  /** The lazy key: the first p at or after `from` where the line can be cut. */
  function KeyEnd(line: string, from: nat): (r: Option<nat>)
    requires 1 <= from && from - 1 <= |line| && NoLineTerminator(line, 0, from - 1)
    ensures r.Some? ==> from <= r.value && KeyAt(line, r.value)
    ensures r.Some? ==> forall x :: from <= x < r.value ==> !KeyAt(line, x)
    ensures r.None? ==> forall x :: from <= x ==> !KeyAt(line, x)
    decreases |line| - from
  {
    if from + 2 >= |line| || IsLineTerminator(line[from - 1]) then None
    else if KeyAt(line, from) then Some(from)
    else KeyEnd(line, from + 1)
  }

  predicate IsQuote(c: char) {
    c == '"' || c == '\''
  }

  /** `v.replace(/^["']?(.+?)["']?$/, '$1')`: one leading and one trailing quote go, as long
      as something is left between them; a value spanning lines is kept as it is. */
  function Unquote(v: string): (r: string)
    ensures |r| <= |v|
    ensures r == v ||
            (|v| >= 2 && IsQuote(v[0]) && r == v[1..]) ||
            (|v| >= 2 && IsQuote(v[|v| - 1]) && r == v[..|v| - 1]) ||
            (|v| >= 3 && IsQuote(v[0]) && IsQuote(v[|v| - 1]) && r == v[1..|v| - 1])
    ensures v != [] ==> r != []
    ensures !OnOneLine(v) ==> r == v
  {
    if v == [] || !OnOneLine(v) then v
    else if IsQuote(v[0]) && |v| >= 2 then
      if |v| >= 3 && IsQuote(v[|v| - 1]) then v[1..|v| - 1] else v[1..]
    else if !IsQuote(v[0]) && |v| >= 2 && IsQuote(v[|v| - 1]) then v[..|v| - 1]
    else v
  }

  /** The key and value a line contributes, or None when the pattern does not match it. */
  function Entry(line: string): (r: Option<(string, string)>)
    ensures r.Some? <==> exists p :: KeyAt(line, p)
  {
    match KeyEnd(line, 1)
    case None => None
    case Some(p) => Some(EntryCutAt(line, p))
  }

  /** The trimmed key before p and the trimmed, unquoted rest of the line after the colon
      and the white-space character. */
  function EntryCutAt(line: string, p: nat): (e: (string, string))
    requires KeyAt(line, p)
  {
    EntryParts(line, p, LineRun(line, p + 2))
  }

  /** The trimmed key before p and the trimmed, unquoted n characters from p + 2. */
  function EntryParts(line: string, p: nat, n: nat): (e: (string, string))
    requires p + 2 + n <= |line|
  {
    (Trim(line[..p]), Unquote(Trim(line[p + 2..p + 2 + n])))
  }

  /** The entries of the lines, in order. */
  function Entries(lines: seq<string>): seq<Option<(string, string)>>
  {
    seq(|lines|, k requires 0 <= k < |lines| => Entry(lines[k]))
  }

  /** Entry k sets the key `key`. */
  predicate Sets(entries: seq<Option<(string, string)>>, k: int, key: string)
    requires 0 <= k < |entries|
  {
    entries[k].Some? && entries[k].value.0 == key
  }

  /** The record the entries make when each is set in turn (`map.set`). */
  function Record(entries: seq<Option<(string, string)>>): (m: map<string, string>)
  {
    if entries == [] then map[]
    else
      var m := Record(entries[..|entries| - 1]);
      match entries[|entries| - 1]
      case None => m
      case Some(e) => m[e.0 := e.1]
  }

  /** What parseFrontmatter returns for its input. */
  function FrontmatterOf(input: string): (m: map<string, string>)
  {
    match Content(input)
    case None => map[]
    case Some(c) => Record(Entries(NonBlank(SplitLines(c))))
  }

  /** parseFrontmatter: no content gives an empty record; otherwise the non-blank lines of
      the content are read into one. */
  method ParseFrontmatter(input: string) returns (fields: map<string, string>)
    ensures fields == FrontmatterOf(input)
  {
    var content := Content(input);
    if content.None? {
      return map[];
    }
    var lines := NonBlank(SplitLines(content.value));
    fields := ReadFields(lines);
  }

  /** The loop of parseFrontmatter: a map filled line by line, so the last line with a key
      wins. */
  method ReadFields(lines: seq<string>) returns (fields: map<string, string>)
    ensures fields == Record(Entries(lines))
  {
    ghost var entries := Entries(lines);
    fields := map[];
    for i := 0 to |lines|
      invariant fields == Record(entries[..i])
    {
      assert entries[..i + 1][..i] == entries[..i];
      var entry := Entry(lines[i]);
      if entry.Some? {
        var (key, value) := entry.value;
        fields := fields[key := value];
      }
    }
    assert entries[..|lines|] == entries;
  }

  // ---------------------------------------------------------------------------------
  // Properties of split

  /** split loses nothing but white space: the trimmed input is the header, some white
      space, and the body. */
  lemma SplitKeepsText(input: string)
    ensures exists gap :: AllSpace(gap) && Trim(input) == Split(input).head + gap + Split(input).body
  {
    var t := Trim(input);
    var n := HeadLength(t);
    var gap := TrimTail(t, n);
    SplitAt(input, t, n);
  }

  /** split cuts the trimmed input t at the end of the header. */
  lemma SplitAt(input: string, t: string, n: nat)
    requires t == Trim(input) && n == HeadLength(t)
    ensures Split(input) == Parts(t[..n], Trim(t[n..]))
  {
  }

  /** Without an opening `---\n`, or without a rule to close it, the head is empty and the
      body is the whole trimmed input. */
  lemma SplitWithoutHeader(input: string)
    requires !Opens(Trim(input)) || forall x :: 4 <= x ==> !RuleAt(Trim(input), x)
    ensures Split(input) == Parts([], Trim(input))
  {
    TrimOfTrimmed(Trim(input));
  }

  /** No rule starts in fm before the one written after it. */
  predicate RuleOnlyAtEnd(fm: string) {
    forall x :: 0 <= x < |fm| ==> !RuleAt(fm + Rule(), x)
  }

  /** A header followed by a body is split into the two, whatever blank lines separate
      them. */
  lemma SplitRoundTrip(fm: string, gap: string, body: string)
    requires RuleOnlyAtEnd(fm) && AllSpace(gap) && Unpadded(body)
    ensures Split("---\n" + fm + Rule() + gap + body) == Parts("---\n" + fm + Rule(), body)
  {
    var h := "---\n" + fm + Rule();
    var tail := gap + body;
    var input := h + gap + body;
    assert input == h + tail;
    WrittenHeader(fm);
    HeaderLength(h, tail);
    assert input[|input| - 1] == body[|body| - 1];
    TrimOfTrimmed(input);
    assert input[|h|..] == gap + body + [];
    TrimAround(gap, body, []);
    assert input[..|h|] == h;
    SplitAt(input, input, |h|);
  }

  /** `---\n`, then fm, then a rule is a header when fm holds no rule of its own. */
  lemma WrittenHeader(fm: string)
    requires RuleOnlyAtEnd(fm)
    ensures Header("---\n" + fm + Rule())
  {
    var h := "---\n" + fm + Rule();
    assert forall y :: 0 <= y < |fm| + 3 ==> h[4 + y] == (fm + Rule())[y];
    forall x | 4 <= x < |h| - 3 ensures !RuleAt(h, x) {
      assert !RuleAt(fm + Rule(), x - 4);
    }
  }

  /** Whatever follows a header, split's pattern takes the header and no more. */
  lemma HeaderLength(h: string, tail: string)
    requires Header(h)
    ensures HeadLength(h + tail) == |h|
  {
    var s := h + tail;
    assert forall x: nat :: x + 3 <= |h| ==> (RuleAt(s, x) <==> RuleAt(h, x));
    assert RuleFrom(s, 4) == Some(|h| - 3);
  }

  // ---------------------------------------------------------------------------------
  // Properties of parseFrontmatter

  /** The content of a header is the text between its opening line and its closing rule,
      whatever rules it holds in between (the capture is greedy). */
  lemma HeaderContent(fm: string)
    requires fm != [] && fm[0] != '\n'
    ensures Content("---\n" + fm + Rule()) == Some(fm)
  {
    var s := "---\n" + fm + Rule();
    CharRunIs(s, 3, '\n', 1);
    assert RuleAt(s, |s| - 3);
    assert LastRule(s, 5, |s|) == Some(|s| - 3);
    var e: nat := |s| - 3;
    assert MatchAt(s, 0) == Some((4, e));
    assert MatchStart(s, 0) == Some(0);
    assert s[4..|s| - 3] == fm;
  }

  /** A header of the one line `key: value`. */
  function FieldHeader(key: string, value: string): (h: string)
  {
    "---\n" + (key + ": " + value + "\n") + Rule()
  }

  /** A header of one `key: value` line gives a record of that one field. */
  lemma OneField(key: string, value: string)
    requires key != [] && OnOneLine(key) && forall x :: 0 <= x < |key| ==> key[x] != ':'
    requires value != [] && OnOneLine(value)
    ensures FrontmatterOf(FieldHeader(key, value)) == map[Trim(key) := Unquote(Trim(value))]
  {
    var line := key + ": " + value;
    var fm := line + "\n";
    assert fm[0] == key[0];
    HeaderContent(fm);
    assert OnOneLine(line) by {
      assert forall x :: 0 <= x < |key| ==> line[x] == key[x];
      assert forall x :: 0 <= x < |value| ==> line[|key| + 2 + x] == value[x];
    }
    SplitLineEnd(line);
    assert !AllSpace(line) by {
      assert line[|key|] == ':';
    }
    assert NonBlank([line, []]) == [line];
    EntryOf(key, value);
    ContentFields(FieldHeader(key, value), fm, [line]);
    SingleRecord(line, (Trim(key), Unquote(Trim(value))));
  }

  /** The record read from the lines of the content. */
  lemma ContentFields(input: string, c: string, lines: seq<string>)
    requires Content(input) == Some(c) && NonBlank(SplitLines(c)) == lines
    ensures FrontmatterOf(input) == Record(Entries(lines))
  {
  }

  /** One line with an entry makes a record of one field. */
  lemma SingleRecord(line: string, e: (string, string))
    requires Entry(line) == Some(e)
    ensures Record(Entries([line])) == map[e.0 := e.1]
  {
    assert Entries([line]) == [Some(e)];
    assert Entries([line])[..0] == [];
  }

  /** An input where the content pattern finds no closed header has no front matter. */
  lemma NoRuleNoFields(input: string)
    requires forall i: nat, c: nat, e: nat :: !Match(input, i, c, e)
    ensures FrontmatterOf(input) == map[]
  {
  }

  /** A header that is opened but never closed, `---\n` and text without a rule, gives
      no front matter. */
  lemma UnclosedHeader(t: string)
    requires forall x :: !RuleAt(t, x)
    ensures FrontmatterOf("---\n" + t) == map[]
  {
    ShiftedRules(t);
    NoRuleNoFields("---\n" + t);
  }

  /** A rule after the opening `---\n` is a rule of the text that follows it. */
  lemma ShiftedRules(t: string)
    ensures forall x: nat :: 4 <= x && RuleAt("---\n" + t, x) ==> RuleAt(t, x - 4)
  {
    var s := "---\n" + t;
    forall x: nat | 4 <= x && RuleAt(s, x) ensures RuleAt(t, x - 4) {
      assert s[x] == t[x - 4] && s[x + 1] == t[x - 3] && s[x + 2] == t[x - 2];
    }
  }

  /** Two rules with nothing between them capture nothing: `---\n---` followed by text
      without a dash has no front matter. */
  lemma EmptyHeader(t: string)
    requires forall x :: 0 <= x < |t| ==> t[x] != '-'
    ensures FrontmatterOf("---\n---" + t) == map[]
  {
    var s := "---\n---" + t;
    assert forall x :: 7 <= x < |s| ==> s[x] == t[x - 7];
    NoRuleNoFields(s);
  }

  // ---------------------------------------------------------------------------------
  // Properties of the record

  /** A key is in the record exactly when some entry sets it. */
  lemma {:induction false} RecordKeys(entries: seq<Option<(string, string)>>, key: string)
    ensures key in Record(entries) <==> exists k :: 0 <= k < |entries| && Sets(entries, k, key)
    decreases |entries|
  {
    if entries != [] {
      var n := |entries| - 1;
      var init := entries[..n];
      RecordKeys(init, key);
      assert forall k :: 0 <= k < n ==> (Sets(init, k, key) <==> Sets(entries, k, key)) by {
        assert forall k :: 0 <= k < n ==> init[k] == entries[k];
      }
      if Sets(entries, n, key) {
        assert key in Record(entries);
      } else {
        assert key in Record(entries) <==> key in Record(init);
      }
    }
  }

  /** The value of a key is the one the last entry setting it holds. */
  lemma {:induction false} RecordLast(entries: seq<Option<(string, string)>>, k: nat)
    requires k < |entries| && entries[k].Some?
    requires forall j :: k < j < |entries| ==> !Sets(entries, j, entries[k].value.0)
    ensures entries[k].value.0 in Record(entries)
    ensures Record(entries)[entries[k].value.0] == entries[k].value.1
    decreases |entries|
  {
    var init := entries[..|entries| - 1];
    if k < |entries| - 1 {
      assert init[k] == entries[k];
      forall j | k < j < |init| ensures !Sets(init, j, init[k].value.0) {
        assert init[j] == entries[j];
        assert !Sets(entries, j, entries[k].value.0);
      }
      RecordLast(init, k);
      assert !Sets(entries, |entries| - 1, entries[k].value.0);
    }
  }

  /** The front matter has a key exactly when some non-blank line of the header's content
      gives it, and its value is the one the last such line gives. */
  lemma FrontmatterFields(input: string, key: string)
    requires Content(input).Some?
    ensures var entries := Entries(NonBlank(SplitLines(Content(input).value)));
            key in FrontmatterOf(input) <==> exists k :: 0 <= k < |entries| && Sets(entries, k, key)
  {
    RecordKeys(Entries(NonBlank(SplitLines(Content(input).value))), key);
  }

  /** `key: value` is read as the trimmed key and the trimmed, unquoted value; the value may
      hold further colons, the key may not. */
  lemma EntryOf(key: string, value: string)
    requires key != [] && OnOneLine(key) && forall x :: 0 <= x < |key| ==> key[x] != ':'
    requires value != [] && OnOneLine(value)
    ensures Entry(key + ": " + value) == Some((Trim(key), Unquote(Trim(value))))
  {
    var line := key + ": " + value;
    var p := |key|;
    assert forall x :: 0 <= x < p ==> line[x] == key[x];
    assert line[p + 2] == value[0];
    assert KeyAt(line, p);
    assert forall x :: 0 <= x < |value| ==> line[p + 2 + x] == value[x];
    LineRunIs(line, p + 2, |value|);
    assert line[..p] == key;
    assert line[p + 2..p + 2 + |value|] == value;
    EntryAt(line, p);
    CutParts(line, p, key, value);
  }

  /** The cut of a line whose key text is `key` and whose rest of the line is `value`. */
  lemma CutParts(line: string, p: nat, key: string, value: string)
    requires KeyAt(line, p) && line[..p] == key
    requires LineRun(line, p + 2) == |value| && line[p + 2..p + 2 + |value|] == value
    ensures EntryCutAt(line, p) == (Trim(key), Unquote(Trim(value)))
  {
    assert EntryCutAt(line, p) == EntryParts(line, p, |value|);
  }

  /** When the first place the line can be cut is p, the entry is the text before p and the
      rest of the line after the colon and the space. */
  lemma EntryAt(line: string, p: nat)
    requires KeyAt(line, p) && forall x :: 1 <= x < p ==> line[x] != ':'
    ensures Entry(line) == Some(EntryCutAt(line, p))
  {
    assert KeyEnd(line, 1) == Some(p);
  }

  /** A value in quotes loses them, whatever quotes it holds inside. */
  lemma QuotedValue(q: char, r: char, v: string)
    requires IsQuote(q) && IsQuote(r) && v != [] && OnOneLine(v)
    ensures Unquote([q] + v + [r]) == v
  {
    var s := [q] + v + [r];
    assert OnOneLine(s) by {
      assert forall x :: 1 <= x < |s| - 1 ==> s[x] == v[x - 1];
    }
    assert s[1..|s| - 1] == v;
  }

  /** A value with no quote at either end is kept as it is. */
  lemma BareValue(v: string)
    requires v == [] || (!IsQuote(v[0]) && !IsQuote(v[|v| - 1]))
    ensures Unquote(v) == v
  {
  }

  /** A lone pair of quotes is not emptied: `""` is read as `"`. */
  lemma EmptyQuotes(q: char)
    requires IsQuote(q)
    ensures Unquote([q, q]) == [q]
  {
  }
}
