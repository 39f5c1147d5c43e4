// The list extractor (lib/parser.ts:62, 264-294): the lines of a list block, each read as
// one item with `(?:-|\d+\.)\s(.+)`, and whether every line is numbered.

module ListBlock {
  import opened JsText
  import opened Definition
  import opened InlineBody

  /** Where one `(?:-|\d+\.)\s(.+)\n?` iteration matched: the capture is s[start..end], and
      the iteration ends at next (after the newline, if one follows). */
  datatype ItemSpan = ItemSpan(start: nat, end: nat, next: nat)

  /** The index just after a `-` or `\d+\.` marker at i. */
  function ItemMarker(s: string, i: nat): (m: Option<nat>)
    requires i <= |s|
    ensures m.Some? ==> i < m.value <= |s|
    ensures m.Some? ==> (s[i] == '-' && m.value == i + 1) ||
                        (IsDigit(s[i]) && s[m.value - 1] == '.' &&
                         forall x :: i <= x < m.value - 1 ==> IsDigit(s[x]))
    ensures m.None? ==> i == |s| || (s[i] != '-' && !(IsDigit(s[i]) && i + DigitRun(s, i) < |s| && s[i + DigitRun(s, i)] == '.'))
  {
    if i < |s| && s[i] == '-' then Some(i + 1)
    else
      var d := DigitRun(s, i);
      if d > 0 && i + d < |s| && s[i + d] == '.' then Some(i + d + 1) else None
  }

  /** One iteration of the list pattern at i: a marker, one white-space character, and the
      rest of the line, which must not be empty. */
  function ItemAt(s: string, i: nat): (r: Option<ItemSpan>)
    requires i <= |s|
    ensures r.Some? ==> i < r.value.start < r.value.end <= r.value.next <= |s|
    ensures r.Some? ==> NoLineTerminator(s, r.value.start, r.value.end)
    ensures r.Some? ==> r.value.end == |s| || IsLineTerminator(s[r.value.end])
    ensures r.Some? ==> r.value.next == (if r.value.end < |s| && s[r.value.end] == '\n' then r.value.end + 1 else r.value.end)
    ensures r.Some? <==> ItemMarker(s, i).Some? && ItemMarker(s, i).value < |s| &&
                         IsSpace(s[ItemMarker(s, i).value]) && ItemMarker(s, i).value + 1 < |s| &&
                         !IsLineTerminator(s[ItemMarker(s, i).value + 1])
    ensures r.Some? ==> r.value.start == ItemMarker(s, i).value + 1
  {
    var m := ItemMarker(s, i);
    if m.Some? && m.value < |s| && IsSpace(s[m.value]) && LineRun(s, m.value + 1) > 0 then
      var e := m.value + 1 + LineRun(s, m.value + 1);
      Some(ItemSpan(m.value + 1, e, if e < |s| && s[e] == '\n' then e + 1 else e))
    else None
  }

  /** s[i..n] is a run of whole item iterations, each starting where the one before
      ended. */
  predicate ItemChain(s: string, i: nat, n: nat)
    requires i <= |s|
    decreases |s| - i
  {
    i == n || (ItemAt(s, i).Some? && ItemChain(s, ItemAt(s, i).value.next, n))
  }

  /** The repetition `(?:...)+` from i: the last iteration, whose capture is the group's
      value and whose end is the end of the match; None when not even one matches. */
  function ItemRun(s: string, i: nat): (r: Option<ItemSpan>)
    requires i <= |s|
    ensures r.Some? <==> ItemAt(s, i).Some?
    ensures r.Some? ==> i < r.value.start < r.value.end <= r.value.next <= |s|
    ensures r.Some? ==> ItemAt(s, r.value.next).None?
    ensures r.Some? ==> ItemChain(s, i, r.value.next)
    decreases |s| - i
  {
    match ItemAt(s, i)
    case None => None
    case Some(item) =>
      var more := ItemRun(s, item.next);
      if more.Some? then more else Some(item)
  }

  /** How much of s the list pattern matches: 0 when it does not match at all. */
  function ListLength(s: string): (n: nat)
    ensures n <= |s|
    ensures n > 0 <==> ItemAt(s, 0).Some?
    ensures ItemChain(s, 0, n) && ItemAt(s, n).None?
  {
    match ItemRun(s, 0)
    case None => 0
    case Some(item) => item.next
  }

  /** The item the list pattern's capture becomes. */
  function ItemOf(line: string): ListItem
  {
    match ItemRun(line, 0)
    case None => ListItem([])
    case Some(item) => ListItem(Body(line[item.start..item.end]))
  }

  /** parseListItem: the capture of the list pattern, tokenized. */
  function ParseListItem(line: string): (r: Result<ListItem>)
    ensures r.Err? <==> ItemAt(line, 0).None?
    ensures r.Err? ==> r.message == "Invalid list item"
  {
    if ItemAt(line, 0).None? then Err("Invalid list item") else Ok(ItemOf(line))
  }

  /** `/^\d{1,}\./`: t starts with digits and a period. */
  predicate StartsNumbered(t: string) {
    var d := DigitRun(t, 0);
    0 < d < |t| && t[d] == '.'
  }

  /** A line whose list match is numbered. */
  predicate NumberedLine(line: string) {
    ItemRun(line, 0).Some? && StartsNumbered(line[..ItemRun(line, 0).value.next])
  }

  /** `lines.map(parseListItem)`: the items in order, or the error of the first line that
      throws. */
  function ListItems(lines: seq<string>): (r: Result<seq<ListItem>>)
    ensures r.Ok? <==> forall k :: 0 <= k < |lines| ==> ItemAt(lines[k], 0).Some?
    ensures r.Err? ==> r.message == "Invalid list item"
    ensures r.Ok? ==> |r.value| == |lines| &&
                      forall k :: 0 <= k < |lines| ==> ParseListItem(lines[k]) == Ok(r.value[k])
  {
    if forall k :: 0 <= k < |lines| ==> ItemAt(lines[k], 0).Some? then
      Ok(seq(|lines|, k requires 0 <= k < |lines| => ItemOf(lines[k])))
    else Err("Invalid list item")
  }

  /** `input.split(/\n+/).filter((line) => line.trim() !== '')` */
  function ListLines(s: string): (lines: seq<string>)
  {
    NonBlank(SplitLines(s))
  }

  /** parseListBlock: one item per non-blank line; ordered when every line is numbered. */
  function ParseListBlock(s: string): (r: Result<Block>)
    ensures var lines := ListLines(s);
            (r.Ok? <==> forall k :: 0 <= k < |lines| ==> ItemAt(lines[k], 0).Some?) &&
            (r.Err? ==> r.message == "Invalid list item") &&
            (r.Ok? ==> r.value.List? && |r.value.items| == |lines|) &&
            (r.Ok? ==> forall k :: 0 <= k < |lines| ==> ParseListItem(lines[k]) == Ok(r.value.items[k])) &&
            (r.Ok? ==> (r.value.ordered <==> forall k :: 0 <= k < |lines| ==> NumberedLine(lines[k])))
  {
    var lines := ListLines(s);
    var items := ListItems(lines);
    if items.Err? then Err(items.message)
    else Ok(List(forall k :: 0 <= k < |lines| ==> NumberedLine(lines[k]), items.value))
  }

  // ---------------------------------------------------------------------------------
  // Properties

  /** A list marker: `-`, or digits and a period. */
  predicate Marker(marker: string) {
    marker == "-" ||
    (|marker| >= 2 && marker[|marker| - 1] == '.' && forall x :: 0 <= x < |marker| - 1 ==> IsDigit(marker[x]))
  }

  /** A list line as written: the marker, a space and the item's text. */
  function ItemLine(marker: string, text: string): string {
    marker + " " + text
  }

  /** A line written as a list item is matched to its end; its capture is the text, and it
      counts as numbered exactly when its marker is not `-`. */
  lemma ItemLineRun(marker: string, text: string)
    requires Marker(marker) && text != [] && OnOneLine(text)
    ensures var line := ItemLine(marker, text);
            ItemRun(line, 0) == Some(ItemSpan(|marker| + 1, |line|, |line|))
    ensures NumberedLine(ItemLine(marker, text)) <==> marker != "-"
  {
    var line := ItemLine(marker, text);
    var m := |marker|;
    assert forall x :: 0 <= x < m ==> line[x] == marker[x];
    assert line[m] == ' ';
    assert forall x :: m + 1 <= x < |line| ==> line[x] == text[x - m - 1];
    if marker != "-" {
      DigitRunIs(line, 0, m - 1);
    }
    assert ItemMarker(line, 0) == Some(m);
    LineRunIs(line, m + 1, |text|);
    assert ItemAt(line, 0) == Some(ItemSpan(m + 1, |line|, |line|));
    assert ItemAt(line, |line|).None?;
    assert line[..|line|] == line;
    if marker != "-" {
      assert StartsNumbered(line);
    } else {
      assert DigitRun(line, 0) == 0;
    }
  }

  /** The item a written list line becomes. */
  lemma ItemLineParsed(marker: string, text: string)
    requires Marker(marker) && text != [] && OnOneLine(text)
    ensures ParseListItem(ItemLine(marker, text)) == Ok(ListItem(Body(text)))
    ensures ItemOf(ItemLine(marker, text)) == ListItem(Body(text))
  {
    var line := ItemLine(marker, text);
    ItemLineRun(marker, text);
    assert line[|marker| + 1..|line|] == text;
  }

  /** Lines written with the given markers and texts. */
  function ListSource(markers: seq<string>, texts: seq<string>): (lines: seq<string>)
    requires |markers| == |texts|
    ensures |lines| == |texts|
  {
    seq(|texts|, k requires 0 <= k < |texts| => ItemLine(markers[k], texts[k]))
  }

  /** A written line is not blank and holds no newline. */
  lemma WrittenLine(marker: string, text: string)
    requires Marker(marker) && OnOneLine(text)
    ensures var line := ItemLine(marker, text);
            line != [] && !AllSpace(line) && forall x :: 0 <= x < |line| ==> line[x] != '\n'
  {
    var line := ItemLine(marker, text);
    assert line[0] == marker[0];
    assert forall x :: 0 <= x < |marker| ==> line[x] == marker[x];
    assert forall x :: |marker| + 1 <= x < |line| ==> line[x] == text[x - |marker| - 1];
  }

  /** A list written out is read back: one item per line holding that line's text, and
      ordered exactly when no line uses `-`. */
  lemma ListRoundTrip(markers: seq<string>, texts: seq<string>)
    requires |markers| == |texts| >= 1
    requires forall k :: 0 <= k < |texts| ==> Marker(markers[k]) && texts[k] != [] && OnOneLine(texts[k])
    ensures ParseListBlock(JoinLines(ListSource(markers, texts)))
         == Ok(List(forall k :: 0 <= k < |markers| ==> markers[k] != "-",
                    seq(|texts|, k requires 0 <= k < |texts| => ListItem(Body(texts[k])))))
  {
    var lines := ListSource(markers, texts);
    forall k | 0 <= k < |lines|
      ensures lines[k] != [] && !AllSpace(lines[k]) && forall x :: 0 <= x < |lines[k]| ==> lines[k][x] != '\n'
      ensures ItemAt(lines[k], 0).Some? && ItemOf(lines[k]) == ListItem(Body(texts[k]))
      ensures NumberedLine(lines[k]) <==> markers[k] != "-"
    {
      WrittenLine(markers[k], texts[k]);
      ItemLineRun(markers[k], texts[k]);
      ItemLineParsed(markers[k], texts[k]);
    }
    ReadLines(lines);
    ItemsOf(lines, texts);
    ListBlockOf(JoinLines(lines), lines, markers, texts);
  }

  /** Written lines are split apart again, none dropped as blank. */
  lemma ReadLines(lines: seq<string>)
    requires |lines| >= 1
    requires forall k :: 0 <= k < |lines| ==> lines[k] != [] && !AllSpace(lines[k]) && forall x :: 0 <= x < |lines[k]| ==> lines[k][x] != '\n'
    ensures ListLines(JoinLines(lines)) == lines
  {
    SplitJoinLines(lines);
    NonBlankKeepsAll(lines);
  }

  /** The items of lines whose items are known. */
  lemma ItemsOf(lines: seq<string>, texts: seq<string>)
    requires |texts| == |lines|
    requires forall k :: 0 <= k < |lines| ==> ItemAt(lines[k], 0).Some? && ItemOf(lines[k]) == ListItem(Body(texts[k]))
    ensures ListItems(lines) == Ok(seq(|texts|, k requires 0 <= k < |texts| => ListItem(Body(texts[k]))))
  {
    var items := seq(|texts|, k requires 0 <= k < |texts| => ListItem(Body(texts[k])));
    var r := ListItems(lines);
    assert r.Ok?;
    forall k | 0 <= k < |lines| ensures r.value[k] == items[k] {
      assert ParseListItem(lines[k]) == Ok(r.value[k]);
    }
    assert r.value == items;
  }

  /** The block made of lines whose items and numbering are known. */
  lemma ListBlockOf(s: string, lines: seq<string>, markers: seq<string>, texts: seq<string>)
    requires |markers| == |texts| == |lines| && ListLines(s) == lines
    requires ListItems(lines) == Ok(seq(|texts|, k requires 0 <= k < |texts| => ListItem(Body(texts[k]))))
    requires forall k :: 0 <= k < |lines| ==> (NumberedLine(lines[k]) <==> markers[k] != "-")
    ensures ParseListBlock(s)
         == Ok(List(forall k :: 0 <= k < |markers| ==> markers[k] != "-",
                    seq(|texts|, k requires 0 <= k < |texts| => ListItem(Body(texts[k])))))
  {
  }
}
