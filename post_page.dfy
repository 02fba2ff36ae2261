/**
 * The single-post page: its own block parser, which groups runs of list
 * lines into list blocks and otherwise keeps one text block per line, and
 * the small rules for the share URL, the title size and the description.
 * Its inline renderer is the shared chain without the font whitelist.
 */
module PostPage {
  import opened Wrappers
  import opened Text
  import opened InlineMarkup
  import Entry

  // ---------------------------------------------------------------------
  // `buildAbsoluteUrl`

  /** `buildAbsoluteUrl`: nothing for an empty URL, `https:` in front of a
    * protocol-relative one, anything else unchanged. */
  function BuildAbsoluteUrl(raw: string): (r: Option<string>)
    ensures r.None? <==> raw == []
  {
    if raw == [] then None
    else if StartsWithCI(raw, "http://") || StartsWithCI(raw, "https://") then Some(raw)
    else if StartsWith(raw, "//") then Some("https:" + raw)
    else Some(raw)
  }

  /** A URL with an `http` or `https` scheme is kept as it is. */
  lemma AbsoluteUrlKept(raw: string)
    requires StartsWithCI(raw, "http://") || StartsWithCI(raw, "https://")
    ensures BuildAbsoluteUrl(raw) == Some(raw)
  {
  }

  /** A protocol-relative URL gets the `https:` scheme; no other URL changes. */
  lemma ProtocolRelativeUrl(raw: string)
    requires raw != []
    ensures StartsWith(raw, "//") ==> BuildAbsoluteUrl(raw) == Some("https:" + raw)
    ensures !StartsWith(raw, "//") ==> BuildAbsoluteUrl(raw) == Some(raw)
  {
    if StartsWith(raw, "//") {
      assert raw[0] == '/';
      assert !StartsWithCI(raw, "http://") && !StartsWithCI(raw, "https://");
    }
  }

  /** Making a URL absolute twice is making it absolute once. */
  lemma BuildAbsoluteUrlIdempotent(raw: string)
    requires raw != []
    ensures BuildAbsoluteUrl(BuildAbsoluteUrl(raw).value) == BuildAbsoluteUrl(raw)
  {
    var r := BuildAbsoluteUrl(raw).value;
    if r != raw {
      var h := "https:" + raw;
      assert StartsWith(raw, "//");
      assert h[..8] == "https://" by {
        assert h[..6] == "https:" && h[6..8] == raw[..2];
      }
      assert StartsWithCI(h, "https://");
    }
  }

  const FallbackImage := "/images/posts/fallback.svg"

  /** The share image: the first image URL, else the media URL, made
    * absolute; when both are empty, the site's fallback image under `base`. */
  function ShareImage(firstImage: string, media: string, base: string): (r: string)
    ensures firstImage == [] && media == [] ==> r == base + FallbackImage
  {
    match BuildAbsoluteUrl(if firstImage != [] then firstImage else media)
    case Some(u) => u
    case None => base + FallbackImage
  }

  // ---------------------------------------------------------------------
  // Title size and description

  /** `Math.min(56, Math.max(20, v))` for a finite `v`; a value that is not a
    * finite number (`None`) gives no title size. */
  function TitleSize(v: Option<real>): (r: Option<real>)
    ensures r.Some? <==> v.Some?
    ensures r.Some? ==> 20.0 <= r.value <= 56.0
    ensures r.Some? && 20.0 <= v.value <= 56.0 ==> r.value == v.value
    ensures r.Some? && v.value < 20.0 ==> r.value == 20.0
    ensures r.Some? && v.value > 56.0 ==> r.value == 56.0
  {
    match v
    case None => None
    case Some(x) =>
      var lo := if x > 20.0 then x else 20.0;
      Some(if lo < 56.0 then lo else 56.0)
  }

  /** Clamping a size that is already clamped changes nothing. */
  lemma TitleSizeIdempotent(v: Option<real>)
    ensures TitleSize(TitleSize(v)) == TitleSize(v)
  {
  }

  /** `lines.find(Boolean)`: the first non-empty line. */
  function FirstNonEmpty(lines: seq<string>): (r: Option<string>)
    ensures r.Some? ==> r.value != [] && r.value in lines
    ensures r.Some? ==> exists k | 0 <= k < |lines| :: lines[k] == r.value && forall j | 0 <= j < k :: lines[j] == []
    ensures r.None? <==> forall k | 0 <= k < |lines| :: lines[k] == []
    decreases |lines|
  {
    if lines == [] then None
    else if lines[0] != [] then Some(lines[0])
    else
      var r := FirstNonEmpty(lines[1..]);
      assert forall k | 1 <= k < |lines| :: lines[k] == lines[1..][k - 1];
      if r.Some? then
        var k :| 0 <= k < |lines[1..]| && lines[1..][k] == r.value && forall j | 0 <= j < k :: lines[1..][j] == [];
        assert lines[k + 1] == r.value && forall j | 0 <= j < k + 1 :: lines[j] == [];
        r
      else r
  }

  const DefaultDescription := "Read this journal entry."
  const DescriptionLength := 180

  /** The page description: the first non-empty line of the content cut to
    * 180 characters, or a fixed sentence when every line is empty. */
  function Description(content: string): (r: string)
    ensures |r| <= DescriptionLength
  {
    match FirstNonEmpty(Split(content, '\n'))
    case None => DefaultDescription
    case Some(line) =>
      var cut := Slice(line, 0, DescriptionLength);
      if cut == [] then DefaultDescription else cut
  }

  /** Content that opens with a non-empty line is described by that line, cut
    * to 180 characters. */
  lemma DescriptionFirstLine(line: string, rest: string)
    requires line != [] && Excludes(line, '\n')
    ensures Description(line + "\n" + rest)
      == line[..if |line| < DescriptionLength then |line| else DescriptionLength]
  {
    SplitAt(line, '\n', rest);
  }

  /** An empty first line is skipped. */
  lemma DescriptionSkipsEmpty(rest: string)
    ensures Description("\n" + rest) == Description(rest)
  {
    assert "\n" + rest == [] + "\n" + rest;
    SplitAt([], '\n', rest);
    assert ([[]] + Split(rest, '\n'))[1..] == Split(rest, '\n');
  }

  /** Empty content has the default description. */
  lemma DescriptionEmpty()
    ensures Description([]) == DefaultDescription
  {
  }

  // ---------------------------------------------------------------------
  // The list-item pattern `^(\s*)([-*â€¢]|\d+\.)\s+(.*)$`

  /** The five characters of the bullet class as it is written in the source,
    * whose `•` was saved as the three characters `â`, `€` and `¢`. */
  predicate IsBullet(c: char) {
    c == '-' || c == '*' || c == 'â' || c == '€' || c == '¢'
  }

  /** The end of the run of white space of `s` that starts at `i`. */
  function SpaceEnd(s: string, i: nat): (j: nat)
    requires i <= |s|
    ensures i <= j <= |s|
    ensures forall p | i <= p < j :: IsSpace(s[p])
    ensures j == |s| || !IsSpace(s[j])
    decreases |s| - i
  {
    if i < |s| && IsSpace(s[i]) then SpaceEnd(s, i + 1) else i
  }

  /** The end of the run of ASCII digits of `s` that starts at `i`. */
  function DigitEnd(s: string, i: nat): (j: nat)
    requires i <= |s|
    ensures i <= j <= |s|
    ensures forall p | i <= p < j :: IsDigit(s[p])
    ensures j == |s| || !IsDigit(s[j])
    decreases |s| - i
  {
    if i < |s| && IsDigit(s[i]) then DigitEnd(s, i + 1) else i
  }

  /** A run of white space reaches at least as far as any stretch of white space
    * that starts with it. */
  lemma {:induction false} SpaceEndCovers(s: string, i: nat, j: nat)
    requires i <= j <= |s| && forall p | i <= p < j :: IsSpace(s[p])
    ensures j <= SpaceEnd(s, i)
    decreases j - i
  {
    if i < j {
      SpaceEndCovers(s, i + 1, j);
    }
  }

  lemma {:induction false} DigitEndCovers(s: string, i: nat, j: nat)
    requires i <= j <= |s| && forall p | i <= p < j :: IsDigit(s[p])
    ensures j <= DigitEnd(s, i)
    decreases j - i
  {
    if i < j {
      DigitEndCovers(s, i + 1, j);
    }
  }

  /** `line[w..e]` is a marker: one bullet character, or digits and a dot. */
  predicate MarkerAt(line: string, w: int, e: int)
    requires 0 <= w < e <= |line|
  {
    (e == w + 1 && IsBullet(line[w]))
    || (w + 2 <= e && line[e - 1] == '.' && forall p | w <= p < e - 1 :: IsDigit(line[p]))
  }

  /** The pattern covers `line` with `(\s*)` as `line[..w]`, the marker as
    * `line[w..e]`, `\s+` as `line[e..r]` and `(.*)` as `line[r..]`. */
  predicate ListSplit(line: string, w: int, e: int, r: int) {
    && 0 <= w < e < r <= |line|
    && (forall p | 0 <= p < w :: IsSpace(line[p]))
    && MarkerAt(line, w, e)
    && (forall p | e <= p < r :: IsSpace(line[p]))
    && (forall p | r <= p < |line| :: !IsLineTerminator(line[p]))
  }

  /** Where the marker starting at `w` ends; `w` itself when there is none.
    * The bullet alternative is tried first, then digits and a dot. */
  function MarkerEnd(line: string, w: nat): (e: nat)
    requires w < |line|
    ensures e == w || (w < e <= |line| && MarkerAt(line, w, e))
  {
    if IsBullet(line[w]) then w + 1
    else
      var d := DigitEnd(line, w);
      if w < d < |line| && line[d] == '.' then d + 1 else w
  }

  /** The split the regular-expression engine finds: every group takes as much
    * as it can. */
  function ListSpan(line: string): (r: Option<(nat, nat, nat)>)
    ensures r.Some? ==> ListSplit(line, r.value.0, r.value.1, r.value.2)
  {
    var w := SpaceEnd(line, 0);
    if w == |line| then None
    else
      var e := MarkerEnd(line, w);
      if e == w then None
      else
        var r := SpaceEnd(line, e);
        if e < r && forall p | r <= p < |line| :: !IsLineTerminator(line[p])
        then Some((w, e, r))
        else None
  }

  /** `ListSpan` agrees with the pattern: it finds a split exactly when one
    * exists; every split has its leading white space and its marker, and none
    * has a longer `\s+`. */
  lemma ListSpanIsRegexMatch(line: string)
    ensures ListSpan(line).None? <==> forall w, e, r :: !ListSplit(line, w, e, r)
    ensures ListSpan(line).Some? ==>
      var (w, e, r) := ListSpan(line).value;
      forall w2, e2, r2 | ListSplit(line, w2, e2, r2) :: w2 == w && e2 == e && r2 <= r
  {
    forall w2, e2, r2 | ListSplit(line, w2, e2, r2)
      ensures ListSpan(line).Some?
      ensures var (w, e, r) := ListSpan(line).value; w2 == w && e2 == e && r2 <= r
    {
      ListSplitForced(line, w2, e2, r2);
    }
  }

  /** A split fixes the leading white space and the marker, and reaches no
    * further than the longest run of white space after the marker. */
  lemma ListSplitForced(line: string, w2: nat, e2: nat, r2: nat)
    requires ListSplit(line, w2, e2, r2)
    ensures ListSpan(line).Some?
    ensures var (w, e, r) := ListSpan(line).value; w2 == w && e2 == e && r2 <= r
  {
    LeadForced(line, w2, e2, r2);
    MarkerForced(line, w2, e2);
    SpaceEndCovers(line, e2, r2);
  }

  lemma LeadForced(line: string, w2: nat, e2: nat, r2: nat)
    requires ListSplit(line, w2, e2, r2)
    ensures SpaceEnd(line, 0) == w2
  {
    SpaceEndCovers(line, 0, w2);
    assert !IsSpace(line[w2]);
  }

  lemma MarkerForced(line: string, w: nat, e2: nat)
    requires w < e2 <= |line| && MarkerAt(line, w, e2)
    ensures MarkerEnd(line, w) == e2
  {
    if !IsBullet(line[w]) {
      DigitEndCovers(line, w, e2 - 1);
      assert !IsDigit(line[e2 - 1]);
    }
  }

  datatype ListKind = Unordered | Ordered

  /** What a list line carries: its indent, its kind and the text after the marker. */
  datatype ListLine = ListLine(indent: nat, kind: ListKind, text: string)

  /** `line.match(/^(\s*)([-*â€¢]|\d+\.)\s+(.*)$/)`, read as the source reads
    * it: half the leading white space (rounded down) as the indent, an ordered
    * list when the marker has digits, and the third group as the text. */
  function ListMatch(line: string): (r: Option<ListLine>)
    ensures r.Some? <==> exists w, e, q :: ListSplit(line, w, e, q)
  {
    ListSpanIsRegexMatch(line);
    match ListSpan(line)
    case None => None
    case Some((w, e, q)) =>
      Some(ListLine(w / 2, if IsBullet(line[w]) then Unordered else Ordered, line[q..]))
  }

  /** `- item\r`, a list line of content saved with `\r\n` line ends, is not a
    * list line: the `\r` left after splitting on `\n` is refused by `(.*)$`,
    * and `\s+` cannot take it either once the item holds a non-space character. */
  lemma CarriageReturnIsNoListLine(text: string)
    requires Entry.NonBlank(text)
    ensures ListMatch("- " + text + "\r").None?
  {
    var line := "- " + text + "\r";
    var k :| 0 <= k < |text| && !IsSpace(text[k]);
    assert line[0] == '-' && line[2 + k] == text[k] && line[|line| - 1] == '\r';
  }

  /** What a list line reads off any split of it: half its leading white space
    * as the indent, an ordered list exactly when the marker opens with a digit,
    * and as the text the rest after the longest run of white space. */
  lemma ListMatchOfSplit(line: string, w: int, e: int, q: int)
    requires ListSplit(line, w, e, q)
    ensures ListMatch(line).Some?
    ensures ListMatch(line).value.indent == w / 2
    ensures ListMatch(line).value.kind == Ordered <==> IsDigit(line[w])
    ensures var t := ListMatch(line).value.text;
      && q + |t| <= |line| && t == line[|line| - |t|..]
      && (forall p | q <= p < |line| - |t| :: IsSpace(line[p]))
      && (t == [] || !IsSpace(t[0]))
  {
    ListSpanIsRegexMatch(line);
  }

  // ---------------------------------------------------------------------
  // The blocks of the page

  datatype Item = Item(html: string, indent: nat)

  datatype PageBlock =
    | ListBlock(kind: ListKind, items: seq<Item>)
    | TextBlock(align: Option<string>, html: string)

  /** What one line contributes: nothing (a blank line), a list item, or a text block. */
  datatype LineClass =
    | Blank
    | Listed(kind: ListKind, item: Item)
    | Plain(align: Option<string>, html: string)

  /** The text block of a line that is no list line, rendered as written
    * when `strict` is false and with the corrected capture when it is true. */
  function LineText(line: string, strict: bool): LineClass {
    match Entry.AlignMatch(Trim(line))
    case Some((a, body)) => Plain(Some(a), RenderInline(AnyFont, body, strict))
    case None => Plain(None, RenderInline(AnyFont, line, strict))
  }

  /** What the loop body makes of one line, tried in the order of the source. */
  function Classify(line: string, strict: bool): LineClass {
    if !Entry.NonBlank(line) then Blank
    else match ListMatch(line)
      case Some(l) => Listed(l.kind, Item(RenderInline(AnyFont, l.text, strict), l.indent))
      case None => LineText(line, strict)
  }

  /** The list being collected, if any. */
  datatype Run = Run(kind: ListKind, items: seq<Item>)

  /** The parser's state: the blocks so far and the open list. */
  datatype Parse = Parse(blocks: seq<PageBlock>, open: Option<Run>)

  const Start := Parse([], None)

  /** `flushList`: the open list, if any, becomes a block. */
  function Flush(p: Parse): (q: Parse)
    ensures q.open.None?
  {
    match p.open
    case None => p
    case Some(run) => Parse(p.blocks + [ListBlock(run.kind, run.items)], None)
  }

  /** One line's effect on the state. */
  function Step(p: Parse, c: LineClass): Parse {
    match c
    case Blank => Flush(p)
    case Listed(kind, item) =>
      var items := if p.open.Some? && p.open.value.kind == kind then p.open.value.items else [];
      var blocks := if p.open.Some? && p.open.value.kind == kind then p.blocks else Flush(p).blocks;
      Parse(blocks, Some(Run(kind, items + [item])))
    case Plain(align, html) => Parse(Flush(p).blocks + [TextBlock(align, html)], None)
  }

  /** The state after a sequence of lines. */
  function Steps(p: Parse, cs: seq<LineClass>): Parse
    decreases |cs|
  {
    if cs == [] then p else Step(Steps(p, cs[..|cs| - 1]), cs[|cs| - 1])
  }

  /** The blocks of a sequence of lines: the state after all of them, flushed. */
  function Assemble(cs: seq<LineClass>): seq<PageBlock> {
    Flush(Steps(Start, cs)).blocks
  }

  function Classes(lines: seq<string>, strict: bool): (cs: seq<LineClass>)
    ensures |cs| == |lines| && forall k | 0 <= k < |lines| :: cs[k] == Classify(lines[k], strict)
  {
    seq(|lines|, k requires 0 <= k < |lines| => Classify(lines[k], strict))
  }

  /** `parseContentBlocks(content)`. */
  function PageBlocks(content: string, strict: bool): seq<PageBlock> {
    Assemble(Classes(Split(content, '\n'), strict))
  }

  /** `flushList`, as the parser's closure runs it on its two variables. */
  method FlushList(blocks: seq<PageBlock>, listBlock: Option<Run>)
    returns (blocks': seq<PageBlock>, listBlock': Option<Run>)
    ensures Parse(blocks', listBlock') == Flush(Parse(blocks, listBlock))
  {
    blocks', listBlock' := blocks, listBlock;
    if listBlock'.Some? {
      blocks' := blocks' + [ListBlock(listBlock'.value.kind, listBlock'.value.items)];
      listBlock' := None;
    }
  }

  /** The body of the loop over the lines: one line's effect on the two variables. */
  method StepLine(blocks: seq<PageBlock>, listBlock: Option<Run>, c: LineClass)
    returns (blocks': seq<PageBlock>, listBlock': Option<Run>)
    ensures Parse(blocks', listBlock') == Step(Parse(blocks, listBlock), c)
  {
    blocks', listBlock' := blocks, listBlock;
    match c {
      case Blank =>
        blocks', listBlock' := FlushList(blocks', listBlock');
      case Listed(kind, item) =>
        if listBlock'.None? || listBlock'.value.kind != kind {
          blocks', listBlock' := FlushList(blocks', listBlock');
          listBlock' := Some(Run(kind, []));
        }
        listBlock' := Some(Run(kind, listBlock'.value.items + [item]));
      case Plain(align, html) =>
        blocks', listBlock' := FlushList(blocks', listBlock');
        blocks' := blocks' + [TextBlock(align, html)];
    }
  }

  /** One more line is one more step. */
  lemma StepsSnoc(p: Parse, cs: seq<LineClass>, k: nat)
    requires k < |cs|
    ensures Steps(p, cs[..k + 1]) == Step(Steps(p, cs[..k]), cs[k])
  {
    assert cs[..k + 1][..k] == cs[..k];
  }

  /** `parseContentBlocks`: one pass over the lines with the open list in a
    * variable, flushed by blank lines, by text lines, by a change of list
    * kind and at the end. */
  method ParseContentBlocks(content: string, strict: bool) returns (blocks: seq<PageBlock>)
    ensures blocks == PageBlocks(content, strict)
  {
    var lines := Split(content, '\n');
    ghost var cs := Classes(lines, strict);
    blocks := [];
    var listBlock: Option<Run> := None;
    for i := 0 to |lines|
      invariant Parse(blocks, listBlock) == Steps(Start, cs[..i])
    {
      var c := Classify(lines[i], strict);
      StepsSnoc(Start, cs, i);
      blocks, listBlock := StepLine(blocks, listBlock, c);
    }
    assert cs[..|lines|] == cs;
    blocks, listBlock := FlushList(blocks, listBlock);
  }

  // ---- What the parser keeps: every item and every text line, in order ----

  /** The list items of a sequence of lines, in order. */
  function ClassItems(cs: seq<LineClass>): seq<Item>
    decreases |cs|
  {
    if cs == [] then []
    else ClassItems(cs[..|cs| - 1]) + (if cs[|cs| - 1].Listed? then [cs[|cs| - 1].item] else [])
  }

  /** The items of the list blocks of a page, in order. */
  function BlockItems(bs: seq<PageBlock>): seq<Item>
    decreases |bs|
  {
    if bs == [] then []
    else BlockItems(bs[..|bs| - 1]) + (if bs[|bs| - 1].ListBlock? then bs[|bs| - 1].items else [])
  }

  /** The text lines of a sequence of lines, in order. */
  function ClassTexts(cs: seq<LineClass>): seq<PageBlock>
    decreases |cs|
  {
    if cs == [] then []
    else
      var c := cs[|cs| - 1];
      ClassTexts(cs[..|cs| - 1]) + (if c.Plain? then [TextBlock(c.align, c.html)] else [])
  }

  /** The text blocks of a page, in order. */
  function BlockTexts(bs: seq<PageBlock>): seq<PageBlock>
    decreases |bs|
  {
    if bs == [] then []
    else BlockTexts(bs[..|bs| - 1]) + (if bs[|bs| - 1].TextBlock? then [bs[|bs| - 1]] else [])
  }

  /** The items a state holds: those in its blocks, then those of the open list. */
  function StateItems(p: Parse): seq<Item> {
    BlockItems(p.blocks) + (if p.open.Some? then p.open.value.items else [])
  }

  lemma BlockItemsSnoc(bs: seq<PageBlock>, b: PageBlock)
    ensures BlockItems(bs + [b]) == BlockItems(bs) + (if b.ListBlock? then b.items else [])
  {
    assert (bs + [b])[..|bs|] == bs;
  }

  lemma BlockTextsSnoc(bs: seq<PageBlock>, b: PageBlock)
    ensures BlockTexts(bs + [b]) == BlockTexts(bs) + (if b.TextBlock? then [b] else [])
  {
    assert (bs + [b])[..|bs|] == bs;
  }

  lemma FlushItems(p: Parse)
    ensures StateItems(Flush(p)) == StateItems(p)
    ensures BlockTexts(Flush(p).blocks) == BlockTexts(p.blocks)
  {
    if p.open.Some? {
      BlockItemsSnoc(p.blocks, ListBlock(p.open.value.kind, p.open.value.items));
      BlockTextsSnoc(p.blocks, ListBlock(p.open.value.kind, p.open.value.items));
    }
  }

  /** A step adds the line's item, if any, after every item so far, and
    * its text block, if any, after every text block so far. */
  lemma StepItems(p: Parse, c: LineClass)
    ensures StateItems(Step(p, c)) == StateItems(p) + (if c.Listed? then [c.item] else [])
    ensures BlockTexts(Step(p, c).blocks) == BlockTexts(p.blocks) + (if c.Plain? then [TextBlock(c.align, c.html)] else [])
  {
    FlushItems(p);
    var q := Step(p, c);
    match c
    case Blank =>
    case Listed(kind, item) =>
      if p.open.Some? && p.open.value.kind == kind {
        assert q == Parse(p.blocks, Some(Run(kind, p.open.value.items + [item])));
      } else {
        assert q == Parse(Flush(p).blocks, Some(Run(kind, [] + [item])));
        assert StateItems(Flush(p)) == BlockItems(Flush(p).blocks);
      }
    case Plain(align, html) =>
      var b := TextBlock(align, html);
      assert q == Parse(Flush(p).blocks + [b], None);
      BlockItemsSnoc(Flush(p).blocks, b);
      BlockTextsSnoc(Flush(p).blocks, b);
  }

  lemma {:induction false} StepsItems(cs: seq<LineClass>)
    ensures StateItems(Steps(Start, cs)) == ClassItems(cs)
    ensures BlockTexts(Steps(Start, cs).blocks) == ClassTexts(cs)
    decreases |cs|
  {
    if cs != [] {
      StepsItems(cs[..|cs| - 1]);
      StepItems(Steps(Start, cs[..|cs| - 1]), cs[|cs| - 1]);
    }
  }

  /** The page holds every list item of the content and every text line, each
    * in the order of the lines: no line is lost, duplicated or reordered. */
  lemma AssembleKeepsLines(cs: seq<LineClass>)
    ensures BlockItems(Assemble(cs)) == ClassItems(cs)
    ensures BlockTexts(Assemble(cs)) == ClassTexts(cs)
  {
    StepsItems(cs);
    FlushItems(Steps(Start, cs));
  }

  // ---- The shape of the blocks ----

  /** No list block is empty. */
  predicate WellFormed(bs: seq<PageBlock>) {
    forall k | 0 <= k < |bs| :: bs[k].ListBlock? ==> bs[k].items != []
  }

  predicate ParseWellFormed(p: Parse) {
    WellFormed(p.blocks) && (p.open.Some? ==> p.open.value.items != [])
  }

  lemma {:induction false} StepsWellFormed(cs: seq<LineClass>)
    ensures ParseWellFormed(Steps(Start, cs))
    decreases |cs|
  {
    if cs != [] {
      StepsWellFormed(cs[..|cs| - 1]);
    }
  }

  /** Every list block of a page holds at least one item. */
  lemma AssembleWellFormed(cs: seq<LineClass>)
    ensures WellFormed(Assemble(cs))
  {
    StepsWellFormed(cs);
  }

  /** Consecutive list lines of one kind. */
  function ListedRun(kind: ListKind, items: seq<Item>): (cs: seq<LineClass>)
    ensures |cs| == |items| && forall k | 0 <= k < |items| :: cs[k] == Listed(kind, items[k])
  {
    seq(|items|, k requires 0 <= k < |items| => Listed(kind, items[k]))
  }

  lemma {:induction false} StepsRun(kind: ListKind, items: seq<Item>)
    requires items != []
    ensures Steps(Start, ListedRun(kind, items)) == Parse([], Some(Run(kind, items)))
    decreases |items|
  {
    var cs := ListedRun(kind, items);
    var n := |items| - 1;
    assert cs[..n] == ListedRun(kind, items[..n]);
    if n > 0 {
      StepsRun(kind, items[..n]);
    }
    assert items[..n] + [items[n]] == items;
  }

  /** Consecutive list lines of one kind make one list block. */
  lemma RunIsOneList(kind: ListKind, items: seq<Item>)
    requires items != []
    ensures Assemble(ListedRun(kind, items)) == [ListBlock(kind, items)]
  {
    StepsRun(kind, items);
  }

  // ---- Blank and text lines end a list ----

  /** The blocks already made take no part in later steps. */
  lemma StepShift(bs: seq<PageBlock>, p: Parse, c: LineClass)
    ensures Step(Parse(bs + p.blocks, p.open), c) == Parse(bs + Step(p, c).blocks, Step(p, c).open)
  {
    match c
    case Blank =>
    case Listed(_, _) =>
    case Plain(align, html) =>
      assert (bs + Flush(p).blocks) + [TextBlock(align, html)] == bs + (Flush(p).blocks + [TextBlock(align, html)]);
  }

  lemma {:induction false} StepsShift(bs: seq<PageBlock>, p: Parse, cs: seq<LineClass>)
    ensures Steps(Parse(bs + p.blocks, p.open), cs) == Parse(bs + Steps(p, cs).blocks, Steps(p, cs).open)
    decreases |cs|
  {
    if cs != [] {
      StepsShift(bs, p, cs[..|cs| - 1]);
      StepShift(bs, Steps(p, cs[..|cs| - 1]), cs[|cs| - 1]);
    }
  }

  lemma {:induction false} StepsAppend(p: Parse, a: seq<LineClass>, b: seq<LineClass>)
    ensures Steps(p, a + b) == Steps(Steps(p, a), b)
    decreases |b|
  {
    if b == [] {
      assert a + b == a;
    } else {
      assert (a + b)[..|a + b| - 1] == a + b[..|b| - 1];
      StepsAppend(p, a, b[..|b| - 1]);
    }
  }

  /** The state after a line that ends a list: the blocks so far, no open list. */
  lemma AfterBreak(a: seq<LineClass>, c: LineClass)
    requires c.Blank? || c.Plain?
    ensures Steps(Start, a + [c]) == Parse(Assemble(a + [c]), None)
  {
    assert (a + [c])[..|a|] == a;
  }

  /** The lines after a break are laid out as if they stood alone. */
  lemma AfterState(B: seq<PageBlock>, b: seq<LineClass>)
    ensures Flush(Steps(Parse(B, None), b)).blocks == B + Assemble(b)
  {
    var q := Steps(Start, b);
    StepsShift(B, Start, b);
    assert B + [] == B;
    if q.open.Some? {
      assert (B + q.blocks) + [ListBlock(q.open.value.kind, q.open.value.items)]
        == B + (q.blocks + [ListBlock(q.open.value.kind, q.open.value.items)]);
    }
  }

  /** A blank line ends the open list: what comes before and after it are laid
    * out independently. */
  lemma BlankSeparates(a: seq<LineClass>, b: seq<LineClass>)
    ensures Assemble(a + [Blank] + b) == Assemble(a) + Assemble(b)
  {
    StepsAppend(Start, a + [Blank], b);
    AfterBreak(a, Blank);
    assert (a + [Blank])[..|a|] == a;
    AfterState(Assemble(a + [Blank]), b);
  }

  /** A text line ends the open list and stands as its own block between what
    * comes before and after it. */
  lemma TextSeparates(a: seq<LineClass>, align: Option<string>, html: string, b: seq<LineClass>)
    ensures Assemble(a + [Plain(align, html)] + b) == Assemble(a) + [TextBlock(align, html)] + Assemble(b)
  {
    var c := Plain(align, html);
    StepsAppend(Start, a + [c], b);
    AfterBreak(a, c);
    assert (a + [c])[..|a|] == a;
    AfterState(Assemble(a + [c]), b);
  }

  /** A list line of the other kind closes the open list and starts a new one. */
  lemma KindChangeSeparates(kind: ListKind, items: seq<Item>, other: ListKind, item: Item)
    requires items != [] && other != kind
    ensures Assemble(ListedRun(kind, items) + [Listed(other, item)])
      == [ListBlock(kind, items), ListBlock(other, [item])]
  {
    var a := ListedRun(kind, items);
    StepsRun(kind, items);
    assert (a + [Listed(other, item)])[..|a|] == a;
    assert [] + [item] == [item];
    assert Steps(Start, a + [Listed(other, item)])
      == Parse([ListBlock(kind, items)], Some(Run(other, [item])));
  }

  // ---- The page is markup-safe ----

  predicate ClassSanitized(c: LineClass) {
    match c
    case Blank => true
    case Listed(_, item) => Sanitized(item.html)
    case Plain(_, html) => Sanitized(html)
  }

  predicate BlockSanitized(b: PageBlock) {
    match b
    case ListBlock(_, items) => forall k | 0 <= k < |items| :: Sanitized(items[k].html)
    case TextBlock(_, html) => Sanitized(html)
  }

  predicate ParseSanitized(p: Parse) {
    (forall k | 0 <= k < |p.blocks| :: BlockSanitized(p.blocks[k]))
    && (p.open.Some? ==> forall k | 0 <= k < |p.open.value.items| :: Sanitized(p.open.value.items[k].html))
  }

  lemma {:induction false} StepsSanitized(cs: seq<LineClass>)
    requires forall k | 0 <= k < |cs| :: ClassSanitized(cs[k])
    ensures ParseSanitized(Steps(Start, cs))
    decreases |cs|
  {
    if cs != [] {
      StepsSanitized(cs[..|cs| - 1]);
    }
  }

  lemma ClassifySanitized(line: string)
    ensures ClassSanitized(Classify(line, true))
  {
    if Entry.NonBlank(line) {
      match ListMatch(line)
      case Some(l) => RenderInlineSanitized(AnyFont, l.text);
      case None =>
        match Entry.AlignMatch(Trim(line))
        case Some((a, body)) => RenderInlineSanitized(AnyFont, body);
        case None => RenderInlineSanitized(AnyFont, line);
    }
  }

  /** Every block of a rendered post, list items included, holds only the
    * renderer's own markup around escaped text. */
  lemma PageBlocksSanitized(content: string)
    ensures forall b | b in PageBlocks(content, true) :: BlockSanitized(b)
  {
    var lines := Split(content, '\n');
    var cs := Classes(lines, true);
    forall k | 0 <= k < |cs|
      ensures ClassSanitized(cs[k])
    {
      ClassifySanitized(lines[k]);
    }
    StepsSanitized(cs);
  }
}
