/**
 * The line-to-block mapping of an entry's body: the content is split on
 * `\n`, blank lines are dropped, and each remaining line becomes one block.
 * The trimmed line is tried against `[image: …]`, `[video: …]`, `[embed: …]`
 * and `[align=…]…[/align]`, in that order; any other line is a text block
 * rendering the line as it is, with the font whitelist on.
 */
module Entry {
  import opened Wrappers
  import opened Text
  import opened InlineMarkup

  datatype Block =
    | Image(src: string, caption: string)
    | Video(src: string)
    | Embed(src: string)
    | Paragraph(align: Option<string>, html: string)

  // ---------------------------------------------------------------------
  // `\s*(.+?)\s*` matched against the whole of a string

  /** The string splits into white space, a non-empty stretch without line
    * terminators (what `.` matches), and white space: one way the pattern
    * `\s*(.+?)\s*` can cover it, the capture being `m[i..j]`. */
  predicate Splits(m: string, i: int, j: int) {
    && 0 <= i < j <= |m|
    && (forall p | 0 <= p < i :: IsSpace(m[p]))
    && (forall p | i <= p < j :: !IsLineTerminator(m[p]))
    && (forall p | j <= p < |m| :: IsSpace(m[p]))
  }

  /** The offset of the last character of `m` that is not a line terminator. */
  function LastPlain(m: string): (r: Option<nat>)
    ensures r.Some? ==> r.value < |m| && !IsLineTerminator(m[r.value])
    ensures r.Some? ==> forall k | r.value < k < |m| :: IsLineTerminator(m[k])
    ensures r.None? ==> forall k | 0 <= k < |m| :: IsLineTerminator(m[k])
    decreases |m|
  {
    if m == [] then None
    else if !IsLineTerminator(m[|m| - 1]) then Some(|m| - 1)
    else LastPlain(m[..|m| - 1])
  }

  /** The span the regular-expression engine captures: the leading `\s*`
    * takes as much as it can and the lazy `(.+?)` as little. When `m` has
    * a non-space character the capture is the trimmed string; when `m` is
    * all white space, it is its last character that `.` accepts. */
  function CaptureSpan(m: string): (r: Option<(nat, nat)>)
    ensures r.Some? ==> r.value.0 < r.value.1 <= |m|
  {
    var lead := |m| - |TrimStart(m)|;
    var u := Trim(m);
    if u != [] then
      if NoLineTerminator(u) then Some((lead, lead + |u|)) else None
    else
      match LastPlain(m)
      case None => None
      case Some(k) => Some((k, k + 1))
  }

  /** The text `(.+?)` captures, if the pattern matches. */
  function Capture(m: string): Option<string> {
    match CaptureSpan(m)
    case None => None
    case Some(span) => Some(m[span.0..span.1])
  }

  /** `m[a..b]` starts and ends with a non-space character and has only
    * white space around it. */
  predicate Framed(m: string, a: int, b: int) {
    && 0 <= a < b <= |m|
    && (forall p | 0 <= p < a :: IsSpace(m[p]))
    && (forall p | b <= p < |m| :: IsSpace(m[p]))
    && !IsSpace(m[a]) && !IsSpace(m[b - 1])
  }

  /** A framed stretch is the capture when `.` accepts all of it, and rules
    * out every split otherwise. */
  lemma FramedSplit(m: string, a: int, b: int)
    requires Framed(m, a, b)
    ensures (forall p | a <= p < b :: !IsLineTerminator(m[p])) ==>
      Splits(m, a, b)
      && (forall i2, j2 | a < i2 :: !Splits(m, i2, j2))
      && (forall j2 | j2 < b :: !Splits(m, a, j2))
    ensures (exists p | a <= p < b :: IsLineTerminator(m[p])) ==> forall i, j :: !Splits(m, i, j)
  {
    if exists p | a <= p < b :: IsLineTerminator(m[p]) {
      var q :| a <= q < b && IsLineTerminator(m[q]);
    }
  }

  /** The trimmed string is framed inside `m`. */
  lemma TrimFramed(m: string)
    requires Trim(m) != []
    ensures var lead, u := |m| - |TrimStart(m)|, Trim(m);
      && Framed(m, lead, lead + |u|)
      && (NoLineTerminator(u) <==> forall p | lead <= p < lead + |u| :: !IsLineTerminator(m[p]))
  {
    var lead, u := |m| - |TrimStart(m)|, Trim(m);
    assert lead + |u| <= |m| && u == m[lead..lead + |u|] by { TrimSpan(m); }
    assert AllSpace(m[..lead]) && AllSpace(m[lead + |u|..]) by { TrimSurround(m); }
    FramedStretch(m, lead, u);
  }

  /** A stretch `u` of `m` with a non-space character at each end and only
    * white space around it is framed. */
  lemma FramedStretch(m: string, lead: nat, u: string)
    requires lead + |u| <= |m| && u == m[lead..lead + |u|]
    requires AllSpace(m[..lead]) && AllSpace(m[lead + |u|..])
    requires u != [] && !IsSpace(u[0]) && !IsSpace(u[|u| - 1])
    ensures Framed(m, lead, lead + |u|)
    ensures NoLineTerminator(u) <==> forall p | lead <= p < lead + |u| :: !IsLineTerminator(m[p])
  {
    SpanAgree(m, lead, u);
    PrefixSpace(m, lead);
    SuffixSpace(m, lead + |u|);
  }

  lemma SpanAgree(m: string, a: nat, u: string)
    requires a + |u| <= |m| && u == m[a..a + |u|]
    ensures forall p | a <= p < a + |u| :: m[p] == u[p - a]
  {
  }

  lemma PrefixSpace(m: string, a: nat)
    requires a <= |m| && AllSpace(m[..a])
    ensures forall p | 0 <= p < a :: IsSpace(m[p])
  {
    forall p | 0 <= p < a ensures IsSpace(m[p]) { assert m[..a][p] == m[p]; }
  }

  lemma SuffixSpace(m: string, b: nat)
    requires b <= |m| && AllSpace(m[b..])
    ensures forall p | b <= p < |m| :: IsSpace(m[p])
  {
    forall p | b <= p < |m| ensures IsSpace(m[p]) { assert m[b..][p - b] == m[p]; }
  }

  /** An all-space `m` splits at its last character that `.` accepts, if it has one. */
  lemma BlankSplit(m: string)
    requires AllSpace(m)
    ensures LastPlain(m).None? ==> forall i, j :: !Splits(m, i, j)
    ensures LastPlain(m).Some? ==> var k := LastPlain(m).value;
      Splits(m, k, k + 1) && forall i2, j2 | k < i2 :: !Splits(m, i2, j2)
  {
    forall i, j | Splits(m, i, j) ensures !IsLineTerminator(m[i]) {
      SplitStart(m, i, j);
    }
  }

  /** What a split captures begins with a character `.` accepts. */
  lemma SplitStart(m: string, i: int, j: int)
    requires Splits(m, i, j)
    ensures !IsLineTerminator(m[i])
  {
  }

  /** `CaptureSpan` agrees with the pattern: it finds a split exactly when
    * one exists, and the one it finds starts as late as any split can and,
    * from there, ends as early as any can. */
  lemma CaptureSpanIsRegexMatch(m: string)
    ensures CaptureSpan(m).None? <==> forall i, j :: !Splits(m, i, j)
    ensures CaptureSpan(m).Some? ==>
      var i, j := CaptureSpan(m).value.0, CaptureSpan(m).value.1;
      Splits(m, i, j)
      && (forall i2, j2 | i < i2 :: !Splits(m, i2, j2))
      && (forall j2 | j2 < j :: !Splits(m, i, j2))
  {
    if Trim(m) != [] {
      TrimFramed(m);
      FramedSplit(m, |m| - |TrimStart(m)|, |m| - |TrimStart(m)| + |Trim(m)|);
    } else {
      TrimEmpty(m);
      BlankSplit(m);
    }
  }

  // ---------------------------------------------------------------------
  // The directives of a trimmed line

  const ImageTag := "[image:"
  const VideoTag := "[video:"
  const EmbedTag := "[embed:"

  /** `t.match(/^\[name\s*(.+?)\s*\]$/i)`: the capture between the directive
    * name (matched ignoring ASCII case) and the final `]`. */
  function DirectivePayload(t: string, name: string): (r: Option<string>)
    ensures r.Some? ==> StartsWithCI(t, name) && |name| < |t| && t[|t| - 1] == ']'
    ensures r.Some? ==> Capture(t[|name|..|t| - 1]) == r
  {
    if |name| < |t| && StartsWithCI(t, name) && t[|t| - 1] == ']' then
      Capture(t[|name|..|t| - 1])
    else None
  }

  /** The image block of a payload: the parts around `|`, trimmed; a missing
    * caption is empty. */
  function ImageFields(payload: string): Block {
    var parts := Split(payload, '|');
    Image(Trim(parts[0]), if |parts| >= 2 then Trim(parts[1]) else "")
  }

  const AlignOpen := "[align="
  const AlignClose := "[/align]"

  /** The alignment word `t` carries right after `[align=`, if any, tried
    * in the order of the alternation `left|center|right`. */
  function AlignWord(t: string): (r: Option<string>)
    ensures r.Some? ==> r.value in {"left", "center", "right"} && LowerWord(r.value)
    ensures r.Some? ==> StartsWithCI(t, AlignOpen) && StartsWithCI(t[|AlignOpen|..], r.value)
  {
    if !StartsWithCI(t, AlignOpen) then None
    else
    var rest := t[|AlignOpen|..];
    if StartsWithCI(rest, "left") then Some("left")
    else if StartsWithCI(rest, "center") then Some("center")
    else if StartsWithCI(rest, "right") then Some("right")
    else None
  }

  /** A word of lower-case ASCII letters. */
  predicate LowerWord(p: string) {
    forall i | 0 <= i < |p| :: 'a' <= p[i] <= 'z'
  }

  /** What a lower-case word matches ignoring case lower-cases back to the word. */
  lemma LowerMatched(s: string, p: string)
    requires StartsWithCI(s, p) && LowerWord(p)
    ensures Lower(s[..|p|]) == p
  {
    var l := Lower(s[..|p|]);
    forall i | 0 <= i < |p| ensures l[i] == p[i] {
      assert s[..|p|][i] == s[i];
    }
  }

  /** `t.match(/^\[align=(left|center|right)\](.*)\[\/align\]$/i)`: the
    * lower-cased alignment and the text between the tags. */
  function AlignMatch(t: string): (r: Option<(string, string)>)
    ensures r.Some? ==> r.value.0 in {"left", "center", "right"} && NoLineTerminator(r.value.1)
  {
    match AlignWord(t)
    case None => None
    case Some(w) =>
      var k := |AlignOpen| + |w|;
      if k + 1 + |AlignClose| <= |t| && t[k] == ']'
         && StartsWithCI(t[|t| - |AlignClose|..], AlignClose)
         && NoLineTerminator(t[k + 1..|t| - |AlignClose|])
      then
        var a := Lower(t[|AlignOpen|..k]);
        LowerMatched(t[|AlignOpen|..], w);
        assert t[|AlignOpen|..][..|w|] == t[|AlignOpen|..k];
        Some((a, t[k + 1..|t| - |AlignClose|]))
      else None
  }

  /** The block a non-blank line becomes. */
  function LineBlock(line: string, strict: bool): Block {
    var t := Trim(line);
    match DirectivePayload(t, ImageTag)
    case Some(p) => ImageFields(p)
    case None =>
      match DirectivePayload(t, VideoTag)
      case Some(p) => Video(p)
      case None =>
        match DirectivePayload(t, EmbedTag)
        case Some(p) => Embed(p)
        case None => TextBlock(t, line, strict)
  }

  /** The text block of a line whose trimmed form `t` is no media directive:
    * an aligned body, or the whole line as it is, through `renderInline`
    * (as written when `strict` is false, corrected when it is true). */
  function TextBlock(t: string, line: string, strict: bool): Block {
    match AlignMatch(t)
    case Some((a, body)) => Paragraph(Some(a), RenderInline(WhitelistedFonts, body, strict))
    case None => Paragraph(None, RenderInline(WhitelistedFonts, line, strict))
  }

  /** A line that holds something besides white space: what `line.trim()`
    * being non-empty means (see `NonBlankIsTrimmed`). */
  predicate NonBlank(line: string) {
    !AllSpace(line)
  }

  /** The lines that are not blank, each mapped through `f`, in order. */
  function MapNonBlank(lines: seq<string>, f: string -> Block): seq<Block>
    decreases |lines|
  {
    if lines == [] then []
    else (if NonBlank(lines[0]) then [f(lines[0])] else []) + MapNonBlank(lines[1..], f)
  }

  /** The block of each line, as a function to map over the lines. */
  function BlockOf(strict: bool): (f: string -> Block)
    ensures forall line :: f(line) == LineBlock(line, strict)
  {
    line => LineBlock(line, strict)
  }

  /** The blocks of an entry's content (`post.content || ''`). */
  function EntryBlocks(content: string, strict: bool): seq<Block> {
    MapNonBlank(Split(content, '\n'), BlockOf(strict))
  }

  // ---------------------------------------------------------------------
  // Properties of the line-to-block mapping

  /** A line is kept exactly when trimming leaves something. */
  lemma NonBlankIsTrimmed(line: string)
    ensures NonBlank(line) <==> Trim(line) != []
  {
    if Trim(line) == [] {
      TrimEmpty(line);
    } else {
      TrimFramed(line);
    }
  }

  /** The blocks of two runs of lines are the blocks of each, in order. */
  lemma {:induction false} MapNonBlankAppend(a: seq<string>, b: seq<string>, f: string -> Block)
    ensures MapNonBlank(a + b, f) == MapNonBlank(a, f) + MapNonBlank(b, f)
    decreases |a|
  {
    if a != [] {
      assert (a + b)[1..] == a[1..] + b;
      MapNonBlankAppend(a[1..], b, f);
    } else {
      assert a + b == b;
    }
  }

  /** Every block comes from a non-blank line. */
  lemma {:induction false} MapNonBlankFrom(lines: seq<string>, f: string -> Block, b: Block)
    requires b in MapNonBlank(lines, f)
    ensures exists line | line in lines :: NonBlank(line) && b == f(line)
    decreases |lines|
  {
    if b !in MapNonBlank(lines[1..], f) {
      assert NonBlank(lines[0]) && b == f(lines[0]);
    } else {
      MapNonBlankFrom(lines[1..], f, b);
      var line :| line in lines[1..] && NonBlank(line) && b == f(line);
      assert line in lines;
    }
  }

  /** One line gives one block if it is not blank and none if it is. */
  lemma MapNonBlankSingle(line: string, f: string -> Block)
    ensures MapNonBlank([line], f) == if NonBlank(line) then [f(line)] else []
  {
    assert [line][1..] == [];
  }

  /** The first line of the content gives one block if it is not blank and
    * none if it is, followed by the blocks of the lines after it. */
  lemma EntryBlocksLine(line: string, rest: string, strict: bool)
    requires Excludes(line, '\n')
    ensures EntryBlocks(line + "\n" + rest, strict)
      == (if NonBlank(line) then [LineBlock(line, strict)] else []) + EntryBlocks(rest, strict)
  {
    SplitAt(line, '\n', rest);
    MapNonBlankAppend([line], Split(rest, '\n'), BlockOf(strict));
    MapNonBlankSingle(line, BlockOf(strict));
  }

  /** The blocks of two stretches of content joined by a line break are the
    * blocks of each, in order. */
  lemma EntryBlocksConcat(a: string, b: string, strict: bool)
    ensures EntryBlocks(a + "\n" + b, strict) == EntryBlocks(a, strict) + EntryBlocks(b, strict)
  {
    SplitConcat(a, '\n', b);
    MapNonBlankAppend(Split(a, '\n'), Split(b, '\n'), BlockOf(strict));
  }

  /** Content of a single line gives one block exactly when the line is not blank. */
  lemma EntryBlocksSingle(line: string, strict: bool)
    requires Excludes(line, '\n')
    ensures EntryBlocks(line, strict) == if NonBlank(line) then [LineBlock(line, strict)] else []
  {
    SplitNoSep(line, '\n');
    MapNonBlankSingle(line, BlockOf(strict));
  }

  /** Every text block's markup is sanitized: user text cannot open a tag or
    * leave a style attribute. */
  lemma LineBlockSanitized(line: string)
    ensures LineBlock(line, true).Paragraph? ==> Sanitized(LineBlock(line, true).html)
  {
    var t := Trim(line);
    if LineBlock(line, true).Paragraph? {
      LineBlockText(line, true);
      TextBlockSanitized(t, line);
    }
  }

  /** Only the text step makes text blocks. */
  lemma LineBlockText(line: string, strict: bool)
    requires LineBlock(line, strict).Paragraph?
    ensures LineBlock(line, strict) == TextBlock(Trim(line), line, strict)
  {
  }

  lemma TextBlockSanitized(t: string, line: string)
    ensures Sanitized(TextBlock(t, line, true).html)
  {
    RenderInlineSanitized(WhitelistedFonts, line);
    match AlignMatch(t)
    case Some((a, body)) => RenderInlineSanitized(WhitelistedFonts, body);
    case None =>
  }

  /** The sanitization guarantee, for every block of an entry. */
  lemma EntryBlocksSanitized(content: string)
    ensures forall b | b in EntryBlocks(content, true) :: b.Paragraph? ==> Sanitized(b.html)
  {
    forall b | b in EntryBlocks(content, true) ensures b.Paragraph? ==> Sanitized(b.html) {
      MapNonBlankFrom(Split(content, '\n'), BlockOf(true), b);
      var line :| line in Split(content, '\n') && NonBlank(line) && b == LineBlock(line, true);
      LineBlockSanitized(line);
    }
  }

  /** The nested-value case of `renderInline` reaches an entry as a text
    * block. As written, the block's HTML is a style attribute holding the
    * inserted mark tag, which is not sanitised; with the corrected capture
    * the same line renders sanitised. */
  lemma NestedLineBlock(v: string)
    requires PlainValue(v) && v != []
    ensures LineBlock(NestedInput(v), false) == Paragraph(None, Styled("color:" + MarkTag(v)))
    ensures !Sanitized(Styled("color:" + MarkTag(v)))
    ensures LineBlock(NestedInput(v), true) == Paragraph(None, RenderInline(WhitelistedFonts, NestedInput(v), true))
    ensures Sanitized(RenderInline(WhitelistedFonts, NestedInput(v), true))
  {
    NestedInputEnds(v);
    UntaggedLine(NestedInput(v), false);
    UntaggedLine(NestedInput(v), true);
    NestedValueCapture(WhitelistedFonts, v);
    RenderInlineSanitized(WhitelistedFonts, NestedInput(v));
  }

  lemma NestedInputEnds(v: string)
    ensures var line := NestedInput(v);
      2 <= |line| && line[1] == 'c' && !IsSpace(line[0]) && !IsSpace(line[|line| - 1])
  {
    var line := NestedInput(v);
    assert line[0] == '[' && line[1] == 'c' && line[|line| - 1] == ']';
  }

  /** A line with no space at either end whose second character is `c` is an
    * unaligned text block: no directive and no alignment opens with `[c`. */
  lemma UntaggedLine(line: string, strict: bool)
    requires 2 <= |line| && line[1] == 'c' && !IsSpace(line[0]) && !IsSpace(line[|line| - 1])
    ensures LineBlock(line, strict) == Paragraph(None, RenderInline(WhitelistedFonts, line, strict))
  {
    NoTagAtC(line);
    LineBlockUnaligned(line, strict);
  }

  /** A line whose trimmed form is no directive and no alignment is a text
    * block of the whole line. */
  lemma LineBlockUnaligned(line: string, strict: bool)
    requires DirectivePayload(Trim(line), ImageTag).None? && DirectivePayload(Trim(line), VideoTag).None?
    requires DirectivePayload(Trim(line), EmbedTag).None? && AlignMatch(Trim(line)).None?
    ensures LineBlock(line, strict) == Paragraph(None, RenderInline(WhitelistedFonts, line, strict))
  {
  }

  lemma NoTagAtC(line: string)
    requires 2 <= |line| && line[1] == 'c' && !IsSpace(line[0]) && !IsSpace(line[|line| - 1])
    ensures Trim(line) == line
    ensures DirectivePayload(line, ImageTag).None? && DirectivePayload(line, VideoTag).None?
    ensures DirectivePayload(line, EmbedTag).None? && AlignMatch(line).None?
  {
    assert Trim(line) == line by { TrimNoop(line); }
    assert DirectivePayload(line, ImageTag).None? by { NoDirectiveAt1(line, ImageTag); }
    assert DirectivePayload(line, VideoTag).None? by { NoDirectiveAt1(line, VideoTag); }
    assert DirectivePayload(line, EmbedTag).None? by { NoDirectiveAt1(line, EmbedTag); }
    assert AlignMatch(line).None? by {
      NotPrefixAt1(line, AlignOpen);
      assert AlignWord(line).None?;
    }
  }

  lemma NoDirectiveAt1(line: string, name: string)
    requires 2 <= |line| && 2 <= |name| && !CharEqCI(line[1], name[1])
    ensures DirectivePayload(line, name).None?
  {
    NotPrefixAt1(line, name);
  }

  lemma NotPrefixAt1(line: string, p: string)
    requires 2 <= |line| && 2 <= |p| && !CharEqCI(line[1], p[1])
    ensures !StartsWithCI(line, p)
  {
  }
  /** An image payload without `|` is all source and no caption. */
  lemma ImageFieldsSourceOnly(src: string)
    requires Excludes(src, '|')
    ensures ImageFields(src) == Image(Trim(src), "")
  {
    SplitNoSep(src, '|');
  }

  /** The caption is the second part. */
  lemma ImageFieldsCaption(src: string, caption: string)
    requires Excludes(src, '|') && Excludes(caption, '|')
    ensures ImageFields(src + "|" + caption) == Image(Trim(src), Trim(caption))
  {
    SplitAt(src, '|', caption);
    SplitNoSep(caption, '|');
    ImageParts(src + "|" + caption, [src, caption]);
  }

  /** Parts after the second are dropped. */
  lemma ImageFieldsExtra(src: string, caption: string, rest: string)
    requires Excludes(src, '|') && Excludes(caption, '|')
    ensures ImageFields(src + "|" + (caption + "|" + rest)) == Image(Trim(src), Trim(caption))
  {
    var tail := caption + "|" + rest;
    SplitAt(src, '|', tail);
    SplitAt(caption, '|', rest);
    ImageParts(src + "|" + tail, [src] + ([caption] + Split(rest, '|')));
  }

  /** `ImageFields` reads its two fields off the parts of the payload. */
  lemma ImageParts(payload: string, parts: seq<string>)
    requires Split(payload, '|') == parts && |parts| >= 2
    ensures ImageFields(payload) == Image(Trim(parts[0]), Trim(parts[1]))
  {
  }

  /** A string starts with itself, whatever follows, ignoring case or not. */
  lemma StartsWithCISelf(p: string, s: string)
    ensures StartsWithCI(p + s, p)
  {
    assert forall i | 0 <= i < |p| :: (p + s)[i] == p[i];
  }

  /** A trimmed stretch without line terminators, padded with white space,
    * is what `\s*(.+?)\s*` captures. */
  lemma CapturePadded(w1: string, x: string, w2: string)
    requires AllSpace(w1) && AllSpace(w2) && NoLineTerminator(x)
    requires x != [] && !IsSpace(x[0]) && !IsSpace(x[|x| - 1])
    ensures Capture(w1 + x + w2) == Some(x)
  {
    TrimPadded(w1, x, w2);
    var m := w1 + x + w2;
    assert m[|w1|..|w1| + |x|] == x;
  }

  /** A directive line hands what lies between its name and the final `]` to
    * the capture. */
  lemma DirectiveLine(name: string, m: string)
    ensures DirectivePayload(name + m + "]", name) == Capture(m)
  {
    var t := name + m + "]";
    StartsWithCISelf(name, m + "]");
    assert t == name + (m + "]");
    assert t[|name|..|t| - 1] == m;
  }

  /** The first directive that matches decides the block. */
  lemma LineBlockImage(line: string, p: string, strict: bool)
    requires DirectivePayload(Trim(line), ImageTag) == Some(p)
    ensures LineBlock(line, strict) == ImageFields(p)
  {
  }

  lemma LineBlockVideo(line: string, p: string, strict: bool)
    requires DirectivePayload(Trim(line), ImageTag).None?
    requires DirectivePayload(Trim(line), VideoTag) == Some(p)
    ensures LineBlock(line, strict) == Video(p)
  {
  }

  lemma LineBlockEmbed(line: string, p: string, strict: bool)
    requires DirectivePayload(Trim(line), ImageTag).None?
    requires DirectivePayload(Trim(line), VideoTag).None?
    requires DirectivePayload(Trim(line), EmbedTag) == Some(p)
    ensures LineBlock(line, strict) == Embed(p)
  {
  }

  /** A trimmed line that does not open with `[` is a plain text block of the
    * untrimmed line. */
  lemma PlainLine(line: string, strict: bool)
    requires Trim(line) == [] || Trim(line)[0] != '['
    ensures LineBlock(line, strict) == Paragraph(None, RenderInline(WhitelistedFonts, line, strict))
  {
    var t := Trim(line);
    assert !StartsWithCI(t, ImageTag) && !StartsWithCI(t, VideoTag);
    assert !StartsWithCI(t, EmbedTag) && !StartsWithCI(t, AlignOpen);
    assert LineBlock(line, strict) == TextBlock(t, line, strict);
  }

  /** `[align=W]BODY[/align]` for each of the three words gives the word and the body. */
  lemma AlignMatchRoundTrip(w: string, body: string)
    requires w in {"left", "center", "right"} && NoLineTerminator(body)
    ensures AlignMatch(AlignOpen + w + "]" + body + AlignClose) == Some((w, body))
  {
    var tail := "]" + (body + AlignClose);
    assert AlignOpen + w + "]" + body + AlignClose == AlignOpen + (w + tail);
    AlignWordOf(w, tail);
    AlignMatchParts(AlignOpen + (w + tail), w, body);
  }

  /** The word right after `[align=` is found. */
  lemma AlignWordOf(w: string, s: string)
    requires w in {"left", "center", "right"}
    ensures AlignWord(AlignOpen + (w + s)) == Some(w)
  {
    var t := AlignOpen + (w + s);
    StartsWithCISelf(AlignOpen, w + s);
    assert t[|AlignOpen|..] == w + s;
    StartsWithCISelf(w, s);
    if w == "center" {
      assert (w + s)[0] == 'c';
    } else if w == "right" {
      assert (w + s)[0] == 'r';
    }
  }

  /** Once the word is found, the closing `]`, the body and `[/align]` complete
    * the match. */
  lemma AlignMatchParts(t: string, w: string, body: string)
    requires AlignWord(t) == Some(w) && NoLineTerminator(body)
    requires t == AlignOpen + (w + ("]" + (body + AlignClose)))
    ensures AlignMatch(t) == Some((w, body))
  {
    var k := |AlignOpen| + |w|;
    AlignTail(t, k, body);
    LowerMatched(t[|AlignOpen|..], w);
    AlignWordSlice(t, w);
  }

  lemma AlignTail(t: string, k: nat, body: string)
    requires k <= |t| && t[k..] == "]" + (body + AlignClose)
    ensures k + 1 + |body| + |AlignClose| == |t| && t[k] == ']'
    ensures t[k + 1..|t| - |AlignClose|] == body
    ensures StartsWithCI(t[|t| - |AlignClose|..], AlignClose)
  {
    assert t[k..][0] == t[k];
    assert t[k + 1..|t| - |AlignClose|] == t[k..][1..1 + |body|];
    assert t[|t| - |AlignClose|..] == t[k..][1 + |body|..];
    StartsWithCISelf(AlignClose, []);
    assert AlignClose + [] == AlignClose;
  }

  lemma AlignWordSlice(t: string, w: string)
    requires |AlignOpen| + |w| <= |t| && t[|AlignOpen|..|AlignOpen| + |w|] == w
    ensures t[|AlignOpen|..][..|w|] == t[|AlignOpen|..|AlignOpen| + |w|]
  {
  }
}
