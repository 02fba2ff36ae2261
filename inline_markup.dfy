/**
 * `renderInline`, the inline half of the markup engine (components/Entry.js
 * and pages/PostPage.js keep two copies of it). The text is HTML-escaped, then
 * ten global, case-insensitive replacements turn the bracket tags into a small
 * set of HTML tags. The two copies differ only in how `[font=…]` is treated.
 *
 * Each regular expression is modelled by hand as a matcher for that one
 * pattern (`MatchAt`), and a global `String.prototype.replace` as a
 * left-to-right scan that resumes after each match (`Rewrite`).
 */
module InlineMarkup {
  import opened Wrappers
  import opened Text

  /** Entry.js only keeps a font that is on its whitelist; PostPage.js keeps any font. */
  datatype FontPolicy = WhitelistedFonts | AnyFont

  const AllowedFonts: set<string> := {"EB Garamond", "Newsreader", "Inter"}

  // ---------------------------------------------------------------------
  // escapeHtml

  /** `s.replace(/c/g, by)`. */
  function ReplaceChar(s: string, c: char, repl: string): string
    decreases |s|
  {
    if s == [] then [] else (if s[0] == c then repl else [s[0]]) + ReplaceChar(s[1..], c, repl)
  }

  /** `escapeHtml`: `&` first, then `<`, `>`, `"` and `'`. */
  function EscapeHtml(s: string): string {
    var s1 := ReplaceChar(s, '&', "&amp;");
    var s2 := ReplaceChar(s1, '<', "&lt;");
    var s3 := ReplaceChar(s2, '>', "&gt;");
    var s4 := ReplaceChar(s3, '"', "&quot;");
    ReplaceChar(s4, '\'', "&#39;")
  }

  predicate IsEscaped(c: char) { c == '&' || c == '<' || c == '>' || c == '"' || c == '\'' }

  /** The character references the escaping produces, one per character. */
  function EntityOf(c: char): string {
    if c == '&' then "&amp;"
    else if c == '<' then "&lt;"
    else if c == '>' then "&gt;"
    else if c == '"' then "&quot;"
    else if c == '\'' then "&#39;"
    else [c]
  }

  /** Decodes the five character references that `EscapeHtml` produces. */
  function Unescape(s: string): string
    decreases |s|
  {
    if s == [] then []
    else if StartsWith(s, "&amp;") then "&" + Unescape(s[5..])
    else if StartsWith(s, "&lt;") then "<" + Unescape(s[4..])
    else if StartsWith(s, "&gt;") then ">" + Unescape(s[4..])
    else if StartsWith(s, "&quot;") then "\"" + Unescape(s[6..])
    else if StartsWith(s, "&#39;") then "'" + Unescape(s[5..])
    else [s[0]] + Unescape(s[1..])
  }

  lemma {:induction false} ReplaceCharConcat(a: string, b: string, c: char, repl: string)
    ensures ReplaceChar(a + b, c, repl) == ReplaceChar(a, c, repl) + ReplaceChar(b, c, repl)
    decreases |a|
  {
    if a != [] {
      assert (a + b)[1..] == a[1..] + b;
      ReplaceCharConcat(a[1..], b, c, repl);
    } else {
      assert a + b == b;
    }
  }

  lemma {:induction false} ReplaceCharAbsent(s: string, c: char, repl: string)
    requires Excludes(s, c)
    ensures ReplaceChar(s, c, repl) == s
    decreases |s|
  {
    if s != [] {
      ReplaceCharAbsent(s[1..], c, repl);
      assert [s[0]] + s[1..] == s;
    }
  }

  lemma ReplaceCharSingle(d: char, c: char, repl: string)
    ensures ReplaceChar([d], c, repl) == if d == c then repl else [d]
  {
    assert [d][1..] == [];
  }

  /** Escaping one character gives its reference: no replacement text holds a
    * character that a later step of the chain replaces. */
  lemma EscapeHtmlSingle(d: char)
    ensures EscapeHtml([d]) == EntityOf(d)
  {
    EntitiesUnaffected();
    ReplaceCharSingle(d, '&', "&amp;");
    if d == '&' {
      ReplaceCharAbsent("&amp;", '<', "&lt;");
      ReplaceCharAbsent("&amp;", '>', "&gt;");
      ReplaceCharAbsent("&amp;", '"', "&quot;");
      ReplaceCharAbsent("&amp;", '\'', "&#39;");
    } else {
      EscapeHtmlSingleNotAmp(d);
    }
  }

  lemma EscapeHtmlSingleNotAmp(d: char)
    requires d != '&'
    ensures ReplaceChar(ReplaceChar(ReplaceChar(ReplaceChar([d], '<', "&lt;"), '>', "&gt;"), '"', "&quot;"), '\'', "&#39;")
      == EntityOf(d)
  {
    EntitiesUnaffected();
    ReplaceCharSingle(d, '<', "&lt;");
    if d == '<' {
      ReplaceCharAbsent("&lt;", '>', "&gt;");
      ReplaceCharAbsent("&lt;", '"', "&quot;");
      ReplaceCharAbsent("&lt;", '\'', "&#39;");
    } else {
      ReplaceCharSingle(d, '>', "&gt;");
      if d == '>' {
        ReplaceCharAbsent("&gt;", '"', "&quot;");
        ReplaceCharAbsent("&gt;", '\'', "&#39;");
      } else {
        ReplaceCharSingle(d, '"', "&quot;");
        if d == '"' {
          ReplaceCharAbsent("&quot;", '\'', "&#39;");
        } else {
          ReplaceCharSingle(d, '\'', "&#39;");
        }
      }
    }
  }

  /** No reference holds a character that a later step of the chain replaces. */
  lemma EntitiesUnaffected()
    ensures Excludes("&amp;", '<') && Excludes("&amp;", '>') && Excludes("&amp;", '"') && Excludes("&amp;", '\'')
    ensures Excludes("&lt;", '>') && Excludes("&lt;", '"') && Excludes("&lt;", '\'')
    ensures Excludes("&gt;", '"') && Excludes("&gt;", '\'') && Excludes("&quot;", '\'')
  {
  }

  lemma EscapeHtmlConcat(a: string, b: string)
    ensures EscapeHtml(a + b) == EscapeHtml(a) + EscapeHtml(b)
  {
    ReplaceCharConcat(a, b, '&', "&amp;");
    var a1, b1 := ReplaceChar(a, '&', "&amp;"), ReplaceChar(b, '&', "&amp;");
    ReplaceCharConcat(a1, b1, '<', "&lt;");
    var a2, b2 := ReplaceChar(a1, '<', "&lt;"), ReplaceChar(b1, '<', "&lt;");
    ReplaceCharConcat(a2, b2, '>', "&gt;");
    var a3, b3 := ReplaceChar(a2, '>', "&gt;"), ReplaceChar(b2, '>', "&gt;");
    ReplaceCharConcat(a3, b3, '"', "&quot;");
    var a4, b4 := ReplaceChar(a3, '"', "&quot;"), ReplaceChar(b3, '"', "&quot;");
    ReplaceCharConcat(a4, b4, '\'', "&#39;");
  }

  /** The five chained replacements act one character at a time. */
  lemma EscapeHtmlByCharacter(s: string)
    ensures s != [] ==> EscapeHtml(s) == EntityOf(s[0]) + EscapeHtml(s[1..])
  {
    if s != [] {
      assert s == [s[0]] + s[1..];
      EscapeHtmlConcat([s[0]], s[1..]);
      EscapeHtmlSingle(s[0]);
    }
  }

  /** Escaped text contains none of `& < > " '` except as the `&` that starts a reference. */
  lemma {:induction false} EscapeHtmlRemovesMarkup(s: string)
    ensures NoMarkup(EscapeHtml(s))
    ensures Excludes(EscapeHtml(s), '\'')
    decreases |s|
  {
    if s != [] {
      EscapeHtmlByCharacter(s);
      EscapeHtmlRemovesMarkup(s[1..]);
      EntityPlain(s[0]);
      NoMarkupConcat(EntityOf(s[0]), EscapeHtml(s[1..]));
      ExcludesConcat(EntityOf(s[0]), EscapeHtml(s[1..]), '\'');
    }
  }

  lemma EntityPlain(c: char)
    ensures NoMarkup(EntityOf(c)) && Excludes(EntityOf(c), '\'')
  {
  }

  /** Unescaping decodes the reference of one character. */
  lemma UnescapeEntity(c: char, rest: string)
    ensures Unescape(EntityOf(c) + rest) == [c] + Unescape(rest)
  {
    var t := EntityOf(c) + rest;
    if c == '&' {
      assert t[..5] == "&amp;" && t[5..] == rest;
    } else if c == '<' {
      assert t[1] == 'l' && t[..4] == "&lt;" && t[4..] == rest;
      assert !StartsWith(t, "&amp;");
    } else if c == '>' {
      assert t[1] == 'g' && t[..4] == "&gt;" && t[4..] == rest;
      assert !StartsWith(t, "&amp;") && !StartsWith(t, "&lt;");
    } else if c == '"' {
      assert t[1] == 'q' && t[..6] == "&quot;" && t[6..] == rest;
      assert !StartsWith(t, "&amp;") && !StartsWith(t, "&lt;") && !StartsWith(t, "&gt;");
    } else if c == '\'' {
      assert t[1] == '#' && t[..5] == "&#39;" && t[5..] == rest;
      assert !StartsWith(t, "&amp;") && !StartsWith(t, "&lt;") && !StartsWith(t, "&gt;");
      assert !StartsWith(t, "&quot;");
    } else {
      assert t[0] == c && t[1..] == rest;
      assert !StartsWith(t, "&amp;") && !StartsWith(t, "&lt;") && !StartsWith(t, "&gt;");
      assert !StartsWith(t, "&quot;") && !StartsWith(t, "&#39;");
    }
  }

  /** Unescaping the escaped text gives back the original. */
  lemma {:induction false} EscapeRoundTrip(s: string)
    ensures Unescape(EscapeHtml(s)) == s
    decreases |s|
  {
    EscapeHtmlByCharacter(s);
    if s != [] {
      EscapeRoundTrip(s[1..]);
      UnescapeEntity(s[0], EscapeHtml(s[1..]));
      assert s == [s[0]] + s[1..];
    } else {
      assert EscapeHtml(s) == [] by { ReplaceCharAbsent(s, '&', "&amp;"); }
    }
  }

  /** Text with none of the five characters is left unchanged by the escaping. */
  lemma {:induction false} EscapeHtmlIdentity(s: string)
    requires forall i | 0 <= i < |s| :: !IsEscaped(s[i])
    ensures EscapeHtml(s) == s
    decreases |s|
  {
    EscapeHtmlByCharacter(s);
    if s != [] {
      EscapeHtmlIdentity(s[1..]);
      assert s == [s[0]] + s[1..];
    } else {
      assert EscapeHtml(s) == [];
    }
  }

  // ---------------------------------------------------------------------
  // The tag replacements

  datatype OpenKind = Mark | Color | Size | Font(policy: FontPolicy)

  /** One `safe.replace(regex, …)` step: a fixed tag, or an opening tag with a value. */
  datatype Rule =
    | Literal(pattern: string, html: string)
    | Valued(prefix: string, kind: OpenKind)

  const UOpen := Literal("[u]", "<u>")
  const UClose := Literal("[/u]", "</u>")
  const MarkOpen := Valued("[mark=", Mark)
  const MarkClose := Literal("[/mark]", "</span>")
  const ColorOpen := Valued("[color=", Color)
  const ColorClose := Literal("[/color]", "</span>")
  const SizeOpen := Valued("[size=", Size)
  const SizeClose := Literal("[/size]", "</span>")
  const FontClose := Literal("[/font]", "</span>")

  function FontOpen(policy: FontPolicy): Rule { Valued("[font=", Font(policy)) }

  /** `<span style="body">` */
  function Styled(body: string): string { "<span style=\"" + body + "\">" }

  /** `size.trim().replace(/[^\d.]/g, '')` */
  function DigitsAndDots(s: string): (r: string)
    ensures forall i | 0 <= i < |r| :: IsDigit(r[i]) || r[i] == '.'
    decreases |s|
  {
    if s == [] then [] else (if IsDigit(s[0]) || s[0] == '.' then [s[0]] else []) + DigitsAndDots(s[1..])
  }

  /** The `font-size` value: the digits and dots followed by `px`, or `inherit`. */
  function SizeValue(v: string): string {
    var numeric := DigitsAndDots(Trim(v));
    if numeric == [] then "inherit" else numeric + "px"
  }

  /** The style an opening tag with captured value `v` sets; `None` for the
    * bare `<span>` that replaces a font that is not allowed. */
  function OpenStyle(kind: OpenKind, v: string): Option<string> {
    match kind
    case Mark => Some("background:" + Trim(v) + ";padding:0 2px;border-radius:2px")
    case Color => Some("color:" + Trim(v))
    case Size => Some("font-size:" + SizeValue(v))
    case Font(WhitelistedFonts) =>
      if Trim(v) in AllowedFonts then Some("font-family:" + Trim(v)) else None
    case Font(AnyFont) => Some("font-family:" + Trim(v))
  }

  /** The HTML an opening tag with captured value `v` is replaced by. */
  function OpenTag(kind: OpenKind, v: string): string {
    match OpenStyle(kind, v)
    case None => "<span>"
    case Some(body) => Styled(body)
  }

  /** The pattern a rule starts with. */
  function Pattern(r: Rule): string {
    match r
    case Literal(p, _) => p
    case Valued(p, _) => p
  }

  /** Every pattern of the chain starts with `[`. */
  predicate OpensWithBracket(r: Rule) {
    Pattern(r) != [] && Pattern(r)[0] == '['
  }

  /** What a rule must look like for the scan to be well defined: every
    * pattern starts with `[`, has no `<`, `>` or `"`, and a fixed pattern
    * ends with its only `]`. */
  predicate Bracketed(r: Rule) {
    OpensWithBracket(r) &&
    match r
    case Literal(p, html) =>
      |p| >= 2 && p[0] == '[' && p[|p| - 1] == ']' && Excludes(p[..|p| - 1], ']') && Clean(p[..|p| - 1])
      && (html == "<u>" || html == "</u>" || html == "</span>")
    case Valued(p, _) => |p| >= 1 && p[0] == '[' && Clean(p)
  }

  /** A match of a rule: how many characters it covers and, for an opening
    * tag with a value, the captured value. */
  datatype Match = Match(len: nat, value: string)

  /** The HTML a match of rule `r` with captured value `v` is replaced by. */
  function Replacement(r: Rule, v: string): string {
    match r
    case Literal(_, html) => html
    case Valued(_, kind) => OpenTag(kind, v)
  }

  /** `<`, `>` and `"`: the characters that open or leave a tag or an attribute. */
  predicate IsMarkup(c: char) { c == '<' || c == '>' || c == '"' }

  predicate NoMarkup(s: string) { forall i | 0 <= i < |s| :: !IsMarkup(s[i]) }

  /** What a style value may contain: no markup character and no `]`. */
  predicate Clean(s: string) { forall i | 0 <= i < |s| :: !IsMarkup(s[i]) && s[i] != ']' }

  /** The regular expression of rule `r`, anchored at the start of `s`. A
    * valued tag `\[name=([^\]]+)\]` captures everything up to the first `]`,
    * which must not be the next character. With `strict`, the capture may
    * not contain `<`, `>` or `"` either (the class is `[^\]<>"]+`). */
  function MatchAt(r: Rule, s: string, strict: bool): (m: Option<Match>)
    ensures m.Some? ==> 0 < m.value.len <= |s|
  {
    match r
    case Literal(p, html) =>
      if p != [] && StartsWithCI(s, p) then Some(Match(|p|, [])) else None
    case Valued(p, kind) =>
      if !StartsWithCI(s, p) then None
      else
        var rest := s[|p|..];
        var k := IndexOf(rest, ']');
        if k < 1 then None
        else if strict && !NoMarkup(rest[..k]) then None
        else Some(Match(|p| + k + 1, rest[..k]))
  }

  /** `s.replace(regex, …)` with the `g` flag: scan left to right, replace each
    * match and resume right after it. */
  function Rewrite(r: Rule, s: string, strict: bool): string
    decreases |s|
  {
    if s == [] then []
    else match MatchAt(r, s, strict)
      case Some(m) => Replacement(r, m.value) + Rewrite(r, s[m.len..], strict)
      case None => [s[0]] + Rewrite(r, s[1..], strict)
  }

  lemma RuleBracketed(policy: FontPolicy, i: nat)
    requires i < RuleCount
    ensures Bracketed(Rules(policy)[i])
  {
    if i < 2 { UnderlineBracketed(); }
    else if i < 4 { MarkBracketed(); }
    else if i < 6 { ColorBracketed(); }
    else if i < 8 { SizeBracketed(); }
    else { FontBracketed(policy); }
  }


  lemma UnderlineBracketed()
    ensures Bracketed(UOpen) && Bracketed(UClose)
  {
    assert "[u]"[..2] == "[u";
    assert "[/u]"[..3] == "[/u";
  }

  lemma MarkBracketed()
    ensures Bracketed(MarkOpen) && Bracketed(MarkClose)
  {
    assert "[/mark]"[..6] == "[/mark";
  }

  lemma ColorBracketed()
    ensures Bracketed(ColorOpen) && Bracketed(ColorClose)
  {
    assert "[/color]"[..7] == "[/color";
  }

  lemma SizeBracketed()
    ensures Bracketed(SizeOpen) && Bracketed(SizeClose)
  {
    assert "[/size]"[..6] == "[/size";
  }

  lemma FontBracketed(policy: FontPolicy)
    ensures Bracketed(FontOpen(policy)) && Bracketed(FontClose)
  {
    assert "[/font]"[..6] == "[/font";
  }

  /** The number of replacements `renderInline` applies. */
  const RuleCount := 10

  /** The replacements of `renderInline`, in the order it applies them. */
  function Rules(policy: FontPolicy): (rules: seq<Rule>)
    ensures |rules| == RuleCount
  {
    [UOpen, UClose, MarkOpen, MarkClose, ColorOpen, ColorClose, SizeOpen, SizeClose, FontOpen(policy), FontClose]
  }

  /** The replacements from the `i`-th on, each applied to the output of the one before. */
  function Chain(rules: seq<Rule>, i: nat, s: string, strict: bool): string
    requires i <= |rules|
    decreases |rules| - i
  {
    if i == |rules| then s else Chain(rules, i + 1, Rewrite(rules[i], s, strict), strict)
  }

  /** `renderInline`: the escaped text through the replacements in order.
    * With `strict` false this is the code as written, where a captured value
    * is anything up to `]`, including the markup an earlier step of the chain
    * inserted. With `strict` true a value that contains `<`, `>` or `"` (which
    * after escaping can only come from an earlier step's tag) is no match:
    * the corrected capture. */
  function RenderInline(policy: FontPolicy, text: string, strict: bool): string {
    Chain(Rules(policy), 0, EscapeHtml(text), strict)
  }

  // ---------------------------------------------------------------------
  // The sanitised-fragment grammar

  /** Text without `<`, `>` or `"`, interleaved with the whitelisted tags
    * `<u>`, `</u>`, `<span>`, `</span>` and `<span style="V">`. */
  predicate Sanitized(s: string)
    decreases |s|, 1
  {
    if s == [] then true
    else if s[0] == '<' then
      (StartsWith(s, "<u>") && Sanitized(s[3..]))
      || (StartsWith(s, "</u>") && Sanitized(s[4..]))
      || (StartsWith(s, "<span>") && Sanitized(s[6..]))
      || (StartsWith(s, "</span>") && Sanitized(s[7..]))
      || (StartsWith(s, "<span style=\"") && InStyleValue(s[13..]))
    else if s[0] == '>' || s[0] == '"' then false
    else Sanitized(s[1..])
  }

  /** Inside a style attribute: clean characters up to `">`, then a sanitised rest. */
  predicate InStyleValue(s: string)
    decreases |s|, 0
  {
    if s == [] then false
    else if s[0] == '"' then |s| >= 2 && s[1] == '>' && Sanitized(s[2..])
    else if IsMarkup(s[0]) || s[0] == ']' then false
    else InStyleValue(s[1..])
  }

  lemma NoMarkupConcat(a: string, b: string)
    requires NoMarkup(a) && NoMarkup(b)
    ensures NoMarkup(a + b)
  {
  }

  lemma {:induction false} SanitizedPlain(s: string)
    requires NoMarkup(s)
    ensures Sanitized(s)
    decreases |s|
  {
    if s != [] {
      SanitizedPlain(s[1..]);
    }
  }

  lemma {:induction false} SanitizedDropPlain(s: string, k: nat)
    requires k <= |s| && Sanitized(s) && NoMarkup(s[..k])
    ensures Sanitized(s[k..])
    decreases k
  {
    if k > 0 {
      assert s[0] == s[..k][0];
      assert s[1..][..k - 1] == s[..k][1..];
      SanitizedDropPlain(s[1..], k - 1);
      assert s[1..][k - 1..] == s[k..];
    }
  }

  lemma SanitizedCons(c: char, x: string)
    requires !IsMarkup(c) && Sanitized(x)
    ensures Sanitized([c] + x)
  {
    assert ([c] + x)[1..] == x;
  }

  lemma SanitizedTag(t: string, x: string)
    requires t == "<u>" || t == "</u>" || t == "<span>" || t == "</span>"
    requires Sanitized(x)
    ensures Sanitized(t + x)
  {
    var s := t + x;
    assert s[|t|..] == x;
    assert StartsWith(s, t);
  }

  lemma SanitizedStyleOpen(y: string)
    requires InStyleValue(y)
    ensures Sanitized("<span style=\"" + y)
  {
    var s := "<span style=\"" + y;
    assert s[13..] == y;
    assert StartsWith(s, "<span style=\"");
  }

  lemma {:induction false} InStyleValueClose(v: string, x: string)
    requires Clean(v) && Sanitized(x)
    ensures InStyleValue(v + "\">" + x)
    decreases |v|
  {
    if v == [] {
      assert v + "\">" + x == "\">" + x;
      assert ("\">" + x)[2..] == x;
    } else {
      InStyleValueClose(v[1..], x);
      assert (v + "\">" + x)[1..] == v[1..] + "\">" + x;
    }
  }

  lemma SanitizedStyled(v: string, x: string)
    requires Clean(v) && Sanitized(x)
    ensures Sanitized(Styled(v) + x)
  {
    InStyleValueClose(v, x);
    assert Styled(v) + x == "<span style=\"" + (v + "\">" + x);
    SanitizedStyleOpen(v + "\">" + x);
  }

  /** Inside a style value, no `]` comes before the closing `"`. */
  lemma {:induction false} StyleValueHasNoBracket(s: string, j: nat)
    requires InStyleValue(s) && j < |s| && Excludes(s[..j + 1], '"')
    ensures s[j] != ']'
    decreases j
  {
    assert s[0] == s[..j + 1][0];
    if j > 0 {
      assert s[1..][..j] == s[..j + 1][1..];
      StyleValueHasNoBracket(s[1..], j - 1);
    }
  }

  lemma CleanTrim(v: string)
    requires Clean(v)
    ensures Clean(Trim(v))
  {
    var a := TrimStart(v);
    CleanSuffix(v, |v| - |a|);
    var b := TrimEnd(a);
    CleanPrefix(a, |b|);
  }

  lemma CleanSuffix(v: string, k: nat)
    requires Clean(v) && k <= |v|
    ensures Clean(v[k..])
  {
    forall i | 0 <= i < |v| - k ensures !IsMarkup(v[k..][i]) && v[k..][i] != ']' {
      assert v[k..][i] == v[k + i];
    }
  }

  lemma CleanPrefix(v: string, k: nat)
    requires Clean(v) && k <= |v|
    ensures Clean(v[..k])
  {
    forall i | 0 <= i < k ensures !IsMarkup(v[..k][i]) && v[..k][i] != ']' {
      assert v[..k][i] == v[i];
    }
  }

  lemma {:induction false} CleanDigitsAndDots(s: string)
    ensures Clean(DigitsAndDots(s))
  {
  }

  lemma CleanConcat(a: string, b: string)
    requires Clean(a) && Clean(b)
    ensures Clean(a + b)
  {
  }

  lemma StyleWordsClean()
    ensures Clean("background:") && Clean(";padding:0 2px;border-radius:2px") && Clean("color:")
    ensures Clean("font-size:") && Clean("font-family:") && Clean("inherit") && Clean("px")
  {
    MarkWordsClean();
    OtherWordsClean();
  }

  lemma MarkWordsClean()
    ensures Clean("background:") && Clean(";padding:0 2px;border-radius:2px")
  {
    assert ";padding:0 2px;border-radius:2px" == ";padding:0 2px;" + "border-radius:2px";
  }

  lemma OtherWordsClean()
    ensures Clean("color:") && Clean("font-size:") && Clean("font-family:") && Clean("inherit") && Clean("px")
  {
  }

  /** With a clean value, the style an opening tag sets is clean. */
  lemma OpenStyleClean(kind: OpenKind, v: string)
    requires Clean(v)
    ensures OpenStyle(kind, v).Some? ==> Clean(OpenStyle(kind, v).value)
  {
    CleanTrim(v);
    StyleWordsClean();
    var t := Trim(v);
    match kind
    case Mark =>
      CleanConcat("background:", t);
      CleanConcat("background:" + t, ";padding:0 2px;border-radius:2px");
    case Color =>
      CleanConcat("color:", t);
    case Size =>
      CleanDigitsAndDots(t);
      var n := DigitsAndDots(t);
      if n != [] { CleanConcat(n, "px"); }
      CleanConcat("font-size:", SizeValue(v));
    case Font(_) =>
      CleanConcat("font-family:", t);
  }

  /** The HTML a replacement may insert: one of the whitelisted tags, or a
    * `<span style="V">` whose V is clean. */
  predicate SafeReplacement(h: string) {
    h == "<u>" || h == "</u>" || h == "<span>" || h == "</span>"
    || (|h| >= 15 && h == Styled(h[13..|h| - 2]) && Clean(h[13..|h| - 2]))
  }

  lemma StyledSafe(body: string)
    requires Clean(body)
    ensures SafeReplacement(Styled(body))
  {
    var h := Styled(body);
    assert h[13..|h| - 2] == body;
  }

  /** A match of a valued rule captures a value without `]`, which is followed
    * by the `]` that ends the match; a strict match's value has no markup. */
  lemma ValuedMatchValue(p: string, kind: OpenKind, s: string, strict: bool)
    requires MatchAt(Valued(p, kind), s, strict).Some?
    ensures var m := MatchAt(Valued(p, kind), s, strict).value;
      m.len == |p| + |m.value| + 1 && StartsWithCI(s, p) && s[|p|..m.len - 1] == m.value
      && s[m.len - 1] == ']' && Excludes(m.value, ']') && (strict ==> NoMarkup(m.value))
  {
    var rest := s[|p|..];
    var k := IndexOf(rest, ']');
    assert rest[k] == s[|p| + k];
  }

  /** What a strict match covers holds no markup and ends with `]`. */
  lemma StrictMatchIsPlain(r: Rule, s: string)
    requires Bracketed(r)
    requires MatchAt(r, s, true).Some?
    ensures var m := MatchAt(r, s, true).value;
      NoMarkup(s[..m.len]) && s[m.len - 1] == ']'
  {
    match r
    case Literal(p, html) => LiteralMatchIsPlain(p, html, s);
    case Valued(p, kind) => ValuedMatchIsPlain(p, kind, s);
  }

  lemma LiteralMatchIsPlain(p: string, html: string, s: string)
    requires Bracketed(Literal(p, html)) && StartsWithCI(s, p)
    ensures NoMarkup(s[..|p|]) && s[|p| - 1] == ']'
  {
    forall i | 0 <= i < |p| ensures !IsMarkup(s[..|p|][i]) {
      assert CharEqCI(s[i], p[i]);
      if i < |p| - 1 { assert p[..|p| - 1][i] == p[i]; }
    }
    assert CharEqCI(s[|p| - 1], p[|p| - 1]);
  }

  lemma ValuedMatchIsPlain(p: string, kind: OpenKind, s: string)
    requires Bracketed(Valued(p, kind)) && MatchAt(Valued(p, kind), s, true).Some?
    ensures var m := MatchAt(Valued(p, kind), s, true).value;
      NoMarkup(s[..m.len]) && s[m.len - 1] == ']'
  {
    var m := MatchAt(Valued(p, kind), s, true).value;
    ValuedMatchValue(p, kind, s, true);
    forall i | 0 <= i < m.len ensures !IsMarkup(s[..m.len][i]) {
      if i < |p| {
        assert CharEqCI(s[i], p[i]);
      } else if i < m.len - 1 {
        assert s[i] == s[|p|..m.len - 1][i - |p|];
      }
    }
  }

  /** A strict match is replaced by a whitelisted tag. */
  lemma StrictMatchReplacementSafe(r: Rule, s: string)
    requires Bracketed(r)
    requires MatchAt(r, s, true).Some?
    ensures SafeReplacement(Replacement(r, MatchAt(r, s, true).value.value))
  {
    match r
    case Literal(p, html) =>
    case Valued(p, kind) =>
      ValuedMatchValue(p, kind, s, true);
      var v := MatchAt(r, s, true).value.value;
      assert Clean(v);
      OpenStyleClean(kind, v);
      if OpenStyle(kind, v).Some? {
        StyledSafe(OpenStyle(kind, v).value);
      }
  }

  /** A strict match needs a `]` before any `"`, so none starts inside a style value. */
  lemma NoStrictMatchInStyleValue(r: Rule, s: string)
    requires Bracketed(r) && InStyleValue(s)
    ensures MatchAt(r, s, true).None?
  {
    if MatchAt(r, s, true).Some? {
      var n := MatchAt(r, s, true).value.len;
      assert 0 < n <= |s| && NoMarkup(s[..n]) && s[n - 1] == ']' by {
        StrictMatchIsPlain(r, s);
      }
      PlainBracketNotInStyleValue(s, n);
    }
  }

  /** A stretch without markup that ends in `]` cannot open a style value. */
  lemma PlainBracketNotInStyleValue(s: string, n: nat)
    requires 0 < n <= |s| && NoMarkup(s[..n]) && s[n - 1] == ']'
    ensures !InStyleValue(s)
  {
    if InStyleValue(s) {
      assert Excludes(s[..n], '"') by {
        forall i | 0 <= i < n ensures s[..n][i] != '"' {
          assert !IsMarkup(s[..n][i]);
        }
      }
      StyleValueHasNoBracket(s, n - 1);
    }
  }

  /** No rule matches where the text does not start with `[`. */
  lemma NoMatchWithoutBracket(r: Rule, s: string, strict: bool)
    requires OpensWithBracket(r) && s != [] && s[0] != '['
    ensures MatchAt(r, s, strict).None?
  {
    match r
    case Literal(p, _) => assert !CharEqCI(s[0], p[0]);
    case Valued(p, _) => assert !CharEqCI(s[0], p[0]);
  }

  /** A prefix without `[` is copied unchanged by every rule. */
  lemma {:induction false} RewriteSkipsPlain(r: Rule, t: string, x: string, strict: bool)
    requires OpensWithBracket(r) && Excludes(t, '[')
    ensures Rewrite(r, t + x, strict) == t + Rewrite(r, x, strict)
    decreases |t|
  {
    if t == [] {
      assert t + x == x;
    } else {
      calc {
        Rewrite(r, t + x, strict);
      == { RewriteSkipsPlainStep(r, t, x, strict); }
        [t[0]] + Rewrite(r, t[1..] + x, strict);
      == { RewriteSkipsPlain(r, t[1..], x, strict); }
        [t[0]] + (t[1..] + Rewrite(r, x, strict));
      == { ConsDrop(t, Rewrite(r, x, strict)); }
        t + Rewrite(r, x, strict);
      }
    }
  }

  lemma RewriteSkipsPlainStep(r: Rule, t: string, x: string, strict: bool)
    requires OpensWithBracket(r) && t != [] && t[0] != '['
    ensures Rewrite(r, t + x, strict) == [t[0]] + Rewrite(r, t[1..] + x, strict)
  {
    NoMatchWithoutBracket(r, t + x, strict);
    RewriteUnmatchedHead(r, t + x, strict);
    DropFirst(t, x);
  }

  lemma RewriteIdentity(r: Rule, s: string, strict: bool)
    requires OpensWithBracket(r) && Excludes(s, '[')
    ensures Rewrite(r, s, strict) == s
  {
    RewriteSkipsPlain(r, s, [], strict);
    assert s + [] == s;
  }

  /** Every strict replacement step keeps a sanitised fragment sanitised. */
  lemma {:induction false} RewriteKeepsSanitized(r: Rule, s: string)
    requires Bracketed(r) && Sanitized(s)
    ensures Sanitized(Rewrite(r, s, true))
    decreases |s|, 1
  {
    if s == [] {
    } else if s[0] == '<' {
      if StartsWith(s, "<u>") && Sanitized(s[3..]) {
        assert s == "<u>" + s[3..];
        RewriteKeepsAfterTag(r, "<u>", s[3..]);
      } else if StartsWith(s, "</u>") && Sanitized(s[4..]) {
        assert s == "</u>" + s[4..];
        RewriteKeepsAfterTag(r, "</u>", s[4..]);
      } else if StartsWith(s, "<span>") && Sanitized(s[6..]) {
        assert s == "<span>" + s[6..];
        RewriteKeepsAfterTag(r, "<span>", s[6..]);
      } else if StartsWith(s, "</span>") && Sanitized(s[7..]) {
        assert s == "</span>" + s[7..];
        RewriteKeepsAfterTag(r, "</span>", s[7..]);
      } else {
        assert s == "<span style=\"" + s[13..];
        RewriteKeepsAfterStyleOpen(r, s[13..]);
      }
    } else {
      match MatchAt(r, s, true)
      case None =>
        RewriteKeepsSanitized(r, s[1..]);
        SanitizedCons(s[0], Rewrite(r, s[1..], true));
      case Some(m) =>
        StrictMatchIsPlain(r, s);
        StrictMatchReplacementSafe(r, s);
        SanitizedDropPlain(s, m.len);
        RewriteKeepsSanitized(r, s[m.len..]);
        var rest := Rewrite(r, s[m.len..], true);
        var h := Replacement(r, m.value);
        if h == "<u>" || h == "</u>" || h == "<span>" || h == "</span>" {
          SanitizedTag(h, rest);
        } else {
          var body := h[13..|h| - 2];
          SanitizedStyled(body, rest);
        }
    }
  }

  lemma {:induction false} RewriteKeepsAfterTag(r: Rule, t: string, x: string)
    requires Bracketed(r) && Sanitized(x)
    requires t == "<u>" || t == "</u>" || t == "<span>" || t == "</span>"
    ensures Sanitized(Rewrite(r, t + x, true))
    decreases |x|, 2
  {
    RewriteSkipsPlain(r, t, x, true);
    RewriteKeepsSanitized(r, x);
    SanitizedTag(t, Rewrite(r, x, true));
  }

  lemma {:induction false} RewriteKeepsAfterStyleOpen(r: Rule, y: string)
    requires Bracketed(r) && InStyleValue(y)
    ensures Sanitized(Rewrite(r, "<span style=\"" + y, true))
    decreases |y|, 2
  {
    RewriteSkipsPlain(r, "<span style=\"", y, true);
    RewriteKeepsStyleValue(r, y);
    SanitizedStyleOpen(Rewrite(r, y, true));
  }

  /** … and keeps a style value a style value. */
  lemma {:induction false} RewriteKeepsStyleValue(r: Rule, s: string)
    requires Bracketed(r) && InStyleValue(s)
    ensures InStyleValue(Rewrite(r, s, true))
    decreases |s|, 0
  {
    if s[0] == '"' {
      var t, x := s[..2], s[2..];
      assert s == t + x;
      RewriteSkipsPlain(r, t, x, true);
      RewriteKeepsSanitized(r, x);
      var y := Rewrite(r, x, true);
      assert (t + y)[2..] == y;
    } else {
      NoStrictMatchInStyleValue(r, s);
      RewriteKeepsStyleValue(r, s[1..]);
      DropFirst([s[0]], Rewrite(r, s[1..], true));
    }
  }

  /** The security property of the corrected renderer: whatever the text, the
    * output is escaped text plus whitelisted tags, and no style value holds
    * `<`, `>` or `"`, so no user text opens a tag or leaves an attribute. */
  lemma RenderInlineSanitized(policy: FontPolicy, text: string)
    ensures Sanitized(RenderInline(policy, text, true))
  {
    EscapeHtmlRemovesMarkup(text);
    SanitizedPlain(EscapeHtml(text));
    forall k | 0 <= k < RuleCount ensures Bracketed(Rules(policy)[k]) {
      RuleBracketed(policy, k);
    }
    ChainKeepsSanitized(Rules(policy), 0, EscapeHtml(text));
  }

  lemma {:induction false} ChainKeepsSanitized(rules: seq<Rule>, i: nat, s: string)
    requires i <= |rules| && Sanitized(s)
    requires forall k | 0 <= k < |rules| :: Bracketed(rules[k])
    ensures Sanitized(Chain(rules, i, s, true))
    decreases |rules| - i
  {
    if i < |rules| {
      RewriteKeepsSanitized(rules[i], s);
      ChainKeepsSanitized(rules, i + 1, Rewrite(rules[i], s, true));
    }
  }



  // ---------------------------------------------------------------------
  // Nested values: the as-written chain against the corrected one

  /** A value an author could type: nothing that is escaped, no bracket. */
  predicate PlainValue(v: string) {
    forall i | 0 <= i < |v| :: !IsEscaped(v[i]) && v[i] != '[' && v[i] != ']'
  }

  /** Inside a style value, a clean stretch is skipped. */
  lemma {:induction false} InStyleValueSkipClean(p: string, x: string)
    requires Clean(p)
    ensures InStyleValue(p + x) == InStyleValue(x)
    decreases |p|
  {
    if p == [] {
      assert p + x == x;
    } else {
      assert (p + x)[1..] == p[1..] + x;
      InStyleValueSkipClean(p[1..], x);
    }
  }

  /** A style attribute whose value holds a `<` is not sanitised. */
  lemma StyledMarkupNotSanitized(p: string, m: string)
    requires Clean(p) && m != [] && m[0] == '<'
    ensures !Sanitized(Styled(p + m))
  {
    var s := Styled(p + m);
    assert s == "<span style=\"" + (p + (m + "\">"));
    assert s[1] == 's' && s[5] == ' ';
    assert s[13..] == p + (m + "\">");
    InStyleValueSkipClean(p, m + "\">");
    assert (m + "\">")[0] == '<';
  }

  lemma ExcludesConcat(a: string, b: string, c: char)
    requires Excludes(a, c) && Excludes(b, c)
    ensures Excludes(a + b, c)
  {
  }

  lemma TrimExcludes(v: string, c: char)
    requires Excludes(v, c)
    ensures Excludes(Trim(v), c)
  {
    var t := TrimStart(v);
    var d := |v| - |t|;
    assert t == v[d..];
    assert Excludes(t, c) by {
      forall i | 0 <= i < |t| ensures t[i] != c { assert t[i] == v[d + i]; }
    }
    var u := TrimEnd(t);
    assert u == t[..|u|];
    forall i | 0 <= i < |u| ensures u[i] != c { assert u[i] == t[i]; }
  }

  /** A styled tag around a body without brackets has none either. */
  lemma StyledShape(body: string)
    requires Excludes(body, '[') && Excludes(body, ']')
    ensures var m := Styled(body);
      |m| > 1 && m[0] == '<' && m[|m| - 1] == '>' && Excludes(m, '[') && Excludes(m, ']')
  {
    var m := Styled(body);
    assert m == "<span style=\"" + body + "\">";
    ExcludesConcat("<span style=\"", body, '[');
    ExcludesConcat("<span style=\"" + body, "\">", '[');
    ExcludesConcat("<span style=\"", body, ']');
    ExcludesConcat("<span style=\"" + body, "\">", ']');
  }

  lemma PlainValueMarkShape(v: string)
    requires PlainValue(v)
    ensures var m := OpenTag(Mark, v);
      |m| > 1 && m[0] == '<' && m[|m| - 1] == '>' && Excludes(m, '[') && Excludes(m, ']')
  {
    assert Excludes(v, '[') && Excludes(v, ']');
    TrimExcludes(v, '[');
    TrimExcludes(v, ']');
    var body := "background:" + Trim(v) + ";padding:0 2px;border-radius:2px";
    MarkBodyShape(Trim(v));
    StyledShape(body);
    assert OpenStyle(Mark, v) == Some(body);
  }

  lemma MarkBodyShape(u: string)
    requires Excludes(u, '[') && Excludes(u, ']')
    ensures var body := "background:" + u + ";padding:0 2px;border-radius:2px";
      Excludes(body, '[') && Excludes(body, ']')
  {
    var tail := ";padding:0 2px;border-radius:2px";
    MarkWordsBracketFree();
    ExcludesConcat("background:", u, '[');
    ExcludesConcat("background:" + u, tail, '[');
    ExcludesConcat("background:", u, ']');
    ExcludesConcat("background:" + u, tail, ']');
  }

  lemma MarkWordsBracketFree()
    ensures Excludes("background:", '[') && Excludes("background:", ']')
    ensures Excludes(";padding:0 2px;border-radius:2px", '[') && Excludes(";padding:0 2px;border-radius:2px", ']')
  {
    MarkWordsClean();
  }

  /** A rule does not match where the text differs from its pattern. */
  lemma PatternMismatch(r: Rule, s: string, strict: bool, i: nat)
    requires i < |s| && i < |Pattern(r)| && !CharEqCI(s[i], Pattern(r)[i])
    ensures MatchAt(r, s, strict).None?
  {
  }

  lemma RewriteUnmatchedHead(r: Rule, s: string, strict: bool)
    requires s != [] && MatchAt(r, s, strict).None?
    ensures Rewrite(r, s, strict) == [s[0]] + Rewrite(r, s[1..], strict)
  {
  }

  lemma RewriteMatchedHead(r: Rule, s: string, strict: bool)
    requires MatchAt(r, s, strict).Some?
    ensures var m := MatchAt(r, s, strict).value;
      Rewrite(r, s, strict) == Replacement(r, m.value) + Rewrite(r, s[m.len..], strict)
  {
  }

  /** A character where the rule does not match is copied. */
  lemma RewriteCopiesHead(r: Rule, c: char, y: string, strict: bool)
    requires MatchAt(r, [c] + y, strict).None?
    ensures Rewrite(r, [c] + y, strict) == [c] + Rewrite(r, y, strict)
  {
    RewriteUnmatchedHead(r, [c] + y, strict);
    DropFirst([c], y);
  }

  /** A `[` where the rule does not match, then text without `[`, is copied. */
  lemma RewriteCopiesUnmatched(r: Rule, y: string, strict: bool)
    requires OpensWithBracket(r) && Excludes(y, '[') && MatchAt(r, "[" + y, strict).None?
    ensures Rewrite(r, "[" + y, strict) == "[" + y
  {
    RewriteCopiesHead(r, '[', y, strict);
    RewriteIdentity(r, y, strict);
  }

  /** A rule that matches at neither `[` of `[A[B` leaves it as it is. */
  lemma TwoBracketsUnmatched(r: Rule, a: string, b: string, strict: bool)
    requires OpensWithBracket(r) && Excludes(a, '[') && Excludes(b, '[')
    requires MatchAt(r, "[" + (a + ("[" + b)), strict).None?
    requires MatchAt(r, "[" + b, strict).None?
    ensures Rewrite(r, "[" + (a + ("[" + b)), strict) == "[" + (a + ("[" + b))
  {
    RewriteCopiesHead(r, '[', a + ("[" + b), strict);
    RewriteSkipsPlain(r, a, "[" + b, strict);
    RewriteCopiesUnmatched(r, b, strict);
  }

  lemma StartsWithCIItself(p: string, z: string)
    ensures StartsWithCI(p + z, p)
  {
    forall i | 0 <= i < |p| ensures CharEqCI((p + z)[i], p[i]) {
      assert (p + z)[i] == p[i];
    }
  }

  /** An opening tag `P V]` with a value that has no `]` (and, for the strict
    * matcher, no markup) matches and captures `V`. */
  lemma ValuedMatch(p: string, kind: OpenKind, v: string, z: string, strict: bool)
    requires v != [] && Excludes(v, ']')
    requires strict ==> NoMarkup(v)
    ensures MatchAt(Valued(p, kind), p + (v + ([']'] + z)), strict)
      == Some(Match(|p| + |v| + 1, v))
    ensures (p + (v + ([']'] + z)))[|p| + |v| + 1..] == z
  {
    var rest := v + ([']'] + z);
    var s := p + rest;
    StartsWithCIItself(p, rest);
    assert s[|p|..] == rest;
    IndexOfAfter(v, ']', z);
    assert v + [']'] + z == rest;
    assert rest[..|v|] == v;
  }

  /** … and is replaced by its tag, the rest without `[` being copied. */
  lemma ValuedRewrite(p: string, kind: OpenKind, v: string, z: string, strict: bool)
    requires OpensWithBracket(Valued(p, kind)) && Excludes(z, '[')
    requires v != [] && Excludes(v, ']') && (strict ==> NoMarkup(v))
    ensures Rewrite(Valued(p, kind), p + (v + ([']'] + z)), strict) == OpenTag(kind, v) + z
  {
    ValuedRewriteHead(p, kind, v, z, strict);
    RewriteIdentity(Valued(p, kind), z, strict);
  }

  lemma ValuedRewriteHead(p: string, kind: OpenKind, v: string, z: string, strict: bool)
    requires v != [] && Excludes(v, ']') && (strict ==> NoMarkup(v))
    ensures Rewrite(Valued(p, kind), p + (v + ([']'] + z)), strict)
      == Replacement(Valued(p, kind), v) + Rewrite(Valued(p, kind), z, strict)
  {
    var s := p + (v + ([']'] + z));
    var len := |p| + |v| + 1;
    ValuedMatch(p, kind, v, z, strict);
    assert s[len..] == z;
    RewriteAtMatch(Valued(p, kind), s, strict, len, v);
  }

  lemma RewriteAtMatch(r: Rule, s: string, strict: bool, len: nat, v: string)
    requires MatchAt(r, s, strict) == Some(Match(len, v))
    ensures len <= |s| && Rewrite(r, s, strict) == Replacement(r, v) + Rewrite(r, s[len..], strict)
  {
  }

  /** Rule `r` does not match at the `[` of `[A P V]Z` but does at `P`, a
    * valued tag: the tag is replaced and the rest copied. */
  lemma InnerTagReplaced(p: string, kind: OpenKind, a: string, v: string, z: string, strict: bool)
    requires OpensWithBracket(Valued(p, kind)) && Excludes(a, '[') && Excludes(z, '[')
    requires v != [] && Excludes(v, ']') && (strict ==> NoMarkup(v))
    requires MatchAt(Valued(p, kind), "[" + (a + (p + (v + ([']'] + z)))), strict).None?
    ensures Rewrite(Valued(p, kind), "[" + (a + (p + (v + ([']'] + z)))), strict)
      == "[" + (a + (OpenTag(kind, v) + z))
  {
    var r := Valued(p, kind);
    var x := p + (v + ([']'] + z));
    RewriteCopiesHead(r, '[', a + x, strict);
    RewriteSkipsPlain(r, a, x, strict);
    ValuedRewrite(p, kind, v, z, strict);
  }

  /** The strict matcher refuses a value that holds markup. */
  lemma StrictRefusesMarkup(p: string, kind: OpenKind, m: string, z: string)
    requires m != [] && Excludes(m, ']') && !NoMarkup(m)
    ensures MatchAt(Valued(p, kind), p + (m + ([']'] + z)), true).None?
  {
    var rest := m + ([']'] + z);
    var s := p + rest;
    assert s[|p|..] == rest;
    IndexOfAfter(m, ']', z);
    assert m + [']'] + z == rest;
    assert rest[..|m|] == m;
  }

  /** A valued tag `P M]` whose value holds markup is left as text by the strict matcher. */
  lemma OuterTagRefused(p: string, kind: OpenKind, m: string)
    requires OpensWithBracket(Valued(p, kind)) && Excludes(p[1..], '[')
    requires m != [] && Excludes(m, ']') && Excludes(m, '[') && !NoMarkup(m)
    ensures Rewrite(Valued(p, kind), p + (m + "]"), true) == p + (m + "]")
  {
    var r := Valued(p, kind);
    assert m + "]" == m + ([']'] + []);
    StrictRefusesMarkup(p, kind, m, []);
    var y := p[1..] + (m + "]");
    assert p + (m + "]") == "[" + y;
    ExcludesConcat(m, "]", '[');
    ExcludesConcat(p[1..], m + "]", '[');
    RewriteCopiesUnmatched(r, y, true);
  }

  /** As written, a valued tag `P M]` captures all of `M`, markup included. */
  lemma OuterTagCaptured(p: string, kind: OpenKind, m: string)
    requires OpensWithBracket(Valued(p, kind)) && m != [] && Excludes(m, ']')
    ensures Rewrite(Valued(p, kind), p + (m + "]"), false) == OpenTag(kind, m)
  {
    assert m + "]" == m + ([']'] + []);
    ValuedRewrite(p, kind, m, [], false);
  }

  /** `[color=[mark=V]]`, the input of the finding. */
  function NestedInput(v: string): string {
    "[" + ("color=" + ("[" + ("mark=" + (v + ([']'] + "]")))))
  }

  /** What `[mark=V]` is replaced by. */
  function MarkTag(v: string): string { OpenTag(Mark, v) }

  /** `[color=M]`: the colour tag around an inner text `M`. */
  function ColorAround(m: string): string {
    "[" + ("color=" + (m + "]"))
  }

  /** The text once `[mark=V]` is replaced. */
  function AfterMark(v: string): string {
    ColorAround(MarkTag(v))
  }

  /** What an inserted tag looks like: it has markup, and neither bracket. */
  predicate TagShape(m: string) {
    m != [] && m[0] == '<' && m[|m| - 1] == '>' && !NoMarkup(m) && Excludes(m, ']') && Excludes(m, '[')
  }

  /** A rule whose pattern has neither `c` nor `m` second matches nowhere in the input. */
  lemma NestedUnmatched(r: Rule, v: string, strict: bool)
    requires SkipsColor(r) && !CharEqCI('m', Pattern(r)[1]) && PlainValue(v)
    ensures Rewrite(r, NestedInput(v), strict) == NestedInput(v)
  {
    var b := "mark=" + (v + ([']'] + "]"));
    assert Excludes(b, '[');
    PatternMismatch(r, NestedInput(v), strict, 1);
    PatternMismatch(r, "[" + b, strict, 1);
    TwoBracketsUnmatched(r, "color=", b, strict);
  }

  lemma MarkPrefixSplit(v: string)
    ensures "[" + ("mark=" + (v + ([']'] + "]"))) == "[mark=" + (v + ([']'] + "]"))
  {
  }

  lemma NestedMarkStep(v: string, strict: bool)
    requires PlainValue(v) && v != []
    ensures Rewrite(MarkOpen, NestedInput(v), strict) == AfterMark(v)
  {
    assert Excludes(v, ']') && NoMarkup(v);
    PatternMismatch(MarkOpen, NestedInput(v), strict, 1);
    MarkPrefixSplit(v);
    InnerTagReplaced("[mark=", Mark, "color=", v, "]", strict);
  }

  lemma MarkTagShape(v: string)
    requires PlainValue(v)
    ensures TagShape(MarkTag(v))
  {
    PlainValueMarkShape(v);
  }

  lemma ColorAroundPlain(m: string)
    requires TagShape(m)
    ensures Excludes("color=" + (m + "]"), '[')
  {
    ExcludesConcat(m, "]", '[');
    ExcludesConcat("color=", m + "]", '[');
  }

  /** A rule whose pattern does not have `c` second leaves `[color=M]` as it is. */
  lemma ColorAroundUnmatched(r: Rule, m: string, strict: bool)
    requires SkipsColor(r) && TagShape(m)
    ensures Rewrite(r, ColorAround(m), strict) == ColorAround(m)
  {
    ColorAroundPlain(m);
    PatternMismatch(r, ColorAround(m), strict, 1);
    RewriteCopiesUnmatched(r, "color=" + (m + "]"), strict);
  }

  lemma ColorPrefixSplit(x: string)
    ensures "[" + ("color=" + x) == "[color=" + x
  {
  }

  lemma ColorPrefixPlain()
    ensures Clean("color:") && Excludes("color:", '[') && Excludes("color:", ']') && Excludes("[color="[1..], '[')
  {
  }

  /** The strict matcher leaves `[color=` before an inserted tag as text. */
  lemma ColorAroundStrict(m: string)
    requires TagShape(m)
    ensures Rewrite(ColorOpen, ColorAround(m), true) == ColorAround(m)
  {
    ColorPrefixSplit(m + "]");
    ColorPrefixPlain();
    OuterTagRefused("[color=", Color, m);
  }

  lemma TagTrimmed(m: string)
    requires TagShape(m)
    ensures Trim(m) == m
  {
    TrimNoop(m);
  }

  /** As written, `[color=` captures the whole inserted tag. */
  lemma ColorAroundAsWritten(m: string)
    requires TagShape(m)
    ensures Rewrite(ColorOpen, ColorAround(m), false) == Styled("color:" + m)
  {
    ColorPrefixSplit(m + "]");
    OuterTagCaptured("[color=", Color, m);
    TagTrimmed(m);
    assert OpenStyle(Color, m) == Some("color:" + m);
  }

  lemma ChainStep(rules: seq<Rule>, i: nat, s: string, strict: bool)
    requires i < |rules|
    ensures Chain(rules, i, s, strict) == Chain(rules, i + 1, Rewrite(rules[i], s, strict), strict)
  {
  }

  /** The first four replacements turn the input into `AfterMark(v)`. */
  lemma NestedHead(policy: FontPolicy, v: string, strict: bool)
    requires PlainValue(v) && v != []
    ensures Chain(Rules(policy), 0, NestedInput(v), strict) == Chain(Rules(policy), 4, AfterMark(v), strict)
  {
    NestedUnderline(policy, v, strict);
    NestedMark(policy, v, strict);
  }

  lemma NestedUnderline(policy: FontPolicy, v: string, strict: bool)
    requires PlainValue(v)
    ensures Chain(Rules(policy), 0, NestedInput(v), strict) == Chain(Rules(policy), 2, NestedInput(v), strict)
  {
    var t, rules := NestedInput(v), Rules(policy);
    assert rules[0] == UOpen && rules[1] == UClose;
    UnderlineSkips();
    ChainStep(rules, 0, t, strict);
    NestedUnmatched(UOpen, v, strict);
    ChainStep(rules, 1, t, strict);
    NestedUnmatched(UClose, v, strict);
  }

  lemma UnderlineSkips()
    ensures SkipsColor(UOpen) && !CharEqCI('m', Pattern(UOpen)[1])
    ensures SkipsColor(UClose) && !CharEqCI('m', Pattern(UClose)[1])
  {
  }

  lemma NestedMark(policy: FontPolicy, v: string, strict: bool)
    requires PlainValue(v) && v != []
    ensures Chain(Rules(policy), 2, NestedInput(v), strict) == Chain(Rules(policy), 4, AfterMark(v), strict)
  {
    var t, rules := NestedInput(v), Rules(policy);
    assert rules[2] == MarkOpen;
    ChainStep(rules, 2, t, strict);
    NestedMarkStep(v, strict);
    MarkTagShape(v);
    MarkCloseSkipsColor(policy, MarkTag(v), strict);
  }

  lemma MarkCloseSkipsColor(policy: FontPolicy, m: string, strict: bool)
    requires TagShape(m)
    ensures Chain(Rules(policy), 3, ColorAround(m), strict) == Chain(Rules(policy), 4, ColorAround(m), strict)
  {
    var rules := Rules(policy);
    assert rules[3] == MarkClose;
    ChainStep(rules, 3, ColorAround(m), strict);
    MarkCloseSkips();
    ColorAroundUnmatched(MarkClose, m, strict);
  }

  lemma MarkCloseSkips()
    ensures SkipsColor(MarkClose)
  {
  }

  /** The strict replacements from `[color=` on leave `[color=M]` as it is. */
  lemma ColorTailStrict(policy: FontPolicy, m: string)
    requires TagShape(m)
    ensures Chain(Rules(policy), 4, ColorAround(m), true) == ColorAround(m)
  {
    var rules := Rules(policy);
    assert rules[4] == ColorOpen;
    ChainStep(rules, 4, ColorAround(m), true);
    ColorAroundStrict(m);
    TailSkipsColor(policy);
    ColorAroundFixed(rules, 5, m, true);
  }

  lemma RulesOpenWithBracket(policy: FontPolicy)
    ensures forall j | 0 <= j < RuleCount :: OpensWithBracket(Rules(policy)[j])
  {
  }

  /** No replacement after `[color=` has `c` second in its pattern. */
  lemma TailSkipsColor(policy: FontPolicy)
    ensures forall j | 5 <= j < RuleCount :: SkipsColor(Rules(policy)[j])
  {
  }

  /** A rule whose pattern starts with `[` and does not have `c` second. */
  predicate SkipsColor(r: Rule) {
    OpensWithBracket(r) && 1 < |Pattern(r)| && !CharEqCI('c', Pattern(r)[1])
  }

  /** Replacements that all skip a colour tag leave `[color=M]` as it is. */
  lemma {:induction false} ColorAroundFixed(rules: seq<Rule>, i: nat, m: string, strict: bool)
    requires i <= |rules| && TagShape(m)
    requires forall j | i <= j < |rules| :: SkipsColor(rules[j])
    ensures Chain(rules, i, ColorAround(m), strict) == ColorAround(m)
    decreases |rules| - i
  {
    if i < |rules| {
      ColorAroundUnmatched(rules[i], m, strict);
      ChainStep(rules, i, ColorAround(m), strict);
      ColorAroundFixed(rules, i + 1, m, strict);
    }
  }

  lemma ColorStyledShape(m: string)
    requires TagShape(m)
    ensures Excludes(Styled("color:" + m), '[')
  {
    ColorPrefixPlain();
    ExcludesConcat("color:", m, '[');
    ExcludesConcat("color:", m, ']');
    StyledShape("color:" + m);
  }

  /** As written, the replacements from `[color=` on turn `[color=M]` into a
    * style attribute holding `M`. */
  lemma ColorTailAsWritten(policy: FontPolicy, m: string)
    requires TagShape(m)
    ensures Chain(Rules(policy), 4, ColorAround(m), false) == Styled("color:" + m)
  {
    var rules := Rules(policy);
    ChainStep(rules, 4, ColorAround(m), false);
    ColorAroundAsWritten(m);
    ColorStyledShape(m);
    RulesOpenWithBracket(policy);
    ChainPlainFixed(rules, 5, Styled("color:" + m), false);
  }

  /** Replacements whose patterns start with `[` leave a text without `[` as it is. */
  lemma {:induction false} ChainPlainFixed(rules: seq<Rule>, i: nat, s: string, strict: bool)
    requires i <= |rules| && Excludes(s, '[')
    requires forall j | i <= j < |rules| :: OpensWithBracket(rules[j])
    ensures Chain(rules, i, s, strict) == s
    decreases |rules| - i
  {
    if i < |rules| {
      RewriteIdentity(rules[i], s, strict);
      ChainStep(rules, i, s, strict);
      ChainPlainFixed(rules, i + 1, s, strict);
    }
  }

  /** Finding: in `renderInline` as written, the `[color=…]` step captures the
    * tag that the `[mark=…]` step inserted, so `[color=[mark=V]]` becomes a
    * style attribute holding a complete `<span style="…">` tag. Its first `"`
    * closes the attribute, and what follows (the mark value) is parsed as
    * attributes of the outer tag. The corrected chain leaves `[color=` as text. */
  lemma NestedValueCapture(policy: FontPolicy, v: string)
    requires PlainValue(v) && v != []
    ensures RenderInline(policy, NestedInput(v), false) == Styled("color:" + MarkTag(v))
    ensures RenderInline(policy, NestedInput(v), true) == AfterMark(v)
    ensures !Sanitized(RenderInline(policy, NestedInput(v), false))
  {
    NestedEscapeIdentity(v);
    MarkTagShape(v);
    NestedHead(policy, v, true);
    ColorTailStrict(policy, MarkTag(v));
    NestedHead(policy, v, false);
    ColorTailAsWritten(policy, MarkTag(v));
    ColorPrefixPlain();
    StyledMarkupNotSanitized("color:", MarkTag(v));
  }

  lemma NestedEscapeIdentity(v: string)
    requires PlainValue(v)
    ensures EscapeHtml(NestedInput(v)) == NestedInput(v)
  {
    var text := NestedInput(v);
    assert forall i | 0 <= i < |text| :: !IsEscaped(text[i]);
    EscapeHtmlIdentity(text);
  }

  // ---------------------------------------------------------------------
  // A tag on its own

  /** Rule `r` starts with `[` and differs from a text whose second and third
    * characters are `a` and `b` in one of them. */
  predicate SkipsChars(r: Rule, a: char, b: char) {
    OpensWithBracket(r) && 2 < |Pattern(r)| && (!CharEqCI(a, Pattern(r)[1]) || !CharEqCI(b, Pattern(r)[2]))
  }

  /** A rule that differs from `[y` at the second or third character leaves
    * it as it is when `y` has no `[`. */
  lemma RewriteSkipsToken(r: Rule, y: string, strict: bool)
    requires 1 < |y| && Excludes(y, '[') && SkipsChars(r, y[0], y[1])
    ensures Rewrite(r, "[" + y, strict) == "[" + y
  {
    var t := "[" + y;
    assert t[1] == y[0] && t[2] == y[1];
    if !CharEqCI(t[1], Pattern(r)[1]) {
      PatternMismatch(r, t, strict, 1);
    } else {
      PatternMismatch(r, t, strict, 2);
    }
    RewriteCopiesUnmatched(r, y, strict);
  }

  /** `[font=V]`, `[size=V]` and the like: an opening tag with a value. */
  function ValuedTag(p: string, v: string): string { p + (v + ([']'] + [])) }

  /** The start of an opening tag: `[`, at least two more characters, no
    * other `[` and nothing the escaping changes. */
  predicate TagPrefix(p: string) {
    3 <= |p| && p[0] == '[' && Excludes(p[1..], '[') && forall i | 0 <= i < |p| :: !IsEscaped(p[i])
  }

  lemma ValuedTagShape(p: string, v: string)
    requires TagPrefix(p) && PlainValue(v)
    ensures var t := ValuedTag(p, v);
      2 < |t| && t[0] == '[' && t[1] == p[1] && t[2] == p[2] && Excludes(t[1..], '[')
    ensures forall i | 0 <= i < |ValuedTag(p, v)| :: !IsEscaped(ValuedTag(p, v)[i])
  {
    var t := ValuedTag(p, v);
    assert t[1..] == p[1..] + (v + "]");
    assert Excludes(v, '[');
    ExcludesConcat(v, "]", '[');
    ExcludesConcat(p[1..], v + "]", '[');
    forall i | 0 <= i < |t| ensures !IsEscaped(t[i]) {
      if i < |p| { assert t[i] == p[i]; }
      else if i < |p| + |v| { assert t[i] == v[i - |p|]; }
    }
  }

  /** A rule that differs from a valued tag at its second or third character
    * leaves it as it is. */
  lemma ValuedTagUnmatched(r: Rule, p: string, v: string, strict: bool)
    requires TagPrefix(p) && PlainValue(v) && SkipsChars(r, p[1], p[2])
    ensures Rewrite(r, ValuedTag(p, v), strict) == ValuedTag(p, v)
  {
    var t := ValuedTag(p, v);
    ValuedTagShape(p, v);
    assert "[" + t[1..] == t;
    RewriteSkipsToken(r, t[1..], strict);
  }

  lemma {:induction false} ValuedTagFixed(rules: seq<Rule>, i: nat, p: string, v: string, strict: bool)
    requires i <= |rules| && TagPrefix(p) && PlainValue(v)
    requires forall j | i <= j < |rules| :: SkipsChars(rules[j], p[1], p[2])
    ensures Chain(rules, i, ValuedTag(p, v), strict) == ValuedTag(p, v)
    decreases |rules| - i
  {
    if i < |rules| {
      ValuedTagUnmatched(rules[i], p, v, strict);
      ChainStep(rules, i, ValuedTag(p, v), strict);
      ValuedTagFixed(rules, i + 1, p, v, strict);
    }
  }

  lemma ChainShiftStep(rules: seq<Rule>, k: nat, j: nat, s: string, strict: bool)
    requires k + j < |rules|
    ensures Chain(rules[k..], j, s, strict) == Chain(rules[k..], j + 1, Rewrite(rules[k + j], s, strict), strict)
  {
    assert rules[k..][j] == rules[k + j];
    ChainStep(rules[k..], j, s, strict);
  }

  lemma {:induction false} ChainShift(rules: seq<Rule>, k: nat, j: nat, s: string, strict: bool)
    requires k + j <= |rules|
    ensures Chain(rules, k + j, s, strict) == Chain(rules[k..], j, s, strict)
    decreases |rules| - k - j
  {
    if k + j < |rules| {
      ChainStep(rules, k + j, s, strict);
      ChainShiftStep(rules, k, j, s, strict);
      ChainShift(rules, k, j + 1, Rewrite(rules[k + j], s, strict), strict);
    }
  }

  lemma ChainPrefixStep(rules: seq<Rule>, i: nat, k: nat, s: string, strict: bool)
    requires i < k <= |rules|
    ensures Chain(rules[..k], i, s, strict) == Chain(rules[..k], i + 1, Rewrite(rules[i], s, strict), strict)
  {
    assert rules[..k][i] == rules[i];
    ChainStep(rules[..k], i, s, strict);
  }

  lemma ChainPrefixEnd(rules: seq<Rule>, k: nat, s: string, strict: bool)
    requires k <= |rules|
    ensures Chain(rules[..k], k, s, strict) == s
  {
  }

  lemma {:induction false} ChainSplit(rules: seq<Rule>, i: nat, k: nat, s: string, strict: bool)
    requires i <= k <= |rules|
    ensures Chain(rules, i, s, strict) == Chain(rules[k..], 0, Chain(rules[..k], i, s, strict), strict)
    decreases k - i
  {
    if i == k {
      ChainShift(rules, k, 0, s, strict);
      ChainPrefixEnd(rules, k, s, strict);
    } else {
      ChainStep(rules, i, s, strict);
      ChainPrefixStep(rules, i, k, s, strict);
      ChainSplit(rules, i + 1, k, Rewrite(rules[i], s, strict), strict);
    }
  }

  /** Running the rules from the `k`-th on, where the `k`-th matches at the
    * start and the others all start with `[`. */
  lemma ChainTailRendered(rules: seq<Rule>, k: nat, t: string, out: string, strict: bool)
    requires k < |rules| && Rewrite(rules[k], t, strict) == out && Excludes(out, '[')
    requires forall j | k < j < |rules| :: OpensWithBracket(rules[j])
    ensures Chain(rules[k..], 0, t, strict) == out
  {
    var post := rules[k..];
    assert post[0] == rules[k];
    ChainStep(post, 0, t, strict);
    assert forall j | 1 <= j < |post| :: post[j] == rules[k + j];
    ChainPlainFixed(post, 1, out, strict);
  }

  /** A valued tag that the rules before the `k`-th do not match comes out of
    * the chain as the `k`-th rule's replacement. */
  lemma ChainValuedTag(rules: seq<Rule>, k: nat, p: string, kind: OpenKind, v: string, strict: bool)
    requires k < |rules| && rules[k] == Valued(p, kind) && TagPrefix(p) && PlainValue(v) && v != []
    requires forall j | 0 <= j < k :: SkipsChars(rules[j], p[1], p[2])
    requires forall j | k <= j < |rules| :: OpensWithBracket(rules[j])
    ensures Chain(rules, 0, ValuedTag(p, v), strict) == OpenTag(kind, v)
  {
    var t := ValuedTag(p, v);
    ChainSplit(rules, 0, k, t, strict);
    ValuedTagPrefixFixed(rules, k, p, v, strict);
    ValuedTagReplaced(p, kind, v, strict);
    ChainTailRendered(rules, k, t, OpenTag(kind, v), strict);
  }

  lemma ValuedTagPrefixFixed(rules: seq<Rule>, k: nat, p: string, v: string, strict: bool)
    requires k <= |rules| && TagPrefix(p) && PlainValue(v)
    requires forall j | 0 <= j < k :: SkipsChars(rules[j], p[1], p[2])
    ensures Chain(rules[..k], 0, ValuedTag(p, v), strict) == ValuedTag(p, v)
  {
    assert forall j | 0 <= j < k :: rules[..k][j] == rules[j];
    ValuedTagFixed(rules[..k], 0, p, v, strict);
  }

  /** The rule for a valued tag replaces it, alone in the text, by HTML without `[`. */
  lemma ValuedTagReplaced(p: string, kind: OpenKind, v: string, strict: bool)
    requires OpensWithBracket(Valued(p, kind)) && PlainValue(v) && v != []
    ensures Rewrite(Valued(p, kind), ValuedTag(p, v), strict) == OpenTag(kind, v)
    ensures Excludes(OpenTag(kind, v), '[')
  {
    assert Excludes(v, ']') && NoMarkup(v) && Excludes([], '[') && Excludes(v, '[');
    ValuedRewrite(p, kind, v, [], strict);
    assert OpenTag(kind, v) + [] == OpenTag(kind, v);
    OpenTagNoBracket(kind, v);
  }

  /** With a value without `[`, an opening tag's HTML has no `[`. */
  lemma OpenTagNoBracket(kind: OpenKind, v: string)
    requires Excludes(v, '[')
    ensures Excludes(OpenTag(kind, v), '[')
  {
    TrimExcludes(v, '[');
    var u := Trim(v);
    StyleWordsNoBracket();
    match OpenStyle(kind, v)
    case None =>
    case Some(body) =>
      assert Excludes(body, '[') by {
        match kind
        case Mark =>
          ExcludesConcat("background:", u, '[');
          ExcludesConcat("background:" + u, ";padding:0 2px;border-radius:2px", '[');
        case Color => ExcludesConcat("color:", u, '[');
        case Size =>
          var n := DigitsAndDots(u);
          if n != [] { ExcludesConcat(n, "px", '['); }
          ExcludesConcat("font-size:", SizeValue(v), '[');
        case Font(_) => ExcludesConcat("font-family:", u, '[');
      }
      ExcludesConcat("<span style=\"", body, '[');
      ExcludesConcat("<span style=\"" + body, "\">", '[');
  }

  lemma StyleWordsNoBracket()
    ensures Excludes("background:", '[') && Excludes(";padding:0 2px;border-radius:2px", '[')
    ensures Excludes("color:", '[') && Excludes("font-size:", '[') && Excludes("font-family:", '[')
    ensures Excludes("px", '[') && Excludes("<span style=\"", '[') && Excludes("\">", '[') && Excludes("<span>", '[')
  {
    MarkWordsBracketFree();
  }

  /** An opening tag with a value, alone in the text, renders as its HTML. */
  lemma ValuedTagRendered(policy: FontPolicy, k: nat, p: string, kind: OpenKind, v: string, strict: bool)
    requires k < RuleCount && Rules(policy)[k] == Valued(p, kind)
    requires TagPrefix(p) && PlainValue(v) && v != []
    requires forall j | 0 <= j < k :: SkipsChars(Rules(policy)[j], p[1], p[2])
    ensures RenderInline(policy, ValuedTag(p, v), strict) == OpenTag(kind, v)
  {
    ValuedTagShape(p, v);
    EscapeHtmlIdentity(ValuedTag(p, v));
    RulesOpenWithBracket(policy);
    ChainValuedTag(Rules(policy), k, p, kind, v, strict);
  }

  lemma FontPrefixShape()
    ensures TagPrefix("[font=") && "[font="[1] == 'f' && "[font="[2] == 'o'
  {
  }

  lemma FontSkips(policy: FontPolicy)
    ensures forall j | 0 <= j < 8 :: SkipsChars(Rules(policy)[j], 'f', 'o')
    ensures Rules(policy)[8] == Valued("[font=", Font(policy))
  {
  }

  /** `[font=X]` on its own: with the whitelist the font is kept only when
    * trimmed X is on it, and otherwise a bare `<span>` opens; without it any
    * font is kept. */
  lemma FontTagRendered(policy: FontPolicy, v: string, strict: bool)
    requires PlainValue(v) && v != []
    ensures var r := RenderInline(policy, ValuedTag("[font=", v), strict);
      && (policy == WhitelistedFonts && Trim(v) in AllowedFonts ==> r == Styled("font-family:" + Trim(v)))
      && (policy == WhitelistedFonts && Trim(v) !in AllowedFonts ==> r == "<span>")
      && (policy == AnyFont ==> r == Styled("font-family:" + Trim(v)))
  {
    FontPrefixShape();
    FontSkips(policy);
    ValuedTagRendered(policy, 8, "[font=", Font(policy), v, strict);
  }

  lemma SizePrefixShape()
    ensures TagPrefix("[size=") && "[size="[1] == 's' && "[size="[2] == 'i'
  {
  }

  lemma SizeSkips(policy: FontPolicy)
    ensures forall j | 0 <= j < 6 :: SkipsChars(Rules(policy)[j], 's', 'i')
    ensures Rules(policy)[6] == SizeOpen
  {
  }

  /** `[size=V]` on its own sets `font-size` to the digits and dots of trimmed
    * V followed by `px`, or to `inherit` when V has none. */
  lemma SizeTagRendered(policy: FontPolicy, v: string, strict: bool)
    requires PlainValue(v) && v != []
    ensures var n := DigitsAndDots(Trim(v));
      RenderInline(policy, ValuedTag("[size=", v), strict)
        == Styled("font-size:" + (if n == [] then "inherit" else n + "px"))
  {
    SizePrefixShape();
    SizeSkips(policy);
    ValuedTagRendered(policy, 6, "[size=", Size, v, strict);
  }

  /** A fixed tag that is the whole text is replaced by its HTML. */
  lemma LiteralAlone(p: string, html: string, s: string, strict: bool)
    requires p != [] && |s| == |p| && StartsWithCI(s, p)
    ensures Rewrite(Literal(p, html), s, strict) == html
  {
    RewriteAtMatch(Literal(p, html), s, strict, |p|, []);
    assert s[|p|..] == [];
  }

  lemma UnderlineLiterals(policy: FontPolicy)
    ensures Rules(policy)[0] == Literal("[u]", "<u>") && Rules(policy)[1] == Literal("[/u]", "</u>")
    ensures StartsWithCI("[U]", "[u]") && StartsWithCI("[/u]", "[/u]") && Excludes("<u>", '[') && Excludes("</u>", '[')
    ensures forall i | 0 <= i < |"[U]"| :: !IsEscaped("[U]"[i])
    ensures forall i | 0 <= i < |"[/u]"| :: !IsEscaped("[/u]"[i])
    ensures "[/u]" == "[" + "/u]" && Excludes("/u]", '[') && SkipsChars(Rules(policy)[0], '/', 'u')
  {
  }

  /** Tags match regardless of case: `[U]` alone is underlined. */
  lemma UnderlineOpenAlone(policy: FontPolicy, strict: bool)
    ensures RenderInline(policy, "[U]", strict) == "<u>"
  {
    UnderlineLiterals(policy);
    RulesOpenWithBracket(policy);
    EscapeHtmlIdentity("[U]");
    ChainStep(Rules(policy), 0, "[U]", strict);
    LiteralAlone("[u]", "<u>", "[U]", strict);
    ChainPlainFixed(Rules(policy), 1, "<u>", strict);
  }

  /** A closing tag is replaced on its own, without an opening tag before it. */
  lemma UnderlineCloseAlone(policy: FontPolicy, strict: bool)
    ensures RenderInline(policy, "[/u]", strict) == "</u>"
  {
    UnderlineLiterals(policy);
    RulesOpenWithBracket(policy);
    EscapeHtmlIdentity("[/u]");
    ChainStep(Rules(policy), 0, "[/u]", strict);
    RewriteSkipsToken(Rules(policy)[0], "/u]", strict);
    ChainStep(Rules(policy), 1, "[/u]", strict);
    LiteralAlone("[/u]", "</u>", "[/u]", strict);
    ChainPlainFixed(Rules(policy), 2, "</u>", strict);
  }
}
