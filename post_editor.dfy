/**
 * The writing studio: the form being edited, its tag list, the toolbar's
 * selection splices, the inline image and embed inserts, and the payload a
 * submit builds. Text insertions land in the content at the textarea's
 * selection and move the caret; inserted media lines parse back through the
 * entry's line-to-block mapping.
 */
module PostEditor {
  import opened Wrappers
  import opened Text
  import opened Seqs
  import Entry

  // ---------------------------------------------------------------------
  // Tags

  /** `tags.filter(t => t !== tag)`. */
  function Without(s: seq<string>, x: string): (r: seq<string>)
    ensures x !in r
    ensures |r| <= |s|
    decreases |s|
  {
    if s == [] then []
    else (if s[0] == x then [] else [s[0]]) + Without(s[1..], x)
  }

  /** Every other tag keeps all its copies; the removed one keeps none. */
  lemma {:induction false} WithoutCounts(s: seq<string>, x: string)
    ensures multiset(Without(s, x)) == multiset(s)[x := 0]
    decreases |s|
  {
    if s != [] {
      assert s == [s[0]] + s[1..];
      WithoutCounts(s[1..], x);
    }
  }

  /** Removing a tag works piecewise, so the kept tags stay in their order. */
  lemma {:induction false} WithoutAppend(a: seq<string>, b: seq<string>, x: string)
    ensures Without(a + b, x) == Without(a, x) + Without(b, x)
    decreases |a|
  {
    if a == [] {
      assert a + b == b;
    } else {
      var h := if a[0] == x then [] else [a[0]];
      assert (a + b)[0] == a[0] && (a + b)[1..] == a[1..] + b;
      assert Without(a + b, x) == h + Without(a[1..] + b, x);
      WithoutAppend(a[1..], b, x);
    }
  }

  /** A tag that is not there leaves the list as it is. */
  lemma {:induction false} WithoutAbsent(s: seq<string>, x: string)
    requires x !in s
    ensures Without(s, x) == s
    decreases |s|
  {
    if s != [] {
      assert x !in s[1..];
      WithoutAbsent(s[1..], x);
    }
  }

  // ---------------------------------------------------------------------
  // Payload

  /** `finalImageUrls`: the inline images, then the cover if there is one,
    * each URL once. */
  function FinalImageUrls(urls: seq<string>, cover: string): seq<string> {
    Dedupe(if cover != [] then urls + [cover] else urls)
  }

  /** The `Set` that `handleSubmit` fills: first the inline image URLs, then
    * the cover. */
  method CollectImages(urls: seq<string>, cover: string) returns (r: seq<string>)
    ensures r == FinalImageUrls(urls, cover)
  {
    var seen: set<string> := {};
    r := [];
    var i := 0;
    while i < |urls|
      invariant 0 <= i <= |urls|
      invariant r == Dedupe(urls[..i])
      invariant forall x :: x in seen <==> x in r
    {
      assert urls[..i + 1][..i] == urls[..i];
      if urls[i] !in seen {
        r := r + [urls[i]];
        seen := seen + {urls[i]};
      }
      i := i + 1;
    }
    assert urls[..i] == urls;
    if cover != [] {
      assert (urls + [cover])[..|urls|] == urls;
      if cover !in seen {
        r := r + [cover];
      }
    }
  }

  /** The post type the payload records. */
  datatype PostKind = VideoPost | ImagePost | StoryPost

  /** The editor's `formData`. */
  datatype Form = Form(
    title: string, content: string, tags: seq<string>, location: string, date: string,
    isPublished: bool, coverImage: string, youtubeEmbedUrl: string, mood: string)

  /** What a submit saves. */
  datatype Payload = Payload(
    title: string, content: string, tags: seq<string>, location: string, date: string,
    isPublished: bool, mood: Option<string>, kind: PostKind, media: string,
    imageUrls: seq<string>, youtubeEmbedUrl: string)

  /** The payload of `handleSubmit` for the form, the collected image URLs and
    * the cover (uploaded, or the one the form holds); see `PayloadRules`. */
  function MakePayload(f: Form, images: seq<string>, cover: string): Payload {
    var yt := Trim(f.youtubeEmbedUrl);
    Payload(f.title, f.content, f.tags, f.location, f.date, f.isPublished,
      if f.mood == [] then None else Some(f.mood),
      if yt != [] then VideoPost else if cover != [] then ImagePost else StoryPost,
      if yt != [] then yt else cover,
      images, yt)
  }

  /** A trimmed YouTube URL makes a video post and is its media; otherwise a
    * cover makes an image post and is its media; a story has no media. An
    * empty mood is stored as null, and the form's other fields are copied. */
  lemma PayloadRules(f: Form, images: seq<string>, cover: string)
    ensures var p := MakePayload(f, images, cover);
      && p.youtubeEmbedUrl == Trim(f.youtubeEmbedUrl) && p.imageUrls == images
      && (p.kind == VideoPost <==> p.youtubeEmbedUrl != [])
      && (p.kind == ImagePost <==> p.youtubeEmbedUrl == [] && cover != [])
      && (p.kind == VideoPost ==> p.media == p.youtubeEmbedUrl)
      && (p.kind == ImagePost ==> p.media == cover)
      && (p.media == [] <==> p.kind == StoryPost)
      && (p.mood.None? <==> f.mood == [])
      && (p.mood.Some? ==> p.mood.value == f.mood)
      && p.title == f.title && p.content == f.content && p.tags == f.tags
      && p.location == f.location && p.date == f.date && p.isPublished == f.isPublished
  {
  }

  /** `err.message || 'Error saving post'`. */
  function ErrorText(message: string): (r: string)
    ensures r != []
    ensures message != [] ==> r == message
  {
    if message != [] then message else "Error saving post"
  }

  // ---------------------------------------------------------------------
  // Splicing text into the content

  /** `textarea.selectionStart ?? content.length`. */
  function Pos(sel: Option<nat>, content: string): nat {
    if sel.Some? then sel.value else |content|
  }

  /** `before + text + after` with `before = content.slice(0, start)` and
    * `after = content.slice(end)`. */
  function Spliced(content: string, start: nat, end: nat, text: string): string {
    Slice(content, 0, start) + text + Slice(content, end, |content|)
  }

  /** The selection replaced: what is before it and after it is kept, and the
    * text sits in between. */
  lemma SplicedParts(content: string, start: nat, end: nat, text: string)
    requires start <= end <= |content|
    ensures var r := Spliced(content, start, end, text);
      && |r| == |content| - (end - start) + |text|
      && r[..start] == content[..start]
      && r[start..start + |text|] == text
      && r[start + |text|..] == content[end..]
  {
  }

  /** A selection past the end appends the text. */
  lemma SplicedAtEnd(content: string, start: nat, end: nat, text: string)
    requires |content| <= start && |content| <= end
    ensures Spliced(content, start, end, text) == content + text
  {
    assert Slice(content, 0, start) == content;
  }

  /** `applyWrap`: the selection with the open and close tags around it. */
  function Wrapped(content: string, start: nat, end: nat, open: string, close: string): string {
    Spliced(content, start, end, open + Slice(content, start, end) + close)
  }

  /** Where `applyWrap` puts the caret: after the closing tag when something
    * was selected, between the tags when nothing was. */
  function WrapCaret(content: string, start: nat, end: nat, open: string, close: string): nat {
    var selected := Slice(content, start, end);
    if selected != [] then start + |open| + |selected| + |close| else start + |open|
  }

  /** Wrapping keeps the text: the selection sits between the tags, and the
    * caret follows the closing tag, or the opening tag of an empty selection. */
  lemma WrapParts(content: string, start: nat, end: nat, open: string, close: string)
    requires start <= end <= |content|
    ensures var r := Wrapped(content, start, end, open, close);
      var c := WrapCaret(content, start, end, open, close);
      && r == content[..start] + open + content[start..end] + close + content[end..]
      && c <= |r|
      && (start < end ==> r[..c] == content[..start] + open + content[start..end] + close && r[c..] == content[end..])
      && (start == end ==> r[..c] == content[..start] + open && r[c..] == close + content[end..])
  {
    var r := Wrapped(content, start, end, open, close);
    var a, sel, b := content[..start], content[start..end], content[end..];
    assert Slice(content, 0, start) == a;
    assert Slice(content, start, end) == sel;
    assert Slice(content, end, |content|) == b;
    assert r == a + (open + sel + close) + b;
    var front := a + open + sel + close;
    assert r == front + b;
    if start == end {
      assert sel == [];
      assert r == (a + open) + (close + b);
    }
  }

  // ---------------------------------------------------------------------
  // Inserted media lines

  /** A field written into a directive that reads back as itself: non-empty,
    * trimmed, on one line, and without the `|` separator. */
  predicate Field(s: string) {
    s != [] && !IsSpace(s[0]) && !IsSpace(s[|s| - 1]) && NoLineTerminator(s) && Excludes(s, '|')
  }

  /** `captionPart`: ` | CAPTION`, or nothing without a caption. */
  function CaptionPart(caption: string): string {
    if caption != [] then " | " + caption else ""
  }

  /** The line an inline upload inserts: `[image: URL]`, or
    * `[image: URL | CAPTION]` with a caption. */
  function ImageLine(url: string, caption: string): string {
    Entry.ImageTag + (" " + (url + CaptionPart(caption))) + "]"
  }

  /** The line an embed insert adds: `[embed: URL]`. */
  function EmbedLine(url: string): string {
    Entry.EmbedTag + (" " + url) + "]"
  }

  /** A line inserted on a line of its own. */
  function OwnLine(line: string): string {
    "\n" + line + "\n"
  }

  /** The directive tags open with `[` and differ in their second letter. */
  lemma TagLetters()
    ensures |Entry.ImageTag| >= 2 && Entry.ImageTag[0] == '[' && Entry.ImageTag[1] == 'i'
    ensures |Entry.VideoTag| >= 2 && Entry.VideoTag[1] == 'v'
    ensures |Entry.EmbedTag| >= 2 && Entry.EmbedTag[0] == '[' && Entry.EmbedTag[1] == 'e'
  {
  }

  /** A directive line is already trimmed and has no line break. */
  lemma Bracketed(name: string, m: string)
    requires |name| >= 2 && name[0] == '['
    requires Excludes(name, '\n') && Excludes(m, '\n')
    ensures var l := name + m + "]";
      && l[0] == '[' && l[1] == name[1] && l[|l| - 1] == ']'
      && Trim(l) == l && Excludes(l, '\n') && !IsSpace(l[0])
  {
    var l := name + m + "]";
    TrimNoop(l);
  }

  /** One space and then a trimmed one-line string: the capture is the string. */
  lemma PaddedCapture(x: string)
    requires x != [] && !IsSpace(x[0]) && !IsSpace(x[|x| - 1]) && NoLineTerminator(x)
    ensures Entry.Capture(" " + x) == Some(x)
  {
    assert " " + x + "" == " " + x;
    Entry.CapturePadded(" ", x, "");
  }

  /** `url | caption` around the separator. */
  lemma CaptionJoin(url: string, caption: string)
    requires Field(url) && Field(caption)
    ensures var x := url + (" | " + caption);
      && x == (url + " ") + "|" + (" " + caption)
      && x[0] == url[0] && x[|x| - 1] == caption[|caption| - 1] && NoLineTerminator(x)
  {
  }

  /** The image fields of `url | caption` are the URL and the caption. */
  lemma CaptionFields(url: string, caption: string)
    requires Field(url) && Field(caption)
    ensures Entry.ImageFields((url + " ") + "|" + (" " + caption)) == Entry.Image(url, caption)
  {
    assert Excludes(url + " ", '|') && Excludes(" " + caption, '|');
    Entry.ImageFieldsCaption(url + " ", " " + caption);
    assert Trim(url + " ") == url by {
      TrimPadded("", url, " ");
      assert "" + url + " " == url + " ";
    }
    assert Trim(" " + caption) == caption by {
      TrimPadded(" ", caption, "");
      assert " " + caption + "" == " " + caption;
    }
  }

  /** What follows the image tag is a trimmed one-line string. */
  lemma PayloadShape(url: string, caption: string)
    requires Field(url) && (caption == [] || Field(caption))
    ensures var x := url + CaptionPart(caption);
      x != [] && !IsSpace(x[0]) && !IsSpace(x[|x| - 1]) && NoLineTerminator(x)
  {
    if caption == [] {
      assert url + CaptionPart(caption) == url;
    } else {
      CaptionJoin(url, caption);
    }
  }

  /** What follows the image tag reads back as the URL and the caption. */
  lemma ImagePayload(url: string, caption: string)
    requires Field(url) && (caption == [] || Field(caption))
    ensures var x := url + CaptionPart(caption);
      && x != [] && !IsSpace(x[0]) && !IsSpace(x[|x| - 1]) && NoLineTerminator(x)
      && Entry.ImageFields(x) == Entry.Image(url, caption)
  {
    if caption == [] {
      assert url + CaptionPart(caption) == url;
      Entry.ImageFieldsSourceOnly(url);
      TrimNoop(url);
    } else {
      CaptionJoin(url, caption);
      CaptionFields(url, caption);
    }
  }

  /** The image line is trimmed and has no line break. */
  lemma ImageLineTrimmed(url: string, caption: string)
    requires Field(url) && (caption == [] || Field(caption))
    ensures var line := ImageLine(url, caption);
      Excludes(line, '\n') && !IsSpace(line[0]) && Trim(line) == line
  {
    var m := " " + (url + CaptionPart(caption));
    assert Excludes(m, '\n') by {
      PayloadShape(url, caption);
    }
    TagLetters();
    Bracketed(Entry.ImageTag, m);
  }

  /** The image payload of the image line is the URL and the caption. */
  lemma ImageLinePayload(url: string, caption: string)
    requires Field(url) && (caption == [] || Field(caption))
    ensures Entry.DirectivePayload(ImageLine(url, caption), Entry.ImageTag) == Some(url + CaptionPart(caption))
  {
    var x := url + CaptionPart(caption);
    var m := " " + x;
    assert ImageLine(url, caption) == Entry.ImageTag + m + "]";
    assert Entry.Capture(m) == Some(x) by {
      PayloadShape(url, caption);
      PaddedCapture(x);
    }
    Entry.DirectiveLine(Entry.ImageTag, m);
  }

  /** The image line is a trimmed line whose image payload is the URL and
    * the caption. */
  lemma ImageLineForm(url: string, caption: string)
    requires Field(url) && (caption == [] || Field(caption))
    ensures var line := ImageLine(url, caption);
      && Excludes(line, '\n') && !IsSpace(line[0]) && Trim(line) == line
      && Entry.DirectivePayload(line, Entry.ImageTag) == Some(url + CaptionPart(caption))
      && Entry.ImageFields(url + CaptionPart(caption)) == Entry.Image(url, caption)
  {
    ImageLineTrimmed(url, caption);
    ImageLinePayload(url, caption);
    ImagePayload(url, caption);
  }

  /** The image line parses back to the uploaded URL and the caption. */
  lemma ImageLineParses(url: string, caption: string, strict: bool)
    requires Field(url) && (caption == [] || Field(caption))
    ensures Entry.LineBlock(ImageLine(url, caption), strict) == Entry.Image(url, caption)
    ensures Excludes(ImageLine(url, caption), '\n') && !IsSpace(ImageLine(url, caption)[0])
  {
    ImageLineForm(url, caption);
    Entry.LineBlockImage(ImageLine(url, caption), url + CaptionPart(caption), strict);
  }

  /** The embed line parses back to the URL. */
  lemma EmbedLineParses(url: string, strict: bool)
    requires url != [] && !IsSpace(url[0]) && !IsSpace(url[|url| - 1]) && NoLineTerminator(url)
    ensures Entry.LineBlock(EmbedLine(url), strict) == Entry.Embed(url)
    ensures Excludes(EmbedLine(url), '\n') && !IsSpace(EmbedLine(url)[0])
  {
    var line := EmbedLine(url);
    TagLetters();
    Bracketed(Entry.EmbedTag, " " + url);
    assert !CharEqCI(line[1], Entry.ImageTag[1]) && !CharEqCI(line[1], Entry.VideoTag[1]);
    Entry.DirectiveLine(Entry.EmbedTag, " " + url);
    PaddedCapture(url);
    Entry.LineBlockEmbed(line, url, strict);
  }

  /** Inside the selection's range the splice is the text between what
    * comes before and after the selection. */
  lemma SplicedInRange(content: string, start: nat, end: nat, text: string)
    requires start <= end <= |content|
    ensures Spliced(content, start, end, text) == content[..start] + text + content[end..]
  {
  }

  /** A line inserted on its own line at a selection adds exactly its block
    * between the blocks of the text before and after the selection. */
  lemma InsertedLineBlocks(content: string, start: nat, end: nat, line: string, strict: bool)
    requires start <= end <= |content|
    requires Excludes(line, '\n') && line != [] && !IsSpace(line[0])
    ensures Entry.EntryBlocks(Spliced(content, start, end, OwnLine(line)), strict)
      == Entry.EntryBlocks(content[..start], strict) + [Entry.LineBlock(line, strict)] + Entry.EntryBlocks(content[end..], strict)
  {
    var a, b := content[..start], content[end..];
    SplicedInRange(content, start, end, OwnLine(line));
    assert a + OwnLine(line) + b == a + "\n" + (line + "\n" + b);
    Entry.EntryBlocksConcat(a, line + "\n" + b, strict);
    assert !AllSpace(line);
    Entry.EntryBlocksLine(line, b, strict);
  }

  /** The inline image insert adds one image block with the uploaded URL and
    * the caption, and leaves the blocks around it as they were. */
  lemma ImageInsertBlocks(content: string, start: nat, end: nat, url: string, caption: string, strict: bool)
    requires start <= end <= |content|
    requires Field(url) && (caption == [] || Field(caption))
    ensures Entry.EntryBlocks(Spliced(content, start, end, OwnLine(ImageLine(url, caption))), strict)
      == Entry.EntryBlocks(content[..start], strict) + [Entry.Image(url, caption)] + Entry.EntryBlocks(content[end..], strict)
  {
    ImageLineParses(url, caption, strict);
    InsertedLineBlocks(content, start, end, ImageLine(url, caption), strict);
  }

  /** The embed insert adds one embed block with the URL. */
  lemma EmbedInsertBlocks(content: string, start: nat, end: nat, url: string, strict: bool)
    requires start <= end <= |content|
    requires url != [] && !IsSpace(url[0]) && !IsSpace(url[|url| - 1]) && NoLineTerminator(url)
    ensures Entry.EntryBlocks(Spliced(content, start, end, OwnLine(EmbedLine(url))), strict)
      == Entry.EntryBlocks(content[..start], strict) + [Entry.Embed(url)] + Entry.EntryBlocks(content[end..], strict)
  {
    EmbedLineParses(url, strict);
    InsertedLineBlocks(content, start, end, EmbedLine(url), strict);
  }

  // ---------------------------------------------------------------------
  // The editor

  const UploadError := "Error uploading image"

  class Editor {
    var form: Form
    var tagInput: string
    var imageUrls: seq<string>
    var imageCaption: string
    var savedImageCaption: string
    var isImageCaptionSaved: bool
    var isUploading: bool
    var uploadProgress: nat
    var loading: bool
    var error: string
    /** Where the caret was put after the last splice, if one ran. */
    var caret: Option<nat>

    /** A new entry, dated `today`. */
    constructor (today: string)
      ensures form == Form("", "", [], "", today, true, "", "", "")
      ensures tagInput == [] && imageUrls == [] && imageCaption == [] && savedImageCaption == []
      ensures !isImageCaptionSaved && !isUploading && uploadProgress == 0 && !loading
      ensures error == [] && caret.None?
    {
      form := Form("", "", [], "", today, true, "", "", "");
      tagInput := [];
      imageUrls := [];
      imageCaption := [];
      savedImageCaption := [];
      isImageCaptionSaved := false;
      isUploading := false;
      uploadProgress := 0;
      loading := false;
      error := [];
      caret := None;
    }

    /** `handleTagAdd`: the trimmed input is appended when it is non-empty and
      * not yet a tag, and only then is the input cleared. */
    method AddTag()
      modifies this`form, this`tagInput
      ensures var t := Trim(old(tagInput));
        if t != [] && t !in old(form.tags) then form == old(form).(tags := old(form.tags) + [t]) && tagInput == []
        else form == old(form) && tagInput == old(tagInput)
      ensures Distinct(old(form.tags)) ==> Distinct(form.tags)
    {
      var t := Trim(tagInput);
      if t != [] && t !in form.tags {
        if Distinct(form.tags) {
          AppendDistinct(form.tags, t);
        }
        form := form.(tags := form.tags + [t]);
        tagInput := [];
      }
    }

    /** `handleTagRemove`: every copy of the tag goes, the rest keep their order. */
    method RemoveTag(tag: string)
      modifies this`form
      ensures form == old(form).(tags := Without(old(form.tags), tag))
      ensures tag !in form.tags
    {
      form := form.(tags := Without(form.tags, tag));
    }

    /** `insertAtCursor`: the selection is replaced by the text and the caret
      * follows it. Nothing happens before the textarea is mounted. */
    method InsertAtCursor(mounted: bool, start: Option<nat>, end: Option<nat>, text: string)
      modifies this`form, this`caret
      ensures !mounted ==> form == old(form) && caret == old(caret)
      ensures mounted ==>
        var s := Pos(start, old(form.content));
        && form == old(form).(content := Spliced(old(form.content), s, Pos(end, old(form.content)), text))
        && caret == Some(s + |text|)
    {
      if !mounted {
        return;
      }
      var s := Pos(start, form.content);
      var e := Pos(end, form.content);
      var before := Slice(form.content, 0, s);
      var after := Slice(form.content, e, |form.content|);
      form := form.(content := before + text + after);
      caret := Some(s + |text|);
    }

    /** `applyWrap`: the selection is put between the tags and the caret is
      * placed after the closing tag, or between the tags when nothing was
      * selected. */
    method ApplyWrap(mounted: bool, start: Option<nat>, end: Option<nat>, open: string, close: string)
      modifies this`form, this`caret
      ensures !mounted ==> form == old(form) && caret == old(caret)
      ensures mounted ==>
        var c := old(form.content);
        && form == old(form).(content := Wrapped(c, Pos(start, c), Pos(end, c), open, close))
        && caret == Some(WrapCaret(c, Pos(start, c), Pos(end, c), open, close))
    {
      if !mounted {
        return;
      }
      var c := form.content;
      var s := Pos(start, c);
      var e := Pos(end, c);
      var before := Slice(c, 0, s);
      var selected := Slice(c, s, e);
      var after := Slice(c, e, |c|);
      form := form.(content := before + (open + selected + close) + after);
      caret := Some(if selected != [] then s + |open| + |selected| + |close| else s + |open|);
    }

    /** Typing in the caption field un-saves the caption. */
    method EditCaption(text: string)
      modifies this`imageCaption, this`isImageCaptionSaved
      ensures imageCaption == text && !isImageCaptionSaved
    {
      imageCaption := text;
      isImageCaptionSaved := false;
    }

    /** The caption's save button: the caption is stored trimmed, and counts
      * as saved exactly when that leaves something. */
    method SaveCaption()
      modifies this`savedImageCaption, this`isImageCaptionSaved
      ensures savedImageCaption == Trim(imageCaption)
      ensures isImageCaptionSaved <==> Trim(imageCaption) != []
    {
      var next := Trim(imageCaption);
      savedImageCaption := next;
      isImageCaptionSaved := next != [];
    }

    /** The caption an inline image gets: the saved one, trimmed, once saved. */
    function SavedCaption(): string
      reads this
    {
      if isImageCaptionSaved then Trim(savedImageCaption) else ""
    }

    /** The `setImageUrls` updater: the URL is appended unless it is there already. */
    method AddImageUrl(url: string)
      modifies this`imageUrls
      ensures imageUrls == if url in old(imageUrls) then old(imageUrls) else old(imageUrls) + [url]
      ensures Distinct(old(imageUrls)) ==> Distinct(imageUrls)
    {
      if url !in imageUrls {
        if Distinct(imageUrls) {
          AppendDistinct(imageUrls, url);
        }
        imageUrls := imageUrls + [url];
      }
    }

    /** `handleInlineImageUpload`, given the upload's outcome: a new URL joins
      * `imageUrls`, and the image line, with the saved caption if there is
      * one, is inserted on its own line at the selection. */
    method InlineImageUpload(hasFile: bool, upload: Result<string, string>,
                             mounted: bool, start: Option<nat>, end: Option<nat>)
      modifies this`form, this`caret, this`imageUrls, this`error, this`isUploading, this`uploadProgress
      ensures !hasFile ==>
        && form == old(form) && caret == old(caret) && imageUrls == old(imageUrls)
        && error == old(error) && isUploading == old(isUploading) && uploadProgress == old(uploadProgress)
      ensures hasFile ==> !isUploading && uploadProgress == 0
      ensures hasFile && upload.Failure? ==>
        form == old(form) && caret == old(caret) && imageUrls == old(imageUrls) && error == UploadError
      ensures hasFile && upload.Success? ==>
        && imageUrls == (if upload.value in old(imageUrls) then old(imageUrls) else old(imageUrls) + [upload.value])
        && error == old(error)
      ensures hasFile && upload.Success? && mounted ==>
        var c := old(form.content);
        form.content == Spliced(c, Pos(start, c), Pos(end, c), OwnLine(ImageLine(upload.value, old(SavedCaption()))))
      ensures hasFile && upload.Success? && !mounted ==> form == old(form)
      ensures hasFile && Distinct(old(imageUrls)) ==> Distinct(imageUrls)
    {
      if !hasFile {
        return;
      }
      var caption := SavedCaption();
      isUploading := true;
      uploadProgress := 0;
      if upload.Success? {
        var url := upload.value;
        var text := OwnLine(ImageLine(url, caption));
        AddImageUrl(url);
        InsertAtCursor(mounted, start, end, text);
      } else {
        error := UploadError;
      }
      isUploading := false;
      uploadProgress := 0;
    }

    /** `handleEmbedInsert`, given the prompt's answer: a non-empty URL is
      * inserted as an embed line on its own line at the selection. */
    method EmbedInsert(answer: Option<string>, mounted: bool, start: Option<nat>, end: Option<nat>)
      modifies this`form, this`caret
      ensures answer.None? || answer.value == [] ==> form == old(form) && caret == old(caret)
      ensures answer.Some? && answer.value != [] && mounted ==>
        var c := old(form.content);
        form.content == Spliced(c, Pos(start, c), Pos(end, c), OwnLine(EmbedLine(answer.value)))
    {
      if answer.None? || answer.value == [] {
        return;
      }
      InsertAtCursor(mounted, start, end, OwnLine(EmbedLine(answer.value)));
    }

    /** `handleSubmit`, given the cover upload's outcome (none when no file was
      * chosen) and the save's error, if any. It returns the payload it saved;
      * a failed upload saves nothing. */
    method Submit(upload: Option<Result<string, string>>, saveError: Option<string>)
      returns (p: Option<Payload>)
      modifies this`error, this`loading, this`isUploading, this`uploadProgress
      ensures !loading
      ensures upload.Some? ==> !isUploading
      ensures upload.None? ==> isUploading == old(isUploading) && uploadProgress == old(uploadProgress)
      ensures p.None? <==> upload.Some? && upload.value.Failure?
      ensures p.None? ==> error == ErrorText(upload.value.error)
      ensures p.Some? ==>
        var cover := if upload.Some? then upload.value.value else old(form.coverImage);
        p.value == MakePayload(old(form), FinalImageUrls(old(imageUrls), cover), cover)
      ensures p.Some? && saveError.None? ==> error == []
      ensures p.Some? && saveError.Some? ==>
        error == ErrorText(saveError.value)
    {
      var f, urls := form, imageUrls;
      error := [];
      loading := true;
      var cover := f.coverImage;
      if upload.Some? {
        isUploading := true;
        uploadProgress := 0;
        if upload.value.Failure? {
          error := ErrorText(upload.value.error);
          isUploading := false;
          loading := false;
          return None;
        }
        cover := upload.value.value;
        isUploading := false;
      }
      var images := CollectImages(urls, cover);
      p := Some(MakePayload(f, images, cover));
      if saveError.Some? {
        error := ErrorText(saveError.value);
      }
      loading := false;
    }
  }
}
