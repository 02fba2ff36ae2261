# Quiet journal: a verified model of its core

This project is a Dafny model of the logic inside a small React/Firestore journal. That logic is:

- the **markup engine**, which turns the text of an entry into typed blocks and expands its inline bracket tags into escaped HTML;
- **media URL resolution**, which covers YouTube and Vimeo ids, media kinds, privacy-hardened embed URLs, bare upload names and the fallback image;
- **pagination**, which covers the ordered page query with its missing-index fallback and the home page's accumulating state;
- the **editor and admin operations**: tags, selection wrap and insert, the save payload, the dashboard filters and counters, the archive grouping, upload validation, hash normalisation, the theme and the route guard.

Each source file of the core has one module:

| file | module | source |
|---|---|---|
| `inline_markup.dfy` | `InlineMarkup` | `renderInline`, both copies |
| `entry.dfy` | `Entry` | the block mapping of `components/Entry.js` |
| `post_page.dfy` | `PostPage` | `pages/PostPage.js` |
| `media_utils.dfy` | `MediaUtils` | `utils/mediaUtils.js` |
| `media_card.dfy` | `MediaCard` | `components/MediaCard.js` |
| `journal_service.dfy` | `JournalService` | `services/journalService.js` |
| `journal_home.dfy` | `JournalHome` | `pages/JournalHome.js` |
| `post_editor.dfy` | `PostEditor` | `components/PostEditor.js` |
| `admin_dashboard.dfy` | `AdminDashboard` | `pages/AdminDashboard.js` |
| `archive_sidebar.dfy` | `ArchiveSidebar` | `components/ArchiveSidebar.js` |
| `cloudinary_upload.dfy` | `CloudinaryUpload` | `services/cloudinaryUpload.js` |
| `app.dfy` | `App` | `App.js` |

A few helper modules sit under them:

- `wrappers.dfy`: `Option`, `Result`.
- `text.dfy`: the JavaScript string primitives the code relies on. These are `trim` and the `\s` class, `split`, `startsWith` and `includes`, `toLowerCase` on ASCII, the `i` flag, `slice` with its clamping, `indexOf`, and decimal digits.
- `seqs.dfy`: `filter`, `[...new Set(s)]` and strictly descending lists.
- `posts.dfy`: the fields of a stored post the admin views read.

## How the model is built

- **Regular expressions.** Each one is modelled by hand as a matcher for that one pattern. Where the pattern can match in more than one way, a lemma proves that the matcher picks the split the regular-expression engine picks. Examples are `Entry.CaptureSpanIsRegexMatch` for `\s*(.+?)\s*` and `PostPage.ListSpanIsRegexMatch` for the list pattern.
- **Global replacements.** A global `replace` is a left-to-right scan that resumes after each match (`InlineMarkup.Rewrite`). `renderInline` is the chain of its ten replacements after escaping (`InlineMarkup.Chain`).
- **The two `renderInline` copies.** They share one chain, parameterised by font policy. `Entry.js` keeps a font only when it is on the whitelist; `PostPage.js` keeps any font.
- **As written and corrected.** The renderer and the block models it feeds take a flag `strict`. With `strict` false they compute what the code computes. With `strict` true a captured tag value may hold no markup, which is the correction of the finding below.
- **State-changing code becomes classes.** The state the source changes in place becomes fields with `modifies` clauses:
  - the media card's `safeSrc`;
  - the home page's posts, cursor and flags;
  - the editor's form, tag input, image list and caption flags;
  - the dashboard's filters and filtered list;
  - the theme with its document attribute and stored value.
- **Loops become methods.** These are the list parser, the accumulation into a `Set`, the archive's `reduce` and the year sort. Each has loop invariants and an `ensures` tying it to a specification function (`PostPage.ParseContentBlocks`, `PostEditor.CollectImages`, `ArchiveSidebar.GroupPosts`, `ArchiveSidebar.SortYears`).
- **Parameters stand in for the outside world:**
  - the document store is a function from a query to the documents or the error it reports;
  - the signed-in user and the store's configuration are a `Firebase` value;
  - the year and month of a timestamp are functions passed in;
  - the environment variables are a map;
  - the outcomes of an upload, of the embed prompt and of a save are passed in;
  - the textarea's selection is passed in, with `mounted` saying whether the textarea exists.

## Behaviour of the code worth knowing

- **The index fallback is tried on every call.** `getEntriesPage` and `getPublicEntriesPage` keep no flag: every call sends the ordered query first, and only a missing-index error makes it send the unordered one (`frontend/src/services/journalService.js:121-142`). `JournalService.PagedQuery` models that.
- **A failed retry reaches the caller.** When the unordered query fails too, the error of the second `getDocs`, inside the `catch` block, propagates to the caller (`frontend/src/services/journalService.js:138`).
- **The list bullet class is mojibake.** The class in `frontend/src/pages/PostPage.js:76` is `[-*â€¢]`, which accepts `-`, `*`, `â`, `€` and `¢`, and not `•`.
- **List items may be empty.** The list pattern's last group is `(.*)` (`frontend/src/pages/PostPage.js:76`), so an item can have empty text.
- **Only one renderer has a font whitelist.** `frontend/src/components/Entry.js:40-46` keeps a font only when it is on the whitelist. `frontend/src/pages/PostPage.js:49-52` keeps any font.
- **Pages are appended as they come.** `frontend/src/pages/JournalHome.js:53` appends each later page to the posts without removing duplicates.
- **Nested valued tags escape the style attribute.** In `frontend/src/components/Entry.js:29-32`, a valued tag can capture markup that an earlier step inserted (see "Findings").

## Model

| member | source | states |
|---|---|---|
| InlineMarkup.EscapeHtmlByCharacter | frontend/src/components/Entry.js:12-19 | Because `&` is replaced first, the five chained replacements act one character at a time: each character becomes its own reference, or itself. |
| InlineMarkup.EscapeHtmlRemovesMarkup | frontend/src/components/Entry.js:12-19 | Escaped text contains no `<`, `>`, `"` or `'`. |
| InlineMarkup.EscapeRoundTrip | frontend/src/components/Entry.js:12-19 | Decoding the five references gives back the original text. |
| InlineMarkup.EscapeHtmlIdentity | frontend/src/components/Entry.js:12-19 | Text without any of the five characters is left unchanged. |
| InlineMarkup.DigitsAndDots | frontend/src/components/Entry.js:35 | `replace(/[^\d.]/g, '')` keeps only digits and dots. |
| InlineMarkup.ValuedMatch | frontend/src/components/Entry.js:24 | `\[name=([^\]]+)\]` matches `P V]` for a non-empty `V` without `]`, and captures `V`. The corrected matcher also requires `V` to be free of markup. |
| InlineMarkup.ValuedRewrite | frontend/src/components/Entry.js:24-27 | A global replace turns `P V]` followed by text without `[` into the tag's HTML followed by that text. |
| InlineMarkup.LiteralAlone | frontend/src/components/Entry.js:23 | A fixed tag matched case-insensitively is replaced by its HTML. |
| InlineMarkup.UnderlineOpenAlone | frontend/src/components/Entry.js:23 | Tags ignore case: `[U]` alone renders as `<u>`, as written and corrected alike. |
| InlineMarkup.UnderlineCloseAlone | frontend/src/components/Entry.js:23 | A closing tag is replaced with no opening tag before it, so tags are not balanced. This holds as written and corrected alike. |
| InlineMarkup.ValuedTagRendered | frontend/src/components/Entry.js:24-47 | An opening tag with a plain value, alone in the text, renders as the HTML of its own step in the chain. This holds for the code as written and for the corrected capture. |
| InlineMarkup.SizeTagRendered | frontend/src/components/Entry.js:34-38 | `[size=V]` sets `font-size:` to the digits and dots of trimmed V followed by `px`, or to `inherit` when V has none. This holds as written and corrected alike. |
| InlineMarkup.FontTagRendered | frontend/src/components/Entry.js:40-46 | Under the whitelist, `[font=X]` keeps trimmed X only when it is EB Garamond, Newsreader or Inter, and otherwise opens a bare `<span>`. Under the `PostPage.js` copy (`pages/PostPage.js:49-52`, policy `AnyFont`), `font-family:` is always set to trimmed X. This holds as written and corrected alike. |
| InlineMarkup.RewriteKeepsSanitized | frontend/src/components/Entry.js:23-47 | Every replacement step of the corrected chain keeps a sanitised fragment sanitised. |
| InlineMarkup.ChainKeepsSanitized | frontend/src/components/Entry.js:23-47 | The corrected chain of bracketed rules keeps a sanitised fragment sanitised. |
| InlineMarkup.RenderInlineSanitized | frontend/src/components/Entry.js:21-49 | The corrected renderer (`strict` true) is always sanitised, for every input and both font policies. Its output is escaped text plus `<u>`, `</u>`, `<span>`, `</span>` and `<span style="V">`, where V holds no `<`, `>`, `"` or `]`. The same holds for the `PostPage.js` copy (`pages/PostPage.js:22-55`). The code as written does not have this property (see Findings). |
| InlineMarkup.StrictRefusesMarkup | frontend/src/components/Entry.js:24 | The corrected matcher refuses a captured value that contains markup. |
| InlineMarkup.OuterTagRefused | frontend/src/components/Entry.js:29-32 | The corrected chain leaves a valued tag whose value holds markup as text. |
| InlineMarkup.OuterTagCaptured | frontend/src/components/Entry.js:29-32 | As written, a valued tag captures its whole value, markup included. |
| InlineMarkup.StyledMarkupNotSanitized | frontend/src/components/Entry.js:31 | A style attribute whose value starts with `<` is not a sanitised fragment. |
| InlineMarkup.NestedValueCapture | frontend/src/components/Entry.js:24-33 | The finding. For `[color=[mark=V]]`, the code as written puts the whole inserted mark tag inside the colour's style attribute, and the result is not sanitised. The corrected chain keeps `[color=` as text. |
| Entry.CaptureSpanIsRegexMatch | frontend/src/components/Entry.js:54 | The capture of `\s*(.+?)\s*` is found exactly when a split exists. It is the split with the longest leading space and the shortest lazy group. |
| Entry.DirectivePayload | frontend/src/components/Entry.js:54 | A payload means the line starts with the directive name, ignoring case, and ends with `]`. The payload is what the pattern captures between them. |
| Entry.AlignWord | frontend/src/components/Entry.js:72 | The word after `[align=` is `left`, `center` or `right`, matched ignoring case. |
| Entry.AlignMatch | frontend/src/components/Entry.js:72-76 | A match yields one of the three lower-case words and a body without line terminators. |
| Entry.AlignMatchRoundTrip | frontend/src/components/Entry.js:72-79 | `[align=W]BODY[/align]` gives back W and BODY. |
| Entry.NonBlankIsTrimmed | frontend/src/components/Entry.js:51 | A line is kept exactly when `trim()` leaves something. |
| Entry.EntryBlocksLine | frontend/src/components/Entry.js:51-52 | The first line gives one block when it is not blank and none when it is, followed by the blocks of the rest. |
| Entry.EntryBlocksConcat | frontend/src/components/Entry.js:51-52 | The blocks of `a\nb` are the blocks of `a`, then the blocks of `b`. |
| Entry.EntryBlocksSingle | frontend/src/components/Entry.js:51-52 | One line gives one block exactly when it is not blank. |
| Entry.MapNonBlankFrom | frontend/src/components/Entry.js:51-52 | Every block comes from a non-blank line. |
| Entry.LineBlockImage | frontend/src/components/Entry.js:54-63 | The image directive is tried first and decides the block. |
| Entry.LineBlockVideo | frontend/src/components/Entry.js:64-67 | Without an image match, a video directive gives a video block of its payload. |
| Entry.LineBlockEmbed | frontend/src/components/Entry.js:68-71 | Without image and video matches, an embed directive gives an embed block. |
| Entry.PlainLine | frontend/src/components/Entry.js:81 | A line whose trimmed form does not open with `[` becomes an unaligned text block. That block is `renderInline` of the untrimmed line, as written or corrected according to `strict`. |
| Entry.ImageFieldsSourceOnly | frontend/src/components/Entry.js:56-60 | A payload without `|` is all source, trimmed, with an empty caption. |
| Entry.ImageFieldsCaption | frontend/src/components/Entry.js:56-60 | The source is trimmed part 1 and the caption is trimmed part 2. |
| Entry.ImageFieldsExtra | frontend/src/components/Entry.js:56 | Parts after the second are dropped. |
| Entry.LineBlockSanitized | frontend/src/components/Entry.js:72-81 | With the corrected renderer, the HTML of every text block is sanitised. |
| Entry.EntryBlocksSanitized | frontend/src/components/Entry.js:51-82 | With the corrected renderer, every text block of an entry is sanitised. |
| Entry.NestedLineBlock | frontend/src/components/Entry.js:29-32 | The finding at entry level. As written, the line `[color=[mark=V]]` becomes a text block whose HTML puts the inserted mark tag inside a style attribute, which is not sanitised. With the corrected renderer the same line is a text block of sanitised HTML. |
| Entry.LineBlockUnaligned | frontend/src/components/Entry.js:54-81 | A line whose trimmed form is no image, video or embed directive and no alignment becomes an unaligned text block of the whole line. |
| Entry.UntaggedLine | frontend/src/components/Entry.js:54-81 | A line starting `[c` with no space at its ends matches no directive and no alignment, so it is such a text block. |
| PostPage.BuildAbsoluteUrl | frontend/src/pages/PostPage.js:11-20 | Empty input gives nothing. A URL starting with `//` gets `https:` in front. Anything else is unchanged. |
| PostPage.AbsoluteUrlKept | frontend/src/pages/PostPage.js:13-15 | A URL starting with `http://` or `https://`, in any case, is kept. |
| PostPage.ProtocolRelativeUrl | frontend/src/pages/PostPage.js:16-19 | A protocol-relative URL gets the `https:` scheme, and no other URL changes. |
| PostPage.BuildAbsoluteUrlIdempotent | frontend/src/pages/PostPage.js:11-20 | Making a URL absolute twice is the same as doing it once. |
| PostPage.ShareImage | frontend/src/pages/PostPage.js:167-168 | With neither an image URL nor media, the share image is the site's fallback image. |
| PostPage.TitleSize | frontend/src/pages/PostPage.js:213-216 | A finite value is clamped to [20, 56]: unchanged inside, 20 below, 56 above. A value that is not a finite number gives no size. |
| PostPage.TitleSizeIdempotent | frontend/src/pages/PostPage.js:213-216 | Clamping a clamped size changes nothing. |
| PostPage.FirstNonEmpty | frontend/src/pages/PostPage.js:170 | `find(Boolean)` returns the first non-empty line: it is non-empty, sits at some index k, and every line before k is empty. It returns nothing exactly when every line is empty. |
| PostPage.Description | frontend/src/pages/PostPage.js:170 | The description is at most 180 characters long. |
| PostPage.DescriptionFirstLine | frontend/src/pages/PostPage.js:170 | Content opening with a non-empty line is described by that line cut to 180. |
| PostPage.DescriptionSkipsEmpty | frontend/src/pages/PostPage.js:170 | An empty first line is skipped. |
| PostPage.DescriptionEmpty | frontend/src/pages/PostPage.js:170 | Empty content gets the default sentence. |
| PostPage.ListSpanIsRegexMatch | frontend/src/pages/PostPage.js:76 | The list matcher finds a split exactly when `^(\s*)([-*â€¢]\|\d+\.)\s+(.*)$` matches. Every split has the leading space and the marker it finds. |
| PostPage.ListSplitForced | frontend/src/pages/PostPage.js:76 | Any split fixes the leading white space and the marker. |
| PostPage.ListMatch | frontend/src/pages/PostPage.js:76-80 | A line is a list line exactly when the pattern can match it. |
| PostPage.ListMatchOfSplit | frontend/src/pages/PostPage.js:76-80 | The indent is half the leading white space, rounded down. The list is ordered exactly when the marker opens with a digit. The text is what follows the longest run of white space. |
| PostPage.CarriageReturnIsNoListLine | frontend/src/pages/PostPage.js:76 | `- item\r`, a line left by `\r\n` line ends, is not a list line. |
| PostPage.Flush | frontend/src/pages/PostPage.js:62-67 | After `flushList`, no list is open. |
| PostPage.FlushList | frontend/src/pages/PostPage.js:62-67 | The closure on the two variables does what `Flush` does. |
| PostPage.StepLine | frontend/src/pages/PostPage.js:69-107 | The loop body on the two variables does one `Step`. |
| PostPage.ParseContentBlocks | frontend/src/pages/PostPage.js:57-111 | The imperative parser with its final flush returns `PageBlocks(content, strict)`. With `strict` false this is the code as written. |
| PostPage.AssembleKeepsLines | frontend/src/pages/PostPage.js:85-89 | The page holds every list item and every text line, each in input order, with nothing lost and nothing duplicated. |
| PostPage.AssembleWellFormed | frontend/src/pages/PostPage.js:81-89 | No list block is empty. |
| PostPage.RunIsOneList | frontend/src/pages/PostPage.js:80-89 | Consecutive list lines of one kind make one list block. |
| PostPage.KindChangeSeparates | frontend/src/pages/PostPage.js:81-84 | A list line of the other kind closes the open list and starts a new one. |
| PostPage.BlankSeparates | frontend/src/pages/PostPage.js:71-74 | A blank line ends the open list: the lines before and after it are laid out independently. |
| PostPage.TextSeparates | frontend/src/pages/PostPage.js:93-106 | A text line flushes the open list and stands as its own block. |
| PostPage.PageBlocksSanitized | frontend/src/pages/PostPage.js:57-111 | With the corrected renderer, every block of a rendered post, list items included, is sanitised. |
| MediaUtils.Leftmost | frontend/src/utils/mediaUtils.js:17 | `url.match` finds the leftmost position where an alternative matches, taking the first alternative that matches there. It finds nothing exactly when nothing matches. |
| MediaUtils.Capture | frontend/src/utils/mediaUtils.js:17-18 | A capture exists exactly when some marker matches. It is a non-empty run of the id class. |
| MediaUtils.YouTubeId | frontend/src/utils/mediaUtils.js:8-22 | Empty input gives nothing. The watch and short-link pattern wins whenever it matches. The id is a non-empty run of characters other than `& \n ? #`. |
| MediaUtils.VimeoId | frontend/src/utils/mediaUtils.js:27-41 | Empty input gives nothing, and an id is a non-empty run of digits. |
| MediaUtils.NoYouTubeWithoutY | frontend/src/utils/mediaUtils.js:11-14 | A URL without `y` has no YouTube id. |
| MediaUtils.ShortLinkId | frontend/src/utils/mediaUtils.js:12 | `https://youtu.be/ID` gives ID. |
| MediaUtils.WatchLinkId | frontend/src/utils/mediaUtils.js:12 | `https://www.youtube.com/watch?v=ID` gives ID. |
| MediaUtils.EmbedLinkId | frontend/src/utils/mediaUtils.js:13-18 | `https://www.youtube.com/embed/ID` gives ID through the second pattern, when ID has no `/`. |
| MediaUtils.VimeoLinkId | frontend/src/utils/mediaUtils.js:31 | `https://vimeo.com/N` gives N. |
| MediaUtils.PlayerLinkId | frontend/src/utils/mediaUtils.js:31-37 | `https://player.vimeo.com/video/N` gives N. |
| MediaUtils.MediaTypeOf | frontend/src/utils/mediaUtils.js:46-51 | Empty input gives nothing. The type is `youtube` exactly when there is a YouTube id. It is `vimeo` exactly when there is a Vimeo id and no YouTube id. |
| MediaUtils.FileMediaType | frontend/src/utils/mediaUtils.js:52-59 | Without a platform id, the last extension lower-cased gives `video` for mp4/webm/ogg/mov, `image` for jpg/jpeg/png/gif/webp/svg, and nothing otherwise. |
| MediaUtils.EmbedUrl | frontend/src/utils/mediaUtils.js:65-77 | There is an embed URL exactly when the type is `youtube` or `vimeo`. It is the privacy-enhanced YouTube player or the Vimeo player. |
| MediaUtils.ShortLinkEmbed | frontend/src/utils/mediaUtils.js:66-70 | The embed URL of a short link is the exact `youtube-nocookie.com` URL with its nine query parameters. |
| MediaUtils.VimeoLinkEmbed | frontend/src/utils/mediaUtils.js:72-75 | The embed URL of a Vimeo link is the exact player URL with its seven query parameters. |
| MediaCard.ResolveSrc | frontend/src/components/MediaCard.js:13-32 | The stored source is never empty and never a bare name, so the card always has a loadable path or URL. A non-empty src is kept whole at its end. An empty src gives the fallback, a bare name goes under `/uploads/`, and anything else is unchanged. |
| MediaCard.ResolveSrcIdempotent | frontend/src/components/MediaCard.js:22-29 | A resolved source is no bare name, so resolving again keeps it. |
| MediaCard.RenderMedia | frontend/src/components/MediaCard.js:46-73 | An iframe exactly when there is an embed URL, titled by alt or `Embedded video`. A video player exactly when the type is `video`. Otherwise an image of `safeSrc`. |
| MediaCard.BareImageName | frontend/src/components/MediaCard.js:23-29 | An uploaded image named by its bare file name loads from `/uploads/` and is drawn as an image. |
| MediaCard.Card.constructor | frontend/src/components/MediaCard.js:11 | `safeSrc` starts empty. |
| MediaCard.Card.Resolve | frontend/src/components/MediaCard.js:13-32 | The effect stores `ResolveSrc(src)`. |
| MediaCard.Card.HandleError | frontend/src/components/MediaCard.js:39-44 | Afterwards `safeSrc` is the fallback. The state changes exactly when it was not the fallback already. |
| MediaCard.Card.HandleErrorTwice | frontend/src/components/MediaCard.js:39-44 | A second failure changes nothing: the fallback is swapped in at most once. |
| MediaCard.Card.Rendered | frontend/src/components/MediaCard.js:34-79 | Nothing is drawn for an empty src. Otherwise the media follows `renderMedia`, and there is a caption exactly when the caption is non-empty. |
| JournalService.ToDate | frontend/src/services/journalService.js:41-42 | Only a stored timestamp converts to a date; anything else is null. |
| JournalService.Normalize | frontend/src/services/journalService.js:39-52 | `_id` and `id` are the snapshot id unless the data has them. Every other stored field is kept. `createdAt` and `updatedAt` are converted, and `date` follows its fallback chain. |
| JournalService.DateFallsBack | frontend/src/services/journalService.js:43 | An entry without a usable `date` is dated by its creation time. |
| JournalService.NormalizedTimes | frontend/src/services/journalService.js:41-50 | No raw timestamp survives in the three managed fields. |
| JournalService.IndexPatternIsContains | frontend/src/services/journalService.js:57 | `/requires an index\|index/i` matches exactly when the message contains `index` in any ASCII case. |
| JournalService.MissingIndexErrorIff | frontend/src/services/journalService.js:54-58 | True exactly when the code (else the name) is `failed-precondition` and the message contains `index`. |
| JournalService.EnsureUser | frontend/src/services/journalService.js:30-37 | The configuration is checked first, then the user. It succeeds with the user exactly when both are present. |
| JournalService.GuardsInOrder | frontend/src/services/journalService.js:19-37 | `ensureUser` runs the configuration check of `ensureFirebase` first. Without configuration both fail with the same error. A user passes only where the store does, and a configured store without a user fails with the sign-in error. |
| JournalService.PageOf | frontend/src/services/journalService.js:127-129 | The entries are the normalised documents in order. `lastDoc` is the last document, and is null exactly when the page is empty. |
| JournalService.ScopeKept | frontend/src/services/journalService.js:122 | Normalisation keeps the fields the scope filter reads. |
| JournalService.PagedQuery | frontend/src/services/journalService.js:121-142 | The ordered query is sent first, with the scope, limit and cursor. Only a missing-index error makes it resend the same query unordered; any other error is returned unchanged. If the store honours its queries, a page holds at most `pageSize` entries, all in scope. |
| JournalService.EntriesPage | frontend/src/services/journalService.js:118-143 | No query is sent exactly when `ensureUser` fails, and then its error is the result. Otherwise the first query is the owner's ordered query for the user `ensureUser` returned. A page from an honouring store has at most `size` of the owner's entries. |
| JournalService.PublicEntriesPage | frontend/src/services/journalService.js:153-178 | No query is sent exactly when `ensureFirebase` fails, and then its error is the result. Otherwise the first query is the published ordered query, signed in or not. A page from an honouring store has at most `size` published entries. |
| JournalService.PublicEntryById | frontend/src/services/journalService.js:108-116 | A missing or unpublished document reads as none. A published one is its normalised entry. |
| JournalHome.Home.constructor | frontend/src/pages/JournalHome.js:9-13 | No posts, not loading, initial load, no cursor, more to come. |
| JournalHome.Home.FetchPosts | frontend/src/pages/JournalHome.js:48-62 | The owner query for a user and the public one otherwise, with page size 5 and the given cursor. On success a first page replaces the posts and a later page is appended, `lastDoc` is the page cursor and `hasMore` is `length == 5`. A failure leaves everything but `isLoading`. |
| JournalHome.Home.Reset | frontend/src/pages/JournalHome.js:64-71 | Nothing while authentication loads. Otherwise the state is reset and the first page fetched. |
| JournalHome.Home.LoadMore | frontend/src/pages/JournalHome.js:102-105 | Nothing happens unless `hasMore` holds and no fetch is loading. Otherwise one fetch runs with page size 5, the right scope and the cursor `lastDoc` had before the click. On success a later page is appended and `lastDoc` and `hasMore` follow the page. On failure the posts, cursor and flags are as before. |
| PostEditor.Without | frontend/src/components/PostEditor.js:69 | The removed tag is gone. |
| PostEditor.WithoutCounts | frontend/src/components/PostEditor.js:69 | Every other tag keeps all its copies. |
| PostEditor.WithoutAppend | frontend/src/components/PostEditor.js:69 | Removal works piecewise, so the remaining tags keep their order. |
| PostEditor.WithoutAbsent | frontend/src/components/PostEditor.js:66-71 | Removing an absent tag changes nothing. |
| PostEditor.CollectImages | frontend/src/components/PostEditor.js:101-105 | The loop filling the `Set` gives the inline URLs and then the cover, each once, in first-occurrence order. |
| PostEditor.PayloadRules | frontend/src/components/PostEditor.js:107-123 | A trimmed YouTube URL makes a video post and is its media. Else a cover makes an image post. Else the post is a story with no media. An empty mood becomes null, and the other fields are copied. |
| PostEditor.ErrorText | frontend/src/components/PostEditor.js:136 | The error's message, or `Error saving post` when it has none. |
| PostEditor.SplicedParts | frontend/src/components/PostEditor.js:179-181 | The splice keeps what is before and after the selection, with the text between them. |
| PostEditor.SplicedAtEnd | frontend/src/components/PostEditor.js:177-181 | A selection past the end appends the text. |
| PostEditor.WrapParts | frontend/src/components/PostEditor.js:147-157 | The result is before + open + selected + close + after. The caret follows the closing tag when something was selected, and the opening tag otherwise. |
| PostEditor.ImageLineParses | frontend/src/components/PostEditor.js:201-203 | `[image: URL]` or `[image: URL \| CAPTION]` parses back to URL and CAPTION, when neither has `\|` or line breaks and both are trimmed. |
| PostEditor.EmbedLineParses | frontend/src/components/PostEditor.js:216 | `[embed: URL]` parses back to URL. |
| PostEditor.InsertedLineBlocks | frontend/src/components/PostEditor.js:174-188 | A line inserted on its own line adds exactly its block between the blocks before and after the selection. |
| PostEditor.ImageInsertBlocks | frontend/src/components/PostEditor.js:200-203 | The inline upload adds one image block with the URL and the caption. |
| PostEditor.EmbedInsertBlocks | frontend/src/components/PostEditor.js:213-217 | The embed insert adds one embed block with the URL. |
| PostEditor.Editor.constructor | frontend/src/components/PostEditor.js:6-31 | The initial form and flags. |
| PostEditor.Editor.AddTag | frontend/src/components/PostEditor.js:56-64 | The trimmed input is appended and the input cleared exactly when it is non-empty and absent; otherwise nothing changes. Tags stay duplicate-free. |
| PostEditor.Editor.RemoveTag | frontend/src/components/PostEditor.js:66-71 | The tags become `Without(tags, tag)`, and nothing else changes. |
| PostEditor.Editor.InsertAtCursor | frontend/src/components/PostEditor.js:174-188 | The selection is replaced by the text, with a missing bound defaulting to the content length. The caret is at start + length of the text. Nothing happens without a textarea. |
| PostEditor.Editor.ApplyWrap | frontend/src/components/PostEditor.js:142-158 | The content becomes `Wrapped` and the caret `WrapCaret`. Nothing happens without a textarea. |
| PostEditor.Editor.EditCaption | frontend/src/components/PostEditor.js:467-471 | Typing un-saves the caption. |
| PostEditor.Editor.SaveCaption | frontend/src/components/PostEditor.js:477-481 | The caption is stored trimmed, and counts as saved exactly when that leaves something. |
| PostEditor.Editor.InlineImageUpload | frontend/src/components/PostEditor.js:190-211 | A new URL joins `imageUrls` only if absent, and the list stays duplicate-free. The image line with the saved caption is inserted on its own line. A failed upload only sets the error. The upload flags reset in every case. |
| PostEditor.Editor.EmbedInsert | frontend/src/components/PostEditor.js:213-217 | Only a non-empty answer inserts `[embed: URL]` on its own line. |
| PostEditor.Editor.Submit | frontend/src/components/PostEditor.js:82-140 | A failed cover upload saves nothing and shows its message. Otherwise the payload of the form, deduplicated images and cover is saved. |
| AdminDashboard.DecimalValue | frontend/src/pages/AdminDashboard.js:302-304 | A year option's value, `String(y)` for y >= 0, is a string of decimal digits that reads back as y. |
| AdminDashboard.ParseDigits | frontend/src/pages/AdminDashboard.js:88 | `parseInt` reads a digit string in base 10 and in full. |
| AdminDashboard.NegatedParse | frontend/src/pages/AdminDashboard.js:88 | A leading minus negates the value. |
| AdminDashboard.ParseYearText | frontend/src/pages/AdminDashboard.js:88 | `parseInt(String(y)) == y` for every integer year, so a year chosen in the menu filters by that year. |
| AdminDashboard.YearMenuFilter | frontend/src/pages/AdminDashboard.js:86-90 | With the year field set to `String(y)`, the year step keeps exactly the posts filed under y. |
| AdminDashboard.FilteredMembers | frontend/src/pages/AdminDashboard.js:84-111 | A post is shown exactly when it is in `posts` and passes every non-empty filter (year, month, title, mood). |
| AdminDashboard.FilteredInOrder | frontend/src/pages/AdminDashboard.js:84-111 | Filtering works piecewise, so the shown list is an order-preserving subsequence. |
| AdminDashboard.NoFiltersShowAll | frontend/src/pages/AdminDashboard.js:84-111 | With every field empty, every post is shown. |
| AdminDashboard.Dashboard.constructor | frontend/src/pages/AdminDashboard.js:26-31 | The filters start empty. |
| AdminDashboard.Dashboard.SetFilter | frontend/src/pages/AdminDashboard.js:138-140 | One field takes the value, and the others are kept. |
| AdminDashboard.Dashboard.ClearFilters | frontend/src/pages/AdminDashboard.js:142-144 | All four fields become empty. |
| AdminDashboard.Dashboard.ApplyFilters | frontend/src/pages/AdminDashboard.js:84-112 | The step-by-step narrowing gives `FilteredPosts(posts, filters)`. |
| AdminDashboard.UniqueYears | frontend/src/pages/AdminDashboard.js:146-149 | The years are strictly descending, so duplicate-free. Every post's year is listed, and only those years. |
| AdminDashboard.CountsAddUp | frontend/src/pages/AdminDashboard.js:220-222 | Published plus drafts is the number of posts, and posts with media are at most all the posts. |
| ArchiveSidebar.ListedMonth | frontend/src/components/ArchiveSidebar.js:9-11 | A month is listed under a year exactly when it has entries there. |
| ArchiveSidebar.GroupPosts | frontend/src/components/ArchiveSidebar.js:6-14 | The `reduce` groups every post under its year and month. Years have entries. A year's months are the distinct month names in order of first appearance. A month's posts are that month's posts in input order. |
| ArchiveSidebar.SortYears | frontend/src/components/ArchiveSidebar.js:16 | The keys sorted strictly descending, with the same members. |
| ArchiveSidebar.Archive | frontend/src/components/ArchiveSidebar.js:4-37 | Nothing exactly when posts are absent or empty. Otherwise the rows list the years latest first, each with its months in first-appearance order and their posts in input order. |
| ArchiveSidebar.RowsArchived | frontend/src/components/ArchiveSidebar.js:29-37 | The rows built from the grouping and its sorted years have those properties. |
| ArchiveSidebar.EachPostListed | frontend/src/components/ArchiveSidebar.js:6-14 | Every post is listed under some year and month. |
| ArchiveSidebar.EachPostOnce | frontend/src/components/ArchiveSidebar.js:6-14 | No post is listed in two places. |
| ArchiveSidebar.MonthKeepsOrder | frontend/src/components/ArchiveSidebar.js:12 | A month's posts keep input order. |
| CloudinaryUpload.Message | frontend/src/services/cloudinaryUpload.js:24-68 | Each failure has a non-empty message. A rejection reads `Upload failed: ` plus the status text. |
| CloudinaryUpload.Validate | frontend/src/services/cloudinaryUpload.js:24-34 | A missing file is rejected first. Then a type outside jpeg/png/webp is rejected, before the size is looked at. Then a size above 5242880 is rejected. It succeeds exactly when the type is allowed and the size is at most the limit. |
| CloudinaryUpload.SizeBoundary | frontend/src/services/cloudinaryUpload.js:3 | Exactly 5 MiB passes and one byte more does not. |
| CloudinaryUpload.GetConfig | frontend/src/services/cloudinaryUpload.js:6-19 | The `REACT_APP_` value wins over `NEXT_PUBLIC_`. It fails exactly when the cloud name or the preset is missing. |
| CloudinaryUpload.Prepare | frontend/src/services/cloudinaryUpload.js:21-48 | Validation runs before the configuration. The request goes to `https://api.cloudinary.com/v1_1/CLOUD/upload` with the preset and the folder (`journal-images` by default). |
| CloudinaryUpload.RoundedPercent | frontend/src/services/cloudinaryUpload.js:55 | `Math.round(loaded / total * 100)` as an exact rational, rounded half up. A zero total gives NaN (0/0) or Infinity. |
| CloudinaryUpload.OnProgress | frontend/src/services/cloudinaryUpload.js:53-57 | The callback runs exactly when the length is computable and a callback was given. While no more than the whole is sent, it hears a whole percentage between 0 and 100. |
| CloudinaryUpload.PercentBounds | frontend/src/services/cloudinaryUpload.js:55 | With `0 <= loaded <= total` and `total > 0`, the percent is in 0..100: 0 at 0 and 100 at the total. |
| CloudinaryUpload.PercentMonotone | frontend/src/services/cloudinaryUpload.js:55 | More bytes loaded never lowers the percent. |
| CloudinaryUpload.Settle | frontend/src/services/cloudinaryUpload.js:59-68 | Resolves with `secure_url` exactly when the status is in [200, 300). Otherwise it rejects naming the status text, or the status code when there is no text. A network error rejects with its own message. |
| App.HashTargetSettles | frontend/src/App.js:25-34 | The hash is set only when none is present (empty, `#` or `#/`) and the path is neither empty nor `/`. What follows the new hash's `#` is the visited path and query, and the new hash counts as present, so the rule does not fire again. |
| App.Toggled | frontend/src/App.js:48-50 | The result is `light` or `dark` and always differs from the current theme. |
| App.ToggleTwice | frontend/src/App.js:48-50 | Toggling twice from `light` or `dark` is the identity. |
| App.Theme.constructor | frontend/src/App.js:38-41 | The state starts from the stored theme. |
| App.Theme.Apply | frontend/src/App.js:43-46 | The document attribute and the stored entry take the theme. |
| App.Theme.Toggle | frontend/src/App.js:48-50 | The theme toggles, and the effect syncs the attribute and the storage. |
| App.Reload | frontend/src/App.js:38-46 | The theme an application stored is the theme the next start reads back. |
| App.Guard | frontend/src/App.js:12-22 | The loader exactly while loading, whoever the user. Then the page exactly when there is a user, and otherwise a redirect to `/admin/login`. |
| App.PostId | frontend/src/App.js:67 | `/post/:id` has one non-empty segment without `/`. |
| App.OnlyLoginIsOpen | frontend/src/App.js:57-83 | Without a user, the login page is the only page shown, and every redirect leads to it. |
| App.SignedInSeesPages | frontend/src/App.js:57-83 | A signed-in user, once loading is over, sees a page on every route. |
| App.PostIdOf | frontend/src/App.js:67 | Every non-empty id without `/` is read back from its own `/post/:id` path. |
| App.SignedInSeesPost | frontend/src/App.js:57-83 | A signed-in user, once loading is over, sees the post page of every such id. |
| Seqs.Dedupe | frontend/src/components/PostEditor.js:101-105 | `[...new Set(s)]`: the same members, each once, in first-occurrence order. |
| Seqs.InsertDescending | frontend/src/pages/AdminDashboard.js:148 | Inserting into a strictly descending list keeps it strictly descending, adds the value and keeps every old member. |

## Left out

- **Rendering.** React rendering, JSX, `dangerouslySetInnerHTML` and the DOM are out: meta and canonical tags, `scrollIntoView`, click and keyboard listeners, focus handling. The model stops at the values these receive.
- **The Firestore SDK.** Query execution, `serverTimestamp`, `toDate()` and the CRUD calls (`createEntry`, `updateEntry`, `deleteEntry`, `getAllEntries`, `getEntryById`) are out. The store is a function from a query to its answer. `JournalService.PagedQuery` and the page methods state the page-size and scope bounds only for a store that honours its queries.
- **Cursor order.** The ordering of a store query is not modelled, beyond whether the query asks for it.
- **`quoteService.js`, `firebase.js`, `authService.js`, `useAuth.js`, the publish tool and the purely presentational components.** These are not part of this model.
- **Dates and locales.** `getFullYear`, `toLocaleString` month names and date-fns `format` are functions passed in. An invalid date (NaN year) is not modelled.
- **Floating point.** The `lineHeight` clamp is out. `PostPage.TitleSize` takes `Number(post.titleSize)` already read as a real, or none for a value that is not finite.
- **RoundedPercent.** It rounds the exact ratio; floating-point error in `loaded / total * 100` is not modelled.
- **The upload transport.** Image compression, the XHR mechanics and `JSON.parse` of the response are out. The outcome of the request is a parameter, with `secure_url` already read.
- **PostEditor.**
  - The effect that loads an existing post into the form (PostEditor.js:34-46), `handleChange` and `handleCoverFileChange` are left out: they copy fields.
  - The toolbar buttons (PostEditor.js:161-172) are the `open`/`close` arguments of `PostEditor.Editor.ApplyWrap`.
  - `PostEditor.Editor.Submit` returns the payload; which of `createEntry` and `updateEntry` receives it is not modelled, and neither is `onSave`.
- **AdminDashboard.** `fetchAllPosts` and the quote editor are left out. A post without a title would make the title filter throw (`post.title.toLowerCase()`); the model's title is always a string.
- **Routing.** React Router's case-insensitive and trailing-slash path matching is not modelled: `App.Route` compares paths exactly.
- **Concurrency.** Overlapping `fetchPosts` calls and the order in which asynchronous state updates land are not modelled. Each handler runs to completion.
- **Text.** `toLowerCase` is modelled on ASCII letters only, and `\s` is the fixed set of ECMAScript white space and line terminators. There is no Unicode case folding.
- **Object key order.** `Object.keys` lists integer keys in ascending order, but `ArchiveSidebar.GroupPosts` keeps them in insertion order. The difference is invisible once `ArchiveSidebar.SortYears` has sorted them.
- **PostPage.ShareImage.** Its contract states only the fallback case. The other cases are given by `PostPage.BuildAbsoluteUrl`.
- **PostPage.Description.** Its own contract bounds the length. Its value is stated by the three `Description…` lemmas.
- DescriptionFirstLine: the 180 limit counts characters (Unicode scalar values), not UTF-16 code units as JavaScript's `slice` does. A line with characters outside the Basic Multilingual Plane, such as emoji, is cut later in the model than in the code, and the code can split a surrogate pair.
- Description: its length bound is in characters, not UTF-16 code units, for the same reason.
- **Strings.** A string is a sequence of Unicode scalar values. Every length, index and slice in the model agrees with JavaScript only on text inside the Basic Multilingual Plane.

## Findings

| source | as written | input that shows it | evidently intended | confidence | as-written member | corrected member |
|---|---|---|---|---|---|---|
| frontend/src/components/Entry.js:29-32 (and frontend/src/pages/PostPage.js:38-41) | `[color=…]`, like the other valued tags, captures `[^\]]+` from the text that the earlier steps have already rewritten. That text can contain the `<span style="…">` an earlier `[mark=…]` step inserted. | `[color=[mark=V]]` | Captured values are user text, and no style attribute holds `<`, `>` or `"`: every `<` and `"` of the output belongs to a whitelisted tag. | not executed | InlineMarkup.NestedValueCapture | InlineMarkup.RenderInlineSanitized |

In the as-written case, the `[mark=V]` step runs first and produces `[color=<span style="background:V;padding:0 2px;border-radius:2px">]`. The colour step then yields `<span style="color:<span style="background:V;…">`. Its first inner `"` closes the attribute, so the mark value V is parsed as attributes of the outer tag. Nothing in V itself has to be markup.

`InlineMarkup.RenderInline` takes a flag `strict`. With `strict` false it is the renderer exactly as written, and with `strict` true it is the corrected one, which limits a captured value to characters other than `]`, `<`, `>` and `"`. The block models take the same flag: `Entry.EntryBlocks(content, false)` and `PostPage.PageBlocks(content, false)` are the code as written. `InlineMarkup.NestedValueCapture` proves that on this input the as-written output is not sanitised, and that the corrected renderer leaves `[color=` as text. `Entry.NestedLineBlock` shows the same at the level of an entry's text block. `InlineMarkup.RenderInlineSanitized`, `Entry.EntryBlocksSanitized` and `PostPage.PageBlocksSanitized` prove that with the corrected renderer every output is sanitised. The other rendering and block lemmas hold for both settings.
