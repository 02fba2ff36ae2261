/**
 * Media URL recognition: the YouTube and Vimeo ids a URL carries, the kind
 * of media a URL points to, and the privacy-hardened embed URLs built from
 * an id. Each id is found by a regular expression of the form
 * `(marker1|marker2|...)(class+)`, searched without anchors; the search is
 * written out here as the leftmost match the engine reports.
 */
module MediaUtils {
  import opened Wrappers
  import opened Text

  // ---------------------------------------------------------------------
  // Searching for `marker` followed by a run of one character class

  /** The capture classes of the patterns: `[^&\n?#]` and `\d`. */
  datatype IdClass = NotSeparator | Digits

  predicate InClass(cls: IdClass, c: char) {
    match cls
    case NotSeparator => c != '&' && c != '\n' && c != '?' && c != '#'
    case Digits => IsDigit(c)
  }

  /** The pattern matches at `p` with alternative `m`: the marker occurs
    * there and at least one class character follows it. */
  predicate MatchAt(url: string, p: int, m: string, cls: IdClass) {
    OccursAt(url, m, p) && p + |m| < |url| && InClass(cls, url[p + |m|])
  }

  /** The end of the run of class characters that starts at `j`: `class+` is greedy. */
  function RunEnd(s: string, j: nat, cls: IdClass): (k: nat)
    requires j <= |s|
    ensures j <= k <= |s|
    ensures forall t | j <= t < k :: InClass(cls, s[t])
    ensures k == |s| || !InClass(cls, s[k])
    decreases |s| - j
  {
    if j < |s| && InClass(cls, s[j]) then RunEnd(s, j + 1, cls) else j
  }

  /** The first alternative, from index `k` on, that matches at `p`. */
  function FirstAlternative(url: string, p: int, markers: seq<string>, cls: IdClass, k: nat): (r: Option<nat>)
    requires k <= |markers|
    ensures r.None? ==> forall k2 | k <= k2 < |markers| :: !MatchAt(url, p, markers[k2], cls)
    ensures r.Some? ==>
      && k <= r.value < |markers| && MatchAt(url, p, markers[r.value], cls)
      && forall k2 | k <= k2 < r.value :: !MatchAt(url, p, markers[k2], cls)
    decreases |markers| - k
  {
    if k == |markers| then None
    else if MatchAt(url, p, markers[k], cls) then Some(k)
    else FirstAlternative(url, p, markers, cls, k + 1)
  }

  /** The leftmost position from `i` on where the pattern matches, with the
    * alternative that matches there: positions are tried left to right and,
    * at each, the alternatives in order. */
  function Leftmost(url: string, i: nat, markers: seq<string>, cls: IdClass): (r: Option<(nat, nat)>)
    requires i <= |url|
    ensures r.None? ==> forall p, k | i <= p < |url| && 0 <= k < |markers| :: !MatchAt(url, p, markers[k], cls)
    ensures r.Some? ==> var (p, k) := r.value;
      i <= p < |url| && k < |markers| && MatchAt(url, p, markers[k], cls)
      && (forall q, k2 | i <= q < p && 0 <= k2 < |markers| :: !MatchAt(url, q, markers[k2], cls))
      && (forall k2 | 0 <= k2 < k :: !MatchAt(url, p, markers[k2], cls))
    decreases |url| - i
  {
    if i == |url| then None
    else match FirstAlternative(url, i, markers, cls, 0)
      case Some(k) => Some((i, k))
      case None => Leftmost(url, i + 1, markers, cls)
  }

  /** `url.match(pattern)[1]`: the run captured after the leftmost marker. */
  function Capture(url: string, markers: seq<string>, cls: IdClass): (r: Option<string>)
    ensures r.None? <==> forall p, k | 0 <= p < |url| && 0 <= k < |markers| :: !MatchAt(url, p, markers[k], cls)
    ensures r.Some? ==> r.value != [] && forall t | 0 <= t < |r.value| :: InClass(cls, r.value[t])
  {
    var r := Leftmost(url, 0, markers, cls);
    if r.None? then None
    else
      var j := r.value.0 + |markers[r.value.1]|;
      Some(url[j..RunEnd(url, j, cls)])
  }

  // ---------------------------------------------------------------------
  // `getYouTubeId`, `getVimeoId`

  const WatchMarker := "youtube.com/watch?v="
  const ShortMarker := "youtu.be/"
  const EmbedMarker := "youtube.com/embed/"
  const VimeoMarker := "vimeo.com/"
  const PlayerMarker := "player.vimeo.com/video/"

  /** `getYouTubeId`: the watch and short-link pattern first, then the embed pattern. */
  function YouTubeId(url: string): (r: Option<string>)
    ensures url == [] ==> r.None?
    ensures r.Some? ==> r.value != [] && forall t | 0 <= t < |r.value| :: InClass(NotSeparator, r.value[t])
    ensures Capture(url, [WatchMarker, ShortMarker], NotSeparator).Some? ==>
      r == Capture(url, [WatchMarker, ShortMarker], NotSeparator)
  {
    if url == [] then None
    else match Capture(url, [WatchMarker, ShortMarker], NotSeparator)
      case Some(id) => Some(id)
      case None => Capture(url, [EmbedMarker], NotSeparator)
  }

  /** `getVimeoId`: the site pattern first, then the player pattern. */
  function VimeoId(url: string): (r: Option<string>)
    ensures url == [] ==> r.None?
    ensures r.Some? ==> r.value != [] && forall t | 0 <= t < |r.value| :: IsDigit(r.value[t])
  {
    if url == [] then None
    else match Capture(url, [VimeoMarker], Digits)
      case Some(id) => Some(id)
      case None => Capture(url, [PlayerMarker], Digits)
  }

  // ---------------------------------------------------------------------
  // `getMediaType`

  datatype MediaType = YouTube | Vimeo | Video | Image

  const VideoExtensions: seq<string> := ["mp4", "webm", "ogg", "mov"]
  const ImageExtensions: seq<string> := ["jpg", "jpeg", "png", "gif", "webp", "svg"]

  /** `split('.').pop().toLowerCase()`: the text after the last dot, lower-cased
    * (the whole URL when it has no dot). */
  function Extension(url: string): (r: string)
    ensures |r| <= |url|
  {
    var parts := Split(url, '.');
    SplitPartsShorter(url, '.');
    Lower(parts[|parts| - 1])
  }

  /** `getMediaType`: a YouTube id wins over a Vimeo id, which wins over the extension. */
  function MediaTypeOf(url: string): (r: Option<MediaType>)
    ensures url == [] ==> r.None?
    ensures r == Some(YouTube) <==> YouTubeId(url).Some?
    ensures r == Some(Vimeo) <==> YouTubeId(url).None? && VimeoId(url).Some?
  {
    if url == [] then None
    else if YouTubeId(url).Some? then Some(YouTube)
    else if VimeoId(url).Some? then Some(Vimeo)
    else
      var ext := Extension(url);
      if ext in VideoExtensions then Some(Video)
      else if ext in ImageExtensions then Some(Image)
      else None
  }

  // ---------------------------------------------------------------------
  // `getEmbedUrl`

  const YouTubeEmbedBase := "https://www.youtube-nocookie.com/embed/"
  const YouTubeEmbedQuery :=
    "?rel=0&modestbranding=1&autoplay=0&controls=1&iv_load_policy=3&fs=0&playsinline=1&disablekb=1&cc_load_policy=0"
  const VimeoPlayerBase := "https://player.vimeo.com/video/"
  const VimeoPlayerQuery := "?title=0&byline=0&portrait=0&badge=0&controls=1&autopause=1&dnt=1"

  /** `getEmbedUrl`: the player URL of the YouTube id, else of the Vimeo id. */
  function EmbedUrl(url: string): (r: Option<string>)
    ensures r.Some? <==> MediaTypeOf(url) == Some(YouTube) || MediaTypeOf(url) == Some(Vimeo)
    ensures MediaTypeOf(url) == Some(YouTube) ==> StartsWith(r.value, YouTubeEmbedBase)
    ensures MediaTypeOf(url) == Some(Vimeo) ==> StartsWith(r.value, VimeoPlayerBase)
  {
    match YouTubeId(url)
    case Some(id) => Some(YouTubeEmbedBase + id + YouTubeEmbedQuery)
    case None =>
      match VimeoId(url)
      case Some(id) => Some(VimeoPlayerBase + id + VimeoPlayerQuery)
      case None => None
  }

  // ---------------------------------------------------------------------
  // The ids of the usual link forms

  /** A match that nothing before it beats, and whose run reaches the end of
    * the URL, is the capture. */
  lemma CaptureAt(url: string, p: nat, k: nat, markers: seq<string>, cls: IdClass)
    requires k < |markers| && MatchAt(url, p, markers[k], cls)
    requires forall q, k2 | 0 <= q < p && 0 <= k2 < |markers| :: !MatchAt(url, q, markers[k2], cls)
    requires forall k2 | 0 <= k2 < k :: !MatchAt(url, p, markers[k2], cls)
    requires forall t | p + |markers[k]| <= t < |url| :: InClass(cls, url[t])
    ensures Capture(url, markers, cls) == Some(url[p + |markers[k]|..])
  {
    LeftmostIs(url, p, k, markers, cls);
    CaptureOfLeftmost(url, p, k, markers, cls);
    RunToEnd(url, p + |markers[k]|, cls);
  }

  lemma CaptureOfLeftmost(url: string, p: nat, k: nat, markers: seq<string>, cls: IdClass)
    requires Leftmost(url, 0, markers, cls) == Some((p, k))
    ensures k < |markers| && p + |markers[k]| <= |url|
    ensures Capture(url, markers, cls) == Some(url[p + |markers[k]|..RunEnd(url, p + |markers[k]|, cls)])
  {
  }

  lemma LeftmostIs(url: string, p: nat, k: nat, markers: seq<string>, cls: IdClass)
    requires k < |markers| && MatchAt(url, p, markers[k], cls)
    requires forall q, k2 | 0 <= q < p && 0 <= k2 < |markers| :: !MatchAt(url, q, markers[k2], cls)
    requires forall k2 | 0 <= k2 < k :: !MatchAt(url, p, markers[k2], cls)
    ensures Leftmost(url, 0, markers, cls) == Some((p, k))
  {
    var r := Leftmost(url, 0, markers, cls);
    assert r.Some?;
    assert r.value.0 == p;
  }

  lemma RunToEnd(s: string, j: nat, cls: IdClass)
    requires j <= |s| && forall t | j <= t < |s| :: InClass(cls, s[t])
    ensures RunEnd(s, j, cls) == |s| && s[j..RunEnd(s, j, cls)] == s[j..]
  {
  }

  /** A marker that differs from the URL at its `t`-th character does not match at `q`. */
  lemma CharMismatch(url: string, q: nat, m: string, t: nat, cls: IdClass)
    requires t < |m| && (q + t >= |url| || url[q + t] != m[t])
    ensures !MatchAt(url, q, m, cls)
  {
  }

  predicate IsId(id: string) {
    id != [] && forall t | 0 <= t < |id| :: InClass(NotSeparator, id[t])
  }

  lemma FirstPatternId(url: string, id: string)
    requires Capture(url, [WatchMarker, ShortMarker], NotSeparator) == Some(id)
    ensures YouTubeId(url) == Some(id)
  {
  }

  lemma SecondPatternId(url: string, id: string)
    requires Capture(url, [WatchMarker, ShortMarker], NotSeparator).None?
    requires Capture(url, [EmbedMarker], NotSeparator) == Some(id)
    ensures YouTubeId(url) == Some(id)
  {
  }

  /** A link made of a head where no marker matches, a marker and an id
    * gives the id. */
  lemma MarkedLink(head: string, id: string, markers: seq<string>, k: nat, cls: IdClass)
    requires k < |markers|
    requires forall q, k2 | 0 <= q < |head| && 0 <= k2 < |markers| ::
      !MatchAt(head + markers[k] + id, q, markers[k2], cls)
    requires forall k2 | 0 <= k2 < k :: !MatchAt(head + markers[k] + id, |head|, markers[k2], cls)
    requires id != [] && forall t | 0 <= t < |id| :: InClass(cls, id[t])
    ensures Capture(head + markers[k] + id, markers, cls) == Some(id)
  {
    var url := head + markers[k] + id;
    assert url[|head| + |markers[k]|..] == id;
    CaptureAt(url, |head|, k, markers, cls);
  }

  /** No marker matches where the URL lacks the markers' common first character. */
  lemma {:induction false} WithoutFirstChar(url: string, n: nat, markers: seq<string>, cls: IdClass, c: char)
    requires n <= |url| && c !in url[..n]
    requires forall k2 | 0 <= k2 < |markers| :: markers[k2] != [] && markers[k2][0] == c
    ensures forall q, k2 | 0 <= q < n && 0 <= k2 < |markers| :: !MatchAt(url, q, markers[k2], cls)
  {
    assert url[..n] == url[0..n];
    WithoutFirstCharIn(url, 0, n, markers, cls, c);
  }

  lemma {:induction false} WithoutFirstCharIn(url: string, a: nat, b: nat, markers: seq<string>, cls: IdClass, c: char)
    requires a <= b <= |url| && c !in url[a..b]
    requires forall k2 | 0 <= k2 < |markers| :: markers[k2] != [] && markers[k2][0] == c
    ensures forall q, k2 | a <= q < b && 0 <= k2 < |markers| :: !MatchAt(url, q, markers[k2], cls)
  {
    forall q, k2 | a <= q < b && 0 <= k2 < |markers|
      ensures !MatchAt(url, q, markers[k2], cls)
    {
      assert url[a..b][q - a] == url[q];
      CharMismatch(url, q, markers[k2], 0, cls);
    }
  }

  /** Every YouTube marker begins with `y`: a URL without one has no YouTube id. */
  lemma NoYouTubeWithoutY(url: string)
    requires 'y' !in url
    ensures YouTubeId(url).None?
  {
    assert url[..|url|] == url;
    WithoutFirstChar(url, |url|, [WatchMarker, ShortMarker], NotSeparator, 'y');
    WithoutFirstChar(url, |url|, [EmbedMarker], NotSeparator, 'y');
  }

  /** A short link gives its id. */
  lemma ShortLinkId(id: string)
    requires IsId(id)
    ensures YouTubeId("https://" + ShortMarker + id) == Some(id)
  {
    var head := "https://";
    var url := head + ShortMarker + id;
    assert url[..|head|] == head;
    WithoutFirstChar(url, |head|, [WatchMarker, ShortMarker], NotSeparator, 'y');
    CharMismatch(url, |head|, WatchMarker, 5, NotSeparator);
    MarkedLink(head, id, [WatchMarker, ShortMarker], 1, NotSeparator);
    FirstPatternId(url, id);
  }

  /** A watch link gives its id. */
  lemma WatchLinkId(id: string)
    requires IsId(id)
    ensures YouTubeId("https://www." + WatchMarker + id) == Some(id)
  {
    var head := "https://www.";
    var url := head + WatchMarker + id;
    assert url[..|head|] == head;
    WithoutFirstChar(url, |head|, [WatchMarker, ShortMarker], NotSeparator, 'y');
    MarkedLink(head, id, [WatchMarker, ShortMarker], 0, NotSeparator);
    FirstPatternId(url, id);
  }

  /** An embed link gives its id, provided the id has no `/` (through which
    * a watch or short-link marker could appear inside it). */
  lemma EmbedLinkId(id: string)
    requires IsId(id) && Excludes(id, '/')
    ensures YouTubeId("https://www." + EmbedMarker + id) == Some(id)
  {
    var head := "https://www.";
    var url := head + EmbedMarker + id;
    assert url[..|head|] == head;
    NoWatchInEmbedLink(id);
    WithoutFirstChar(url, |head|, [EmbedMarker], NotSeparator, 'y');
    MarkedLink(head, id, [EmbedMarker], 0, NotSeparator);
    SecondPatternId(url, id);
  }

  lemma NoWatchInEmbedLink(id: string)
    requires Excludes(id, '/')
    ensures Capture("https://www." + EmbedMarker + id, [WatchMarker, ShortMarker], NotSeparator).None?
  {
    var url := "https://www." + EmbedMarker + id;
    assert url[..30] == "https://www." + EmbedMarker;
    EmbedHeadLiteral();
    forall q, k2 | 0 <= q < |url| && 0 <= k2 < 2
      ensures !MatchAt(url, q, [WatchMarker, ShortMarker][k2], NotSeparator)
    {
      if q < 30 {
        NoWatchInPrefix(url, q, k2);
      } else {
        NoWatchInId(url, 30, q, k2);
      }
    }
  }

  /** Both markers of the first pattern hold a `/`, so neither starts where
    * no `/` follows. */
  lemma NoWatchInId(url: string, n: nat, q: nat, k2: nat)
    requires n <= q && k2 < 2 && forall i | n <= i < |url| :: url[i] != '/'
    ensures !MatchAt(url, q, [WatchMarker, ShortMarker][k2], NotSeparator)
  {
    var t := if k2 == 0 then 11 else 8;
    CharMismatch(url, q, [WatchMarker, ShortMarker][k2], t, NotSeparator);
  }

  lemma NoWatchInPrefix(url: string, q: nat, k2: nat)
    requires StartsWith(url, "https://www.youtube.com/embed/") && q < 30 && k2 < 2
    ensures !MatchAt(url, q, [WatchMarker, ShortMarker][k2], NotSeparator)
  {
    assert url[..30] == "https://www.youtube.com/embed/";
    if q != 12 {
      CharMismatch(url, q, [WatchMarker, ShortMarker][k2], 0, NotSeparator);
    } else if k2 == 0 {
      CharMismatch(url, q, WatchMarker, 12, NotSeparator);
    } else {
      CharMismatch(url, q, ShortMarker, 5, NotSeparator);
    }
  }

  // ---------------------------------------------------------------------
  // Vimeo links

  predicate IsDigits(id: string) {
    id != [] && forall t | 0 <= t < |id| :: IsDigit(id[t])
  }

  lemma FirstVimeoId(url: string, id: string)
    requires url != [] && Capture(url, [VimeoMarker], Digits) == Some(id)
    ensures VimeoId(url) == Some(id)
  {
  }

  lemma SecondVimeoId(url: string, id: string)
    requires Capture(url, [VimeoMarker], Digits).None?
    requires Capture(url, [PlayerMarker], Digits) == Some(id)
    ensures VimeoId(url) == Some(id)
  {
  }

  /** A Vimeo page link gives its number. */
  lemma VimeoLinkId(id: string)
    requires IsDigits(id)
    ensures VimeoId("https://" + VimeoMarker + id) == Some(id)
  {
    var head := "https://";
    var url := head + VimeoMarker + id;
    assert url[..|head|] == head;
    WithoutFirstChar(url, |head|, [VimeoMarker], Digits, 'v');
    MarkedLink(head, id, [VimeoMarker], 0, Digits);
    FirstVimeoId(url, id);
  }

  /** A Vimeo player link gives its number: the page pattern finds no digits
    * after its marker there, so the player pattern decides. */
  lemma PlayerLinkId(id: string)
    requires IsDigits(id)
    ensures VimeoId("https://" + PlayerMarker + id) == Some(id)
  {
    var head := "https://";
    var url := head + PlayerMarker + id;
    NoPageInPlayerLink(url, id);
    assert url[..8] == head;
    forall q, k2 | 0 <= q < |head| && 0 <= k2 < 1
      ensures !MatchAt(url, q, [PlayerMarker][k2], Digits)
    {
      NoPlayerInScheme(url, q);
    }
    MarkedLink(head, id, [PlayerMarker], 0, Digits);
    SecondVimeoId(url, id);
  }

  lemma PlayerHeadLiteral()
    ensures "https://" + PlayerMarker == "https://player.vimeo.com/video/"
  {
  }

  lemma EmbedHeadLiteral()
    ensures "https://www." + EmbedMarker == "https://www.youtube.com/embed/"
  {
  }

  lemma NoPlayerInScheme(url: string, q: nat)
    requires StartsWith(url, "https://") && q < 8
    ensures !MatchAt(url, q, PlayerMarker, Digits)
  {
    if q == 3 {
      CharMismatch(url, q, PlayerMarker, 1, Digits);
    } else {
      CharMismatch(url, q, PlayerMarker, 0, Digits);
    }
  }

  lemma NoPageInPlayerLink(url: string, id: string)
    requires IsDigits(id) && url == "https://" + PlayerMarker + id
    ensures Capture(url, [VimeoMarker], Digits).None?
  {
    assert url[..31] == "https://" + PlayerMarker;
    PlayerHeadLiteral();
    forall q, k2 | 0 <= q < |url| && 0 <= k2 < 1
      ensures !MatchAt(url, q, [VimeoMarker][k2], Digits)
    {
      if q < 31 {
        NoPageInPlayerHead(url, q);
      } else {
        assert url[q] == id[q - 31];
        CharMismatch(url, q, VimeoMarker, 0, Digits);
      }
    }
  }

  lemma NoPageInPlayerHead(url: string, q: nat)
    requires StartsWith(url, "https://player.vimeo.com/video/") && q < 31
    ensures !MatchAt(url, q, VimeoMarker, Digits)
  {
    assert url[..31] == "https://player.vimeo.com/video/";
    if q == 25 {
      CharMismatch(url, q, VimeoMarker, 2, Digits);
    } else if q != 15 {
      CharMismatch(url, q, VimeoMarker, 0, Digits);
    }
  }

  // ---------------------------------------------------------------------
  // Kinds and embed URLs of the usual links

  /** A file name's kind comes from its last extension, in any letter case,
    * once no platform id is found. */
  lemma FileMediaType(name: string, ext: string)
    requires Excludes(ext, '.')
    requires YouTubeId(name + "." + ext).None? && VimeoId(name + "." + ext).None?
    ensures Lower(ext) in VideoExtensions ==> MediaTypeOf(name + "." + ext) == Some(Video)
    ensures Lower(ext) in ImageExtensions ==> MediaTypeOf(name + "." + ext) == Some(Image)
    ensures Lower(ext) !in VideoExtensions && Lower(ext) !in ImageExtensions ==>
      MediaTypeOf(name + "." + ext).None?
  {
    SplitLast(name, '.', ext);
    assert name + "." + ext == name + ['.'] + ext;
  }

  /** The embed URL of a short link is the privacy-enhanced player of its id. */
  lemma ShortLinkEmbed(id: string)
    requires IsId(id)
    ensures EmbedUrl("https://" + ShortMarker + id) == Some(
      "https://www.youtube-nocookie.com/embed/" + id
      + "?rel=0&modestbranding=1&autoplay=0&controls=1&iv_load_policy=3&fs=0&playsinline=1&disablekb=1&cc_load_policy=0")
  {
    ShortLinkId(id);
  }

  /** The embed URL of a Vimeo page link is the Vimeo player of its number. */
  lemma VimeoLinkEmbed(id: string)
    requires IsDigits(id)
    ensures EmbedUrl("https://" + VimeoMarker + id) == Some(
      "https://player.vimeo.com/video/" + id + "?title=0&byline=0&portrait=0&badge=0&controls=1&autopause=1&dnt=1")
  {
    var url := "https://" + VimeoMarker + id;
    assert 'y' !in url by {
      forall t | 0 <= t < |url| ensures url[t] != 'y' {
        if t >= 18 {
          assert url[t] == id[t - 18];
        }
      }
    }
    NoYouTubeWithoutY(url);
    VimeoLinkId(id);
  }
}
