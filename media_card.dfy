/**
 * The media card: it resolves the `src` it is given to a path or URL it can
 * load, swaps in a fallback image when loading fails, and picks an embedded
 * player, a video player or an image for what it resolved.
 */
module MediaCard {
  import opened Wrappers
  import opened Text
  import opened MediaUtils

  const FallbackImage := "/images/posts/fallback.svg"
  const UploadsPrefix := "/uploads/"

  /** A bare file name: no scheme, no absolute path, no known video host. */
  predicate IsBareName(src: string) {
    !StartsWith(src, "http") && !StartsWith(src, "/") && !Contains(src, "youtu") && !Contains(src, "vimeo")
  }

  /** What the resolution effect stores for a `src`: the fallback for an
    * empty one, a bare file name under `/uploads/`, anything else as given. */
  function ResolveSrc(src: string): (r: string)
    ensures src == [] ==> r == FallbackImage
    ensures src != [] && IsBareName(src) ==> r == UploadsPrefix + src
    ensures src != [] && !IsBareName(src) ==> r == src
    ensures r != [] && !IsBareName(r)
    ensures src != [] ==> |src| <= |r| && r[|r| - |src|..] == src
  {
    if src == [] then
      assert FallbackImage[..1] == "/";
      FallbackImage
    else if IsBareName(src) then
      assert (UploadsPrefix + src)[..1] == "/";
      UploadsPrefix + src
    else src
  }

  /** What resolution stores is never a bare name, so resolving it again keeps it. */
  lemma ResolveSrcIdempotent(src: string)
    ensures !IsBareName(ResolveSrc(src))
    ensures ResolveSrc(ResolveSrc(src)) == ResolveSrc(src)
  {
    if src == [] {
      assert FallbackImage[..1] == "/";
    } else if IsBareName(src) {
      assert (UploadsPrefix + src)[..1] == "/";
    }
  }

  /** What the card draws for its media. */
  datatype Media =
    | Frame(url: string, title: string)
    | Player(src: string)
    | Picture(src: string, alt: string)

  /** The card: the media, then a caption element when the caption is not empty. */
  datatype View = View(media: Media, caption: Option<string>)

  /** `renderMedia`: an embedded player when the source has an embed URL, else a
    * video player for a video file, else an image (the default). */
  function RenderMedia(safeSrc: string, alt: string): (m: Media)
    ensures m.Frame? <==> MediaTypeOf(safeSrc) == Some(YouTube) || MediaTypeOf(safeSrc) == Some(Vimeo)
    ensures m.Player? <==> MediaTypeOf(safeSrc) == Some(Video)
    ensures m.Picture? ==> m.src == safeSrc && m.alt == alt
    ensures m.Frame? ==> m.title == (if alt == [] then "Embedded video" else alt)
  {
    match EmbedUrl(safeSrc)
    case Some(url) => Frame(url, if alt == [] then "Embedded video" else alt)
    case None =>
      if MediaTypeOf(safeSrc) == Some(Video) then Player(safeSrc) else Picture(safeSrc, alt)
  }

  /** The media card, with its props and its `safeSrc` state. */
  class Card {
    const src: string
    const alt: string
    const caption: string
    var safeSrc: string

    /** A new card starts with an empty `safeSrc`, before its effect has run. */
    constructor (src: string, alt: string, caption: string)
      ensures this.src == src && this.alt == alt && this.caption == caption
      ensures safeSrc == []
    {
      this.src := src;
      this.alt := alt;
      this.caption := caption;
      safeSrc := [];
    }

    /** The effect that runs when `src` changes. */
    method Resolve()
      modifies this
      ensures safeSrc == ResolveSrc(src)
    {
      if src == [] {
        safeSrc := FallbackImage;
        return;
      }
      var processed := src;
      if IsBareName(src) {
        processed := UploadsPrefix + src;
      }
      safeSrc := processed;
    }

    /** `handleError`: the fallback replaces the source unless it is already
      * the fallback; `swapped` says whether the state changed. */
    method HandleError() returns (swapped: bool)
      modifies this
      ensures safeSrc == FallbackImage
      ensures swapped <==> old(safeSrc) != FallbackImage
    {
      swapped := false;
      if safeSrc != FallbackImage {
        safeSrc := FallbackImage;
        swapped := true;
      }
    }

    /** A second failure changes nothing: the fallback is swapped in at most once. */
    method HandleErrorTwice() returns (first: bool, second: bool)
      modifies this
      ensures safeSrc == FallbackImage
      ensures first <==> old(safeSrc) != FallbackImage
      ensures !second
    {
      first := HandleError();
      second := HandleError();
    }

    /** The card as drawn: nothing for an empty `src`. */
    function Rendered(): (v: Option<View>)
      reads this
      ensures v.None? <==> src == []
      ensures v.Some? ==> v.value.media == RenderMedia(safeSrc, alt)
      ensures v.Some? ==> (v.value.caption.Some? <==> caption != [])
    {
      if src == [] then None
      else Some(View(RenderMedia(safeSrc, alt), if caption == [] then None else Some(caption)))
    }
  }

  /** No Vimeo marker fits in a URL without a `v`. */
  lemma NoVimeoWithoutV(url: string)
    requires 'v' !in url
    ensures VimeoId(url).None?
  {
    forall q, k2 | 0 <= q < |url| && 0 <= k2 < 1
      ensures !MatchAt(url, q, [VimeoMarker][k2], Digits)
    {
      CharMismatch(url, q, VimeoMarker, 0, Digits);
    }
    forall q, k2 | 0 <= q < |url| && 0 <= k2 < 1
      ensures !MatchAt(url, q, [PlayerMarker][k2], Digits)
    {
      CharMismatch(url, q, PlayerMarker, 7, Digits);
    }
  }

  /** A string without the first character of `p` does not contain `p`. */
  lemma WithoutFirstOf(s: string, p: string)
    requires p != [] && p[0] !in s
    ensures !Contains(s, p)
  {
    forall i | 0 <= i <= |s| - |p|
      ensures !OccursAt(s, p, i)
    {
      assert s[i..i + |p|][0] == s[i];
    }
  }

  /** An uploaded image given by its bare file name is loaded from
    * `/uploads/` and drawn as an image. */
  lemma BareImageName(name: string, ext: string, alt: string)
    requires name != [] && name[0] != '/' && name[0] != 'h'
    requires 'y' !in name && 'v' !in name && 'y' !in ext && 'v' !in ext
    requires Excludes(ext, '.') && Lower(ext) in ImageExtensions
    ensures ResolveSrc(name + "." + ext) == UploadsPrefix + name + "." + ext
    ensures RenderMedia(ResolveSrc(name + "." + ext), alt) == Picture(UploadsPrefix + name + "." + ext, alt)
  {
    var file := name + "." + ext;
    assert file[0] == name[0];
    WithoutFirstOf(file, "youtu");
    WithoutFirstOf(file, "vimeo");
    var url := UploadsPrefix + name + "." + ext;
    assert ResolveSrc(file) == url;
    NoYouTubeWithoutY(url);
    NoVimeoWithoutV(url);
    FileMediaType(UploadsPrefix + name, ext);
  }
}
