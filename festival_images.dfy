/** The preview-image policy: the webpage's og:image first, the Facebook
    page picture as the fallback. Both downloads are network calls and are
    parameters here: `webpageImage` stands for `fetchOgImage` and
    `graphPicture` for the Graph API request inside `fetchFacebookImage`,
    each returning `null` on any failure. */
module FestivalImages {
  import opened PhpValues

  /** The fetchers the policy may consult. */
  datatype ImageSource = WebpageImage | FacebookImage

  /** The chosen image and, in order, the fetchers that were called. */
  datatype ImageLookup = ImageLookup(image: Option<string>, consulted: seq<ImageSource>)

  /** `rtrim($url, "/")`: drops every trailing slash. */
  function TrimTrailingSlashes(url: string): (trimmed: string)
    ensures |trimmed| <= |url| && trimmed == url[..|trimmed|]
    ensures trimmed == [] || trimmed[|trimmed| - 1] != '/'
    ensures forall i :: |trimmed| <= i < |url| ==> url[i] == '/'
    decreases |url|
  {
    if url != [] && url[|url| - 1] == '/' then TrimTrailingSlashes(url[..|url| - 1]) else url
  }

  /** `end(explode("/", $s))`: what follows the last slash, or all of `s`. */
  function LastSegment(s: string): (segment: string)
    ensures '/' !in segment
    ensures |segment| <= |s| && segment == s[|s| - |segment|..]
    ensures |segment| < |s| ==> s[|s| - |segment| - 1] == '/'
    decreases |s|
  {
    if s == [] || s[|s| - 1] == '/' then []
    else LastSegment(s[..|s| - 1]) + [s[|s| - 1]]
  }

  /** `extractFacebookId`: the last slash-separated segment of the URL once
      trailing slashes are stripped. It holds no slash, it ends the trimmed
      URL right after a slash (or is all of it), and it is empty exactly when
      the URL is nothing but slashes. */
  function ExtractFacebookId(facebookUrl: string): (id: string)
    ensures '/' !in id
    ensures var trimmed := TrimTrailingSlashes(facebookUrl);
      && |id| <= |trimmed| && id == trimmed[|trimmed| - |id|..]
      && (|id| < |trimmed| ==> trimmed[|trimmed| - |id| - 1] == '/')
    ensures id == [] <==> forall i :: 0 <= i < |facebookUrl| ==> facebookUrl[i] == '/'
  {
    var trimmed := TrimTrailingSlashes(facebookUrl);
    assert trimmed != [] ==> trimmed[|trimmed| - 1] != '/' && trimmed[|trimmed| - 1] == facebookUrl[|trimmed| - 1];
    LastSegment(trimmed)
  }

  /** The segment after the last slash is the id, whatever precedes it. */
  lemma {:induction false} LastSegmentAfterSlash(prefix: string, id: string)
    requires '/' !in id
    ensures LastSegment(prefix + "/" + id) == id
    decreases |id|
  {
    var s := prefix + "/" + id;
    if id == [] {
      assert s[|s| - 1] == '/';
    } else {
      var init := id[..|id| - 1];
      assert s[..|s| - 1] == prefix + "/" + init;
      assert s[|s| - 1] == id[|id| - 1];
      LastSegmentAfterSlash(prefix, init);
      assert id == init + [id[|id| - 1]];
    }
  }

  /** A page URL written with a trailing slash gives the page's name. */
  lemma ExtractFacebookIdOfPage(prefix: string, page: string)
    requires page != [] && '/' !in page
    ensures ExtractFacebookId(prefix + "/" + page + "/") == page
  {
    var url := prefix + "/" + page + "/";
    assert url[..|url| - 1] == prefix + "/" + page;
    assert (prefix + "/" + page)[|prefix + "/" + page| - 1] == page[|page| - 1];
    LastSegmentAfterSlash(prefix, page);
  }

  lemma ExtractFacebookIdExample(url: string)
    requires url == "https://www.facebook.com/improvfest/"
    ensures ExtractFacebookId(url) == "improvfest"
  {
    var site, page := "https://www.facebook.com", "improvfest";
    assert url == site + "/" + page + "/";
    ExtractFacebookIdOfPage(site, page);
  }

  /** `fetchFacebookImage`: asks the Graph API only for a truthy page id. */
  function FacebookPicture(facebookUrl: string, graphPicture: string -> Option<string>): (image: Option<string>)
    ensures IsEmptyString(ExtractFacebookId(facebookUrl)) ==> image == None
    ensures !IsEmptyString(ExtractFacebookId(facebookUrl)) ==> image == graphPicture(ExtractFacebookId(facebookUrl))
  {
    var facebookId := ExtractFacebookId(facebookUrl);
    if !IsEmptyString(facebookId) then graphPicture(facebookId) else None
  }

  /** `getFestivalImage`: nothing, and no fetch at all, when both URLs are
      empty; otherwise the first truthy image of the webpage fetch (when there
      is a webpage) and then the Facebook fetch (when there is a Facebook URL). */
  function FestivalImage(
    webpage: Option<string>, facebook: Option<string>,
    webpageImage: string -> Option<string>, graphPicture: string -> Option<string>): (r: ImageLookup)
    ensures IsBlank(webpage) && IsBlank(facebook) ==> r == ImageLookup(None, [])
    ensures r.image.Some? ==> !IsBlank(r.image)
    ensures r.consulted ==
      (if !IsBlank(webpage) then [WebpageImage] else []) +
      (if !IsBlank(facebook) && (IsBlank(webpage) || IsBlank(webpageImage(webpage.value))) then [FacebookImage] else [])
    ensures !IsBlank(webpage) && !IsBlank(webpageImage(webpage.value)) ==>
      r == ImageLookup(webpageImage(webpage.value), [WebpageImage])
    ensures r.image.Some? && FacebookImage in r.consulted ==>
      r.image == FacebookPicture(facebook.value, graphPicture)
    ensures r.image.None? <==>
      (IsBlank(webpage) || IsBlank(webpageImage(webpage.value))) &&
      (IsBlank(facebook) || IsBlank(FacebookPicture(facebook.value, graphPicture)))
    ensures r.image.Some? ==>
      (!IsBlank(webpage) && r.image == webpageImage(webpage.value)) ||
      (!IsBlank(facebook) && r.image == FacebookPicture(facebook.value, graphPicture))
  {
    if IsBlank(webpage) && IsBlank(facebook) then ImageLookup(None, [])
    else if !IsBlank(webpage) && !IsBlank(webpageImage(webpage.value)) then
      ImageLookup(webpageImage(webpage.value), [WebpageImage])
    else if IsBlank(facebook) then ImageLookup(None, [WebpageImage])
    else
      var fromFacebook := FacebookPicture(facebook.value, graphPicture);
      var tried := if IsBlank(webpage) then [FacebookImage] else [WebpageImage, FacebookImage];
      ImageLookup(if !IsBlank(fromFacebook) then fromFacebook else None, tried)
  }
}
