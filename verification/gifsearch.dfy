/**
 * The GIF picker's handling of the GIF search service: which endpoint a search
 * term selects, how one result is normalised to a URL and a preview, and how a
 * result page becomes the list the picker shows. The network request itself is
 * outside the model. A URL of "" stands for a missing format or a missing `url`.
 */
module GifSearch {
  import opened Wrappers
  import Text

  /** The URLs of the four formats a result may carry ("" when absent). */
  datatype Formats = Formats(gif: string, mediumgif: string, tinygif: string, nanogif: string)

  const NoFormats := Formats("", "", "", "")

  /** One search result: the `media_formats` object when present, the `media` list,
      and the description ("" when absent). */
  datatype SearchResult = SearchResult(id: string, mediaFormats: Option<Formats>, media: seq<Formats>, description: string)

  /** What the picker keeps of a result. */
  datatype Gif = Gif(id: string, url: string, preview: string, description: string)

  /** The first non-empty URL of `urls`, or "". */
  function FirstUrl(urls: seq<string>): (r: string)
    ensures r == "" <==> forall k :: 0 <= k < |urls| ==> urls[k] == ""
    ensures r != "" ==> exists k :: 0 <= k < |urls| && urls[k] == r && forall j :: 0 <= j < k ==> urls[j] == ""
  {
    if urls == [] then ""
    else if urls[0] != "" then urls[0]
    else
      var r := FirstUrl(urls[1..]);
      assert r != "" ==> exists k :: 1 <= k < |urls| && urls[k] == r && forall j :: 0 <= j < k ==> urls[j] == "" by {
        if r != "" {
          var k :| 0 <= k < |urls[1..]| && urls[1..][k] == r && forall j :: 0 <= j < k ==> urls[1..][j] == "";
          assert urls[k + 1] == r;
        }
      }
      r
  }

  /** The first non-empty URL of four, in order. */
  lemma FirstOfFour(a: string, b: string, c: string, d: string)
    ensures FirstUrl([a, b, c, d]) == if a != "" then a else if b != "" then b else if c != "" then c else d
  {
    assert [d][1..] == [];
    assert FirstUrl([d]) == d;
    assert [c, d][1..] == [d];
    assert FirstUrl([c, d]) == if c != "" then c else d;
    assert [b, c, d][1..] == [c, d];
    assert FirstUrl([b, c, d]) == if b != "" then b else if c != "" then c else d;
    assert [a, b, c, d][1..] == [b, c, d];
  }

  /** The formats a result is read from: `media_formats` when present, else the
      first entry of `media`, else none. */
  function FormatsOf(r: SearchResult): (f: Formats)
    ensures r.mediaFormats.Some? ==> f == r.mediaFormats.value
    ensures r.mediaFormats.None? && r.media != [] ==> f == r.media[0]
    ensures r.mediaFormats.None? && r.media == [] ==> f == NoFormats
  {
    match r.mediaFormats
    case Some(f) => f
    case None => if r.media != [] then r.media[0] else NoFormats
  }

  /** The full-size URL, preferring gif, then mediumgif, tinygif and nanogif. */
  function FullUrl(f: Formats): string {
    FirstUrl([f.gif, f.mediumgif, f.tinygif, f.nanogif])
  }

  /** The preview URL, preferring tinygif, then nanogif, mediumgif and gif. */
  function PreviewUrl(f: Formats): string {
    FirstUrl([f.tinygif, f.nanogif, f.mediumgif, f.gif])
  }

  /**
   * `extractGifMedia`: nothing for a missing result or one whose formats carry no
   * URL at all; otherwise the full URL in the priority gif > mediumgif > tinygif >
   * nanogif, the preview in the priority tinygif > nanogif > mediumgif > gif, and
   * the description.
   */
  function Extract(result: Option<SearchResult>): (r: Option<Gif>)
    ensures result.None? ==> r.None?
    ensures result.Some? ==> var f := FormatsOf(result.value);
              && (r.None? <==> f.gif == "" && f.mediumgif == "" && f.tinygif == "" && f.nanogif == "")
              && (r.Some? ==> r.value.id == result.value.id && r.value.description == result.value.description)
              && (r.Some? && f.gif != "" ==> r.value.url == f.gif)
              && (r.Some? && f.gif == "" && f.mediumgif != "" ==> r.value.url == f.mediumgif)
              && (r.Some? && f.gif == "" && f.mediumgif == "" && f.tinygif != "" ==> r.value.url == f.tinygif)
              && (r.Some? && f.gif == "" && f.mediumgif == "" && f.tinygif == "" ==> r.value.url == f.nanogif)
              && (r.Some? && f.tinygif != "" ==> r.value.preview == f.tinygif)
              && (r.Some? && f.tinygif == "" && f.nanogif != "" ==> r.value.preview == f.nanogif)
              && (r.Some? && f.tinygif == "" && f.nanogif == "" && f.mediumgif != "" ==> r.value.preview == f.mediumgif)
              && (r.Some? && f.tinygif == "" && f.nanogif == "" && f.mediumgif == "" ==> r.value.preview == f.gif)
    ensures r.Some? ==> r.value.url != "" && r.value.preview != ""
  {
    match result
    case None => None
    case Some(res) =>
      var f := FormatsOf(res);
      FirstOfFour(f.gif, f.mediumgif, f.tinygif, f.nanogif);
      FirstOfFour(f.tinygif, f.nanogif, f.mediumgif, f.gif);
      var full := FullUrl(f);
      var preview := PreviewUrl(f);
      if full == "" then None
      else Some(Gif(res.id, full, if preview != "" then preview else full, res.description))
  }

  /** The preview never falls back to the full URL: both chains read the same four
      formats, so one is empty exactly when the other is. */
  lemma PreviewWhenFull(f: Formats)
    ensures FullUrl(f) == "" <==> PreviewUrl(f) == ""
  {
    FirstOfFour(f.gif, f.mediumgif, f.tinygif, f.nanogif);
    FirstOfFour(f.tinygif, f.nanogif, f.mediumgif, f.gif);
  }

  // ---------------------------------------------------------------------------
  // Searching

  /** The request a search term selects. */
  datatype Endpoint = Trending | Search(q: string)

  /** Results requested per page, and the media filter sent with every request. */
  const Limit := 24
  const MediaFilter := "minimal"
  /** The term the picker opens with. */
  const DefaultTerm := "celebration"

  /**
   * `performSearch`'s choice of endpoint: a term that is blank once trimmed asks
   * for trending GIFs, any other term searches for the trimmed term.
   */
  function EndpointFor(term: string): (r: Endpoint)
    ensures r == Trending <==> Text.Blank(Text.Js, term)
    ensures r.Search? ==> r.q == Text.Trim(Text.Js, term) && r.q != []
  {
    var trimmed := Text.Trim(Text.Js, term);
    if trimmed == [] then Trending else Search(trimmed)
  }

  /** Surrounding white space does not change the request. */
  lemma EndpointIgnoresPadding(term: string)
    ensures EndpointFor(Text.Trim(Text.Js, term)) == EndpointFor(term)
  {
    Text.TrimIdempotent(Text.Js, term);
  }

  /** The query box after a successful search: the first, blank search of an opened
      picker resets it to the default term; otherwise it is left alone. */
  function QueryAfter(query: string, term: string, initial: bool): (r: string)
    ensures initial && EndpointFor(term) == Trending ==> r == DefaultTerm
    ensures !(initial && EndpointFor(term) == Trending) ==> r == query
  {
    if initial && Text.Trim(Text.Js, term) == [] then DefaultTerm else query
  }

  /** The normalised page as a reference definition: each result extracted, the
      ones without a URL dropped, order kept. */
  function Normalised(results: seq<Option<SearchResult>>): seq<Gif> {
    if results == [] then []
    else match Extract(results[0])
      case None => Normalised(results[1..])
      case Some(g) => [g] + Normalised(results[1..])
  }

  lemma NormalisedAppend(results: seq<Option<SearchResult>>, item: Option<SearchResult>)
    ensures Normalised(results + [item]) ==
            Normalised(results) + (match Extract(item) case None => [] case Some(g) => [g])
  {
    if results != [] {
      assert (results + [item])[1..] == results[1..] + [item];
    }
  }

  /** Every GIF of the page comes from some result. */
  lemma {:induction false} NormalisedFromResults(results: seq<Option<SearchResult>>, g: Gif)
    requires g in Normalised(results)
    ensures exists k :: 0 <= k < |results| && Extract(results[k]) == Some(g)
  {
    if Extract(results[0]) != Some(g) {
      var rest := Normalised(results[1..]);
      assert g in rest;
      NormalisedFromResults(results[1..], g);
      var k :| 0 <= k < |results[1..]| && Extract(results[1..][k]) == Some(g);
      assert Extract(results[k + 1]) == Some(g);
    }
  }

  /** Every result that has a URL is on the page. */
  lemma {:induction false} ResultsOnPage(results: seq<Option<SearchResult>>, k: nat)
    requires k < |results| && Extract(results[k]).Some?
    ensures Extract(results[k]).value in Normalised(results)
  {
    if k > 0 {
      ResultsOnPage(results[1..], k - 1);
      assert results[1..][k - 1] == results[k];
    }
  }

  /**
   * The result page as the picker shows it: a missing `results` list is an empty
   * page; otherwise every result is extracted and the empty extractions are left
   * out, in order.
   */
  method CollectResults(results: Option<seq<Option<SearchResult>>>) returns (gifs: seq<Gif>)
    ensures results.None? ==> gifs == []
    ensures results.Some? ==> gifs == Normalised(results.value)
    ensures results.Some? ==> |gifs| <= |results.value|
    ensures forall g :: g in gifs ==> g.url != "" && g.preview != ""
  {
    var items := results.GetOr([]);
    gifs := [];
    var i := 0;
    while i < |items|
      invariant 0 <= i <= |items|
      invariant gifs == Normalised(items[..i])
      invariant |gifs| <= i
      invariant forall g :: g in gifs ==> g.url != "" && g.preview != ""
    {
      NormalisedAppend(items[..i], items[i]);
      assert items[..i + 1] == items[..i] + [items[i]];
      var extracted := Extract(items[i]);
      if extracted.Some? {
        gifs := gifs + [extracted.value];
      }
      i := i + 1;
    }
    assert items[..i] == items;
  }
}
