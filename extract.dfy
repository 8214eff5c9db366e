/** The extract stage of the pipeline: every tracked product page is
    fetched and scraped, and the records that come back are kept in URL
    order. The website of a URL is `DashboardEtl.WebsiteFromUrl`, which has
    the same definition in both places it appears in the repository. */
module Extract {
  import opened Common
  import opened Text
  import opened Html
  import opened Transform
  import DashboardEtl

  /** What `requests.get` does: it raises one of the exceptions named, or
      returns a response with a status code and a body. */
  datatype FetchOutcome =
    | MissingSchema
    | ConnectionError
    | OtherRequestError   // any other RequestException, e.g. a read timeout
    | Status(code: int, body: Page)

  /** What `get_html_from_url` returns: the body, or the error message. */
  datatype Document = Body(page: Page) | Message(text: string)

  const NoSuchUrl := "That URL does not exist."

  /** `get_html_from_url`: a missing scheme, a connection error and a status
      outside 200..299 all become the same message; other request errors
      escape. */
  function GetHtmlFromUrl(outcome: FetchOutcome): (r: Outcome<Document>)
    ensures r.Raised? <==> outcome.OtherRequestError?
    ensures r.Raised? ==> r.error == RequestException
    ensures r == Returned(Message(NoSuchUrl)) <==>
      outcome.MissingSchema? || outcome.ConnectionError? || (outcome.Status? && !(200 <= outcome.code <= 299))
    ensures r.Returned? && r.value.Body? <==> outcome.Status? && 200 <= outcome.code <= 299
    ensures r.Returned? && r.value.Body? ==> r.value.page == outcome.body
  {
    match outcome
    case MissingSchema => Returned(Message(NoSuchUrl))
    case ConnectionError => Returned(Message(NoSuchUrl))
    case OtherRequestError => Raised(RequestException)
    case Status(code, body) =>
      if code > 299 || code < 200 then Returned(Message(NoSuchUrl)) else Returned(Body(body))
  }

  /** The document as BeautifulSoup sees it: an error message holds no elements. */
  function Parse(doc: Document): (page: Page)
    ensures doc.Body? ==> page == doc.page
    ensures doc.Message? ==> !page.gameAreaPurchase && !page.corePriceDisplay
  {
    match doc
    case Body(page) => page
    case Message(_) => EmptyPage
  }

  /** A scraped record: the keys `product_id`, `original_price`,
      `discount_price`, `game_title` and `website`. */
  datatype Scraped = Scraped(productId: int, originalPrice: string, discountPrice: string,
                             gameTitle: string, website: string)

  /** `scrape_from_html`. It returns None only when the purchase area is
      missing; a missing price div raises IndexError (`[0]` of an empty
      list) and a missing title raises AttributeError (`.text` of None).
      Texts are taken unstripped. */
  function ScrapeFromHtml(doc: Document, url: string, productId: int): (r: Outcome<Option<Scraped>>)
    ensures r == Returned(None) <==> !Parse(doc).gameAreaPurchase
    ensures r == Raised(IndexError) <==>
      Parse(doc).gameAreaPurchase && (Parse(doc).discountOriginalPrice.None? || Parse(doc).discountFinalPrice.None?)
    ensures r == Raised(AttributeError) <==>
      && Parse(doc).gameAreaPurchase && Parse(doc).discountOriginalPrice.Some? && Parse(doc).discountFinalPrice.Some?
      && Parse(doc).appName.None?
    ensures r.Returned? && r.value.Some? ==>
      var s := r.value.value;
      && s.productId == productId
      && s.website == DashboardEtl.WebsiteFromUrl(url)
      && s.originalPrice == Parse(doc).discountOriginalPrice.value.text
      && s.discountPrice == Parse(doc).discountFinalPrice.value.text
      && s.gameTitle == Parse(doc).appName.value.text
    // a page with the purchase area, both price divs and the title gives a record
    ensures r.Raised? ==> r.error == IndexError || r.error == AttributeError
    ensures && Parse(doc).gameAreaPurchase
            && Parse(doc).discountOriginalPrice.Some? && Parse(doc).discountFinalPrice.Some?
            && Parse(doc).appName.Some? ==>
      r.Returned? && r.value.Some?
  {
    var page := Parse(doc);
    if !page.gameAreaPurchase then Returned(None)
    else if page.discountOriginalPrice.None? then Raised(IndexError)
    else if page.discountFinalPrice.None? then Raised(IndexError)
    else if page.appName.None? then Raised(AttributeError)
    else Returned(Some(Scraped(productId, page.discountOriginalPrice.value.text,
                               page.discountFinalPrice.value.text, page.appName.value.text,
                               DashboardEtl.WebsiteFromUrl(url))))
  }

  /** A row of the product table: `[product_id, url]`. */
  datatype UrlEntry = UrlEntry(productId: int, url: string)

  /** The network, which this model does not decide: the outcome of the
      request made for entry number `i`, to URL `url`. */
  type Network = (nat, string) -> FetchOutcome

  /** One pass of the loop body for entry number `i`. */
  function ExtractOne(i: nat, e: UrlEntry, network: Network): (r: Outcome<Option<Scraped>>)
    ensures network(i, e.url).OtherRequestError? ==> r == Raised(RequestException)
    ensures network(i, e.url).MissingSchema? || network(i, e.url).ConnectionError?
            || (network(i, e.url).Status? && !(200 <= network(i, e.url).code <= 299)) ==>
      r == Returned(None)
    ensures r.Returned? && r.value.Some? ==>
      r.value.value.productId == e.productId && r.value.value.website == DashboardEtl.WebsiteFromUrl(e.url)
  {
    match GetHtmlFromUrl(network(i, e.url))
    case Raised(err) => Raised(err)
    case Returned(doc) => ScrapeFromHtml(doc, e.url, e.productId)
  }

  /** The loop body over the entry list, by position. */
  function ExtractStep(entries: seq<UrlEntry>, network: Network): nat -> Outcome<Option<Scraped>> {
    (i: nat) => if i < |entries| then ExtractOne(i, entries[i], network) else Returned(None)
  }

  /** `main_extraction_process` after the URL query, stated as a function:
      the scraped records that are not None, in URL order, unless some
      entry raises, in which case the first such exception escapes. */
  function ExtractSpec(entries: seq<UrlEntry>, network: Network): (r: Outcome<seq<Scraped>>)
    ensures r.Returned? ==> |r.value| <= |entries|
  {
    Collect(|entries|, ExtractStep(entries, network))
  }

  lemma ExtractStepAt(entries: seq<UrlEntry>, network: Network, i: nat)
    requires i < |entries|
    ensures ExtractStep(entries, network)(i) == ExtractOne(i, entries[i], network)
  {
  }

  /** The loop of `main_extraction_process`. */
  method MainExtractionProcess(entries: seq<UrlEntry>, network: Network) returns (r: Outcome<seq<Scraped>>)
    ensures r == ExtractSpec(entries, network)
  {
    ghost var step := ExtractStep(entries, network);
    var all: seq<Scraped> := [];
    var i := 0;
    while i < |entries|
      invariant 0 <= i <= |entries|
      invariant Collect(i, step) == Returned(all)
    {
      ExtractStepAt(entries, network, i);
      var webUrl := entries[i].url;
      var html := GetHtmlFromUrl(network(i, webUrl));
      if html.Raised? {
        CollectRaisedStays(|entries|, i + 1, step);
        return Raised(html.error);
      }
      var extracted := ScrapeFromHtml(html.value, webUrl, entries[i].productId);
      if extracted.Raised? {
        CollectRaisedStays(|entries|, i + 1, step);
        return Raised(extracted.error);
      }
      CollectSnoc(i, step, all, extracted.value);
      if extracted.value.Some? {
        all := all + [extracted.value.value];
      } else {
        assert all + [] == all;
      }
      i := i + 1;
    }
    return Returned(all);
  }

  /** The run raises exactly when some entry raises, and then with the
      exception of the first such entry. */
  lemma ExtractRaises(entries: seq<UrlEntry>, network: Network)
    ensures ExtractSpec(entries, network).Raised? <==>
      exists i :: 0 <= i < |entries| && ExtractOne(i, entries[i], network).Raised?
    ensures ExtractSpec(entries, network).Raised? ==>
      exists i :: 0 <= i < |entries| && ExtractOne(i, entries[i], network).Raised?
        && ExtractSpec(entries, network).error == ExtractOne(i, entries[i], network).error
        && forall k :: 0 <= k < i ==> ExtractOne(k, entries[k], network).Returned?
  {
    var step := ExtractStep(entries, network);
    CollectRaises(|entries|, step);
    assert forall i :: 0 <= i < |entries| ==> step(i) == ExtractOne(i, entries[i], network);
  }

  /** When nothing raises, the output is exactly the non-None records, in
      URL order: `src[j]` is the entry that produced output `j`, positions
      increase, and every entry with a record has one. */
  lemma ExtractOrigins(entries: seq<UrlEntry>, network: Network) returns (src: seq<nat>)
    requires ExtractSpec(entries, network).Returned?
    ensures var out := ExtractSpec(entries, network).value;
      && |src| == |out|
      && (forall j :: 0 <= j < |src| ==> src[j] < |entries| && ExtractOne(src[j], entries[src[j]], network) == Returned(Some(out[j])))
      && (forall j, k :: 0 <= j < k < |src| ==> src[j] < src[k])
      && (forall i :: 0 <= i < |entries| && ExtractOne(i, entries[i], network) != Returned(None) ==>
            exists j :: 0 <= j < |src| && src[j] == i)
  {
    var step := ExtractStep(entries, network);
    src := CollectOrigins(|entries|, step);
    assert forall i :: 0 <= i < |entries| ==> step(i) == ExtractOne(i, entries[i], network);
  }

  /** Every record is tagged with the product id of its entry and the
      website of its URL. */
  lemma ExtractTags(entries: seq<UrlEntry>, network: Network)
    requires ExtractSpec(entries, network).Returned?
    ensures var out := ExtractSpec(entries, network).value;
      forall j :: 0 <= j < |out| ==>
        exists i :: (0 <= i < |entries|
          && out[j].productId == entries[i].productId
          && out[j].website == DashboardEtl.WebsiteFromUrl(entries[i].url))
  {
    var out := ExtractSpec(entries, network).value;
    var src := ExtractOrigins(entries, network);
    forall j | 0 <= j < |out|
      ensures exists i :: (0 <= i < |entries|
        && out[j].productId == entries[i].productId
        && out[j].website == DashboardEtl.WebsiteFromUrl(entries[i].url))
    {
      var i := src[j];
      var html := GetHtmlFromUrl(network(i, entries[i].url));
      assert ScrapeFromHtml(html.value, entries[i].url, entries[i].productId) == Returned(Some(out[j]));
    }
  }

  /** Every kind of failed fetch gives no record and raises nothing: the
      message parses to a page without a purchase area. */
  lemma FailedFetchSkipped(outcome: FetchOutcome, url: string, productId: int)
    requires outcome.MissingSchema? || outcome.ConnectionError? || (outcome.Status? && !(200 <= outcome.code <= 299))
    ensures GetHtmlFromUrl(outcome).Returned?
    ensures ScrapeFromHtml(GetHtmlFromUrl(outcome).value, url, productId) == Returned(None)
  {
  }

  /** The record a scraped product becomes for the transform stage. */
  function AsRawProduct(s: Scraped): RawProduct {
    RawProduct(Some(IntId(s.productId)), Some(s.discountPrice))
  }

  /** From extraction to transformation: a scraped record is kept exactly
      when its discount price cleans to a positive number, and the kept
      record keeps the product id the extractor tagged it with. */
  lemma TransformKeepsProductId(s: Scraped, now: Timestamp)
    ensures TransformOne(AsRawProduct(s), now).Some? <==>
      Prices.CleanPrice(s.discountPrice).Some? && Prices.CleanPrice(s.discountPrice).value > 0.0
    ensures TransformOne(AsRawProduct(s), now).Some? ==>
      TransformOne(AsRawProduct(s), now).value.productId == s.productId
  {
    TransformOneValid(AsRawProduct(s), now);
  }

  /** The website of the extractor's test URL. */
  lemma WebsiteExample()
    ensures DashboardEtl.WebsiteFromUrl("something.com/something-else") == "something.com"
  {
    var u := "something.com/something-else";
    ExampleFirstCom();
    DashboardEtl.WebsiteFromUrlSpec(u);
    ExampleHost();
  }

  /** The first ".com" of the test URL starts at position 9. */
  lemma ExampleFirstCom()
    ensures FirstOccurrence("something.com/something-else", ".com", 9)
  {
    var u := "something.com/something-else";
    forall k | 0 <= k < 9
      ensures !OccursAt(u, ".com", k)
    {
      NoOccurrenceAt(u, ".com", k, 0);
    }
    assert OccursAt(u, ".com", 9);
  }

  lemma ExampleHost()
    ensures "something.com/something-else"[..9] + ".com" == "something.com"
  {
  }
}
