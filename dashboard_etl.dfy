/** The dashboard's scraping helpers: reducing a URL to its website,
    choosing a scraper by site, the Steam and Amazon scrapers, and the
    age-gate bypass for Steam pages. */
module DashboardEtl {
  import opened Common
  import opened Text
  import opened Html

  const SteamStore := "https://store.steampowered.com"
  const AmazonCom := "https://www.amazon.com"
  const AmazonCo := "https://www.amazon.co."
  const AgeCheckPrefix := "https://store.steampowered.com/agecheck/app/"
  const NotAvailable := "N/A"
  const NoDescription := "No description found."

  // ---------------------------------------------------------------------
  // Websites

  /** `get_website_from_url`: the URL cut just after its first ".com", or
      else just after its first ".co.uk", or else the URL unchanged. */
  function WebsiteFromUrl(url: string): (website: string)
    ensures IsPrefix(website, url)
  {
    if Contains(url, ".com") then
      SplitHeadThenSep(url, ".com");
      Split(url, ".com")[0] + ".com"
    else if Contains(url, ".co.uk") then
      SplitHeadThenSep(url, ".co.uk");
      Split(url, ".co.uk")[0] + ".co.uk"
    else url
  }

  /** The website is the text before the first ".com" followed by ".com";
      only when there is no ".com" does ".co.uk" count, in the same way;
      with neither, the URL is its own website. */
  lemma WebsiteFromUrlSpec(url: string)
    ensures forall i :: FirstOccurrence(url, ".com", i) ==> WebsiteFromUrl(url) == url[..i] + ".com"
    ensures !Occurs(url, ".com") ==>
      forall i :: FirstOccurrence(url, ".co.uk", i) ==> WebsiteFromUrl(url) == url[..i] + ".co.uk"
    ensures !Occurs(url, ".com") && !Occurs(url, ".co.uk") ==> WebsiteFromUrl(url) == url
  {
    SplitHead(url, ".com");
    SplitHead(url, ".co.uk");
    forall i | FirstOccurrence(url, ".com", i)
      ensures WebsiteFromUrl(url) == url[..i] + ".com"
    {
      FirstOccurrenceIsIndexOf(url, ".com", i);
    }
    if !Occurs(url, ".com") {
      forall i | FirstOccurrence(url, ".co.uk", i)
        ensures WebsiteFromUrl(url) == url[..i] + ".co.uk"
      {
        FirstOccurrenceIsIndexOf(url, ".co.uk", i);
      }
    }
  }

  /** A prefix of `url` that ends before `limit` has no occurrence of `pat`
      starting before `limit` that `url` does not also have there. */
  lemma PrefixKeepsOccurrences(w: string, url: string, pat: string)
    requires IsPrefix(w, url)
    ensures forall k :: OccursAt(w, pat, k) ==> OccursAt(url, pat, k)
  {
    forall k | OccursAt(w, pat, k)
      ensures OccursAt(url, pat, k)
    {
      OccursInPrefix(w, url, pat, k);
    }
  }

  /** Normalising a website again leaves it as it is. */
  lemma {:induction false} WebsiteFromUrlIdempotent(url: string)
    ensures WebsiteFromUrl(WebsiteFromUrl(url)) == WebsiteFromUrl(url)
  {
    var w := WebsiteFromUrl(url);
    WebsiteFromUrlSpec(url);
    PrefixKeepsOccurrences(w, url, ".com");
    PrefixKeepsOccurrences(w, url, ".co.uk");
    match IndexOf(url, ".com")
    case Some(i) =>
      assert w == url[..i] + ".com";
      assert OccursAt(w, ".com", i);
      WebsiteFromUrlSpec(w);
    case None =>
      assert !Occurs(w, ".com");
      match IndexOf(url, ".co.uk")
      case Some(j) =>
        assert w == url[..j] + ".co.uk";
        assert OccursAt(w, ".co.uk", j);
        WebsiteFromUrlSpec(w);
      case None =>
  }

  // ---------------------------------------------------------------------
  // Dispatch

  datatype Site = Steam | Amazon | Unsupported

  /** The choice `scrape_pricing_process` makes: Steam when the website
      names the Steam store (checked first), Amazon when the URL names
      amazon.com or the website names an amazon.co.* domain, else nothing. */
  function Route(url: string): (site: Site)
    ensures site == Steam <==> Occurs(WebsiteFromUrl(url), SteamStore)
    ensures site == Amazon <==>
      !Occurs(WebsiteFromUrl(url), SteamStore) && (Occurs(url, AmazonCom) || Occurs(WebsiteFromUrl(url), AmazonCo))
  {
    var website := WebsiteFromUrl(url);
    if Contains(website, SteamStore) then Steam
    else if Contains(url, AmazonCom) || Contains(website, AmazonCo) then Amazon
    else Unsupported
  }

  /** What the routing guarantees about the URL: a Steam route means the URL
      names the Steam store, an Amazon route means it names an Amazon domain,
      and a URL naming amazon.com is never left unrouted. */
  lemma RouteSound(url: string)
    ensures Route(url) == Steam ==> Occurs(url, SteamStore)
    ensures Route(url) == Amazon ==> Occurs(url, "https://www.amazon.co")
    ensures Occurs(url, AmazonCom) ==> Route(url) != Unsupported
  {
    var w := WebsiteFromUrl(url);
    PrefixKeepsOccurrences(w, url, SteamStore);
    PrefixKeepsOccurrences(w, url, AmazonCo);
    assert OccursAt(AmazonCom, "https://www.amazon.co", 0);
    assert OccursAt(AmazonCo, "https://www.amazon.co", 0);
    if Route(url) == Amazon {
      if Contains(url, AmazonCom) {
        var k := IndexOf(url, AmazonCom).value;
        OccursTransitive(url, AmazonCom, "https://www.amazon.co", k, 0);
      } else {
        var k := IndexOf(w, AmazonCo).value;
        OccursTransitive(url, AmazonCo, "https://www.amazon.co", k, 0);
      }
    }
  }

  // ---------------------------------------------------------------------
  // Scrapers

  /** What a scraper returns. Both kinds carry the two price texts, the title
      and the website; a Steam listing also carries an image and a description. */
  datatype Listing =
    | SteamListing(originalPrice: string, discountPrice: string, gameTitle: string,
                   imageUrl: Option<string>, productDescription: string, website: string)
    | AmazonListing(originalPrice: string, discountPrice: string, gameTitle: string, website: string)

  /** The Steam price tiers: the discount pair when both of its elements are
      present, else the single regular price for both, else "N/A" for both. */
  function SteamPrices(page: Page): (prices: (string, string))
    ensures page.discountOriginalPrice.Some? && page.discountFinalPrice.Some? ==>
      prices == (Strip(page.discountOriginalPrice.value.text), Strip(page.discountFinalPrice.value.text))
    // without the discount pair there is one price, used for both
    ensures !(page.discountOriginalPrice.Some? && page.discountFinalPrice.Some?) ==> prices.0 == prices.1
    ensures !(page.discountOriginalPrice.Some? && page.discountFinalPrice.Some?) ==>
      prices.0 == if page.purchasePrice.Some? then Strip(page.purchasePrice.value.text) else NotAvailable
  {
    if page.discountOriginalPrice.Some? && page.discountFinalPrice.Some? then
      (Strip(page.discountOriginalPrice.value.text), Strip(page.discountFinalPrice.value.text))
    else if page.purchasePrice.Some? then
      (Strip(page.purchasePrice.value.text), Strip(page.purchasePrice.value.text))
    else
      (NotAvailable, NotAvailable)
  }

  /** `scrape_from_steam_html`. */
  function ScrapeSteamHtml(page: Page, url: string): (r: Outcome<Option<Listing>>)
    // fail-closed: no purchase area or no title gives None, whatever else the page holds
    ensures r == Returned(None) <==> !page.gameAreaPurchase || page.appName.None?
    // `image_element['src']` on an image without that attribute raises KeyError
    ensures r.Raised? <==>
      page.gameAreaPurchase && page.appName.Some? && page.headerImage.Some? && page.headerImage.value.src.None?
    ensures r.Raised? ==> r.error == KeyError
    ensures r.Returned? && r.value.Some? ==>
      var l := r.value.value;
      && l.SteamListing?
      && l.gameTitle == Strip(page.appName.value.text)
      && l.website == WebsiteFromUrl(url)
      && (page.discountOriginalPrice.Some? && page.discountFinalPrice.Some? ==>
            l.originalPrice == Strip(page.discountOriginalPrice.value.text)
            && l.discountPrice == Strip(page.discountFinalPrice.value.text))
      && (!(page.discountOriginalPrice.Some? && page.discountFinalPrice.Some?) && page.purchasePrice.Some? ==>
            l.originalPrice == l.discountPrice == Strip(page.purchasePrice.value.text))
      && (!(page.discountOriginalPrice.Some? && page.discountFinalPrice.Some?) && page.purchasePrice.None? ==>
            l.originalPrice == l.discountPrice == NotAvailable)
      && (page.headerImage.None? ==> l.imageUrl.None?)
      && (page.headerImage.Some? ==> l.imageUrl == page.headerImage.value.src)
      && l.productDescription ==
           (if page.descriptionSnippet.Some? then Strip(page.descriptionSnippet.value.text) else NoDescription)
  {
    if !page.gameAreaPurchase then Returned(None)
    else if page.appName.None? then Returned(None)
    else if page.headerImage.Some? && page.headerImage.value.src.None? then Raised(KeyError)
    else
      var imageUrl := if page.headerImage.Some? then page.headerImage.value.src else None;
      var description :=
        if page.descriptionSnippet.Some? then Strip(page.descriptionSnippet.value.text) else NoDescription;
      var (original, discount) := SteamPrices(page);
      Returned(Some(SteamListing(original, discount, Strip(page.appName.value.text),
                                 imageUrl, description, WebsiteFromUrl(url))))
  }

  /** `scrape_from_amazon_html`. */
  function ScrapeAmazonHtml(page: Page, url: string): (r: Outcome<Option<Listing>>)
    // fail-closed on the price block and on the title
    ensures r == Returned(None) <==> !page.corePriceDisplay || page.productTitle.None?
    // a missing price span (or its enclosing div) makes `.find`/`.text` act on None
    ensures r.Raised? <==>
      page.corePriceDisplay && page.productTitle.Some?
      && (page.offscreenDiscount.None? || page.offscreenOriginal.None?)
    ensures r.Raised? ==> r.error == AttributeError
    ensures r.Returned? && r.value.Some? ==>
      var l := r.value.value;
      && l.AmazonListing?
      && l.originalPrice == page.offscreenOriginal.value.text
      && l.discountPrice == page.offscreenDiscount.value.text
      && l.gameTitle == Strip(page.productTitle.value.text)
      && l.website == WebsiteFromUrl(url)
  {
    if !page.corePriceDisplay then Returned(None)
    else if page.productTitle.None? then Returned(None)
    else if page.offscreenDiscount.None? || page.offscreenOriginal.None? then Raised(AttributeError)
    else Returned(Some(AmazonListing(page.offscreenOriginal.value.text, page.offscreenDiscount.value.text,
                                     Strip(page.productTitle.value.text), WebsiteFromUrl(url))))
  }

  /** `scrape_pricing_process`: the scraper the route selects, or None. */
  function ScrapePricingProcess(page: Page, url: string): (r: Outcome<Option<Listing>>)
    ensures Route(url) == Unsupported ==> r == Returned(None)
    ensures Route(url) == Steam ==> r == ScrapeSteamHtml(page, url)
    ensures Route(url) == Amazon ==> r == ScrapeAmazonHtml(page, url)
  {
    match Route(url)
    case Steam => ScrapeSteamHtml(page, url)
    case Amazon => ScrapeAmazonHtml(page, url)
    case Unsupported => Returned(None)
  }

  /** Every listing the dispatcher produces is tagged with a website that is
      a prefix of the URL, that normalises to itself, and, for Steam
      listings, that names the Steam store. */
  lemma ListingWebsite(page: Page, url: string)
    requires ScrapePricingProcess(page, url).Returned?
    requires ScrapePricingProcess(page, url).value.Some?
    ensures var l := ScrapePricingProcess(page, url).value.value;
      && IsPrefix(l.website, url)
      && WebsiteFromUrl(l.website) == l.website
      && (l.SteamListing? ==> Occurs(l.website, SteamStore))
      && (l.SteamListing? <==> Route(url) == Steam)
  {
    WebsiteFromUrlIdempotent(url);
  }

  // ---------------------------------------------------------------------
  // Age gate

  /** `url.split('/app/')[1].split('/')[0]`: IndexError when "/app/" does not occur. */
  function AppId(url: string): (r: Outcome<string>)
    ensures r.Raised? <==> !Occurs(url, "/app/")
    ensures r.Raised? ==> r.error == IndexError
  {
    SplitHead(url, "/app/");
    var parts := Split(url, "/app/");
    if |parts| < 2 then Raised(IndexError) else Returned(Split(parts[1], "/")[0])
  }

  /** The app id is the text after the first "/app/" up to the next "/" (or
      the end of the URL). */
  lemma AppIdSpec(url: string, i: int)
    requires FirstOccurrence(url, "/app/", i)
    ensures AppId(url).Returned?
    ensures var id, rest := AppId(url).value, url[i + 5..];
      && IsPrefix(id, rest)
      && '/' !in id
      && (|id| == |rest| || rest[|id|] == '/')
  {
    FirstOccurrenceIsIndexOf(url, "/app/", i);
    var rest := url[i + 5..];
    SplitHead(url, "/app/");
    var piece := Split(rest, "/app/")[0];
    assert Split(url, "/app/")[1] == piece;
    SplitHeadPiece(rest, "/app/");
    assert |piece| == |rest| || rest[|piece|] == '/' by {
      if piece != rest {
        assert rest[|piece|..|piece| + 5][0] == rest[|piece|];
      }
    }
    var id := Split(piece, "/")[0];
    assert AppId(url).value == id;
    SplitHeadPiece(piece, "/");
    OccursAtChar(id, '/');
    OccursAtChar(piece, '/');
    if id != piece {
      assert piece[|id|] == '/';
    }
  }

  /** The age-check URL for a Steam URL: the app id placed in the agecheck path. */
  function BypassUrl(url: string): (r: Outcome<string>)
    ensures r.Raised? <==> !Occurs(url, "/app/")
    ensures r.Returned? ==> IsPrefix(AgeCheckPrefix, r.value) && r.value[|r.value| - 1] == '/'
  {
    match AppId(url)
    case Raised(e) => Raised(e)
    case Returned(id) => Returned(AgeCheckPrefix + id + "/")
  }

  /** The bypass URL is the agecheck path, then the app id of the URL (the
      text after its first "/app/" up to the next "/" or the end), then "/". */
  lemma BypassUrlSpec(url: string, i: int)
    requires FirstOccurrence(url, "/app/", i)
    ensures exists id ::
      && BypassUrl(url) == Returned(AgeCheckPrefix + id + "/")
      && IsPrefix(id, url[i + 5..]) && '/' !in id
      && (|id| == |url[i + 5..]| || url[i + 5..][|id|] == '/')
  {
    AppIdSpec(url, i);
    var id := AppId(url).value;
    assert BypassUrl(url) == Returned(AgeCheckPrefix + id + "/");
  }

  /** In a URL that starts with the agecheck path, the first "/app/" is the
      one that ends that path. */
  lemma AgeCheckPathFirstApp(b: string)
    requires IsPrefix(AgeCheckPrefix, b)
    ensures FirstOccurrence(b, "/app/", 39)
  {
    forall k | 0 <= k < 39
      ensures !OccursAt(AgeCheckPrefix, "/app/", k)
    {
      if k == 6 || k == 7 {
        NoOccurrenceAt(AgeCheckPrefix, "/app/", k, 1);
      } else if k == 30 {
        NoOccurrenceAt(AgeCheckPrefix, "/app/", k, 2);
      } else {
        NoOccurrenceAt(AgeCheckPrefix, "/app/", k, 0);
      }
    }
    assert OccursAt(AgeCheckPrefix, "/app/", 39);
    forall k | 0 <= k <= 39
      ensures OccursAt(b, "/app/", k) == OccursAt(AgeCheckPrefix, "/app/", k)
    {
      assert b[k..k + 5] == AgeCheckPrefix[k..k + 5];
    }
  }

  /** The bypass URL carries the same app id as the URL it was made from. */
  lemma BypassUrlKeepsAppId(url: string)
    requires BypassUrl(url).Returned?
    ensures AppId(BypassUrl(url).value) == AppId(url)
  {
    var id := AppId(url).value;
    var i := IndexOf(url, "/app/").value;
    AppIdSpec(url, i);
    var b := BypassUrl(url).value;
    assert b == AgeCheckPrefix + id + "/";
    AgeCheckPathFirstApp(b);
    AppIdSpec(b, 39);
    SegmentUnique(AppId(b).value, id, b[44..]);
  }

  /** Two slash-free prefixes of a text that each stop at a slash or at the
      end of the text are the same. */
  lemma SegmentUnique(x: string, y: string, rest: string)
    requires IsPrefix(x, rest) && '/' !in x && (|x| == |rest| || rest[|x|] == '/')
    requires IsPrefix(y, rest) && '/' !in y && (|y| == |rest| || rest[|y|] == '/')
    ensures x == y
  {
  }

  /** A reply to one request: a RequestException (including the HTTPError of
      `raise_for_status`' caller-side check), or a response. */
  datatype Reply = Failed | Response(status: int, page: Page)

  /** The requests the bypass issues, in order. */
  datatype Request = Get(url: string) | PostForm(url: string, form: seq<(string, string)>)

  const AgeGateForm: seq<(string, string)> := [("ageDay", "1"), ("ageMonth", "January"), ("ageYear", "1990")]

  datatype Fetch = Fetch(sent: seq<Request>, result: Outcome<Option<Page>>)

  /** `raise_for_status` raises for client and server errors. */
  predicate RaisesForStatus(status: int) {
    400 <= status < 600
  }

  /** `get_html_with_age_gate_bypass`, with the three replies as parameters:
      a GET to establish the session, a POST of the fixed birth date to the
      bypass URL, and a second GET whose body is returned. A RequestException
      anywhere gives None; the IndexError of a URL without "/app/" escapes. */
  function FetchWithAgeGateBypass(url: string, landing: Reply, ageCheck: Reply, product: Reply): (f: Fetch)
    ensures |f.sent| > 0 && f.sent[0] == Get(url)
    ensures f.result.Raised? <==> landing.Response? && !Occurs(url, "/app/")
    ensures f.result.Raised? ==> f.result.error == IndexError
    ensures |f.sent| > 1 ==> BypassUrl(url).Returned? && f.sent[1] == PostForm(BypassUrl(url).value, AgeGateForm)
    ensures f.result.Returned? && f.result.value.Some? ==>
      && BypassUrl(url).Returned?
      && f.sent == [Get(url), PostForm(BypassUrl(url).value, AgeGateForm), Get(url)]
      && landing.Response? && ageCheck.Response? && product.Response?
      && !RaisesForStatus(product.status)
      && f.result.value.value == product.page
    // and conversely: three replies, the last one accepted, give its page
    ensures landing.Response? && ageCheck.Response? && product.Response? && !RaisesForStatus(product.status)
            && Occurs(url, "/app/") ==>
      && BypassUrl(url).Returned?
      && f == Fetch([Get(url), PostForm(BypassUrl(url).value, AgeGateForm), Get(url)], Returned(Some(product.page)))
    // a RequestException from any request, or an error status on the last reply, gives None
    ensures landing.Failed? ==> f.result == Returned(None)
    ensures Occurs(url, "/app/") && (ageCheck.Failed? || product.Failed? || RaisesForStatus(product.status)) ==>
      f.result == Returned(None)
  {
    if landing.Failed? then Fetch([Get(url)], Returned(None))
    else match BypassUrl(url)
      case Raised(e) => Fetch([Get(url)], Raised(e))
      case Returned(bypass) =>
        var sent := [Get(url), PostForm(bypass, AgeGateForm)];
        if ageCheck.Failed? then Fetch(sent, Returned(None))
        else if product.Failed? || RaisesForStatus(product.status) then Fetch(sent + [Get(url)], Returned(None))
        else Fetch(sent + [Get(url)], Returned(Some(product.page)))
  }

  // ---------------------------------------------------------------------
  // Worked examples from the dashboard's tests

  /** The Steam app page of the tests normalises to the Steam store and is
      routed to the Steam scraper. */
  lemma SteamRouteExample()
    ensures WebsiteFromUrl("https://store.steampowered.com/app/12345/") == SteamStore
    ensures Route("https://store.steampowered.com/app/12345/") == Steam
  {
    var u := "https://store.steampowered.com/app/12345/";
    SteamExampleFirstCom();
    SteamExampleHost();
    WebsiteAtFirstCom(u, 26, SteamStore);
    SteamStoreRoute(u);
  }

  /** The first ".com" of the Steam test URL starts at position 26. */
  lemma SteamExampleFirstCom()
    ensures FirstOccurrence("https://store.steampowered.com/app/12345/", ".com", 26)
  {
    var u := "https://store.steampowered.com/app/12345/";
    forall k | 0 <= k < 26
      ensures !OccursAt(u, ".com", k)
    {
      if k == 13 {
        NoOccurrenceAt(u, ".com", k, 1);
      } else {
        NoOccurrenceAt(u, ".com", k, 0);
      }
    }
    assert OccursAt(u, ".com", 26);
  }

  lemma SteamExampleHost()
    ensures "https://store.steampowered.com/app/12345/"[..26] + ".com" == SteamStore
  {
  }

  /** The website of a URL whose first ".com" is at `i`. */
  lemma WebsiteAtFirstCom(url: string, i: int, website: string)
    requires FirstOccurrence(url, ".com", i) && url[..i] + ".com" == website
    ensures WebsiteFromUrl(url) == website
  {
    WebsiteFromUrlSpec(url);
  }

  /** A URL whose website is the Steam store goes to the Steam scraper. */
  lemma SteamStoreRoute(url: string)
    requires WebsiteFromUrl(url) == SteamStore
    ensures Route(url) == Steam
  {
    FirstOccurrenceIsIndexOf(SteamStore, SteamStore, 0);
  }

  /** A URL with neither ".com" nor ".co.uk" is its own website. */
  lemma NoMarkerExample()
    ensures WebsiteFromUrl("https://test.testing/invalid") == "https://test.testing/invalid"
  {
    var v := "https://test.testing/invalid";
    forall k | 0 <= k < |v|
      ensures !OccursAt(v, ".com", k)
    {
      if k == 12 {
        NoOccurrenceAt(v, ".com", k, 1);
      } else {
        NoOccurrenceAt(v, ".com", k, 0);
      }
    }
    forall k | 0 <= k < |v|
      ensures !OccursAt(v, ".co.uk", k)
    {
      if k == 12 {
        NoOccurrenceAt(v, ".co.uk", k, 1);
      } else {
        NoOccurrenceAt(v, ".co.uk", k, 0);
      }
    }
    WebsiteFromUrlSpec(v);
  }
}
