/** The product page as the scrapers see it. Parsing HTML is not modelled:
    a page is the list of answers BeautifulSoup gives to the lookups the
    scrapers make, each one an element or nothing. */
module Html {
  import opened Common

  /** A found element: its text and, when it has one, its `src` attribute. */
  datatype Element = Element(text: string, src: Option<string>)

  datatype Page = Page(
    // Steam lookups
    gameAreaPurchase: bool,                  // the element with id "game_area_purchase"
    discountOriginalPrice: Option<Element>,  // first div.discount_original_price inside it
    discountFinalPrice: Option<Element>,     // first div.discount_final_price inside it
    appName: Option<Element>,                // id "appHubAppName", class "apphub_AppName"
    purchasePrice: Option<Element>,          // div.game_purchase_price.price carrying data-price-final
    headerImage: Option<Element>,            // img.game_header_image_full
    descriptionSnippet: Option<Element>,     // div.game_description_snippet
    // Amazon lookups
    corePriceDisplay: bool,                  // div with id "corePriceDisplay_desktop_feature_div"
    productTitle: Option<Element>,           // the element with id "productTitle"
    offscreenDiscount: Option<Element>,      // span.aok-offscreen in the discount div; None when either lookup fails
    offscreenOriginal: Option<Element>       // span.a-offscreen in the original-price div; None when either lookup fails
  )

  /** A document with no elements at all, which is what an error message
      such as "That URL does not exist." becomes when parsed as HTML. */
  const EmptyPage: Page := Page(false, None, None, None, None, None, None, false, None, None, None)
}
