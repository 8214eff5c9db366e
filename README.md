# PriceSlashTrack in Dafny

PriceSlashTrack follows game prices on the Steam store and on Amazon. It has
two parts, and this project models the decision logic of both:

- **A dashboard** scrapes one product page when a user adds a product.
- **A pipeline** runs on a timer and has four stages:
  1. Extract: fetch every tracked page and scrape the prices.
  2. Transform: clean the price text into numbers.
  3. Load: insert the numbers into `price_changes` and commit the batch.
  4. Clean up: remove products nobody subscribes to any more.

The model is in nine modules:

| module | file | what it holds |
|---|---|---|
| `Common` | `common.dfy` | `Option`; `Outcome`, which stands for an exception that escapes; generic filter lemmas. |
| `Text` | `text.dfy` | Python's `in`, `split`, `strip` and one-character `replace` on strings. |
| `Html` | `html.dfy` | A page as the list of answers BeautifulSoup gives to the scrapers' lookups. |
| `DashboardEtl` | `dashboard_etl.dfy` | Website normalisation, scraper dispatch, the Steam and Amazon scrapers, and the Steam age-gate URL logic. |
| `Prices` | `prices.dfy` | `clean_price`. It appears twice in the repository, with the same body, and is modelled once. |
| `Transform` | `transform.dfy` | The transform loop, as a method proved equal to a specification function. |
| `Load` | `load.dfy` | The loader, against a `Connection` class. |
| `Extract` | `extract.dfy` | Fetch classification, `scrape_from_html`, and the extraction loop. |
| `RemoveSubscribers` | `remove_subscribers.dfy` | The orphan cleanup, against a `Database` class. |

`get_website_from_url` also appears twice with the same code: in
`streamlit_dashboard/dashboard_etl.py` and in `pipeline/extract.py`. It is
modelled once, as `DashboardEtl.WebsiteFromUrl`, and `Extract` uses that copy.

Some things in the outside world are not decided by the model; they are
inputs:

- **Network replies:** `FetchOutcome`, `Reply`, and a `Network` function from entry position to outcome.
- **Page content:** an `Html.Page` record.
- **The clock:** a `Timestamp` parameter.
- **Which statements fail:** a `failing` set of statement positions, held by each connection class.

Python exceptions that escape a function appear as `Raised(error)`. Exceptions
the source catches appear as the value the source returns when it catches
them.

## Model

| member | source | states |
|---|---|---|
| `Text.IndexOf` | streamlit_dashboard/dashboard_etl.py:52 | `pat in s` holds exactly when an index is found, and the index is the leftmost occurrence. |
| `Text.SplitJoin` | streamlit_dashboard/dashboard_etl.py:53 | `split` then `join` gives back the text, and no piece contains the separator. |
| `Text.SplitHead` | streamlit_dashboard/dashboard_etl.py:53 | `split` gives at least two pieces exactly when the separator occurs. The first piece is the text before the leftmost occurrence, or the whole text when there is none. |
| `Text.Strip` | streamlit_dashboard/dashboard_etl.py:131 | `strip()` gives an infix of the text with only whitespace cut off either side, and the result neither starts nor ends with whitespace. |
| `Text.StripIdempotent` | streamlit_dashboard/dashboard_etl.py:131 | Stripping twice is the same as stripping once. |
| `Text.StripKeepsOnly` | streamlit_dashboard/dashboard_etl.py:131 | Every character of the stripped text is a character of the input. |
| `Text.RemoveChar` | streamlit_dashboard/dashboard_etl.py:169-170 | `replace(c, "")` leaves no `c`, and the result is a sub-multiset of the input. |
| `Text.RemoveCharKeeps` | streamlit_dashboard/dashboard_etl.py:169-170 | Every character other than `c` survives `replace(c, "")`. |
| `DashboardEtl.WebsiteFromUrl` | streamlit_dashboard/dashboard_etl.py:49-56 | The website is always a prefix of the URL. |
| `DashboardEtl.WebsiteFromUrlSpec` | streamlit_dashboard/dashboard_etl.py:49-56 | The website is the text before the first ".com", followed by ".com". Only when there is no ".com" is the same done with ".co.uk". With neither, the URL is returned unchanged. |
| `DashboardEtl.WebsiteFromUrlIdempotent` | streamlit_dashboard/dashboard_etl.py:49-56 | Normalising a website a second time leaves it as it is. |
| `DashboardEtl.NoMarkerExample` | streamlit_dashboard/test_dashboard.py:30-34 | A URL with neither marker is its own website. |
| `DashboardEtl.Route` | streamlit_dashboard/dashboard_etl.py:62-67 | The route is Steam exactly when the website contains the Steam store address. It is Amazon exactly when it is not Steam and the URL contains amazon.com or the website contains amazon.co. |
| `DashboardEtl.RouteSound` | streamlit_dashboard/dashboard_etl.py:59-72 | A Steam route means the URL names the Steam store. An Amazon route means it names an Amazon domain. A URL containing amazon.com is never left unrouted. |
| `DashboardEtl.ScrapePricingProcess` | streamlit_dashboard/dashboard_etl.py:59-72 | Steam is checked first, then Amazon. An unsupported URL gives None. Otherwise the result is exactly what the chosen scraper returns. |
| `DashboardEtl.ScrapeSteamHtml` | streamlit_dashboard/dashboard_etl.py:106-163 | See the first note under the table. |
| `DashboardEtl.ScrapeAmazonHtml` | streamlit_dashboard/dashboard_etl.py:75-103 | See the second note under the table. |
| `DashboardEtl.SteamPrices` | streamlit_dashboard/dashboard_etl.py:143-153 | Both discount divs give the stripped pair. Otherwise both prices are the same: the stripped regular price, or "N/A" without one. |
| `DashboardEtl.ListingWebsite` | streamlit_dashboard/dashboard_etl.py:59-72 | Every listing's website is a prefix of the URL and normalises to itself. A listing is a Steam listing exactly when the route is Steam, and a Steam listing's website names the Steam store. |
| `DashboardEtl.SteamRouteExample` | streamlit_dashboard/test_dashboard.py:46-69 | The tests' Steam app URL normalises to the Steam store and goes to the Steam scraper. |
| `DashboardEtl.AppId` | streamlit_dashboard/dashboard_etl.py:14 | Taking the app id raises IndexError exactly when the URL has no "/app/". |
| `DashboardEtl.AppIdSpec` | streamlit_dashboard/dashboard_etl.py:14 | The app id is the text after the first "/app/", up to the next "/" or the end of the URL. |
| `DashboardEtl.BypassUrl` | streamlit_dashboard/dashboard_etl.py:21 | A bypass URL exists exactly when the URL has an app id. It starts with the agecheck path and ends with "/". |
| `DashboardEtl.BypassUrlSpec` | streamlit_dashboard/dashboard_etl.py:14-21 | The bypass URL is the agecheck path, then the text after the first "/app/" up to the next "/" or the end, then "/". |
| `DashboardEtl.BypassUrlKeepsAppId` | streamlit_dashboard/dashboard_etl.py:21 | The bypass URL carries the same app id as the URL it was built from. |
| `DashboardEtl.FetchWithAgeGateBypass` | streamlit_dashboard/dashboard_etl.py:8-30 | See the third note under the table. |
| `Prices.ParseDecimal` | streamlit_dashboard/dashboard_etl.py:169 | A negative number is read only from text that starts with "-". |
| `Prices.ParseUnsigned` | streamlit_dashboard/dashboard_etl.py:169 | A number without a sign is never negative. |
| `Prices.Cleaned` | streamlit_dashboard/dashboard_etl.py:169-170 | The cleaned text neither starts nor ends with whitespace. |
| `Prices.CleanedAlphabet` | streamlit_dashboard/dashboard_etl.py:169-170 | The cleaned text holds no "£" and no ",". |
| `Prices.CleanPrice` | streamlit_dashboard/dashboard_etl.py:166-173 | Every result is ≥ 0. The result is None exactly when the cleaned text does not parse or parses to a negative number. Otherwise it is the parsed number. |
| `Prices.CleanFormattedPrice` | pipeline/transform.py:14-21 | Round trip: `n` pence written as "£" + pounds "." two digits cleans to `n / 100`. |
| `Prices.CleanIgnoresSeparator` | pipeline/transform.py:17-18 | A "," anywhere in the text does not change the result. |
| `Prices.NegativeAfterPoundRejected` | pipeline/transform.py:19 | "£-" followed by a non-zero amount gives None. |
| `Prices.NegativeBeforePoundRejected` | pipeline/transform.py:19 | "-£" followed by a non-zero amount gives None. |
| `Prices.CleanPriceExample` | pipeline/test_transform.py:6-10 | "£22.49" gives 22.49. |
| `Prices.CleanPriceSeparatorExample` | pipeline/test_transform.py:6-10 | "£1,234.56" gives 1234.56. |
| `Prices.CleanPriceZeroExample` | pipeline/test_transform.py:6-10 | "£0.00" gives 0.0. |
| `Prices.CleanPriceNegativeExample` | pipeline/test_transform.py:13-17 | "£-10.00" gives None. |
| `Prices.CleanPriceRejectsText` | pipeline/test_transform.py:13-17 | "sdfa" and "" give None. |
| `Transform.ParseInt` | pipeline/transform.py:38 | `int()` succeeds only on text that is non-empty after stripping, and reads a negative only after a leading "-". |
| `Transform.ParseSignedDigits` | pipeline/transform.py:38 | What `int()` accepts after stripping starts with a sign or a digit, and a negative result needs a leading "-". |
| `Transform.ParseIntText` | pipeline/transform.py:38 | `int(str(n)) == n` for every integer. |
| `Transform.IntOf` | pipeline/transform.py:38 | An integer id is kept as it is. A text id is accepted exactly when `int()` accepts it, and only when non-empty after stripping; a negative needs a leading "-". |
| `Transform.TransformOne` | pipeline/transform.py:29-46 | Every record kept has a positive price and the timestamp passed in. |
| `Transform.TransformOneValid` | pipeline/transform.py:29-46 | A record is kept exactly when its discount price cleans to a positive number and its product id is accepted by `int()`. The kept record carries that price and that id. |
| `Transform.TransformOneKept` | pipeline/transform.py:36-41 | A positive clean price and an integer id give exactly the record (price, id, now). |
| `Transform.TransformOneSkipped` | pipeline/transform.py:29-46 | A missing discount price, an unparseable or negative price, or a missing id skips the record. |
| `Transform.ZeroPriceSkipped` | pipeline/transform.py:30-34 | A price of exactly zero is dropped, because of `if not price`. |
| `Transform.TransformSpec` | pipeline/transform.py:28-48 | The output is no longer than the input. |
| `Transform.TransformProductData` | pipeline/transform.py:24-48 | The loop returns exactly `TransformSpec` of its input. |
| `Transform.TransformAppend` | pipeline/transform.py:28-41 | Transforming a concatenation gives the concatenation of the transformed parts, so input order is kept. |
| `Transform.TransformOrigins` | pipeline/transform.py:28-41 | See the fourth note under the table. |
| `Transform.TransformEmpty` | pipeline/transform.py:28-46 | The output is empty exactly when no record is valid. |
| `Transform.TransformExample` | pipeline/test_transform.py:20-29 | The tests' valid record becomes (22.49, 1, now). |
| `Transform.TransformInvalidExample` | pipeline/test_transform.py:32-41 | The tests' three invalid records give an empty list. |
| `Load.Connection.ExecuteInsert` | pipeline/load.py:11-18 | An insert succeeds exactly when the transaction is not aborted and its position is not a failing one. A failed insert leaves the transaction aborted. On success the row joins the pending rows. Every attempt is counted. |
| `Load.Connection.Commit` | pipeline/load.py:55 | The pending rows are appended to the committed rows, unless the transaction is aborted: then they are discarded, as PostgreSQL does with a COMMIT of an aborted transaction. Either way the transaction is healthy again, and one commit is counted. |
| `Load.Connection.Rollback` | pipeline/load.py:61 | The pending rows are discarded, the transaction is healthy again, and one rollback is counted. |
| `Load.Connection.Savepoint` | pipeline/load.py:41-51 | Used only by the corrected loader: on a healthy transaction it marks the pending rows; on an aborted one it fails and changes nothing. |
| `Load.Connection.RollbackToSavepoint` | pipeline/load.py:49-51 | Used only by the corrected loader: the pending rows after the mark are dropped and the transaction is healthy again. |
| `Load.InsertPriceChange` | pipeline/load.py:8-19 | One insert of the row (price, product_id, timestamp), in that column order, with the success and abort rule of `ExecuteInsert`. Nothing is committed. |
| `Load.FetchFirst` | pipeline/load.py:24-27 | `fetchone()` after the select: the first row with the id, with no earlier match, or None exactly when no row has it. |
| `Load.ProductIdExists` | pipeline/load.py:22-29 | It raises exactly when the transaction is aborted. Otherwise it is true exactly when some row of the product table has that id, found by a first-match search over the rows. |
| `Load.RowOf` | pipeline/load.py:37-39 | A record gives a row exactly when it has all three keys, and the row carries their values. |
| `Load.Attempted` | pipeline/load.py:36-51 | At most one attempt per record. |
| `Load.AttemptedOrigins` | pipeline/load.py:36-47 | Exactly the well-formed records are attempted, in input order. |
| `Load.Passed` | pipeline/load.py:41-51 | How many attempts go in before the first rejected one: none of them is rejected, and the attempt right after them, if there is one, is. |
| `Load.Inserted` | pipeline/load.py:41-51 | The rows that go in as the code is written: an initial run of the attempted rows, none of whose inserts is rejected, ending exactly at the first rejected insert. |
| `Load.AfterInsertsPassed` | pipeline/load.py:41-51 | A run of inserts leaves the transaction aborted exactly when it was aborted already or one insert is rejected, and adds the `Inserted` rows only when it was healthy. |
| `Load.LoadCommitted` | pipeline/load.py:53-62 | What the load commits: the pending rows and the whole batch when the transaction was healthy, the batch is not empty and no insert of it is rejected; nothing otherwise. |
| `Load.LoadPriceChanges` | pipeline/load.py:32-62 | See the fifth note under the table. |
| `Load.Accepted` | pipeline/load.py:41-51 | The rows whose own insert is not rejected, in order; no more than were attempted. |
| `Load.AcceptedAppend` | pipeline/load.py:41-51 | What is accepted from a concatenation is what is accepted from each part. Rejections are independent. |
| `Load.AcceptedNoFailures` | pipeline/load.py:41-51 | With no rejected attempt, every attempted row is accepted. |
| `Load.AcceptedAllFail` | pipeline/load.py:49-51 | With every attempt rejected, nothing is accepted. |
| `Load.InsertedPrefixOfAccepted` | pipeline/load.py:41-51 | What goes in as written is an initial run of what a row-by-row acceptance would keep. |
| `Load.LoadPriceChangesSavepoint` | pipeline/load.py:41-62 | The corrected loader, with a savepoint per insert: one commit and exactly the accepted rows added to the committed ones when some row is accepted, and otherwise one rollback with nothing committed. |
| `Load.LostBatchExample` | pipeline/load.py:41-57 | Two well-formed records whose second insert is rejected: one row is counted, so the code commits and logs one row committed, yet nothing is kept; the corrected loader keeps the first row. |
| `Load.EmptyBatchInsertsNothing` | pipeline/test_load.py:83-91 | An empty batch attempts nothing, so it is rolled back and nothing new is committed. |
| `Load.LoadExample` | pipeline/test_load.py:50-65 | Of the tests' two records, only the complete one is attempted. |
| `Extract.GetHtmlFromUrl` | pipeline/extract.py:37-47 | A missing schema, a connection error and a status outside 200–299 all give "That URL does not exist.". A 2xx status gives the body. Any other RequestException escapes. |
| `Extract.Parse` | pipeline/extract.py:68-74 | A body parses to its page. The error message parses to a page with no purchase area. |
| `Extract.ScrapeFromHtml` | pipeline/extract.py:60-89 | See the sixth note under the table. |
| `Extract.FailedFetchSkipped` | pipeline/extract.py:70-74 | Every kind of failed fetch yields no record and raises nothing. |
| `Extract.ExtractSpec` | pipeline/extract.py:99-109 | At most one record per URL. |
| `Extract.ExtractOne` | pipeline/extract.py:101-107 | A request error other than the caught ones raises. A missing schema, a connection error or a status outside 200–299 gives no record. A record carries the entry's product id and the website of its URL. |
| `Extract.MainExtractionProcess` | pipeline/extract.py:92-109 | The loop returns exactly `ExtractSpec`. |
| `Extract.ExtractRaises` | pipeline/extract.py:101-108 | The run raises exactly when some entry raises, and then with the first such entry's error. |
| `Extract.ExtractOrigins` | pipeline/extract.py:99-109 | When nothing raises, the output is exactly the non-None records, in URL order. |
| `Extract.ExtractTags` | pipeline/extract.py:83-87 | Every record carries the product id of an entry, and the website of that same entry's URL. |
| `Extract.TransformKeepsProductId` | pipeline/transform.py:36-40 | A scraped record survives the transform exactly when its discount text cleans to a positive price. It keeps its product id. |
| `Extract.WebsiteExample` | pipeline/test_extract.py:12-15 | "something.com/something-else" normalises to "something.com". |
| `RemoveSubscribers.ProductIdColumn` | pipeline/remove_subscribers.py:15 | Every table but `website` has a `product_id` column, read row by row. |
| `RemoveSubscribers.Distinct` | pipeline/remove_subscribers.py:14-15 | `DISTINCT` keeps the same values and drops repeats. |
| `RemoveSubscribers.IdSet` | pipeline/remove_subscribers.py:17 | The set comprehension holds exactly the column's values, so repeats collapse. |
| `RemoveSubscribers.IdSetDistinct` | pipeline/remove_subscribers.py:14-17 | Adding `DISTINCT` does not change the returned set. |
| `RemoveSubscribers.Referenced` | pipeline/remove_subscribers.py:33-35 | The website ids that some product row points at. |
| `RemoveSubscribers.DeleteRowsMeaning` | pipeline/remove_subscribers.py:23-27 | Deleting from a table touches only that table. From products or price changes it removes every row with one of the ids and keeps every other row. |
| `RemoveSubscribers.CleanedWebsites` | pipeline/remove_subscribers.py:30-37 | Only websites some product references remain, and every referenced one is kept. The other tables are untouched. |
| `RemoveSubscribers.Deleted` | pipeline/remove_subscribers.py:44-46 | The subscriptions are untouched. |
| `RemoveSubscribers.DeletedTables` | pipeline/remove_subscribers.py:44-46 | See the seventh note under the table. |
| `RemoveSubscribers.DeletedMeaning` | pipeline/remove_subscribers.py:40-46 | No price change or product of the ids remains, and every other row is kept. Only websites referenced by the surviving products remain, and all of those are kept. |
| `RemoveSubscribers.Database.SelectProductIds` | pipeline/remove_subscribers.py:13-17 | See the eighth note under the table. |
| `RemoveSubscribers.Database.DeleteFromTable` | pipeline/remove_subscribers.py:23-27 | The delete succeeds exactly when the transaction is not aborted, its statement does not fail and the table is not `website`. Then the rows of the ids are gone from the working tables; otherwise the transaction is aborted. |
| `RemoveSubscribers.Database.CleanWebsites` | pipeline/remove_subscribers.py:30-37 | It succeeds exactly when the transaction is not aborted and its statement does not fail. On success the working tables lose their unreferenced websites; otherwise the transaction is aborted. |
| `RemoveSubscribers.Database.Commit` | pipeline/remove_subscribers.py:47 | The working tables become the committed ones, unless the transaction is aborted: then the working tables return to the committed ones. Either way the transaction is healthy again, and one commit is counted. |
| `RemoveSubscribers.Database.Rollback` | pipeline/remove_subscribers.py:49 | The working tables return to the committed ones, the transaction is healthy again, and one rollback is counted. |
| `RemoveSubscribers.ReadIds` | pipeline/remove_subscribers.py:10-20 | The set of ids in the table, or the empty set on any error. |
| `RemoveSubscribers.GetProductIdsFromTable` | pipeline/remove_subscribers.py:10-20 | One select. The result is `ReadIds` of the tables, with or without `DISTINCT`, and empty when the transaction was aborted. A failure is caught without a rollback, so it leaves the transaction aborted. The tables are unchanged. |
| `RemoveSubscribers.StatementsRun` | pipeline/remove_subscribers.py:42-50 | One to three statements run, and three when none fails. |
| `RemoveSubscribers.DeleteUnsubscribedData` | pipeline/remove_subscribers.py:40-50 | On a healthy transaction where all three deletes go through, `Deleted` of the tables is committed once. If any raises, which the first does on an aborted transaction, there is one rollback, no commit, and the committed tables are unchanged. The transaction ends healthy. |
| `RemoveSubscribers.Unsubscribed` | pipeline/remove_subscribers.py:56-60 | See the ninth note under the table. |
| `RemoveSubscribers.Removal` | pipeline/remove_subscribers.py:53-67 | The state a run leaves: the transaction healthy with nothing pending, at least the two selects executed, and at least the commit on leaving the `with` block counted. |
| `RemoveSubscribers.MainRemoveSubscriptions` | pipeline/remove_subscribers.py:53-67 | The state after the run is exactly `Removal` of the state before: the two selects, the deletes of `DeleteUnsubscribedData` when some id is unsubscribed, and the commit on leaving the `with` block. |
| `RemoveSubscribers.LambdaHandler` | pipeline/remove_subscribers.py:70-77 | Status 200 with the success message, or status 500 with the failure message when the connection cannot be opened. When connected, the state after is exactly `Removal` of the state before; otherwise the whole state is untouched. |
| `RemoveSubscribers.RemovalCommitted` | pipeline/remove_subscribers.py:53-67 | A run commits the cleaned working tables when it finds ids and its deletes go through, and otherwise the committed or the working tables as they were. |
| `RemoveSubscribers.RemovalKeepsIntegrity` | pipeline/remove_subscribers.py:40-67 | Tables that point where they should, committed and working, still do after a run. |
| `RemoveSubscribers.FailedSubscriptionReadDeletesNothing` | pipeline/remove_subscribers.py:10-20 | A failed subscription read aborts the transaction, so the product read fails too and nothing is deleted: the committed tables stay as they were, only the two selects run, and nothing is rolled back. |
| `RemoveSubscribers.CleanRunKeepsExactlySubscribed` | pipeline/remove_subscribers.py:53-63 | A run on a healthy transaction with nothing pending and no failing statement commits exactly the products with an active subscription, and keeps the subscriptions. |
| `RemoveSubscribers.IntegrityPreserved` | pipeline/remove_subscribers.py:40-46 | Tables whose price changes point at products, and whose products point at websites, still do after the cleanup. |
| `RemoveSubscribers.SurvivorsAreSubscribed` | pipeline/remove_subscribers.py:53-63 | When both reads succeed, every surviving product has an active subscription, and every subscribed product survives. |
| `RemoveSubscribers.DeletingEveryIdEmpties` | pipeline/remove_subscribers.py:44-46 | Deleting the ids of every product empties all three tables. |
| `RemoveSubscribers.DeleteNothing` | pipeline/remove_subscribers.py:44-45 | With no ids, price changes and products are untouched. |
| `RemoveSubscribers.RepeatsCollapseExample` | pipeline/test_remove_subscribers.py:38-48 | The rows 1, 2, 2, 3 give {1, 2, 3}. |
| `RemoveSubscribers.UnsubscribedExample` | pipeline/test_remove_subscribers.py:82-94 | Products {2, 3} minus subscriptions {1, 2} leave {3}. |
| `RemoveSubscribers.AllSubscribedExample` | pipeline/test_remove_subscribers.py:97-113 | When every product is subscribed, nothing is unsubscribed. |

Notes on the longer contracts:

1. **`DashboardEtl.ScrapeSteamHtml`**
   - The result is None, whatever prices are present, exactly when the purchase area or the title is missing.
   - It raises KeyError exactly when there is an image with no `src`.
   - Prices follow three tiers: the discount pair, else the regular price for both, else "N/A" for both.
   - A missing image gives `image_url` None, and a missing description gives "No description found.". Neither makes the result None.
   - `website` is the normalised URL.
2. **`DashboardEtl.ScrapeAmazonHtml`**
   - The result is None exactly when the price block or the title is missing.
   - A missing price span raises AttributeError.
   - Otherwise the result has the offscreen prices, the stripped title and the normalised URL.
3. **`DashboardEtl.FetchWithAgeGateBypass`**
   - The first request is always a GET of the URL.
   - A second request is always the POST of the fixed birth date to the bypass URL.
   - It raises IndexError exactly when the first GET succeeded and the URL has no "/app/"; nothing catches it.
   - A page is returned only after the sequence GET, POST, GET. All three replies must have arrived and the last must have a status that `raise_for_status` accepts. The page is the last reply's body.
   - Conversely, when the URL has "/app/", three replies arriving with the last one accepted give exactly that sequence and that page.
   - A failed first GET gives None. With "/app/", a failed POST, a failed last GET or a status `raise_for_status` rejects gives None.
4. **`Transform.TransformOrigins`**: the output is exactly the valid records' results, in input order. Each has a positive price and the clock reading passed in.
5. **`Load.LoadPriceChanges`**
   - There is one attempt per well-formed record, and a failed insert is caught.
   - The first rejected insert aborts the transaction, so every later insert of the batch fails too.
   - If some insert went in (the transaction was healthy and the first attempt was not rejected), there is exactly one commit and no rollback. Otherwise there is exactly one rollback and no commit.
   - The committed rows grow by the pending rows and the whole batch only when no insert of the batch was rejected (`LoadCommitted`). After a rejection the commit keeps nothing, although the rows before it were counted.
   - The transaction ends healthy with nothing pending.
6. **`Extract.ScrapeFromHtml`**
   - The result is None exactly when the purchase area is missing, which is always the case for an error message.
   - A missing price div raises IndexError, and a missing title raises AttributeError.
   - A record carries the product id passed in, the unstripped texts, and the normalised URL.
   - A page with the purchase area, both price divs and the title always gives a record.
   - The only errors raised are IndexError and AttributeError.
7. **`RemoveSubscribers.DeletedTables`**: price changes and then products are filtered by the ids. The websites are then filtered by what the remaining products reference.
8. **`RemoveSubscribers.Database.SelectProductIds`**
   - The select fails exactly when the transaction is aborted, its statement fails, or the table is `website`; a failure leaves the transaction aborted.
   - On success it returns the column, or its distinct values.
   - The tables are unchanged.
9. **`RemoveSubscribers.Unsubscribed`**
   - When both reads succeed, the result is exactly the product ids without an active subscription.
   - A failed product read gives the empty set.

## Findings

| source | as written | input that shows it | evidently intended | confidence | as-written member | corrected member |
|---|---|---|---|---|---|---|
| pipeline/load.py:41-57 | A failed insert is caught and the loop goes on, and the commit follows whenever one insert was counted. But the failed insert has aborted the transaction, so later inserts fail and the commit keeps nothing, while the log reports the counted rows as committed. | Two well-formed records whose second insert is rejected: one row counted, the commit runs, nothing is kept. | Every insert that went through is committed, as with a savepoint per insert. | high, not executed | `Load.LoadPriceChanges`, `Load.LostBatchExample` | `Load.LoadPriceChangesSavepoint` |

## Left out

- Network I/O: every `requests` call is an input of the model (`FetchOutcome`, `Reply`, `Network`), not performed.
- `get_html_from_url` in streamlit_dashboard/dashboard_etl.py:33-46 is not modelled separately: it only chooses between the age-gate path and a plain fetch. Its message strings are not part of the model. The pipeline's copy in pipeline/extract.py is modelled.
- HTML parsing: BeautifulSoup is replaced by the `Html.Page` record of lookup answers. Whether a real page yields those answers is not modelled.
- SQL and psycopg2:
  - Tables are Dafny sequences, and statements are functions on them.
  - A failed statement aborts the transaction, as in PostgreSQL: every later statement fails until a rollback, and a commit then keeps nothing and does not raise. The model does not tell a statement that fails on its own from one that fails because of the abort.
  - SQL NULLs are not modelled, so `NOT IN` over a NULL `website_id` is not modelled either.
- Which statement fails is given by the `failing` set of statement positions. The cause of a failure is not modelled.
- Commit and rollback themselves never fail in the model.
- `Prices.ParseDecimal`: models Python's `float()` over an ASCII grammar of an optional sign, digits, and an optional point with digits. It leaves out exponents, "inf", "nan", underscores, and Unicode digits and whitespace. `CleanPrice` therefore accepts fewer texts than the source.
- `Prices.ParseDecimal`: numbers are exact reals, not binary floats, so there is no rounding, underflow or overflow. In the source, "0." followed by 400 zeros and a 1 reads as 0.0, which pipeline/transform.py:31 then drops; the same text with a leading "-" reads as -0.0, which passes the `>= 0` test; a 400-digit integer reads as inf.
- `Prices.CleanPrice`: for the same reason, the exact result `n / 100` of `CleanFormattedPrice` holds only in the model; in the source it is the nearest float.
- `Text.Split`: it has no contract of its own; `SplitJoin` and `SplitHead` state what it computes.
- `Transform.ParseInt`: models `int()` on text and integers. It leaves out underscores, Unicode digits, and other Python value types.
- `Transform.TransformProductData`: the source reads the clock per record (`datetime.now()` inside the loop, pipeline/transform.py:39), so the records of one batch can carry different timestamps; the model uses one reading `now` for the whole batch.
- `Transform.TransformOne`: the model does not cover a `discount_price` that is not a string, which raises AttributeError in the source.
- `Load.ProductIdExists`: on a healthy transaction the select is assumed not to fail; it raises only on an aborted one.
- `main_load` (pipeline/load.py:65-71) is not part of this model. Its `with` block commits once more on leaving, which after `LoadPriceChanges` finds nothing pending. `get_connection` (pipeline/connect_to_database.py:17-31) is a plain function that opens a connection; `LoadPriceChanges` takes one already open.
- `RemoveSubscribers.LambdaHandler`: the only escaping failure modelled is a connection that cannot be opened, given as `connected`. In the source a 500 can also come from an exception raised by the rollback at pipeline/remove_subscribers.py:49 or by the commit on leaving the `with` block at :55; commit and rollback never raise in the model.
- `extract_urls_from_db` (pipeline/extract.py:25-33) is not part of this model: it reads the product table. `Extract.MainExtractionProcess` takes its result, the list of (product id, URL) entries, as input.
- The `print` of the URL list at pipeline/extract.py:97 is output only and is not modelled.
- `RemoveSubscribers.Unsubscribed`: the source turns the set into a list before deleting. The model keeps a set, because list order does not affect `= ANY(...)`.
- `RemoveSubscribers.Deleted`: its own ensures covers only the subscriptions. What it does to the other three tables is stated by `DeletedTables` and `DeletedMeaning`.
- `Text.RemoveChar`: its ensures does not say that the other characters survive. `RemoveCharKeeps` states that.
- Logging is not modelled.
- These are not part of this model:
  - the UI files and the older helper copies in them;
  - pipeline/email_notifier.py and pipeline/email.py;
  - pipeline/connect_to_database.py, streamlit_dashboard/database_connection.py and pipeline/etl.py;
  - the stubs extract/extract.py and pipeline/remove_subscribers/remove_subscribers.py.
- pipeline/test_extract.py tests another version of pipeline/extract.py. Only its website examples are used.
