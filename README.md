# AINewz scraper core in Dafny

A model of the feed pipeline of the AINewz scraper (`modal_scraper.py`) and of
the item counters of its feed verifier (`tools/verify_feeds.py`), with proofs
of what they promise.

- `parse_rss` (module `Feed`, file `feed.dfy`) turns the items of a parsed RSS
  or Atom document into article records. Each field is the first non-empty of
  several tags, with the defaults "Untitled", "#" and "". The date is tried as
  RFC 2822, then as ISO 8601, and otherwise taken as now. Items before the
  48-hour cutoff are dropped. The summary is the description with its tags
  removed, stripped, and cut to 300 characters plus an ellipsis. The loop is a
  method proved equal to the function `NormalizeFeed`.
- The text helpers it uses are in module `Text` (`text.dfy`): Python's
  `str.strip`, the substitution `re.sub(r"<[^>]+>", "", s)`, `str.replace` and
  the summary rule.
- `fetch_and_store` is split into four parts:
  - `Fetch` (`fetch.dfy`) holds the per-source url fallback and the error
    list, as a nested loop with `fetched` and `break`.
  - `Dedup` (`dedup.dfy`) holds the first-occurrence-wins de-duplication, as
    a loop over a `seen` set.
  - `Ordering` (`ordering.dfy`) holds the stable newest-first sort on the
    published-at text under Python's string order.
  - `Scraper` (`scraper.dfy`) builds the payload.
- The persistent dictionary `articles_store` is the class
  `Scraper.ArticleStore`, whose field `entries` is a map. `FetchAndStore`
  overwrites the "latest" entry. `GetArticles` returns the stored entry, or
  runs `FetchAndStore` when there is none.
- `count_rss_items` and `count_reddit_posts` are in module `FeedCheck`
  (`feedcheck.dfy`). The first is a loop. The second is a function over a JSON
  datatype in which every path that raises gives `(0, 0)`.

Collaborators the code calls are parameters. They are the fields of
`Feed.Env`: XML parsing (`ET.fromstring` and the `findall`/`find` results),
`parsedate_to_datetime`, `datetime.fromisoformat`, `datetime.isoformat`, the
MD5 hex digest and the clock. Each url's `fetch_url` result is an input,
`Fetch.Endpoint.response`. A datetime is modelled as whole seconds of wall
time plus an optional UTC offset; a naive datetime has no offset.

Facts about the code that the model keeps:
- A url whose feed parses to zero articles counts as a failed url, and the
  next url of the source is tried (modal_scraper.py:171-177).
- `get_articles` refreshes only when nothing is stored under "latest"; a
  stored payload is served however old it is (modal_scraper.py:215-220).
- Items are kept for 48 hours (modal_scraper.py:65, 92).
- `score` and `thumbnail` are always `None` (modal_scraper.py:146-147).

## Model

| member | source | states |
|---|---|---|
| `Text.Strip` | modal_scraper.py:109 | `str.strip()`: the result is the text after the leading whitespace, with only whitespace behind it; it neither starts nor ends with whitespace |
| `Text.StripIdempotent` | modal_scraper.py:133 | stripping twice is stripping once |
| `Text.StripTags` | modal_scraper.py:133 | the tag substitution never lengthens the text and introduces no character |
| `Text.StripTagsKeepsPlainPrefix` | modal_scraper.py:133 | text before the first '<' is kept unchanged, and the scan goes on after it |
| `Text.StripTagsDeletesTag` | modal_scraper.py:133 | a tag `<m>` with `m` non-empty and free of '>' is deleted and the scan goes on after it |
| `Text.EmptyBracketsKept` | modal_scraper.py:133 | an empty pair "<>" is not a match of `<[^>]+>`: it is kept and the scan goes on after it |
| `Text.StripTagsLeavesNoTag` | modal_scraper.py:133 | after the substitution no `<[^>]+>` match is left |
| `Text.StripTagsKeepsTagFree` | modal_scraper.py:133 | text without a tag is left unchanged by the substitution |
| `Text.StripTagsIdempotent` | modal_scraper.py:133 | applying the substitution twice is applying it once |
| `Text.ReplaceChar` | modal_scraper.py:124 | after replacing every "Z" by "+00:00" no "Z" is left; text without "Z" is unchanged |
| `Text.ReplaceCharAppend` | modal_scraper.py:124 | the replacement distributes over concatenation |
| `Text.ReplaceCharSingle` | modal_scraper.py:124 | a "Z" becomes "+00:00" and any other character stays; with the row above this pins `str.replace` |
| `Text.CleanText` | modal_scraper.py:133 | the cleaned description has no tag and neither starts nor ends with whitespace |
| `Text.Summary` | modal_scraper.py:133-135 | the summary has at most 301 characters and no tag, does not start with whitespace, equals the cleaned text when that has at most 300 characters, and is otherwise its first 300 characters followed by "…" |
| `Feed.FindAsWritten` | modal_scraper.py:106 | the lookup as written returns the plain element only when it has children, and otherwise the namespaced element or nothing |
| `Feed.Find` | modal_scraper.py:106 | the intended lookup returns the plain element whenever there is one, otherwise the namespaced element when there is one, and nothing only when neither lookup finds an element |
| `Feed.FindAgreesWhenNotLeaf` | modal_scraper.py:106 | the two lookups agree unless the plain element exists and has no children |
| `Feed.PlainTitleLostAsWritten` | modal_scraper.py:106-111 | as written, a plain RSS `<title>Hello</title>` gives the title "Untitled"; the intended lookup gives "Hello" |
| `Feed.PlainLookupLostAsWritten` | modal_scraper.py:105-109 | as written, `get(tag)` and `get(tag, attr)` (`Feed.GetTextAsWritten`, `Feed.GetAttrAsWritten`) find nothing in a plain RSS item, for any tag, while the intended lookup finds every element present |
| `Feed.PlainFieldsLostAsWritten` | modal_scraper.py:105-114 | as written, a plain RSS item gets the title "Untitled", the link "#", no date text and an empty summary |
| `Feed.PlainItemsCollideAsWritten` | modal_scraper.py:106-138 | as written, any two plain RSS items get the same id `hash_url("#")` and the same date |
| `Feed.FirstTruthy` | modal_scraper.py:111-114 | used for the four fields `Feed.Title`, `Feed.Link`, `Feed.PubRaw` and `Feed.Description`: `a or b or ... or default` is the first present non-empty candidate, the default when there is none, and never empty when the default is not |
| `Feed.DefaultTitleAndLink` | modal_scraper.py:107-112 | through `get` (`Feed.GetText`, `Feed.GetAttr`: the stripped element text or the attribute, `None` without an element): a missing or empty title gives "Untitled" and a missing link text and href give "#"; otherwise the title and link text are taken |
| `Feed.AsUtcIfNaive` | modal_scraper.py:120-121 | a naive datetime gets offset 0 with the same wall time; an aware one is unchanged |
| `Feed.ResolveDateAsWritten` | modal_scraper.py:117-126 | as written: the RFC 2822 result read as UTC when naive; else the ISO 8601 result of the text with "Z" replaced, kept as it is; else now; so the date is naive only when RFC 2822 parsing failed and ISO 8601 parsing returned that naive date |
| `Feed.NaiveIsoDateRaisesAsWritten` | modal_scraper.py:124-128 | as written, an ISO 8601 date without an offset makes the cutoff comparison `pub_dt < cutoff` (`Feed.IsBeforeAsWritten`, `None` for the TypeError) raise |
| `Feed.ResolveDate` | modal_scraper.py:117-126 | the RFC 2822 result when it parses, else the ISO 8601 result of the text with "Z" replaced, else now, each read as UTC when naive; so the resolved date is always aware |
| `Feed.ResolveDateAgrees` | modal_scraper.py:117-129 | wherever the comparison as written does not raise, the intended chain gives the same date and the same keep/drop decision |
| `Feed.HashUrl` | modal_scraper.py:68-69 | the id is a prefix of the url's MD5 hex digest, of at most 12 characters, exactly 12 for a full digest |
| `Feed.UnparseableDateKept` | modal_scraper.py:92-129 | `Feed.Kept` is line 128's test on the corrected date chain, against `Feed.Cutoff`, now less 48 hours (line 92); an item whose date parses under neither format is stamped now and therefore kept |
| `Feed.RecordShape` | modal_scraper.py:137-149 | every record (`Feed.Record`, the dictionary of lines 137-149) has `id == hash_url(url)`, a non-empty title and url, a tag-free summary of at most 301 characters, the source key and label, author equal to the label, no score, no thumbnail and `saved` false |
| `Feed.NormalizedAreRecords` | modal_scraper.py:104-149 | every article the item loop builds has that record shape |
| `Feed.KeptItemsAppear` | modal_scraper.py:128-137 | every item not before the cutoff yields its record |
| `Feed.RecordsComeFromKeptItems` | modal_scraper.py:128-137 | every record comes from an item not before the cutoff, and there are no more records than items |
| `Feed.SelectItems` | modal_scraper.py:102 | the items are the RSS items if any, else the namespaced Atom entries if any, else the bare entries |
| `Feed.ParseRss` | modal_scraper.py:89-151 | the loop returns `NormalizeFeed`'s records (the `SelectItems` items through `NormalizeItems`); a document that does not parse gives an empty list; every record has the source's shape |
| `Dedup.Unique` | modal_scraper.py:186-191 | the de-duplicated list has pairwise distinct ids and exactly the ids of the input |
| `Dedup.UniqueKeepsFirstInOrder` | modal_scraper.py:186-191 | each kept article is the first input article with its id, and kept articles appear in input order |
| `Dedup.Deduplicate` | modal_scraper.py:186-191 | the loop over a `seen` set computes that de-duplicated list |
| `Ordering.LexLeTotal` | modal_scraper.py:194 | Python's string order (`Ordering.LexLe`, code point by code point, a prefix first) is total |
| `Ordering.LexLeTransitive` | modal_scraper.py:194 | Python's string order is transitive |
| `Ordering.LexLeAntisymmetric` | modal_scraper.py:194 | strings ordered both ways are equal |
| `Ordering.SortNewestFirst` | modal_scraper.py:194 | the sorted list is a permutation of its input, non-increasing in `published_at` |
| `Ordering.SortIsStable` | modal_scraper.py:194 | for every `published_at` value, the articles with that value keep their relative order |
| `Ordering.SortKeepsDistinctIds` | modal_scraper.py:194 | sorting articles with distinct ids leaves them distinct |
| `Fetch.AttemptFailsIff` | modal_scraper.py:168-179 | for one url (`Fetch.Attempt`): it fails exactly when there is no response, it has at most 200 characters, or it parses to no article; otherwise it yields the parsed articles |
| `Fetch.FirstAcceptedFrom` | modal_scraper.py:166-175 | the accepted url is one that succeeds, and every url before it fails; with no accepted url every url fails |
| `Fetch.ContributionEmptyIffFailed` | modal_scraper.py:166-182 | for a source's contribution (`Fetch.Contribution`) and accepted url (`Fetch.Accepted`): a source adds no article exactly when none of its urls succeeds, and otherwise adds the articles of its accepted url |
| `Fetch.LaterUrlsNotConsulted` | modal_scraper.py:166-175 | the urls after the accepted one do not affect which url is taken or what the source adds |
| `Fetch.FailedLabelsCountFailures` | modal_scraper.py:181-182 | `errors` has exactly as many labels as there are failed sources, at most one per source |
| `Fetch.AllFailedListsEveryLabel` | modal_scraper.py:164-182 | when every source fails, `errors` is every label, once each, in source order |
| `Fetch.FailedSourcesListed` | modal_scraper.py:181-182 | every source with no successful url has its label in `errors` |
| `Fetch.ListedSourcesFailed` | modal_scraper.py:181-182 | every label in `errors` belongs to a source with no successful url |
| `Fetch.NoErrorsIffAllAccepted` | modal_scraper.py:181-182 | `errors` is empty exactly when every source has a successful url |
| `Fetch.MergedAreRecords` | modal_scraper.py:170-173 | every merged article is a record of one of the sources |
| `Fetch.Collect` | modal_scraper.py:161-183 | the nested loop builds exactly the merged articles `all_articles` (`Fetch.Merged`, lines 161, 173) and the failed labels `errors` (`Fetch.FailedLabels`, lines 162, 181-182) |
| `Scraper.RefreshIsWellFormed` | modal_scraper.py:185-201 | the payload (`Scraper.Refresh`, the dictionary of lines 196-201): its articles are a permutation of the de-duplicated merge, newest first with ties kept in order, with distinct ids covering every merged id; `count` is their number; `errors` is the failed labels |
| `Scraper.RefreshKeepsFirstReport` | modal_scraper.py:186-194 | each stored article is the first merged article with its id |
| `Scraper.AllFailedMergesNothing` | modal_scraper.py:164-183 | when every source fails nothing is merged and `errors` is every label in source order |
| `Scraper.TotalFailure` | modal_scraper.py:164-201 | when every source fails the payload is empty, its count is 0 and its errors are every label in source order |
| `Scraper.BuildPayload` | modal_scraper.py:159-201 | the payload built is `Refresh`'s payload and is well formed |
| `Scraper.ArticleStore.constructor` | modal_scraper.py:32 | the store starts as the dictionary found |
| `Scraper.ArticleStore.FetchAndStore` | modal_scraper.py:159-205 | returns the well-formed payload and overwrites only the "latest" entry with it |
| `Scraper.ArticleStore.GetArticles` | modal_scraper.py:211-220 | returns the stored payload unchanged, touching nothing, when one is stored; otherwise fetches and stores a fresh payload; afterwards "latest" holds what was returned |
| `Scraper.ServeAfterRefresh` | modal_scraper.py:215-220 | after a refresh the store serves that refresh's payload, whatever the sources return later |
| `FeedCheck.NoDateNeverRecent` | tools/verify_feeds.py:66-81 | `FeedCheck.IsRecent` is the per-item test of lines 67-81, on the date text `FeedCheck.PubText` built from `findtext` (`FeedCheck.FindText`); an item with no pubDate, published or updated text is never recent |
| `FeedCheck.UnparseableDateIsRecent` | tools/verify_feeds.py:73-81 | an item whose date text does not parse is counted as recent |
| `FeedCheck.RecentCount` | tools/verify_feeds.py:66-81 | the recent count is at most the number of items |
| `FeedCheck.RecentCountExtremes` | tools/verify_feeds.py:66-81 | the recent count equals the number of items exactly when all are recent, and is 0 exactly when none is |
| `FeedCheck.CountRssItems` | tools/verify_feeds.py:60-84 | unparseable XML gives (0, 0); otherwise total is the number of matched items (`FeedCheck.CountedItems`, the `or` of line 64) and recent their recent count, and recent is at most total |
| `FeedCheck.CountRecentPosts` | tools/verify_feeds.py:91-94 | the sum is defined exactly when every post has a comparable `created_utc` (`FeedCheck.CreatedUtc`), is at most the number of posts, and equals it only when all are at or after the cutoff |
| `FeedCheck.CountRecentPostsExtremes` | tools/verify_feeds.py:91-94 | a defined sum equals the number of posts exactly when every post is at or after the cutoff, and is 0 exactly when every post is before it |
| `FeedCheck.CountRedditPosts` | tools/verify_feeds.py:87-97 | undecodable JSON, a listing without iterable children (`FeedCheck.Posts`) and a post whose `created_utc` cannot be compared each give (0, 0); otherwise the result is the number of children and their recent sum; recent is at most total |
| `FeedCheck.WellFormedListingCounts` | tools/verify_feeds.py:87-95 | a listing whose children are all well formed gives the number of children and of recent ones |
| `FeedCheck.ChildWithoutDataGivesZero` | tools/verify_feeds.py:93-97 | one child without "data" makes the result (0, 0) |
| `FeedCheck.MissingListingGivesZero` | tools/verify_feeds.py:90 | a missing "data" or "children" gives (0, 0) through the empty defaults |
| `FeedCheck.MissingCreatedReadsAsZero` | tools/verify_feeds.py:93 | a post without `created_utc` is read as created at instant 0 |

## Findings

| source | as written | input that shows it | evidently intended | confidence | as-written member | corrected member |
|---|---|---|---|---|---|---|
| modal_scraper.py:106 | `item.find(tag) or item.find(f"atom:{tag}", ns)` tests an element's truth value. That is false for an element without children, so a plain RSS field element is passed over for the namespaced lookup, which finds nothing | an item `<title>Hello</title>` gets the title "Untitled" (`Feed.PlainTitleLostAsWritten`). The same holds for every field of a plain RSS 2.0 item (`Feed.PlainFieldsLostAsWritten`): its link is "#", so all such items, from every source, share the id `hash_url("#")` and de-duplication keeps only one (`Feed.PlainItemsCollideAsWritten`); its date text is "", so it is stamped now and never falls outside the window | use the plain element whenever one is found (an `is None` test) | high; not executed | `Feed.FindAsWritten` | `Feed.Find` |
| modal_scraper.py:124-128 | `datetime.fromisoformat` of a date without an offset returns a naive datetime. `pub_dt < cutoff` then raises TypeError, which escapes `parse_rss` and `fetch_and_store` | a date text "2024-05-01T10:00:00" that RFC 2822 parsing rejects (`Feed.NaiveIsoDateRaisesAsWritten`) | read a naive ISO 8601 date as UTC, as lines 120-121 do for RFC 2822 | medium; not executed | `Feed.ResolveDateAsWritten` | `Feed.ResolveDate` |

The rest of the model (`Feed.ParseRss` and everything built on it) uses the
corrected members.

## Left out

- Network I/O: `fetch_url` and the verifier's `fetch`. Each url's response is given as an input.
- Modal plumbing: the app, image, decorators, cron schedule, `scheduled_scrape`, `.local()`/`.remote()`, `retries=2`, and the printing in `main`.
- The FastAPI `JSONResponse` and its headers.
- The verifier's `main`: console reporting, `time.time()` timings and `sys.exit`.
- Log output from `print`.
- XML parsing is abstract. A document is given by the results of its three `findall` searches, and an item by what its plain and namespaced `find` lookups return.
- RFC 2822 and ISO 8601 parsing, `isoformat`, MD5 and JSON decoding are abstract functions.
- `json.dumps`/`json.loads` are taken to round-trip a payload, so the store holds payloads directly.
- The clock is read once per run. The cutoff, the "now" stamp for unparseable dates and `fetched_at` all use that reading, while the code reads the clock separately for each.
- Time has one-second resolution, and `created_utc` and the verifier's cutoff are whole seconds, not floats.
- The verifier's cutoff is a parameter rather than a module constant computed at start-up.
- `Feed.ParseRss`: its contract describes the corrected lookup and date chain. For the code as written, the as-written members in Findings give the lookups, the fields of a plain RSS item, the shared id and the date; the whole as-written pipeline (records, de-duplication and payload built from them) is not modelled.
- `Feed.HashUrl`: the digest is any function of the url, so the model does not say that distinct urls almost never share an id.
