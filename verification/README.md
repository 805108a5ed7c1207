# Quadro Vagas Kombo — a verified model of the job-feed pipeline

Quadro Vagas Kombo is a WordPress/Elementor plugin. It shows the open positions that
a company publishes on the Kombo recruiting site. On each page view the widget does
the following:

1. It reads its settings. An empty CID (the company code) is an error.
2. It asks a transient cache for the job list, keyed by CID and limit. On a miss it
   fetches the company's XML feed.
3. It normalises every feed item into a job record. Fields are looked up under several
   tag names. Three labelled lines of the description ("Cidade/UF:", "Ramo de
   atividade:" and the positions count "Numero de vagas:") take precedence over the
   structured tags. The model reads the count label the intended way, accented or not.
   An "Área:" line is parsed but never reaches the record.
4. It applies the server-side filters: location, category, minimum positions, age in days.
5. It renders the jobs in a grid, list or accordion layout. Each card carries its
   application link and the data attributes the browser filters read.

In the browser, a script moves the focus between accordion headers with the keyboard.
It keeps at most one panel open, hides the cards that do not match the filter inputs,
and updates a results counter.

The model is written in pure functions over immutable datatypes:

| module | file | models |
|---|---|---|
| `Common` | common.dfy | `Option`, first-match search, filtering, subsequences, counting |
| `Strings` | strings.dfy | PHP `trim`, `empty()` and `(int)`, ASCII `strtolower`, substring search, decimal text |
| `CleanText` | cleantext.dfy | the whitespace rules of `clean_html` |
| `Description` | description.dfy | `parse_description`: one hand-written scanner per regular expression |
| `Feed` | feed.dfy | `get_xml_value`, `parse_vaga_item`, `parse_xml_feed`, `get_vagas` and its error messages |
| `Cache` | cache.dfy | `Kombo_Cache` over a map standing for the transient store |
| `Client` | client.dfy | vagas-widget.js: keyboard navigation, accordion toggle, browser filters, counter, reset |
| `Widget` | widget.dfy | the widget's `apply_filters`, `get_application_url`, `build_filter_data_attributes` and `render` |

## Modelling conventions

- **Strings.** A PHP string is a sequence of bytes, so a Dafny `char` stands for one
  byte of the UTF-8 text. Case folding (`strtolower`, the regex `/i` flag, `stripos`,
  JavaScript `toLowerCase`) is ASCII only.
- **Two encodings.** The browser side (`Client`) works on UTF-16 code units. The
  `data-*` values the widget writes are PHP byte strings. The model hands them to the
  browser side one byte per code unit, with no UTF-8 decoding step. This is exact for
  ASCII text.
- **`empty()`.** PHP's `empty()` on a string holds for `""` and for `"0"`. `Strings.PhpEmpty`
  models exactly that.
- **Host functions are parameters.** The following are function-valued parameters
  (`Feed.Host`, `Widget.Wp`, and the cache's `digest`):
  - XML loading, including `fix_encoding`;
  - markup-to-text (`strip_tags` and `html_entity_decode`, after `<br>` becomes a newline);
  - `strtotime` and `date_i18n`;
  - `sanitize_text_field`;
  - `md5` over `wp_json_encode`.
- **Time and I/O are arguments.** The current time, the date cut-off of the day filter,
  and the reply of the single HTTP request are all arguments.
- **Feed items.** A feed item is a map from tag name to text.
- **Links.** A link is a base address plus the list of query arguments that
  `add_query_arg` appended.
- **The count label is read as intended.** The documentation of `parse_description`
  names the label "Numero de vagas: X", without an accent. The pattern adds the
  accented "ú" through the class `[uú]`, but without the /u flag that class never
  matches the two bytes of a UTF-8 "ú"; see Findings. The model keeps both readings.
  The pipeline uses the intended one, so an accented label gives its number. Every
  member whose records come from `parse_description` inherits this. "## Left out" lists
  each of them.
- **`area` is parsed but unused.** `parse_description` computes `area`, and the model
  keeps it in `Description.Info`. `parse_vaga_item` never copies it into the record,
  and `Feed.BuildJob` does not either.

## Model

| member | source | states |
|---|---|---|
| Feed.GetVagas | quadro-vagas-kombo/includes/class-kombo-api.php:46-121 | An empty CID is `invalid_cid`. Otherwise the list comes back exactly when the reply is a 200 with a non-empty body that loads as XML, and the list is the parsed feed cut to `limit`. |
| Feed.CidCheckedFirst | quadro-vagas-kombo/includes/class-kombo-api.php:48-53 | With an empty CID the result is `invalid_cid` whatever the reply and the parser would be, so no request matters. |
| Feed.TransportFailureStops | quadro-vagas-kombo/includes/class-kombo-api.php:75-84 | A transport failure is `request_failed` carrying its message, independent of the parser. |
| Feed.StatusBeforeBody | quadro-vagas-kombo/includes/class-kombo-api.php:87-97 | A status other than 200 is `http_error` with that status, whatever the body and the parser. |
| Feed.EmptyBodyBeforeParse | quadro-vagas-kombo/includes/class-kombo-api.php:100-106 | An empty body (including "0") is `empty_response` before any parsing. |
| Feed.LimitKeepsFeedOrder | quadro-vagas-kombo/includes/class-kombo-api.php:115-120 | A successful fetch is a prefix of the parsed feed: `min(count, limit)` records for a positive limit, all of them otherwise. |
| Feed.Truncate | quadro-vagas-kombo/includes/class-kombo-api.php:116-118 | A positive limit keeps the first `min(count, limit)` records. A limit of 0 or less keeps them all. The result is always a prefix of the list. |
| Feed.ErrorMessageRoundTrip | quadro-vagas-kombo/includes/class-kombo-api.php:48-113 | Each error's message reads back as that error, so distinct failures show distinct messages. |
| Feed.ErrorMessage | quadro-vagas-kombo/includes/class-kombo-api.php:48-146 | Every error has a non-empty message. ErrorMessageRoundTrip shows the message determines the error. |
| Feed.RequestFailedMessageRoundTrip | quadro-vagas-kombo/includes/class-kombo-api.php:76-83 | The "Erro ao conectar com Kombo: %s" message gives back the transport error text. |
| Feed.HttpErrorMessageRoundTrip | quadro-vagas-kombo/includes/class-kombo-api.php:89-96 | The "Kombo retornou codigo HTTP %d" message gives back the status, negative ones included. |
| Feed.InvalidCidMessageRoundTrip | quadro-vagas-kombo/includes/class-kombo-api.php:49-52 | The fixed invalid-CID message reads back as `invalid_cid`. |
| Feed.EmptyResponseMessageRoundTrip | quadro-vagas-kombo/includes/class-kombo-api.php:102-105 | The fixed empty-response message reads back as `empty_response`. |
| Feed.XmlParseErrorMessageRoundTrip | quadro-vagas-kombo/includes/class-kombo-api.php:143-146 | The fixed XML-error message reads back as `xml_parse_error`. |
| Feed.UnreadableFeedFails | quadro-vagas-kombo/includes/class-kombo-api.php:108-113 | A 200 reply with a non-empty body that does not load as XML makes the fetch fail with `xml_parse_error`. |
| Feed.ParseXmlFeed | quadro-vagas-kombo/includes/class-kombo-api.php:129-170 | It is an error exactly when the text does not load, and that error is `xml_parse_error`. Otherwise the records are exactly those parsed, in order, from the items of the chosen container: at most one per item, each well formed. |
| Feed.Container | quadro-vagas-kombo/includes/class-kombo-api.php:152-160 | The first non-empty one of `channel/item`, `item` and `vagas/vaga` is chosen, in that order of priority. The result is empty only when all three are. |
| Feed.NoContainerNoJobs | quadro-vagas-kombo/includes/class-kombo-api.php:152-169 | A document without any of the three containers yields an empty list, not an error. |
| Feed.ParseItems | quadro-vagas-kombo/includes/class-kombo-api.php:162-167 | There are no more records than items, and every record is well formed: a non-empty title, at least one position, and the derived location. |
| Feed.ParseItemsExactly | quadro-vagas-kombo/includes/class-kombo-api.php:162-167 | A record is produced exactly when some item parses to it. The number of records is the number of items whose cleaned title is not empty. |
| Feed.ParseItemsAppend | quadro-vagas-kombo/includes/class-kombo-api.php:162-167 | Parsing is item by item: the records of two runs of items are concatenated in feed order. |
| Feed.ParseItem | quadro-vagas-kombo/includes/class-kombo-api.php:178-238 | An item is dropped exactly when its cleaned title is empty. Otherwise the record is well formed. Its title and description are the cleaned tag texts. Code, link and opening date are the first present tags, and the formatted date is derived from the opening date. City, state, branch and count take the description's value over the tag's. |
| Feed.BuildJob | quadro-vagas-kombo/includes/class-kombo-api.php:199-235 | City, state and branch come from the description when non-empty, else from the first present tag. The count comes from the description when non-zero, else from the tag cast to int, and is at least 1. Title, description and formatted date are the given ones. Code, link and opening date are the first present tags. |
| Feed.RecordTakesDescribedPlace | quadro-vagas-kombo/includes/class-kombo-api.php:202-218 | When the description names a city and a state, the record has them and its location is "city/state". |
| Feed.LocationSplitsBack | quadro-vagas-kombo/includes/class-kombo-api.php:212-213 | A "city/UF" location splits back into the record's city and state, as the description's fallback split reads it. |
| Feed.XmlValue | quadro-vagas-kombo/includes/class-kombo-api.php:355-363 | The result is the trimmed text of the first candidate tag present, even an empty one, and "" when none is present. |
| Feed.EmptyTagWins | quadro-vagas-kombo/includes/class-kombo-api.php:356-360 | An illustration of `XmlValue`'s first-present rule: a present but empty `title` hides a later `titulo` that has text. |
| CleanText.CleanHtml | quadro-vagas-kombo/includes/class-kombo-api.php:270-285 | The cleaned text neither starts nor ends with whitespace that `trim` removes. |
| CleanText.CleanHtmlNormalForm | quadro-vagas-kombo/includes/class-kombo-api.php:280-284 | The cleaned text has no tab, no two adjacent spaces and no blank line. It keeps every visible character of the plain text, in order. |
| CleanText.BlankRunBecomesOneSpace | quadro-vagas-kombo/includes/class-kombo-api.php:281 | A run of spaces and tabs between two other characters becomes exactly one space. The text on either side is rewritten on its own. |
| CleanText.BlankLinesBecomeOneBreak | quadro-vagas-kombo/includes/class-kombo-api.php:282 | A whitespace run between two visible characters that holds at least two newlines becomes one newline. The blanks after its last newline follow that newline, as PCRE backtracks to it. |
| CleanText.SingleBreakKept | quadro-vagas-kombo/includes/class-kombo-api.php:282 | A whitespace run with a single newline between two visible characters is left as it is. |
| CleanText.CollapseBlanksSplit | quadro-vagas-kombo/includes/class-kombo-api.php:281 | Rewriting blank runs distributes over a split after a non-blank character. |
| CleanText.CollapseBlankLinesSplit | quadro-vagas-kombo/includes/class-kombo-api.php:282 | Rewriting blank lines distributes over a split after a non-whitespace character. |
| CleanText.CollapseBlanksNormal | quadro-vagas-kombo/includes/class-kombo-api.php:281 | After `[ \t]+` becomes one space there is no tab and no double space. |
| CleanText.CollapseBlanksKeepsText | quadro-vagas-kombo/includes/class-kombo-api.php:281 | Collapsing blanks keeps every visible character, in order. |
| CleanText.CollapseBlankLinesNormal | quadro-vagas-kombo/includes/class-kombo-api.php:282 | After `\n\s*\n` becomes one newline, no newline is followed by whitespace and another newline. |
| CleanText.CollapseBlankLinesKeepsText | quadro-vagas-kombo/includes/class-kombo-api.php:282 | Collapsing blank lines keeps every visible character, in order. |
| CleanText.CollapseBlankLinesKeepsNormal | quadro-vagas-kombo/includes/class-kombo-api.php:281-282 | The second rewrite adds no tab and no double space to the output of the first. |
| CleanText.TrimNormal | quadro-vagas-kombo/includes/class-kombo-api.php:284 | Trimming a text in normal form keeps it in normal form. |
| CleanText.TrimKeepsText | quadro-vagas-kombo/includes/class-kombo-api.php:284 | Trimming keeps every visible character. |
| Strings.PhpIntvalRoundTrip | quadro-vagas-kombo/includes/class-kombo-api.php:205 | `(int)` of a decimal numeral gives its value, with or without a minus sign. |
| Strings.PhpIntvalExponent | quadro-vagas-kombo/includes/class-kombo-api.php:205 | `(int)` reads the exponent form: "n" + "e" + "k" gives n·10^k. |
| Strings.PhpIntvalFraction | quadro-vagas-kombo/includes/class-kombo-api.php:205 | `(int)` truncates a fraction: "n.ddd" gives n. |
| Strings.PhpIntvalShiftedFraction | quadro-vagas-kombo/includes/class-kombo-api.php:205 | A fraction shifted by an exponent equal to its length gives the digits before and after the point as one number, so "2.5e1" gives 25. |
| Description.ParseDescription | quadro-vagas-kombo/includes/class-kombo-api.php:299-346 | An empty description gives the defaults. For any description the state is absent or two ASCII letters of either case, and city, branch and area each lie on one line. |
| Description.Extract | quadro-vagas-kombo/includes/class-kombo-api.php:315-343 | The state is empty or two letters, and no extracted value spans a line. |
| Description.ExtractCity | quadro-vagas-kombo/includes/class-kombo-api.php:316-328 | Without a "Cidade/UF:" label both fields are empty. The city is one line, and the state is empty or two letters. |
| Description.StrictCityIsUsed | quadro-vagas-kombo/includes/class-kombo-api.php:316-318 | When the "city/UF" pattern matches, its first match supplies both fields. |
| Description.LooseCityIsUsed | quadro-vagas-kombo/includes/class-kombo-api.php:319-327 | When that pattern matches nowhere, the line after the first label is used. |
| Description.CityWithState | quadro-vagas-kombo/includes/class-kombo-api.php:316-318 | "Cidade/UF: X/YY" gives the state YY. The city is `trim` of X after its leading whitespace. When X is all whitespace, it is `trim` of X's last character, which `\s*` gives back to the group. |
| Description.LoneBlankCity | quadro-vagas-kombo/includes/class-kombo-api.php:316-318 | A city text made of one whitespace character that PHP's `trim` keeps is the city itself, because `\s*` gives that character back to the group. |
| Description.FormFeedCityKept | quadro-vagas-kombo/includes/class-kombo-api.php:316-318 | "Cidade/UF:\f/SP" gives the city "\f" and the state SP. |
| Description.DescribedCityAndState | quadro-vagas-kombo/includes/class-kombo-api.php:313-318 | The same city and state come out of a raw description whose cleaned text has that line. |
| Description.CityWithoutState | quadro-vagas-kombo/includes/class-kombo-api.php:319-327 | "Cidade/UF: X" ending the line, with no later label, gives an empty state. The city is `trim` of X after its leading whitespace, so leading blanks are allowed. A '/' may occur on later lines. |
| Description.CityLineBeforeLink | quadro-vagas-kombo/includes/class-kombo-api.php:319-327 | "Cidade/UF: Salvador", followed by a line holding a URL with slashes, gives Salvador and no state. |
| Description.SplitLocation | quadro-vagas-kombo/includes/class-kombo-api.php:322-327 | The state is empty or two letters; without a state the whole location is the city. |
| Description.SplitLocationJoin | quadro-vagas-kombo/includes/class-kombo-api.php:322-324 | Splitting "city/UF" gives back the city and the state. |
| Description.ExtractBranch | quadro-vagas-kombo/includes/class-kombo-api.php:331-333 | Without the "Ramo de atividade" label the branch is empty. The branch never spans a line. |
| Description.BranchFound | quadro-vagas-kombo/includes/class-kombo-api.php:331-333 | "Ramo de atividade:" followed by a value gives that value, trimmed. |
| Description.BranchOfCompanyFound | quadro-vagas-kombo/includes/class-kombo-api.php:331-333 | The form "Ramo de atividade da empresa:", with any whitespace before "da", gives its value too. |
| Description.ExtractCount | quadro-vagas-kombo/includes/class-kombo-api.php:336-338 | Without a count label the count is 0. |
| Description.CountFound | quadro-vagas-kombo/includes/class-kombo-api.php:336-338 | "Numero de vagas: n" gives n in the corrected reading, with the "u" plain or accented. |
| Description.ExtractCountAsWritten | quadro-vagas-kombo/includes/class-kombo-api.php:336-338 | The pattern as written reads 0 wherever its byte-wise label does not occur. |
| Description.CountFoundAsWritten | quadro-vagas-kombo/includes/class-kombo-api.php:336-338 | The pattern as written reads the plain label "Numero de vagas: n" as n. |
| Description.AccentedCountMissed | quadro-vagas-kombo/includes/class-kombo-api.php:336 | "Número de vagas: 3" reads as 0 with the pattern as written and as 3 with the intended one. |
| Description.CountReadingsAgree | quadro-vagas-kombo/includes/class-kombo-api.php:336-338 | On text without the bytes of "ú", both readings of the count agree. |
| Description.ExtractArea | quadro-vagas-kombo/includes/class-kombo-api.php:341-343 | The area is a single line. |
| Cache.KeyFor | quadro-vagas-kombo/includes/class-kombo-cache.php:160-170 | The key is "kombo_vagas_" followed by the first 16 characters of the digest of the CID and the limit's magnitude, or by the whole digest when it is shorter. |
| Cache.KeyIgnoresSign | quadro-vagas-kombo/includes/class-kombo-cache.php:160-170 | Limits of the same magnitude give the same key. |
| Cache.MinutesToSeconds | quadro-vagas-kombo/includes/class-kombo-cache.php:178-185 | The TTL is 60 times the magnitude of the minutes clamped to [1, 1440], so it lies in [60, 86400]. |
| Cache.MinutesToSecondsInverse | quadro-vagas-kombo/includes/class-kombo-cache.php:178-185 | Within [1, 1440] minutes, dividing the TTL by 60 gives the minutes back. |
| Cache.GetOrFetch | quadro-vagas-kombo/includes/class-kombo-cache.php:48-68 | A hit returns the stored list, leaves the store alone and does not run the producer. A miss returns the producer's result verbatim, and stores it (for the clamped TTL) only when it is not an error. |
| Cache.HitIgnoresProducer | quadro-vagas-kombo/includes/class-kombo-cache.php:49-56 | On a hit, what the producer would have returned makes no difference at all. |
| Cache.SecondCallHits | quadro-vagas-kombo/includes/class-kombo-cache.php:48-68 | After a successful miss, a second call for the same CID at any time until the first entry's TTL runs out is a hit with the same list. The store is not changed. This holds for a limit of either sign and for an empty list. |
| Cache.ErrorNotCached | quadro-vagas-kombo/includes/class-kombo-cache.php:59-67 | After a failed fetch every lookup answers as before, so the next call fetches again. |
| Cache.HasValidCache | quadro-vagas-kombo/includes/class-kombo-cache.php:194-197 | The cache is valid exactly when the key is stored with a timeout not yet passed. |
| Cache.Lookup | quadro-vagas-kombo/includes/class-kombo-cache.php:52 | A stored list is found exactly when its key is present and its timeout has not passed, and it is the stored list. |
| Cache.ValidCacheMeansNoFetch | quadro-vagas-kombo/includes/class-kombo-cache.php:194-197 | The cache is valid exactly when `get_or_fetch` would not run the producer. |
| Cache.GetCacheInfo | quadro-vagas-kombo/includes/class-kombo-cache.php:206-223 | The result is false without a timeout. Otherwise it holds the key and the timeout, `remaining = max(0, timeout - now)`, and `expired` iff `timeout <= now`. |
| Cache.InfoAgreesWithLookup | quadro-vagas-kombo/includes/class-kombo-cache.php:206-223 | The info and the lookup agree except in the timeout's own second, when the entry is reported expired and is still served. |
| Widget.ApplyFilters | quadro-vagas-kombo/includes/elementor-widgets/class-kombo-vagas-widget.php:1190-1249 | The result is the jobs that pass all four filters, in input order. It is a subsequence, a job is kept iff it passes, and with no filter set the list is returned unchanged. |
| Widget.ApplicationUrl | quadro-vagas-kombo/includes/elementor-widgets/class-kombo-vagas-widget.php:1458-1476 | A custom URL wins. Then the job's own link is used, unchanged. Otherwise the Kombo sign-up link is used. |
| Widget.VagaArgumentMarksCode | quadro-vagas-kombo/includes/elementor-widgets/class-kombo-vagas-widget.php:1460-1466 | On the custom and default paths a `vaga` argument is added exactly when the job has a code. On the custom URL it is the only argument added. |
| Widget.SignupLink | quadro-vagas-kombo/includes/class-kombo-api.php:372-382 | The sign-up link carries the sanitized CID first, then `vaga` exactly when a code is given. |
| Widget.DataValue | quadro-vagas-kombo/includes/elementor-widgets/class-kombo-vagas-widget.php:1088-1091 | An attribute value is "" exactly when PHP's `empty()` holds for the field. Otherwise it is the field lower-cased, with the same length. |
| Widget.FilterData | quadro-vagas-kombo/includes/elementor-widgets/class-kombo-vagas-widget.php:1086-1104 | Each of the four values the browser reads is empty exactly when PHP's `empty()` holds for the job's field. |
| Widget.AttributeText | quadro-vagas-kombo/includes/elementor-widgets/class-kombo-vagas-widget.php:1086-1104 | The attribute text starts with the `data-location` attribute and ends with the closing quote. AttributesRoundTrip reads it back. |
| Widget.AttributesRoundTrip | quadro-vagas-kombo/includes/elementor-widgets/class-kombo-vagas-widget.php:1086-1104 | The four `data-*` attributes read back, in order, as the values they were built from, provided no value holds a double quote. |
| Widget.ServerFiltersAgreeWithBrowser | quadro-vagas-kombo/includes/elementor-widgets/class-kombo-vagas-widget.php:1199-1218 | A job that passes the server's location and category filters also matches the browser filters, given the same (already trimmed) texts as queries. |
| Widget.SanitizeKey | quadro-vagas-kombo/includes/elementor-widgets/class-kombo-vagas-widget.php:1116 | The layout key only holds `a-z`, `0-9`, `_` and `-`, and is no longer than the setting. |
| Widget.SanitizeKeyIdempotent | quadro-vagas-kombo/includes/elementor-widgets/class-kombo-vagas-widget.php:1116 | Sanitizing a key twice is the same as sanitizing it once. |
| Widget.LayoutOf | quadro-vagas-kombo/includes/elementor-widgets/class-kombo-vagas-widget.php:1167-1178 | The layout is `lista` exactly for the key "lista", `accordion` exactly for "accordion", and grid for anything else. |
| Widget.ErrorView | quadro-vagas-kombo/includes/elementor-widgets/class-kombo-vagas-widget.php:1484-1492 | Editors see an error box holding the given message. Everyone else sees nothing (`Blank`). |
| Widget.NoJobsMessage | quadro-vagas-kombo/includes/elementor-widgets/class-kombo-vagas-widget.php:1500-1503 | The configured notice is shown unless PHP's `empty()` holds for it, and the default notice otherwise. Either way the notice is never empty. |
| Widget.Render | quadro-vagas-kombo/includes/elementor-widgets/class-kombo-vagas-widget.php:1111-1181 | An empty CID shows the configuration error, with no fetch and no store change. A fetch happens only without valid cache. A listing has the chosen layout and filter switch, at least one card, and only cards whose jobs pass the filters. |
| Widget.CachedPageIgnoresFeed | quadro-vagas-kombo/includes/elementor-widgets/class-kombo-vagas-widget.php:1131-1139 | With valid cache the page does not depend on the feed at all, and nothing is fetched. |
| Widget.CachedPageListsFilteredCache | quadro-vagas-kombo/includes/elementor-widgets/class-kombo-vagas-widget.php:1131-1154 | With valid cache nothing is fetched and the store is unchanged. The page is the no-jobs notice when no cached job passes the filters. Otherwise it lists exactly the passing cached jobs, in order. |
| Widget.FreshPageListsFilteredFeed | quadro-vagas-kombo/includes/elementor-widgets/class-kombo-vagas-widget.php:1131-1154 | After a successful fetch the list is cached. The page is the no-jobs notice when no job passes the filters, and otherwise lists exactly the passing jobs, in feed order. |
| Widget.FailedFetchShowsError | quadro-vagas-kombo/includes/elementor-widgets/class-kombo-vagas-widget.php:1141-1145 | A failed fetch caches nothing and shows the error's own message to editors. |
| Client.KeyDown | quadro-vagas-kombo/assets/js/vagas-widget.js:82-123 | ArrowDown moves to the next header and wraps to the first. ArrowUp moves to the previous one and wraps to the last. Home and End go to the ends. Any target is in range, and Enter and Space, and only they, toggle. |
| Client.UpUndoesDown | quadro-vagas-kombo/assets/js/vagas-widget.js:93-101 | ArrowUp undoes ArrowDown and vice versa. |
| Client.DownPressesForward | quadro-vagas-kombo/assets/js/vagas-widget.js:93-96 | Before the last header, k presses of ArrowDown move k headers down. |
| Client.DownPressesCycle | quadro-vagas-kombo/assets/js/vagas-widget.js:93-96 | n presses of ArrowDown among n headers come back to the start. |
| Client.ToggleAt | quadro-vagas-kombo/assets/js/vagas-widget.js:45-74 | A toggled header flips and its panel follows. Closing changes nothing else. Opening collapses every other header and leaves collapsed ones as they were. |
| Client.ToggleKeepsInvariant | quadro-vagas-kombo/assets/js/vagas-widget.js:45-74 | Toggling keeps every panel in step with its header and never leaves two headers open. |
| Client.Rendered | quadro-vagas-kombo/includes/elementor-widgets/class-kombo-vagas-widget.php:1346-1358 | The accordion as rendered, with every header collapsed and every panel hidden, satisfies the invariant. |
| Client.ClicksKeepInvariant | quadro-vagas-kombo/assets/js/vagas-widget.js:45-74 | Any sequence of clicks keeps the invariant, so at most one panel is ever open. |
| Client.Shows | quadro-vagas-kombo/assets/js/vagas-widget.js:167-190 | The `indexOf` test shows an item exactly when the location query is empty or occurs in its location, city or state, and the area query is empty or occurs in its area. |
| Client.Query | quadro-vagas-kombo/assets/js/vagas-widget.js:162-163 | A missing input gives the empty query. A query never starts or ends with JavaScript whitespace. |
| Client.ApplyFilters | quadro-vagas-kombo/assets/js/vagas-widget.js:161-206 | Each item is visible exactly when it matches the trimmed, lower-cased queries. The visible count is the number of matching items and at most the total. |
| Client.CounterTextInjective | quadro-vagas-kombo/assets/js/vagas-widget.js:211-221 | Different visible and total counts never give the same counter text. |
| Client.CounterText | quadro-vagas-kombo/assets/js/vagas-widget.js:211-221 | The counter text starts with the number of visible items. CounterSaysAllFound and CounterTextInjective state the rest. |
| Client.CounterSaysAllFound | quadro-vagas-kombo/assets/js/vagas-widget.js:216-220 | The counter says "vagas encontradas" exactly when every item is visible. |
| Client.ResetFilters | quadro-vagas-kombo/assets/js/vagas-widget.js:226-241 | After a reset both queries are empty, every item is visible, the count is the total and the counter says "N vagas encontradas". |

## Left out

- HTTP: `wp_remote_get`, its timeout and headers are not modelled. The reply of the single request (`Feed.Response`) is an argument, and the feed URL is only a constant.
- `fix_encoding`, `simplexml_load_string`, `strip_tags`, `html_entity_decode`, `strtotime` and `date_i18n` are library code. Each is a function parameter (`Feed.Host`), so any behaviour of theirs is allowed.
- `md5` of `wp_json_encode`: the cache key uses a digest parameter over the sanitized CID and the absolute limit.
- `sanitize_text_field` is a parameter (`Widget.Wp`). The widget sanitizes the CID once. The model does not apply the repeated calls inside `get_vagas` and `generate_cache_key` to that already sanitized text; the feed URL is not modelled, and the digest parameter can absorb the key's call. `get_application_url` does apply it a second time, as the source does.
- `add_query_arg`, `esc_url`, `esc_attr` and `esc_html`: links are kept as a base plus the arguments added, and escaping is not modelled.
- Widget.AttributesRoundTrip: requires that no value contains a double quote, because the escaping done by `esc_attr` is not modelled.
- The clock: `time()` and the cut-off `strtotime('-N days')` are arguments.
- WordPress transients: the store is a map with timeouts. Deleting an expired transient when it is read, the object cache, and `set_transient` failing are not modelled.
- `clear_all`, `clear_for_cid`, `get`, `set` and `delete` of `Kombo_Cache` are SQL or thin wrappers, so they are not separate operations.
- Translation: messages are the untranslated strings of the source.
- Markup: the HTML of the cards, layouts, frontend filter form and error boxes is left out. A page is modelled as a `Widget.View` with the cards' data.
- `custom_css_class` is not modelled: it only adds a CSS class.
- `render_frontend_filters`: only its on/off switch is kept.
- Widget registration, controls (`register_*_controls`), the plugin bootstrap and the self-updater are WordPress configuration and plumbing.
- The DOM: event wiring, `focus()`, `preventDefault`, styles, `aria-*` attributes and Elementor re-initialisation are not modelled. The state of the accordion is a sequence of header/panel flags.
- Client.KeyDown: requires the header to be one of its accordion's headers. A header outside any accordion returns early and does nothing, which is not modelled.
- `updateResultsCounter` does nothing when the page has no counter element. `Client.CounterText` gives the text that would be shown, so that case is not modelled.
- JavaScript's full Unicode `toLowerCase`: lower-casing is ASCII only. `trim` is modelled with the whitespace and line-terminator characters of the ECMAScript standard, one char per UTF-16 code unit.
- Description.ExtractCount: the digit run after the label is read as an unbounded number. PHP's `(int)` at class-kombo-api.php:337 saturates a run above PHP_INT_MAX to 9223372036854775807, so "Numero de vagas: 99999999999999999999" gives 10^20 - 1 in the model. The same holds for Description.ExtractCountAsWritten.
- Description.ExtractCountAsWritten: reads the digit run unbounded, like ExtractCount, where PHP saturates at PHP_INT_MAX.
- Strings.PhpIntval: integers are unbounded, and the mantissa and exponent form is computed exactly. PHP saturates an out-of-range value to the 64-bit limits, maps an infinite one to 0, and rounds through a double. These are not modelled.
- `strtolower` before PHP 8.2 is locale dependent; the model folds ASCII only.
- `stripos` with an empty needle is `false` in PHP 7 and `0` in PHP 8. A filter setting that sanitizes to "" (markup alone, say) reaches it. The model follows PHP 8: such a filter keeps every job.
- Description.CityWithoutState: requires that no later "Cidade/UF:" label follows. A later "city/UF" line would be matched first by the strict pattern. LooseCityIsUsed covers the general case.
- Description.ParseDescription: the count is read with the intended pattern (`Description.ExtractCount`), not with the pattern as written at class-kombo-api.php:336. As written, the accented label "Número de vagas: n" gives 0 (see Findings). The values of the fields are stated by DescribedCityAndState and the Extract lemmas, not by this contract.
- Description.Extract: the count is read with the intended pattern; as written, an accented label gives 0. This contract states only the shapes of the fields; their values are stated by the lemmas about each label.
- Description.ExtractCity: its own contract states the shapes of the fields. Their values are stated by StrictCityIsUsed, LooseCityIsUsed, CityWithState and CityWithoutState.
- Feed.BuildJob: a description with the accented count label supplies its number. As written that label gives 0, and the record falls back to the `num_vagas` tag or to 1.
- Feed.ParseItem: inherits the intended count reading from ParseDescription, so an accented count label is used rather than the tag.
- Feed.GetVagas: its records use the intended count reading.
- Feed.ParseXmlFeed: its records come from ParseItem, so they use the intended count reading.
- Feed.ParseItems: its records come from ParseItem, so they use the intended count reading.
- Widget.Render: the cards it lists use the intended count reading. The minimum-positions filter therefore sees the number from an accented label.
- Widget.ServerFiltersAgreeWithBrowser: the browser reads the UTF-8 decoding of the attribute bytes, but the model treats each byte as one code unit (exact for ASCII). Its requires that JavaScript's `trim` leaves the lower-cased filters unchanged is therefore read on bytes. That excludes a filter ending in a byte that JavaScript counts as whitespace, such as the 0xA0 that ends the UTF-8 "à", although the browser would not trim it.
- Description.ExtractArea: states only that the area is one line. The value is unused by the record, so no further property is stated.
- Feed.ParseItems: states length and well-formedness. Order and exact membership are stated by ParseItemsAppend and ParseItemsExactly.

## Findings

| source | as written | input that shows it | evidently intended | confidence | as-written member | corrected member |
|---|---|---|---|---|---|---|
| quadro-vagas-kombo/includes/class-kombo-api.php:336 | `/N[uú]mero de vagas:\s*(\d+)/i` has no `u` flag, so `[uú]` is a class of single bytes (`u`, `U` and the two bytes of "ú"), and the UTF-8 "ú" (two bytes) never matches it | the description line "Número de vagas: 3" gives `num_vagas` 0, so the record falls back to the tag value or to 1 | the accented label is read like the plain one, giving 3 | high, not executed | Description.ExtractCountAsWritten (Description.AccentedCountMissed) | Description.ExtractCount (Description.CountFound) |
