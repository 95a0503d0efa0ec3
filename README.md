# Systembolaget APK browser: filter, sort, debounce and product URLs

This project models two parts of a small product browser for the Swedish
alcohol retailer's catalogue.

- **The storefront script (`script.js`).**
  - `applyFiltersAndSort` copies the loaded product list and narrows it by a
    case-insensitive free-text search and by an exact-match assortment filter.
  - It then sorts the result stably by one of six keys. Numeric keys are
    coerced with `parseFloat(x) || 0`. The name key uses a Swedish collation.
  - Typing in the search box is debounced. Each keystroke cancels the one
    pending timer and schedules a new one 300 ms later. The two select
    controls recompute at once.
- **The catalogue client (`scripts/systembolaget_apk_wrapper.py`).**
  - `build_product_url` turns a product record into
    `https://www.systembolaget.se/produkt/<category>/<slug>-<number>/`, or
    gives `None` when the category or the number is missing.
  - The slug is the folded, lower-cased name with every run outside
    `[a-z0-9]` replaced by one `-`, and hyphens stripped from both ends.
  - A loop attaches the URL to each product dictionary of a parsed listing,
    in place.

Modules:

- `Wrappers`: `Option`.
- `Text`:
  - lower-casing (ASCII and Latin-1);
  - substring search (`includes`);
  - `join`;
  - decimal text of integers (Python `str(int)`).
- `Seqs`: `Array.prototype.filter` as `Filter`, and the subsequence relation.
- `StableSort`:
  - a stable insertion sort driven by a JavaScript-style comparator;
  - it is the reference for `Array.prototype.sort`, stable since ES2019;
  - lemmas prove it sorted, a permutation, and that the order of tied elements is kept.
- `Coercion`: `parseFloat(x) || 0` over JSON numbers and strings.
- `Catalog`: the product record, the search and assortment predicates, the comparator switch, and `ApplyFiltersAndSort`.
- `Page`:
  - the page's globals as a pure state machine (`Step`, `Run`), with lemmas about bursts of keystrokes;
  - the class `StorePage`, whose listener methods are proved to follow `Step`.
- `SystembolagetClient`:
  - the JSON value type and Python truthiness;
  - `str.strip`, the slugifier and `build_product_url`;
  - the attach loop as a method over an `array` of product maps.

Foreign behaviour is passed in as parameters:

- **Collation.** The Swedish `localeCompare(…, 'sv', {sensitivity: 'base'})` is a parameter `collate`.
  - Ordering results assume it is a total preorder (`Catalog.IsCollation`).
- **Folding text to ASCII.** `unicodedata.normalize("NFKD", s).encode("ascii", "ignore").decode()` is `Host.fold`.
  - `Host.Valid` requires that it returns ASCII and leaves ASCII text unchanged.
- **Python `str()` of other values.** `str()` of a float, list or dict is `Host.repr`.

Two details of the script that the model keeps:

- **Search haystacks.** The search tests three separate texts (name, category, grapes) with OR, not one concatenated text.
  - A term that spans two fields therefore does not match.
- **Name order and trimming.** The searched name is bold-then-thin; the `name-asc` key sorts by thin-then-bold.
  - Neither is trimmed in the script, so every searched name contains the separating space (`Catalog.SpaceMatchesAll`).
  - The Python client does strip its bold-then-thin name.

## Model

| member | source | states |
|---|---|---|
| Catalog.ApplyFiltersAndSort | script.js:8-75 | The visible rows are the stable sort, by the chosen comparator, of the filtered copy; never more rows than the full list. |
| Catalog.CategoryLabel | script.js:16 | The category label is `customCategoryTitle` when that is non-empty, else `categoryLevel1`, else ""; it is empty exactly when both are. |
| Catalog.FilteredIsSelection | script.js:12-31 | The search step followed by the assortment step is one filter by `Selected`; an empty term or an empty filter passes everything. |
| Catalog.FilteredIsSubsequence | script.js:9-31 | The filter steps only delete products and keep the relative order of the rest; the full list is an input value and is not changed. |
| Catalog.VisibleContents | script.js:9-70 | A product appears in the result exactly as often as in the full list when it is selected, and not at all otherwise; membership holds both ways. |
| Catalog.NoFilterIsPermutation | script.js:9-36 | With an empty search and no assortment filter the result is a permutation of all products, of the same length. |
| Catalog.AssortmentIsExact | script.js:26-30 | A non-empty assortment filter keeps only products whose `assortment` equals it exactly. |
| Catalog.SearchName | script.js:15 | The searched name: bold part, a space, thin part, each empty when missing; `SpaceMatchesAll` states that it always holds the space. |
| Catalog.SortName | script.js:64-65 | The `name-asc` key: thin part, a space, bold part; `NameAscending` states the order it gives. |
| Catalog.GrapesText | script.js:17 | The grape names joined by `, `, empty when missing; `GrapeHitMatches` states that each grape name is found through it. |
| Catalog.MatchesSearch | script.js:14-22 | The search test for a lower-cased term: it occurs in the lower-cased name, category label or grape text; `SearchMatchShrinks`, `NameHitIgnoresCase` and `GrapeHitMatches` state when it holds. |
| Catalog.MatchesAssortment | script.js:28-30 | `product.assortment === assortmentFilter`; `AssortmentIsExact` states its effect. |
| Catalog.Filtered | script.js:9-31 | The copy narrowed by the search step, when the term is non-empty, then by the assortment step, when a filter is chosen; `FilteredIsSelection` and `FilteredIsSubsequence` state what it keeps. |
| Catalog.Compare | script.js:36-69 | The comparator switch on `sortBy`, with the coercion on each numeric key and the collation on names; `ComparatorIsPreorder` states that every branch is a total preorder. |
| Catalog.Comparator | script.js:36-69 | `Compare` for one sort key, as the callback handed to `sort`; `VisibleSorted` and `TiesKeepOrder` state the order it gives. |
| Catalog.NameHitIgnoresCase | script.js:12-21 | A term that differs from part of the searched name only in letter case finds the product. |
| Catalog.SearchCaseBlind | script.js:12 | Two search texts equal up to letter case show the same rows. |
| Catalog.SearchMatchShrinks | script.js:19-21 | A product that matches a term also matches every substring of that term, in each of the three haystacks. |
| Catalog.SearchMonotone | script.js:12-22 | Lengthening the search term to one that contains the old term never adds a product: the result shrinks as a multiset and in length. |
| Catalog.GrapeHitMatches | script.js:17-21 | A term found in any one grape name makes the product match, through the `", "`-joined grape text. |
| Catalog.SpaceMatchesAll | script.js:15-21 | A search for a single space shows every product, because the searched name always holds the space between its parts. |
| Catalog.ComparatorIsPreorder | script.js:36-69 | Every branch of the comparator switch is a total preorder; for `name-asc` this holds when the collation is one. |
| Catalog.VisibleSorted | script.js:36-70 | The result is ordered by the chosen comparator. |
| Catalog.DescendingKeys | script.js:38-60 | Under `apk-desc`, `price-desc` and `volume-desc` the coerced key is non-increasing along the result. |
| Catalog.AscendingKeys | script.js:43-51 | Under `apk-asc` and `price-asc` the coerced key is non-decreasing along the result. |
| Catalog.NameAscending | script.js:62-66 | Under `name-asc` the thin-then-bold names are in collation order. |
| Catalog.EqualKeysKeepOrder | script.js:36-60 | Under a numeric key, products with equal coerced keys keep the order the filters left them in. |
| Catalog.TiesKeepOrder | script.js:36-70 | Under every key, products the comparator ties keep their filtered order, including names equal under base sensitivity. |
| Catalog.UnknownKeyKeepsOrder | script.js:67-68 | An unrecognised sort key (`default: return 0`) leaves the filtered order exactly as it was. |
| Catalog.PriceAscExample | script.js:48-51 | Äpple at 100 kr, Öl at 50 kr and Vin at 75 kr sorted by `price-asc` come out as Öl, Vin, Äpple. |
| Catalog.SearchVinExample | script.js:12-22 | Searching "vin" among products named Äpple, Öl and Vin keeps only Vin. |
| StableSort.Sort | script.js:36 | The sorted copy by a comparator: a permutation of its input of the same length; `SortSorted` and `SortStable` state its order. |
| Seqs.Filter | script.js:14-30 | `Array.prototype.filter`: no longer than its input, and keeping only accepted elements of it; `FilterCount` and `FilterIsSubseq` state its exact contents and order. |
| StableSort.SortStable | script.js:36 | Sorting keeps, within any class of mutually tied elements, the input's relative order. |
| StableSort.SortSorted | script.js:36 | With a total-preorder comparator the sorted sequence is ordered by it. |
| StableSort.AllTiedIsIdentity | script.js:67-68 | A comparator that always returns 0 leaves the sequence unchanged. |
| Coercion.ParseFloat | script.js:40 | `parseFloat` finds a number exactly when, after white space and one sign, the text starts with a digit or with a point and a digit (`HasLeadingNumber`); `ParseFloatLiteral` states the value it finds. |
| Coercion.Coerce | script.js:40-41 | The coercion of a sort key, `parseFloat` with NaN and 0 read as 0: a missing or null key is 0, a JSON number is itself, and text is its leading number or 0; `CoerceDefaults`, `CoerceLiteral`, `CoerceTrailingText` and `ParseNatText` state its cases. |
| Coercion.CoerceDefaults | script.js:40-41 | A missing or null key coerces to 0, a JSON number to itself, and every text without a leading number (after white space and a sign, no digit and no point-then-digit) to 0. |
| Coercion.CoerceTrailingText | script.js:49-50 | A price text `"19.90abc"` coerces to 19.9: the text after the number is ignored. |
| Coercion.ParseNatText | script.js:40 | The decimal text of a natural number parses back to that number. |
| Coercion.ParseFloatLiteral | script.js:40 | White space, an optional `-` or `+`, a decimal literal (digits, an optional point and fraction digits, an optional exponent) and text that does not continue the literal parse to the literal's value, negated after `-`. |
| Coercion.CoerceLiteral | script.js:40-41 | The sort key of such a text is the literal's value, negated after `-`. |
| Coercion.ParseNegativeExample | script.js:40 | `parseFloat("-5")` is -5. |
| Coercion.ParseExponentExample | script.js:40 | `parseFloat(" 2.5e3 kr")` is 2500: leading white space is skipped, the exponent scales and the trailing text is ignored. |
| Text.ToLower | script.js:12 | Lower-casing maps every character on its own, keeps the length, leaves no upper-case letter and keeps ASCII text ASCII. |
| Text.LowerAsciiLetters | script.js:12 | Each letter `A`-`Z` becomes its own lower-case form. |
| Text.LowerLatin1Letters | script.js:12 | Each upper-case Latin-1 letter `À`-`Þ` becomes its own lower-case form; `×` and `ß` stay. |
| Text.LowerExample | script.js:20 | `"ÄPPLE Öl"` lower-cases to `"äpple öl"`. |
| Text.LowerIdempotent | script.js:12-20 | Lower-casing an already lower-cased text changes nothing. |
| Text.IsSubstring | script.js:19-21 | `includes`: the term occurs as a contiguous run; `SubstringTransitive` and `SubstringLower` state that a run of a run is a run and lower-casing keeps runs. |
| Text.Join | script.js:17 | `join(', ')` of the grape names; `JoinContainsPart` states that every name occurs in the joined text. |
| Page.SearchInputReschedules | script.js:195-204 | A keystroke replaces whatever timer was pending with exactly one due 300 ms later, stores the text, and does not recompute. |
| Page.SelectRunsImmediately | script.js:212-213 | A select change recomputes at once with the new value and leaves the pending timer as it was. |
| Page.BurstLeavesOneTimer | script.js:195-204 | During a burst of keystrokes nothing is recomputed; afterwards one timer is pending, due 300 ms after the last keystroke, with its text. |
| Page.BurstFiresOnce | script.js:200-203 | When the clock reaches that deadline the page recomputes once, for the last text typed, and no timer remains. |
| Page.IdleTicksDoNothing | script.js:197-203 | With no timer pending, clock ticks change nothing, so a burst never fires twice. |
| Page.FiringsBounded | script.js:195-204 | Timer firings plus the pending timer never exceed the keystrokes plus the initially pending timer: no timer leak, no duplicate firing. |
| Page.ThreeKeystrokesFireOnce | script.js:195-204 | Three keystrokes at 0, 50 and 100 ms: nothing has run by the tick at 399 ms, exactly one run happens at the tick at 400 ms, 300 ms after the last keystroke, for the full text, and a later tick adds none. |
| Page.Step | script.js:195-213 | One event: a keystroke replaces the timer and stores the text, a select change recomputes at once, a tick fires a due timer; `SearchInputReschedules` and `SelectRunsImmediately` state these. |
| Page.Run | script.js:195-213 | The events in order, oldest first; `BurstLeavesOneTimer`, `BurstFiresOnce` and `FiringsBounded` state what bursts do. |
| Page.StorePage.constructor | script.js:191-192 | The page starts with no products, no pending timer and nothing shown. |
| Page.StorePage.ApplyFiltersAndSort | script.js:8-75 | Recomputing stores the pipeline's result for the current controls and counts the run; the product list is untouched. |
| Page.StorePage.DataLoaded | script.js:128-131 | Loading stores the product list once and recomputes. |
| Page.StorePage.OnSearchInput | script.js:209 | The search listener's new state is `Step` of the old state on a keystroke. |
| Page.StorePage.OnAssortmentChange | script.js:212 | The assortment listener's new state is `Step` of the old state on that change. |
| Page.StorePage.OnSortChange | script.js:213 | The sort listener's new state is `Step` of the old state on that change. |
| Page.StorePage.OnClock | script.js:200-203 | The clock fires exactly when the pending deadline has passed, and the new state is `Step` of the old on that tick. |
| SystembolagetClient.PyStrip | scripts/systembolaget_apk_wrapper.py:123-126 | The stripped text is one contiguous run of the input with only white space before and after it, and it neither starts nor ends with white space. |
| SystembolagetClient.StripLeft | scripts/systembolaget_apk_wrapper.py:126 | Dropping leading white space keeps a suffix, drops only white space, and stops at a character that is not white space. |
| SystembolagetClient.StripRight | scripts/systembolaget_apk_wrapper.py:126 | Dropping trailing white space keeps a prefix, drops only white space, and stops at a character that is not white space. |
| SystembolagetClient.NamePart | scripts/systembolaget_apk_wrapper.py:124-125 | `(v or "")` before a string `+`: "" for a falsy value, the text for a string, and a raise for any other truthy value. |
| SystembolagetClient.NameText | scripts/systembolaget_apk_wrapper.py:123-126 | The bold-then-thin name joined by a space and stripped; `UrlOutcome` and `SlugifyIdempotent` state its use. |
| SystembolagetClient.Truthy | scripts/systembolaget_apk_wrapper.py:113 | Python truth of a JSON value, as `not cat` and `not number` test it (line 136); `NoCategoryNoUrl` and `UrlOutcome` state its effect. |
| SystembolagetClient.PyStr | scripts/systembolaget_apk_wrapper.py:139 | `str()` of the number in the f-string; an integer gives ASCII text. |
| SystembolagetClient.CategoryPath | scripts/systembolaget_apk_wrapper.py:115-120 | The category folded to ASCII and lower-cased, not slugified; `UrlIsAscii` states that it is ASCII. |
| SystembolagetClient.Sub | scripts/systembolaget_apk_wrapper.py:132 | `re.sub(r"[^a-z0-9]+", "-", ...)`; `SubShape`, `SubFixed`, `SubKeepsSlugChars` and `SubRunIsOneHyphen` state its output shape, its fixed points, that it keeps the letters and digits and that each run of other characters becomes one hyphen. |
| SystembolagetClient.TrimHyphens | scripts/systembolaget_apk_wrapper.py:132 | `strip("-")`; `TrimShape` states that it leaves a slug. |
| SystembolagetClient.SlugText | scripts/systembolaget_apk_wrapper.py:131-132 | The slug step after folding; `SlugTextIsSlug` and `SlugTextFixpoint` state that it yields exactly the well-formed slugs. |
| SystembolagetClient.SubRunIsOneHyphen | scripts/systembolaget_apk_wrapper.py:132 | A whole run of characters outside `a-z0-9`, between slug characters or the ends of the text, is replaced by exactly one hyphen, and the text on either side is substituted independently. |
| SystembolagetClient.SlugTextExample | scripts/systembolaget_apk_wrapper.py:131-132 | The name `Gin & Tonic` becomes the slug `gin-tonic`. |
| SystembolagetClient.Slugify | scripts/systembolaget_apk_wrapper.py:128-132 | Fold, lower-case, collapse, strip hyphens; `SlugifyIsSlug` and `SlugifyIdempotent` state its properties. |
| SystembolagetClient.Build | scripts/systembolaget_apk_wrapper.py:112-139 | The builder's checks and steps, in Python's order, on the four fields it reads; `UrlOutcome` states its three outcomes. |
| SystembolagetClient.BuildProductUrl | scripts/systembolaget_apk_wrapper.py:105-139 | `build_product_url(product)`: `Build` of the fields read with `get` and their defaults; `AttachKeepsFields` states that it does not read `productUrl`. |
| SystembolagetClient.NoCategoryNoUrl | scripts/systembolaget_apk_wrapper.py:112-114 | A missing or empty category gives `None`, whatever the name and number are. |
| SystembolagetClient.UrlOutcome | scripts/systembolaget_apk_wrapper.py:105-139 | It gives `None` exactly when the category is falsy, or when both checks before the number pass and the number is falsy. It raises exactly when the category is truthy but not text, or a name part is truthy but not text. Otherwise the URL is the prefix, the folded lower-case category, `/`, the slug of the stripped bold-then-thin name (a well-formed slug), `-`, `str(number)` and `/`. |
| SystembolagetClient.UrlIsAscii | scripts/systembolaget_apk_wrapper.py:115-139 | With a fold that yields ASCII and a number whose text is ASCII, the built URL is ASCII. |
| SystembolagetClient.SlugifyIsSlug | scripts/systembolaget_apk_wrapper.py:128-132 | Every slug has only `[a-z0-9-]`, no `--`, and no hyphen at either end. |
| SystembolagetClient.SlugTextFixpoint | scripts/systembolaget_apk_wrapper.py:131-132 | The lower-case, substitute and strip step leaves a text unchanged exactly when the text is a well-formed slug. |
| SystembolagetClient.SlugTextIdempotent | scripts/systembolaget_apk_wrapper.py:131-132 | Applying the slug step twice is the same as applying it once. |
| SystembolagetClient.SlugifyIdempotent | scripts/systembolaget_apk_wrapper.py:123-132 | A slug given back as a name is stripped, folded and slugified to itself. |
| SystembolagetClient.SlugKeepsSlugChars | scripts/systembolaget_apk_wrapper.py:131-132 | The letters `a-z` and digits of the lower-cased text all survive into the slug, in order. |
| SystembolagetClient.WithUrlEffect | scripts/systembolaget_apk_wrapper.py:32-36 | A product gains `productUrl`, holding the URL, exactly when a URL is built; otherwise it is unchanged; no other key changes. |
| SystembolagetClient.WithUrlIdempotent | scripts/systembolaget_apk_wrapper.py:82-86 | The builder does not read `productUrl`, so attaching twice equals attaching once; a dictionary listed twice ends the same as two copies. |
| SystembolagetClient.FirstError | scripts/systembolaget_apk_wrapper.py:82-86 | The index of the first product whose URL building raises: no earlier product raises, and the product there raises. |
| SystembolagetClient.AttachUrls | scripts/systembolaget_apk_wrapper.py:82-86 | It raises exactly when some product raises. Products before the first one that raises get their URL attached; that product and the rest are unchanged; the length and order are kept. |
| Text.IntText | scripts/systembolaget_apk_wrapper.py:139 | `str()` of an int is ASCII, non-empty, and starts with `-` exactly for a negative number. |

## Left out

- The `console.log` of the row count (script.js:73) is logging output and is not modelled.
- `renderTable` (script.js:143-187) builds DOM rows and formats floats with `toFixed`. The model stops at the sequence handed to it.
- `fetchData` and `fetchLastUpdatedTime` (script.js:78-140) are network fetches, JSON parsing and time-zone formatting.
  - `StorePage.DataLoaded` stands for the one line that stores the list and recomputes.
  - The second `fetchData()` call (script.js:217-220) would load and render the list a second time; it is not modelled.
- The Python subprocess calls, the spinner thread and the stdout writes in `_run` and `_run_with_spinner` are I/O. Only their URL loop is modelled.
  - `AttachUrls` also does not model the `isinstance(data, list)` guard or list items that are not dictionaries.
- `ethanol_ml_per_sek` is float division. `scripts/fetch_products_with_apk.py` is file I/O around a value computed elsewhere. Neither is part of this model.
- Unicode NFKD folding and Swedish collation are foreign library behaviour. They are parameters, constrained only as stated above.
- Catalog.ApplyFiltersAndSort: returns a sorted new sequence. The script sorts its local copy in place, which is not observable outside the function.
- Coercion.ParseFloat: does not model `Infinity`, which reads as no number here, or rounding to doubles. Values are exact reals, and subtraction in the comparator cannot overflow.
- Text.ToLower: lower-cases only ASCII and Latin-1 letters. Other Unicode case mappings are not modelled, and strings are sequences of code points rather than UTF-16 units.
- Catalog: text fields of a product are modelled as text or absent, and `grapes` as a list of texts or absent. Other JSON values are not modelled:
  - a number or list in a name field would be turned into text by `+` (script.js:15);
  - a category label that is not text throws a TypeError at `.toLowerCase()` (script.js:20), which ends the recompute. This happens only when a search term is set and the name did not already match, because the `||` on script.js:19 stops at the first match;
  - a truthy `grapes` value that is not an array throws a TypeError at `.join` (script.js:17). This also happens only when a search term is set, since the filter runs only then.
- Coercion.Coerce: a sort field (`apk`, `price`, `volume`) is modelled as a JSON number or a text only (`Raw`). A boolean, list or object there is not modelled. JavaScript turns it into text first, so `parseFloat(true)` is NaN and sorts as 0, while `parseFloat([3])` is 3.
- SystembolagetClient: Python's `lower()` is applied after folding, so it acts only on ASCII as modelled, given a fold that yields ASCII.
- SystembolagetClient.AttachUrls: works on an array of dictionary values. Python shares dictionaries by reference; `WithUrlIdempotent` shows this does not change the outcome of a repeated dictionary.
- SystembolagetClient.UrlIsAscii: requires the number's text to be ASCII. A string or container product number could carry other characters into the URL.
- The exception raised for a non-text category or name is modelled as the outcome `TypeError`. Its message and the traceback are not modelled.
