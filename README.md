# UCSC dining-hall menu scraper, modelled in Dafny

The scraper reads the UCSC nutrition site in three steps. It collects the
dining-hall links from the main page. For each hall it rebuilds the day's
menu as an insertion-ordered dict from category, such as "Breakfast", to its
item names, along with the set of every item name seen. It then searches that
menu for a keyword the user typed and reports the halls that serve a match.

This project models the logic of `menu_entries.py` and proves what it does:

- `text.dfy` (`Text`): the `str` operations the script relies on. These are
  ASCII `lower()`, `startswith`, `endswith`, `in` on strings and
  `rsplit(sep, 1)[0]`.
- `seqs.dfy` (`Seqs`): `Option`, `Distinct` and first-occurrence `Dedup`.
- `dicts.dfy` (`OrderedDicts`): Python's `dict` as a key sequence plus a map.
  `Put` is `d[k] = v`: an existing key keeps its position.
- `menu_parser.dfy` (`MenuParser`): the parse loop of `fetch_menu`. The HTML
  is abstracted to one token per visited element. A `Category(name)` token
  stands for an element holding a `shortmenumeals` div. An `Items(texts)`
  token stands for any other element, with the trimmed texts of its
  `shortmenurecipes` divs. The loop is `ParseMenuTable`, a `while` loop over
  the tokens. It is proved equal to the fold `Parse`. `Parse` is then proved
  equal to an independent description: the keys are the distinct marker
  names, each list is the distinct non-empty texts, in first-seen order,
  from that category's last marker up to the next marker (`[]` for the
  category `""`), and the unique set is every non-empty text.
- `food_search.dfy` (`FoodSearch`): `search_food`. Its nested loops
  (`SearchFood`, `CollectMatches`) are proved equal to the function `Search`.
  The properties of the search are lemmas about `Search`.
- `hall_links.dfy` (`HallLinks`): the href step of `fetch_links`. It builds
  the URL, keeps it if it contains "Hall", and preserves page order.
- `hall_search.dfy` (`HallSearch`): the `__main__` loop. It pairs link `n`
  with `dh_names[n]` and records the halls whose search found something.
- `scenarios.dfy` (`Scenarios`): worked examples. One is a Breakfast/Lunch
  page searched for "bacon", "pie" and "sushi". Others are the keyword forms
  of "apples" and "apple", and substring matches.

What the code does, where a reading of its comments could suggest
otherwise:

- The match test at `menu_entries.py:118` is `keyword in item_lower or
  plural_keyword in item_lower`. `singular_keyword` is computed but never
  used. So an item matches exactly when the lower-cased keyword is a
  substring of the lower-cased item. `FoodSearch.MatchesIsSubstring` proves
  this. `Scenarios.ApplesMissesApplePie` shows that "apples" does not match
  "Apple Pie". The model follows the code.
- The unique set can hold items that no category lists. This happens before
  the first marker, under a category named `""` (falsy, so nothing is
  appended to it), and for items listed before a category's marker repeats
  and resets its list. The model follows the code. The lemmas
  `UniqueBeforeFirstMarker`, `UniqueUnderEmptyName` and
  `UniqueAfterRepeatedMarker` show each case.
- A category name may be `""`. It still becomes a key, with an empty list.
- Halls are paired with names by position in the fixed list `dh_names`. With
  more links than names, `dh_names[corresponding_num]` raises `IndexError`
  and the script stops. The model returns `NameIndexError` in that case.

Outside inputs are parameters. The main page is a `Directory`, either
`DirectoryError` or the `href` of each location element. The response for a
hall link is a function `respond: string -> Page`. A `Page` is either
`FetchError` (any exception in `fetch_menu`) or `Loaded(table)`, where
`table` is `None` when the menu table is missing. The keyword is an argument.

## Model

| member | source | states |
|---|---|---|
| OrderedDicts.Empty | menu_entries.py:58 | the `{}` literal (also at :112 and :130): a well-formed dict with no keys |
| OrderedDicts.Put | menu_entries.py:75 | `d[k] = v` maps `k` to `v`; an existing key keeps its place in the key order, a new key goes last; the dict stays well-formed |
| MenuParser.Start | menu_entries.py:58-69 | the state before the loop: no current category, `menu_data = {}`, `unique_items = set()`; it is well-formed |
| MenuParser.AddText | menu_entries.py:81-86 | one recipe text keeps the parse state well-formed, so the lookup `menu_data[current_category]` is always defined |
| MenuParser.Parse | menu_entries.py:69-86 | after any prefix of the elements, the current category (when set) is a key of a well-formed dict |
| MenuParser.AddTexts | menu_entries.py:79-86 | the recipe texts of one element, folded through `AddText` in order; the state stays well-formed |
| MenuParser.Step | menu_entries.py:70-86 | the definition of one visited element (a marker becomes current with its list reset to `[]`, the `continue` skipping its recipes; any other element adds its recipe texts); its contract states that the state stays well-formed; the reset is stated against the positional description by `FinalItemsOfNewMarker` with `ParseIsDescribed` |
| MenuParser.FinalItemsOfNewMarker | menu_entries.py:72-76 | in the positional description, a category whose marker is the last element lists nothing |
| MenuParser.AddTextsEffect | menu_entries.py:79-86 | an element's recipe texts change only the current, truthy category's list (appending the new non-empty ones), keep the keys and current category, and add every non-empty text to the unique set |
| MenuParser.ParseMenuTable | menu_entries.py:58-86 | the loop over the elements ends with exactly the dict and unique set of the fold `Parse` |
| MenuParser.MenuOf | menu_entries.py:58-98 | the dict `fetch_menu` returns for a page: `{}` on a failed fetch or a missing table, otherwise the parsed dict, which is well-formed |
| MenuParser.FetchMenu | menu_entries.py:58-98 | a failed fetch or a missing menu table gives exactly `({}, set())`; otherwise the result of the parse loop |
| MenuParser.ParseIsDescribed | menu_entries.py:69-86 | the keys are the distinct marker names in first-seen order; each list is the distinct non-empty items, in first-seen order, after its last marker up to the next marker (`[]` for `""`); the unique set is every non-empty recipe text; the current category is the last marker |
| MenuParser.ParseListsDistinctNonEmpty | menu_entries.py:81-85 | no category list holds a duplicate or an empty string |
| MenuParser.ParseItemsAreUnique | menu_entries.py:84-86 | every item of every category list is in the unique set |
| MenuParser.ParseWithoutMarkers | menu_entries.py:69-86 | a table without category markers gives the empty dict, whatever items it has, and its unique set is all non-empty texts |
| MenuParser.UniqueBeforeFirstMarker | menu_entries.py:69-86 | a table holding one non-empty item and no marker gives the dict `{}` and the unique set `{item}`: the item is collected while `current_category` is `None` and listed nowhere |
| MenuParser.UniqueUnderEmptyName | menu_entries.py:84 | under the category `""` an item joins the unique set only; the key `""` keeps an empty list |
| MenuParser.ParseMarkerThenItem | menu_entries.py:72-86 | for a non-empty name and a non-empty item, a marker followed by that item gives exactly the dict `{name: [item]}`, current category `name` and unique set `{item}` |
| MenuParser.UniqueAfterRepeatedMarker | menu_entries.py:72-76 | a repeated marker resets its list to `[]` and keeps its single key; the unique set keeps the item |
| FoodSearch.Inflect | menu_entries.py:105-110 | the plural form is the singular plus "s"; the keyword is one of the two; it is the plural exactly when it ends in "s" |
| FoodSearch.Normalize | menu_entries.py:103-110 | the forms of the lower-cased keyword: the plural is the singular plus "s", the lower-cased keyword is one of the two, and it is the plural exactly when it ends in "s" |
| FoodSearch.NormalizePlural | menu_entries.py:105-107 | a lower-case keyword `w + "s"` gives singular `w` and plural `w + "s"` |
| FoodSearch.NormalizeSingular | menu_entries.py:108-110 | a lower-case keyword not ending in "s" gives itself and itself plus "s" |
| FoodSearch.NormalizeTrailingS | menu_entries.py:105-107 | "bus" is taken as a plural: singular "bu", plural "bus" |
| FoodSearch.NormalizeIgnoresCase | menu_entries.py:103 | the forms depend only on the lower-cased keyword |
| FoodSearch.Matches | menu_entries.py:117-118 | the test of one item, as written: the lower-cased keyword or the plural form occurs in the lower-cased item |
| FoodSearch.MatchesIsSubstring | menu_entries.py:103-118 | an item matches if and only if the lower-cased keyword is a substring of the lower-cased item; the plural disjunct adds nothing |
| FoodSearch.MatchingItemsMembers | menu_entries.py:116-121 | an item is collected for a category exactly when it is in that category's list and matches |
| FoodSearch.MatchingCategoriesMembers | menu_entries.py:115-121 | a category appears in the result exactly when it is a key of the menu with at least one matching item |
| FoodSearch.CollectMatches | menu_entries.py:116-121 | the inner loop leaves `results` as before when no item matches, otherwise maps the category to its earlier list followed by the matching items in order |
| FoodSearch.MatchingItems | menu_entries.py:116-121 | the items of one category that pass the :118 test, in list order; `MatchingItemsMembers` states its members |
| FoodSearch.MatchingCategories | menu_entries.py:115-121 | the categories, in menu order, that gain an entry in `results`; every one is a menu key, they are distinct when the keys are, and `MatchingCategoriesMembers` states which they are |
| FoodSearch.WithMatches | menu_entries.py:119-121 | `results` after one category's matches are appended: unchanged when there is none, otherwise the category is opened with `[]` if absent and the matches appended; it stays well-formed |
| FoodSearch.Search | menu_entries.py:112-126 | the value `search_food` returns: `None` when no category has a match, otherwise the matching categories in menu order, each with its matching items; a non-`None` result is a well-formed, non-empty (hence truthy, as :123-124 test) dict whose keys are categories of the menu |
| FoodSearch.SearchFood | menu_entries.py:101-126 | the nested loops return exactly `Search(menu, keyword)` |
| FoodSearch.SearchNoneIffNoMatch | menu_entries.py:123-126 | the result is `None` if and only if no item of any category matches |
| FoodSearch.SearchResultShape | menu_entries.py:112-126 | a non-`None` result is a well-formed dict whose keys are the matching categories in menu order, exactly those with a match, each mapped to the non-empty subsequence of its matching items |
| FoodSearch.SearchResultItems | menu_entries.py:115-121 | an item is in a result list if and only if it is in that category's list and contains the lower-cased keyword, case-insensitively |
| Text.Lower | menu_entries.py:103 | `s.lower()`, lower-casing each ASCII letter in place |
| Text.StartsWith | menu_entries.py:29 | `s.startswith(p)`: `p` is a prefix of `s` |
| Text.EndsWith | menu_entries.py:105 | `s.endswith(p)`: `p` is a suffix of `s` |
| Text.IsSubstring | menu_entries.py:118 | `needle in haystack` for strings: the needle is a prefix of some suffix of the haystack |
| Text.RsplitHead | menu_entries.py:29 | `s.rsplit(sep, 1)[0]`: `s` itself when `sep` does not occur, otherwise the prefix before the last `sep` |
| Text.IsSubstringAt | menu_entries.py:118 | Python's `needle in haystack` holds exactly when the needle occurs at some position |
| HallLinks.MainUrl | menu_entries.py:5 | `MAIN_URL`, the site's main page; `MainUrlRoot` shows it is its own root for relative hrefs |
| HallLinks.BuildUrl | menu_entries.py:29 | an href starting with "http" is kept unchanged |
| HallLinks.MainUrlRoot | menu_entries.py:29 | `MAIN_URL.rsplit('/', 1)[0] + "/"` is `MAIN_URL` itself |
| HallLinks.RelativeUrl | menu_entries.py:29 | any other href becomes "https://nutrition.sa.ucsc.edu/" followed by the href |
| HallLinks.RelativeKeptIffHallInHref | menu_entries.py:29-30 | a relative href is kept exactly when the href itself contains "Hall" |
| HallLinks.Keeps | menu_entries.py:26-30 | a location element yields a link when its href is present and non-empty and the built URL contains "Hall" |
| HallLinks.KeptLinks | menu_entries.py:24-31 | the built URLs of the elements that yield a link, in page order |
| HallLinks.Links | menu_entries.py:16-35 | what `fetch_links` returns: `[]` when the main page fails, otherwise the kept links |
| HallLinks.FetchLinks | menu_entries.py:14-35 | the loop returns the kept URLs of the location elements in page order, and `[]` when the main page fails |
| HallLinks.KeptLinksMembers | menu_entries.py:24-31 | a URL is collected exactly when some location element has a truthy href whose built URL is that URL and contains "Hall" |
| HallLinks.LinksMentionHall | menu_entries.py:30-31 | every collected link contains "Hall" |
| HallLinks.KeptLinksAppend | menu_entries.py:24-31 | links keep page order: two stretches of elements give their links concatenated |
| HallLinks.KeptLinksBound | menu_entries.py:24-31 | at most one link per location element |
| HallSearch.Outcomes | menu_entries.py:136-139 | one search outcome per link, the n-th being the search of the menu behind link n |
| HallSearch.Recorded | menu_entries.py:141-142 | the dict of halls after the given outcomes: outcome n, when not `None`, is stored under name n; the dict stays well-formed |
| HallSearch.Aggregate | menu_entries.py:136-143 | the loop's result: the halls recorded from the outcomes when there are at most as many links as names, otherwise the `IndexError` |
| HallSearch.SearchAllHalls | menu_entries.py:130-143 | with at most as many links as names, the loop gives the halls recorded from the outcomes, link n standing for name n; with more links, the `IndexError` |
| HallSearch.RunScript | menu_entries.py:128-143 | the script searches the links of the main page against the fixed hall names |
| HallSearch.DiningHallNames | menu_entries.py:7-12 | `dh_names`, the five hall names in link order; `DiningHallNamesDistinct` shows no two coincide |
| HallSearch.DiningHallNamesDistinct | menu_entries.py:7-12 | the five hall names are distinct |
| HallSearch.RecordedKeys | menu_entries.py:136-143 | with distinct names, the recorded halls are, in link order, those whose outcome is not `None` |
| HallSearch.RecordedHall | menu_entries.py:141-142 | with distinct names, hall n is recorded if and only if its outcome is not `None`, and then with that result |
| HallSearch.FinishedDescribed | menu_entries.py:130-143 | the script's halls are, in link order, exactly the halls whose page search is not `None`, each with that search's result |
| HallSearch.FailedHallAbsent | menu_entries.py:96-98 | a hall whose page fails to load is not reported; the loop still finishes, and through `FinishedDescribed` every other hall is reported exactly when its own search found something |
| HallSearch.TablelessHallAbsent | menu_entries.py:63-66 | a hall whose page lacks the menu table is not reported |
| Scenarios.ParseTable | menu_entries.py:69-86 | a page with Breakfast ["Scrambled Eggs", "Bacon"] and Lunch ["Apple Pie", "Bacon"] parses to exactly those two sections in that order |
| Scenarios.SearchTableBacon | menu_entries.py:112-126 | "bacon" on that menu gives {"Breakfast": ["Bacon"], "Lunch": ["Bacon"]} |
| Scenarios.SearchTablePie | menu_entries.py:112-126 | "pie" gives {"Lunch": ["Apple Pie"]} |
| Scenarios.SearchTableSushi | menu_entries.py:123-126 | "sushi" gives `None` |
| Scenarios.NormalizeApples | menu_entries.py:105-110 | "apples" and "apple" both give singular "apple" and plural "apples" |
| Scenarios.AppleMatches | menu_entries.py:118 | "apple" matches "Baked Apples" and "Pineapple Cake": containment, not whole words |
| Scenarios.ApplesMissesApplePie | menu_entries.py:106-118 | the singular "apple" is derived from "apples", yet "apples" does not match "Apple Pie" |

## Left out

- Network access is left out: `requests.get`, the session, the warm-up GET of the main page and the User-Agent header. The outcome of fetching a page is an input (`Directory`, `Page`).
- BeautifulSoup is left out: `find`, `find_all` and `get_text(strip=True)`. The menu table is given as a token sequence whose texts are already trimmed. Which elements `find_all(["div", "tr"])` visits, and the nesting that makes an element visited more than once, is up to the markup and is not modelled.
- Console output is left out: every `print`, the debug dump of the parsed menu and the final report.
- `input()` is left out: the keyword is a parameter.
- Only ASCII letters are lower-cased. Python's full Unicode `str.lower()` is not modelled.
- The `unique_items` set that `fetch_menu` returns is computed (`FetchMenu`) but is ignored by the main loop, as in the script.
- HallSearch.RecordedKeys: stated for distinct hall names only. With repeated names `dhs_with_items[name] = ...` would overwrite an earlier hall. `Recorded` models this through `Put`, but no lemma describes it, because the fixed name list is distinct (`DiningHallNamesDistinct`).
- Pages are given as a function `respond` from URL to page, so two fetches of the same URL are taken to return the same page. The script fetches each link afresh, and a link listed twice could load differently. No stated property depends on this.
- HallLinks.BuildUrl: its contract covers only the absolute case. The relative case is stated by `RelativeUrl`.
