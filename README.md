# Client-side post search, modelled in Dafny

The site's search script builds a flat index of the posts rendered on the
current page, filters it on every keystroke in the search box, and shows up
to five matches in a results panel that is either hidden or active. This
project models that behaviour in Dafny and proves its properties:

- `seqs.dfy` (module `Seqs`): taking the first `n` elements, as `slice(0, n)` and
  `substring(0, n)` do. Also what it means for one sequence to be the
  subsequence of another at a list of increasing positions.
- `text.dfy` (module `Text`): the string operations the script uses.
  `toLowerCase` is modelled on ASCII letters. `trim` strips the ECMAScript
  white-space and line-terminator characters. `includes` is a left-to-right
  substring search, proved equal to "there is an occurrence".
- `index.dfy` (module `Index`): a rendered post card as an abstract record. It
  holds an optional title link (text and resolved address), an optional summary
  and the texts of its tags. `IndexOf` gives the index the scraping loop builds
  from such records.
- `search.dfy` (module `Search`): query normalisation, the match test and
  `searchPosts` (filter, then cap at five).
- `render.dfy` (module `Display`): what `displayResults` puts in the panel. That
  is the "No results found" placeholder, or one item per result. Each item holds
  the url, the title and the summary cut to 100 characters plus "...".
- `page.dfy` (module `Page`): class `SearchPage` holds the state the script
  changes. That is the index, the panel's `active` flag and the panel's content.
  Page load, the input handler, the click handler and `displayResults` are its
  constructor and methods.

The DOM is replaced by plain values. Post cards arrive as a sequence of
`Post` records in document order. A click arrives as two booleans: is its target
inside the input, and is it inside the panel? The input's value arrives as a
string. Whether the page has a search input at all is the constant `hasInput`.
Without an input, the script returns before building the index or installing
any handler. In the model, the constructor then leaves the index empty and both
handlers change nothing.

## Model

| member | source | states |
|---|---|---|
| Text.ToLower | js/search.js:16 | lower-casing keeps the length and maps every character through ASCII lower-casing |
| Text.SkipLeading | js/search.js:16 | the start of the trimmed value: every character skipped is white space, and the one reached is not (or the input has ended) |
| Text.SkipTrailing | js/search.js:16 | the end of the trimmed value: every character dropped from the end is white space, and the last one kept is not (or nothing is kept) |
| Text.Trim | js/search.js:16 | the trimmed value is a contiguous slice of the input with only white space around it, and it neither starts nor ends with white space |
| Text.TrimAllSpace | js/search.js:16-18 | a value made only of white space trims to the empty query, which is under the two-character minimum |
| Text.TrimLower | js/search.js:16 | trimming then lower-casing equals lower-casing then trimming |
| Seqs.Take | js/search.js:62 | `slice(0, n)` (and `substring(0, n)` at line 77) keeps min(n, length) elements, and they are the first ones |
| Text.Contains | js/search.js:59-61 | `includes` holds only when the query is no longer than the field; it always holds for the empty query and for a query equal to the field |
| Text.ContainsIff | js/search.js:59-61 | `includes` holds exactly when the query occurs at some position of the field |
| Text.ContainsLower | js/search.js:59-61 | an occurrence survives lower-casing both the field and the query |
| Index.IndexOf | js/search.js:41-54 | the index has at most one record per post card |
| Index.EntryOf | js/search.js:47-52 | the record pushed for a linked card: title and url from the link, the summary text or "" when the card has none, and the card's tags |
| Index.LinkedPositionsSpec | js/search.js:42-46 | the positions contributing records are increasing and are exactly the cards that have a title link |
| Index.IndexOfAt | js/search.js:41-53 | the k-th record comes from the k-th linked card: title and url from the link, its summary or "" when missing, its tags |
| Index.IndexOfCount | js/search.js:41-53 | the index has exactly as many records as there are cards with a title link |
| Index.IndexOfAppend | js/search.js:39-41 | the index of a document is the index of its first part followed by that of the rest, so document order is kept |
| Index.IndexOfOne | js/search.js:46-53 | a card without a link adds nothing; a card with one adds its record, with "" for a missing summary |
| Index.IndexOfNoLinks | js/search.js:46 | a page with no linked cards gives an empty index |
| Search.NormalizeQuery | js/search.js:16 | the query is lower case, is a slice of the lower-cased input with only white space around it, and neither starts nor ends with white space |
| Search.Matches | js/search.js:58-61 | a record matches exactly when its lower-cased title, its lower-cased summary or one of its lower-cased tags contains the query |
| Search.Matching | js/search.js:58-61 | the filtered records are no more than the index and each is an index record that matches |
| Search.SearchPosts | js/search.js:57-63 | at most five results, each an index record that matches the query |
| Search.MatchPositionsSpec | js/search.js:58-61 | the match positions are increasing and are exactly the positions of matching records |
| Search.MatchingAt | js/search.js:58-61 | the filter's output is the subsequence of the index at the match positions |
| Search.SearchPostsFirstMatches | js/search.js:57-63 | the result has min(5, number of matches) records, and the k-th result is the record at the k-th match position, so it is an order-preserving subsequence of the index |
| Search.MatchCount | js/search.js:58-61 | the filter keeps as many records as there are matching positions |
| Search.SearchPostsAllMatches | js/search.js:58-62 | with at most five matches, a record is returned if and only if it is in the index and matches |
| Search.SearchPostsCapped | js/search.js:62 | with more than five matches exactly five are returned |
| Search.MatchesAnyCase | js/search.js:59-61 | a title, summary or tag that contains the typed text in any letter case matches the lower-cased text |
| Search.SearchPostsIgnoresCase | js/search.js:16-24 | inputs that differ only in letter case give the same query and the same results |
| Search.CyanExample | js/search.js:16-24 | typing "CYAN" finds a record tagged "cyan" |
| Search.RustExample | js/search.js:57-63 | the query "rust" over the one record "Intro to Rust" tagged "rust" returns that record |
| Display.Summarize | js/search.js:77 | the summary line is min(100, length) characters followed by "..." |
| Display.ItemOf | js/search.js:74-78 | one result's item links to the result's url, shows its title and shows its summary line |
| Display.SummarizeCases | js/search.js:77 | a summary of at most 100 characters is shown whole and still gets "..."; a longer one is cut to its first 100 characters plus "..." |
| Display.RenderItems | js/search.js:74-79 | one item per result, in result order, each with the result's url and title and its summary line |
| Display.Render | js/search.js:68-82 | the placeholder "No results found" exactly when there are no results, otherwise one item per result in order; never blank |
| Display.RenderSearch | js/search.js:57-82 | after a search the panel shows the placeholder exactly when nothing matches, otherwise one to five items, the k-th from the record at the k-th match position |
| Display.RenderDrawsFrom | js/search.js:74-79 | every item rendered from index records is the item of some index record |
| Display.RenderEmptyIndex | js/search.js:68-71 | with an empty index every query shows the placeholder |
| Page.SearchPage.constructor | js/search.js:5-12 | with a search input the index is built from the posts, without one it stays empty; the panel starts hidden and blank |
| Page.SearchPage.BuildSearchIndex | js/search.js:36-55 | the loop appends exactly `IndexOf(posts)` to the index, leaving the panel alone |
| Page.SearchPage.OnInput | js/search.js:15-26 | a trimmed query under two characters hides and blanks the panel without reading the index; a longer one shows the rendering of its search results and activates the panel; the index is unchanged and the invariant `Valid` is kept |
| Page.SearchPage.HideResults | js/search.js:18-21 | the short-query branch: the panel becomes inactive and blank, and `Valid` is kept |
| Page.SearchPage.ShowResults | js/search.js:24-25 | the long-query branch: the panel becomes active and shows the rendering of the search results, and `Valid` is kept |
| Page.SearchPage.DisplayResults | js/search.js:65-82 | the panel becomes active and shows the rendering of the results |
| Page.SearchPage.OnClick | js/search.js:29-33 | a click outside both input and panel hides the panel; content and index are untouched, and a click inside changes nothing |

`Valid` (in `page.dfy`) is the panel invariant every handler keeps. An active
panel is never blank. The placeholder is always "No results found". A list of
items has one to five items, and each item is rendered from a record of the
index.

## Left out

- DOM queries are not modelled: `querySelectorAll`, `querySelector`, `getElementById`, `contains` and `textContent`. Post cards, click targets and the input's value are plain parameters.
- URL resolution of `link.href` is not modelled. The resolved address is part of each `Link` record.
- Event listener registration and dispatch, and `DOMContentLoaded`, are not modelled. The handlers are methods called directly. A missing search input is the constant `hasInput`.
- The HTML markup, inline styles and hover effects (js/search.js:74-79, js/search.js:84-93) are presentation only. Rendered content is a sequence of (url, title, summary line) items.
- Text.ToLower: lower-cases ASCII letters only. JavaScript's full Unicode case mapping is not modelled; it can change a string's length, for example.
- Text.Trim: strips a fixed list of code points: the ECMAScript WhiteSpace and LineTerminator characters, with the Unicode Zs category as of the current standard.
- Strings are sequences of Unicode scalar values, not UTF-16 code units. Lengths, the two-character minimum and `substring(0, 100)` therefore count a character outside the Basic Multilingual Plane as one, where JavaScript counts two.
- The panel's content before the first search comes from the page markup, which this model does not include. It is taken to be blank and hidden.
- The result template (js/search.js:75-77) puts each record's url, title and summary into `innerHTML` without escaping. A title such as `a<b` is then shown as `a`, and markup in a scraped text, such as an `<img onerror=...>` element, becomes a live element of the panel. The model's items hold the raw texts and do not model HTML parsing.
- A page that has the search input but no `#search-results` element (js/search.js:7, 66) is not modelled. There the input handler (js/search.js:19), the click handler (js/search.js:30) and `displayResults` (js/search.js:69, 81) throw a TypeError. The model always has a panel; `hasInput` covers only a missing input.
