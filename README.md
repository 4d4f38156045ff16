# Personal research site: the logic behind `script.js`

This project models the data-handling core of a personal research website's
front-end script, and proves properties of the model. What is modelled:

- **Paper filenames.** PDFs in the papers folder are turned into paper records. An
  arXiv-style name (`2505.10390v1.pdf`) gives an arXiv identifier. A publication
  tag (`Goodwin_2024_ApJ_964_163.pdf`) gives a citation ("ApJ 2024, 964, 163")
  and a title; "ApJ" is spelled out as The Astrophysical Journal. Any other name
  becomes a title with underscores turned into spaces. Both regular expressions
  are modelled exactly. The capture pattern is an explicit backtracking search:
  leftmost start, greedy `\w+` journal giving characters back, greedy `\d+` page.
  That search is proved equal to a declarative description of what the pattern
  matches.
- **GitHub statistics.** Repository, star and fork totals. The per-language tally
  keeps first-seen key order, as a JavaScript object does, and skips repositories
  with no language. Then a stable sort by descending count and the top five.
- **Language colours.** The fixed palette and its grey fallback.
- **Abstract previews.** Truncation to 200 characters plus "...".
- **The CORS proxy chain** for the NOAA space-weather feeds:
  - proxy choice by index modulo three;
  - URL construction, which applies `encodeURIComponent` for the proxies whose
    prefix names `allorigins` or `codetabs`. That function is modelled as
    UTF-8 percent-encoding of Unicode scalar values, with a proved inverse;
  - refusal of a non-ok status, of a body whose trimmed text starts with `<`, and
    of a body that is not JSON;
  - the two retry loops, which keep the first accepted answer and log one warning
    per refused proxy.
- **The navigation bar's scroll handler.** One global remembers the last offset.
  The handler sets the bar's shadow and shows or hides the bar.

The network (`fetch`), `JSON.parse` and `window.pageYOffset` are inputs: the
first two are function parameters, the offset is a method argument. Strings are
sequences of characters. The pure parts are functions with lemmas. The parts of
the script that update variables in loops or keep state between events are
methods:
- `RepoStats.TallyLanguages` and `RepoStats.ComputeStats`;
- `CorsProxy.FetchFromFirstProxy` and `CorsProxy.FetchSpaceWeather`;
- the `Navbar.NavbarController` class.
Each method is proved against the functions that specify it.

One consequence of the parser worth knowing: `publicationInfo` is empty exactly
when the filename is empty, for example for the path `Papers/.pdf`. In every
other case the `|| filename` fallback fills it.

## Model

| member | source | states |
|---|---|---|
| Strings.DigitRun | script.js:206-213 | a greedy `\d+` run: every character counted is a digit, and the next one is not |
| Strings.WordRun | script.js:213 | a greedy `\w` run over ASCII letters, digits and `_`: maximal, and every character counted is a word character |
| PaperFilename.LastSegment | script.js:200 | `split('/').pop()`: the result has no '/', is a suffix of the path, and follows a '/' whenever it is shorter than the path |
| PaperFilename.LastSegmentAfterSlash | script.js:200 | for any directory and any '/'-free name, the last segment of `dir/name` is `name` |
| PaperFilename.IndexOf | script.js:200 | the first occurrence at or after a start index, or none when there is no occurrence |
| PaperFilename.StripPdf | script.js:200 | `replace('.pdf', '')` leaves a string without ".pdf" unchanged; otherwise it cuts out exactly the first occurrence, the four characters at the least index where ".pdf" occurs |
| PaperFilename.StripPdfSuffix | script.js:200 | a stem without ".pdf" followed by ".pdf" strips back to exactly the stem |
| PaperFilename.UnderscoresToSpaces | script.js:224-227 | `replace(/_/g, ' ')`: same length, every '_' becomes a space and every other character stays |
| PaperFilename.ArxivTestReadsTenCharacters | script.js:206 | the anchored `/^\d{4}\.\d{5}/` test depends on the first ten characters only: it holds iff the name has ten characters and its ten-character prefix passes, and appending text never breaks it |
| PaperFilename.HasGoodwinTag | script.js:212-213 | wherever the capture pattern matches, the `Goodwin_\d{4}_` test has already succeeded |
| PaperFilename.TailAtExactly | script.js:213 | TailAt at j holds for any digit-group lengths that match `_(\d+)_(\d+)`; the volume is always the maximal digit run and the page at most the maximal one |
| PaperFilename.JournalEnd | script.js:213 | backtracking of greedy `(\w+)`: the longest journal end that lets the tail match, or proof that none does |
| PaperFilename.NoMatchBeyondWordRun | script.js:213 | no match can have a journal group reaching past the word run after the year |
| PaperFilename.FindMatch | script.js:213 | the leftmost start where the pattern matches, with the longest journal there; none exactly when nothing matches |
| PaperFilename.CaptureAt | script.js:213-215 | the groups read from a match have the shapes `\d{4}`, `\w+`, `\d+`, `\d+`, spell out the matched text at the match index, and end the page where the digits end |
| PaperFilename.CaptureGroups | script.js:213-215 | `match` semantics: null iff nothing matches; otherwise well-formed groups at the leftmost matching start, the longest journal, the maximal page |
| PaperFilename.Classify | script.js:205-227 | the branch taken: arXiv iff the arXiv test passes (id = first ten characters); otherwise published iff the tag test passes and the capture matches, carrying exactly the capture's groups, which are well-formed and found in the name; tagged-unparsed iff the tag passes and the capture does not; plain iff neither test passes |
| PaperFilename.PublishedTitle | script.js:218-222 | the title is "Published in ", then the journal ("The Astrophysical Journal" when the tag says "ApJ"), then " (", the year and ")": prefix, name, separator and year are each at their place and the length leaves nothing else |
| PaperFilename.BranchTexts | script.js:205-229 | per branch: an arXiv name gives title "Research Paper - arXiv:<id>", citation "arXiv:<id>" and the id (the first ten characters); a matched tag gives the published title and the citation "<journal> <year>, <volume>, <page>" from the capture's groups; a tag without a full match gives the name with spaces for underscores and no citation; any other name gives the spaced name and the name itself as citation; an arXiv id appears exactly for arXiv names |
| PaperFilename.ParsePaperFromFilename | script.js:199-240 | fixed author, empty abstract, the path kept; the filename is the last segment without ".pdf"; arxivId is non-empty iff the arXiv pattern matches; publicationInfo is empty iff the filename is |
| PaperFilename.ArxivBranch | script.js:206-210 | arXiv names: arxivId is the first ten characters, citation "arXiv:" + id, title "Research Paper - arXiv:" + id |
| PaperFilename.PublishedBranch | script.js:212-222 | a full capture gives citation "journal year, volume, page", the title "Published in " + journal name + " (year)" with ApJ spelled out as The Astrophysical Journal, and no arXiv id |
| PaperFilename.TaggedUnparsedBranch | script.js:223-225 | a tag without a full capture gives the underscore-free title and the filename as citation |
| PaperFilename.PlainBranch | script.js:226-229 | any other name: underscore-free title and the filename as citation |
| PaperFilename.CaptureRoundTrip | script.js:213-215 | for well-formed groups, matching the name `Goodwin_year_journal_volume_page` gives back exactly those groups at index 0 |
| PaperFilename.PublishedRoundTrip | script.js:199-222 | a PDF named by a publication tag, in any directory, gets that tag's citation and title |
| PaperFilename.ArxivRoundTrip | script.js:199-210 | a PDF named by an arXiv identifier, in any directory, gets that identifier |
| RepoStats.Total | script.js:68-69 | the `reduce` sum is 0 iff every repository's count is 0 |
| RepoStats.TotalAppend | script.js:68-69 | the `reduce` sum over a concatenation is the sum of the two sums |
| RepoStats.TotalCons | script.js:68-69 | the sum over one repository followed by others is its count plus the rest |
| RepoStats.TotalBoundsEach | script.js:68-69 | every repository's stars (forks) are at most the total |
| RepoStats.LanguagesAreCounted | script.js:72-77 | a language is a key iff some repository with that non-empty language exists; keys are distinct and never "" |
| RepoStats.CountsAddUp | script.js:72-77 | the counts of all keys add up to the number of repositories that have a language |
| RepoStats.TallyLanguages | script.js:72-77 | the loop's object maps exactly the languages present to their repository counts, its key order is first-seen order |
| RepoStats.InsertByCount | script.js:80 | inserting keeps every entry and adds one |
| RepoStats.SortByCount | script.js:80 | the sort is a permutation |
| RepoStats.InsertKeepsOrder | script.js:80 | inserting into a list in descending count order keeps it in that order |
| RepoStats.SortIsNonIncreasing | script.js:80 | `sort((a, b) => b[1] - a[1])` yields descending counts |
| RepoStats.InsertIsStable | script.js:80 | inserting puts an entry ahead of the entries with its count, as a stable sort must |
| RepoStats.SortIsStable | script.js:80 | entries with equal counts keep their original (first-seen) order |
| RepoStats.WithCountMembers | script.js:80 | the entries with a given count are exactly the list's members with that count |
| RepoStats.StableSortIsUnique | script.js:80 | any two descending lists with the same equal-count sublists are equal, so the stable sort's result is determined |
| RepoStats.SortKeepsKeysDistinct | script.js:79-80 | sorting object entries never duplicates a language |
| RepoStats.LanguageEntries | script.js:73-79 | `Object.entries(languageCounts)`: no language twice, a language is listed iff some repository is written in it, each with its positive repository count, in first-seen order |
| RepoStats.SortedEntriesAreCounts | script.js:79-80 | every sorted entry carries its language's true, positive count |
| RepoStats.ExcludedAreNotLarger | script.js:79-81 | no language left out of the top n has more repositories than any listed one |
| RepoStats.TopLanguages | script.js:80-81 | `.sort(...).slice(0, 5)`: min(5, n) entries, all taken from the input, in descending count order |
| RepoStats.TopLanguagesCorrect | script.js:79-81 | the top languages: at most five, true counts, descending, distinct, and every excluded language is no larger |
| RepoStats.ComputeStats | script.js:67-81 | the stats: repository count, star and fork totals, and the top five languages with all the properties above |
| LanguageColors.LanguageColor | script.js:148-171 | always a `#rrggbb` colour; the palette entry for a palette language, and the grey default exactly for the others |
| LanguageColors.KnownColors | script.js:150-170 | sample palette lookups and the fallback for an unknown and for the empty language |
| AbstractDisplay.ShowAbstract | script.js:415-418 | an abstract is shown iff non-empty; it is truncated iff over 200 characters, to its first 200 plus "..."; otherwise shown whole |
| AbstractDisplay.PreviewBounds | script.js:415-418 | the preview is at most 203 characters, starts with the abstract's first 200 (or all of it), and is shorter than any abstract over 203 |
| AbstractDisplay.PreviewIsStable | script.js:418 | truncating a preview again gives the same preview |
| UriEncoding.HexDigit | script.js:470 | the hex digits written are upper-case |
| UriEncoding.Utf8 | script.js:470 | one to four bytes, each below 256 |
| UriEncoding.PercentBytes | script.js:470 | three characters per byte, each '%' or an upper-case hex digit |
| UriEncoding.EncodeURIComponent | script.js:469-472 | the output uses only unreserved characters, '%' and hex digits, and is never shorter than the input |
| UriEncoding.UnreservedUnchanged | script.js:469-472 | text made only of unreserved characters is not changed |
| UriEncoding.NoDelimiters | script.js:469-472 | the encoded URL holds none of `& = ? # / :`, so it stays one query value |
| UriEncoding.DecodeEncode | script.js:469-472 | percent-decoding the encoding gives back the original string |
| UriEncoding.EncodeIsInjective | script.js:469-472 | distinct URLs never share an encoding |
| CorsProxy.AllOriginsNamed | script.js:458-469 | the first proxy's prefix contains "allorigins" |
| CorsProxy.CorsProxyIoUnnamed | script.js:459-474 | the corsproxy.io prefix contains neither "allorigins" nor "codetabs" |
| CorsProxy.CodeTabsNamed | script.js:460-472 | the third prefix contains "codetabs" but not "allorigins" |
| CorsProxy.FullUrl | script.js:466-475 | the requested URL is the proxy's prefix followed by either the raw or the percent-encoded target URL |
| CorsProxy.FullUrlByProxy | script.js:465-475 | the requested URL is the proxy prefix followed by the raw URL for index 1 modulo 3 and by the encoded URL otherwise |
| CorsProxy.EncodedTargetRecoverable | script.js:469-472 | for the encoding proxies the text after the prefix decodes back to the target URL and contains no `&`, `#` or `?` |
| CorsProxy.LeadingSpace | script.js:487 | the length of the maximal run of white space at the start |
| CorsProxy.TrailingSpace | script.js:487 | the length of the maximal run of white space at the end |
| CorsProxy.Trim | script.js:487 | `trim()`: the result is the input with its leading white-space run and a trailing white-space run cut off, and neither end of a non-empty result is white space |
| CorsProxy.LooksLikeHtml | script.js:487 | `text.trim().startsWith('<')` holds iff the character after the leading white space exists and is `<` |
| CorsProxy.LooksLikeHtmlIff | script.js:487-489 | a body counts as HTML iff its first character that is not white space is `<` |
| CorsProxy.FetchWithProxy | script.js:465-497 | why an attempt is refused: a rejected request iff `fetch` failed, a status error iff the response is not ok, HTML iff an ok body looks like HTML, invalid JSON iff an ok, non-HTML body does not parse |
| CorsProxy.AcceptedIff | script.js:477-496 | an attempt succeeds iff the fetch answered with an ok response whose body is not HTML and parses; the value is the parsed body |
| CorsProxy.HtmlNeverAccepted | script.js:487-489 | an ok response whose body starts with `<` after white space is refused as HTML, even when it would parse as JSON |
| CorsProxy.StatusReported | script.js:479-481 | a non-ok response is refused with its status, whatever its body |
| CorsProxy.FirstSuccessIndex | script.js:515-523 | the first successful attempt: every earlier attempt failed, and it succeeded unless every attempt failed |
| CorsProxy.FirstSuccess | script.js:515-523 | a feed gets no value iff all three proxies fail; a value it gets came from some proxy |
| CorsProxy.FirstAnswerWins | script.js:515-523 | if proxy k succeeds and all before it fail, proxy k's answer is kept |
| CorsProxy.FetchFromFirstProxy | script.js:515-534 | the loop with `break` keeps the first accepted answer, and logs exactly one warning per proxy refused before it, in order, each naming the feed, the proxy index and the refusal from `fetchWithProxy` |
| CorsProxy.FetchSpaceWeather | script.js:499-537 | nothing is fetched without the container; otherwise the panel gets the first accepted flare and forecast, and the warnings are the flare loop's refusals (proxy index and error, in order) followed by the forecast loop's |
| Navbar.Decide | script.js:22-30 | the three cases: at or above the top, moving down at a positive offset, moving up or staying at a positive offset |
| Navbar.Step | script.js:19-33 | one event: `lastScroll` becomes the offset; at or above the top the transform stays and the shadow is the top shadow; moving down hides the bar and keeps the shadow; otherwise the bar is shown with the deeper shadow |
| Navbar.Replay | script.js:19-33 | no event leaves the state alone; events that all stay at or above the top never move the bar, and set the top shadow |
| Navbar.NavbarController.constructor | script.js:16 | `lastScroll` starts at 0 with neither style set |
| Navbar.NavbarController.OnScroll | script.js:19-34 | one scroll event updates the styles and `lastScroll` as the step function says |
| Navbar.NavbarController.OnScrollAll | script.js:19-34 | handling events one after another yields the replayed state |
| Navbar.RemembersLastOffset | script.js:33 | `lastScroll` is always the most recent offset |
| Navbar.LastPositive | script.js:22-27 | the last event at a positive offset, or none |
| Navbar.TransformFollowsLastPositive | script.js:22-29 | the bar is hidden iff the last event at a positive offset moved down; events at the top leave the transform alone |
| Navbar.LastShadowSetter | script.js:22-30 | the last event that writes the shadow, or none |
| Navbar.ShadowFollowsLastSetter | script.js:22-30 | the shadow is the one written by the last event that was not a move down at a positive offset |
| Navbar.JumpToTopKeepsHidden | script.js:22-33 | scrolling down then jumping straight to offset 0 leaves the bar hidden, with the top shadow |

## Left out

- The DOM: rendering of cards, statistics and panels, animations, the observer, modals, event wiring. The model returns the values the script would display.
- The network and `JSON.parse` are oracles. `fetch` is one fixed function of the requested URL during a run, so repeated requests to the same URL get the same answer. Timing and concurrency between the asynchronous calls are not modelled.
- The contents of the feeds are abstract (a type parameter). A JSON body `null` is accepted like any other parsed value, so the panel then shows no value just as if every proxy had failed.
- Extracting metadata from the PDFs themselves, the X-ray chart, date formatting, the solar image URL, timers, and the space-weather display function with its outer `catch`. These are not part of this model.
- `currentProxyIndex` is declared but never read, so it is not modelled.
- CorsProxy.ProxyFor: indices are natural numbers. A negative index would make the JavaScript lookup `undefined` and `includes` would throw; the script passes only 0, 1 and 2.
- PaperFilename.ParsePaperFromFilename, LanguageColors.LanguageColor, AbstractDisplay.ShowAbstract: a string is a sequence of Unicode characters. JavaScript lengths count UTF-16 code units, so an abstract with characters outside the Basic Multilingual Plane is measured and cut differently.
- LanguageColors.LanguageColor: the lookup is a map. A JavaScript object lookup would also find inherited keys such as "constructor" and return something that is not a colour string.
- RepoStats.TallyLanguages: object key order is insertion order. JavaScript lists integer-like keys (a language named "1") first, in numeric order. The tally object also inherits from `Object.prototype` (script.js:75): a language named "constructor" starts from the inherited function, so its count becomes a string, and "__proto__" is never stored as a key. The model keeps a plain count for every name.
- UriEncoding.EncodeURIComponent: the input is a sequence of Unicode scalar values, so it cannot hold a lone surrogate. JavaScript strings can, and `encodeURIComponent` then throws a `URIError`; that error path is not modelled.
- RepoStats.Total: counts are unbounded natural numbers. JavaScript numbers are doubles, and a repository record with a missing or non-numeric count is not modelled.
- RepoStats.ComputeStats: the repository list is taken as given. The failing GitHub request, and the "Unable to load GitHub repositories. Please try again later." text its catch writes into the grid (script.js:89-91), are DOM and network behaviour.
- Navbar.NavbarController.OnScroll: offsets are integers. `pageYOffset` can be fractional, and the script assumes the navbar element exists.
- The "no papers found" message when the paper list is empty.
