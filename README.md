# LinkedIn profile scraper — extraction heuristics in Dafny

The scraper opens a list of profile pages in a browser and turns each one
into a five-column record: Name, Headline, Company, Location and About. It
does no parsing of its own. It asks the page for elements through ordered
lists of fallback CSS selectors, then applies string heuristics to the
texts it gets back. This project models those heuristics with the browser
replaced by an abstract page, and proves what they do.

The abstract page (`Dom.Page`) records four things:

- whether loading the page failed;
- for each selector, the texts of the elements it matches, in document order;
- for each experience selector, the texts of the first-position entries inside its first match;
- the text of the element that follows the About heading, when there is such a heading.

The model has these parts:

- `Text` holds the Python string operations the heuristics are built on.
  - `strip()` uses Python's whitespace set.
  - `in`, `startswith`, `endswith` and slicing are the usual ones.
  - `split` scans left to right and never lets two occurrences overlap.
  - `lower()` covers ASCII letters only.
- `Dom` is the selector cascade. In single-element mode (Name, Headline) only the first match of each selector is examined. In filtered mode (Location with its bullet filter, About with its length and label filter) every match is examined, in order.
- `Experience` is stage 1 of the company extractor. It takes the first entry of the experience section. It then keeps the entry's lines that are longer than two characters once trimmed, and picks the second line, or the only line, or the whole text.
- `Headline` is stage 2. It reads the company off the headline text, exactly as the scraper's splitting does, quirks included.
- `HeadlineCases` describes headline shapes in general terms: which part of the headline survives, and where the result departs from "the text after the last ' at '".
- `Extraction` runs the five extractors in the scraper's order, as a method that fills a record field by field. The method is proved equal to the function `Profile`.
- `Batch` covers the URL-file filter, the per-URL loop and the control flow of a scraping run.
- `Config` covers the credential checks made when the scraper is constructed.

Two behaviours of the code are reproduced as written and proved explicitly:

- In the `" at "` and `" @ "` branches the company is `split(sep)[-1]`. When the last occurrence of the separator does not overlap an earlier one, this is the text after the last occurrence (`Text.SplitLastAfterLastOccurrence`). Otherwise it can differ, because `split` never lets two occurrences overlap. "Engineer at at Acme" gives "at Acme", although another `" at "` starts three characters later (`HeadlineCases.OverlappingAtLeaksIntoCompany`).
- The suffix clean-up removes three characters for both `" ||"` and the two-character `" |"`. A company followed by `" |"` therefore loses its last letter ("Developer at Acme |" gives "Acm"), and "X |" becomes "" (`HeadlineCases.CleanupDropsThreeCharacters`).

Three further details of the code are easy to miss. The model follows each of them:

- The headline branches are not interchangeable (scraper.py:326-350):
  - `" at "` has priority over `" @ "`. Each of them takes the last piece of the split, followed by the three-character clean-up.
  - `" - "` is used only when neither `" at "` nor `" @ "` occurs and the headline names "Intern", "Developer" or "Engineer". The company is then the text after the first occurrence of the first separator that leaves a non-empty company, cut at `" ||"` and `" |"`.
- An experience entry with no line longer than two characters yields its whole trimmed text as the company (scraper.py:307-308).
- The About filter keeps only text longer than 20 characters whose first ten characters do not contain "About" (scraper.py:403). The text from the heading's neighbour only has to be longer than 20 characters (scraper.py:426).

## Model

| member | source | states |
|---|---|---|
| Text.IsSpace | scraper.py:236 | the characters `strip()` removes include the space, tab, newline and carriage return, and never a letter or a digit |
| Text.Contains | scraper.py:319 | `pat in s` holds for the empty pattern and for the text itself |
| Text.StartsWith | scraper.py:461 | `s.startswith(p)` holds exactly when `p` occurs at index 0, and then `p in s` holds too |
| Text.EndsWith | scraper.py:331 | `s.endswith(p)` holds exactly when `p` occurs at the last possible index, and then `p in s` holds too |
| Text.TrimStartShape | scraper.py:236 | the left half of `strip()` removes exactly a whitespace prefix and stops at a non-whitespace character |
| Text.TrimEndShape | scraper.py:236 | the right half of `strip()` removes exactly a whitespace suffix and stops at a non-whitespace character |
| Text.Strip | scraper.py:236-237 | `strip()` returns text that starts and ends with a non-whitespace character and is no longer than its input |
| Text.StripEmpty | scraper.py:236 | a text is blank after `strip()` exactly when it consists of whitespace |
| Text.StripContained | scraper.py:236-237 | what `strip()` keeps is a contiguous piece of its input |
| Text.Find | scraper.py:319 | the leftmost occurrence of a pattern: none exactly when `pat in s` is false, otherwise a real occurrence with none before it |
| Text.SplitOnce | scraper.py:345 | `split(sep, 1)` gives one piece, the whole text, when the separator is absent, and otherwise two pieces around the leftmost separator, the first without any separator and ending exactly where the leftmost separator starts |
| Text.Take | scraper.py:403 | `s[:n]` is a prefix of `s` of length `n`, and all of `s` when `s` has at most `n` characters |
| Text.DropLast | scraper.py:332 | `s[:-n]` is the prefix of `s` without its last `n` characters, and empty when `s` is shorter than `n` |
| Text.Split | scraper.py:321 | `split` always yields at least one piece |
| Text.SplitCount | scraper.py:327-328 | a split has more than one piece exactly when the separator occurs, so the `len(parts) > 1` guards always pass |
| Text.JoinSplit | scraper.py:321 | joining the pieces of a split with the separator gives back the input |
| Text.SplitPiecesFree | scraper.py:321-323 | no piece of a split contains the separator |
| Text.SplitPiecesContained | scraper.py:321-323 | every piece of a split is a piece of the input |
| Text.SplitFirstPiece | scraper.py:321 | the first piece is the prefix that ends exactly where the leftmost separator starts |
| Text.SplitLastAfterLastOccurrence | scraper.py:327-329 | the last piece is the text after the last occurrence whenever that occurrence does not overlap an earlier one |
| Text.SplitLastIsSuffix | scraper.py:329 | the last piece of a split is a suffix of the input |
| Text.Lower | scraper.py:97 | `lower()` keeps the length, leaves no ASCII capital, keeps every other character and turns each capital into the small letter at the same position of the alphabet |
| Text.LowerIdempotent | scraper.py:97 | lowercasing twice is lowercasing once |
| Text.ContainsLower | scraper.py:97 | a pattern without capitals that occurs in a text still occurs after `lower()` |
| Dom.FirstAccepted | scraper.py:270-274 | the element text the inner loop stops at is trimmed and passes the filter |
| Dom.Accepts | scraper.py:272 | both filters reject the empty text first (Location at line 272, About at line 403) |
| Dom.AboutLabelRejected | scraper.py:403 | the About filter rejects any text that opens with the "About" label |
| Dom.FirstAcceptedFirst | scraper.py:270-274 | the inner loop finds a text exactly when some element passes the filter, and what it finds is the trimmed text of an element no earlier element of which passes |
| Dom.Candidate | scraper.py:235-237 | what one selector contributes is non-empty trimmed text |
| Dom.ResolveFirst | scraper.py:233-240 | a cascade yields "" exactly when no selector yields a candidate; otherwise it yields the candidate of a selector before which no selector yields one |
| Dom.Resolve | scraper.py:233-240 | a cascade's result is trimmed |
| Dom.ResolveAccepted | scraper.py:272-273 | a filtered cascade's result is empty or passes the filter |
| Dom.ResolveSingle | scraper.py:233-240 | the Name/Headline loop returns exactly the single-element cascade's result |
| Dom.ScanMatches | scraper.py:270-276 | the inner Location/About loop over one selector's matches returns exactly the first accepted trimmed text |
| Dom.ResolveFiltered | scraper.py:267-278 | the Location/About nested loop returns exactly the filtered cascade's result |
| Experience.KeepLines | scraper.py:301 | every kept line is trimmed and longer than two characters, and there are no more lines than pieces |
| Experience.MeaningfulLines | scraper.py:301 | the meaningful lines of an entry are trimmed, longer than two characters, and each is a single line |
| Experience.KeepLinesAppend | scraper.py:301 | the line filter keeps the order of the lines |
| Experience.KeepLinesOrigin | scraper.py:301 | every kept line is the trimmed text of a line of the entry |
| Experience.KeepLinesComplete | scraper.py:301 | no line longer than two characters after trimming is dropped |
| Experience.PickCompany | scraper.py:302-308 | a non-empty entry text always yields a non-empty company, and trimmed text yields trimmed text |
| Experience.KeepFrom | scraper.py:301 | the kept lines start with the trimmed first line longer than two characters, followed by the kept lines after it |
| Experience.PickCompanyFromEntry | scraper.py:302-308 | the company is a piece of the entry text: the second meaningful line when there are two or more, the only one when there is one, and the whole text when there are none |
| Experience.PickCompanyNoLongLine | scraper.py:301-308 | when no line of the entry is longer than two characters once trimmed, the company is the whole entry text |
| Experience.PickCompanyOnlyLongLine | scraper.py:301-306 | when exactly one line of the entry is longer than two characters once trimmed, the company is that line, trimmed |
| Experience.PickCompanySecondLongLine | scraper.py:301-304 | when the entry has two or more lines longer than two characters once trimmed, the company is the second of them, trimmed, and the first (the job title) is skipped |
| Experience.EntryText | scraper.py:293-299 | the text one experience selector yields, when it yields any, is non-empty trimmed text |
| Experience.FirstEntryText | scraper.py:291-309 | the entry text the scan stops at is non-empty and trimmed |
| Experience.FirstEntryTextNone | scraper.py:291-311 | the scan finds no entry text exactly when every selector yields none |
| Experience.FirstEntryTextIndex | scraper.py:291-309 | the text found is that of a selector all of whose predecessors yield none |
| Experience.ExperienceStage | scraper.py:290-311 | stage 1's result is trimmed |
| Experience.ExperienceStageFirst | scraper.py:290-311 | stage 1 yields "" exactly when no selector yields entry text; otherwise it yields the company picked from the entry of the first selector that does |
| Experience.FindExperienceCompany | scraper.py:290-311 | the experience loop returns exactly stage 1's result |
| Headline.TruncateHeadline | scraper.py:319-323 | the truncated headline is a prefix of the headline |
| Headline.TruncateKeepsFirstPart | scraper.py:319-323 | the truncated headline is a prefix that ends exactly at the leftmost `" || "` if there is one, otherwise exactly at the leftmost `" | "`, and is the whole headline if it has neither |
| Headline.CleanSuffix | scraper.py:331-332 | the clean-up never lengthens the company, leaves it alone when it does not end in a space and one or two bars, and keeps trimmed text trimmed |
| Headline.CleanSuffixDropsThree | scraper.py:331-332 | whenever the clean-up fires it removes exactly three characters and trims again, and what it returns is a piece of its input |
| Headline.CompanyAfterSeparator | scraper.py:327-339 | the company of the " at " and " @ " branches is trimmed |
| Headline.MentionsJobTitle | scraper.py:341 | the job-title test is case-sensitive: a headline with no ASCII capital never passes it, and one that passes has at least six characters |
| Headline.LeadingCompany | scraper.py:347 | the job-title branch's company is trimmed |
| Headline.LeadingCompanyShape | scraper.py:347 | that company contains no space followed by a bar and is a piece of the text after the separator |
| Headline.AtTakesTextAfterLastOccurrence | scraper.py:326-333 | with " at " present, the company is the cleaned, trimmed text after its last occurrence, when that occurrence does not overlap an earlier one |
| Headline.AtSignOnlyWithoutAt | scraper.py:334-340 | " @ " is consulted only without " at ", and follows the same last-occurrence rule |
| Headline.JobTitleBranch | scraper.py:341-350 | without " at " and " @ ", a company is found only when the headline names a job title and has " - ", and it is the text after the first " - ", cut and trimmed; otherwise the company is "" |
| Headline.CompanyIsPieceOfHeadline | scraper.py:316-350 | the company the headline yields is always a piece of the headline |
| Headline.CompanyFromHeadline | scraper.py:316-350 | the company the headline yields is trimmed, and it is non-empty only when the truncated headline contains " @ ", " at " or " - " |
| Headline.SeparatorCompany | scraper.py:343-350 | the separator loop's result is trimmed, and non-empty only when one of the remaining separators occurs |
| HeadlineCases.NoBarNoTruncation | scraper.py:319-323 | a headline without a bar is kept whole |
| HeadlineCases.FirstEmployerOnly | scraper.py:319-321 | of a headline "first, double-bar separator, rest" only the first employer is kept, whatever the rest says |
| HeadlineCases.NoBarNoCleanup | scraper.py:331-332 | a company without a bar is left alone by the clean-up |
| HeadlineCases.LeftmostAt | scraper.py:327 | an " at " placed after text without one, and not completing an " at" at its end, is the leftmost |
| HeadlineCases.OverlapSplit | scraper.py:327 | "a at at c" splits on " at " into a and "at c" |
| HeadlineCases.CompanyAfterLastAt | scraper.py:326-333 | with no bar and one last " at ", the company is the trimmed text after it, even when an earlier " at " precedes it |
| HeadlineCases.OverlappingAtLeaksIntoCompany | scraper.py:327-329 | in "a at at c" the last " at " starts three characters after the first, yet the company is "at c" |
| HeadlineCases.CleanupDropsThreeCharacters | scraper.py:331-332 | the clean-up is exact for a trailing space and two bars, but drops the last letter of a company followed by a space and one bar, and a one-letter company becomes "" |
| Extraction.ExtractProfileData | scraper.py:212-444 | filling the record field by field yields exactly the page's record, and a page that fails to load yields the empty record |
| Extraction.ExtractCompany | scraper.py:281-350 | the company extractor returns exactly the Company field: stage 1, then the headline when stage 1 found nothing |
| Extraction.ExtractAbout | scraper.py:385-427 | the About extractor returns exactly the About field: the filtered cascade, then the heading's neighbour |
| Extraction.Profile | scraper.py:212-444 | a page that fails to load gives the all-empty record; otherwise Name, Headline, Company and Location are always trimmed |
| Extraction.CompanyField | scraper.py:281-350 | the Company field is trimmed |
| Extraction.AboutField | scraper.py:385-427 | the About field is empty or longer than 20 characters |
| Extraction.SiblingAbout | scraper.py:412-427 | the heading's neighbour is used only when it is longer than 20 characters, and then as it is |
| Extraction.CompanySources | scraper.py:316-317 | Company comes from the experience section when that names one; the headline is consulted only when it does not and a headline was found, and what it yields is a piece of the headline |
| Extraction.FilteredFields | scraper.py:397-407 | Location is empty or passes the bullet filter; About is empty or longer than 20 characters, and About taken from the selectors does not open with the "About" label |
| Extraction.AboutFallback | scraper.py:412-427 | the text after the About heading is used exactly when no About selector yields a text and that text is longer than 20 characters |
| Batch.IsUrlLine | scraper.py:460-461 | a line is kept exactly when its trimmed text starts with "http"; the separate emptiness test never decides anything |
| Batch.KeptUrls | scraper.py:459-462 | every kept URL is trimmed and starts with "http", and there are no more URLs than lines |
| Batch.KeptUrlsAppend | scraper.py:459-462 | the URL filter keeps file order |
| Batch.KeptUrlsSnoc | scraper.py:459-462 | reading one more line adds its URL, if it has one, at the end |
| Batch.KeptUrlsMembers | scraper.py:459-462 | a URL is kept exactly when it is the trimmed text of a line that starts with "http" |
| Batch.ReadUrlsFromFile | scraper.py:456-467 | the reading loop returns exactly the kept URLs, and nothing for a missing file |
| Batch.Records | scraper.py:516-520 | a batch has one record per URL |
| Batch.ScrapeAll | scraper.py:516-520 | the batch loop yields exactly the batch's records: one per URL, in order, each the record of that URL's page, including failed pages |
| Batch.RecordsSnoc | scraper.py:516-520 | one more URL appends its page's record at the end |
| Batch.FailedPagesKeepTheirRow | scraper.py:436-444 | a page that fails to load still has its row, the all-empty record, and the loop goes on |
| Batch.RecordsAppend | scraper.py:516-520 | a batch taken in two parts gives the same records as the whole |
| Batch.ScrapeProfiles | scraper.py:506-520 | rows are produced exactly when the login succeeds and the file yields URLs, and they are the records of the kept URLs in file order |
| Config.LoadCredentials | scraper.py:47-104 | a missing `.env` is reported first; blank values after trimming come next; accepted credentials are the trimmed, non-blank, placeholder-free values |
| Config.IsPlaceholder | scraper.py:97 | a value holding the template's text as written ("your_email", "your_password", "here") is always taken for a placeholder, although the test runs on lowercased text |
| Config.AcceptedExactly | scraper.py:62-104 | credentials are accepted exactly when the file exists and both trimmed values are non-blank and placeholder-free, and they are rejected as placeholders exactly when they are non-blank but contain placeholder text |
| Config.PlaceholderIgnoresCase | scraper.py:97 | the placeholder test gives the same answer on lowercased input |
| Config.Getenv | scraper.py:62-63 | `os.getenv(name, '')` is empty exactly when the variable is unset or set to the empty string, and otherwise is its value |
| Config.HereAnywhereRejects | scraper.py:97 | any password containing "here" in any ASCII case is rejected as a placeholder |

## Left out

- Browser set-up, user-agent spoofing, login navigation and closing the browser are calls into Selenium and undetected-chromedriver. `Batch.ScrapeProfiles` takes the login outcome as a boolean. An exception during set-up produces no rows, just like a failed login.
- Sleeps, random delays and `WebDriverWait` timeouts only wait; they have no effect on the data.
- Scrolling to the About heading and clicking "Show more" buttons (scraper.py:355-382) are modelled as changing nothing: one page state serves all five extractors. The scraper reads Name, Headline, Location and Company (scraper.py:233-350) before those clicks and About after them. The model therefore assumes the clicks leave the elements of the first four fields unchanged.
- CSS and XPath matching, the nested first-entry lookup of the experience section, and the JavaScript lookup of the About heading's neighbour are inputs, namely the fields of `Dom.Page`. The trimming done inside that script (JavaScript `trim`) is part of the input.
- Exceptions other than "element not found" are not modelled. A page either fails as a whole (`fetchFails`, the empty record) or answers every query. An exception that escapes mid-extraction, such as a stale element, is represented only by `fetchFails`. The bare `except: pass` blocks around the experience and About stages can then never fire.
- The URL file's opening and decoding are left out. `Batch.ReadUrlsFromFile` receives the file's lines, or `None` when the file is missing. Other I/O errors are not modelled.
- Writing the CSV file, loading the `.env` file and all printed diagnostics are left out. `Batch.ScrapeProfiles` returns the rows that would be written. `Config.LoadCredentials` receives the file's existence and the two variables' values.
- Batch.Records: takes the page a URL shows as a function of the URL. A URL listed twice is therefore assumed to show the same page both times.
- Text.Lower: models Python's `lower()` on ASCII letters only. Other letters are left unchanged.
