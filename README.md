# PyApplier email harvesting and configuration values, in Dafny

This project models the two parts of PyApplier that can be reasoned about
once their collaborators are abstracted away:

- **The scraper** (`Scraper` in `util/scraper.py`). It walks an ordered list
  of search results. For each result it extracts email addresses from the
  description, when one is present and non-empty. It then extracts addresses
  from the visible text of the fetched page, when the fetch returned a
  non-empty page. Both go into one set, `emails`. The walk stops after the
  first result at which the set holds at least `max_emails` addresses, and
  the call returns at most `max_emails` of them. Extraction is `re.findall`
  with the pattern `[a-zA-Z0-9._%+-]+@[a-zA-Z0-9.-]+\.[a-zA-Z]{2,}`, collected
  into a set.
- **The configuration reader** (`Config.get` in `util/config.py`). It looks
  a value up by section and key, with `config` as the default section. It
  then removes one leading `"`, removes one trailing `"`, strips surrounding
  whitespace, and replaces every two-character backslash-`n` with a newline.

Files:

- `wrappers.dfy`: `Option` and `Result`.
- `configuration.dfy` (module `Configuration`): the normalisation chain as
  functions over strings, the lookup with its two errors, and lemmas.
- `email_extract.dfy` (module `EmailExtract`): the pattern's shape as a
  predicate, the regular-expression engine's match at one position, the
  leftmost non-overlapping scan of `re.findall`, and `extract_emails`.
- `scraping.dfy` (module `Scraping`): the class `Scraper`, whose `emails`
  set is updated in place by `Run`. Beside it are functions that state what
  the loop computes, and lemmas about them.

How the collaborators are represented:

- The search engine is the sequence of events its result generator
  produces. Each event hands over a result or raises.
- The HTTP transport is a function from URL to outcome: a response with
  status and body, or an exception.
- BeautifulSoup's HTML-to-text step is an opaque function.
- The configparser file is a map from section to a map from option to value.
- The class carries a ghost trace, `fetched`, of the URLs handed to the
  transport. This states which results were fetched and which were not.

The code has no blacklist filter, no lowercase-only local-part check, no
fixed list of top-level domains, no case-insensitive matching, and does not
return the addresses in discovery order; the model has none of them either.

The code returns `list(self.emails)[:max_emails]`, whose order is Python's
set order. The model therefore returns *some* duplicate-free selection of the
set, of the length the slice gives.

## Model

| member | source | states |
|---|---|---|
| `Configuration.Get` | util/config.py:13-18 | a value is returned exactly when the section and the key exist; a missing section raises `NoSection`; a returned value contains no backslash-`n` pair and is no longer than the raw value |
| `Configuration.GetOutcomes` | util/config.py:13-18 | a present key yields the normalised raw value; a missing key in an existing section yields `NoOption` |
| `Configuration.GetDefaultsToConfigSection` | util/config.py:13 | `get(key)` is `get(key, 'config')` |
| `Configuration.RemovePrefix` | util/config.py:15 | `removeprefix`: when the string starts with the prefix, prefix plus result is the string; otherwise the string is unchanged |
| `Configuration.RemoveSuffix` | util/config.py:16 | `removesuffix`: when the string ends with the suffix, result plus suffix is the string; otherwise the string is unchanged |
| `Configuration.StripLeadingCutsSpace` | util/config.py:17 | the leading half of `strip()` keeps a suffix of the input; everything cut off is whitespace; what is kept is empty or starts with a non-space |
| `Configuration.StripTrailingCutsSpace` | util/config.py:17 | the trailing half of `strip()` keeps a prefix of the input; everything cut off is whitespace; what is kept is empty or ends with a non-space |
| `Configuration.StripIsMaximalTrim` | util/config.py:17 | `strip()` returns a contiguous piece of its input, cut only at whitespace, with no whitespace left at either end |
| `Configuration.StripIdentity` | util/config.py:17 | a string with no whitespace at either end is unchanged by `strip()` |
| `Configuration.UnescapeLeavesNoEscape` | util/config.py:18 | no backslash-`n` pair survives the replacement |
| `Configuration.UnescapeLength` | util/config.py:18 | the result's length is the input's length minus the number of backslash-`n` pairs: each pair becomes one character, every other character is kept |
| `Configuration.UnescapeIdentity` | util/config.py:18 | a string without a backslash-`n` pair is unchanged by the replacement |
| `Configuration.UnescapeConcat` | util/config.py:18 | the replacement scans left to right with no overlap: on a concatenation it is the concatenation of the replaced parts, unless a backslash ending the first part meets an `n` starting the second |
| `Configuration.UnescapeUndoesEscape` | util/config.py:18 | writing newlines back as backslash-`n` and then replacing restores any text free of backslash-`n` pairs |
| `Configuration.EscapeUndoesUnescape` | util/config.py:18 | replacing and then writing newlines back as backslash-`n` restores any newline-free text, so every newline produced stands for exactly one pair and the other characters keep their order |
| `Configuration.NormalizeHasNoEscapedNewline` | util/config.py:14-18 | the result of the chain never contains backslash followed by `n` |
| `Configuration.NormalizeNeverGrows` | util/config.py:14-18 | the result of the chain is never longer than the raw value |
| `Configuration.UnquoteTrimsAtMostOneQuotePerEnd` | util/config.py:15-16 | quote removal cuts at most one character from each end; the first is cut exactly when the raw value starts with `"`, and the last only when it is `"` |
| `Configuration.NormalizeIdentity` | util/config.py:14-18 | a raw value with no leading or trailing `"`, no surrounding whitespace and no backslash-`n` pair is returned unchanged |
| `Configuration.QuoteBehindSpaceIsKept` | util/config.py:15-17 | a quote that is not the very first character is kept: `' "x"'` yields `"x` |
| `Configuration.OnlyOneQuotePerEndIsRemoved` | util/config.py:15-16 | only one quote per end is removed: `""x""` yields `"x"` |
| `Configuration.QuoteRemovalPrecedesStrip` | util/config.py:15-17 | stripping before removing quotes would turn `' "x"'` into `x`, not `"x`, so the order matters |
| `Configuration.StripPrecedesUnescape` | util/config.py:17-18 | the chain turns `x\n` (backslash, `n`) into `x` plus a newline, while replacing before stripping would give `x`, so the order matters |
| `EmailExtract.RunEndIsMaximalRun` | util/scraper.py:69 | a greedy `[...]+` run: every character up to the run's end is in the class, and the character at the end, if any, is not |
| `EmailExtract.RunEndIsFirstOutside` | util/scraper.py:69 | the run's end is the first position outside the class: any range of class characters followed by a non-class character or the text's end is exactly the greedy run |
| `EmailExtract.RunEndCovers` | util/scraper.py:69 | a greedy run reaches over every range of class characters that starts where it starts |
| `EmailExtract.LastTldDotIsTld` | util/scraper.py:69 | where the domain part gives characters back, it stops at a dot followed by at least two letters |
| `EmailExtract.LastTldDotIsLast` | util/scraper.py:69 | the give-back stops at the last such dot in the domain run: whenever one exists, one is found, at least as far right |
| `EmailExtract.MatchAt` | util/scraper.py:69-70 | a match found at a start position ends after it, inside the text |
| `EmailExtract.MatchAtIsSound` | util/scraper.py:69-70 | a match the engine reports at a start position spans a substring of the pattern's shape |
| `EmailExtract.MatchAtIsLongest` | util/scraper.py:69-70 | whenever some substring starting at a position has the pattern's shape, the engine matches there, and its match is at least as long: it takes the longest match |
| `EmailExtract.Scan` | util/scraper.py:70 | every span of the scan lies in the text at or after the position the scan starts from |
| `EmailExtract.ScanCoversEveryMatch` | util/scraper.py:70 | the scan steps over no match: every substring of the pattern's shape starting at or after the scan's start begins inside some reported span |
| `EmailExtract.ScanSpansAreLongest` | util/scraper.py:70 | each reported span is the longest substring of the pattern's shape that starts where the span starts |
| `EmailExtract.ScanSpansHaveShape` | util/scraper.py:70 | every span the scan reports has the pattern's shape |
| `EmailExtract.ScanIsOrdered` | util/scraper.py:70 | the spans come left to right and do not overlap: each ends at or before the next one starts |
| `EmailExtract.EmptyScanMeansNoEmail` | util/scraper.py:70 | when the scan from a position finds nothing, no substring at or after that position has the pattern's shape |
| `EmailExtract.FoundAreAddresses` | util/scraper.py:70 | every string `re.findall` returns has the pattern's shape and is a substring of the text |
| `EmailExtract.FoundNothingIffNoEmail` | util/scraper.py:70 | `re.findall` returns nothing exactly when no substring of the text has the pattern's shape |
| `EmailExtract.InElements` | util/scraper.py:70 | `set(...)` of a list holds exactly the list's members |
| `EmailExtract.ExtractEmails` | util/scraper.py:65-70 | empty text gives the empty set |
| `EmailExtract.ExtractedAreAddresses` | util/scraper.py:65-70 | every extracted string has the pattern's shape and occurs in the text |
| `EmailExtract.ExtractedNothingIffNoEmail` | util/scraper.py:65-70 | the extracted set is empty exactly when no substring of the text has the pattern's shape |
| `EmailExtract.AddressShape` | util/scraper.py:69 | an address has exactly one `@`, at least six characters, and ends in two ASCII letters |
| `EmailExtract.ExtractWholeAddress` | util/scraper.py:69-70 | a text that is exactly one address yields exactly that address |
| `Scraping.YieldedBeforeRaise` | util/scraper.py:20-33 | the results are the longest run of yielded results at the head of the search events: each is yielded in order, and the next event, if any, raises |
| `Scraping.YieldedIsUnique` | util/scraper.py:20-33 | any sequence of results meeting that description is exactly the one `YieldedBeforeRaise` gives |
| `Scraping.FetchPage` | util/scraper.py:55-63 | a non-empty page is the body of a 200 response; a 200 response gives its body; an exception gives the empty string |
| `Scraping.ContributionsComeFromTheirText` | util/scraper.py:83-97 | a description contributes only addresses that occur in it; a page only addresses that occur in its visible text; a missing description or an empty page contributes none |
| `Scraping.InUnionAll` | util/scraper.py:82-97 | an address is in the union of several results' contributions exactly when one of them contributes it |
| `Scraping.Collect` | util/scraper.py:82-100 | the loop only adds to the set and processes no more results than there are |
| `Scraping.CollectStep` | util/scraper.py:82-100 | one iteration: the first result's addresses are added, then the loop stops if the cap is reached and goes on with the rest otherwise |
| `Scraping.LoopTurn` | util/scraper.py:82-100 | one turn of the imperative loop keeps it in step with the loop function: after the cap is reached, the set and the processed count are final; below the cap, the rest of the loop does the rest |
| `Scraping.LoopExhausted` | util/scraper.py:82-100 | when every result has been processed, the set is final and the processed count is the number of results |
| `Scraping.CollectIsUnionOfProcessed` | util/scraper.py:82-100 | after the loop the set is the starting set united with the contributions of exactly the processed results |
| `Scraping.CollectStopsAtFirstCap` | util/scraper.py:82-100 | no processed result before the last one brought the set to the cap; results were left unprocessed only if the cap was reached; a non-empty result list has its first result processed |
| `Scraping.HarvestedAddressesComeFromProcessedResults` | util/scraper.py:83-97 | every address the loop added has the pattern's shape and came from the description or the page text of a processed result |
| `Scraping.BarrenResultContributesNothing` | util/scraper.py:83-97 | a result with no description or an empty one, whose fetch gives no page, contributes no address |
| `Scraping.EmptyContributionDoesNotStop` | util/scraper.py:82-100 | below the cap, a result that contributes nothing leaves the set unchanged and the loop goes on with the next result |
| `Scraping.SliceLength` | util/scraper.py:102 | the length of Python's `xs[:n]`: `min(len, n)` for non-negative `n`, `max(0, len + n)` for negative `n` |
| `Scraping.ListOf` | util/scraper.py:102 | `list(s)` lists every element of the set once, in some order |
| `Scraping.ListUpTo` | util/scraper.py:102 | `list(s)[:n]` is duplicate-free, drawn from the set, of the slice's length, and lists the whole set when `n` is at least its size |
| `Scraping.Scraper.constructor` | util/scraper.py:7-14 | stores the query and the two caps (default 50 each) and starts with an empty address set |
| `Scraping.Scraper.GetSearchResults` | util/scraper.py:16-33 | returns the results yielded before the search first raises; the exception is not propagated |
| `Scraping.Scraper.ProcessResult` | util/scraper.py:83-97 | one result adds its description's and its page's addresses to the set, and its URL, only its URL, is fetched |
| `Scraping.Scraper.Run` | util/scraper.py:72-102 | the new set is what the loop computes from the old set; exactly the processed results' URLs are fetched, in order; the returned list is duplicate-free, drawn from the set, of length `min(\|set\|, max_emails)` (Python slice length for a negative cap), and holds the whole set when it is within the cap |

## Left out

- HTTP details of `fetch_page` (headers, the 10-second timeout, the `requests` call): the transport is a function from URL to outcome, deterministic per URL, so fetching the same URL twice in one run gives the same outcome.
- The arguments handed to `googlesearch.search` (query, `num_results`, `advanced`, language and region): the search is given as the events its generator produces, so how many results it yields is the collaborator's business.
- `BeautifulSoup(...).get_text()`: an opaque function from page to text.
- Console output (`print`) in `get_search_results`, `fetch_page` and `run`: it changes no state the model tracks.
- The order of `list(self.emails)`: Python set order is unspecified, so the model promises no order.
- configparser itself: reading the file, lowercasing of option names, the `DEFAULT` section, interpolation of `%` and its errors. Its result is the map the model is given.
- `Scraping.Scraper.Run`: the promise that the list length is `min(|set|, max_emails)` sits in the slice-length helper; no claim is made about which addresses are kept when the set is larger than the cap, because that depends on set order.
- The `__main__` blocks of both files, `main.py`, and the modules `util/lmwriter.py`, `util/lmformatter.py`, `util/emailer.py` and `util/sheets.py`. These are glue around OpenAI, PDF rendering, SMTP and Google Sheets, and are not part of this model.
- The blacklist, lowercase and top-level-domain filters, grouping by domain, send-history and exclusion filtering, and the per-lead confirm, generate, send and log pipeline: `util/scraper.py` and `util/config.py` do none of these, so the model has none of them.
