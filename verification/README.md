# Logo and phones scraper, in Dafny

A model of the core of `logo_and_phones_scraper.py`. The script reads a list of
website urls and drops the ones that are not urls. It downloads every page and,
for each page that came back with status 200 and a non-empty body, builds one
record with these fields:

- `website`: the page url.
- `logo`: the page's logo image url, resolved against the page url.
- `phones`: the set of phone numbers found on the page, each put through a
  four-step normalisation.

The records are exported as one JSON array.

The project has four modules:

- `Base` (`base.dfy`) holds the shared vocabulary:
  - `Option` and `Result`;
  - the two string tests the script uses, `startswith` and `in`;
  - an order-preserving `Filter` with its facts: counts, concatenation,
    subsequence, and identity on a sequence that passes;
  - `FindFirst`, the first element that passes a test;
  - `MapUntilErr`, a map that stops at the first error, which is how a raise
    inside the page loop ends it.
- `Phones` (`phones.dfy`) models `clean_phones` and `get_phones`.
  - Normalisation is the four regular-expression steps of lines 48-51, each as
    its own function.
  - Each step has lemmas saying what it keeps and what it deletes.
  - Two lemmas show that normalisation is not idempotent.
  - `CleanPhones` is the set the loop builds. `CleanPhonesMembers` says which
    strings it holds.
- `Logo` (`logo.dfy`) models `get_logo`.
  - A reference predicate gives the meaning of `re.match('.*logo.*', …,
    IGNORECASE)`: "logo", in any ASCII letter case, occurs before the first
    newline.
  - A search over `src`, then a search over `class`, with the first hit winning.
  - An image without `src` makes the lookup raise.
- `Scraper` (`scraper.dfy`) models:
  - `get_absolute_logo_url` and the logo branch of `handle_page_content`;
  - the status rule of `download_page`;
  - the sequential phase of `collect_website_data`;
  - `validate_urls`;
  - the main block, as a function from input lines and responses to an outcome.

The program calls code this model does not contain: BeautifulSoup, `urljoin`,
the `phonenumbers` matcher and `urlparse`. These are the function-typed fields
of `Scraper.Env`, and every statement about them holds for every choice of
them. The network is a sequence of `Response`s, one per valid url.

The model follows the code as written. These behaviours are worth knowing:

- **Missing `src`.** An image without a `src` attribute that the `src` loop
  reaches before any match makes `image['src']` raise; it does not count as
  "no match". Nothing in `collect_website_data` or the main block catches
  this, so one page's failure ends the whole run and nothing is exported
  (`Scraper.RunRaises`).
- **The `//` test.** `get_absolute_logo_url` checks the page url for `//`, not
  the logo. A protocol-relative logo on an ordinary page url is handed to
  `urljoin` (`Scraper.ProtocolRelativeLogoIsJoined`). On a protocol-relative
  page url the result is the page url without its `//`, whatever the logo
  (`Scraper.ResolverIgnoresLogo`).
- **Normalisation is not idempotent.** Removing empty parentheses can leave a
  double space: `"1 ( ) 2"` gives `"1  2"`, then `"1 2"`. It can also expose a
  new empty pair: `"(())"` gives `"()"`, then `""`.
- **The `tel:` strip.** Line 67 drops the first four characters of every `href`
  that contains `tel:` anywhere, not a `tel:` prefix.
- **Empty bodies.** A page whose body is the empty string is skipped like a
  failed download, because the `if page_text:` test treats `""` as false.
- **The logo pattern.** The pattern is matched from the start of the `src` and
  `.` does not cross a newline, so "logo" must occur before the first newline.
  For `class` values bs4 searches the pattern, so "logo" may occur anywhere.
- **Empty `src`.** An empty-string logo is kept as `""`, not resolved.

## Model

| member | source | states |
|---|---|---|
| `Phones.KeepPhoneCharsSpec` | logo_and_phones_scraper.py:48 | Step 1 keeps every occurrence of a digit, `(`, `)`, `+` or space and drops every other character. It works piecewise on a concatenation. |
| `Phones.CollapseSpaces` | logo_and_phones_scraper.py:49 | Step 2 leaves no two adjacent spaces. It never lengthens the string, keeps the first character, and introduces no new character. |
| `Phones.CollapseKeepsNonSpaces` | logo_and_phones_scraper.py:49 | Step 2 touches only spaces: the non-space characters are unchanged, in order. |
| `Phones.CollapseFixesSingleSpaced` | logo_and_phones_scraper.py:49 | A string without double spaces is a fixed point of step 2. |
| `Phones.CollapseDropsRepeat` | logo_and_phones_scraper.py:49 | A run of spaces becomes exactly one space: removing one space from a double space anywhere in the string does not change the result of step 2. |
| `Phones.RemoveEmptyParensDeletesOnly` | logo_and_phones_scraper.py:50 | Step 3 only deletes characters: its result is a subsequence of its input. |
| `Phones.RemoveEmptyParensKeepsDigits` | logo_and_phones_scraper.py:50 | Step 3 deletes no digit and no plus sign. |
| `Phones.RemoveEmptyParensWithoutParen` | logo_and_phones_scraper.py:50 | Step 3 changes nothing in a string without `(`. |
| `Phones.RemoveEmptyParensFixes` | logo_and_phones_scraper.py:50 | Step 3 changes nothing in a string where neither `()` nor `( )` occurs. |
| `Phones.RemoveEmptyParensFirstPair` | logo_and_phones_scraper.py:50 | Step 3 deletes the first `()` or `( )`, keeps everything before it, and goes on with the rest. Together with the fixed-point lemma this determines step 3 on every input. |
| `Phones.StripSpaces` | logo_and_phones_scraper.py:51 | Step 4 gives a string with no space at either end, no longer than its input, using only the input's characters. |
| `Phones.StripSpacesSpec` | logo_and_phones_scraper.py:51 | Step 4 gives a contiguous piece of its input with the same non-space characters, in order. |
| `Phones.Normalise` | logo_and_phones_scraper.py:48-51 | A normalised phone uses only digits, `(`, `)`, `+` and spaces, has no space at either end, and is no longer than the candidate. |
| `Phones.NormaliseKeepsDigits` | logo_and_phones_scraper.py:48-51 | Normalisation neither drops nor adds a digit or plus sign: the result's digits and plus signs are the candidate's, in order. |
| `Phones.NormaliseNonEmpty` | logo_and_phones_scraper.py:48-52 | A candidate holding a digit or plus sign is never discarded. |
| `Phones.NormaliseFixesE164` | logo_and_phones_scraper.py:48-51 | A string of digits and plus signs, such as an E.164 number, normalises to itself. |
| `Phones.NormaliseFixesClean` | logo_and_phones_scraper.py:48-51 | A string of phone characters with no double space, no empty pair and no space at either end normalises to itself. |
| `Phones.NormaliseSingleSpaced` | logo_and_phones_scraper.py:48-51 | On phone characters without double spaces, steps 1 and 2 do nothing. |
| `Phones.NormaliseLeavesDoubleSpace` | logo_and_phones_scraper.py:49-50 | For digits a and b, `a ( ) b` normalises to `a  b` (two spaces), and normalising again gives `a b`. |
| `Phones.NormaliseLeavesEmptyParens` | logo_and_phones_scraper.py:50 | `(())` normalises to `()`, and normalising again gives `""`. |
| `Phones.CleanPhones` | logo_and_phones_scraper.py:45-54 | Every reported phone is non-empty, uses only phone characters and has no boundary space. There are no more phones than candidates. |
| `Phones.CleanPhonesMembers` | logo_and_phones_scraper.py:45-54 | A string is reported exactly when it is non-empty and is the normal form of some candidate. |
| `Phones.CleanPhonesConcat` | logo_and_phones_scraper.py:72 | Cleaning the concatenated candidate lists gives the union of cleaning each list. |
| `Phones.TelCandidates` | logo_and_phones_scraper.py:67 | There is one candidate per anchor whose `href` contains `tel:`, in document order. Each is that `href` without its first four characters. |
| `Phones.GetPhones` | logo_and_phones_scraper.py:61-73 | Every phone of a page is clean. There are at most as many as tel links plus library matches. |
| `Phones.GetPhonesSpec` | logo_and_phones_scraper.py:67-72 | The phones of a page are the union of the cleaned tel-link candidates and the cleaned library matches. |
| `Phones.SingleTelLinkExample` | logo_and_phones_scraper.py:67-72 | A page whose only phone is `href="tel:+12025550123"` has exactly the phone `+12025550123`. |
| `Phones.TelLinkPhone` | logo_and_phones_scraper.py:67-72 | A page whose only phone-bearing content is one `tel:` link to a non-empty number of digits and plus signs has exactly that number as its phone. |
| `Logo.MatchesLogoPatternSpec` | logo_and_phones_scraper.py:36 | The anchored case-insensitive `.*logo.*` match succeeds exactly when "logo" occurs before the first newline. |
| `Logo.SearchBySrcSpec` | logo_and_phones_scraper.py:34-38 | The `src` loop has three outcomes. It raises exactly when an image without `src` comes before every match. It returns the first matching `src`. It finds nothing exactly when every image has a non-matching `src`. |
| `Logo.FindByClass` | logo_and_phones_scraper.py:40 | The class fallback returns only an image of the page that has a class value containing "logo". |
| `Logo.FindByClassSpec` | logo_and_phones_scraper.py:40 | The class fallback returns the first image with a logo class, or nothing exactly when there is none. |
| `Logo.GetLogoSpec` | logo_and_phones_scraper.py:32-43 | `get_logo` returns the first `src` match. Failing that, it returns the `src` of the first image with a logo class. It raises exactly when an image without `src` precedes every `src` match. It returns nothing exactly when no image matches either way. |
| `Logo.FirstSrcMatchWins` | logo_and_phones_scraper.py:32-43 | For images `a/logo.png` then `b/banner.png`, the logo is `a/logo.png`. |
| `Scraper.ResolverIgnoresLogo` | logo_and_phones_scraper.py:56-59 | On a page url starting with `//` the resolved logo does not depend on the logo. It is the page url without its `//`. |
| `Scraper.ResolveLogo` | logo_and_phones_scraper.py:91-95 | An absent logo stays absent. An empty logo, or one starting with the page url, is kept. Any other logo goes through the resolver. |
| `Scraper.ProtocolRelativeLogoIsJoined` | logo_and_phones_scraper.py:94-95 | A `//` logo on a page url without `//` is passed to `urljoin` unchanged. |
| `Scraper.HandlePageContent` | logo_and_phones_scraper.py:86-102 | A page's record names its url, carries the resolved logo and the page's clean phones. The page raises exactly when `get_logo` does. |
| `Scraper.HandlePageContentSpec` | logo_and_phones_scraper.py:86-102 | A record has no logo exactly when no image matches by `src` or by class. Its phones are the union of the two strategies' phones. |
| `Scraper.DownloadPage` | logo_and_phones_scraper.py:75-84 | The url is kept. A body is returned exactly for status 200, and it is the response text. |
| `Scraper.FetchAll` | logo_and_phones_scraper.py:110-114 | Page `i` of phase 1 keeps url `i`, and it passes the `if page_text:` test exactly when response `i` has status 200 and a non-empty text. |
| `Scraper.CollectRecords` | logo_and_phones_scraper.py:113-117 | The phase raises exactly when some page with a non-empty body raises. Otherwise there is one record per such page, and every other page is skipped. |
| `Scraper.CollectRecordsSpec` | logo_and_phones_scraper.py:113-117 | The k-th record is the one `handle_page_content` builds from the k-th page with a non-empty body, and it names that page's url. |
| `Scraper.RecordsWhenAllHaveBodies` | logo_and_phones_scraper.py:113-117 | When every page has a non-empty body and the phase finishes, there is one record per page, in order, each naming its page's url. |
| `Scraper.ValidateUrls` | logo_and_phones_scraper.py:130-137 | The valid urls are exactly the inputs that pass `is_url`. They keep their input order and their repetitions. |
| `Scraper.Run` | logo_and_phones_scraper.py:139-149 | `Run` returns `NoValidUrls` exactly when no input line passes `is_url`. |
| `Scraper.RunRaises` | logo_and_phones_scraper.py:113-117 | `Run` is `Raised` exactly when some served page's `get_logo` raises. |
| `Scraper.RunRecordCount` | logo_and_phones_scraper.py:113-117 | A run that finishes exports one record per response with status 200 and a non-empty body. |
| `Scraper.RunAllServed` | logo_and_phones_scraper.py:113-117 | When every valid url is served and the run finishes, there is one record per valid url, in order, naming those urls. |
| `Scraper.RunWithOneFailure` | logo_and_phones_scraper.py:113-117 | Three valid urls with the second answered 404 give two records when the run finishes. |

## Left out

- Network access, request headers and `Pool` concurrency (lines 19-29, 77, 110-111) are not modelled. The responses are a parameter, one per valid url. Phase 1 is modelled as an in-order map of `download_page` over the urls and their responses, because `Pool.map` returns its results in input order; the model assumes that order rather than proving it.
- Messages printed to standard error (lines 82, 93, 136, 145) are not modelled. None of them affects a record.
- HTML parsing by BeautifulSoup is not modelled. A parsed page is a `Document` with its images and anchors in document order and its text.
- `soup.find` also tests the whole space-joined class string against the pattern. That test is not modelled: "logo" has no space, so it cannot match where no single class value does.
- The `phonenumbers` matcher and its E.164 formatting (lines 69-70) are `Env.matchPhones`.
- `urljoin` is `Env.urljoin`. `is_url` with `urlparse` (lines 122-127) is `Env.isUrl`.
- Reading standard input and `splitlines` (lines 140, 143) are not modelled. The input lines are a parameter.
- JSON serialisation (lines 119-120) is not modelled. The records are the exported value.
- The unused `phone_regex` (line 15) and the commented-out strategies (lines 62-66) are not modelled.
- Phones.CleanPhones: returns the set built by the loop rather than `list(...)` of it, because the order of that list is unspecified.
- Phones.StripSpaces: strips only spaces rather than all whitespace. After step 1 the space is the only whitespace character left, so the result is the same.
- Logo.MatchesLogoPatternSpec: folds case for ASCII letters only. The letters of "logo" have no other case forms under Python's matching.
- A transport exception from `requests.get` (line 77) is not modelled: every request is assumed to return a status. Neither `download_page` nor `Pool.map` (line 111) catches such an exception, so it would end the run.
- Phones.CollapseSpaces: its contract does not say that a run of spaces leaves exactly one space. `Phones.CollapseDropsRepeat` states that.
- Phones.RemoveEmptyParensDeletesOnly: says only that step 3 deletes characters, not which ones. `Phones.RemoveEmptyParensFixes` and `Phones.RemoveEmptyParensFirstPair` state which.
