# Portfolio site: verified model of its data logic

The site is a personal developer portfolio. It reads a profile, a repository
list, README files and a public event feed from the GitHub REST API, and
derives a few display values from them. This project models those derivations
in Dafny and proves properties of them:

- **README title extraction** (`extractTitleFromReadme`). Four JavaScript
  regular expressions are tried in a fixed order: ATX `#`, setext `===`,
  ATX `##`, setext `---`. The trimmed capture of the first one that matches
  anywhere becomes the title.
  - `ReadmeTitle` states what each expression matches. `Split` lists the ways
    it can match at a position. `GreedyCapture` is the choice the
    backtracking engine makes among them. `RegexMatch` adds the leftmost
    start.
  - Hand-written scanners (`AtxAt`, `SetextAt`, `MatchAt`, `Find`) are proved
    to compute exactly that match. `Extract` combines them as the source does.
  - `JsText` models the JavaScript character classes. `\s` and `trim` use the
    same white-space set. `.`, `^` and `$` use the four line terminators.
    `JsText` also models `String.prototype.trim` and `String.prototype.includes`.
- **Display titles** (`PortfolioPage`). Each fetched repository gets a
  `displayTitle`. It is the README's title when the README request is ok, the
  content decodes, and a non-empty title is found. Otherwise it is the
  repository name.
- **Coding-days estimate** (`CodingDays`). The steps are:
  - Keep the events whose instant lies in `[start of year, now]`.
  - Take the distinct UTC days among them.
  - If there are at least 10 such days, report their number.
  - Otherwise report `floor(floor(elapsed days) * 0.7)`. A failed request
    takes the same fallback.
- **Projects page** (`ProjectsPage`, `Topics`). Repositories whose name
  contains `.github` are hidden. A card shows at most three topic chips and a
  `+n` badge for the rest. The portfolio page shows the same chips without
  the badge.

Behaviour the model keeps from the code as written:

- The heading expressions are tried by priority, not by position. An ATX `#`
  heading anywhere beats a setext heading that appears earlier.
- The `\s+` after `#` may cross a line break, so `"#\nTitle"` gives `"Title"`.
- `"#  "` gives the empty title `""`, not null. The card then shows the
  repository name, because the caller tests the title for truthiness.
- The setext expressions need a bare `\n` between the title line and the
  underline. A README with CRLF line ends therefore has no setext match.

## Model

| member | source | states |
|---|---|---|
| `JsText.Trim` | portfolio/app/page.tsx:56 | `trim` leaves no white space at either end, and what it returns is the input minus a white-space prefix and a white-space suffix |
| `JsText.TrimUnique` | portfolio/app/page.tsx:56 | the trimmed text is the only inner part of the input that has no white space at either end |
| `JsText.TrimIdempotent` | portfolio/app/page.tsx:64 | trimming twice gives the same text as trimming once |
| `JsText.TrimKeepsSingleLine` | portfolio/app/page.tsx:56 | trimming a text with no line terminator yields a text with no line terminator |
| `JsText.Includes` | src/app/page.tsx:55 | `includes` is true exactly when the needle occurs at some index of the haystack |
| `ReadmeTitle.AtxSplitCharacterized` | portfolio/app/page.tsx:52 | `^#\s+(.+)$` matches at a line start followed by the marker; the capture starts at a non-line-terminator inside the white-space run after the marker and ends at the end of that line |
| `ReadmeTitle.SetextSplitCharacterized` | portfolio/app/page.tsx:53 | `^(.+)\n={3,}$` matches a whole non-empty line, then a bare `\n`, then an underline that is the entire run of `=` and is at least three long and followed by a line end |
| `ReadmeTitle.AtxAt` | portfolio/app/page.tsx:52 | the ATX scanner finds a match exactly when one exists; its capture is the one with the longest `\s+` run, and the capture end is then unique |
| `ReadmeTitle.SetextAt` | portfolio/app/page.tsx:53 | the setext scanner finds a match exactly when one exists; its capture is the whole line, and the capture end is unique |
| `ReadmeTitle.MatchAt` | portfolio/app/page.tsx:52-61 | for each of the four expressions: the match at a position is the greedy choice of the backtracking engine, and `None` means no match starts there |
| `ReadmeTitle.FindFrom` | portfolio/app/page.tsx:52-61 | the scan returns the first position from `from` on where the expression matches, with the greedy capture; `None` means no later position matches |
| `ReadmeTitle.Find` | portfolio/app/page.tsx:52-61 | `s.match(re)` returns the leftmost match with the engine's capture, within bounds, and null exactly when the expression matches nowhere |
| `ReadmeTitle.RegexMatchUnique` | portfolio/app/page.tsx:52-61 | the leftmost greedy match of an expression is unique |
| `ReadmeTitle.FindIsRegexMatch` | portfolio/app/page.tsx:52-61 | any leftmost greedy match is exactly what the scanner returns |
| `ReadmeTitle.ExtractPrefersAtxH1` | portfolio/app/page.tsx:52-56 | if an ATX level-1 heading matches anywhere, the result is the trimmed capture of the leftmost such match, whatever other headings precede it |
| `ReadmeTitle.ExtractSetextH1` | portfolio/app/page.tsx:52-56 | with no ATX level-1 match, a setext `===` match gives the result: the trimmed title line of the leftmost one |
| `ReadmeTitle.ExtractAtxH2` | portfolio/app/page.tsx:59-65 | the ATX `##` expression is consulted only when neither level-1 expression matches, and then its leftmost trimmed capture is the result |
| `ReadmeTitle.ExtractSetextH2` | portfolio/app/page.tsx:59-65 | the setext `---` expression decides only when the other three match nowhere |
| `ReadmeTitle.NoLevel1` | portfolio/app/page.tsx:52-55 | when neither level-1 expression matches anywhere, both level-1 searches return null |
| `ReadmeTitle.FoundMatches` | portfolio/app/page.tsx:52-61 | a non-null `match` result starts at a position where the expression can match |
| `ReadmeTitle.Extract` | portfolio/app/page.tsx:47-68 | the result is null exactly when none of the four expressions matches anywhere in the text; a title has no white space at either end and contains no line terminator |
| `ReadmeTitle.NoneFound` | portfolio/app/page.tsx:52-67 | when all four searches return null, no expression matches at any position |
| `ReadmeTitle.TrimmedCapture` | portfolio/app/page.tsx:56 | the trimmed capture has no white space at either end, and stays within one line when the capture does |
| `ReadmeTitle.ExtractIdempotentTrim` | portfolio/app/page.tsx:52-64 | trimming a title a second time changes nothing |
| `ReadmeTitle.CaptureIsSingleLine` | portfolio/app/page.tsx:52-61 | a capture group `(.+)` never contains a line terminator |
| `ReadmeTitle.AtxNeedsWhiteSpace` | portfolio/app/page.tsx:52 | an ATX match needs a white-space character right after the marker, so `#Title` is not a heading |
| `ReadmeTitle.ExampleHashThenNewline` | portfolio/app/page.tsx:52 | `"#\nTitle"` yields `"Title"`: the `\s+` run may be a line break |
| `ReadmeTitle.ExampleEmptyTitle` | portfolio/app/page.tsx:52-56 | `"#  "` yields the empty title rather than null |
| `PortfolioPage.DisplayTitle` | portfolio/app/page.tsx:85-107 | the title differs from the repository name only when the README response is ok, decodes, and yields a non-empty title; whenever such a title exists it is the one used; a title taken from the README is trimmed |
| `PortfolioPage.DisplayTitleNonEmpty` | portfolio/app/page.tsx:85-103 | a card's title is never empty when the repository name is not |
| `PortfolioPage.DisplayTitleFallsBackToName` | portfolio/app/page.tsx:85-108 | an unreachable README, a non-ok response, a throwing decode, or a missing or empty title all leave the repository name |
| `PortfolioPage.WithTitles` | portfolio/app/page.tsx:83-115 | the mapped list has the input's length; element `i` carries repository `i` unchanged and the title derived from that repository's own README request |
| `PortfolioPage.WithTitlesKeepsRecords` | portfolio/app/page.tsx:110-113 | dropping the added titles gives back exactly the fetched list, in the same order and with every field unchanged |
| `PortfolioPage.PageRepos` | portfolio/app/page.tsx:79-119 | a failed repository fetch leaves the list empty; otherwise the listed records are exactly the fetched ones, and entry `i` carries the title derived from repository `i`'s own README request |
| `PortfolioPage.CardTopics` | portfolio/app/page.tsx:246-257 | the topic block is hidden exactly when the topics are missing or empty; otherwise it shows the first `min(n, 3)` topics in order and no overflow badge |
| `Topics.Render` | src/app/page.tsx:152-166 | no block for missing or empty topics; otherwise the first topics in order, at most three and all of them when fewer than three; a badge exactly when it is asked for and there are more than three topics |
| `Topics.ChipsAndBadgeCoverTopics` | src/app/page.tsx:154-166 | the chips followed by the unshown topics give the whole list, and the chips plus the badge number equal the number of topics |
| `Topics.BadgeOnlyAddsCount` | portfolio/app/page.tsx:246-257 | the portfolio page's block is hidden or shown exactly as the projects page's block is, with the same chips and no badge |
| `ProjectsPage.Listed` | src/app/page.tsx:55 | the filtered list is no longer than the input, and every kept repository was fetched and has no `.github` in its name |
| `ProjectsPage.ListedCounts` | src/app/page.tsx:55 | each repository without `.github` in its name is kept as often as it was fetched, and every other repository is dropped |
| `ProjectsPage.ListedCountsAll` | src/app/page.tsx:55 | for every repository at once: the filtered list holds it as often as the fetched list does when its name has no `.github`, and never otherwise |
| `ProjectsPage.ListedIffNoFragment` | src/app/page.tsx:55 | a fetched repository is kept exactly when `.github` occurs nowhere in its name |
| `ProjectsPage.ListedDistributes` | src/app/page.tsx:55 | filtering a concatenation gives the concatenation of the filtered parts, so the order is kept |
| `ProjectsPage.ListedIdempotent` | src/app/page.tsx:55 | filtering twice gives the same list as filtering once |
| `ProjectsPage.ListedIsSubsequence` | src/app/page.tsx:55 | the kept repositories appear in the fetched list at strictly increasing positions |
| `ProjectsPage.ListedEmbeds` | src/app/page.tsx:55 | some increasing choice of positions picks the kept repositories out of the fetched list |
| `ProjectsPage.PageRepos` | src/app/page.tsx:53-61 | a failed fetch shows no repositories; otherwise each fetched repository without `.github` in its name is shown as often as it was fetched, no other repository is shown, and the shown ones keep their fetched order |
| `ProjectsPage.CardTopics` | src/app/page.tsx:152-166 | the block is hidden exactly when the topics are missing or empty; otherwise the chips are the first `min(n, 3)` topics in order, and the badge reads `n - 3` exactly when `n > 3` and is absent otherwise |
| `CodingDays.CollectActiveDays` | portfolio/components/coding-days.tsx:27-34 | the `forEach` loop adding date keys builds exactly the set of days of the in-window events |
| `CodingDays.ActiveDayWitness` | portfolio/components/coding-days.tsx:28-33 | a day is active exactly when some event with a valid timestamp in `[start, now]`, both ends included, falls on it |
| `CodingDays.EstimateThreshold` | portfolio/components/coding-days.tsx:37-43 | with at least 10 active days the estimate is their number; with fewer it is the fallback, which depends only on the elapsed days |
| `CodingDays.ThresholdEdge` | portfolio/components/coding-days.tsx:37-43 | 9 active days give the fallback and 10 give 10 |
| `CodingDays.EstimateIgnoresOrderAndRepeats` | portfolio/components/coding-days.tsx:27-33 | reordering or duplicating events leaves the estimate unchanged |
| `CodingDays.EstimateIgnoresOutsideWindow` | portfolio/components/coding-days.tsx:30 | events outside the window and events with unparsable timestamps do not affect the estimate |
| `CodingDays.FailureIsLikeNoEvents` | portfolio/components/coding-days.tsx:44-47 | a failed events request gives the same value as an empty event list |
| `CodingDays.ActiveDaysAtMostEvents` | portfolio/components/coding-days.tsx:27-33 | there are never more active days than events |
| `CodingDays.Estimate` | portfolio/components/coding-days.tsx:16-47 | when the year starts at a UTC midnight no later than now, every path, the `catch` included, gives a value from 0 to the elapsed days plus one |
| `CodingDays.ActiveDaysFitWindow` | portfolio/components/coding-days.tsx:27-34 | when the year starts at a UTC midnight no later than now, there are at most as many active days as calendar days in the window |
| `CodingDays.ExampleNoEvents` | portfolio/components/coding-days.tsx:39-40 | no events 200 days into the year give 140 |
| `CodingDays.ExampleSparse` | portfolio/components/coding-days.tsx:37-40 | five events 100 days into the year are too sparse and give 70 |

## Left out

- Network access, `Promise.all`, React state (`useState`, `useEffect`), loading indicators and JSX rendering. Requests become parameters: `ReadmeResponse`, `Feed`, and the optional repository lists.
- Base64 decoding (`atob`). It is a platform function and becomes the `decode` parameter. `None` stands for the exception it throws.
- Date parsing and the clock. `created_at` is taken as an already parsed `Stamp`, where `None` is an Invalid Date. The start of the year and `now` are integer-millisecond parameters.
- `CodingDays.Estimate`: its bound assumes the start of the year is a UTC midnight no later than `now`. The source takes the year from local time (`getFullYear`) but builds its start in UTC. Just after New Year in a zone ahead of UTC this can put the start after `now`, and then the fallback can be negative.
- The `catch` branch of `calculateCodingDays` reads the clock again. The model uses the same `now` on both paths.
- `CodingDays.Fallback`: computed in exact arithmetic as `floor(7 * d / 10)`. The source multiplies a double by `0.7`, which can land just below an integer. For example `360 * 0.7` is `251.99999999999997`, so the page can show one less.
- The general regular-expression engine. Only the four heading expressions are modelled.
- The profile header (`name || login`, location, company, links) and the repository card fields other than topics and titles. These are rendering only.
- `portfolio/app/layout.tsx`, `src/app/layout.tsx`, `next.config.js` and `portfolio/next.config.ts`. They hold page metadata, fonts and build configuration, and are not part of this model.
