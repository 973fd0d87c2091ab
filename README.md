# Accessibility crawler: text pipeline model

A Dafny model of the core of `crawlAndEvaluateAcessibility.js`. The tool
visits a root URL, audits it with the axe-core engine, and collects the
root page's same-origin links without fragments. It then audits each link
in turn and writes a single markdown report, into a directory named after
the root URL.

The browser and the audit engine are treated as inputs:

- the root page arrives as a `Result<RootPage>`, holding its origin and the
  absolute `href` of every anchor, or the error that stopped it loading;
- auditing is a capability `audit: JsString -> Result<seq<Violation>>`.

With those given, the rest of the program is deterministic text processing,
and that is what the model covers.

Modules:

- `JsText` (js_text.dfy): JavaScript strings.
  - Strings are sequences of UTF-16 code units (`CodeUnit`).
  - `Utf16` gives the code units of a source literal.
  - `StartsWith` models `startsWith`.
  - `Decimal` models how a count or index is written inside a template
    literal, and `DecimalValue` is the reference reading it is checked
    against.
- `Sanitize` (sanitize.dfy): `sanitizeDirectoryName`. `ReplaceNonAlnum` is
  the global regex replace, and `LowerAscii` is the lower-casing.
- `Links` (links.dfy): the filter and deduplication that end
  `collectLinks`.
  - `FilterLinks` models `.filter`.
  - `Dedup` models `[...new Set(...)]`.
  - `CollectLinks` chains the two.
- `Markdown` (markdown.dfy): `generateMarkdownReportForPage`.
  - `RenderPage` is the imperative renderer: it grows a string with `+=`
    over the violations, and `AppendViolation` does the same over one
    violation's nodes.
  - Both are proved to equal the pure definition `PageSection`.
- `Crawl` (crawl.dfy): `crawlAndEvaluate`.
  - `CrawlAndEvaluate` is the imperative assembly, and `AppendChildSections`
    is its `for...of` loop over the links.
  - It is proved equal to the pure definition `CrawlSpec`, which uses
    `Report` and `AuditLinks`.

## Model

| member | source | states |
|---|---|---|
| Sanitize.SanitizeAt | crawlAndEvaluateAcessibility.js:7-9 | the directory name has the URL's length; at each position an ASCII letter or digit stays, lower-cased, and every other code unit becomes `_` |
| Sanitize.SanitizeAlphabet | crawlAndEvaluateAcessibility.js:7-9 | every code unit of a directory name is in `[a-z0-9_]` |
| Sanitize.SanitizeIdempotent | crawlAndEvaluateAcessibility.js:7-9 | sanitising a directory name again leaves it unchanged |
| Sanitize.SanitizeSameIff | crawlAndEvaluateAcessibility.js:8 | two URLs map to the same directory exactly when they have the same length and agree position by position, up to letter case and up to which non-alphanumeric unit stands there |
| JsText.DecimalRoundTrip | crawlAndEvaluateAcessibility.js:31 | reading back the decimal numeral written for a count gives the count |
| JsText.DecimalInjective | crawlAndEvaluateAcessibility.js:37 | distinct violation numbers get distinct numerals |
| JsText.Decimal | crawlAndEvaluateAcessibility.js:31 | the numeral is non-empty and all digits, has no leading zero, and is one digit exactly for numbers below 10 |
| Links.FilterLinksMembers | crawlAndEvaluateAcessibility.js:56-58 | an href survives the filter exactly when it is one of the page's hrefs, starts with the origin and contains no `#` |
| Links.FilterLinksKeepsKept | crawlAndEvaluateAcessibility.js:58 | filtering a list whose every entry passes the test returns it unchanged |
| Links.DedupMembers | crawlAndEvaluateAcessibility.js:61 | the deduplicated list holds exactly the values of its input |
| Links.DedupNoDuplicates | crawlAndEvaluateAcessibility.js:61 | the deduplicated list has no two equal entries |
| Links.DedupFirstSeenOrder | crawlAndEvaluateAcessibility.js:61 | each value of the deduplicated list occurs in its input, and the values appear in the order of their first occurrence there |
| Links.DedupOfDistinct | crawlAndEvaluateAcessibility.js:61 | a list without duplicates is its own deduplication |
| Links.FilterPreservesFirstOrder | crawlAndEvaluateAcessibility.js:56-58 | for two kept hrefs, the filter keeps the order of their first occurrences |
| Links.CollectLinksSpec | crawlAndEvaluateAcessibility.js:56-61 | a collected link is exactly one of the page's hrefs that starts with the origin and has no `#`; no link is collected twice; links appear in the order of their first occurrence among the page's hrefs |
| Links.CollectLinksIdempotent | crawlAndEvaluateAcessibility.js:56-61 | collecting from an already collected link list returns that list |
| Markdown.RenderPage | crawlAndEvaluateAcessibility.js:28-50 | the `+=` loop over the violations produces exactly the page section `PageSection(violations, url)` |
| Markdown.AppendViolation | crawlAndEvaluateAcessibility.js:36-45 | one callback of the outer `forEach`, including its inner `forEach` over the nodes, appends exactly the block of violation `index + 1` |
| Markdown.SectionStartsWithHeader | crawlAndEvaluateAcessibility.js:30-31 | every page section begins with `## <url>`, a blank line, `- **Total Violations**: <count>` and a blank line |
| Markdown.SectionWithoutViolations | crawlAndEvaluateAcessibility.js:30-34 | a page without violations gets exactly that header with a count of `0`, followed by `- **No violations found.**` and a blank line |
| Markdown.ViolationBlocksGrow | crawlAndEvaluateAcessibility.js:36-45 | the blocks of the first k violations are a prefix of the blocks of all of them, so later violations never rewrite earlier text |
| Markdown.SectionPlacesViolation | crawlAndEvaluateAcessibility.js:36-45 | with violations, violation i (counted from 0) is rendered as block number i + 1, directly after the blocks of violations 0 to i-1; each block is its `### ` title, WCAG Reference, Impact and Elements lines, its node blocks and a blank line |
| Markdown.NodeBlocksGrow | crawlAndEvaluateAcessibility.js:41-43 | the code blocks of the first k nodes are a prefix of the code blocks of all of them |
| Markdown.BlockPlacesNode | crawlAndEvaluateAcessibility.js:40-44 | inside a violation's block, node j gets one html code block, right after the Elements line and the blocks of nodes 0 to j-1 |
| Crawl.CrawlAndEvaluate | crawlAndEvaluateAcessibility.js:64-87 | the run as written, with its early exits on failure and its `+=` loop over the links, returns exactly `CrawlSpec`: a failure, or the sanitised directory name together with the report |
| Crawl.AppendChildSections | crawlAndEvaluateAcessibility.js:80-84 | the `for...of` loop over the links fails with the error `AuditLinks` reports for them, or else appends to the report the sections of exactly the pages `AuditLinks` gives, in link order |
| Crawl.SectionsGrow | crawlAndEvaluateAcessibility.js:80-84 | the sections of the first k child pages are a prefix of the sections of all of them |
| Crawl.ReportStartsWithRoot | crawlAndEvaluateAcessibility.js:71-72 | a report opens with `# Accessibility Evaluation Report`, a blank line and the root page's section |
| Crawl.ReportPlacesChild | crawlAndEvaluateAcessibility.js:80-84 | child page i's section comes right after the root's section and the sections of children 0 to i-1 |
| Crawl.ReportNoticeIffNoChildren | crawlAndEvaluateAcessibility.js:77-85 | the report is the title, the root section and the yellow "No child pages found." notice exactly when there are no child pages |
| Crawl.AuditLinksFailureSticks | crawlAndEvaluateAcessibility.js:80-81 | once auditing a prefix of the links fails, the whole loop fails with that error |
| Crawl.AuditLinksSuccess | crawlAndEvaluateAcessibility.js:80-83 | auditing the links succeeds exactly when every link's audit succeeds, and it then gives one page per link, in link order, carrying that link's violations |
| Crawl.AuditLinksFirstFailure | crawlAndEvaluateAcessibility.js:80-81 | a failed loop fails with the error of the first link whose audit failed, and every earlier link's audit succeeded |
| Crawl.CrawlSucceedsIff | crawlAndEvaluateAcessibility.js:68-84 | a run produces a report exactly when the root page loads, the root's audit succeeds and every collected link's audit succeeds |
| Crawl.CrawlChildPages | crawlAndEvaluateAcessibility.js:74-84 | a successful run has one child page per collected link, in link order, each with its link's audited violations; every child URL starts with the origin and has no `#`; no URL appears twice among the children |
| Crawl.CrawlNoticeIffNoLinks | crawlAndEvaluateAcessibility.js:74-78 | a successful run's report is the title, the root section and the notice exactly when the root page yielded no links |
| Crawl.CrawlFailureIsFirstError | crawlAndEvaluateAcessibility.js:68-81 | a failed run reports the first error met: the root page's load, then the root's audit, then the audits of the links in order |

Rendering is a function of `(violations, url)`: `RenderPage` returns
`PageSection(violations, url)`, so equal inputs give identical text.

## Left out

- Puppeteer is not modelled: launching the browser, `page.goto` with its
  network-idle wait, `addScriptTag`, `page.evaluate` and `browser.close`.
  These are foreign asynchronous browser calls. Their outcomes are inputs:
  the root page's `Result<RootPage>` and the `audit` capability.
- The axe-core rule engine is not modelled. It is an external library, and
  its violations are given data. The `impact` field is kept as the string the
  engine gives, because it is rendered verbatim.
- `audit` is a function of the URL alone. If the root URL is also collected
  as a link, the model gives both audits the same violations. Two real runs
  of the engine could differ.
- The `page.evaluate` that reads the anchors and `window.location.origin` is
  treated as part of loading the root page. A failure of that read is
  therefore reported before the root's audit. In the source, it comes after.
- The browser's resolution of relative hrefs (`anchor.href`) is not
  modelled, because the DOM does it. The hrefs are taken as already
  absolute.
- The file system is not modelled: `existsSync`, `mkdirSync`, `path.join`
  and `writeFileSync`. This is I/O. The model's result is the directory name
  and the report text that would be written to
  `accessibility-evaluation-report.md` inside it.
- Logging, argument reading and process exit are not modelled: the
  `console.log` and `console.error` calls, reading `process.argv`, and the
  top-level `.catch`. That handler only logs, so a failed run is modelled as
  a `Failure` value and no report.
- Asynchrony is not modelled. The awaited calls run one after another, so
  the model is sequential code.
- `Sanitize.LowerAscii`: `toLowerCase` lowers only ASCII letters in the
  model. The input it receives is always `[A-Za-z0-9_]` after the replace,
  so this loses nothing.
- JavaScript numbers are reduced to naturals in `JsText.Decimal`. Counts and
  indices stay far below 2^53, where `${n}` writes the plain decimal numeral.

Where the code and the design description of the system differ, the model
follows the code:

- The root page is always audited and always gets the first section.
- The origin test is a plain text prefix test, `href.startsWith(origin)`. It
  is not a comparison of scheme, host and port. For example, an href on a
  host whose name merely extends the origin's host text passes.
- A failed audit anywhere aborts the whole run with no report. There is no
  per-page isolation of failures.
- The top-level handler does not set a non-zero exit status; it only logs.
