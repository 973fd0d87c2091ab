/** `crawlAndEvaluate(rootUrl)`: audit the root page, collect its same-origin
    links, audit each link in turn, and assemble one markdown report from the
    root's section followed by either a "no child pages" notice or one
    section per link. The browser and the audit engine are inputs: the root
    page's origin and anchor hrefs, and an audit capability that yields the
    violations of a URL or fails. Any failure ends the run with no report. */
module Crawl {
  import opened JsText
  import opened Sanitize
  import opened Links
  import opened Markdown

  /** Why a run stopped: the browser could not load a page, or the audit
      engine could not be injected or run. */
  datatype CrawlError = NavigationError | AuditExecutionError

  datatype Result<T> = Success(value: T) | Failure(error: CrawlError)

  /** The loaded root page, reduced to what the crawl reads from it: its
      `window.location.origin` and the absolute `href` of each anchor, in
      document order. */
  datatype RootPage = RootPage(origin: JsString, hrefs: seq<JsString>)

  /** One audited page. */
  datatype PageResult = PageResult(url: JsString, violations: seq<Violation>)

  /** What the run hands to the file system: the directory to create and
      the text of the report file inside it. */
  datatype CrawlOutput = CrawlOutput(directory: JsString, report: JsString)

  const ReportTitle: JsString := Utf16("# Accessibility Evaluation Report\n\n")
  /** The notice for a root page without same-origin links: a yellow `h3`. */
  const NoticeOpen: JsString := Utf16("<h3 style=\"background-color:yellow;\">")
  const NoticeText: JsString := Utf16("No child pages found.")
  const NoticeClose: JsString := Utf16("</h3>\n\n")
  const NoChildPagesNotice: JsString := NoticeOpen + NoticeText + NoticeClose

  function Section(page: PageResult): JsString {
    PageSection(page.violations, page.url)
  }

  /** The sections of the pages, in order. */
  function Sections(pages: seq<PageResult>): JsString {
    if pages == [] then [] else Sections(pages[..|pages| - 1]) + Section(pages[|pages| - 1])
  }

  /** The report for an audited root page and its audited child pages. */
  function Report(root: PageResult, children: seq<PageResult>): JsString {
    ReportTitle + Section(root) + if children == [] then NoChildPagesNotice else Sections(children)
  }

  /** Auditing the links one after another, stopping at the first failure. */
  function AuditLinks(links: seq<JsString>, audit: JsString -> Result<seq<Violation>>): Result<seq<PageResult>> {
    if links == [] then Success([])
    else
      match AuditLinks(links[..|links| - 1], audit)
      case Failure(e) => Failure(e)
      case Success(pages) =>
        var last := links[|links| - 1];
        match audit(last)
        case Failure(e) => Failure(e)
        case Success(violations) => Success(pages + [PageResult(last, violations)])
  }

  /** The whole run: load the root page, audit it, collect its links, audit
      each link, and name the directory after the root URL. */
  function CrawlSpec(rootUrl: JsString, rootPage: Result<RootPage>, audit: JsString -> Result<seq<Violation>>): Result<CrawlOutput> {
    match rootPage
    case Failure(e) => Failure(e)
    case Success(page) =>
      match audit(rootUrl)
      case Failure(e) => Failure(e)
      case Success(rootViolations) =>
        match AuditLinks(CollectLinks(page.hrefs, page.origin), audit)
        case Failure(e) => Failure(e)
        case Success(children) =>
          Success(CrawlOutput(SanitizeDirectoryName(rootUrl), Report(PageResult(rootUrl, rootViolations), children)))
  }

  lemma SectionsTakeSnoc(pages: seq<PageResult>, i: nat)
    requires i < |pages|
    ensures Sections(pages[..i + 1]) == Sections(pages[..i]) + Section(pages[i])
  {
    TakeSnoc(pages, i);
    assert pages[..i + 1][..i] == pages[..i];
  }

  lemma SectionsSnoc(pages: seq<PageResult>, page: PageResult)
    ensures Sections(pages + [page]) == Sections(pages) + Section(page)
  {
    assert (pages + [page])[..|pages|] == pages;
  }

  /** One more link audited, given the pages of the links before it. */
  lemma AuditLinksStep(links: seq<JsString>, audit: JsString -> Result<seq<Violation>>, i: nat, pages: seq<PageResult>)
    requires i < |links| && AuditLinks(links[..i], audit) == Success(pages)
    ensures audit(links[i]).Failure? ==> AuditLinks(links[..i + 1], audit) == Failure(audit(links[i]).error)
    ensures audit(links[i]).Success? ==>
              AuditLinks(links[..i + 1], audit) == Success(pages + [PageResult(links[i], audit(links[i]).value)])
  {
    TakeSnoc(links, i);
    assert links[..i + 1][..i] == links[..i];
  }

  /** A failure on a prefix of the links is the failure of the whole list. */
  lemma {:induction false} AuditLinksFailureSticks(links: seq<JsString>, audit: JsString -> Result<seq<Violation>>, k: nat)
    requires k <= |links| && AuditLinks(links[..k], audit).Failure?
    ensures AuditLinks(links, audit) == AuditLinks(links[..k], audit)
    decreases |links|
  {
    if k < |links| {
      var init := links[..|links| - 1];
      assert init[..k] == links[..k];
      AuditLinksFailureSticks(init, audit, k);
    } else {
      TakeAll(links);
    }
  }

  /** Auditing succeeds with one page per link. */
  lemma {:induction false} AuditLinksLength(links: seq<JsString>, audit: JsString -> Result<seq<Violation>>)
    requires AuditLinks(links, audit).Success?
    ensures |AuditLinks(links, audit).value| == |links|
  {
    if links != [] {
      AuditLinksLength(links[..|links| - 1], audit);
    }
  }

  /** `crawlAndEvaluate`: the report string is grown by `+=` as the source
      does, and the run's outcome is CrawlSpec. */
  method CrawlAndEvaluate(rootUrl: JsString, rootPage: Result<RootPage>, audit: JsString -> Result<seq<Violation>>)
    returns (outcome: Result<CrawlOutput>)
    ensures outcome == CrawlSpec(rootUrl, rootPage, audit)
  {
    if rootPage.Failure? {
      return Failure(rootPage.error);
    }
    var page := rootPage.value;

    var rootAudit := audit(rootUrl);
    if rootAudit.Failure? {
      return Failure(rootAudit.error);
    }
    var rootViolations := rootAudit.value;
    var overallReport := ReportTitle;
    var rootSection := RenderPage(rootViolations, rootUrl);
    overallReport := overallReport + rootSection;

    var links := CollectLinks(page.hrefs, page.origin);
    if |links| == 0 {
      overallReport := overallReport + NoChildPagesNotice;
    } else {
      var appended := AppendChildSections(overallReport, links, audit);
      if appended.Failure? {
        return Failure(appended.error);
      }
      AuditLinksLength(links, audit);
      overallReport := appended.value;
    }

    var rootDirName := SanitizeDirectoryName(rootUrl);
    outcome := Success(CrawlOutput(rootDirName, overallReport));
  }

  /** The `for...of` loop of `crawlAndEvaluate`: audit each link in turn and
      append its section to the report, stopping at the first failure. */
  method AppendChildSections(report: JsString, links: seq<JsString>, audit: JsString -> Result<seq<Violation>>)
    returns (outcome: Result<JsString>)
    ensures outcome == match AuditLinks(links, audit)
                       case Failure(e) => Failure(e)
                       case Success(children) => Success(report + Sections(children))
  {
    var overallReport := report;
    ghost var children: seq<PageResult> := [];
    for i := 0 to |links|
      invariant AuditLinks(links[..i], audit) == Success(children)
      invariant overallReport == report + Sections(children)
    {
      var result := audit(links[i]);
      AuditLinksStep(links, audit, i, children);
      if result.Failure? {
        AuditLinksFailureSticks(links, audit, i + 1);
        return Failure(result.error);
      }
      var violations := result.value;
      var pageReport := RenderPage(violations, links[i]);
      ghost var page := PageResult(links[i], violations);
      SectionsSnoc(children, page);
      Assoc(report, Sections(children), pageReport);
      overallReport := overallReport + pageReport;
      children := children + [page];
    }
    TakeAll(links);
    outcome := Success(overallReport);
  }

  // The report

  lemma {:induction false} SectionsGrow(pages: seq<PageResult>, k: nat)
    requires k <= |pages|
    ensures StartsWith(Sections(pages), Sections(pages[..k]))
    decreases |pages|
  {
    if k < |pages| {
      var init := pages[..|pages| - 1];
      assert init[..k] == pages[..k];
      SectionsGrow(init, k);
      StartsWithAppend(Sections(init), Section(pages[|pages| - 1]));
      StartsWithTrans(Sections(pages), Sections(init), Sections(pages[..k]));
    } else {
      TakeAll(pages);
    }
  }

  /** A report opens with its title and then the root page's section. */
  lemma ReportStartsWithRoot(root: PageResult, children: seq<PageResult>)
    ensures StartsWith(Report(root, children), ReportTitle + Section(root))
  {
    StartsWithAppend(ReportTitle + Section(root), if children == [] then NoChildPagesNotice else Sections(children));
  }

  /** Child page i's section follows the sections of children 0 .. i-1,
      right after the root's section: children keep link order and none is
      dropped or rendered twice. */
  lemma ReportPlacesChild(root: PageResult, children: seq<PageResult>, i: nat)
    requires i < |children|
    ensures StartsWith(Report(root, children),
                       ReportTitle + Section(root) + Sections(children[..i]) + Section(children[i]))
  {
    var head := ReportTitle + Section(root);
    SectionsGrow(children, i + 1);
    SectionsTakeSnoc(children, i);
    StartsWithUnderPrefix(head, Sections(children), Sections(children[..i + 1]));
    Assoc(head, Sections(children[..i]), Section(children[i]));
  }

  /** Every page section, and so every non-empty run of them, starts with `#`. */
  lemma SectionsStartWithHash(pages: seq<PageResult>)
    requires pages != []
    ensures Sections(pages) != [] && Sections(pages)[0] == Hash
  {
    var first := Section(pages[0]);
    SectionsGrow(pages, 1);
    assert pages[..1][..0] == [];
    assert Sections(pages[..1]) == first;
    SectionStartsWithHeader(pages[0].violations, pages[0].url);
    Utf16Head("## ");
    assert first[0] == HeadingOpen[0];
  }

  lemma NoticeStartsWithLessThan()
    ensures NoChildPagesNotice != [] && NoChildPagesNotice[0] == 0x3C
  {
    Utf16Head("<h3 style=\"background-color:yellow;\">");
  }

  lemma AppendCancel(head: JsString, a: JsString, b: JsString)
    requires head + a == head + b
    ensures a == b
  {
    assert (head + a)[|head|..] == a;
    assert (head + b)[|head|..] == b;
  }

  /** The notice comes right after the root's section exactly when there
      are no child pages. */
  lemma ReportNoticeIffNoChildren(root: PageResult, children: seq<PageResult>)
    ensures Report(root, children) == ReportTitle + Section(root) + NoChildPagesNotice <==> children == []
  {
    if children != [] && Report(root, children) == ReportTitle + Section(root) + NoChildPagesNotice {
      AppendCancel(ReportTitle + Section(root), Sections(children), NoChildPagesNotice);
      SectionsStartWithHash(children);
      NoticeStartsWithLessThan();
      assert false;
    }
  }

  // Auditing the links

  /** Auditing the links succeeds exactly when every link's audit does, and
      then yields one page per link, in link order, with that link's
      violations. */
  lemma {:induction false} AuditLinksSuccess(links: seq<JsString>, audit: JsString -> Result<seq<Violation>>)
    ensures AuditLinks(links, audit).Success? <==> forall i | 0 <= i < |links| :: audit(links[i]).Success?
    ensures AuditLinks(links, audit).Success? ==>
              var pages := AuditLinks(links, audit).value;
              |pages| == |links| &&
              forall i | 0 <= i < |links| :: pages[i] == PageResult(links[i], audit(links[i]).value)
  {
    if links != [] {
      var init := links[..|links| - 1];
      AuditLinksSuccess(init, audit);
      assert forall i | 0 <= i < |init| :: init[i] == links[i];
      if !(forall i | 0 <= i < |links| :: audit(links[i]).Success?) {
        var i :| 0 <= i < |links| && audit(links[i]).Failure?;
        if i < |init| {
          assert audit(init[i]).Failure?;
        }
      }
    }
  }

  /** A failed audit of the links reports the error of the first link whose
      audit failed. */
  lemma {:induction false} AuditLinksFirstFailure(links: seq<JsString>, audit: JsString -> Result<seq<Violation>>)
    requires AuditLinks(links, audit).Failure?
    ensures exists k | 0 <= k < |links| ::
              audit(links[k]) == Failure(AuditLinks(links, audit).error) &&
              forall j | 0 <= j < k :: audit(links[j]).Success?
  {
    var init := links[..|links| - 1];
    var n := |links| - 1;
    if AuditLinks(init, audit).Failure? {
      AuditLinksFirstFailure(init, audit);
      var k :| 0 <= k < |init| && audit(init[k]) == Failure(AuditLinks(init, audit).error) &&
               forall j | 0 <= j < k :: audit(init[j]).Success?;
      assert forall j | 0 <= j <= k :: init[j] == links[j];
    } else {
      AuditLinksSuccess(init, audit);
      assert forall j | 0 <= j < n :: init[j] == links[j];
      assert audit(links[n]) == Failure(AuditLinks(links, audit).error);
    }
  }

  // The run

  /** A run produces a report exactly when the root page loads, the root's
      audit succeeds and every collected link's audit succeeds. */
  lemma CrawlSucceedsIff(rootUrl: JsString, rootPage: Result<RootPage>, audit: JsString -> Result<seq<Violation>>)
    ensures CrawlSpec(rootUrl, rootPage, audit).Success? <==>
              rootPage.Success? && audit(rootUrl).Success? &&
              var links := CollectLinks(rootPage.value.hrefs, rootPage.value.origin);
              forall i | 0 <= i < |links| :: audit(links[i]).Success?
  {
    if rootPage.Success? {
      AuditLinksSuccess(CollectLinks(rootPage.value.hrefs, rootPage.value.origin), audit);
    }
  }

  /** A successful run writes into the directory named after the root URL
      the report of the root page and of the pages the collected links gave. */
  lemma CrawlReportContents(rootUrl: JsString, rootPage: Result<RootPage>, audit: JsString -> Result<seq<Violation>>)
    requires CrawlSpec(rootUrl, rootPage, audit).Success?
    ensures rootPage.Success? && audit(rootUrl).Success?
    ensures AuditLinks(CollectLinks(rootPage.value.hrefs, rootPage.value.origin), audit).Success?
    ensures CrawlSpec(rootUrl, rootPage, audit).value ==
              CrawlOutput(SanitizeDirectoryName(rootUrl),
                          Report(PageResult(rootUrl, audit(rootUrl).value),
                                 AuditLinks(CollectLinks(rootPage.value.hrefs, rootPage.value.origin), audit).value))
  {
  }

  /** The child pages of a successful run: one per collected link, in link
      order, each with its link's audited violations; every child URL starts
      with the origin and has no `#`, and no URL is audited as a child twice. */
  lemma CrawlChildPages(rootUrl: JsString, rootPage: Result<RootPage>, audit: JsString -> Result<seq<Violation>>)
    requires CrawlSpec(rootUrl, rootPage, audit).Success?
    ensures rootPage.Success?
    ensures var links := CollectLinks(rootPage.value.hrefs, rootPage.value.origin);
            AuditLinks(links, audit).Success? &&
            var children := AuditLinks(links, audit).value;
            && |children| == |links|
            && (forall i | 0 <= i < |links| ::
                  children[i].url == links[i] && audit(links[i]) == Success(children[i].violations))
            && (forall i | 0 <= i < |children| :: Keep(children[i].url, rootPage.value.origin))
            && (forall i, j | 0 <= i < j < |children| :: children[i].url != children[j].url)
  {
    CrawlReportContents(rootUrl, rootPage, audit);
    var page := rootPage.value;
    CollectedLinksKept(page.hrefs, page.origin);
    PagesOfKeptLinks(CollectLinks(page.hrefs, page.origin), page.origin, audit);
  }

  lemma CollectedLinksKept(hrefs: seq<JsString>, origin: JsString)
    ensures var links := CollectLinks(hrefs, origin);
            NoDuplicates(links) && forall i | 0 <= i < |links| :: Keep(links[i], origin)
  {
    var links := CollectLinks(hrefs, origin);
    CollectLinksSpec(hrefs, origin);
    forall i | 0 <= i < |links| ensures Keep(links[i], origin) {
      assert links[i] in links;
    }
  }

  /** The pages audited from distinct kept links carry distinct kept URLs. */
  lemma PagesOfKeptLinks(links: seq<JsString>, origin: JsString, audit: JsString -> Result<seq<Violation>>)
    requires AuditLinks(links, audit).Success?
    requires NoDuplicates(links) && forall i | 0 <= i < |links| :: Keep(links[i], origin)
    ensures var children := AuditLinks(links, audit).value;
            && |children| == |links|
            && (forall i | 0 <= i < |links| ::
                  children[i].url == links[i] && audit(links[i]) == Success(children[i].violations))
            && (forall i | 0 <= i < |children| :: Keep(children[i].url, origin))
            && (forall i, j | 0 <= i < j < |children| :: children[i].url != children[j].url)
  {
    AuditLinksSuccess(links, audit);
  }

  /** A successful run's report carries the notice exactly when the root
      page yielded no links. */
  lemma CrawlNoticeIffNoLinks(rootUrl: JsString, rootPage: Result<RootPage>, audit: JsString -> Result<seq<Violation>>)
    requires CrawlSpec(rootUrl, rootPage, audit).Success?
    ensures rootPage.Success? && audit(rootUrl).Success?
    ensures CrawlSpec(rootUrl, rootPage, audit).value.report
              == ReportTitle + PageSection(audit(rootUrl).value, rootUrl) + NoChildPagesNotice
            <==> CollectLinks(rootPage.value.hrefs, rootPage.value.origin) == []
  {
    CrawlReportContents(rootUrl, rootPage, audit);
    var links := CollectLinks(rootPage.value.hrefs, rootPage.value.origin);
    ReportNoticeIffNoChildren(PageResult(rootUrl, audit(rootUrl).value), AuditLinks(links, audit).value);
  }

  /** A failed run fails with the first error met: loading the root page,
      then auditing the root, then auditing the links in order. */
  lemma CrawlFailureIsFirstError(rootUrl: JsString, rootPage: Result<RootPage>, audit: JsString -> Result<seq<Violation>>)
    requires CrawlSpec(rootUrl, rootPage, audit).Failure?
    ensures var e := CrawlSpec(rootUrl, rootPage, audit).error;
            rootPage == Failure(e) ||
            (rootPage.Success? && audit(rootUrl) == Failure(e)) ||
            (rootPage.Success? && audit(rootUrl).Success? &&
             var links := CollectLinks(rootPage.value.hrefs, rootPage.value.origin);
             exists k | 0 <= k < |links| ::
               audit(links[k]) == Failure(e) && forall j | 0 <= j < k :: audit(links[j]).Success?)
  {
    if rootPage.Success? && audit(rootUrl).Success? {
      AuditLinksFirstFailure(CollectLinks(rootPage.value.hrefs, rootPage.value.origin), audit);
    }
  }
}
