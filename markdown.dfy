/** The markdown section of one audited page, as `generateMarkdownReportForPage`
    builds it: a heading, the violation count, then either a "none found"
    line or one numbered block per violation with one html code block per
    offending element. */
module Markdown {
  import opened JsText

  /** One offending DOM element, as its raw markup. */
  datatype ViolationNode = ViolationNode(html: JsString)

  /** One failed accessibility rule as the audit engine reports it. The
      impact is whatever string the engine gives; it is rendered verbatim. */
  datatype Violation = Violation(description: JsString, helpUrl: JsString, impact: JsString, nodes: seq<ViolationNode>)

  const HeadingOpen: JsString := Utf16("## ")
  const BlankLine: JsString := Utf16("\n\n")
  const Newline: JsString := Utf16("\n")
  const TotalLabel: JsString := Utf16("- **Total Violations**: ")
  const NoViolationsLine: JsString := Utf16("- **No violations found.**\n\n")
  const ViolationOpen: JsString := Utf16("### ")
  const NumberSeparator: JsString := Utf16(". ")
  const ReferenceLabel: JsString := Utf16("- **WCAG Reference**: ")
  const ImpactLabel: JsString := Utf16("- **Impact**: ")
  const ElementsLine: JsString := Utf16("- **Elements**:\n")
  const CodeOpen: JsString := Utf16("  - ```html\n    ")
  const CodeClose: JsString := Utf16("\n    ```\n")

  /** `## <url>` and a blank line. */
  function HeadingLine(url: JsString): JsString {
    HeadingOpen + url + BlankLine
  }

  /** `- **Total Violations**: <count>` and a blank line. */
  function CountLine(count: nat): JsString {
    TotalLabel + Decimal(count) + BlankLine
  }

  function Header(url: JsString, count: nat): JsString {
    HeadingLine(url) + CountLine(count)
  }

  /** `### <number>. <description>` */
  function TitleLine(number: nat, v: Violation): JsString {
    ViolationOpen + Decimal(number) + NumberSeparator + v.description + Newline
  }

  function ReferenceLine(v: Violation): JsString {
    ReferenceLabel + v.helpUrl + Newline
  }

  function ImpactLine(v: Violation): JsString {
    ImpactLabel + v.impact + Newline
  }

  /** The code block of one element. */
  function NodeBlock(n: ViolationNode): JsString {
    CodeOpen + n.html + CodeClose
  }

  /** The code blocks of the elements, in order. */
  function NodeBlocks(nodes: seq<ViolationNode>): JsString {
    if nodes == [] then [] else NodeBlocks(nodes[..|nodes| - 1]) + NodeBlock(nodes[|nodes| - 1])
  }

  /** The lines of violation number `number` up to its element list. */
  function ViolationLead(number: nat, v: Violation): JsString {
    TitleLine(number, v) + ReferenceLine(v) + ImpactLine(v) + ElementsLine
  }

  /** Violation number `number`: its lines, its elements in order, a blank line. */
  function ViolationBlock(number: nat, v: Violation): JsString {
    ViolationLead(number, v) + NodeBlocks(v.nodes) + Newline
  }

  /** The blocks of the violations, numbered from 1 in input order. */
  function ViolationBlocks(violations: seq<Violation>): JsString {
    if violations == [] then []
    else ViolationBlocks(violations[..|violations| - 1]) + ViolationBlock(|violations|, violations[|violations| - 1])
  }

  /** The section a page with these violations gets in the report. */
  function PageSection(violations: seq<Violation>, url: JsString): JsString {
    Header(url, |violations|)
    + if |violations| == 0 then NoViolationsLine else ViolationBlocks(violations)
  }

  lemma NodeBlocksTakeSnoc(nodes: seq<ViolationNode>, j: nat)
    requires j < |nodes|
    ensures NodeBlocks(nodes[..j + 1]) == NodeBlocks(nodes[..j]) + NodeBlock(nodes[j])
  {
    TakeSnoc(nodes, j);
    assert nodes[..j + 1][..j] == nodes[..j];
  }

  lemma ViolationBlocksTakeSnoc(violations: seq<Violation>, i: nat)
    requires i < |violations|
    ensures ViolationBlocks(violations[..i + 1]) == ViolationBlocks(violations[..i]) + ViolationBlock(i + 1, violations[i])
  {
    TakeSnoc(violations, i);
    assert violations[..i + 1][..i] == violations[..i];
  }

  /** `generateMarkdownReportForPage(violations, url)`: the string is grown
      by `+=` as the source does, and the result is the page's section. */
  method RenderPage(violations: seq<Violation>, url: JsString) returns (markdown: JsString)
    ensures markdown == PageSection(violations, url)
  {
    markdown := HeadingLine(url);
    markdown := markdown + CountLine(|violations|);

    if |violations| == 0 {
      markdown := markdown + NoViolationsLine;
    } else {
      ghost var header := markdown;
      var index := 0;
      while index < |violations|
        invariant 0 <= index <= |violations|
        invariant markdown == header + ViolationBlocks(violations[..index])
      {
        ghost var before := ViolationBlocks(violations[..index]);
        markdown := AppendViolation(markdown, index, violations[index]);
        ViolationBlocksTakeSnoc(violations, index);
        Assoc(header, before, ViolationBlock(index + 1, violations[index]));
        index := index + 1;
      }
      TakeAll(violations);
    }
  }

  /** The `forEach` callback for the violation at `index`: its lines, one
      code block per element, then a blank line. */
  method AppendViolation(markdown: JsString, index: nat, violation: Violation) returns (out: JsString)
    ensures out == markdown + ViolationBlock(index + 1, violation)
  {
    var title, reference, impact := TitleLine(index + 1, violation), ReferenceLine(violation), ImpactLine(violation);
    out := markdown + title;
    out := out + reference;
    out := out + impact;
    out := out + ElementsLine;
    ghost var lead := out;
    Assoc(markdown, title + reference + impact, ElementsLine);
    Assoc(markdown, title + reference, impact);
    Assoc(markdown, title, reference);
    assert lead == markdown + ViolationLead(index + 1, violation);

    var j := 0;
    while j < |violation.nodes|
      invariant 0 <= j <= |violation.nodes|
      invariant out == lead + NodeBlocks(violation.nodes[..j])
    {
      ghost var before := NodeBlocks(violation.nodes[..j]);
      out := out + NodeBlock(violation.nodes[j]);
      NodeBlocksTakeSnoc(violation.nodes, j);
      Assoc(lead, before, NodeBlock(violation.nodes[j]));
      j := j + 1;
    }
    TakeAll(violation.nodes);
    out := out + Newline;
    var lead', nodes := ViolationLead(index + 1, violation), NodeBlocks(violation.nodes);
    Assoc(markdown, lead' + nodes, Newline);
    Assoc(markdown, lead', nodes);
  }

  // What every section looks like

  /** A section always opens with its heading and its violation count. */
  lemma SectionStartsWithHeader(violations: seq<Violation>, url: JsString)
    ensures StartsWith(PageSection(violations, url), Header(url, |violations|))
  {
    StartsWithAppend(Header(url, |violations|),
                     if |violations| == 0 then NoViolationsLine else ViolationBlocks(violations));
  }

  /** A page without violations gets exactly the header and the "No
      violations found" line, with a count of 0. */
  lemma SectionWithoutViolations(url: JsString)
    ensures PageSection([], url) == HeadingOpen + url + BlankLine + TotalLabel + [Zero] + BlankLine + NoViolationsLine
  {
  }

  /** The blocks of the first k violations are a prefix of the blocks of all. */
  lemma {:induction false} ViolationBlocksGrow(violations: seq<Violation>, k: nat)
    requires k <= |violations|
    ensures StartsWith(ViolationBlocks(violations), ViolationBlocks(violations[..k]))
    decreases |violations|
  {
    if k < |violations| {
      var init := violations[..|violations| - 1];
      assert init[..k] == violations[..k];
      ViolationBlocksGrow(init, k);
      StartsWithAppend(ViolationBlocks(init), ViolationBlock(|violations|, violations[|violations| - 1]));
    } else {
      TakeAll(violations);
    }
  }

  /** With violations, violation i (counted from 0) is rendered as block
      number i + 1, directly after the blocks of violations 0 .. i-1. */
  lemma SectionPlacesViolation(violations: seq<Violation>, url: JsString, i: nat)
    requires i < |violations|
    ensures StartsWith(PageSection(violations, url),
                       Header(url, |violations|) + ViolationBlocks(violations[..i]) + ViolationBlock(i + 1, violations[i]))
  {
    var h := Header(url, |violations|);
    ViolationBlocksGrow(violations, i + 1);
    ViolationBlocksTakeSnoc(violations, i);
    StartsWithUnderPrefix(h, ViolationBlocks(violations), ViolationBlocks(violations[..i + 1]));
    Assoc(h, ViolationBlocks(violations[..i]), ViolationBlock(i + 1, violations[i]));
  }

  /** The element blocks of the first k elements are a prefix of all of them. */
  lemma {:induction false} NodeBlocksGrow(nodes: seq<ViolationNode>, k: nat)
    requires k <= |nodes|
    ensures StartsWith(NodeBlocks(nodes), NodeBlocks(nodes[..k]))
    decreases |nodes|
  {
    if k < |nodes| {
      var init := nodes[..|nodes| - 1];
      assert init[..k] == nodes[..k];
      NodeBlocksGrow(init, k);
      StartsWithAppend(NodeBlocks(init), NodeBlock(nodes[|nodes| - 1]));
    } else {
      TakeAll(nodes);
    }
  }

  /** Within a violation block, element j is rendered as one html code block
      directly after the code blocks of elements 0 .. j-1, so every element
      gets exactly one block and in the order the engine gave them. */
  lemma BlockPlacesNode(number: nat, v: Violation, j: nat)
    requires j < |v.nodes|
    ensures StartsWith(ViolationBlock(number, v),
                       ViolationLead(number, v) + NodeBlocks(v.nodes[..j]) + NodeBlock(v.nodes[j]))
  {
    var lead := ViolationLead(number, v);
    NodeBlocksGrow(v.nodes, j + 1);
    NodeBlocksTakeSnoc(v.nodes, j);
    StartsWithUnderPrefix(lead, NodeBlocks(v.nodes), NodeBlocks(v.nodes[..j + 1]));
    Assoc(lead, NodeBlocks(v.nodes[..j]), NodeBlock(v.nodes[j]));
    StartsWithAppend(lead + NodeBlocks(v.nodes), Newline);
    StartsWithTrans(ViolationBlock(number, v), lead + NodeBlocks(v.nodes), lead + NodeBlocks(v.nodes[..j + 1]));
  }
}
