/** The authoring tools' `formatExecution`: free-text cooking steps, one per
    line, turned into the ordered-list HTML the recipe pages display. */
module ExecutionFormat {
  import opened Text
  import opened Seqs

  const ListOpen := "<ol class=\"font_8\">"
  const ListClose := "</ol>"
  const ItemOpen := "<li>"
  const ItemClose := "</li>"
  const ParaOpen := "<p class=\"font_8\">"
  const ParaClose := "</p>"
  /** The separator placed before every list item. */
  const Indent := "\n  "

  /** A line is a step unless it is blank to JavaScript's `trim`. */
  predicate IsStep(line: string) {
    JsTrim(line) != ""
  }

  /** `executionText.split("\n").filter(step => step.trim() !== "")` */
  function Steps(text: string): (steps: seq<string>)
    ensures |steps| <= |Split(text, '\n')|
    ensures forall k :: 0 <= k < |steps| ==> IsStep(steps[k]) && '\n' !in steps[k]
  {
    var lines := Split(text, '\n');
    var steps := Filter(lines, IsStep);
    assert forall k :: 0 <= k < |steps| ==> '\n' !in steps[k] by {
      forall k | 0 <= k < |steps| ensures '\n' !in steps[k] {
        assert steps[k] in lines;
      }
    }
    steps
  }

  /** `step.trim()` for every step. */
  function TrimEach(lines: seq<string>): (r: seq<string>)
    ensures |r| == |lines|
    ensures forall k :: 0 <= k < |lines| ==> r[k] == JsTrim(lines[k])
  {
    if lines == [] then [] else [JsTrim(lines[0])] + TrimEach(lines[1..])
  }

  /** One list item: the (trimmed) step inside a paragraph inside `<li>`. */
  function Item(x: string): string {
    ItemOpen + ParaOpen + x + ParaClose + ItemClose
  }

  function Items(xs: seq<string>): (items: seq<string>)
    ensures |items| == |xs|
    ensures forall k :: 0 <= k < |xs| ==> items[k] == Item(xs[k])
  {
    if xs == [] then [] else [Item(xs[0])] + Items(xs[1..])
  }

  /** The ordered list built from the steps of `text`. */
  function FormatExecution(text: string): (html: string)
    ensures StartsWith(html, ListOpen + Indent)
    ensures EndsWith(html, "\n" + ListClose)
  {
    var body := Join(Items(TrimEach(Steps(text))), Indent);
    var html := ListOpen + Indent + body + "\n" + ListClose;
    assert html[..|ListOpen + Indent|] == ListOpen + Indent;
    assert html[|html| - |"\n" + ListClose|..] == "\n" + ListClose;
    html
  }

  /** The steps are exactly the non-blank lines, in their original order:
      every non-blank line is kept as often as it occurs and no blank line
      survives. */
  lemma StepsAreNonBlankLines(text: string)
    ensures IsSubsequence(Steps(text), Split(text, '\n'))
    ensures forall line :: multiset(Steps(text))[line]
                        == if IsStep(line) then multiset(Split(text, '\n'))[line] else 0
  {
    FilterIsSelection(Split(text, '\n'), IsStep);
  }

  /** Text without a single non-blank line still yields an (empty) list. */
  lemma BlankExecution(text: string)
    requires forall k :: 0 <= k < |Split(text, '\n')| ==> !IsStep(Split(text, '\n')[k])
    ensures FormatExecution(text) == "<ol class=\"font_8\">\n  \n</ol>"
  {
    FilterNone(Split(text, '\n'), IsStep);
  }

  /** A one-line text yields a single list item holding the trimmed line. */
  lemma SingleStep(text: string)
    requires '\n' !in text && IsStep(text)
    ensures FormatExecution(text)
         == ListOpen + Indent + ItemOpen + ParaOpen + JsTrim(text) + ParaClose + ItemClose + "\n" + ListClose
  {
    SplitNoSeparator(text, '\n');
    assert Steps(text) == [text];
    assert TrimEach([text]) == [JsTrim(text)];
    assert Items([JsTrim(text)]) == [Item(JsTrim(text))];
  }
}
