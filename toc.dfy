/**
 * `_parse_toc`: the table-of-contents document becomes an ordered list of
 * section records.  The scan keeps one piece of state between lines, the
 * current category; `CategoryAfter` and `ParseLines` are that scan written
 * as a fold over the lines read so far, and `ParseToc` is the loop itself.
 */
module Toc {
  import opened Wrappers
  import opened Text
  import opened Links

  /** One record of the result: `{title, category, url, description}`. */
  datatype Section = Section(title: string, category: string, url: string, description: string)

  /** `line.startswith(('-', '*', '1.', '2.', '3.', '4.', '5.'))` */
  predicate IsListItem(line: string) {
    StartsWith(line, "-") || StartsWith(line, "*") || StartsWith(line, "1.")
    || StartsWith(line, "2.") || StartsWith(line, "3.") || StartsWith(line, "4.")
    || StartsWith(line, "5.")
  }

  /** The description of a record: `"<category>: <title>"`, or the bare title without a category. */
  function Describe(category: string, title: string): string {
    if category != "" then category + ": " + title else title
  }

  /** A non-empty query drops the record unless it occurs, ignoring case, in the title or the category. */
  predicate FilteredOut(query: Option<string>, title: string, category: string) {
    query.Some? && query.value != ""
    && !Contains(Lower(title), Lower(query.value))
    && !Contains(Lower(category), Lower(query.value))
  }

  /** The current category once `line` has been read. */
  function NextCategory(line: string, category: string): string {
    var l := Strip(line);
    if l == "" || IsListItem(l) || StartsWith(l, "#") || StartsWith(l, "http") then category
    else Strip(RemoveChar(l, '#'))
  }

  /** The record `line` contributes, if any, when `category` is current. */
  function Emit(line: string, category: string, query: Option<string>): Option<Section> {
    var l := Strip(line);
    if l == "" || !IsListItem(l) then None
    else
      match FindLink(l)
      case None => None
      case Some(link) =>
        var title := Strip(link.text);
        var url := Strip(link.target);
        if FilteredOut(query, title, category) then None
        else Some(Section(title, category, url, Describe(category, title)))
  }

  function Emitted(o: Option<Section>): seq<Section> {
    match o
    case None => []
    case Some(s) => [s]
  }

  /** The current category after the scan has read `lines`, starting from `""`. */
  function CategoryAfter(lines: seq<string>): string
    decreases |lines|
  {
    if lines == [] then ""
    else NextCategory(lines[|lines| - 1], CategoryAfter(lines[..|lines| - 1]))
  }

  /** The records the scan has produced after reading `lines`. */
  function ParseLines(lines: seq<string>, query: Option<string>): seq<Section>
    decreases |lines|
  {
    if lines == [] then []
    else
      var n := |lines| - 1;
      ParseLines(lines[..n], query) + Emitted(Emit(lines[n], CategoryAfter(lines[..n]), query))
  }

  /** `toc_content.strip().split('\n')` */
  function TocLines(toc: string): seq<string> {
    Split(Strip(toc), '\n')
  }

  /** Reading one more line extends both folds by that line's effect. */
  lemma ScanStep(lines: seq<string>, i: nat, query: Option<string>)
    requires i < |lines|
    ensures CategoryAfter(lines[..i + 1]) == NextCategory(lines[i], CategoryAfter(lines[..i]))
    ensures ParseLines(lines[..i + 1], query)
            == ParseLines(lines[..i], query) + Emitted(Emit(lines[i], CategoryAfter(lines[..i]), query))
  {
    assert lines[..i + 1][..i] == lines[..i];
  }

  /** `_parse_toc(toc_content, query)`; `query` is `None` when the caller passes none. */
  method ParseToc(toc: string, query: Option<string>) returns (sections: seq<Section>)
    ensures sections == ParseLines(TocLines(toc), query)
  {
    sections := [];
    var lines := TocLines(toc);
    var currentCategory := "";
    for i := 0 to |lines|
      invariant currentCategory == CategoryAfter(lines[..i])
      invariant sections == ParseLines(lines[..i], query)
    {
      ScanStep(lines, i, query);
      var line := Strip(lines[i]);
      if line == "" {
        continue;
      }
      if !IsListItem(line) {
        if line != "" && !StartsWith(line, "#") && !StartsWith(line, "http") {
          currentCategory := Strip(RemoveChar(line, '#'));
        }
        continue;
      }
      var linkMatch := FindLink(line);
      if linkMatch.Some? {
        var title := Strip(linkMatch.value.text);
        var url := Strip(linkMatch.value.target);
        if FilteredOut(query, title, currentCategory) {
          continue;
        }
        sections := sections + [Section(title, currentCategory, url, Describe(currentCategory, title))];
      }
    }
    assert lines[..|lines|] == lines;
  }
}
