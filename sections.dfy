/**
 * `_find_section_content` and `_extract_sections_from_docs`: the full-docs
 * document is a run of sections, each opened by a front-matter block
 *
 *     ---
 *     title: <name>
 *     ...
 *     ---
 *     <body>
 *     ---
 *
 * and a section is looked up by the value of its `title:` line.
 */
module Sections {
  import opened Wrappers
  import opened Text
  import opened Dicts

  /** `full_docs.split('\n')` */
  function DocLines(docs: string): seq<string> {
    Split(docs, '\n')
  }

  /**
   * A `title:` line naming `title`: the stripped line starts with `title:`
   * ignoring case, and what follows, stripped, equals `title` ignoring case.
   * The requested title itself is not stripped.
   */
  predicate IsTitleLine(line: string, title: string) {
    var l := Strip(line);
    StartsWith(Lower(l), "title:") && Lower(Strip(l[6..])) == Lower(title)
  }

  /** A line that is `---` once stripped. */
  predicate IsDelimiter(line: string) {
    Strip(line) == "---"
  }

  /** Where a body stops: a `---` line whose next line is `---` or blank. */
  predicate IsBoundary(lines: seq<string>, j: nat)
    requires j < |lines|
  {
    IsDelimiter(lines[j]) && j + 1 < |lines| && (IsDelimiter(lines[j + 1]) || Strip(lines[j + 1]) == "")
  }

  /** The first `title:` line naming `title` at or after `from`. */
  function FirstTitleLine(lines: seq<string>, title: string, from: nat): (r: Option<nat>)
    requires from <= |lines|
    ensures r.Some? ==> from <= r.value < |lines| && IsTitleLine(lines[r.value], title)
    ensures r.Some? ==> forall k :: from <= k < r.value ==> !IsTitleLine(lines[k], title)
    ensures r.None? ==> forall k :: from <= k < |lines| ==> !IsTitleLine(lines[k], title)
    decreases |lines| - from
  {
    if from == |lines| then None
    else if IsTitleLine(lines[from], title) then Some(from)
    else FirstTitleLine(lines, title, from + 1)
  }

  /** The first `---` line at or after `from`, or `|lines|`. */
  function DelimiterFrom(lines: seq<string>, from: nat): (r: nat)
    requires from <= |lines|
    ensures from <= r <= |lines|
    ensures r < |lines| ==> IsDelimiter(lines[r])
    ensures forall k :: from <= k < r ==> !IsDelimiter(lines[k])
    decreases |lines| - from
  {
    if from == |lines| then |lines|
    else if IsDelimiter(lines[from]) then from
    else DelimiterFrom(lines, from + 1)
  }

  /** The first boundary at or after `from`, or `|lines|`. */
  function BoundaryFrom(lines: seq<string>, from: nat): (r: nat)
    requires from <= |lines|
    ensures from <= r <= |lines|
    ensures r < |lines| ==> IsBoundary(lines, r)
    ensures forall k :: from <= k < r ==> !IsBoundary(lines, k)
    decreases |lines| - from
  {
    if from == |lines| then |lines|
    else if IsBoundary(lines, from) then from
    else BoundaryFrom(lines, from + 1)
  }

  /** The body lines of the section whose `title:` line is at `i`. */
  function Body(lines: seq<string>, i: nat): seq<string>
    requires i < |lines|
  {
    var start := DelimiterFrom(lines, i + 1) + 1;
    if start >= |lines| then [] else lines[start..BoundaryFrom(lines, start)]
  }

  /** What `_find_section_content` returns for the document split into `lines`. */
  function SectionContent(lines: seq<string>, title: string): Option<string> {
    match FirstTitleLine(lines, title, 0)
    case None => None
    case Some(i) => Some(Join(Body(lines, i), "\n"))
  }

  /** The lines the collecting loop has gathered when it stops are the section's body. */
  lemma CollectedBody(lines: seq<string>, i: nat, start: nat, j: nat, collected: seq<string>)
    requires i < |lines| && start == DelimiterFrom(lines, i + 1) + 1 && start <= j
    requires start <= |lines| ==> j <= |lines| && collected == lines[start..j]
    requires start > |lines| ==> collected == []
    requires start <= |lines| ==> BoundaryFrom(lines, start) == BoundaryFrom(lines, j)
    requires j < |lines| ==> IsBoundary(lines, j)
    ensures collected == Body(lines, i)
  {
  }

  /** One more line collected: it is not a boundary, so the first boundary lies further on. */
  lemma CollectStep(lines: seq<string>, start: nat, j: nat)
    requires start <= j < |lines| && !IsBoundary(lines, j)
    ensures lines[start..j + 1] == lines[start..j] + [lines[j]]
    ensures BoundaryFrom(lines, j) == BoundaryFrom(lines, j + 1)
  {
  }

  /**
   * The branch of `_find_section_content` taken at the matching `title:`
   * line `i`: skip to the closing `---` of the front matter, then gather
   * lines up to the next boundary.
   */
  method ReadSectionAt(lines: seq<string>, i: nat) returns (content: string)
    requires i < |lines|
    ensures content == Join(Body(lines, i), "\n")
  {
    var j := i + 1;
    while j < |lines| && !IsDelimiter(lines[j])
      invariant i + 1 <= j <= |lines|
      invariant DelimiterFrom(lines, i + 1) == DelimiterFrom(lines, j)
    {
      j := j + 1;
    }
    j := j + 1;
    ghost var start := j;
    var contentLines := [];
    while j < |lines|
      invariant start <= j
      invariant start <= |lines| ==> j <= |lines| && contentLines == lines[start..j]
      invariant start > |lines| ==> j == start && contentLines == []
      invariant start <= |lines| ==> BoundaryFrom(lines, start) == BoundaryFrom(lines, j)
    {
      if IsBoundary(lines, j) {
        break;
      }
      CollectStep(lines, start, j);
      contentLines := contentLines + [lines[j]];
      j := j + 1;
    }
    CollectedBody(lines, i, start, j, contentLines);
    content := Join(contentLines, "\n");
  }

  /** `_find_section_content(full_docs, title)` */
  method FindSectionContent(docs: string, title: string) returns (r: Option<string>)
    ensures r == SectionContent(DocLines(docs), title)
  {
    var lines := DocLines(docs);
    var i := 0;
    while i < |lines|
      invariant 0 <= i <= |lines|
      invariant FirstTitleLine(lines, title, 0) == FirstTitleLine(lines, title, i)
    {
      var line := Strip(lines[i]);
      if StartsWith(Lower(line), "title:") {
        var sectionTitle := Strip(line[6..]);
        if Lower(sectionTitle) == Lower(title) {
          assert FirstTitleLine(lines, title, 0) == Some(i);
          var content := ReadSectionAt(lines, i);
          return Some(content);
        }
      }
      i := i + 1;
    }
    return None;
  }

  /** The placeholder for a section that is missing or empty. */
  function NotFound(title: string): string {
    "Section '" + title + "' not found in documentation."
  }

  /** The value `_extract_sections_from_docs` stores for `title`. */
  function SectionValue(docs: string, title: string): string {
    match SectionContent(DocLines(docs), title)
    case Some(c) => if c != "" then c else NotFound(title)
    case None => NotFound(title)
  }

  /**
   * `_extract_sections_from_docs(full_docs, section_titles)`: one entry per
   * distinct requested title, in order of first request, each holding that
   * title's section or the placeholder.
   */
  method ExtractSections(docs: string, titles: seq<string>) returns (contentSections: Dict<string>)
    ensures Keys(contentSections) == Distinct(titles)
    ensures forall t :: t in titles ==> Get(contentSections, t) == Some(SectionValue(docs, t))
  {
    contentSections := [];
    for n := 0 to |titles|
      invariant Keys(contentSections) == Distinct(titles[..n])
      invariant forall t :: t in titles[..n] ==> Get(contentSections, t) == Some(SectionValue(docs, t))
    {
      var title := titles[n];
      assert titles[..n + 1] == titles[..n] + [title];
      var sectionContent := FindSectionContent(docs, title);
      if sectionContent.Some? && sectionContent.value != "" {
        contentSections := Put(contentSections, title, sectionContent.value);
      } else {
        contentSections := Put(contentSections, title, NotFound(title));
      }
    }
    assert titles[..|titles|] == titles;
  }
}
