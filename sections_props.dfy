/**
 * What a section lookup returns, stated without the scan: when it finds
 * nothing, which `title:` line wins, and which slice of lines the content is.
 */
module SectionProperties {
  import opened Wrappers
  import opened Text
  import opened Sections

  /** Nothing is found exactly when no line is a `title:` line naming the title. */
  lemma {:induction false} NotFoundIff(lines: seq<string>, title: string)
    ensures SectionContent(lines, title).None? <==>
      forall k :: 0 <= k < |lines| ==> !IsTitleLine(lines[k], title)
  {
    var f := FirstTitleLine(lines, title, 0);
    if f.Some? {
      assert IsTitleLine(lines[f.value], title);
    }
  }

  /**
   * The content of a found section: with `i` the first `title:` line naming
   * the title (later ones are never looked at), `d` the first `---` line
   * after it, and `e` the first boundary after `d` (a `---` line whose next
   * line is `---` or blank) or the end of the document, the content is the
   * unstripped lines strictly between `d` and `e`, joined by newlines.  A
   * `---` on the last line is never a boundary, so it is part of the content.
   */
  lemma BodyBetween(lines: seq<string>, title: string, i: nat, d: nat, e: nat)
    requires i < |lines| && IsTitleLine(lines[i], title)
    requires forall k :: 0 <= k < i ==> !IsTitleLine(lines[k], title)
    requires i < d < |lines| && IsDelimiter(lines[d])
    requires forall k :: i < k < d ==> !IsDelimiter(lines[k])
    requires d < e <= |lines|
    requires forall k :: d < k < e ==> !IsBoundary(lines, k)
    requires e < |lines| ==> IsBoundary(lines, e)
    ensures SectionContent(lines, title) == Some(Join(lines[d + 1..e], "\n"))
  {
    assert FirstTitleLine(lines, title, 0) == Some(i);
    assert DelimiterFrom(lines, i + 1) == d;
    if d + 1 < |lines| {
      assert BoundaryFrom(lines, d + 1) == e;
    }
  }

  /** A found section with no `---` after its `title:` line has empty content. */
  lemma NoClosingDelimiter(lines: seq<string>, title: string, i: nat)
    requires i < |lines| && IsTitleLine(lines[i], title)
    requires forall k :: 0 <= k < i ==> !IsTitleLine(lines[k], title)
    requires forall k :: i < k < |lines| ==> !IsDelimiter(lines[k])
    ensures SectionContent(lines, title) == Some("")
  {
    assert FirstTitleLine(lines, title, 0) == Some(i);
    assert DelimiterFrom(lines, i + 1) == |lines|;
  }

  /** The requested title is compared ignoring case: titles that lower-case alike find the same section. */
  lemma {:induction false} TitleCaseInsensitive(lines: seq<string>, t1: string, t2: string, from: nat)
    requires Lower(t1) == Lower(t2) && from <= |lines|
    ensures FirstTitleLine(lines, t1, from) == FirstTitleLine(lines, t2, from)
    ensures from == 0 ==> SectionContent(lines, t1) == SectionContent(lines, t2)
    decreases |lines| - from
  {
    if from < |lines| {
      TitleCaseInsensitive(lines, t1, t2, from + 1);
    }
  }

  /** `title: <a>` names every title that lower-cases like `a`, when `a` has no surrounding spaces. */
  lemma TitleLineOf(a: string, requested: string)
    requires a != [] && !IsSpace(a[0]) && !IsSpace(a[|a| - 1]) && Lower(requested) == Lower(a)
    ensures IsTitleLine("title: " + a, requested)
  {
    var t := "title: " + a;
    StripNoop(t);
    assert t[6..] == " " + a;
    assert TrimLeft(" " + a) == TrimLeft(a);
    StripNoop(a);
    assert Lower(t)[..6] == Lower(t[..6]);
    assert t[..6] == "title:";
  }

  /** `---` is a delimiter and no `title:` line. */
  lemma DashLine(requested: string)
    ensures IsDelimiter("---") && !IsTitleLine("---", requested) && Strip("") == ""
  {
    StripNoop("---");
  }

  /**
   * A section's content is not affected by what follows it: in a document
   * that opens with the lines `---`, `title: <a>`, `---`, then body lines
   * none of which is `---`, then `---` and a blank line at `e`, looking up
   * any title that lower-cases like `a` gives exactly the body lines 3 to
   * `e`, whatever comes after.
   */
  lemma FirstBlock(a: string, requested: string, lines: seq<string>, e: nat)
    requires a != [] && !IsSpace(a[0]) && !IsSpace(a[|a| - 1]) && Lower(requested) == Lower(a)
    requires 3 <= e && e + 1 < |lines|
    requires lines[0] == lines[2] == lines[e] == "---" && lines[1] == "title: " + a && lines[e + 1] == ""
    requires forall k :: 3 <= k < e ==> !IsDelimiter(lines[k])
    ensures SectionContent(lines, requested) == Some(Join(lines[3..e], "\n"))
  {
    DashLine(requested);
    TitleLineOf(a, requested);
    assert IsBoundary(lines, e);
    BodyBetween(lines, requested, 1, 2, e);
  }

  /** The placeholder names the title it stands for. */
  lemma NotFoundNamesTitle(title: string)
    ensures Contains(NotFound(title), title)
  {
    var p := NotFound(title);
    assert p[9..][..|title|] == title;
  }
}
