/**
 * What the table-of-contents scan promises about its records: where each one
 * comes from, what it holds, how the query filter acts and how the current
 * category evolves.
 */
module TocProperties {
  import opened Wrappers
  import opened Text
  import opened Links
  import opened Toc

  /** The line a record comes from carries a list marker and a link, and the record is made of that link. */
  lemma EmitIff(line: string, category: string, query: Option<string>, s: Section)
    ensures Emit(line, category, query) == Some(s) <==>
      var l := Strip(line);
      l != "" && IsListItem(l) && FindLink(l).Some?
      && s.title == Strip(FindLink(l).value.text)
      && s.url == Strip(FindLink(l).value.target)
      && s.category == category
      && s.description == Describe(category, s.title)
      && !FilteredOut(query, s.title, category)
  {
  }

  /** The indices of the lines that produced a record, in scan order. */
  function Origins(lines: seq<string>, query: Option<string>): seq<nat>
    decreases |lines|
  {
    if lines == [] then []
    else
      var n := |lines| - 1;
      Origins(lines[..n], query) + (if Emit(lines[n], CategoryAfter(lines[..n]), query).Some? then [n] else [])
  }

  /**
   * Record `j` of the result is what line `Origins[j]` emits with the category
   * current at that line; the origins are strictly increasing (input order is
   * kept, no line is used twice); and every line that emits a record is one
   * of them.
   */
  lemma ParseProvenance(lines: seq<string>, query: Option<string>)
    ensures |Origins(lines, query)| == |ParseLines(lines, query)|
    ensures forall j :: 0 <= j < |Origins(lines, query)| ==>
      Origins(lines, query)[j] < |lines|
      && Emit(lines[Origins(lines, query)[j]], CategoryAfter(lines[..Origins(lines, query)[j]]), query)
         == Some(ParseLines(lines, query)[j])
    ensures forall j, j' :: 0 <= j < j' < |Origins(lines, query)| ==>
      Origins(lines, query)[j] < Origins(lines, query)[j']
    ensures forall k :: 0 <= k < |lines| && Emit(lines[k], CategoryAfter(lines[..k]), query).Some? ==>
      k in Origins(lines, query)
  {
    OriginsEmit(lines, query);
    OriginsIncreasing(lines, query);
    OriginsComplete(lines, query);
  }

  lemma {:induction false} OriginsEmit(lines: seq<string>, query: Option<string>)
    ensures |Origins(lines, query)| == |ParseLines(lines, query)|
    ensures forall j :: 0 <= j < |Origins(lines, query)| ==>
      Origins(lines, query)[j] < |lines|
      && Emit(lines[Origins(lines, query)[j]], CategoryAfter(lines[..Origins(lines, query)[j]]), query)
         == Some(ParseLines(lines, query)[j])
    decreases |lines|
  {
    if lines != [] {
      var n := |lines| - 1;
      var init := lines[..n];
      OriginsEmit(init, query);
      var o0, r0 := Origins(init, query), ParseLines(init, query);
      var o, r := Origins(lines, query), ParseLines(lines, query);
      forall j | 0 <= j < |o0|
        ensures o[j] < |lines| && Emit(lines[o[j]], CategoryAfter(lines[..o[j]]), query) == Some(r[j])
      {
        assert o[j] == o0[j] && r[j] == r0[j];
        assert init[..o0[j]] == lines[..o0[j]];
        assert init[o0[j]] == lines[o0[j]];
      }
    }
  }

  lemma {:induction false} OriginsIncreasing(lines: seq<string>, query: Option<string>)
    ensures forall j :: 0 <= j < |Origins(lines, query)| ==> Origins(lines, query)[j] < |lines|
    ensures forall j, j' :: 0 <= j < j' < |Origins(lines, query)| ==>
      Origins(lines, query)[j] < Origins(lines, query)[j']
    decreases |lines|
  {
    if lines != [] {
      OriginsIncreasing(lines[..|lines| - 1], query);
    }
  }

  predicate EmitsAt(lines: seq<string>, k: nat, query: Option<string>)
    requires k < |lines|
  {
    Emit(lines[k], CategoryAfter(lines[..k]), query).Some?
  }

  lemma {:induction false} OriginsComplete(lines: seq<string>, query: Option<string>)
    ensures forall k :: 0 <= k < |lines| && EmitsAt(lines, k, query) ==> k in Origins(lines, query)
    decreases |lines|
  {
    if lines != [] {
      var n := |lines| - 1;
      var init := lines[..n];
      OriginsComplete(init, query);
      var o0 := Origins(init, query);
      var tail := if Emit(lines[n], CategoryAfter(init), query).Some? then [n] else [];
      assert Origins(lines, query) == o0 + tail;
      forall k | 0 <= k < n && EmitsAt(lines, k, query)
        ensures k in o0
      {
        assert init[..k] == lines[..k];
        assert init[k] == lines[k];
        assert EmitsAt(init, k, query);
      }
    }
  }

  /**
   * Over the whole scan: every record comes from a line whose stripped form
   * is a list item containing a link, so no line without a list marker or
   * without a link ever yields a record.
   */
  lemma OriginsAreLinkItems(lines: seq<string>, query: Option<string>)
    ensures forall j :: 0 <= j < |Origins(lines, query)| ==>
      Origins(lines, query)[j] < |lines|
      && IsListItem(Strip(lines[Origins(lines, query)[j]]))
      && FindLink(Strip(lines[Origins(lines, query)[j]])).Some?
    ensures forall k :: 0 <= k < |lines| && !IsListItem(Strip(lines[k])) ==> k !in Origins(lines, query)
    ensures forall k :: 0 <= k < |lines| && FindLink(Strip(lines[k])).None? ==> k !in Origins(lines, query)
  {
    OriginsEmit(lines, query);
  }

  /** Lines whose stripped form starts with a list marker. */
  function ListItemCount(lines: seq<string>): nat
    decreases |lines|
  {
    if lines == [] then 0
    else
      var n := |lines| - 1;
      ListItemCount(lines[..n]) + (if IsListItem(Strip(lines[n])) then 1 else 0)
  }

  /** There are never more records than list-item lines. */
  lemma {:induction false} ParseCountBound(lines: seq<string>, query: Option<string>)
    ensures |ParseLines(lines, query)| <= ListItemCount(lines)
    decreases |lines|
  {
    if lines != [] {
      ParseCountBound(lines[..|lines| - 1], query);
    }
  }

  /** Every record's description is `"<category>: <title>"`, or the title when the category is empty. */
  lemma {:induction false} ParseDescriptions(lines: seq<string>, query: Option<string>)
    ensures forall s :: s in ParseLines(lines, query) ==> s.description == Describe(s.category, s.title)
    ensures forall s :: s in ParseLines(lines, query) ==>
      s.description == (if s.category != "" then s.category + ": " + s.title else s.title)
    decreases |lines|
  {
    if lines != [] {
      ParseDescriptions(lines[..|lines| - 1], query);
    }
  }

  /** With a non-empty query, every record matches it, ignoring case, in its title or its category. */
  lemma {:induction false} ParseQueryMatches(lines: seq<string>, q: string)
    requires q != ""
    ensures forall s :: s in ParseLines(lines, Some(q)) ==>
      Contains(Lower(s.title), Lower(q)) || Contains(Lower(s.category), Lower(q))
    decreases |lines|
  {
    if lines != [] {
      ParseQueryMatches(lines[..|lines| - 1], q);
    }
  }

  /** The records of `ss` that a query keeps, in their order. */
  function Keep(ss: seq<Section>, query: Option<string>): seq<Section>
    decreases |ss|
  {
    if ss == [] then []
    else
      var n := |ss| - 1;
      Keep(ss[..n], query) + (if FilteredOut(query, ss[n].title, ss[n].category) then [] else [ss[n]])
  }

  lemma {:induction false} KeepAppend(a: seq<Section>, b: seq<Section>, query: Option<string>)
    requires |b| <= 1
    ensures Keep(a + b, query) == Keep(a, query) + Keep(b, query)
  {
    if b == [] {
      assert a + b == a;
    } else {
      assert (a + b)[..|a + b| - 1] == a;
      assert (a + b)[|a + b| - 1] == b[0];
      assert b[..0] == [];
    }
  }

  /**
   * The query only removes records: parsing with a query gives exactly the
   * records of the unfiltered parse that match it, in the same order.
   */
  lemma {:induction false} ParseFilterIsKeep(lines: seq<string>, query: Option<string>)
    ensures ParseLines(lines, query) == Keep(ParseLines(lines, None), query)
    decreases |lines|
  {
    if lines != [] {
      var n := |lines| - 1;
      ParseFilterIsKeep(lines[..n], query);
      var e := Emitted(Emit(lines[n], CategoryAfter(lines[..n]), None));
      KeepAppend(ParseLines(lines[..n], None), e, query);
      if e != [] {
        assert e[..0] == [];
      }
    }
  }

  /**
   * The `query` truthiness test guards against a missing query; for the
   * empty query the substring test alone would already keep every record.
   */
  lemma EmptyQuerySubstring(title: string, category: string)
    ensures !FilteredOut(Some(""), title, category)
    ensures Contains(Lower(title), Lower("")) && Contains(Lower(category), Lower(""))
  {
    ContainsEmpty(Lower(title));
    ContainsEmpty(Lower(category));
  }

  /** `None` and the empty query filter nothing out, and agree with each other. */
  lemma {:induction false} ParseEmptyQuery(lines: seq<string>)
    ensures ParseLines(lines, Some("")) == ParseLines(lines, None)
    decreases |lines|
  {
    if lines != [] {
      ParseEmptyQuery(lines[..|lines| - 1]);
    }
  }

  /**
   * A line without a list marker never yields a record.  If it is blank,
   * starts with `#` or starts with `http`, the category stays as it was;
   * otherwise the category becomes the line with every `#` removed, trimmed.
   */
  lemma NonListLine(lines: seq<string>, line: string, query: Option<string>)
    requires !IsListItem(Strip(line))
    ensures ParseLines(lines + [line], query) == ParseLines(lines, query)
    ensures var l := Strip(line);
      CategoryAfter(lines + [line]) ==
        if l == "" || StartsWith(l, "#") || StartsWith(l, "http") then CategoryAfter(lines)
        else Strip(RemoveChar(l, '#'))
  {
    assert (lines + [line])[..|lines|] == lines;
  }

  /** A list-item line never changes the category. */
  lemma ListLineKeepsCategory(lines: seq<string>, line: string)
    requires IsListItem(Strip(line))
    ensures CategoryAfter(lines + [line]) == CategoryAfter(lines)
  {
    assert (lines + [line])[..|lines|] == lines;
  }

  /** The category never holds a `#`. */
  lemma {:induction false} CategoryHasNoHash(lines: seq<string>)
    ensures '#' !in CategoryAfter(lines)
    decreases |lines|
  {
    if lines != [] {
      var n := |lines| - 1;
      CategoryHasNoHash(lines[..n]);
      StripChars(RemoveChar(Strip(lines[n]), '#'));
    }
  }

  /** Once a category line has been read, the category is never empty again: it is only ever overwritten. */
  lemma {:induction false} CategoryNeverCleared(lines: seq<string>, more: seq<string>)
    requires CategoryAfter(lines) != ""
    ensures CategoryAfter(lines + more) != ""
    decreases |more|
  {
    if more == [] {
      assert lines + more == lines;
    } else {
      var n := |more| - 1;
      CategoryNeverCleared(lines, more[..n]);
      assert (lines + more)[..|lines + more| - 1] == lines + more[..n];
      assert (lines + more)[|lines + more| - 1] == more[n];
      NextCategoryNonEmpty(more[n], CategoryAfter(lines + more[..n]));
    }
  }

  lemma NextCategoryNonEmpty(line: string, category: string)
    requires category != ""
    ensures NextCategory(line, category) != ""
  {
    var l := Strip(line);
    if !(l == "" || IsListItem(l) || StartsWith(l, "#") || StartsWith(l, "http")) {
      var c := RemoveChar(l, '#');
      assert l[0] != '#';
      StripSpec(line);
      assert c[0] == l[0] && !IsSpace(c[0]);
      assert TrimLeft(c) == c;
      TrimRightSpec(c);
      assert TrimRight(c) != "";
    }
  }
}

/** Worked examples: link lines, `#` headings, blank link text and `6.` lines. */
module TocExample {
  import opened Wrappers
  import opened Text
  import opened Links
  import opened Toc

  /** The groups of `- [text](target)` are found at position 2, the first `[`. */
  lemma LinkLineMatch(text: string, target: string)
    requires text != "" && ']' !in text && target != "" && ')' !in target
    ensures FindLink("- [" + text + "](" + target + ")") == Some(Link(text, target))
  {
    var line := "- [" + text + "](" + target + ")";
    assert line[3..3 + |text|] == text;
    assert line[5 + |text|..|line| - 1] == target;
    assert IsLinkAt(line, 2, Link(text, target));
    MatchAtComplete(line, 2, Link(text, target));
    assert MatchAt(line, 0).None? && MatchAt(line, 1).None?;
    assert FindLinkFrom(line, 0) == FindLinkFrom(line, 1) == FindLinkFrom(line, 2);
  }

  /** `- [text](target)` is a list item whose link has exactly those two groups. */
  lemma LinkLine(text: string, target: string)
    requires text != "" && ']' !in text && target != "" && ')' !in target
    requires !IsSpace(text[0]) && !IsSpace(text[|text| - 1])
    requires !IsSpace(target[0]) && !IsSpace(target[|target| - 1])
    ensures var line := "- [" + text + "](" + target + ")";
      Strip(line) == line && IsListItem(line) && FindLink(line) == Some(Link(text, target))
    ensures Strip(text) == text && Strip(target) == target
  {
    var line := "- [" + text + "](" + target + ")";
    StripNoop(line);
    StripNoop(text);
    StripNoop(target);
    LinkLineMatch(text, target);
    assert StartsWith(line, "-");
  }

  /**
   * A `#` heading followed by the link line `- [text](target)` gives one
   * record, and its category is empty: a `#` heading is not a category line
   * (so `## Setup` then `- [Installation](https://x/install)` gives the
   * record `Installation` with no category).
   */
  lemma HeadingThenLink(heading: string, text: string, target: string)
    requires heading != [] && heading[0] == '#' && !IsSpace(heading[|heading| - 1])
    requires text != "" && ']' !in text && target != "" && ')' !in target
    requires !IsSpace(text[0]) && !IsSpace(text[|text| - 1])
    requires !IsSpace(target[0]) && !IsSpace(target[|target| - 1])
    ensures ParseLines([heading, "- [" + text + "](" + target + ")"], None)
         == [Section(text, "", target, text)]
  {
    var link := "- [" + text + "](" + target + ")";
    var lines := [heading, link];
    StripNoop(heading);
    assert StartsWith(heading, "#");
    assert !IsListItem(heading);
    LinkLine(text, target);
    assert lines[..0] == [];
    ScanStep(lines, 0, None);
    ScanStep(lines, 1, None);
    assert lines[..2] == lines;
  }

  /**
   * The link text is stripped only after the match, so a link whose text is
   * blank, `- [ ](target)`, still gives a record, and its title is empty.
   */
  lemma BlankTitle(target: string, category: string)
    requires target != "" && ')' !in target && !IsSpace(target[0]) && !IsSpace(target[|target| - 1])
    ensures Emit("- [ ](" + target + ")", category, None) == Some(Section("", category, target, Describe(category, "")))
  {
    var line := "- [ ](" + target + ")";
    StripNoop(line);
    StripNoop(target);
    LinkLineMatch(" ", target);
    assert line == "- [" + " " + "](" + target + ")";
    assert Strip(" ") == "";
    assert StartsWith(line, "-");
  }

  /** A line numbered `6.` to `9.` has no list marker, so it is read as a category line. */
  lemma SixIsNotListItem(d: char, rest: string)
    requires '6' <= d <= '9'
    ensures !IsListItem([d, '.'] + rest)
  {
    var l := [d, '.'] + rest;
    assert l[..1] == [d] && l[..2] == [d, '.'];
  }

  /**
   * A plain line (no list marker, no `#`, not starting with `http`, no
   * surrounding spaces) becomes the category exactly as written.
   */
  lemma PlainLineSetsCategory(line: string, category: string)
    requires line != [] && !IsSpace(line[0]) && !IsSpace(line[|line| - 1])
    requires '#' !in line && !IsListItem(line) && !StartsWith(line, "http")
    ensures NextCategory(line, category) == line
  {
    StripNoop(line);
    RemoveAbsent(line, '#');
    assert !StartsWith(line, "#") by {
      assert line[..1] != "#";
    }
  }
}
