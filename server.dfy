/**
 * The response assembly of the two operations, `_identify_sections_async`
 * and `_fetch_content_async`, over documents already fetched.  A fetch is an
 * input: the text of the document, or the error that the HTTP request
 * raised (a transport failure or a non-2xx status).
 */
module Server {
  import opened Wrappers
  import opened Text
  import opened Dicts
  import opened Toc
  import opened Sections

  /** `str(e)`, `type(e).__name__` and `traceback.format_exc()`, as opaque strings. */
  datatype FetchError = FetchError(message: string, errorType: string, traceback: string)

  /** `Ok(text)` for `response.text`, `Err(e)` when the request raised. */
  type Fetch = Result<string, FetchError>

  /** The answer of the discovery operation; a failure carries an empty `raw_toc_content`. */
  datatype DiscoverResponse =
    | Discovered(query: string, rawTocContent: string, sectionUrls: Dict<string>)
    | DiscoverFailed(error: FetchError, query: string)

  /** One value of `extracted_content`: `{url, content}`. */
  datatype SectionEntry = SectionEntry(url: string, content: string)

  /** The answer of the fetch operation; a failure carries an empty `extracted_content`. */
  datatype FetchResponse =
    | Fetched(userQuery: string, extractedContent: Dict<SectionEntry>, sectionsFound: nat)
    | FetchFailed(error: FetchError, userQuery: string)

  const URL_NOT_FOUND := "URL not found"

  /** `{section["title"]: section["url"] for section in parsed_sections}` */
  function UrlMap(sections: seq<Section>): Dict<string>
    decreases |sections|
  {
    if sections == [] then []
    else
      var n := |sections| - 1;
      Put(UrlMap(sections[..n]), sections[n].title, sections[n].url)
  }

  function Titles(sections: seq<Section>): (ts: seq<string>)
    ensures |ts| == |sections|
    ensures forall i :: 0 <= i < |sections| ==> ts[i] == sections[i].title
    decreases |sections|
  {
    if sections == [] then [] else
      var n := |sections| - 1;
      Titles(sections[..n]) + [sections[n].title]
  }

  /** Reference reading of the url map: the url of the last record with this title, searching from the end. */
  function LastUrl(sections: seq<Section>, title: string): Option<string>
    decreases |sections|
  {
    if sections == [] then None
    else if sections[|sections| - 1].title == title then Some(sections[|sections| - 1].url)
    else LastUrl(sections[..|sections| - 1], title)
  }

  /** The url map sends each title to the url of its last record: a later duplicate overwrites an earlier one. */
  lemma {:induction false} UrlMapLastWins(sections: seq<Section>, title: string)
    ensures Get(UrlMap(sections), title) == LastUrl(sections, title)
    decreases |sections|
  {
    if sections != [] {
      UrlMapLastWins(sections[..|sections| - 1], title);
    }
  }

  /** The url map has one key per distinct title, in order of first appearance. */
  lemma {:induction false} UrlMapKeys(sections: seq<Section>)
    ensures Keys(UrlMap(sections)) == Distinct(Titles(sections))
    decreases |sections|
  {
    if sections != [] {
      var n := |sections| - 1;
      UrlMapKeys(sections[..n]);
      assert Titles(sections)[..n] == Titles(sections[..n]);
    }
  }

  /** `LastUrl` finds the last record with the title, and finds nothing when no record has it. */
  lemma {:induction false} LastUrlSpec(sections: seq<Section>, title: string)
    ensures LastUrl(sections, title).Some? ==>
      exists j :: 0 <= j < |sections| && sections[j].title == title && sections[j].url == LastUrl(sections, title).value
                  && forall j' :: j < j' < |sections| ==> sections[j'].title != title
    ensures LastUrl(sections, title).None? ==> forall j :: 0 <= j < |sections| ==> sections[j].title != title
    decreases |sections|
  {
    if sections != [] {
      var n := |sections| - 1;
      LastUrlSpec(sections[..n], title);
      if sections[n].title != title && LastUrl(sections, title).Some? {
        var j :| 0 <= j < n && sections[..n][j].title == title && sections[..n][j].url == LastUrl(sections, title).value
                 && forall j' :: j < j' < n ==> sections[..n][j'].title != title;
        assert sections[j] == sections[..n][j];
      }
    }
  }

  /** `_identify_sections_async(user_query)`, given the outcome of fetching the table of contents. */
  method IdentifySections(toc: Fetch, userQuery: string) returns (r: DiscoverResponse)
    ensures toc.Err? ==> r == DiscoverFailed(toc.error, userQuery)
    ensures toc.Ok? ==> r == Discovered(userQuery, toc.value, UrlMap(ParseLines(TocLines(toc.value), None)))
  {
    if toc.Err? {
      return DiscoverFailed(toc.error, userQuery);
    }
    var parsedSections := ParseToc(toc.value, None);
    var sectionUrlMap := UrlMap(parsedSections);
    return Discovered(userQuery, toc.value, sectionUrlMap);
  }

  /**
   * The loop that builds `sections_with_urls`: every extracted section, in
   * the same order, paired with its url from the url map or the
   * `URL not found` placeholder.
   */
  method AttachUrls(sectionUrlMap: Dict<string>, contentSections: Dict<string>)
    returns (sectionsWithUrls: Dict<SectionEntry>)
    requires forall a, b :: 0 <= a < b < |Keys(contentSections)| ==> Keys(contentSections)[a] != Keys(contentSections)[b]
    ensures Keys(sectionsWithUrls) == Keys(contentSections)
    ensures forall t :: t in Keys(contentSections) ==>
      Get(sectionsWithUrls, t) == Some(SectionEntry(GetOr(sectionUrlMap, t, URL_NOT_FOUND), Get(contentSections, t).value))
  {
    sectionsWithUrls := [];
    for k := 0 to |contentSections|
      invariant Keys(sectionsWithUrls) == Keys(contentSections)[..k]
      invariant forall t :: t in Keys(contentSections)[..k] ==>
        Get(sectionsWithUrls, t) == Some(SectionEntry(GetOr(sectionUrlMap, t, URL_NOT_FOUND), Get(contentSections, t).value))
    {
      var title, content := contentSections[k].key, contentSections[k].value;
      GetAt(contentSections, k);
      assert Keys(contentSections)[..k + 1] == Keys(contentSections)[..k] + [title];
      assert title !in Keys(contentSections)[..k];
      var url := GetOr(sectionUrlMap, title, URL_NOT_FOUND);
      sectionsWithUrls := Put(sectionsWithUrls, title, SectionEntry(url, content));
    }
    assert Keys(contentSections)[..|contentSections|] == Keys(contentSections);
  }

  /**
   * `_fetch_content_async(section_titles, user_query)`, given the outcomes of
   * fetching the table of contents and then the full docs (the second is
   * not looked at when the first failed).
   */
  method FetchContent(toc: Fetch, docs: Fetch, sectionTitles: seq<string>, userQuery: string)
    returns (r: FetchResponse)
    ensures toc.Err? ==> r == FetchFailed(toc.error, userQuery)
    ensures toc.Ok? && docs.Err? ==> r == FetchFailed(docs.error, userQuery)
    ensures toc.Ok? && docs.Ok? ==>
      r.Fetched? && r.userQuery == userQuery
      && r.sectionsFound == |Distinct(sectionTitles)|
      && Keys(r.extractedContent) == Distinct(sectionTitles)
      && forall t :: t in sectionTitles ==>
           Get(r.extractedContent, t) == Some(SectionEntry(
             GetOr(UrlMap(ParseLines(TocLines(toc.value), None)), t, URL_NOT_FOUND),
             SectionValue(docs.value, t)))
  {
    if toc.Err? {
      return FetchFailed(toc.error, userQuery);
    }
    if docs.Err? {
      return FetchFailed(docs.error, userQuery);
    }
    var parsedSections := ParseToc(toc.value, None);
    var sectionUrlMap := UrlMap(parsedSections);
    var contentSections := ExtractSections(docs.value, sectionTitles);
    var sectionsWithUrls := AttachUrls(sectionUrlMap, contentSections);
    return Fetched(userQuery, sectionsWithUrls, |contentSections|);
  }
}
