# OpenBB documentation server: text-parsing core

This project models the part of `server.py` that turns two fetched documents into answers. The server is an MCP server that answers questions about the OpenBB documentation.

- **Table of contents.** `_parse_toc` scans the table-of-contents text line by line. It keeps a current category and turns every list item that carries a markdown link `[title](url)` into a record `{title, category, url, description}`. An optional query narrows the records down.
- **Section lookup.** `_find_section_content` finds a section in the full documentation. Each section starts with front matter (`---`, `title: <name>`, …, `---`). The section's content runs up to the next boundary: a `---` line followed by `---` or a blank line.
- **Extraction.** `_extract_sections_from_docs` looks up each requested title. A missing or empty section gets the placeholder `Section '<title>' not found in documentation.`
- **Responses.** `_identify_sections_async` and `_fetch_content_async` build their response payloads from these pieces. One piece is the url map, which sends each title to its url.

Each document is an input. It is either its text or the error its request raised.

Files and modules:

- `wrappers.dfy`: `Option` and `Result`.
- `text.dfy` (`Text`): the Python string primitives the code uses, namely `strip`, `lower`, `startswith`, substring `in`, `replace(c, '')`, `split('\n')` and `'\n'.join`. Their laws are proved here, such as the split/join round trip and what `strip` removes.
- `dicts.dfy` (`Dicts`): a Python `dict` with string keys, modelled as an insertion-ordered list of entries. Assigning an existing key replaces its value in place; a new key is appended.
- `links.dfy` (`Links`): the regex `\[([^\]]+)\]\(([^)]+)\)` written out as a leftmost-match scan. It is proved against a declarative reading of the pattern.
- `toc.dfy` (`Toc`): the table-of-contents loop `ParseToc`. It is specified by `ParseLines`, a fold over the lines read so far.
- `toc_props.dfy` (`TocProperties`, `TocExample`): what the parsed records satisfy, plus worked cases.
- `sections.dfy` (`Sections`): the section finder and the extractor as loops. They are specified by `SectionContent` and `SectionValue`.
- `sections_props.dfy` (`SectionProperties`): what a lookup returns, stated without the scan.
- `server.dfy` (`Server`): the response assembly for both operations.

Edge-case behaviour:

- **`#` headings.** A `#` heading never sets the category. The category keeps its previous value, which is empty at the start. So `## Setup` followed by `- [Installation](…)` gives a record with no category (`TocExample.HeadingThenLink`).
- **Empty parts.** A record's title or url can be empty. The matched groups are stripped only after the pattern has matched, so `- [ ](target)` gives a record whose title is empty (`TocExample.BlankTitle`), and a url made only of whitespace gives an empty url. What is promised non-empty are the groups before stripping (`Links.FindLinkLeftmost`).

## Model

| member | source | states |
|---|---|---|
| Toc.ParseToc | server.py:299-337 | The loop's result equals `ParseLines` over `toc.strip().split('\n')`. Its invariants say the current category is `CategoryAfter` of the lines read, and the records so far are `ParseLines` of those lines. |
| TocProperties.ParseProvenance | server.py:306-335 | Record `j` is what line `Origins[j]` emits under the category current there. The origin lines strictly increase, so input order is kept and no line is used twice. Every line that emits a record is an origin. |
| TocProperties.EmitIff | server.py:307-335 | A line produces record `s` exactly when its stripped form is non-blank, starts with a list marker and contains a link. `s` then holds the stripped groups and the current category, its description is built from them, and the query does not filter it out. |
| TocProperties.ParseCountBound | server.py:306-335 | There are never more records than list-marker lines. |
| TocProperties.ParseDescriptions | server.py:330-335 | Every record's description is `category + ": " + title` when the category is non-empty, and `title` otherwise. |
| TocProperties.ParseQueryMatches | server.py:327-328 | With a non-empty query, every record contains the lower-cased query in its lower-cased title or its lower-cased category. |
| TocProperties.ParseFilterIsKeep | server.py:327-328 | Parsing with a query gives exactly the records of the unfiltered parse that match the query, in the same order. |
| TocProperties.ParseEmptyQuery | server.py:327 | An empty query and no query give the same records, so nothing is filtered out. |
| TocProperties.NonListLine | server.py:313-318 | A line without a list marker adds no record. A blank line, or one starting with `#` or `http`, keeps the category. Any other such line sets the category to the line with every `#` removed, then trimmed. |
| TocProperties.ListLineKeepsCategory | server.py:313-318 | A list-item line never changes the category. |
| TocProperties.CategoryHasNoHash | server.py:317 | The current category never contains `#`. |
| TocProperties.CategoryNeverCleared | server.py:316-317 | Once the category is non-empty, no later line makes it empty again. |
| TocExample.LinkLine | server.py:314-324 | `- [text](target)` is its own strip and a list item, and its link groups are exactly `text` and `target`. |
| TocExample.HeadingThenLink | server.py:314-335 | A `#` heading followed by a link line gives one record whose category is empty. |
| TocExample.BlankTitle | server.py:321-335 | `- [ ](target)` gives a record whose title is empty. |
| TocExample.SixIsNotListItem | server.py:314 | A line starting `6.` to `9.` has no list marker. |
| Links.MatchAtIff | server.py:321 | The match attempt at position `p` succeeds with groups `k` exactly when the pattern occurs at `p` with those groups. |
| Links.FindLinkLeftmost | server.py:321-324 | `re.search` returns the groups of a match at some position, with no match starting earlier. It returns nothing exactly when the pattern occurs nowhere. Both groups are non-empty and exclude `]` or `)` respectively. |
| Sections.ReadSectionAt | server.py:388-410 | The two inner loops return the newline-join of the lines after the first `---` following the title line, up to the first boundary or the end of the document. |
| Sections.FindSectionContent | server.py:359-414 | The loop returns `SectionContent` of the document's lines. |
| SectionProperties.NotFoundIff | server.py:377-414 | The lookup returns nothing exactly when no line, stripped and lower-cased, starts with `title:` and has a remainder that equals the title ignoring case. |
| SectionProperties.BodyBetween | server.py:388-410 | Let `i` be the first matching title line, `d` the first `---` after it, and `e` the first boundary after `d`, or the end of the document. The content is then the unstripped lines strictly between `d` and `e`, joined by newlines. Later title lines are ignored, and a `---` on the last line is part of the content. |
| SectionProperties.NoClosingDelimiter | server.py:391-410 | When no `---` follows the title line, the content is the empty string. |
| SectionProperties.TitleCaseInsensitive | server.py:386 | Titles that lower-case alike find the same first line and the same content. |
| SectionProperties.FirstBlock | server.py:374-410 | When the document opens with `---`, `title: a`, `---`, body lines with no `---`, then `---` and a blank line, the content is exactly the body, whatever follows. |
| SectionProperties.NotFoundNamesTitle | server.py:350 | The placeholder contains the title. |
| Sections.ExtractSections | server.py:340-356 | The keys are the distinct requested titles, in first-request order and original casing. Each value is the section's content, or the placeholder when the section is missing or empty. |
| Server.UrlMapLastWins | server.py:216-219 | The url map sends a title to the url of the last record with that title, so a later duplicate overwrites an earlier one. |
| Server.UrlMapKeys | server.py:216-219 | The url map has one key per distinct record title, in order of first appearance. |
| Server.LastUrlSpec | server.py:260-263 | The reference reading of the url map finds the last record with the title, and finds nothing when no record has it. |
| Server.IdentifySections | server.py:201-239 | A failed fetch gives the failure payload with the query. A successful one gives the query, the raw text and the url map of the unfiltered parse. |
| Server.AttachUrls | server.py:270-276 | Every extracted section, in the same order, is paired with the exact-case url-map lookup of its title, or with `URL not found`. |
| Server.FetchContent | server.py:240-296 | A failure of either fetch gives the failure payload, and the docs result is ignored when the table of contents failed. Otherwise `extracted_content` has the distinct requested titles as keys, each holding its url (or `URL not found`) and its extracted content. `sections_found` is the number of distinct requested titles, found or not. |
| Dicts.Put | server.py:348-350 | Assigning a key keeps the key order (a new key goes last), gives the key its new value and leaves every other key's value unchanged. |
| Dicts.Get | server.py:272 | A lookup finds nothing exactly when the key is absent. |
| Dicts.Distinct | server.py:344-350 | The keys that assigning a list of titles leaves behind: the same elements, with no repeats. |
| Dicts.DistinctOrder | server.py:344-350 | Those keys come in order of the first occurrence of each title. |
| Dicts.GetOr | server.py:272 | `get(k, default)` gives the stored value when the key is present, and the default exactly when it is absent. |
| Text.StripSpec | server.py:307 | `strip()` gives the slice of its argument left once the leading and trailing whitespace are removed. |
| Text.Strip | server.py:302-404 | `str.strip()`, used at lines 302, 307, 317, 323-324, 378, 383, 391 and 402-404. `Text.StripSpec` states its meaning: the slice left when leading and trailing whitespace are cut, with non-space ends. `Text.StripNoop` says a string with non-space ends is its own strip. |
| Text.StartsWith | server.py:314-381 | `str.startswith`, used at lines 314, 316 and 381: the string begins with `p`, character for character. This predicate is the definition itself. |
| Text.JoinSplit | server.py:374 | Joining the pieces of `split('\n')` with newlines gives the text back. |
| Text.SplitJoin | server.py:410 | Splitting a join of newline-free lines gives the lines back. |
| Text.RemoveChar | server.py:317 | The result of `replace('#', '')` holds no `#`, and exactly the other characters of the line (as a set). A leading non-`#` character stays first. |
| Text.RemoveCharAppend | server.py:317 | `replace(c, '')` distributes over concatenation. With `Text.RemoveCharOne` (one character: dropped if it is `c`, kept otherwise), this fixes the result character by character, in order and with multiplicity. |
| Text.RemoveCharOne | server.py:317 | On a one-character string, `replace(c, '')` gives the empty string for `c` and the character itself otherwise. |
| Text.RemoveAbsent | server.py:317 | A string without `c` is unchanged by `replace(c, '')`. |
| Text.LowerSpec | server.py:327 | `lower()` maps each upper-case ASCII letter to its lower-case counterpart (32 code points on). It keeps every character that is not an upper-case ASCII letter, leaves no upper-case ASCII letter, and changes nothing when applied twice. |
| Text.Lower | server.py:327 | The result has the length of the input, position for position. `Text.LowerSpec` states what each position becomes. |
| Text.Contains | server.py:327 | Substring `in`: the needle occurs at some offset of the haystack. This predicate is the reference definition itself. The `if query` test at line 327 guards against a missing query (`None`). For `""` the substring test alone would filter nothing (`Text.ContainsEmpty`, `TocProperties.EmptyQuerySubstring`). |
| Text.ContainsEmpty | server.py:327 | The empty string is contained in every string. |
| Text.Split | server.py:374 | `split('\n')` gives at least one piece, and no piece holds a newline. `Text.JoinSplit` and `Text.SplitJoin` make it the inverse of `Text.Join`. |
| Text.Join | server.py:410 | `'\n'.join`, the inverse of `Text.Split` by `Text.JoinSplit` and `Text.SplitJoin`. |
| Server.UrlMap | server.py:216-219 | The dict comprehension at 216-219 (and again at 260-263). `Server.UrlMapLastWins` states its lookups and `Server.UrlMapKeys` its keys. |
| Toc.Emit | server.py:320-335 | The record one line contributes. `TocProperties.EmitIff` characterises it in both directions. |
| Toc.NextCategory | server.py:313-318 | The current category after one line. `TocProperties.NonListLine` and `TocProperties.ListLineKeepsCategory` state it; `TocProperties.CategoryHasNoHash` and `TocProperties.CategoryNeverCleared` hold for every scan. |
| Toc.IsListItem | server.py:314 | The seven list markers. `TocExample.SixIsNotListItem` shows a `6.` to `9.` line is not one. |
| Toc.FilteredOut | server.py:327-328 | The query test. `TocProperties.ParseQueryMatches`, `TocProperties.ParseFilterIsKeep` and `TocProperties.ParseEmptyQuery` state what it does to the records. |
| Toc.Describe | server.py:334 | The f-string conditional for the description. `TocProperties.ParseDescriptions` states that every record's description is built this way. |
| Sections.IsDelimiter | server.py:391-404 | `lines[j].strip() == '---'`, at lines 391 and 402-404. `SectionProperties.BodyBetween` states that the first one after the title line opens the content. |
| TocProperties.EmptyQuerySubstring | server.py:327 | The empty query filters nothing out, and on its own the substring test would already keep every record. |
| TocExample.PlainLineSetsCategory | server.py:314-317 | A plain line (no list marker, no `#`, not starting with `http`, no surrounding spaces) becomes the category exactly as written. |
| TocProperties.OriginsAreLinkItems | server.py:314-324 | Over the whole scan, every record's line is a stripped list item containing a link. No line without a list marker, and no line without a link, is ever a record's origin. |
| Links.FindLink | server.py:321 | Any groups found are non-empty and free of `]` or `)`. `Links.FindLinkLeftmost` states that they come from the leftmost match. |
| Sections.IsTitleLine | server.py:381-386 | A `title:` line naming the title, compared ignoring case. `SectionProperties.NotFoundIff` and `SectionProperties.TitleCaseInsensitive` state what the lookup does with such lines. |
| Sections.IsBoundary | server.py:402-404 | A `---` line whose next line is `---` or blank. `SectionProperties.BodyBetween` states that the content stops at the first one. |
| Sections.SectionValue | server.py:346-350 | The value stored for a title: its content, or `Sections.NotFound` when the content is missing or empty. `Sections.ExtractSections` states that every requested title gets it. |
| Sections.NotFound | server.py:350 | The placeholder text. `SectionProperties.NotFoundNamesTitle` states that it names the title. |

## Left out

- HTTP: the `httpx` client, timeouts and `raise_for_status` (server.py:207-210, 247-256). Each document is an input, either its text or an error.
- HTTP: a fetch that never completes is not modelled.
- Transport: FastMCP tool registration, the async wrappers, CORS middleware, uvicorn startup and the port variable. They are plumbing around the core.
- Error payloads: `str(e)`, `type(e).__name__` and `traceback.format_exc()` are carried as opaque strings in `FetchError`.
- Logging: not modelled, because it has no effect on results.
- The per-title `except` branch of `_extract_sections_from_docs` (server.py:351-354). It cannot be reached for string inputs.
- `_identify_sections_async` and `_fetch_content_async` also catch exceptions from parsing, which cannot arise for string inputs.
- Text.Lower: models `lower()` on ASCII letters only. Python's Unicode case mapping is not modelled.
- Text.IsSpace: counts only ASCII whitespace (space, `\t` to `\r`, and `\x1c` to `\x1f`). Python's `strip()` also removes Unicode spaces.
- Concurrency: the async scheduling of the two operations is absent, because the operations share no mutable state.
- `test_server.py`: not part of this model. It is a live integration script against the remote documentation.
- Sections.ReadSectionAt: the two inner loops of `_find_section_content` are a separate method, to keep each proof small. The statements are the same as in the source.
- Server.AttachUrls: the `sections_with_urls` loop is a separate method for the same reason.
