# Parallel documentation crawler — a Dafny model

This project models `crawl_parallel` and the guard of `main` in
`crawl4AI_fast.py`. That code fetches a list of documentation URLs batch by
batch and writes one combined Markdown file. Each successful page gets a
section with its title, source link and content. A table of contents replaces
a placeholder heading once the batches are done, and two counters report
successes and failures. A peak memory reading is kept along the way.

The network is abstracted away: the crawl takes the URL list together with one
settled `Outcome` per URL. The outcome is either an `Exception` instance
returned by the gather or a crawl result, and outcome `p` belongs to URL `p`, as `zip` pairs
them. The output file is a class holding the characters stored in the file.
Opening it for writing empties it, every write appends, and reading it back in
text mode translates every "\r\n" and every other "\r" into "\n", as Python's
default `newline=None` does; the placeholder is replaced in the text as read. The memory reader is a parameter
`rss: nat -> nat`, which gives the value of the `k`-th reading.

Modules:

- `PyStr` (`pystr.dfy`) models the Python `str` operations the code uses, over
  ASCII: `find`, clamped slicing, `strip`, `lower`, single-character
  `replace`, `replace` of a whole pattern, and the line-end translation of
  reading a file back in text mode (`UniversalNewlines`).
- `Extraction` (`extract.dfy`) models the title fallback chain, the anchor slug
  and the content preference chain, and builds the entry of one outcome.
- `Batching` (`batching.dfy`) models `range(0, len(urls), n)` with the slices
  `urls[i:i + n]`.
- `Document` (`document.dfy`) gives the counters, the page list, the written
  body and the final document as functions of the URLs and outcomes. It also
  proves their properties.
- `Crawl` (`crawl.dfy`) holds the imperative run:
  - the `OutputFile` and `MemoryMonitor` classes;
  - the batch loop (`RunBatches`, `RunBatch`, `EvaluateBatch`);
  - the table-of-contents rewrite;
  - `CrawlParallel` and `RunCrawler`.

  Each method is proved against the `Document` functions.

The model follows the code at two points where a reader might expect
otherwise:

- The placeholder is replaced with Python `str.replace`. That replaces every
  non-overlapping occurrence from left to right, including a copy inside page
  content, not only the first one.
- When the HTML holds both title tags but the first `</title>` comes before
  the first `<title>`, the slice is empty. The title is then the empty string,
  not "Untitled Page". The same holds when the text between the tags is only
  whitespace.

A successful fetch with no content at all still counts as a success. It gets a
section whose content is `*No content extracted*`.

With a batch size of zero, Python's `range` raises after the header has been
written. `CrawlParallel` reports that as `raised`, and the final memory
reading is still taken. A negative batch size gives no batch at all.

## Model

| member | source | states |
|---|---|---|
| PyStr.Find | crawl4AI_fast.py:111-112 | `find` gives -1 exactly when the pattern does not occur; otherwise the index of an occurrence before which there is none |
| PyStr.FindAfterPrefix | crawl4AI_fast.py:111-112 | a pattern whose first character does not reappear in it is found right after a prefix that does not contain it |
| PyStr.FindAround | crawl4AI_fast.py:111-114 | for text between a first opening and a first closing pattern, both searches stop at its ends and the slice between them is that text |
| PyStr.Slice | crawl4AI_fast.py:114 | a slice within bounds is the subsequence; a slice whose end does not exceed its start is empty |
| PyStr.Strip | crawl4AI_fast.py:114 | `strip` never lengthens, leaves no whitespace at either end, and is empty exactly when the text is all whitespace |
| PyStr.StripSurrounded | crawl4AI_fast.py:114 | stripping whitespace-padded text whose ends are not whitespace gives that text |
| PyStr.StripIdempotent | crawl4AI_fast.py:114 | stripping twice is stripping once |
| PyStr.LowerStr | crawl4AI_fast.py:117 | `lower` keeps the length and lower-cases each character in place |
| PyStr.ReplaceChar | crawl4AI_fast.py:117 | replacing a character keeps the length and changes exactly the positions holding it |
| PyStr.RemoveChar | crawl4AI_fast.py:117 | removing a character never lengthens the text and leaves a character in it exactly when it is in the text and is not the removed one |
| PyStr.RemoveCharConcat | crawl4AI_fast.py:117 | a single character is kept exactly when it is not the removed one, and removing from a concatenation is removing from each part, which fixes the result's order and multiplicity |
| PyStr.UniversalNewlines | crawl4AI_fast.py:159-160 | reading back in text mode never lengthens the text and leaves no carriage return in it |
| PyStr.UniversalNewlinesFixed | crawl4AI_fast.py:159-160 | reading back leaves a text unchanged exactly when it holds no carriage return |
| PyStr.UniversalNewlinesConcat | crawl4AI_fast.py:159-160 | a text that does not end in a carriage return reads back independently of what follows it |
| PyStr.ReplaceAll | crawl4AI_fast.py:168 | computes `str.replace`: one left-to-right pass replacing every non-overlapping occurrence of the pattern |
| PyStr.ReplaceAllAbsent | crawl4AI_fast.py:168 | replacing a pattern that does not occur leaves the text unchanged |
| PyStr.ReplaceAllSkip | crawl4AI_fast.py:168 | a prefix in which no occurrence starts is kept and the replacement goes on after it |
| PyStr.ReplaceAllHead | crawl4AI_fast.py:168 | an occurrence at the start is replaced and the replacement goes on after it |
| Extraction.Succeeded | crawl4AI_fast.py:96-100 | decides the success branch: an outcome succeeded exactly when it is a returned result whose `success` is true; a returned `Exception` instance or a result with `success` false takes a failure branch |
| Extraction.Title | crawl4AI_fast.py:104-114 | computes the title: the metadata title if non-empty, else the stripped slice between the first `<title>` and the first `</title>` when the markup is non-empty and holds both, else "Untitled Page" |
| Extraction.TitleFallback | crawl4AI_fast.py:104-114 | a non-empty metadata title is used as it is; without metadata and without both tags the title is "Untitled Page" |
| Extraction.TitleStripped | crawl4AI_fast.py:109-114 | with both tags and no metadata title, the title is already stripped and no longer than the markup |
| Extraction.TitleFromTag | crawl4AI_fast.py:109-114 | markup whose first `<title>` and first `</title>` enclose a text gives that text stripped |
| Extraction.TitleFromFinds | crawl4AI_fast.py:111-114 | with both tags found, the title is the stripped slice from 7 past the first `<title>` to the first `</title>` |
| Extraction.TitleEmptyWhenCloseFirst | crawl4AI_fast.py:111-114 | when the first `</title>` precedes the first `<title>`, the title is empty rather than the sentinel |
| Extraction.KeepAnchorChars | crawl4AI_fast.py:118 | a character is in the filtered text exactly when it is in the input and is alphanumeric or `-` |
| Extraction.KeepAnchorCharsConcat | crawl4AI_fast.py:118 | a single character is kept exactly when it is alphanumeric or `-`, and filtering a concatenation is filtering each part, which fixes the result's order and multiplicity |
| Extraction.Anchor | crawl4AI_fast.py:117-118 | every character of an anchor is a lower-case ASCII letter, a digit or `-` |
| Extraction.AnchorPerChar | crawl4AI_fast.py:117-118 | the anchor of a title equals the concatenation, in order, of a per-character rendering that maps a space to `-`, keeps any other character's lower-case form when that is alphanumeric or `-`, and drops the rest |
| Extraction.AnchorSpecFixesSlug | crawl4AI_fast.py:117-118 | a text already in the slug alphabet is unchanged by the per-character reading |
| Extraction.AnchorIdempotent | crawl4AI_fast.py:117-118 | the anchor of an anchor is the anchor itself |
| Extraction.Fenced | crawl4AI_fast.py:143-146 | computes the fenced block written for `cleaned_html` or `html`: "```html", a line break, the code, a line break and "```" |
| Extraction.Content | crawl4AI_fast.py:133-146 | the chosen content is never empty |
| Extraction.ContentSentinel | crawl4AI_fast.py:133-146 | the sentinel is chosen exactly when all four representations are empty, or when a chosen markdown representation is itself the sentinel text |
| Extraction.ContentRawHtmlOnly | crawl4AI_fast.py:145-146 | a page with only raw HTML gets that HTML fenced, not the sentinel |
| Extraction.ContentFencedOnlyWithoutMarkdown | crawl4AI_fast.py:135-146 | a fenced block is chosen only when both markdown forms are empty, and it fences the cleaned HTML if present, else the raw HTML |
| Extraction.FencedInjective | crawl4AI_fast.py:143-146 | two fenced blocks are equal only when their code is |
| Extraction.Extract | crawl4AI_fast.py:99-146 | an outcome yields an entry exactly when it succeeded; the entry keeps its URL, its anchor is the anchor of its title and its content is non-empty |
| Batching.Batches | crawl4AI_fast.py:75-76 | computes the batches: consecutive slices `xs[i:i + size]` for `i` stepping by `size` from 0 |
| Batching.BatchesCover | crawl4AI_fast.py:75-76 | the batches, concatenated, give back the URL list |
| Batching.BatchesShape | crawl4AI_fast.py:75-76 | every batch is non-empty and at most the batch size long; all but the last are exactly that size |
| Batching.BatchAt | crawl4AI_fast.py:75-81 | element `j` of batch `b` is the URL at position `b * size + j`, which is its session number |
| Batching.BatchCount | crawl4AI_fast.py:75 | the number of batches is the length divided by the size, rounded up |
| Batching.BatchesStep | crawl4AI_fast.py:75-76 | the batch starting at `i` is `urls[i:i + size]`, followed by the batches of the rest |
| Batching.BatchesAdvance | crawl4AI_fast.py:75-76 | taking one more batch keeps "batches so far, then the batches of the rest" equal to the batches of the whole list |
| Document.JoinAppend | crawl4AI_fast.py:121-149 | the rendering of two page lists placed end to end is the two renderings placed end to end |
| Document.JoinAt | crawl4AI_fast.py:162-165 | page `i` contributes its own rendering between those of the pages before and after it, in both the contents and the sections |
| Document.CountSuccesses | crawl4AI_fast.py:95-100 | computes the number of outcomes that are results with `success` true |
| Document.CountFailures | crawl4AI_fast.py:95-154 | computes the number of outcomes that are raised exceptions or results with `success` false |
| Document.CountsCoverAll | crawl4AI_fast.py:95-154 | every outcome is counted exactly once: successes plus failures equal the number of URLs |
| Document.PrefixStep | crawl4AI_fast.py:96-154 | evaluating one more outcome adds one to exactly the counter of its branch |
| Document.SuccessIndices | crawl4AI_fast.py:95-100 | the positions of the successful outcomes, increasing, complete, and as many as the success count |
| Document.PagesStep | crawl4AI_fast.py:95-125 | the page list of a run is that of all but the last URL, then the last URL's entry if it succeeded |
| Document.Pages | crawl4AI_fast.py:121-125 | computes `successful_pages` (started empty at line 73): the entries of the successful outcomes, in URL order, with nothing for a failure |
| Document.PagesOfStep | crawl4AI_fast.py:121-125 | the page list grows by the entry at the next position, if there is one |
| Document.PagesFollowUrls | crawl4AI_fast.py:95-125 | there is one page per success, and page `k` is the entry of the `k`-th successful URL, so failed URLs contribute nothing |
| Document.JoinSnoc | crawl4AI_fast.py:128-149 | appending a page appends its rendering |
| Document.SectionText | crawl4AI_fast.py:129-149 | computes one page's section: heading with the title, source line with the URL twice, the content, then the separator |
| Document.Sections | crawl4AI_fast.py:128-149 | computes what the batch loop appends to the file: the section of every successful page, in page order |
| Document.Body | crawl4AI_fast.py:33-36 | computes the file before the contents step: the header written at these lines (title, subtitle, placeholder heading) followed by the sections appended at lines 128-149 |
| Document.TocLine | crawl4AI_fast.py:164 | computes one contents line linking the title to `#` and the anchor |
| Document.TocText | crawl4AI_fast.py:162-165 | computes the contents: the placeholder heading, one line per page in order, then the rule |
| Document.FinalDocument | crawl4AI_fast.py:158-171 | computes the file after the contents step: the body unchanged without pages, else the body read back in text mode with every placeholder occurrence replaced by the contents |
| Document.BodyReadBack | crawl4AI_fast.py:159-160 | reading the body back gives the header unchanged followed by the sections as read back |
| Document.HeaderHasNoCarriageReturn | crawl4AI_fast.py:33-36 | the header written at the start holds no carriage return |
| Document.HeaderTitleHasNoPlaceholder | crawl4AI_fast.py:33-36 | no occurrence of the placeholder starts inside the header title |
| Document.SpliceAfterTitle | crawl4AI_fast.py:168 | on a body that starts with the header, the replacement keeps the title, puts the contents in the placeholder's place and carries on through the sections |
| Document.FinalDocumentWithoutPages | crawl4AI_fast.py:158-171 | without a successful page the file is the header alone, with the placeholder heading left in place |
| Document.FinalDocumentShape | crawl4AI_fast.py:158-171 | with a successful page the file is the title, the contents, then the sections as read back with every copy of the placeholder in them replaced too |
| Document.FinalDocumentPlain | crawl4AI_fast.py:158-171 | when no section contains a carriage return or the placeholder text, the file is the title, the contents, then the sections unchanged |
| Document.ThreeUrlBatches | crawl4AI_fast.py:75-76 | three URLs in batches of two are split as the first two and the third |
| Document.ThreeUrlCounts | crawl4AI_fast.py:95-154 | three outcomes with the middle one failing give two successes and one failure |
| Document.ThreeUrlPages | crawl4AI_fast.py:95-125 | three URLs with the middle one failing give the pages of the first and third, in that order |
| Crawl.OutputFile.Write | crawl4AI_fast.py:128-149 | a write appends its text to the file |
| Crawl.OutputFile.Truncate | crawl4AI_fast.py:170 | opening for writing empties the file |
| Crawl.OutputFile.Read | crawl4AI_fast.py:159-160 | reading the file gives its text with "\r\n" and a lone "\r" translated into "\n" |
| Crawl.MaxOf | crawl4AI_fast.py:38-43 | computes the peak: 0 for no reading, else the larger of the last reading and the peak of the earlier ones |
| Crawl.MaxOfBounds | crawl4AI_fast.py:38-43 | the peak bounds every reading and, unless there is none, is one of them |
| Crawl.MemoryMonitor.Log | crawl4AI_fast.py:38-43 | a reading is recorded; the peak never decreases, is at least the reading and stays the largest reading so far |
| Crawl.BuildTasks | crawl4AI_fast.py:79-83 | URL `j` of the batch that starts at `i` is launched in session `i + j` |
| Crawl.LaunchesAt | crawl4AI_fast.py:75-83 | over the run, URL `p` is launched in session `p` |
| Crawl.Launches | crawl4AI_fast.py:75-83 | computes the `arun` calls of the first `n` URLs of the run: one task per URL in URL order, the URL at position `p` in session `p` |
| Crawl.LaunchesExtend | crawl4AI_fast.py:75-83 | the tasks of one more batch extend the launches of the run so far |
| Crawl.SessionIdsDistinct | crawl4AI_fast.py:79-81 | no two launched tasks share a session id |
| Crawl.BuildToc | crawl4AI_fast.py:162-165 | the contents built with `+=` are the heading, one line per page in page order, then the rule |
| Crawl.WriteHeader | crawl4AI_fast.py:33-36 | the truncated file receives the title, the note and the placeholder heading |
| Crawl.WriteSection | crawl4AI_fast.py:128-149 | one page appends its heading, source line, content and separator |
| Crawl.TalliedStep | crawl4AI_fast.py:95-125 | evaluating one more outcome counts it once and appends its entry, if any |
| Crawl.EvaluateBatch | crawl4AI_fast.py:95-154 | after a batch the counters and page list are those of every outcome so far, and the file grew by the sections of the new pages |
| Crawl.RunBatch | crawl4AI_fast.py:75-154 | one batch launches its tasks with their session ids, takes two memory readings and evaluates its outcomes |
| Crawl.RunBatches | crawl4AI_fast.py:75-154 | the loop takes the batches in order, launches every URL once, counts every outcome, writes one section per success in URL order and takes two readings per batch |
| Crawl.SpliceToc | crawl4AI_fast.py:158-171 | with pages, the file becomes its text as read back in text mode with every placeholder replaced by the contents; without, it is left alone |
| Crawl.CrawlParallel | crawl4AI_fast.py:20-189 | raises exactly for a zero batch size; for a positive size the counters count the outcomes, every URL is launched in its own session and the file is the final document; otherwise the file is the header alone; the peak is the largest of the readings, two per batch plus one at the end |
| Crawl.RunCrawler | crawl4AI_fast.py:196-204 | the crawl runs exactly when some URL was found; the file is then the final document and the counters sum to the URL count; otherwise the file is untouched |

## Left out

- URL discovery (`extract_doc_links` in `anchorl_url_generator.py`) is not part of this model: the URL list is an input, and the prompt for the seed URL goes with it.
- The crawl4ai library (browser and run configuration, `start`, `arun`, `close`) is foreign code: a fetch is its settled `Outcome`, and the configuration constants are not modelled.
- `hasattr` probing and falsy attributes: an absent, `None` or empty attribute is the empty string, and a metadata dictionary without a usable title is an empty metadata title.
- `asyncio.gather` concurrency: a batch is evaluated in order over its outcomes, paired by position; nothing about timing or interleaving is modelled.
- psutil and the clock: the resident memory reading is the parameter `rss`, and elapsed-time measurement and its formatting are not modelled.
- Printed diagnostics, including the megabyte division inside the memory log line and the status code of a failed result, are not modelled.
- The file system: directory creation and the output path are not modelled; the file is the `text` field of `OutputFile`.
- Extraction.Succeeded: a returned `BaseException` that is not an `Exception` (such as the `asyncio.CancelledError` of a cancelled task) is not modelled; the test at crawl4AI_fast.py:96 lets it through, `result.success` at line 99 raises `AttributeError` outside the inner `try`, and the run ends through the `finally` with the remaining outcomes uncounted and no table of contents, whereas every `Raised` of the model is an `Exception` counted as a failure.
- Crawl.OutputFile.Write: the model stores written text as it is, which is what text mode does on POSIX systems; on Windows every written "\n" is stored as "\r\n", which the model does not capture.
- Crawl.OutputFile.Read: characters are the stored unit; UTF-8 encoding and decoding are not modelled, and a text that cannot be encoded (a lone surrogate) would make the program fail where the model does not.
- Crawl.EvaluateBatch: the exception handler around a page's processing is not modelled, because it only fires when a write fails; the model assumes every write succeeds, so a page in the contents always has its whole section.
- Crawl.CrawlParallel: the session id is its number `i + j`, not the string `parallel_session_{i + j}`; only the number distinguishes sessions.
- Crawl.CrawlParallel: the `ValueError` of a zero batch size is the `raised` flag; the header is written and the final memory reading is taken, but the exception object itself is not modelled.
- Unicode: `lower`, `isalnum` and `strip` are modelled on ASCII only; other characters are neither letters, digits nor whitespace and are unchanged by `lower`.
