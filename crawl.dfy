/** The run itself: the output file written header first, the batch loop
    that classifies every settled outcome and appends a section per
    successful page, the table-of-contents rewrite, the peak-memory
    tracker, and the guard that skips the crawl when no URL was found. */
module Crawl {
  import opened PyStr
  import opened Extraction
  import opened Batching
  import opened Document

  /** The combined Markdown file, as the characters stored in it: opening it
      for writing empties it, every write appends (writing in text mode
      stores "\n" as it is), and reading in text mode gives the whole text
      with its line ends translated. */
  class OutputFile {
    var text: string

    constructor (initial: string)
      ensures text == initial
    {
      text := initial;
    }

    /** `open(output_file, "w")` */
    method Truncate()
      modifies this
      ensures text == []
    {
      text := [];
    }

    /** `f.write(s)` */
    method Write(s: string)
      modifies this
      ensures text == old(text) + s
    {
      text := text + s;
    }

    /** `f.read()` on a file opened with `open(output_file, "r")`: the
        default `newline=None` turns "\r\n" and a lone "\r" into "\n". */
    method Read() returns (s: string)
      ensures s == UniversalNewlines(text)
    {
      s := UniversalNewlines(text);
    }
  }

  // ---------------------------------------------------------------------------
  // Peak memory

  /** The largest reading, or 0 (the initial peak) when there is none. */
  function MaxOf(readings: seq<nat>): nat {
    if readings == [] then 0
    else
      var m := MaxOf(readings[..|readings| - 1]);
      var last := readings[|readings| - 1];
      if last > m then last else m
  }

  /** The peak bounds every reading and, unless there is none, is one of them. */
  lemma {:induction false} MaxOfBounds(readings: seq<nat>)
    ensures forall k | 0 <= k < |readings| :: readings[k] <= MaxOf(readings)
    ensures readings == [] || MaxOf(readings) in readings
  {
    if readings != [] {
      var init := readings[..|readings| - 1];
      MaxOfBounds(init);
      assert forall k | 0 <= k < |init| :: readings[k] == init[k];
      assert readings == init + [readings[|readings| - 1]];
    }
  }

  /** Reading `k` is what `rss` gave at the `k`-th call. */
  ghost predicate SampledBy(readings: seq<nat>, rss: nat -> nat) {
    forall k | 0 <= k < |readings| :: readings[k] == rss(k)
  }

  lemma SampledByExtend(readings: seq<nat>, rss: nat -> nat)
    requires SampledBy(readings, rss)
    ensures SampledBy(readings + [rss(|readings|)], rss)
  {
  }

  /** `peak_memory` and the `log_memory` helper that raises it. */
  class MemoryMonitor {
    var peak: nat
    /** Every reading taken so far, in order. */
    ghost var readings: seq<nat>

    ghost predicate Valid()
      reads this
    {
      peak == MaxOf(readings)
    }

    constructor ()
      ensures Valid() && readings == [] && peak == 0
    {
      peak := 0;
      readings := [];
    }

    /** Takes one reading of the resident memory; the peak never decreases
        and is at least the new reading. */
    method Log(current: nat)
      requires Valid()
      modifies this
      ensures Valid() && readings == old(readings) + [current]
      ensures peak >= old(peak) && peak >= current
    {
      if current > peak {
        peak := current;
      }
      readings := readings + [current];
      assert readings[..|readings| - 1] == old(readings);
    }
  }

  // ---------------------------------------------------------------------------
  // Launching a batch and building the table of contents

  /** The arguments of one `crawler.arun` call: the URL and the number `n` in
      its session id `parallel_session_n`. */
  datatype Task = Task(url: string, sessionId: nat)

  /** The tasks of the batch that starts at position `start`: URL `j` of the
      batch runs in session `start + j`. */
  method BuildTasks(batch: seq<string>, start: nat) returns (tasks: seq<Task>)
    ensures |tasks| == |batch|
    ensures forall j | 0 <= j < |batch| :: tasks[j] == Task(batch[j], start + j)
  {
    tasks := [];
    for j := 0 to |batch|
      invariant |tasks| == j
      invariant forall k | 0 <= k < j :: tasks[k] == Task(batch[k], start + k)
    {
      tasks := tasks + [Task(batch[j], start + j)];
    }
  }

  /** The tasks launched for the first `n` URLs, URL `p` in session `p`. */
  function Launches(urls: seq<string>, n: nat): (ts: seq<Task>)
    requires n <= |urls|
    ensures |ts| == n
  {
    if n == 0 then [] else Launches(urls, n - 1) + [Task(urls[n - 1], n - 1)]
  }

  /** Launch `p` is URL `p` in session `p`. */
  lemma {:induction false} LaunchesAt(urls: seq<string>, n: nat)
    requires n <= |urls|
    ensures forall p | 0 <= p < n :: Launches(urls, n)[p] == Task(urls[p], p)
  {
    if n > 0 {
      LaunchesAt(urls, n - 1);
    }
  }

  lemma LaunchesExtend(urls: seq<string>, i: nat, end: nat, tasks: seq<Task>)
    requires i <= end <= |urls|
    requires |tasks| == end - i
    requires forall j | 0 <= j < end - i :: tasks[j] == Task(urls[i..end][j], i + j)
    ensures Launches(urls, end) == Launches(urls, i) + tasks
  {
    var l := Launches(urls, i) + tasks;
    LaunchesAt(urls, i);
    LaunchesAt(urls, end);
    forall p | i <= p < end ensures l[p] == Task(urls[p], p) {
      assert l[p] == tasks[p - i] && urls[i..end][p - i] == urls[p];
    }
  }

  /** No two launched tasks share a session id. */
  lemma SessionIdsDistinct(urls: seq<string>, n: nat)
    requires n <= |urls|
    ensures forall p, q | 0 <= p < q < n :: Launches(urls, n)[p].sessionId != Launches(urls, n)[q].sessionId
  {
    LaunchesAt(urls, n);
  }

  /** The table of contents built line by line with `+=`. */
  method BuildToc(pages: seq<PageEntry>) returns (toc: string)
    ensures toc == TocText(pages)
  {
    toc := Placeholder;
    for k := 0 to |pages|
      invariant toc == Placeholder + Join(pages[..k], TocLine)
    {
      assert pages[..k + 1][..k] == pages[..k];
      toc := toc + TocLine(pages[k]);
    }
    assert pages[..|pages|] == pages;
    toc := toc + TocTail;
  }

  // ---------------------------------------------------------------------------
  // The run

  /** The title, the generated-by note and the placeholder, written into the
      freshly truncated file. */
  method WriteHeader(file: OutputFile)
    modifies file
    ensures file.text == Header
  {
    file.Truncate();
    file.Write(TitleLine);
    assert file.text == TitleLine;
    file.Write(Subtitle);
    assert file.text == HeaderTitle;
    file.Write(Placeholder);
  }

  /** The four writes of one page section. */
  method WriteSection(file: OutputFile, entry: PageEntry)
    modifies file
    ensures file.text == old(file.text) + SectionText(entry)
  {
    var heading := "\n## " + entry.title + "\n";
    var source := "*Source: [" + entry.url + "](" + entry.url + ")*\n\n";
    file.Write(heading);
    file.Write(source);
    file.Write(entry.content);
    file.Write("\n\n---\n\n");
    assert SectionText(entry) == heading + source + entry.content + "\n\n---\n\n";
  }

  /** The counters and the page list after the first `n` outcomes. */
  ghost predicate Tallied(outcomes: seq<Outcome>, es: seq<Option<PageEntry>>, n: nat,
                          successCount: nat, failCount: nat, pages: seq<PageEntry>)
    requires n <= |outcomes| && n <= |es|
  {
    && successCount == CountSuccesses(outcomes[..n])
    && failCount == CountFailures(outcomes[..n])
    && pages == PagesOf(es[..n])
  }

  /** Evaluating one more outcome: it is counted once, and its entry, if any,
      is appended to the pages. */
  lemma TalliedStep(outcomes: seq<Outcome>, es: seq<Option<PageEntry>>, n: nat,
                    successCount: nat, failCount: nat, pages: seq<PageEntry>)
    requires n < |outcomes| && n < |es| && (es[n].Some? <==> Succeeded(outcomes[n]))
    requires Tallied(outcomes, es, n, successCount, failCount, pages)
    ensures Tallied(outcomes, es, n + 1,
                    successCount + (if Succeeded(outcomes[n]) then 1 else 0),
                    failCount + (if Succeeded(outcomes[n]) then 0 else 1),
                    pages + (if es[n].Some? then [es[n].value] else []))
  {
    PrefixStep(outcomes, n);
    PagesOfStep(es, n);
    assert pages + [] == pages;
  }

  /** The `zip(batch, results)` loop over the URLs at positions `i` to `end`:
      each outcome is counted once, and each success appends its page to the
      list and its section to the file. `es` is the entry of every outcome. */
  method EvaluateBatch(file: OutputFile, urls: seq<string>, outcomes: seq<Outcome>, i: nat, end: nat,
                       successCount0: nat, failCount0: nat, pages0: seq<PageEntry>,
                       ghost es: seq<Option<PageEntry>>, ghost written: string)
    returns (successCount: nat, failCount: nat, pages: seq<PageEntry>)
    requires ExtractedBy(es, urls, outcomes) && i <= end <= |urls|
    requires Tallied(outcomes, es, i, successCount0, failCount0, pages0)
    requires file.text == written + Join(pages0, SectionText)
    modifies file
    ensures Tallied(outcomes, es, end, successCount, failCount, pages)
    ensures file.text == written + Join(pages, SectionText)
  {
    var batch, results := urls[i..end], outcomes[i..end];
    successCount, failCount, pages := successCount0, failCount0, pages0;
    for j := 0 to end - i
      invariant Tallied(outcomes, es, i + j, successCount, failCount, pages)
      invariant file.text == written + Join(pages, SectionText)
    {
      var url, result := batch[j], results[j];
      assert url == urls[i + j] && result == outcomes[i + j];
      assert es[i + j] == Extract(url, result);
      TalliedStep(outcomes, es, i + j, successCount, failCount, pages);
      if result.Raised? {
        failCount := failCount + 1;
      } else if result.success {
        successCount := successCount + 1;
        var title := Title(result.metadataTitle, result.html);
        var anchor := Anchor(title);
        var entry := PageEntry(url, title, anchor, Content(result));
        assert es[i + j] == Some(entry);
        JoinSnoc(pages, entry, SectionText);
        ConcatAssoc(written, Join(pages, SectionText), SectionText(entry));
        pages := pages + [entry];
        WriteSection(file, entry);
      } else {
        failCount := failCount + 1;
      }
    }
  }

  /** One turn of the batch loop: the tasks of the batch are launched with
      their session ids, memory is read before and after the gather, and the
      settled outcomes are evaluated. */
  method RunBatch(file: OutputFile, monitor: MemoryMonitor, urls: seq<string>, outcomes: seq<Outcome>,
                  i: nat, end: nat, rss: nat -> nat, logCalls: nat,
                  successCount0: nat, failCount0: nat, pages0: seq<PageEntry>,
                  ghost es: seq<Option<PageEntry>>, ghost written: string, ghost launched0: seq<Task>)
    returns (successCount: nat, failCount: nat, pages: seq<PageEntry>, ghost launched: seq<Task>)
    requires ExtractedBy(es, urls, outcomes) && i <= end <= |urls|
    requires Tallied(outcomes, es, i, successCount0, failCount0, pages0)
    requires file.text == written + Join(pages0, SectionText)
    requires monitor.Valid() && |monitor.readings| == logCalls && SampledBy(monitor.readings, rss)
    requires launched0 == Launches(urls, i)
    modifies file, monitor
    ensures Tallied(outcomes, es, end, successCount, failCount, pages)
    ensures file.text == written + Join(pages, SectionText)
    ensures monitor.Valid() && |monitor.readings| == logCalls + 2 && SampledBy(monitor.readings, rss)
    ensures launched == Launches(urls, end)
  {
    var tasks := BuildTasks(urls[i..end], i);
    LaunchesExtend(urls, i, end, tasks);
    launched := launched0 + tasks;
    SampledByExtend(monitor.readings, rss);
    monitor.Log(rss(logCalls));
    // the gather settles the batch: outcome `p` belongs to URL `p`
    SampledByExtend(monitor.readings, rss);
    monitor.Log(rss(logCalls + 1));
    successCount, failCount, pages :=
      EvaluateBatch(file, urls, outcomes, i, end, successCount0, failCount0, pages0, es, written);
  }

  /** The concurrency bound used by the program's entry point. */
  const MaxConcurrentInMain: int := 10

  /** The batch loop of `crawl_parallel` for a positive `size`: the batches
      are taken in order, the tasks of each are launched with their session
      ids, memory is read before and after each batch, and every settled
      outcome is evaluated. */
  method RunBatches(file: OutputFile, monitor: MemoryMonitor, urls: seq<string>, outcomes: seq<Outcome>,
                    size: nat, rss: nat -> nat, logCalls0: nat, ghost es: seq<Option<PageEntry>>)
    returns (successCount: nat, failCount: nat, pages: seq<PageEntry>, logCalls: nat,
             ghost batches: seq<seq<string>>, ghost launched: seq<Task>)
    requires ExtractedBy(es, urls, outcomes) && size > 0
    requires monitor.Valid() && |monitor.readings| == logCalls0 && SampledBy(monitor.readings, rss)
    modifies file, monitor
    ensures batches == Batches(urls, size)
    ensures launched == Launches(urls, |urls|)
    ensures successCount == CountSuccesses(outcomes) && failCount == CountFailures(outcomes)
    ensures pages == PagesOf(es) && file.text == old(file.text) + Join(pages, SectionText)
    ensures logCalls == logCalls0 + 2 * |batches|
    ensures monitor.Valid() && |monitor.readings| == logCalls && SampledBy(monitor.readings, rss)
  {
    successCount, failCount, pages, logCalls := 0, 0, [], logCalls0;
    batches, launched := [], [];
    var i := 0;
    ghost var written := file.text;
    assert urls[0..] == urls && outcomes[..0] == [] && es[..0] == [];
    assert file.text == written + Join(pages, SectionText);
    while i < |urls|
      invariant 0 <= i <= |urls|
      invariant batches + Batches(urls[i..], size) == Batches(urls, size)
      invariant launched == Launches(urls, i)
      invariant Tallied(outcomes, es, i, successCount, failCount, pages)
      invariant file.text == written + Join(pages, SectionText)
      invariant logCalls == logCalls0 + 2 * |batches|
      invariant monitor.Valid() && |monitor.readings| == logCalls && SampledBy(monitor.readings, rss)
    {
      var end := Min(i + size, |urls|);
      successCount, failCount, pages, launched :=
        RunBatch(file, monitor, urls, outcomes, i, end, rss, logCalls, successCount, failCount, pages, es, written, launched);
      logCalls := logCalls + 2;
      BatchesAdvance(urls, size, batches, i);
      batches := batches + [urls[i..end]];
      i := end;
    }
    assert outcomes[..i] == outcomes && es[..i] == es;
  }

  /** The table-of-contents step: when some page succeeded, the file is read
      back, every occurrence of the placeholder in what was read is replaced
      by the table of contents, and the file is rewritten; otherwise it is
      left alone. */
  method SpliceToc(file: OutputFile, pages: seq<PageEntry>)
    modifies file
    ensures file.text == if pages == [] then old(file.text)
                         else ReplaceAll(UniversalNewlines(old(file.text)), Placeholder, TocText(pages))
  {
    if pages != [] {
      var content := file.Read();
      var toc := BuildToc(pages);
      content := ReplaceAll(content, Placeholder, toc);
      file.Truncate();
      file.Write(content);
    }
  }

  /** `crawl_parallel`: the header is written; when `maxConcurrent` is positive
      the URLs are fetched batch by batch, outcome `p` belonging to URL `p`,
      every outcome is counted once, every success appends its section, and
      the table of contents is spliced in when some page succeeded. A zero
      step makes `range` raise after the header is written; a negative step
      gives no batch at all. Memory is read before and after every batch and
      once at the end. */
  method CrawlParallel(file: OutputFile, urls: seq<string>, outcomes: seq<Outcome>,
                       maxConcurrent: int, rss: nat -> nat)
    returns (raised: bool, successCount: nat, failCount: nat, peakMemory: nat,
             ghost batches: seq<seq<string>>, ghost launched: seq<Task>, ghost readings: seq<nat>)
    requires |outcomes| == |urls|
    modifies file
    ensures raised <==> maxConcurrent == 0
    ensures maxConcurrent > 0 ==>
              && batches == Batches(urls, maxConcurrent)
              && successCount == CountSuccesses(outcomes)
              && failCount == CountFailures(outcomes)
              && file.text == FinalDocument(urls, outcomes)
    ensures maxConcurrent > 0 ==>
              |launched| == |urls| && forall p | 0 <= p < |urls| :: launched[p] == Task(urls[p], p)
    ensures maxConcurrent <= 0 ==>
              batches == [] && launched == [] && successCount == 0 && failCount == 0
              && file.text == Header
    ensures |readings| == 2 * |batches| + 1 && SampledBy(readings, rss)
    ensures peakMemory == MaxOf(readings)
  {
    WriteHeader(file);
    var monitor := new MemoryMonitor();
    var logCalls := 0;
    successCount, failCount := 0, 0;
    batches, launched := [], [];
    raised := maxConcurrent == 0;
    if maxConcurrent > 0 {
      var pages;
      ghost var es := Extracted(urls, outcomes);
      ExtractedIsExtractedBy(urls, outcomes);
      successCount, failCount, pages, logCalls, batches, launched :=
        RunBatches(file, monitor, urls, outcomes, maxConcurrent, rss, 0, es);
      LaunchesAt(urls, |urls|);
      SpliceToc(file, pages);
    }
    SampledByExtend(monitor.readings, rss);
    monitor.Log(rss(logCalls));
    peakMemory := monitor.peak;
    readings := monitor.readings;
  }

  /** The entry point's guard: the crawl runs, with ten fetches per batch,
      only when discovery found at least one URL; otherwise nothing is
      fetched and the file is not touched. */
  method RunCrawler(file: OutputFile, urls: seq<string>, outcomes: seq<Outcome>, rss: nat -> nat)
    returns (crawled: bool, successCount: nat, failCount: nat)
    requires |outcomes| == |urls|
    modifies file
    ensures crawled <==> urls != []
    ensures !crawled ==> file.text == old(file.text)
    ensures crawled ==> successCount == CountSuccesses(outcomes)
                        && successCount + failCount == |urls|
                        && file.text == FinalDocument(urls, outcomes)
  {
    crawled := urls != [];
    successCount, failCount := 0, 0;
    if crawled {
      var raised: bool, peak: nat;
      ghost var batches: seq<seq<string>>, launched: seq<Task>, readings: seq<nat>;
      raised, successCount, failCount, peak, batches, launched, readings :=
        CrawlParallel(file, urls, outcomes, MaxConcurrentInMain, rss);
      CountsCoverAll(outcomes);
    }
  }
}
