/** The combined Markdown document as a function of the URL list and the
    settled outcomes: the counters, the list of successful pages, the body
    written during the batch loop, and the document after the table of
    contents has been spliced in. */
module Document {
  import opened PyStr
  import opened Extraction
  import opened Batching

  const TitleLine: string := "# Combined Documentation\n\n"
  /** The subtitle line is written in one call (`Subtitle`, in `WriteHeader`);
      it is declared in two halves only for the proofs. The lemmas below that
      look at the header one character at a time (no '#' after the first
      line, no carriage return) walk each half on its own: indexing the whole
      45-character literal at a symbolic position costs the solver several
      times as much. */
  const SubtitleStart: string := "*Generated automatically "
  const SubtitleEnd: string := "from web crawling*\n\n"
  const Subtitle: string := SubtitleStart + SubtitleEnd
  const HeaderTitle: string := TitleLine + Subtitle
  /** The table-of-contents heading, written once as a placeholder. */
  const Placeholder: string := "## Table of Contents\n\n"
  const Header: string := HeaderTitle + Placeholder
  const TocTail: string := "\n---\n\n"

  /** The section written for one page: heading, source line, content and the
      page separator. */
  function SectionText(p: PageEntry): string {
    "\n## " + p.title + "\n" + "*Source: [" + p.url + "](" + p.url + ")*\n\n"
    + p.content + "\n\n---\n\n"
  }

  /** The table-of-contents line for one page, linking to its anchor. */
  function TocLine(p: PageEntry): string {
    "- [" + p.title + "](#" + p.anchor + ")\n"
  }

  /** The text of a list of pages, one rendering per page, in list order. */
  function Join(ps: seq<PageEntry>, render: PageEntry -> string): string {
    if ps == [] then [] else Join(ps[..|ps| - 1], render) + render(ps[|ps| - 1])
  }

  lemma {:induction false} JoinAppend(a: seq<PageEntry>, b: seq<PageEntry>, render: PageEntry -> string)
    ensures Join(a + b, render) == Join(a, render) + Join(b, render)
  {
    if b == [] {
      assert a + b == a;
    } else {
      var b' := b[..|b| - 1];
      assert (a + b)[..|a + b| - 1] == a + b';
      JoinAppend(a, b', render);
    }
  }

  /** Page `i` contributes exactly its own rendering, between those of the
      pages before and after it: the table of contents and the sections,
      both joins of the same list, follow the same order. */
  lemma JoinAt(ps: seq<PageEntry>, render: PageEntry -> string, i: nat)
    requires i < |ps|
    ensures Join(ps, render) == Join(ps[..i], render) + render(ps[i]) + Join(ps[i + 1..], render)
  {
    var a, b := ps[..i + 1], ps[i + 1..];
    assert ps == a + b;
    JoinAppend(a, b, render);
    assert a[..|a| - 1] == ps[..i];
  }

  /** The finished table of contents: heading, one line per page, rule. */
  function TocText(ps: seq<PageEntry>): string {
    Placeholder + Join(ps, TocLine) + TocTail
  }

  // ---------------------------------------------------------------------------
  // Counters and pages

  function CountSuccesses(os: seq<Outcome>): nat {
    if os == [] then 0
    else CountSuccesses(os[..|os| - 1]) + (if Succeeded(os[|os| - 1]) then 1 else 0)
  }

  /** The two failure branches of the crawler: a raised exception, or a result
      whose `success` is false. */
  function CountFailures(os: seq<Outcome>): nat {
    if os == [] then 0
    else
      var o := os[|os| - 1];
      CountFailures(os[..|os| - 1]) + (if o.Raised? || !o.success then 1 else 0)
  }

  /** Every outcome is classified exactly once. */
  lemma {:induction false} CountsCoverAll(os: seq<Outcome>)
    ensures CountSuccesses(os) + CountFailures(os) == |os|
  {
    if os != [] {
      CountsCoverAll(os[..|os| - 1]);
    }
  }

  /** The entry each outcome yields, position by position. */
  function Extracted(urls: seq<string>, os: seq<Outcome>): seq<Option<PageEntry>>
    requires |urls| == |os|
  {
    seq(|urls|, k requires 0 <= k < |urls| => Extract(urls[k], os[k]))
  }

  /** The entries that are present, in order. */
  function PagesOf(es: seq<Option<PageEntry>>): seq<PageEntry> {
    if es == [] then []
    else
      var n := |es| - 1;
      PagesOf(es[..n]) + (match es[n] case Some(p) => [p] case None => [])
  }

  /** The successful pages, in URL order. */
  function Pages(urls: seq<string>, os: seq<Outcome>): seq<PageEntry>
    requires |urls| == |os|
  {
    PagesOf(Extracted(urls, os))
  }

  /** `es` holds the entry of every outcome. The link to `Extract` is only
      used where an entry is actually computed, which keeps the extraction
      out of the reasoning about the batch loop. */
  ghost predicate ExtractedBy(es: seq<Option<PageEntry>>, urls: seq<string>, os: seq<Outcome>) {
    |es| == |urls| == |os|
    && forall k {:trigger Extract(urls[k], os[k])} | 0 <= k < |urls| :: es[k] == Extract(urls[k], os[k])
  }

  lemma ExtractedIsExtractedBy(urls: seq<string>, os: seq<Outcome>)
    requires |urls| == |os|
    ensures ExtractedBy(Extracted(urls, os), urls, os)
  {
  }

  /** The page list grows by the entry at position `p`, if there is one. */
  lemma PagesOfStep(es: seq<Option<PageEntry>>, p: nat)
    requires p < |es|
    ensures PagesOf(es[..p + 1])
         == PagesOf(es[..p]) + (match es[p] case Some(e) => [e] case None => [])
  {
    assert es[..p + 1][..p] == es[..p];
  }

  /** The pages of a list are those of all but its last URL, then the page
      of the last URL when it succeeded. */
  lemma PagesStep(urls: seq<string>, os: seq<Outcome>)
    requires |urls| == |os| && urls != []
    ensures var n := |urls| - 1;
      Pages(urls, os)
      == Pages(urls[..n], os[..n]) + (match Extract(urls[n], os[n]) case Some(p) => [p] case None => [])
  {
    var n := |urls| - 1;
    assert Extracted(urls, os)[..n] == Extracted(urls[..n], os[..n]);
  }

  /** The positions of the successful outcomes, in increasing order. */
  function SuccessIndices(os: seq<Outcome>): (ix: seq<nat>)
    ensures forall k | 0 <= k < |ix| :: ix[k] < |os| && Succeeded(os[ix[k]])
    ensures forall k, l | 0 <= k < l < |ix| :: ix[k] < ix[l]
    ensures forall i | 0 <= i < |os| && Succeeded(os[i]) :: i in ix
    ensures |ix| == CountSuccesses(os)
  {
    if os == [] then []
    else
      var n := |os| - 1;
      var prev := SuccessIndices(os[..n]);
      prev + (if Succeeded(os[n]) then [n] else [])
  }

  /** One page per successful outcome, in URL order: page `k` is the entry of
      the `k`-th successful URL, and failed URLs contribute nothing. */
  lemma {:induction false} PagesFollowUrls(urls: seq<string>, os: seq<Outcome>)
    requires |urls| == |os|
    ensures var ps, ix := Pages(urls, os), SuccessIndices(os);
      |ps| == |ix| == CountSuccesses(os)
      && forall k | 0 <= k < |ps| :: Extract(urls[ix[k]], os[ix[k]]) == Some(ps[k])
  {
    if urls != [] {
      var n := |urls| - 1;
      PagesFollowUrls(urls[..n], os[..n]);
      PagesStep(urls, os);
      var ps, ix := Pages(urls, os), SuccessIndices(os);
      var ps', ix' := Pages(urls[..n], os[..n]), SuccessIndices(os[..n]);
      assert |ps'| == |ix'|;
      forall k | 0 <= k < |ps| ensures Extract(urls[ix[k]], os[ix[k]]) == Some(ps[k]) {
        if k < |ps'| {
          assert ps[k] == ps'[k] && ix[k] == ix'[k];
          assert urls[..n][ix'[k]] == urls[ix[k]] && os[..n][ix'[k]] == os[ix[k]];
        }
      }
    }
  }

  /** How the counters and the page list grow when the outcome at position
      `p` is evaluated. */
  lemma PrefixStep(os: seq<Outcome>, p: nat)
    requires p < |os|
    ensures CountSuccesses(os[..p + 1])
         == CountSuccesses(os[..p]) + (if Succeeded(os[p]) then 1 else 0)
    ensures CountFailures(os[..p + 1])
         == CountFailures(os[..p]) + (if os[p].Raised? || !os[p].success then 1 else 0)
  {
    assert os[..p + 1][..p] == os[..p];
  }

  lemma JoinSnoc(ps: seq<PageEntry>, p: PageEntry, render: PageEntry -> string)
    ensures Join(ps + [p], render) == Join(ps, render) + render(p)
  {
    assert (ps + [p])[..|ps|] == ps;
  }

  // ---------------------------------------------------------------------------
  // The document

  /** The sections of the successful pages, in URL order. */
  function Sections(urls: seq<string>, os: seq<Outcome>): string
    requires |urls| == |os|
  {
    Join(Pages(urls, os), SectionText)
  }

  /** What the file holds once every batch has been processed. */
  function Body(urls: seq<string>, os: seq<Outcome>): string
    requires |urls| == |os|
  {
    Header + Sections(urls, os)
  }

  /** The file after the table-of-contents step: when some page succeeded,
      the body is read back in text mode, every occurrence of the placeholder
      in what was read is replaced by the table of contents, and the result
      is written; otherwise the body is left as it is. */
  function FinalDocument(urls: seq<string>, os: seq<Outcome>): string
    requires |urls| == |os|
  {
    var ps := Pages(urls, os);
    if ps == [] then Body(urls, os)
    else ReplaceAll(UniversalNewlines(Body(urls, os)), Placeholder, TocText(ps))
  }

  /** No occurrence of the placeholder starts inside the document title: its
      only `#` is at index 0 and is followed by a space. */
  lemma HeaderTitleHasNoPlaceholder(rest: string)
    ensures forall i: nat | i < |HeaderTitle| :: !OccursAt(HeaderTitle + rest, Placeholder, i)
  {
    var s := HeaderTitle + rest;
    forall i: nat | i < |HeaderTitle| ensures !OccursAt(s, Placeholder, i) {
      if i + |Placeholder| <= |s| {
        if i == 0 {
          assert s[i..i + |Placeholder|][1] == ' ' != Placeholder[1];
        } else {
          HeaderTitleHashOnlyFirst(i);
          assert s[i..i + |Placeholder|][0] == HeaderTitle[i] != Placeholder[0];
        }
      }
    }
  }

  lemma HeaderTitleHashOnlyFirst(i: nat)
    requires 1 <= i < |HeaderTitle|
    ensures HeaderTitle[i] != '#'
  {
    if i < |TitleLine| {
      TitleLineHashOnlyFirst(i);
    } else {
      SubtitleHasNoHash(i - |TitleLine|);
    }
  }

  lemma TitleLineHashOnlyFirst(i: nat)
    requires 1 <= i < |TitleLine|
    ensures TitleLine[i] != '#'
  {
  }

  lemma SubtitleHasNoHash(i: nat)
    requires i < |Subtitle|
    ensures Subtitle[i] != '#'
  {
    if i < |SubtitleStart| {
      assert Subtitle[i] == SubtitleStart[i];
      SubtitleStartHasNoHash(i);
    } else {
      assert Subtitle[i] == SubtitleEnd[i - |SubtitleStart|];
      SubtitleEndHasNoHash(i - |SubtitleStart|);
    }
  }

  lemma SubtitleStartHasNoHash(i: nat)
    requires i < |SubtitleStart|
    ensures SubtitleStart[i] != '#'
  {
  }

  lemma SubtitleEndHasNoHash(i: nat)
    requires i < |SubtitleEnd|
    ensures SubtitleEnd[i] != '#'
  {
  }

  /** Regrouping a concatenation of three strings. Stated over variables so
      that callers need not regroup their own, much larger, terms. */
  lemma ConcatAssoc(a: string, b: string, c: string)
    ensures (a + b) + c == a + (b + c)
  {
  }

  /** With no successful page the document is the header alone. */
  lemma FinalDocumentWithoutPages(urls: seq<string>, os: seq<Outcome>)
    requires |urls| == |os| && CountSuccesses(os) == 0
    ensures FinalDocument(urls, os) == Header
  {
    PagesFollowUrls(urls, os);
    assert Header + [] == Header;
  }

  /** With at least one successful page, the document is the title, the table
      of contents in place of the placeholder, then the sections as read
      back, in which any copy of the placeholder is replaced too. */
  lemma FinalDocumentShape(urls: seq<string>, os: seq<Outcome>)
    requires |urls| == |os| && CountSuccesses(os) > 0
    ensures var ps := Pages(urls, os);
      FinalDocument(urls, os)
      == HeaderTitle + TocText(ps)
         + ReplaceAll(UniversalNewlines(Join(ps, SectionText)), Placeholder, TocText(ps))
  {
    PagesFollowUrls(urls, os);
    var ps := Pages(urls, os);
    var read := UniversalNewlines(Join(ps, SectionText));
    BodyReadBack(urls, os);
    ConcatAssoc(HeaderTitle, Placeholder, read);
    SpliceAfterTitle(read, TocText(ps));
  }

  /** Reading the body back leaves the header as it is and translates the
      line ends of the sections. */
  lemma BodyReadBack(urls: seq<string>, os: seq<Outcome>)
    requires |urls| == |os|
    ensures UniversalNewlines(Body(urls, os))
         == Header + UniversalNewlines(Join(Pages(urls, os), SectionText))
  {
    HeaderHasNoCarriageReturn();
    UniversalNewlinesFixed(Header);
    assert Header[|Header| - 1] in Header;
    UniversalNewlinesConcat(Header, Join(Pages(urls, os), SectionText));
  }

  lemma HeaderHasNoCarriageReturn()
    ensures '\r' !in Header
  {
    forall i | 0 <= i < |Header| ensures Header[i] != '\r' {
      if i < |TitleLine| {
        assert Header[i] == TitleLine[i];
        TitleLineHasNoCarriageReturn(i);
      } else if i < |HeaderTitle| {
        assert Header[i] == Subtitle[i - |TitleLine|];
        SubtitleHasNoCarriageReturn(i - |TitleLine|);
      } else {
        assert Header[i] == Placeholder[i - |HeaderTitle|];
        PlaceholderHasNoCarriageReturn(i - |HeaderTitle|);
      }
    }
  }

  lemma TitleLineHasNoCarriageReturn(i: nat)
    requires i < |TitleLine|
    ensures TitleLine[i] != '\r'
  {
  }

  lemma SubtitleHasNoCarriageReturn(i: nat)
    requires i < |Subtitle|
    ensures Subtitle[i] != '\r'
  {
    if i < |SubtitleStart| {
      assert Subtitle[i] == SubtitleStart[i];
      assert SubtitleStart[i] != '\r';
    } else {
      assert Subtitle[i] == SubtitleEnd[i - |SubtitleStart|];
      assert SubtitleEnd[i - |SubtitleStart|] != '\r';
    }
  }

  lemma PlaceholderHasNoCarriageReturn(i: nat)
    requires i < |Placeholder|
    ensures Placeholder[i] != '\r'
  {
  }

  /** The splice on a body that starts with the header. */
  lemma SpliceAfterTitle(sections: string, toc: string)
    ensures ReplaceAll(HeaderTitle + (Placeholder + sections), Placeholder, toc)
         == HeaderTitle + toc + ReplaceAll(sections, Placeholder, toc)
  {
    var rest := Placeholder + sections;
    HeaderTitleHasNoPlaceholder(rest);
    ReplaceAllSkip(HeaderTitle, rest, Placeholder, toc);
    ReplaceAllHead(Placeholder, sections, toc);
  }

  /** When no section contains a carriage return or the placeholder text,
      the table of contents replaces the placeholder and the sections are
      kept verbatim. */
  lemma FinalDocumentPlain(urls: seq<string>, os: seq<Outcome>)
    requires |urls| == |os| && CountSuccesses(os) > 0
    requires '\r' !in Join(Pages(urls, os), SectionText)
    requires !Contains(Join(Pages(urls, os), SectionText), Placeholder)
    ensures var ps := Pages(urls, os);
      FinalDocument(urls, os) == HeaderTitle + TocText(ps) + Join(ps, SectionText)
  {
    var ps := Pages(urls, os);
    FinalDocumentShape(urls, os);
    UniversalNewlinesFixed(Join(ps, SectionText));
    ReplaceAllAbsent(Join(ps, SectionText), Placeholder, TocText(ps));
  }

  /** Three URLs in batches of two: batches `[x, y]` and `[z]`. */
  lemma ThreeUrlBatches(x: string, y: string, z: string)
    ensures Batches([x, y, z], 2) == [[x, y], [z]]
  {
    assert [x, y, z][..2] == [x, y] && [x, y, z][2..] == [z];
    assert [z][..1] == [z] && [z][1..] == [];
    assert Batches([z], 2) == [[z]];
  }

  /** Three outcomes, the second failing: two successes and one failure. */
  lemma ThreeUrlCounts(ox: Outcome, oy: Outcome, oz: Outcome)
    requires Succeeded(ox) && !Succeeded(oy) && Succeeded(oz)
    ensures CountSuccesses([ox, oy, oz]) == 2 && CountFailures([ox, oy, oz]) == 1
  {
    assert [ox, oy, oz][..2] == [ox, oy] && [ox, oy][..1] == [ox] && [ox][..0] == [];
    assert CountSuccesses([ox]) == 1 && CountFailures([ox]) == 0;
    assert CountSuccesses([ox, oy]) == 1 && CountFailures([ox, oy]) == 1;
  }

  /** Three URLs, the second failing: the pages of `x` and `z`, in that order. */
  lemma ThreeUrlPages(x: string, y: string, z: string, ox: Outcome, oy: Outcome, oz: Outcome)
    requires Succeeded(ox) && !Succeeded(oy) && Succeeded(oz)
    ensures Pages([x, y, z], [ox, oy, oz]) == [Extract(x, ox).value, Extract(z, oz).value]
  {
    assert [x, y, z][..2] == [x, y] && [ox, oy, oz][..2] == [ox, oy];
    assert [x, y][..1] == [x] && [ox, oy][..1] == [ox];
    assert [x][..0] == [] && [ox][..0] == [];
    PagesStep([x], [ox]);
    PagesStep([x, y], [ox, oy]);
    PagesStep([x, y, z], [ox, oy, oz]);
  }
}
