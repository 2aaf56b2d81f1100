/** What the crawler keeps of one fetched page: the page title (metadata,
    else the `<title>` tag, else a sentinel), the anchor slug derived from
    it, and the preferred textual representation of the page. */
module Extraction {
  import opened PyStr

  datatype Option<T> = None | Some(value: T)

  /** The settled result of one fetch task. `Raised` is an `Exception`
      instance returned by the gather (the first test of the evaluation loop);
      `Returned` is a crawl result, whose absent attributes are modelled as
      empty strings. */
  datatype Outcome =
    | Raised
    | Returned(success: bool, metadataTitle: string, html: string,
               fitMarkdown: string, markdown: string, cleanedHtml: string)

  /** The outcomes the crawler counts as successes. */
  predicate Succeeded(o: Outcome) {
    o.Returned? && o.success
  }

  // ---------------------------------------------------------------------------
  // Title

  const UntitledPage: string := "Untitled Page"
  const TitleOpen: string := "<title>"
  const TitleClose: string := "</title>"

  /** The title fallback chain: a non-empty metadata title; otherwise, when the
      markup is non-empty and holds both tags, the stripped text between the
      first `<title>` and the first `</title>`; otherwise "Untitled Page". */
  function Title(metadataTitle: string, html: string): string {
    if metadataTitle != [] then metadataTitle
    else if html != [] then
      var start := Find(html, TitleOpen);
      var end := Find(html, TitleClose);
      if start != -1 && end != -1 then Strip(Slice(html, start + 7, end))
      else UntitledPage
    else UntitledPage
  }

  /** The fallbacks of the chain: the metadata title is used as it is, and
      without both tags the sentinel is used. */
  lemma TitleFallback(metadataTitle: string, html: string)
    ensures metadataTitle != [] ==> Title(metadataTitle, html) == metadataTitle
    ensures metadataTitle == [] && !(Contains(html, TitleOpen) && Contains(html, TitleClose))
            ==> Title(metadataTitle, html) == UntitledPage
  {
  }

  /** With both tags and no metadata title, the title is a stripped text no
      longer than the markup. */
  lemma TitleStripped(html: string)
    requires Contains(html, TitleOpen) && Contains(html, TitleClose)
    ensures var t := Title([], html); Strip(t) == t && |t| <= |html|
  {
    var start, end := Find(html, TitleOpen), Find(html, TitleClose);
    assert start != -1 && end != -1;
    var inner := Slice(html, start + 7, end);
    assert |inner| <= |html|;
    assert html != [] by {
      var i: nat :| i <= |html| && OccursAt(html, TitleOpen, i);
    }
    assert Title([], html) == Strip(inner);
    StripIdempotent(inner);
  }

  /** Neither tag repeats its first character. */
  lemma TagsAreSelfDelimiting()
    ensures TitleOpen[0] !in TitleOpen[1..] && TitleClose[0] !in TitleClose[1..]
  {
    assert TitleOpen[1..] == "title>";
    assert TitleClose[1..] == "/title>";
  }

  /** Markup whose first `<title>` and first `</title>` enclose `t` yields the
      stripped `t` as the title. */
  lemma TitleFromTag(pre: string, t: string, post: string)
    requires !Contains(pre, TitleOpen)
    requires !Contains(pre + TitleOpen + t, TitleClose)
    ensures Title([], pre + TitleOpen + t + TitleClose + post) == Strip(t)
  {
    TagsAreSelfDelimiting();
    FindAround(pre, TitleOpen, t, TitleClose, post);
    TitleFromFinds(pre + TitleOpen + t + TitleClose + post);
  }

  /** The tag branch of the chain, read with both tags present. */
  lemma TitleFromFinds(html: string)
    requires Find(html, TitleOpen) != -1 && Find(html, TitleClose) != -1
    ensures Title([], html)
         == Strip(Slice(html, Find(html, TitleOpen) + |TitleOpen|, Find(html, TitleClose)))
  {
    assert |TitleOpen| == 7;
    assert html != [] by {
      assert OccursAt(html, TitleOpen, Find(html, TitleOpen));
    }
  }

  /** When the first `</title>` comes before the first `<title>`, the slice is
      empty and so is the title: the sentinel is not used in that case. */
  lemma TitleEmptyWhenCloseFirst(pre: string, mid: string, post: string)
    requires !Contains(pre, TitleClose)
    requires !Contains(pre + TitleClose + mid, TitleOpen)
    ensures Title([], pre + TitleClose + mid + TitleOpen + post) == []
  {
    TagsAreSelfDelimiting();
    FindAround(pre, TitleClose, mid, TitleOpen, post);
  }

  // ---------------------------------------------------------------------------
  // Anchor slug

  /** The filter of the slug: `c.isalnum() or c == '-'`. */
  predicate IsAnchorChar(c: char) {
    IsAlnum(c) || c == '-'
  }

  /** The alphabet of every anchor: lower-case letters, digits and `-`. */
  predicate IsSlugChar(c: char) {
    'a' <= c <= 'z' || '0' <= c <= '9' || c == '-'
  }

  /** `''.join(c for c in s if c.isalnum() or c == '-')` */
  function KeepAnchorChars(s: string): (r: string)
    ensures forall c :: c in r <==> c in s && IsAnchorChar(c)
  {
    if s == [] then []
    else if IsAnchorChar(s[0]) then [s[0]] + KeepAnchorChars(s[1..])
    else KeepAnchorChars(s[1..])
  }

  /** The filter works piece by piece: a single character is kept exactly
      when it is alphanumeric or `-`, and filtering a concatenation filters
      each part, so the kept characters stay in order and keep their
      multiplicity. */
  lemma {:induction false} KeepAnchorCharsConcat(a: string, b: string)
    ensures forall c :: KeepAnchorChars([c]) == (if IsAnchorChar(c) then [c] else [])
    ensures KeepAnchorChars(a + b) == KeepAnchorChars(a) + KeepAnchorChars(b)
  {
    if a == [] {
      assert a + b == b;
    } else {
      assert (a + b)[1..] == a[1..] + b;
      KeepAnchorCharsConcat(a[1..], b);
    }
  }

  /** The anchor of a title: lower-case it, turn spaces into `-`, remove `.`
      and `,`, then keep only alphanumerics and `-`. */
  function Anchor(title: string): (a: string)
    ensures forall c | c in a :: IsSlugChar(c)
  {
    var lowered := LowerStr(title);
    var dashed := ReplaceChar(lowered, ' ', '-');
    var r := KeepAnchorChars(RemoveChar(RemoveChar(dashed, '.'), ','));
    assert forall c | c in dashed :: !IsUpper(c) by {
      forall c | c in dashed ensures !IsUpper(c) {
        var i :| 0 <= i < |dashed| && dashed[i] == c;
        assert lowered[i] == Lower(title[i]);
      }
    }
    r
  }

  /** An independent, character-by-character reading of the anchor: a space
      gives `-`, any other character gives its lower-case form when that is
      alphanumeric or `-`, and nothing otherwise. */
  function AnchorOfChar(c: char): string {
    if c == ' ' then "-"
    else if IsAnchorChar(Lower(c)) then [Lower(c)]
    else []
  }

  function AnchorSpec(title: string): string {
    if title == [] then [] else AnchorOfChar(title[0]) + AnchorSpec(title[1..])
  }

  /** The four-step pipeline and the per-character reading agree. */
  lemma {:induction false} AnchorPerChar(title: string)
    ensures Anchor(title) == AnchorSpec(title)
  {
    if title != [] {
      var c, rest := title[0], title[1..];
      AnchorPerChar(rest);
      var lc := Lower(c);
      var dc := if lc == ' ' then '-' else lc;
      var lowered := LowerStr(title);
      assert lowered == [lc] + LowerStr(rest);
      var dashed := ReplaceChar(lowered, ' ', '-');
      assert dashed == [dc] + ReplaceChar(LowerStr(rest), ' ', '-') by {
        assert lowered[0] == lc && lowered[1..] == LowerStr(rest);
      }
      var tail := ReplaceChar(LowerStr(rest), ' ', '-');
      var r1 := RemoveChar(dashed, '.');
      assert r1 == (if dc == '.' then [] else [dc]) + RemoveChar(tail, '.') by {
        assert dashed[0] == dc && dashed[1..] == tail;
      }
      var tail1 := RemoveChar(tail, '.');
      var r2 := RemoveChar(r1, ',');
      assert r2 == (if dc == '.' || dc == ',' then [] else [dc]) + RemoveChar(tail1, ',') by {
        if dc != '.' { assert r1[0] == dc && r1[1..] == tail1; }
      }
      var tail2 := RemoveChar(tail1, ',');
      assert KeepAnchorChars(r2)
          == (if dc != '.' && dc != ',' && IsAnchorChar(dc) then [dc] else []) + KeepAnchorChars(tail2) by {
        if dc != '.' && dc != ',' { assert r2[0] == dc && r2[1..] == tail2; }
      }
      assert lc == ' ' <==> c == ' ';
    }
  }

  lemma {:induction false} AnchorSpecFixesSlug(s: string)
    requires forall c | c in s :: IsSlugChar(c)
    ensures AnchorSpec(s) == s
  {
    if s != [] {
      assert s[0] in s;
      assert forall c | c in s[1..] :: c in s;
      AnchorSpecFixesSlug(s[1..]);
      assert s == [s[0]] + s[1..];
    }
  }

  /** A string already in the slug alphabet is its own anchor, so slugging is
      idempotent. */
  lemma AnchorIdempotent(title: string)
    ensures Anchor(Anchor(title)) == Anchor(title)
  {
    var a := Anchor(title);
    AnchorPerChar(a);
    AnchorSpecFixesSlug(a);
  }

  // ---------------------------------------------------------------------------
  // Content

  const NoContent: string := "*No content extracted*"

  /** Markup shown as a fenced `html` code block. */
  function Fenced(code: string): string {
    "```html\n" + code + "\n```"
  }

  /** The first non-empty of `fit_markdown`, `markdown`, the fenced
      `cleaned_html` and the fenced `html`, else the sentinel. Emptiness is
      tested on the raw attribute, before any fence is added. */
  function Content(o: Outcome): (c: string)
    requires o.Returned?
    ensures c != []
  {
    if o.fitMarkdown != [] then o.fitMarkdown
    else if o.markdown != [] then o.markdown
    else if o.cleanedHtml != [] then Fenced(o.cleanedHtml)
    else if o.html != [] then Fenced(o.html)
    else NoContent
  }

  /** The sentinel appears only when all four representations are empty, or
      when a markdown representation is itself that very text; an
      all-empty result always gets it. */
  lemma ContentSentinel(o: Outcome)
    requires o.Returned?
    ensures Content(o) == NoContent <==>
      (o.fitMarkdown == [] && o.markdown == [] && o.cleanedHtml == [] && o.html == [])
      || o.fitMarkdown == NoContent
      || (o.fitMarkdown == [] && o.markdown == NoContent)
  {
    FencedIsNotSentinel(o.cleanedHtml);
    FencedIsNotSentinel(o.html);
  }

  lemma FencedIsNotSentinel(code: string)
    ensures Fenced(code) != NoContent
  {
    assert Fenced(code)[0] == '`';
  }

  /** A page that only has its raw markup gets that markup fenced, not the
      sentinel. */
  lemma ContentRawHtmlOnly(o: Outcome)
    requires o.Returned? && o.fitMarkdown == [] && o.markdown == [] && o.cleanedHtml == []
    requires o.html != []
    ensures Content(o) == Fenced(o.html) && Content(o) != NoContent
  {
    FencedIsNotSentinel(o.html);
  }

  /** The markdown representations win over the markup: a fenced block is
      chosen only when both markdown representations are empty, and then it
      fences the first non-empty markup. */
  lemma ContentFencedOnlyWithoutMarkdown(o: Outcome, code: string)
    requires o.Returned? && Content(o) == Fenced(code)
    requires !(exists x :: o.fitMarkdown == Fenced(x)) && !(exists x :: o.markdown == Fenced(x))
    ensures o.fitMarkdown == [] && o.markdown == []
    ensures code == (if o.cleanedHtml != [] then o.cleanedHtml else o.html)
  {
    FencedIsNotSentinel(code);
    if o.cleanedHtml != [] {
      FencedInjective(o.cleanedHtml, code);
    } else {
      FencedInjective(o.html, code);
    }
  }

  lemma FencedInjective(x: string, y: string)
    requires Fenced(x) == Fenced(y)
    ensures x == y
  {
    var fx, fy := Fenced(x), Fenced(y);
    assert |x| == |y|;
    assert x == fx[8..8 + |x|];
    assert y == fy[8..8 + |y|];
  }

  // ---------------------------------------------------------------------------
  // Page entries

  /** One successful page, ready to be written: URL, title, anchor, content. */
  datatype PageEntry = PageEntry(url: string, title: string, anchor: string, content: string)

  /** The entry a settled outcome produces: one exactly when the fetch
      succeeded, however little content it carried. */
  function Extract(url: string, o: Outcome): (p: Option<PageEntry>)
    ensures p.Some? <==> Succeeded(o)
    ensures p.Some? ==> p.value.url == url && p.value.anchor == Anchor(p.value.title)
                        && p.value.content != []
  {
    if Succeeded(o) then
      var title := Title(o.metadataTitle, o.html);
      Some(PageEntry(url, title, Anchor(title), Content(o)))
    else None
  }
}
