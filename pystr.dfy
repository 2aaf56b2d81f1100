/** The few Python `str` operations the crawler uses, over ASCII text:
    `find`, slicing with non-negative bounds, `strip()`, `lower()`,
    single-character `replace`, and `replace` of a whole pattern. */
module PyStr {

  /** Python's `str.isspace()` restricted to ASCII: space, \t \n \v \f \r and
      the four separators \x1c..\x1f. */
  predicate IsSpace(c: char) {
    c == ' ' || (9 <= c as int <= 13) || (28 <= c as int <= 31)
  }

  predicate IsUpper(c: char) { 'A' <= c <= 'Z' }

  /** Python's `str.isalnum()` restricted to ASCII. */
  predicate IsAlnum(c: char) {
    'a' <= c <= 'z' || 'A' <= c <= 'Z' || '0' <= c <= '9'
  }

  /** Python's `str.lower()` on one ASCII character. */
  function Lower(c: char): char {
    if IsUpper(c) then (c as int + 32) as char else c
  }

  // ---------------------------------------------------------------------------
  // Searching

  /** `sub` occurs in `s` starting at index `i`. */
  predicate OccursAt(s: string, sub: string, i: nat) {
    i + |sub| <= |s| && s[i..i + |sub|] == sub
  }

  predicate Contains(s: string, sub: string) {
    exists i: nat | i <= |s| :: OccursAt(s, sub, i)
  }

  /** `s.find(sub, from)`: the first occurrence at or after `from`, or -1. */
  function FindFrom(s: string, sub: string, from: nat): (r: int)
    requires from <= |s|
    decreases |s| - from
    ensures r == -1 || (from <= r <= |s| && OccursAt(s, sub, r))
    ensures r == -1 ==> forall i: nat | from <= i <= |s| :: !OccursAt(s, sub, i)
    ensures r != -1 ==> forall i: nat | from <= i < r :: !OccursAt(s, sub, i)
  {
    if OccursAt(s, sub, from) then from
    else if from == |s| then -1
    else FindFrom(s, sub, from + 1)
  }

  /** `s.find(sub)`: the lowest index where `sub` occurs, or -1 when it does not. */
  function Find(s: string, sub: string): (r: int)
    ensures r == -1 <==> !Contains(s, sub)
    ensures r != -1 ==> 0 <= r && OccursAt(s, sub, r)
    ensures r != -1 ==> forall i: nat | i < r :: !OccursAt(s, sub, i)
  {
    FindFrom(s, sub, 0)
  }

  /** When the pattern's first character does not reappear inside it, an
      occurrence of the pattern in `a + p + b` cannot start inside `a` and
      run into `p`; so if `a` itself holds no occurrence, `find` stops at `|a|`. */
  lemma {:induction false} FindAfterPrefix(a: string, p: string, b: string)
    requires p != [] && p[0] !in p[1..]
    requires !Contains(a, p)
    ensures Find(a + p + b, p) == |a|
  {
    var s := a + p + b;
    assert OccursAt(s, p, |a|) by { assert s[|a|..|a| + |p|] == p; }
    forall i: nat | i < |a|
      ensures !OccursAt(s, p, i)
    {
      if i + |p| <= |a| {
        assert a[i..i + |p|] == s[i..i + |p|];
        assert !OccursAt(a, p, i);
      } else {
        var k := |a| - i;
        assert s[i..i + |p|][k] == p[0];
        assert p[k] == p[1..][k - 1];
        assert s[i..i + |p|][k] != p[k];
      }
    }
  }

  /** The text between the first `open` and the first `close` that follows
      a prefix holding neither: both searches stop right after the prefix
      and the text, and the slice between them is the text. */
  lemma FindAround(pre: string, open: string, t: string, close: string, post: string)
    requires open != [] && open[0] !in open[1..] && close != [] && close[0] !in close[1..]
    requires !Contains(pre, open) && !Contains(pre + open + t, close)
    ensures var s := pre + open + t + close + post;
      Find(s, open) == |pre| && Find(s, close) == |pre| + |open| + |t|
      && Slice(s, Find(s, open) + |open|, Find(s, close)) == t
  {
    var s := pre + open + t + close + post;
    assert s == pre + open + (t + close + post);
    FindAfterPrefix(pre, open, t + close + post);
    FindAfterPrefix(pre + open + t, close, post);
    assert s[|pre| + |open|..|pre| + |open| + |t|] == t;
  }

  // ---------------------------------------------------------------------------
  // Slicing and stripping

  /** `s[lo:hi]` for non-negative bounds: both are clamped to `|s|`, and a
      slice whose end precedes its start is empty. */
  function Slice(s: string, lo: nat, hi: nat): (r: string)
    ensures lo <= hi <= |s| ==> r == s[lo..hi]
    ensures hi <= lo ==> r == []
  {
    var l := if lo <= |s| then lo else |s|;
    var h := if hi <= |s| then hi else |s|;
    if h <= l then [] else s[l..h]
  }

  predicate AllSpace(s: string) {
    forall i | 0 <= i < |s| :: IsSpace(s[i])
  }

  /** `s.lstrip()`: drops the leading whitespace. */
  function LStrip(s: string): (r: string)
    ensures |r| <= |s| && r == s[|s| - |r|..]
    ensures AllSpace(s[..|s| - |r|])
    ensures r == [] || !IsSpace(r[0])
  {
    if s != [] && IsSpace(s[0]) then
      var r := LStrip(s[1..]);
      assert s[1..][..|s| - 1 - |r|] == s[1..|s| - |r|];
      r
    else s
  }

  /** `s.rstrip()`: drops the trailing whitespace. */
  function RStrip(s: string): (r: string)
    ensures |r| <= |s| && r == s[..|r|]
    ensures AllSpace(s[|r|..])
    ensures r == [] || !IsSpace(r[|r| - 1])
  {
    if s != [] && IsSpace(s[|s| - 1]) then
      var r := RStrip(s[..|s| - 1]);
      assert s[|r|..] == s[..|s| - 1][|r|..] + [s[|s| - 1]];
      AllSpaceConcat(s[..|s| - 1][|r|..], [s[|s| - 1]]);
      r
    else s
  }

  /** `s.strip()`: the text between the leading and the trailing whitespace. */
  function Strip(s: string): (r: string)
    ensures |r| <= |s|
    ensures r == [] || (!IsSpace(r[0]) && !IsSpace(r[|r| - 1]))
    ensures r == [] <==> AllSpace(s)
  {
    StripEmptyIffSpace(s);
    RStrip(LStrip(s))
  }

  lemma AllSpaceConcat(a: string, b: string)
    ensures AllSpace(a + b) <==> AllSpace(a) && AllSpace(b)
  {
    if AllSpace(a + b) {
      forall i | 0 <= i < |a| ensures IsSpace(a[i]) { assert a[i] == (a + b)[i]; }
      forall i | 0 <= i < |b| ensures IsSpace(b[i]) { assert b[i] == (a + b)[|a| + i]; }
    }
    if AllSpace(a) && AllSpace(b) {
      forall i | 0 <= i < |a + b| ensures IsSpace((a + b)[i]) {
        if i < |a| { assert (a + b)[i] == a[i]; } else { assert (a + b)[i] == b[i - |a|]; }
      }
    }
  }

  lemma StripEmptyIffSpace(s: string)
    ensures RStrip(LStrip(s)) == [] <==> AllSpace(s)
  {
    var l := LStrip(s);
    var k := |s| - |l|;
    assert s == s[..k] + l;
    AllSpaceConcat(s[..k], l);
    assert AllSpace(s) <==> AllSpace(l);
    var r := RStrip(l);
    if r == [] {
      assert l[|r|..] == l;
      assert AllSpace(l);
    } else {
      assert l != [] && !IsSpace(l[0]);
      assert !AllSpace(l);
    }
  }


  /** Stripping finds the unique inner text: whatever whitespace surrounds a
      text that neither starts nor ends with whitespace, `strip()` returns
      exactly that text. */
  lemma {:induction false} StripSurrounded(w1: string, t: string, w2: string)
    requires AllSpace(w1) && AllSpace(w2)
    requires t == [] || (!IsSpace(t[0]) && !IsSpace(t[|t| - 1]))
    ensures Strip(w1 + t + w2) == t
  {
    var s := w1 + t + w2;
    if t == [] {
      assert AllSpace(s) by {
        forall i | 0 <= i < |s| ensures IsSpace(s[i]) {
          if i < |w1| { assert s[i] == w1[i]; } else { assert s[i] == w2[i - |w1|]; }
        }
      }
    } else {
      LStripSkips(w1, t + w2);
      assert s == w1 + (t + w2);
      RStripSkips(t, w2);
    }
  }

  lemma {:induction false} LStripSkips(w: string, u: string)
    requires AllSpace(w)
    requires u != [] && !IsSpace(u[0])
    ensures LStrip(w + u) == u
  {
    if w != [] {
      assert (w + u)[1..] == w[1..] + u;
      LStripSkips(w[1..], u);
    }
  }

  lemma {:induction false} RStripSkips(u: string, w: string)
    requires AllSpace(w)
    requires u != [] && !IsSpace(u[|u| - 1])
    ensures RStrip(u + w) == u
  {
    if w != [] {
      assert (u + w)[..|u + w| - 1] == u + w[..|w| - 1];
      RStripSkips(u, w[..|w| - 1]);
    } else {
      assert u + w == u;
    }
  }

  /** `strip()` is idempotent. */
  lemma StripIdempotent(s: string)
    ensures Strip(Strip(s)) == Strip(s)
  {
    var t := Strip(s);
    StripSurrounded([], t, []);
    assert [] + t + [] == t;
  }

  // ---------------------------------------------------------------------------
  // Character-wise rewriting

  /** `s.lower()` */
  function LowerStr(s: string): (r: string)
    ensures |r| == |s|
    ensures forall i | 0 <= i < |s| :: r[i] == Lower(s[i])
  {
    if s == [] then [] else [Lower(s[0])] + LowerStr(s[1..])
  }

  /** `s.replace(x, y)` for single characters `x` and `y`. */
  function ReplaceChar(s: string, x: char, y: char): (r: string)
    ensures |r| == |s|
    ensures forall i | 0 <= i < |s| :: r[i] == (if s[i] == x then y else s[i])
  {
    if s == [] then []
    else [if s[0] == x then y else s[0]] + ReplaceChar(s[1..], x, y)
  }

  /** `s.replace(x, "")`: every `x` removed, the rest kept in order. */
  function RemoveChar(s: string, x: char): (r: string)
    ensures |r| <= |s|
    ensures forall c :: c in r <==> c in s && c != x
  {
    if s == [] then []
    else if s[0] == x then RemoveChar(s[1..], x)
    else [s[0]] + RemoveChar(s[1..], x)
  }

  /** Removal works piece by piece: a single character is kept exactly when
      it is not `x`, and removing from a concatenation removes from each part,
      so the kept characters stay in order and keep their multiplicity. */
  lemma {:induction false} RemoveCharConcat(a: string, b: string, x: char)
    ensures forall c :: RemoveChar([c], x) == (if c == x then [] else [c])
    ensures RemoveChar(a + b, x) == RemoveChar(a, x) + RemoveChar(b, x)
  {
    if a == [] {
      assert a + b == b;
    } else {
      assert (a + b)[1..] == a[1..] + b;
      RemoveCharConcat(a[1..], b, x);
    }
  }

  // ---------------------------------------------------------------------------
  // Reading text back

  /** A carriage return reads as a line feed; any other character as itself. */
  function NewlineOf(c: char): char {
    if c == '\r' then '\n' else c
  }

  /** How many characters the line end or character at the head of `s`
      spans: two for "\r\n", otherwise one. */
  function LineEndLength(s: string): nat
    requires s != []
  {
    if s[0] == '\r' && |s| > 1 && s[1] == '\n' then 2 else 1
  }

  /** What reading a file in text mode with the default `newline=None`
      gives for the text `s` stored in it: every "\r\n" and every other
      "\r" becomes "\n"; no carriage return is left. */
  function UniversalNewlines(s: string): (r: string)
    ensures |r| <= |s|
    ensures '\r' !in r
  {
    if s == [] then [] else [NewlineOf(s[0])] + UniversalNewlines(s[LineEndLength(s)..])
  }

  /** Text without a carriage return reads back unchanged, and only such
      text does; in particular reading back is idempotent. */
  lemma {:induction false} UniversalNewlinesFixed(s: string)
    ensures UniversalNewlines(s) == s <==> '\r' !in s
  {
    if s != [] && s[0] != '\r' {
      UniversalNewlinesFixed(s[1..]);
      assert s == [s[0]] + s[1..];
      assert '\r' in s[1..] ==> '\r' in s;
    }
  }

  /** One step of reading back: the head line end or character, then the rest. */
  lemma UniversalNewlinesStep(s: string)
    requires s != []
    ensures UniversalNewlines(s) == [NewlineOf(s[0])] + UniversalNewlines(s[LineEndLength(s)..])
  {
  }

  /** A head line end of `a` that does not end `a` in "\r" is the head line
      end of `a + b`, and what follows it in `a + b` is the rest of `a`
      followed by `b`. */
  lemma HeadOfConcat(a: string, b: string)
    requires a != [] && a[|a| - 1] != '\r'
    ensures (a + b)[0] == a[0]
    ensures LineEndLength(a + b) == LineEndLength(a)
    ensures (a + b)[LineEndLength(a)..] == a[LineEndLength(a)..] + b
    ensures a[LineEndLength(a)..] == [] || a[|a| - 1] == a[LineEndLength(a)..][|a[LineEndLength(a)..]| - 1]
  {
    assert a[0] == '\r' ==> |a| > 1;
  }

  /** Text that does not end in a carriage return reads back on its own:
      the translation of a concatenation is that of each part. */
  lemma {:induction false} UniversalNewlinesConcat(a: string, b: string)
    requires a == [] || a[|a| - 1] != '\r'
    ensures UniversalNewlines(a + b) == UniversalNewlines(a) + UniversalNewlines(b)
  {
    if a == [] {
      assert a + b == b;
    } else {
      HeadOfConcat(a, b);
      var t := a[LineEndLength(a)..];
      UniversalNewlinesConcat(t, b);
      UniversalNewlinesStep(a);
      UniversalNewlinesStep(a + b);
      var h, u, v := [NewlineOf(a[0])], UniversalNewlines(t), UniversalNewlines(b);
      assert h + (u + v) == (h + u) + v;
    }
  }

  // ---------------------------------------------------------------------------
  // Replacing a pattern

  /** `s.replace(pat, rep)` for a non-empty pattern: one left-to-right pass
      that replaces every non-overlapping occurrence. */
  function ReplaceAll(s: string, pat: string, rep: string): string
    requires pat != []
    decreases |s|
  {
    if |pat| <= |s| && s[..|pat|] == pat then rep + ReplaceAll(s[|pat|..], pat, rep)
    else if s == [] then []
    else [s[0]] + ReplaceAll(s[1..], pat, rep)
  }

  lemma OccursShift(s: string, pat: string, i: nat)
    requires s != []
    ensures OccursAt(s[1..], pat, i) <==> OccursAt(s, pat, i + 1)
  {
    if i + 1 + |pat| <= |s| {
      assert s[1..][i..i + |pat|] == s[i + 1..i + 1 + |pat|];
    }
  }

  /** With no occurrence of the pattern, `replace` leaves the text as it is. */
  lemma {:induction false} ReplaceAllAbsent(s: string, pat: string, rep: string)
    requires pat != [] && !Contains(s, pat)
    ensures ReplaceAll(s, pat, rep) == s
  {
    if s != [] {
      assert !OccursAt(s, pat, 0);
      forall i: nat | i <= |s[1..]| ensures !OccursAt(s[1..], pat, i) {
        OccursShift(s, pat, i);
      }
      ReplaceAllAbsent(s[1..], pat, rep);
    }
  }

  /** A prefix in which no occurrence of the pattern starts is copied
      unchanged, and the scan resumes right after it. */
  lemma {:induction false} ReplaceAllSkip(a: string, b: string, pat: string, rep: string)
    requires pat != []
    requires forall i: nat | i < |a| :: !OccursAt(a + b, pat, i)
    ensures ReplaceAll(a + b, pat, rep) == a + ReplaceAll(b, pat, rep)
  {
    if a != [] {
      var s := a + b;
      assert !OccursAt(s, pat, 0);
      assert s[1..] == a[1..] + b;
      forall i: nat | i < |a[1..]|
        ensures !OccursAt(a[1..] + b, pat, i)
      {
        OccursShift(s, pat, i);
      }
      ReplaceAllSkip(a[1..], b, pat, rep);
      assert !(|pat| <= |s| && s[..|pat|] == pat) by {
        if |pat| <= |s| { assert s[..|pat|] == s[0..|pat|]; }
      }
      assert s[0] == a[0];
      calc {
        ReplaceAll(s, pat, rep);
        [a[0]] + ReplaceAll(a[1..] + b, pat, rep);
        [a[0]] + (a[1..] + ReplaceAll(b, pat, rep));
        ([a[0]] + a[1..]) + ReplaceAll(b, pat, rep);
        { assert a == [a[0]] + a[1..]; }
        a + ReplaceAll(b, pat, rep);
      }
    } else {
      assert a + b == b;
    }
  }

  /** An occurrence at the head is replaced and the scan resumes after it. */
  lemma ReplaceAllHead(pat: string, b: string, rep: string)
    requires pat != []
    ensures ReplaceAll(pat + b, pat, rep) == rep + ReplaceAll(b, pat, rep)
  {
    assert (pat + b)[..|pat|] == pat;
    assert (pat + b)[|pat|..] == b;
  }
}
