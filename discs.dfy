/** Extraction of the character-to-disc mapping from the site's script
    (DiskStats.js:112-156): locate the disc section, locate each character's
    block inside it, collect the disc names of the two capture patterns and
    clean the list up. The regular expressions are written out as the
    searches they perform: a leftmost match, lazy groups that end at the
    first terminator, greedy `[^"]+` captures. */
module DiscExtraction {
  import opened Wrappers
  import opened Seqs
  import opened Text

  const SectionOpen: string := "},C=t"
  const SectionClose: string := ",T=t"
  /** `name:"([^"]+)",onProfile` */
  const MainOpen: string := "name:\""
  const MainClose: string := "\",onProfile"
  /** `"li",null,r\.createElement\("strong",null,"([^"]+)"\)` */
  const ExtraOpen: string := "\"li\",null,r.createElement(\"strong\",null,\""
  const ExtraClose: string := "\")"
  /** `\)\}`, one of the two ways a character's block ends. */
  const BlockEnd: string := ")}"
  const MarkerTail: string := "\"===a"

  /** The text that opens a character's block: `"<slug>"===a`. */
  function Marker(slug: string): string {
    "\"" + slug + MarkerTail
  }

  // ---------------------------------------------------------------------
  // The disc section: `/},C=t(.*?)\,T=t/s`

  /** body is the group of a lazy `open(.*?)close` match that starts at p. */
  predicate LazyMatchAt(s: string, open: string, close: string, p: int, body: string) {
    && OccursAt(s, open, p)
    && OccursAt(s, body, p + |open|)
    && OccursAt(s, close, p + |open| + |body|)
    && forall q :: p + |open| <= q < p + |open| + |body| ==> !OccursAt(s, close, q)
  }

  /** The section between the first `},C=t` and the first `,T=t` after it.
      The match starts at the first `},C=t` (so it is the leftmost one), its
      group stops at the first `,T=t` (so it is lazy), and there is no
      match at all exactly when no `,T=t` follows any `},C=t`. */
  function FindDiskSection(content: string): (r: Option<string>)
    ensures r.Some? ==> exists p ::
      && LazyMatchAt(content, SectionOpen, SectionClose, p, r.value)
      && (forall p' :: 0 <= p' < p ==> !OccursAt(content, SectionOpen, p'))
    ensures r.None? <==> forall p, q ::
      OccursAt(content, SectionOpen, p) && p + |SectionOpen| <= q ==> !OccursAt(content, SectionClose, q)
  {
    match IndexFrom(content, SectionOpen, 0)
    case None => None
    case Some(p) =>
      var from := p + |SectionOpen|;
      match IndexFrom(content, SectionClose, from)
      case None => None
      case Some(q) =>
        var body := content[from..q];
        assert forall j :: 0 <= j < |body| ==> content[from + j] == body[j];
        assert LazyMatchAt(content, SectionOpen, SectionClose, p, body);
        Some(body)
  }

  // ---------------------------------------------------------------------
  // A character's block: `"<slug>"===a(.*?)(?:"\w+"===a|\)\})` with flag s

  /** Length of the run of `\w` characters starting at i. */
  function WordRun(s: string, i: nat): (n: nat)
    requires i <= |s|
    ensures i + n <= |s|
    ensures forall k :: i <= k < i + n ==> IsWordChar(s[k])
    ensures i + n == |s| || !IsWordChar(s[i + n])
    decreases |s| - i
  {
    if i < |s| && IsWordChar(s[i]) then 1 + WordRun(s, i + 1) else 0
  }

  /** `"\w+"===a` matches at k. Since `"` is not a word character, `\w+`
      can only end where the run of word characters ends. */
  predicate WordMarkerAt(s: string, k: nat) {
    k < |s| && s[k] == '"' && WordRun(s, k + 1) >= 1 && OccursAt(s, MarkerTail, k + 1 + WordRun(s, k + 1))
  }

  /** The pattern `"\w+"===a` read literally: a quote, n >= 1 word
      characters, then `"===a`. */
  predicate WordMarkerWith(s: string, k: nat, n: nat) {
    && k < |s| && s[k] == '"' && n >= 1 && k + 1 + n <= |s|
    && (forall j :: k + 1 <= j < k + 1 + n ==> IsWordChar(s[j]))
    && OccursAt(s, MarkerTail, k + 1 + n)
  }

  /** WordMarkerAt is the pattern: some word run works exactly when the
      maximal one does. */
  lemma WordMarkerAtMeans(s: string, k: nat)
    ensures WordMarkerAt(s, k) <==> exists n :: WordMarkerWith(s, k, n)
  {
    if WordMarkerAt(s, k) {
      assert WordMarkerWith(s, k, WordRun(s, k + 1));
    }
    if exists n :: WordMarkerWith(s, k, n) {
      var n :| WordMarkerWith(s, k, n);
      var m := WordRun(s, k + 1);
      assert s[k + 1 + n + 0] == MarkerTail[0];
      if m < n {
        assert IsWordChar(s[k + 1 + m]);
      }
      if n < m {
        assert IsWordChar(s[k + 1 + n]);
      }
    }
  }

  predicate BlockTerminatorAt(s: string, k: nat) {
    WordMarkerAt(s, k) || OccursAt(s, BlockEnd, k)
  }

  /** The first block terminator at or after from. */
  function FirstTerminator(s: string, from: nat): (r: Option<nat>)
    requires from <= |s|
    ensures r.Some? ==> from <= r.value <= |s| && BlockTerminatorAt(s, r.value)
    ensures r.Some? ==> forall k :: from <= k < r.value ==> !BlockTerminatorAt(s, k)
    ensures r.None? ==> forall k :: from <= k ==> !BlockTerminatorAt(s, k)
    decreases |s| - from
  {
    if from == |s| then None
    else if BlockTerminatorAt(s, from) then Some(from)
    else FirstTerminator(s, from + 1)
  }

  /** body is the group of a block match that starts at p. */
  predicate BlockMatchAt(section: string, slug: string, p: int, body: string) {
    && OccursAt(section, Marker(slug), p)
    && OccursAt(section, body, p + |Marker(slug)|)
    && BlockTerminatorAt(section, p + |Marker(slug)| + |body|)
    && forall q :: p + |Marker(slug)| <= q < p + |Marker(slug)| + |body| ==> !BlockTerminatorAt(section, q)
  }

  /** The block of a character: from just after the first `"<slug>"===a`
      to the first terminator after it. None, and the character is skipped,
      exactly when no terminator follows any occurrence of the marker. */
  function FindCharBlock(section: string, slug: string): (r: Option<string>)
    ensures r.Some? ==> exists p ::
      && BlockMatchAt(section, slug, p, r.value)
      && (forall p' :: 0 <= p' < p ==> !OccursAt(section, Marker(slug), p'))
    ensures r.None? <==> forall p, q ::
      OccursAt(section, Marker(slug), p) && p + |Marker(slug)| <= q ==> !BlockTerminatorAt(section, q)
  {
    var m := Marker(slug);
    match IndexFrom(section, m, 0)
    case None => None
    case Some(p) =>
      var from := p + |m|;
      match FirstTerminator(section, from)
      case None => None
      case Some(q) =>
        var body := section[from..q];
        assert forall j :: 0 <= j < |body| ==> section[from + j] == body[j];
        assert BlockMatchAt(section, slug, p, body);
        Some(body)
  }

  /** Where a marker `"<slug>"===a` stands, it is also a block terminator
      exactly when the slug is made of word characters only. A hyphenated
      slug's marker therefore does not end the block before it, and that
      block runs on into the next character's text. */
  lemma MarkerTerminatesIffWordSlug(s: string, slug: string, p: nat)
    requires OccursAt(s, Marker(slug), p) && slug != [] && '"' !in slug
    ensures WordMarkerAt(s, p) <==> forall k :: 0 <= k < |slug| ==> IsWordChar(slug[k])
  {
    var m := Marker(slug);
    assert forall k :: 0 <= k < |slug| ==> s[p + 1 + k] == slug[k] by {
      forall k | 0 <= k < |slug| ensures s[p + 1 + k] == slug[k] {
        assert m[1 + k] == slug[k];
      }
    }
    assert forall k :: 0 <= k < |MarkerTail| ==> s[p + 1 + |slug| + k] == MarkerTail[k] by {
      forall k | 0 <= k < |MarkerTail| ensures s[p + 1 + |slug| + k] == MarkerTail[k] {
        assert m[1 + |slug| + k] == MarkerTail[k];
      }
    }
    assert s[p] == m[0] == '"';
    assert MarkerTail[0] == '"';
    var n := WordRun(s, p + 1);
    assert n < |slug| ==> s[p + 1 + n] == slug[n];
    if forall k :: 0 <= k < |slug| ==> IsWordChar(slug[k]) {
      assert s[p + 1 + |slug| + 0] == '"';
      assert n == |slug|;
      assert OccursAt(s, MarkerTail, p + 1 + n);
    } else {
      var k :| 0 <= k < |slug| && !IsWordChar(slug[k]);
      assert n <= k;
      assert s[p + 1 + n] == slug[n];
      assert !OccursAt(s, MarkerTail, p + 1 + n) by {
        assert s[p + 1 + n + 0] != MarkerTail[0];
      }
    }
  }

  // ---------------------------------------------------------------------
  // The captures: `[...block.matchAll(open([^"]+)close)]`

  /** Length of the run of characters other than `"` starting at i. */
  function NonQuoteRun(s: string, i: nat): (n: nat)
    requires i <= |s|
    ensures i + n <= |s|
    ensures forall k :: i <= k < i + n ==> s[k] != '"'
    ensures i + n == |s| || s[i + n] == '"'
    decreases |s| - i
  {
    if i < |s| && s[i] != '"' then 1 + NonQuoteRun(s, i + 1) else 0
  }

  /** The capture of `open([^"]+)close` if the pattern matches at the start
      of s. `[^"]+` is greedy and close begins with `"`, so the capture is
      the whole run of non-quote characters after open. */
  function CaptureAtStart(s: string, open: string, close: string): (r: Option<string>)
    ensures r.Some? ==> r.value != [] && '"' !in r.value
    ensures r.Some? ==> OccursAt(s, open + r.value + close, 0)
  {
    if OccursAt(s, open, 0) then
      var n := NonQuoteRun(s, |open|);
      if n >= 1 && OccursAt(s, close, |open| + n) then
        var c := s[|open|..|open| + n];
        var w := open + c + close;
        assert forall j :: 0 <= j < |w| ==> s[j] == w[j] by {
          forall j | 0 <= j < |w| ensures s[j] == w[j] {
            if j < |open| {
            } else if j < |open| + n {
              assert w[j] == c[j - |open|];
            } else {
              assert w[j] == close[j - |open| - n];
              assert s[|open| + n + (j - |open| - n)] == close[j - |open| - n];
            }
          }
        }
        Some(c)
      else None
    else None
  }

  /** Every string that the pattern would accept at the start of s is the
      one CaptureAtStart returns. */
  lemma CaptureAtStartComplete(s: string, open: string, c: string, close: string)
    requires c != [] && '"' !in c && |close| > 0 && close[0] == '"'
    requires OccursAt(s, open + c + close, 0)
    ensures CaptureAtStart(s, open, close) == Some(c)
  {
    var w := open + c + close;
    forall j | 0 <= j < |open| ensures s[0 + j] == open[j] {
      assert w[j] == open[j];
    }
    forall j | 0 <= j < |c| ensures s[|open| + j] == c[j] {
      assert w[|open| + j] == c[j];
    }
    forall j | |open| <= j < |open| + |c| ensures s[j] != '"' {
      assert w[j] == c[j - |open|];
      OccursAtIndex(s, w, 0, j);
    }
    assert w[|open| + |c|] == close[0];
    OccursAtIndex(s, w, 0, |open| + |c|);
    forall j | 0 <= j < |close| ensures s[|open| + |c| + j] == close[j] {
      assert w[|open| + |c| + j] == close[j];
    }
    NonQuoteRunIs(s, |open|, |c|);
    assert s[|open|..|open| + |c|] == c;
  }

  /** A run of non-quote characters that ends at a quote or at the end of s
      is the one NonQuoteRun measures. */
  lemma {:induction false} NonQuoteRunIs(s: string, i: nat, len: nat)
    requires i + len <= |s|
    requires forall j :: i <= j < i + len ==> s[j] != '"'
    requires i + len == |s| || s[i + len] == '"'
    ensures NonQuoteRun(s, i) == len
    decreases len
  {
    if len > 0 {
      NonQuoteRunIs(s, i + 1, len - 1);
    }
  }

  /** All captures of a global match, left to right: after a match the scan
      goes on where the match ended, otherwise one character further on. */
  function MatchAll(s: string, open: string, close: string): (r: seq<string>)
    requires |open| > 0
    ensures forall k :: 0 <= k < |r| ==> r[k] != [] && '"' !in r[k]
    ensures forall k :: 0 <= k < |r| ==> Contains(s, open + r[k] + close)
    decreases |s|
  {
    if s == [] then []
    else match CaptureAtStart(s, open, close)
      case Some(c) =>
        var n := |open| + |c| + |close|;
        var rest := MatchAll(s[n..], open, close);
        MatchesInSuffix(s, n, rest, open, close);
        assert OccursAt(s, open + c + close, 0);
        [c] + rest
      case None =>
        var rest := MatchAll(s[1..], open, close);
        MatchesInSuffix(s, 1, rest, open, close);
        rest
  }

  /** A match in a suffix is a match in the whole text. */
  lemma MatchesInSuffix(s: string, a: nat, cs: seq<string>, open: string, close: string)
    requires a <= |s|
    requires forall k :: 0 <= k < |cs| ==> Contains(s[a..], open + cs[k] + close)
    ensures forall k :: 0 <= k < |cs| ==> Contains(s, open + cs[k] + close)
  {
    forall k | 0 <= k < |cs| ensures Contains(s, open + cs[k] + close) {
      var j :| 0 <= j <= |s[a..]| && OccursAt(s[a..], open + cs[k] + close, j);
      assert s[a..|s|] == s[a..];
      OccursInSlice(s, open + cs[k] + close, a, |s|, j);
    }
  }

  /** Text in which no match can start is skipped: no capture is lost or
      made up before the next match. */
  lemma MatchAllSkip(a: string, s: string, open: string, close: string)
    requires |open| > 0 && open[0] !in a
    ensures MatchAll(a + s, open, close) == MatchAll(s, open, close)
  {
    NoOpenNoMatch(a, s, open, close);
    MatchAllSkipNoMatch(a, s, open, close);
  }

  /** A match at the start yields its capture, and the scan resumes after
      it. */
  lemma MatchAllStep(c: string, s: string, open: string, close: string)
    requires |open| > 0 && |close| > 0 && close[0] == '"'
    requires c != [] && '"' !in c
    ensures MatchAll(open + c + close + s, open, close) == [c] + MatchAll(s, open, close)
  {
    var w := open + c + close;
    OccursAtFront(w, s);
    CaptureAtStartComplete(w + s, open, c, close);
    assert |w| == |open| + |c| + |close|;
  }

  /** The text a list of captures comes from when nothing stands between
      the matches. */
  function Render(cs: seq<string>, open: string, close: string): string {
    if cs == [] then "" else open + cs[0] + close + Render(cs[1..], open, close)
  }

  /** MatchAll reads back every capture of the rendered text, in order. */
  lemma {:induction false} MatchAllRender(cs: seq<string>, open: string, close: string)
    requires |open| > 0 && |close| > 0 && close[0] == '"'
    requires forall k :: 0 <= k < |cs| ==> cs[k] != [] && '"' !in cs[k]
    ensures MatchAll(Render(cs, open, close), open, close) == cs
    decreases |cs|
  {
    if cs != [] {
      MatchAllStep(cs[0], Render(cs[1..], open, close), open, close);
      MatchAllRender(cs[1..], open, close);
    }
  }

  /** Some match of `open([^"]+)close` starts at index k of t. */
  ghost predicate MatchAt(t: string, k: int, open: string, close: string) {
    exists c :: c != [] && '"' !in c && OccursAt(t, open + c + close, k)
  }

  /** A capture at the start of t is a match there. */
  lemma CaptureIsMatch(t: string, open: string, close: string)
    ensures CaptureAtStart(t, open, close).Some? ==> MatchAt(t, 0, open, close)
  {
    if CaptureAtStart(t, open, close).Some? {
      var c := CaptureAtStart(t, open, close).value;
      assert c != [] && '"' !in c && OccursAt(t, open + c + close, 0);
    }
  }

  /** Dropping the first character shifts the matches by one. */
  lemma MatchAtTail(t: string, k: int, open: string, close: string)
    requires |t| > 0 && k >= 1
    ensures MatchAt(t, k, open, close) <==> MatchAt(t[1..], k - 1, open, close)
  {
    if MatchAt(t, k, open, close) {
      var c :| c != [] && '"' !in c && OccursAt(t, open + c + close, k);
      OccursAtTail(t, open + c + close);
      assert OccursAt(t[1..], open + c + close, k - 1);
    }
    if MatchAt(t[1..], k - 1, open, close) {
      var c :| c != [] && '"' !in c && OccursAt(t[1..], open + c + close, k - 1);
      OccursAtTail(t, open + c + close);
      assert OccursAt(t, open + c + close, k);
    }
  }

  /** A match starting at k spells out the opening text from k on. */
  lemma MatchSpellsOpen(t: string, k: nat, j: nat, open: string, close: string)
    requires j < |open| && k + j < |t|
    ensures MatchAt(t, k, open, close) ==> t[k + j] == open[j]
  {
    if MatchAt(t, k, open, close) {
      var c :| c != [] && '"' !in c && OccursAt(t, open + c + close, k);
      OccursAtIndex(t, open + c + close, k, j);
      assert (open + c + close)[j] == open[j];
    }
  }

  /** Text in which no match starts is skipped, whatever it contains and
      whatever follows it: no capture is lost or made up before the next
      match. */
  lemma {:induction false} MatchAllSkipNoMatch(a: string, s: string, open: string, close: string)
    requires |open| > 0
    requires forall k :: 0 <= k < |a| ==> !MatchAt(a + s, k, open, close)
    ensures MatchAll(a + s, open, close) == MatchAll(s, open, close)
    decreases |a|
  {
    if a == [] {
      assert a + s == s;
    } else {
      var t := a + s;
      CaptureIsMatch(t, open, close);
      assert t[1..] == a[1..] + s;
      forall k | 0 <= k < |a[1..]| ensures !MatchAt(a[1..] + s, k, open, close) {
        MatchAtTail(t, k + 1, open, close);
      }
      MatchAllSkipNoMatch(a[1..], s, open, close);
    }
  }

  /** Text without the first character of the opening text holds no match. */
  lemma NoOpenNoMatch(a: string, s: string, open: string, close: string)
    requires |open| > 0 && open[0] !in a
    ensures forall k :: 0 <= k < |a| ==> !MatchAt(a + s, k, open, close)
  {
    forall k | 0 <= k < |a| ensures !MatchAt(a + s, k, open, close) {
      MatchSpellsOpen(a + s, k, 0, open, close);
      assert (a + s)[k] == a[k];
    }
  }

  /** A gap may hold the first character of the opening text, as real
      blocks do, as long as the second one does not follow it there. */
  lemma OpenCutShortNoMatch(a: string, s: string, open: string, close: string)
    requires |open| >= 2
    requires forall k :: 0 <= k < |a| && a[k] == open[0] ==> k + 1 < |a| && a[k + 1] != open[1]
    ensures forall k :: 0 <= k < |a| ==> !MatchAt(a + s, k, open, close)
  {
    forall k | 0 <= k < |a| ensures !MatchAt(a + s, k, open, close) {
      var t := a + s;
      assert t[k] == a[k];
      MatchSpellsOpen(t, k, 0, open, close);
      if k + 1 < |a| {
        assert t[k + 1] == a[k + 1];
        MatchSpellsOpen(t, k, 1, open, close);
      }
    }
  }

  /** `null,` holds the `n` of `name:"` but starts no match, so the disc
      after it is found. */
  lemma MainScanPastName()
    ensures MatchAll("null," + MainOpen + "Disc A" + MainClose, MainOpen, MainClose) == ["Disc A"]
  {
    var g, c := "null,", "Disc A";
    assert g[0] == 'n' && g[1] == 'u' && MainOpen[1] == 'a';
    OpenCutShortNoMatch(g, MainOpen + c + MainClose + "", MainOpen, MainClose);
    MatchAllGapThenMatch(g, c, "", MainOpen, MainClose);
    assert g + (MainOpen + c + MainClose + "") == "null," + MainOpen + "Disc A" + MainClose;
  }

  /** The quotes of a main entry stand before an extra disc without hiding
      it from the extra scan. */
  lemma ExtraScanPastQuotes()
    ensures MatchAll("\"A\",null," + ExtraOpen + "B" + ExtraClose, ExtraOpen, ExtraClose) == ["B"]
  {
    var g, c := "\"A\",null,", "B";
    assert ExtraOpen[0] == '"' && ExtraOpen[1] == 'l';
    OpenCutShortNoMatch(g, ExtraOpen + c + ExtraClose + "", ExtraOpen, ExtraClose);
    MatchAllGapThenMatch(g, c, "", ExtraOpen, ExtraClose);
    assert g + (ExtraOpen + c + ExtraClose + "") == "\"A\",null," + ExtraOpen + "B" + ExtraClose;
  }

  /** Matches with other text around and between them: gaps[0], the first
      match, gaps[1], and so on. */
  function Spread(gaps: seq<string>, cs: seq<string>, open: string, close: string): string
    requires |gaps| == |cs| + 1
    decreases |cs|
  {
    if cs == [] then gaps[0]
    else gaps[0] + (open + cs[0] + close + Spread(gaps[1..], cs[1..], open, close))
  }

  /** No match starts inside any gap of a Spread: the matches laid out are
      the leftmost ones. */
  ghost predicate GapsHoldNoMatch(gaps: seq<string>, cs: seq<string>, open: string, close: string)
    requires |gaps| == |cs| + 1
  {
    forall i, k :: 0 <= i <= |cs| && 0 <= k < |gaps[i]| ==>
      !MatchAt(Spread(gaps[i..], cs[i..], open, close), k, open, close)
  }

  /** When no match starts inside a gap, MatchAll reads back exactly the
      captures, in order, whatever stands between them. */
  lemma {:induction false} MatchAllSpread(gaps: seq<string>, cs: seq<string>, open: string, close: string)
    requires |gaps| == |cs| + 1
    requires |open| > 0 && |close| > 0 && close[0] == '"'
    requires forall k :: 0 <= k < |cs| ==> cs[k] != [] && '"' !in cs[k]
    requires GapsHoldNoMatch(gaps, cs, open, close)
    ensures MatchAll(Spread(gaps, cs, open, close), open, close) == cs
    decreases |cs|
  {
    assert gaps[0..] == gaps && cs[0..] == cs;
    var t := Spread(gaps, cs, open, close);
    assert forall k :: 0 <= k < |gaps[0]| ==> !MatchAt(t, k, open, close) by {
      forall k | 0 <= k < |gaps[0]| ensures !MatchAt(t, k, open, close) {
        assert !MatchAt(Spread(gaps[0..], cs[0..], open, close), k, open, close);
      }
    }
    if cs == [] {
      assert gaps[0] + [] == gaps[0];
      MatchAllSkipNoMatch(gaps[0], [], open, close);
    } else {
      var rest := Spread(gaps[1..], cs[1..], open, close);
      assert t == gaps[0] + (open + cs[0] + close + rest);
      MatchAllGapThenMatch(gaps[0], cs[0], rest, open, close);
      assert forall k :: 0 <= k < |cs| - 1 ==> cs[1..][k] == cs[k + 1];
      assert GapsHoldNoMatch(gaps[1..], cs[1..], open, close) by {
        forall i, k | 0 <= i <= |cs[1..]| && 0 <= k < |gaps[1..][i]|
          ensures !MatchAt(Spread(gaps[1..][i..], cs[1..][i..], open, close), k, open, close)
        {
          assert gaps[1..][i..] == gaps[i + 1..] && cs[1..][i..] == cs[i + 1..];
          assert gaps[1..][i] == gaps[i + 1];
        }
      }
      MatchAllSpread(gaps[1..], cs[1..], open, close);
      assert [cs[0]] + cs[1..] == cs;
    }
  }

  /** One step of MatchAllSpread: a gap in which no match starts, then a
      match. */
  lemma MatchAllGapThenMatch(g: string, c: string, rest: string, open: string, close: string)
    requires |open| > 0 && |close| > 0 && close[0] == '"'
    requires c != [] && '"' !in c
    requires forall k :: 0 <= k < |g| ==> !MatchAt(g + (open + c + close + rest), k, open, close)
    ensures MatchAll(g + (open + c + close + rest), open, close) == [c] + MatchAll(rest, open, close)
  {
    MatchAllSkipNoMatch(g, open + c + close + rest, open, close);
    MatchAllStep(c, rest, open, close);
  }

  /** A match at the start of t is the one CaptureAtStart finds. */
  lemma MatchIsCapture(t: string, open: string, close: string)
    requires |close| > 0 && close[0] == '"'
    ensures MatchAt(t, 0, open, close) ==> CaptureAtStart(t, open, close).Some?
  {
    if MatchAt(t, 0, open, close) {
      var c :| c != [] && '"' !in c && OccursAt(t, open + c + close, 0);
      CaptureAtStartComplete(t, open, c, close);
    }
  }

  /** The text around the matches MatchAll finds: before the first, between
      each two and after the last. */
  function Gaps(s: string, open: string, close: string): (g: seq<string>)
    requires |open| > 0
    ensures |g| == |MatchAll(s, open, close)| + 1
    decreases |s|
  {
    if s == [] then [""]
    else if CaptureAtStart(s, open, close).Some? then
      var c := CaptureAtStart(s, open, close).value;
      [""] + Gaps(s[|open| + |c| + |close|..], open, close)
    else
      var g := Gaps(s[1..], open, close);
      [[s[0]] + g[0]] + g[1..]
  }

  /** Gaps after a match at the start. */
  lemma GapsAtMatch(s: string, open: string, close: string)
    requires |open| > 0 && s != [] && CaptureAtStart(s, open, close).Some?
    ensures |open| + |CaptureAtStart(s, open, close).value| + |close| <= |s|
    ensures Gaps(s, open, close) == [""] + Gaps(s[|open| + |CaptureAtStart(s, open, close).value| + |close|..], open, close)
  {
  }

  /** MatchAll after a match at the start. */
  lemma MatchAllAtMatch(s: string, open: string, close: string)
    requires |open| > 0 && s != [] && CaptureAtStart(s, open, close).Some?
    ensures |open| + |CaptureAtStart(s, open, close).value| + |close| <= |s|
    ensures MatchAll(s, open, close) ==
      [CaptureAtStart(s, open, close).value] + MatchAll(s[|open| + |CaptureAtStart(s, open, close).value| + |close|..], open, close)
  {
  }

  /** Gaps and MatchAll where no match starts. */
  lemma GapsAtSkip(s: string, open: string, close: string)
    requires |open| > 0 && s != [] && CaptureAtStart(s, open, close).None?
    ensures Gaps(s, open, close) == [[s[0]] + Gaps(s[1..], open, close)[0]] + Gaps(s[1..], open, close)[1..]
    ensures MatchAll(s, open, close) == MatchAll(s[1..], open, close)
  {
  }

  /** Text put before the first gap comes first in the Spread. */
  lemma SpreadFirstGap(x: string, gaps: seq<string>, cs: seq<string>, open: string, close: string)
    requires |gaps| == |cs| + 1
    ensures Spread([x + gaps[0]] + gaps[1..], cs, open, close) == x + Spread(gaps, cs, open, close)
  {
    var g := [x + gaps[0]] + gaps[1..];
    assert g[0] == x + gaps[0] && g[1..] == gaps[1..];
    if cs != [] {
      AppendAssoc(x, gaps[0], open + cs[0] + close + Spread(gaps[1..], cs[1..], open, close));
    }
  }

  /** A Spread that starts with a match. */
  lemma SpreadMatchFirst(gaps: seq<string>, c: string, cs: seq<string>, open: string, close: string)
    requires |gaps| == |cs| + 1
    ensures Spread([""] + gaps, [c] + cs, open, close) == open + c + close + Spread(gaps, cs, open, close)
  {
    assert ([""] + gaps)[1..] == gaps && ([c] + cs)[1..] == cs;
  }

  /** A text with a match at the start is that match and the rest. */
  lemma MatchSplits(s: string, w: string)
    requires OccursAt(s, w, 0)
    ensures s == w + s[|w|..]
  {
    assert s[..|w|] == w by {
      forall j | 0 <= j < |w| ensures s[j] == w[j] {
        OccursAtIndex(s, w, 0, j);
      }
    }
    assert s == s[..|w|] + s[|w|..];
  }

  /** The matches and the gaps between them make up the whole text. */
  lemma {:induction false} SpreadGaps(s: string, open: string, close: string)
    requires |open| > 0
    ensures Spread(Gaps(s, open, close), MatchAll(s, open, close), open, close) == s
    decreases |s|
  {
    if s != [] {
      if CaptureAtStart(s, open, close).Some? {
        SpreadGaps(s[|open| + |CaptureAtStart(s, open, close).value| + |close|..], open, close);
        SpreadGapsAtMatch(s, open, close);
      } else {
        SpreadGaps(s[1..], open, close);
        SpreadGapsAtSkip(s, open, close);
      }
    }
  }

  lemma SpreadGapsAtMatch(s: string, open: string, close: string)
    requires |open| > 0 && s != [] && CaptureAtStart(s, open, close).Some?
    requires |open| + |CaptureAtStart(s, open, close).value| + |close| <= |s|
    requires var t := s[|open| + |CaptureAtStart(s, open, close).value| + |close|..];
      Spread(Gaps(t, open, close), MatchAll(t, open, close), open, close) == t
    ensures Spread(Gaps(s, open, close), MatchAll(s, open, close), open, close) == s
  {
    var c := CaptureAtStart(s, open, close).value;
    var t := s[|open| + |c| + |close|..];
    GapsAtMatch(s, open, close);
    MatchAllAtMatch(s, open, close);
    SpreadMatchFirst(Gaps(t, open, close), c, MatchAll(t, open, close), open, close);
    MatchSplits(s, open + c + close);
  }

  lemma SpreadGapsAtSkip(s: string, open: string, close: string)
    requires |open| > 0 && s != [] && CaptureAtStart(s, open, close).None?
    requires Spread(Gaps(s[1..], open, close), MatchAll(s[1..], open, close), open, close) == s[1..]
    ensures Spread(Gaps(s, open, close), MatchAll(s, open, close), open, close) == s
  {
    GapsAtSkip(s, open, close);
    SpreadFirstGap([s[0]], Gaps(s[1..], open, close), MatchAll(s, open, close), open, close);
    assert s == [s[0]] + s[1..];
  }

  /** A match put in front, with an empty gap before it, keeps every gap
      free of matches. */
  lemma GapsHoldNoMatchCons(gaps: seq<string>, c: string, cs: seq<string>, open: string, close: string)
    requires |gaps| == |cs| + 1
    requires GapsHoldNoMatch(gaps, cs, open, close)
    ensures GapsHoldNoMatch([""] + gaps, [c] + cs, open, close)
  {
    var g, cs2 := [""] + gaps, [c] + cs;
    forall i, k | 0 <= i <= |cs2| && 0 <= k < |g[i]|
      ensures !MatchAt(Spread(g[i..], cs2[i..], open, close), k, open, close)
    {
      assert i != 0;
      assert g[i..] == gaps[i - 1..] && cs2[i..] == cs[i - 1..] && g[i] == gaps[i - 1];
    }
  }

  /** Gaps past the first are untouched when text is put before the first
      gap. */
  lemma GapsHoldNoMatchLater(x: string, gaps: seq<string>, cs: seq<string>, open: string, close: string)
    requires |gaps| == |cs| + 1
    requires GapsHoldNoMatch(gaps, cs, open, close)
    ensures var g := [x + gaps[0]] + gaps[1..];
      forall i, k :: 1 <= i <= |cs| && 0 <= k < |g[i]| ==>
        !MatchAt(Spread(g[i..], cs[i..], open, close), k, open, close)
  {
    var g := [x + gaps[0]] + gaps[1..];
    forall i, k | 1 <= i <= |cs| && 0 <= k < |g[i]|
      ensures !MatchAt(Spread(g[i..], cs[i..], open, close), k, open, close)
    {
      assert g[i..] == gaps[i..] && g[i] == gaps[i];
    }
  }

  /** No match starts inside a gap MatchAll leaves. */
  lemma {:induction false} GapsNoMatch(s: string, open: string, close: string)
    requires |open| > 0 && |close| > 0 && close[0] == '"'
    ensures GapsHoldNoMatch(Gaps(s, open, close), MatchAll(s, open, close), open, close)
    decreases |s|
  {
    if s != [] {
      if CaptureAtStart(s, open, close).Some? {
        GapsNoMatch(s[|open| + |CaptureAtStart(s, open, close).value| + |close|..], open, close);
        GapsNoMatchAtMatch(s, open, close);
      } else {
        GapsNoMatch(s[1..], open, close);
        GapsNoMatchAtSkip(s, open, close);
      }
    }
  }

  lemma GapsNoMatchAtMatch(s: string, open: string, close: string)
    requires |open| > 0 && s != [] && CaptureAtStart(s, open, close).Some?
    requires |open| + |CaptureAtStart(s, open, close).value| + |close| <= |s|
    requires var t := s[|open| + |CaptureAtStart(s, open, close).value| + |close|..];
      GapsHoldNoMatch(Gaps(t, open, close), MatchAll(t, open, close), open, close)
    ensures GapsHoldNoMatch(Gaps(s, open, close), MatchAll(s, open, close), open, close)
  {
    var t := s[|open| + |CaptureAtStart(s, open, close).value| + |close|..];
    GapsAtMatch(s, open, close);
    MatchAllAtMatch(s, open, close);
    GapsHoldNoMatchCons(Gaps(t, open, close), CaptureAtStart(s, open, close).value, MatchAll(t, open, close), open, close);
  }

  lemma GapsNoMatchAtSkip(s: string, open: string, close: string)
    requires |open| > 0 && |close| > 0 && close[0] == '"' && s != [] && CaptureAtStart(s, open, close).None?
    requires GapsHoldNoMatch(Gaps(s[1..], open, close), MatchAll(s[1..], open, close), open, close)
    ensures GapsHoldNoMatch(Gaps(s, open, close), MatchAll(s, open, close), open, close)
  {
    GapsAtSkip(s, open, close);
    var g, cs := Gaps(s, open, close), MatchAll(s, open, close);
    var g' := Gaps(s[1..], open, close);
    GapsHoldNoMatchLater([s[0]], g', cs, open, close);
    SpreadGaps(s, open, close);
    SpreadGaps(s[1..], open, close);
    assert g[0..] == g && cs[0..] == cs && g'[0..] == g';
    forall k | 0 <= k < |g[0]| ensures !MatchAt(Spread(g[0..], cs[0..], open, close), k, open, close) {
      if k == 0 {
        MatchIsCapture(s, open, close);
      } else {
        MatchAtTail(s, k, open, close);
        assert !MatchAt(Spread(g'[0..], cs[0..], open, close), k - 1, open, close);
      }
    }
  }

  /** MatchAll returns exactly the leftmost non-overlapping captures: cs is
      its result precisely when the text is cs's matches with gaps in which
      no match starts. */
  lemma MatchAllLeftmost(s: string, cs: seq<string>, open: string, close: string)
    requires |open| > 0 && |close| > 0 && close[0] == '"'
    ensures MatchAll(s, open, close) == cs <==>
      (forall k :: 0 <= k < |cs| ==> cs[k] != [] && '"' !in cs[k]) &&
      exists gaps :: |gaps| == |cs| + 1 && Spread(gaps, cs, open, close) == s && GapsHoldNoMatch(gaps, cs, open, close)
  {
    if MatchAll(s, open, close) == cs {
      SpreadGaps(s, open, close);
      GapsNoMatch(s, open, close);
      var gaps := Gaps(s, open, close);
      assert |gaps| == |cs| + 1 && Spread(gaps, cs, open, close) == s && GapsHoldNoMatch(gaps, cs, open, close);
    }
    if (forall k :: 0 <= k < |cs| ==> cs[k] != [] && '"' !in cs[k]) &&
      exists gaps :: |gaps| == |cs| + 1 && Spread(gaps, cs, open, close) == s && GapsHoldNoMatch(gaps, cs, open, close)
    {
      var gaps :| |gaps| == |cs| + 1 && Spread(gaps, cs, open, close) == s && GapsHoldNoMatch(gaps, cs, open, close);
      MatchAllSpread(gaps, cs, open, close);
    }
  }

  // ---------------------------------------------------------------------
  // Cleaning up the disc list (DiskStats.js:144-155)

  /** The callback of the `flatMap` at DiskStats.js:147-152. */
  function SplitTrim(disc: string): seq<string> {
    if '/' in disc then TrimAll(Split(disc, "/")) else [Trim(disc)]
  }

  /** Both branches of the callback trim the `/`-separated parts. */
  lemma SplitTrimParts(disc: string)
    ensures SplitTrim(disc) == TrimAll(Split(disc, "/"))
  {
    if '/' !in disc {
      NoSeparator(disc, "/");
    }
  }

  /** The disc list of a character from its main and extra captures. */
  function CleanDiscs(main: seq<string>, extra: seq<string>): seq<string> {
    Dedup(FlatMap(SplitTrim, Dedup(main + extra)))
  }

  /** The parts SplitTrim makes have no `/` and are trimmed. */
  lemma SplitTrimShape(disc: string)
    ensures forall k :: 0 <= k < |SplitTrim(disc)| ==> '/' !in SplitTrim(disc)[k] && IsTrimmed(SplitTrim(disc)[k])
  {
    SplitTrimParts(disc);
    var ps := Split(disc, "/");
    var r := SplitTrim(disc);
    forall k | 0 <= k < |r| ensures '/' !in r[k] && IsTrimmed(r[k]) {
      assert r[k] == Trim(ps[k]);
      assert !Contains(ps[k], "/");
      ContainsChar(ps[k], '/');
      TrimKeepsOut(ps[k], '/');
    }
  }

  /** The cleaned list: no duplicates, no `/`, every entry trimmed; every
      trimmed `/`-part of every capture is in it and every entry is one;
      the parts of the main captures come first, in first-seen order. */
  lemma CleanDiscsProperties(main: seq<string>, extra: seq<string>)
    ensures var r := CleanDiscs(main, extra); var all := main + extra;
      && NoDup(r)
      && (forall k :: 0 <= k < |r| ==> '/' !in r[k] && IsTrimmed(r[k]))
      && (forall i, j :: 0 <= i < |all| && 0 <= j < |Split(all[i], "/")| ==> Trim(Split(all[i], "/")[j]) in r)
      && (forall k :: 0 <= k < |r| ==> exists i :: 0 <= i < |all| && r[k] in SplitTrim(all[i]))
      && Dedup(FlatMap(SplitTrim, main)) <= r
  {
    CleanDiscsFlat(main, extra);
    CleanDiscsShape(main + extra);
    CleanDiscsCovers(main + extra);
    CleanDiscsSources(main + extra);
    FlatMapAppend(SplitTrim, main, extra);
    DedupPrefix(FlatMap(SplitTrim, main), FlatMap(SplitTrim, extra));
  }

  /** The inner de-duplication changes nothing of the result. */
  lemma CleanDiscsFlat(main: seq<string>, extra: seq<string>)
    ensures CleanDiscs(main, extra) == Dedup(FlatMap(SplitTrim, main + extra))
  {
    DedupFlatMapDedup(SplitTrim, main + extra);
  }

  lemma CleanDiscsShape(all: seq<string>)
    ensures var r := Dedup(FlatMap(SplitTrim, all));
      forall k :: 0 <= k < |r| ==> '/' !in r[k] && IsTrimmed(r[k])
  {
    var r := Dedup(FlatMap(SplitTrim, all));
    forall k | 0 <= k < |r| ensures '/' !in r[k] && IsTrimmed(r[k]) {
      FlatMapSources(SplitTrim, all, r[k]);
      var i :| 0 <= i < |all| && r[k] in SplitTrim(all[i]);
      SplitTrimShape(all[i]);
    }
  }

  lemma CleanDiscsSources(all: seq<string>)
    ensures var r := Dedup(FlatMap(SplitTrim, all));
      forall k :: 0 <= k < |r| ==> exists i :: 0 <= i < |all| && r[k] in SplitTrim(all[i])
  {
    var r := Dedup(FlatMap(SplitTrim, all));
    forall k | 0 <= k < |r| ensures exists i :: 0 <= i < |all| && r[k] in SplitTrim(all[i]) {
      FlatMapSources(SplitTrim, all, r[k]);
    }
  }

  lemma CleanDiscsCovers(all: seq<string>)
    ensures var r := Dedup(FlatMap(SplitTrim, all));
      forall i, j :: 0 <= i < |all| && 0 <= j < |Split(all[i], "/")| ==> Trim(Split(all[i], "/")[j]) in r
  {
    var fm := FlatMap(SplitTrim, all);
    forall i, j | 0 <= i < |all| && 0 <= j < |Split(all[i], "/")| ensures Trim(Split(all[i], "/")[j]) in Dedup(fm) {
      SplitTrimParts(all[i]);
      FlatMapCovers(SplitTrim, all, i);
      var u := Trim(Split(all[i], "/")[j]);
      assert SplitTrim(all[i])[j] == u;
      DedupMembers(fm, u);
    }
  }

  /** The discs of one character's block. */
  function ExtractDiscs(block: string): seq<string> {
    CleanDiscs(MatchAll(block, MainOpen, MainClose), MatchAll(block, ExtraOpen, ExtraClose))
  }

  // ---------------------------------------------------------------------
  // The mapping (DiskStats.js:125-156)

  /** A character as the stats stage lists it for the disc lookup. */
  datatype CharacterRef = CharacterRef(name: string, slug: string)

  datatype ExtractError = SectionNotFound

  predicate Found(section: string, c: CharacterRef) {
    FindCharBlock(section, c.slug).Some?
  }

  /** What the loop learns about one character: its name and, when its
      block is found, its discs. */
  function Lookup(section: string, c: CharacterRef): (string, Option<seq<string>>) {
    (c.name, match FindCharBlock(section, c.slug)
             case None => None
             case Some(block) => Some(ExtractDiscs(block)))
  }

  function Lookups(section: string, refs: seq<CharacterRef>): (r: seq<(string, Option<seq<string>>)>)
    ensures |r| == |refs| && forall i :: 0 <= i < |refs| ==> r[i] == Lookup(section, refs[i])
    decreases |refs|
  {
    if refs == [] then []
    else Lookups(section, refs[..|refs| - 1]) + [Lookup(section, refs[|refs| - 1])]
  }

  /** Assignments to an object in order: a found value sets the entry of its
      name, a missing one leaves the object alone. */
  function Assign(ls: seq<(string, Option<seq<string>>)>): map<string, seq<string>> {
    if ls == [] then map[]
    else
      var d := Assign(ls[..|ls| - 1]);
      var (name, v) := ls[|ls| - 1];
      if v.Some? then d[name := v.value] else d
  }

  lemma {:induction false} AssignKeys(ls: seq<(string, Option<seq<string>>)>, name: string)
    ensures name in Assign(ls) <==> exists i :: 0 <= i < |ls| && ls[i].0 == name && ls[i].1.Some?
    decreases |ls|
  {
    if ls != [] {
      var init := ls[..|ls| - 1];
      AssignKeys(init, name);
      assert forall i :: 0 <= i < |init| ==> init[i] == ls[i];
      if exists i :: 0 <= i < |ls| && ls[i].0 == name && ls[i].1.Some? {
        var i :| 0 <= i < |ls| && ls[i].0 == name && ls[i].1.Some?;
        if i < |init| {
          assert init[i].0 == name && init[i].1.Some?;
        }
      }
    }
  }

  lemma {:induction false} AssignLast(ls: seq<(string, Option<seq<string>>)>, i: nat)
    requires i < |ls| && ls[i].1.Some?
    requires forall j :: i < j < |ls| && ls[j].0 == ls[i].0 ==> ls[j].1.None?
    ensures ls[i].0 in Assign(ls) && Assign(ls)[ls[i].0] == ls[i].1.value
    decreases |ls|
  {
    var init := ls[..|ls| - 1];
    if i < |ls| - 1 {
      assert init[i] == ls[i];
      assert forall j :: i < j < |init| ==> init[j] == ls[j];
      AssignLast(init, i);
    }
  }

  /** Every entry of the object is a value that was assigned to its name. */
  lemma {:induction false} AssignValues(ls: seq<(string, Option<seq<string>>)>, name: string)
    requires name in Assign(ls)
    ensures exists i :: 0 <= i < |ls| && ls[i].0 == name && ls[i].1 == Some(Assign(ls)[name])
    decreases |ls|
  {
    var init := ls[..|ls| - 1];
    var (n, v) := ls[|ls| - 1];
    if !(n == name && v.Some?) {
      AssignValues(init, name);
      var i :| 0 <= i < |init| && init[i].0 == name && init[i].1 == Some(Assign(init)[name]);
      assert ls[i] == init[i];
    }
  }

  /** `diskData` after the loop has visited refs. Only lookups by name are
      made on `diskData` later, so a map stands for the object. */
  function DiskDataFrom(section: string, refs: seq<CharacterRef>): map<string, seq<string>> {
    Assign(Lookups(section, refs))
  }

  /** A name has an entry exactly when some character of that name has a
      block; a character whose block is missing adds nothing. */
  lemma DiskDataFromKeys(section: string, refs: seq<CharacterRef>, name: string)
    ensures name in DiskDataFrom(section, refs) <==>
      exists i :: 0 <= i < |refs| && refs[i].name == name && Found(section, refs[i])
  {
    var ls := Lookups(section, refs);
    AssignKeys(ls, name);
    assert forall i :: 0 <= i < |refs| ==> (ls[i].0 == name && ls[i].1.Some? <==> refs[i].name == name && Found(section, refs[i]));
  }

  /** The entry of a name is the disc list of the last character of that
      name whose block is found. */
  lemma DiskDataFromLast(section: string, refs: seq<CharacterRef>, i: nat)
    requires i < |refs| && Found(section, refs[i])
    requires forall j :: i < j < |refs| && refs[j].name == refs[i].name ==> !Found(section, refs[j])
    ensures refs[i].name in DiskDataFrom(section, refs)
    ensures DiskDataFrom(section, refs)[refs[i].name] == ExtractDiscs(FindCharBlock(section, refs[i].slug).value)
  {
    var ls := Lookups(section, refs);
    assert forall j :: 0 <= j < |refs| ==> (ls[j].1.None? <==> !Found(section, refs[j]));
    AssignLast(ls, i);
  }

  /** Every disc list in the mapping is the cleaned disc list of some
      block. */
  lemma DiskDataFromValues(section: string, refs: seq<CharacterRef>, name: string)
    requires name in DiskDataFrom(section, refs)
    ensures exists block :: DiskDataFrom(section, refs)[name] == ExtractDiscs(block)
  {
    var ls := Lookups(section, refs);
    AssignValues(ls, name);
    var i :| 0 <= i < |ls| && ls[i].0 == name && ls[i].1 == Some(Assign(ls)[name]);
    assert ls[i] == Lookup(section, refs[i]);
    var block := FindCharBlock(section, refs[i].slug).value;
    assert DiskDataFrom(section, refs)[name] == ExtractDiscs(block);
  }

  lemma AssignSnoc(ls: seq<(string, Option<seq<string>>)>, x: (string, Option<seq<string>>))
    ensures Assign(ls + [x]) == if x.1.Some? then Assign(ls)[x.0 := x.1.value] else Assign(ls)
  {
    SnocParts(ls, x);
  }

  /** One pass of the extraction loop. */
  lemma DiskDataStep(section: string, refs: seq<CharacterRef>, i: nat)
    requires i < |refs|
    ensures var d := DiskDataFrom(section, refs[..i]);
      DiskDataFrom(section, refs[..i + 1]) ==
        match FindCharBlock(section, refs[i].slug)
        case None => d
        case Some(block) => d[refs[i].name := ExtractDiscs(block)]
  {
    PrefixStep(refs, i);
    AssignSnoc(Lookups(section, refs[..i]), Lookup(section, refs[i]));
  }

  /** The extraction loop. The section lookup failing is the one fatal
      error; every character whose block is found gets its disc list. */
  method GetDiskInformation(content: string, refs: seq<CharacterRef>)
    returns (r: Result<map<string, seq<string>>, ExtractError>)
    ensures r.Failure? <==> FindDiskSection(content).None?
    ensures r.Success? ==> r.value == DiskDataFrom(FindDiskSection(content).value, refs)
  {
    var found := FindDiskSection(content);
    if found.None? {
      return Failure(SectionNotFound);
    }
    var section := found.value;
    var diskData: map<string, seq<string>> := map[];
    var i := 0;
    while i < |refs|
      invariant 0 <= i <= |refs|
      invariant diskData == DiskDataFrom(section, refs[..i])
    {
      var c := refs[i];
      DiskDataStep(section, refs, i);
      var block := FindCharBlock(section, c.slug);
      if block.Some? {
        diskData := diskData[c.name := ExtractDiscs(block.value)];
      }
      i := i + 1;
    }
    WholePrefix(refs);
    return Success(diskData);
  }
}
