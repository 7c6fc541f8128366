/** The second half of `formatDiskStats` (DiskStats.js:240-303): the report
    text, one section per disc in `sort()` order, each with a summary of the
    top counts and the four detail lists. */
module Report {
  import opened Wrappers
  import opened Seqs
  import opened Text
  import opened JsObject
  import opened Records
  import opened Aggregation
  import opened Ranking

  // ---------------------------------------------------------------------
  // Numbers in template literals

  predicate IsDigit(c: char) {
    '0' <= c <= '9'
  }

  function DigitChar(d: nat): (c: char)
    requires d < 10
    ensures IsDigit(c)
  {
    "0123456789"[d]
  }

  function DigitValue(c: char): nat
    requires IsDigit(c)
  {
    (c as int - '0' as int) as nat
  }

  /** `${n}` for a non-negative integer: its decimal digits, most
      significant first, with no leading zero. */
  function NatToString(n: nat): (r: string)
    ensures |r| >= 1 && forall k :: 0 <= k < |r| ==> IsDigit(r[k])
    ensures |r| > 1 ==> r[0] != '0'
    decreases n
  {
    if n < 10 then [DigitChar(n)] else NatToString(n / 10) + [DigitChar(n % 10)]
  }

  /** The value of a string of decimal digits. */
  function ParseNat(s: string): nat
    requires forall k :: 0 <= k < |s| ==> IsDigit(s[k])
    decreases |s|
  {
    if s == [] then 0 else ParseNat(s[..|s| - 1]) * 10 + DigitValue(s[|s| - 1])
  }

  /** Reading the digits back gives the number, so different counts print
      differently. */
  lemma {:induction false} ParseNatToString(n: nat)
    ensures ParseNat(NatToString(n)) == n
    decreases n
  {
    var r := NatToString(n);
    if n >= 10 {
      ParseNatToString(n / 10);
      assert r[..|r| - 1] == NatToString(n / 10);
    }
  }

  lemma NatToStringInjective(m: nat, n: nat)
    requires NatToString(m) == NatToString(n)
    ensures m == n
  {
    ParseNatToString(m);
    ParseNatToString(n);
  }

  // ---------------------------------------------------------------------
  // The default sort of the disc names

  /** a sorts strictly before b: a is a proper prefix of b, or a has the
      smaller character at the first difference. */
  predicate LexLess(a: string, b: string)
    decreases |a|
  {
    |b| > 0 && (|a| == 0 || a[0] < b[0] || (a[0] == b[0] && LexLess(a[1..], b[1..])))
  }

  lemma {:induction false} LexLessIrreflexive(a: string)
    ensures !LexLess(a, a)
    decreases |a|
  {
    if |a| > 0 {
      LexLessIrreflexive(a[1..]);
    }
  }

  lemma {:induction false} LexLessTransitive(a: string, b: string, c: string)
    ensures LexLess(a, b) && LexLess(b, c) ==> LexLess(a, c)
    decreases |a|
  {
    if |a| > 0 && |b| > 0 && |c| > 0 && a[0] == b[0] && b[0] == c[0] {
      LexLessTransitive(a[1..], b[1..], c[1..]);
    }
  }

  /** Two different strings are ordered one way round. */
  lemma {:induction false} LexLessTotal(a: string, b: string)
    requires a != b
    ensures LexLess(a, b) || LexLess(b, a)
    decreases |a|
  {
    if |a| > 0 && |b| > 0 && a[0] == b[0] {
      assert a == [a[0]] + a[1..] && b == [b[0]] + b[1..];
      LexLessTotal(a[1..], b[1..]);
    }
  }

  lemma {:induction false} LexLessAsymmetric(a: string, b: string)
    ensures LexLess(a, b) ==> !LexLess(b, a)
    decreases |a|
  {
    if |a| > 0 && |b| > 0 && a[0] == b[0] {
      LexLessAsymmetric(a[1..], b[1..]);
    }
  }

  /** No later element sorts before an earlier one. */
  predicate SortedAsc(s: seq<string>) {
    forall i, j :: 0 <= i < j < |s| ==> !LexLess(s[j], s[i])
  }

  function InsertAsc(s: seq<string>, x: string): seq<string> {
    if s == [] then [x]
    else if !LexLess(x, s[0]) then [s[0]] + InsertAsc(s[1..], x)
    else [x] + s
  }

  /** `Array.prototype.sort()` without a comparator on strings. */
  function SortStrings(s: seq<string>): seq<string>
    decreases |s|
  {
    if s == [] then [] else InsertAsc(SortStrings(s[..|s| - 1]), s[|s| - 1])
  }

  lemma {:induction false} InsertAscBound(s: seq<string>, x: string, b: string)
    requires forall k :: 0 <= k < |s| ==> !LexLess(s[k], b)
    requires !LexLess(x, b)
    ensures forall k :: 0 <= k < |InsertAsc(s, x)| ==> !LexLess(InsertAsc(s, x)[k], b)
    decreases |s|
  {
    if s != [] && !LexLess(x, s[0]) {
      InsertAscBound(s[1..], x, b);
    }
  }

  lemma {:induction false} InsertAscSorted(s: seq<string>, x: string)
    requires SortedAsc(s)
    ensures SortedAsc(InsertAsc(s, x))
    decreases |s|
  {
    if s != [] {
      if !LexLess(x, s[0]) {
        var rest := InsertAsc(s[1..], x);
        InsertAscSorted(s[1..], x);
        InsertAscBound(s[1..], x, s[0]);
        assert forall k :: 1 <= k < |[s[0]] + rest| ==> ([s[0]] + rest)[k] == rest[k - 1];
      } else {
        forall j | 0 <= j < |s| ensures !LexLess(s[j], x) {
          LexLessTransitive(s[j], x, s[0]);
          LexLessAsymmetric(x, s[0]);
        }
        assert forall k :: 1 <= k < |[x] + s| ==> ([x] + s)[k] == s[k - 1];
      }
    }
  }

  lemma {:induction false} InsertAscPermutes(s: seq<string>, x: string)
    ensures multiset(InsertAsc(s, x)) == multiset(s) + multiset{x}
    decreases |s|
  {
    if s != [] {
      assert s == [s[0]] + s[1..];
      if !LexLess(x, s[0]) {
        InsertAscPermutes(s[1..], x);
        assert multiset([s[0]] + InsertAsc(s[1..], x)) == multiset{s[0]} + multiset(InsertAsc(s[1..], x));
      } else {
        assert multiset([x] + s) == multiset{x} + multiset(s);
      }
    }
  }

  /** The sort orders its input and keeps exactly its elements. */
  lemma {:induction false} SortStringsSorted(s: seq<string>)
    ensures SortedAsc(SortStrings(s))
    ensures multiset(SortStrings(s)) == multiset(s)
    decreases |s|
  {
    if s != [] {
      SortStringsSorted(s[..|s| - 1]);
      InsertAscSorted(SortStrings(s[..|s| - 1]), s[|s| - 1]);
      InsertAscPermutes(SortStrings(s[..|s| - 1]), s[|s| - 1]);
      assert multiset(s) == multiset(s[..|s| - 1]) + multiset{s[|s| - 1]} by {
        Snoc(s);
      }
    }
  }

  /** Sorting distinct names lists each of them once, in strictly ascending
      order. */
  lemma SortStringsDistinct(s: seq<string>)
    requires NoDup(s)
    ensures NoDup(SortStrings(s))
    ensures forall i, j :: 0 <= i < j < |SortStrings(s)| ==> LexLess(SortStrings(s)[i], SortStrings(s)[j])
    ensures forall x :: x in SortStrings(s) <==> x in s
    ensures |SortStrings(s)| == |s|
  {
    var r := SortStrings(s);
    SortStringsSorted(s);
    assert |r| == |multiset(r)| == |multiset(s)| == |s|;
    NoDupMultiset(s, r);
    forall i, j | 0 <= i < j < |r| ensures LexLess(r[i], r[j]) {
      LexLessTotal(r[i], r[j]);
    }
    forall x ensures x in r <==> x in s {
      assert x in r <==> x in multiset(r);
      assert x in s <==> x in multiset(s);
    }
  }

  // ---------------------------------------------------------------------
  // The text

  /** `${stat}: ${count}`. */
  function PairText(e: Entry): string {
    e.0 + ": " + NatToString(e.1)
  }

  function PairTexts(es: seq<Entry>): (r: seq<string>)
    ensures |r| == |es| && forall k :: 0 <= k < |es| ==> r[k] == PairText(es[k])
  {
    if es == [] then [] else [PairText(es[0])] + PairTexts(es[1..])
  }

  /** `top.map(([stat, count]) => `${stat}: ${count}`).join(', ')`. */
  function Pairs(es: seq<Entry>): string {
    Join(PairTexts(es), ", ")
  }

  /** `- ${stat} = ${count}\n`. */
  function DetailLine(e: Entry): string {
    "- " + e.0 + " = " + NatToString(e.1) + "\n"
  }

  /** One detail line per entry, in order. */
  function Details(es: seq<Entry>): string
    decreases |es|
  {
    if es == [] then "" else Details(es[..|es| - 1]) + DetailLine(es[|es| - 1])
  }

  /** The top counts of a table as `getTopCounts` selects them. */
  function Top(t: Tally, n: nat): seq<Entry> {
    TopWithTies(SortByCountDesc(t), n)
  }

  /** The heading and summary of a disc's section (DiskStats.js:267-279). */
  function Summary(disc: string, st: DiscStats): string {
    "**" + disc + "**\n"
    + "\nSummary:"
    + "\nMain 4: " + Pairs(Top(st.main4, 2)) + ", "
    + "\nMain 5: " + Pairs(Top(st.main5, 2)) + ", "
    + "\nMain 6: " + Pairs(Top(st.main6, 2)) + ", "
    + "\nSubstats: " + Pairs(Top(st.substats, 4))
    + "\n"
  }

  /** A titled detail list (DiskStats.js:282-300). */
  function DetailBlock(title: string, t: Tally): string {
    title + Details(SortByCountDesc(t))
  }

  /** The section of one disc (DiskStats.js:267-302). */
  function DiscSection(disc: string, st: DiscStats): string {
    Summary(disc, st)
    + DetailBlock("\nMain 4:\n", st.main4)
    + DetailBlock("\nMain 5:\n", st.main5)
    + DetailBlock("\nMain 6:\n", st.main6)
    + DetailBlock("\nSubstats:\n", st.substats)
    + "\n"
  }

  /** The sections of the given discs, in the given order. */
  function Sections(ds: Entries<DiscStats>, discs: seq<string>): string
    decreases |discs|
  {
    if discs == [] then ""
    else Sections(ds, discs[..|discs| - 1]) + DiscSection(discs[|discs| - 1], GetOr(ds, discs[|discs| - 1], EmptyStats))
  }

  /** The report: a section per disc, discs in `sort()` order. */
  function ReportText(ds: Entries<DiscStats>): string {
    Sections(ds, SortStrings(Keys(ds)))
  }

  // ---------------------------------------------------------------------
  // What the report lists

  /** The discs of the report are the discs used by characters with stats,
      each once, in strictly ascending order. */
  lemma ReportDiscOrder(cs: seq<Character>)
    ensures var order := SortStrings(Keys(AggregateAll(cs)));
      && NoDup(order)
      && (forall i, j :: 0 <= i < j < |order| ==> LexLess(order[i], order[j]))
      && (forall d :: d in order <==> d in FlatMap(UsedDiscs, cs))
  {
    AggregateKeys(cs);
    var ks := Keys(AggregateAll(cs));
    SortStringsDistinct(ks);
    forall d ensures d in ks <==> d in FlatMap(UsedDiscs, cs) {
      DedupMembers(FlatMap(UsedDiscs, cs), d);
    }
  }

  /** Every disc the report names has a table in `diskStats`, so its
      section shows that table rather than the empty default. */
  lemma ReportDiscsPresent(ds: Entries<DiscStats>, d: string)
    requires d in SortStrings(Keys(ds))
    ensures Get(ds, d).Some? && GetOr(ds, d, EmptyStats) == Get(ds, d).value
  {
    SortStringsSorted(Keys(ds));
    assert d in multiset(SortStrings(Keys(ds)));
    GetSpec(ds, d);
  }

  /** A detail list of a well-formed table is in non-increasing count
      order, stable, and lists every stat of the table exactly once with
      its count. */
  lemma DetailListing(t: Tally)
    requires ValidTally(t)
    ensures var r := SortByCountDesc(t);
      && SortedDesc(r)
      && (forall c :: WithCount(r, c) == WithCount(t, c))
      && NoDup(Keys(r))
      && (forall s :: s in Keys(r) <==> s in Keys(t))
      && (forall i :: 0 <= i < |r| ==> Get(t, r[i].0) == Some(r[i].1))
  {
    var r := SortByCountDesc(t);
    SortByCountDescSorted(t);
    forall c ensures WithCount(r, c) == WithCount(t, c) {
      SortByCountDescStable(t, c);
    }
    SameEntriesCounts(t, r);
    SameEntriesKeys(t, r);
    SameEntriesDistinct(t, r);
  }

  /** Each entry of a reordering of t carries the count t gives its key. */
  lemma SameEntriesCounts(t: Tally, r: seq<Entry>)
    requires DistinctKeys(t) && multiset(r) == multiset(t)
    ensures forall i :: 0 <= i < |r| ==> Get(t, r[i].0) == Some(r[i].1)
  {
    forall i | 0 <= i < |r| ensures Get(t, r[i].0) == Some(r[i].1) {
      assert r[i] in multiset(t);
      var j :| 0 <= j < |t| && t[j] == r[i];
      GetDistinct(t, j);
    }
  }

  lemma SameEntriesKeys(t: Tally, r: seq<Entry>)
    requires multiset(r) == multiset(t)
    ensures forall s :: s in Keys(r) <==> s in Keys(t)
  {
    forall s ensures s in Keys(r) <==> s in Keys(t) {
      if s in Keys(r) {
        var i :| 0 <= i < |r| && Keys(r)[i] == s;
        assert r[i] in multiset(t);
      }
      if s in Keys(t) {
        var j :| 0 <= j < |t| && Keys(t)[j] == s;
        assert t[j] in multiset(r);
      }
    }
  }

  lemma SameEntriesDistinct(t: Tally, r: seq<Entry>)
    requires DistinctKeys(t) && multiset(r) == multiset(t)
    ensures DistinctKeys(r)
  {
    SameEntriesCounts(t, r);
    DistinctEntries(t);
    NoDupMultiset(t, r);
    forall i, j | 0 <= i < j < |r| ensures Keys(r)[i] != Keys(r)[j] {
      assert r[i] != r[j];
      assert Get(t, r[i].0) == Some(r[i].1) && Get(t, r[j].0) == Some(r[j].1);
    }
  }

  /** Distinct keys make distinct entries. */
  lemma DistinctEntries(t: Tally)
    requires DistinctKeys(t)
    ensures NoDup(t)
  {
    forall i, j | 0 <= i < j < |t| ensures t[i] != t[j] {
      assert Keys(t)[i] != Keys(t)[j];
    }
  }

  // ---------------------------------------------------------------------
  // The loops that build the text

  /** The `for ... output += `- ${stat} = ${count}\n`` loops. */
  method AppendDetails(output: string, entries: seq<Entry>) returns (r: string)
    ensures r == output + Details(entries)
  {
    r := output;
    var i := 0;
    while i < |entries|
      invariant 0 <= i <= |entries|
      invariant r == output + Details(entries[..i])
    {
      PrefixStep(entries, i);
      var (stat, count) := entries[i];
      r := r + ("- " + stat + " = " + NatToString(count) + "\n");
      i := i + 1;
    }
    WholePrefix(entries);
  }

  /** A detail title and its loop. */
  method AppendDetailBlock(output: string, title: string, t: Tally) returns (r: string)
    ensures r == output + DetailBlock(title, t)
  {
    r := output + title;
    r := AppendDetails(r, SortByCountDesc(t));
    AppendAssoc(output, title, Details(SortByCountDesc(t)));
  }

  /** The body of the disc loop of DiskStats.js:264-303. */
  method AppendDiscSection(output: string, disc: string, stats: DiscStats) returns (r: string)
    ensures r == output + DiscSection(disc, stats)
  {
    var topMain4 := GetTopCounts(stats.main4, 2);
    var topMain5 := GetTopCounts(stats.main5, 2);
    var topMain6 := GetTopCounts(stats.main6, 2);
    var topSubstats := GetTopCounts(stats.substats, 4);
    var summary := "**" + disc + "**\n"
      + "\nSummary:"
      + "\nMain 4: " + Pairs(topMain4) + ", "
      + "\nMain 5: " + Pairs(topMain5) + ", "
      + "\nMain 6: " + Pairs(topMain6) + ", "
      + "\nSubstats: " + Pairs(topSubstats)
      + "\n";
    assert summary == Summary(disc, stats);
    ghost var done := summary;
    r := output + summary;
    var b4 := AppendDetailBlock(r, "\nMain 4:\n", stats.main4);
    AppendAssoc(output, done, DetailBlock("\nMain 4:\n", stats.main4));
    done := done + DetailBlock("\nMain 4:\n", stats.main4);
    var b5 := AppendDetailBlock(b4, "\nMain 5:\n", stats.main5);
    AppendAssoc(output, done, DetailBlock("\nMain 5:\n", stats.main5));
    done := done + DetailBlock("\nMain 5:\n", stats.main5);
    var b6 := AppendDetailBlock(b5, "\nMain 6:\n", stats.main6);
    AppendAssoc(output, done, DetailBlock("\nMain 6:\n", stats.main6));
    done := done + DetailBlock("\nMain 6:\n", stats.main6);
    var bs := AppendDetailBlock(b6, "\nSubstats:\n", stats.substats);
    AppendAssoc(output, done, DetailBlock("\nSubstats:\n", stats.substats));
    done := done + DetailBlock("\nSubstats:\n", stats.substats);
    r := bs + "\n";
    AppendAssoc(output, done, "\n");
  }

  /** `formatDiskStats(data)` on the merged records. */
  method FormatDiskStats(records: seq<CharacterRecord>) returns (output: string)
    ensures output == ReportText(AggregateAll(Snapshots(records)))
  {
    var diskStats := AggregateDiscStats(records);
    output := "";
    var discs := SortStrings(Keys(diskStats));
    var i := 0;
    while i < |discs|
      invariant 0 <= i <= |discs|
      invariant output == Sections(diskStats, discs[..i])
    {
      PrefixStep(discs, i);
      var disk := discs[i];
      var stats := GetOr(diskStats, disk, EmptyStats);
      output := AppendDiscSection(output, disk, stats);
      i := i + 1;
    }
    WholePrefix(discs);
  }
}
