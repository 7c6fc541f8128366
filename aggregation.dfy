/** The first half of `formatDiskStats` (DiskStats.js:196-238): for every
    disc, four frequency tables counting the main stats of slots 4, 5 and 6
    and the sub-stats recommended by the characters that use the disc. */
module Aggregation {
  import opened Wrappers
  import opened Seqs
  import opened Text
  import opened JsObject
  import opened Records

  /** A frequency table: stat name to count, in insertion order. */
  type Tally = Entries<nat>

  /** `t[s] || 0`. Stored counts are never 0, so `|| 0` only replaces
      undefined. */
  function CountIn(t: Tally, s: string): nat {
    GetOr<nat>(t, s, 0)
  }

  /** `t[s] = (t[s] || 0) + 1`. */
  function Increment(t: Tally, s: string): Tally {
    Put<nat>(t, s, CountIn(t, s) + 1)
  }

  /** The table after counting every element of xs, in order. */
  function TallyAll(t: Tally, xs: seq<string>): Tally
    decreases |xs|
  {
    if xs == [] then t else Increment(TallyAll(t, xs[..|xs| - 1]), xs[|xs| - 1])
  }

  predicate Positive(t: Tally) {
    forall i :: 0 <= i < |t| ==> t[i].1 >= 1
  }

  /** A table is well formed: distinct keys, positive counts. */
  predicate ValidTally(t: Tally) {
    DistinctKeys(t) && Positive(t)
  }

  lemma PutPositive(t: Tally, s: string, n: nat)
    requires Positive(t) && n >= 1
    ensures Positive(Put(t, s, n))
  {
    PutEntries<nat>(t, s, n);
  }

  /** Counting keeps a table well formed. */
  lemma {:induction false} TallyAllValid(t: Tally, xs: seq<string>)
    requires ValidTally(t)
    ensures ValidTally(TallyAll(t, xs))
    decreases |xs|
  {
    if xs != [] {
      var init := TallyAll(t, xs[..|xs| - 1]);
      TallyAllValid(t, xs[..|xs| - 1]);
      IncrementValid(init, xs[|xs| - 1]);
      assert TallyAll(t, xs) == Increment(init, xs[|xs| - 1]);
    }
  }

  lemma IncrementValid(t: Tally, s: string)
    requires ValidTally(t)
    ensures ValidTally(Increment(t, s))
  {
    var n: nat := CountIn(t, s) + 1;
    PutDistinct<nat>(t, s, n);
    PutPositive(t, s, n);
  }

  /** The count of s goes up by the number of times xs holds s. */
  lemma {:induction false} TallyAllCount(t: Tally, xs: seq<string>, s: string)
    ensures CountIn(TallyAll(t, xs), s) == CountIn(t, s) + Count(xs, s)
    decreases |xs|
  {
    if xs != [] {
      var xs', y := xs[..|xs| - 1], xs[|xs| - 1];
      TallyAllCount(t, xs', s);
      var prev := TallyAll(t, xs');
      var n: nat := CountIn(prev, y) + 1;
      assert TallyAll(t, xs) == Put(prev, y, n);
      assert Count(xs, s) == Count(xs', s) + (if y == s then 1 else 0);
      if y == s {
        PutGet<nat>(prev, y, n);
      } else {
        PutOther<nat>(prev, y, n, s);
      }
      assert CountIn(TallyAll(t, xs), s) == CountIn(prev, s) + (if y == s then 1 else 0);
    } else {
      assert TallyAll(t, xs) == t;
      assert Count(xs, s) == 0;
    }
  }

  lemma IncrementKeys(t: Tally, s: string)
    ensures Keys(Increment(t, s)) == if s in Keys(t) then Keys(t) else Keys(t) + [s]
  {
    PutKeys<nat>(t, s, CountIn(t, s) + 1);
  }

  /** New keys are appended in first-seen order. */
  lemma {:induction false} TallyAllKeys(t: Tally, xs: seq<string>)
    requires DistinctKeys(t)
    ensures Keys(TallyAll(t, xs)) == Dedup(Keys(t) + xs)
    decreases |xs|
  {
    if xs == [] {
      assert Keys(t) + xs == Keys(t);
      DedupNoDup(Keys(t));
    } else {
      var xs', y := xs[..|xs| - 1], xs[|xs| - 1];
      var prev := TallyAll(t, xs');
      TallyAllKeys(t, xs');
      assert TallyAll(t, xs) == Increment(prev, y);
      IncrementKeys(prev, y);
      AppendSnoc(Keys(t), xs);
      DedupSnoc(Keys(t) + xs', y);
    }
  }

  /** The four tables of a disc (the object created at DiskStats.js:211-216). */
  datatype DiscStats = DiscStats(main4: Tally, main5: Tally, main6: Tally, substats: Tally)

  const EmptyStats: DiscStats := DiscStats([], [], [], [])

  datatype Category = Main4 | Main5 | Main6 | Sub

  function Table(st: DiscStats, cat: Category): Tally {
    match cat
    case Main4 => st.main4
    case Main5 => st.main5
    case Main6 => st.main6
    case Sub => st.substats
  }

  predicate ValidStats(st: DiscStats) {
    ValidTally(st.main4) && ValidTally(st.main5) && ValidTally(st.main6) && ValidTally(st.substats)
  }

  /** `.filter(Boolean)` on strings: the non-empty ones. */
  function NonEmpty(xs: seq<string>): (r: seq<string>)
    ensures forall k :: 0 <= k < |r| ==> r[k] != ""
    ensures forall x :: x in r <==> x in xs && x != ""
    decreases |xs|
  {
    if xs == [] then []
    else
      Snoc(xs);
      NonEmpty(xs[..|xs| - 1]) + (if xs[|xs| - 1] != "" then [xs[|xs| - 1]] else [])
  }

  /** `.filter(Boolean)` keeps every non-empty string as often as it
      occurs, and drops every empty one. */
  lemma {:induction false} NonEmptyCount(xs: seq<string>, x: string)
    ensures Count(NonEmpty(xs), x) == if x == "" then 0 else Count(xs, x)
    decreases |xs|
  {
    if xs != [] {
      var xs', y := xs[..|xs| - 1], xs[|xs| - 1];
      NonEmptyCount(xs', x);
      var tail := if y != "" then [y] else [];
      CountAppend(NonEmpty(xs'), tail, x);
      assert Count(tail, x) == if y != "" && y == x then 1 else 0 by {
        if y != "" {
          assert [y][..0] == [];
        }
      }
    }
  }

  /** The trimmed pieces that are not blank (DiskStats.js:231-235). */
  function TrimmedNames(xs: seq<string>): (r: seq<string>)
    ensures forall k :: 0 <= k < |r| ==> r[k] != "" && IsTrimmed(r[k])
    decreases |xs|
  {
    if xs == [] then [] else TrimmedNames(xs[..|xs| - 1]) + (if Trim(xs[|xs| - 1]) != "" then [Trim(xs[|xs| - 1])] else [])
  }

  /** Trimming and skipping blank pieces is trimming every piece and then
      filtering out the empty strings. */
  lemma {:induction false} TrimmedNamesIsTrimFilter(xs: seq<string>)
    ensures TrimmedNames(xs) == NonEmpty(TrimAll(xs))
    decreases |xs|
  {
    if xs != [] {
      var xs', y := xs[..|xs| - 1], xs[|xs| - 1];
      TrimmedNamesIsTrimFilter(xs');
      var ts := TrimAll(xs);
      assert ts[..|ts| - 1] == TrimAll(xs');
      assert ts[|ts| - 1] == Trim(y);
    }
  }

  /** A non-blank name is counted once for every piece that trims to it. */
  lemma TrimmedNamesCount(xs: seq<string>, s: string)
    requires s != ""
    ensures Count(TrimmedNames(xs), s) == Count(TrimAll(xs), s)
  {
    TrimmedNamesIsTrimFilter(xs);
    NonEmptyCount(TrimAll(xs), s);
  }

  /** The sub-stat names a character contributes: its `substats` split on
      ", ", blank pieces dropped, the others trimmed. */
  function SubstatNames(substats: string): seq<string> {
    TrimmedNames(NonEmpty(Split(substats, ", ")))
  }

  /** Dropping empty pieces before trimming changes nothing: an empty piece
      trims to the empty string too. */
  lemma {:induction false} TrimmedNamesNonEmpty(xs: seq<string>)
    ensures TrimmedNames(NonEmpty(xs)) == TrimmedNames(xs)
    decreases |xs|
  {
    if xs != [] {
      var xs', y := xs[..|xs| - 1], xs[|xs| - 1];
      TrimmedNamesNonEmpty(xs');
      Snoc(xs);
      if y != "" {
        assert NonEmpty(xs) == NonEmpty(xs') + [y];
        TrimmedNamesSnoc(NonEmpty(xs'), y);
      } else {
        assert NonEmpty(xs) == NonEmpty(xs');
        TrimEmpty();
      }
    }
  }

  /** The names a character has counted in each category. */
  datatype Names = Names(main4: seq<string>, main5: seq<string>, main6: seq<string>, sub: seq<string>)

  function NamesOf(b: Build): Names {
    Names(b.main4, b.main5, b.main6, SubstatNames(b.substats))
  }

  function Pick(n: Names, cat: Category): seq<string> {
    match cat
    case Main4 => n.main4
    case Main5 => n.main5
    case Main6 => n.main6
    case Sub => n.sub
  }

  /** The names a category counts for a character. */
  function Listed(b: Build, cat: Category): seq<string> {
    Pick(NamesOf(b), cat)
  }

  /** The tables of one disc after counting a character's names. */
  function Counted(st: DiscStats, n: Names): DiscStats {
    DiscStats(TallyAll(st.main4, n.main4), TallyAll(st.main5, n.main5),
              TallyAll(st.main6, n.main6), TallyAll(st.substats, n.sub))
  }

  /** One pass of the body of the disc loop (DiskStats.js:210-236): the
      disc's tables, created empty if missing, count the character's
      names. */
  function AddDisc(ds: Entries<DiscStats>, d: string, n: Names): Entries<DiscStats> {
    Put(ds, d, Counted(GetOr(ds, d, EmptyStats), n))
  }

  function AddDiscs(ds: Entries<DiscStats>, disks: seq<string>, n: Names): Entries<DiscStats>
    decreases |disks|
  {
    if disks == [] then ds else AddDisc(AddDiscs(ds, disks[..|disks| - 1], n), disks[|disks| - 1], n)
  }

  /** One pass of the character loop over the `disks` and `stats` of a
      character: a character without stats is skipped before any disc
      entry is made (DiskStats.js:202). */
  function AddUses(ds: Entries<DiscStats>, disks: seq<string>, stats: Option<Build>): Entries<DiscStats> {
    match stats
    case None => ds
    case Some(b) => AddDiscs(ds, disks, NamesOf(b))
  }

  /** `diskStats` after the character loop. */
  function AggregateAll(cs: seq<Character>): Entries<DiscStats>
    decreases |cs|
  {
    if cs == [] then [] else AddUses(AggregateAll(cs[..|cs| - 1]), cs[|cs| - 1].disks, cs[|cs| - 1].stats)
  }

  // ---------------------------------------------------------------------
  // Which discs get an entry

  /** The discs a character contributes to: none without stats. */
  function UsedDiscs(c: Character): seq<string> {
    if c.stats.None? then [] else c.disks
  }

  lemma AddDiscKeys(ds: Entries<DiscStats>, d: string, n: Names)
    ensures Keys(AddDisc(ds, d, n)) == if d in Keys(ds) then Keys(ds) else Keys(ds) + [d]
  {
    PutKeys<DiscStats>(ds, d, Counted(GetOr(ds, d, EmptyStats), n));
  }

  lemma {:induction false} AddDiscsKeys(ds: Entries<DiscStats>, disks: seq<string>, n: Names)
    requires DistinctKeys(ds)
    ensures Keys(AddDiscs(ds, disks, n)) == Dedup(Keys(ds) + disks)
    decreases |disks|
  {
    if disks == [] {
      assert Keys(ds) + disks == Keys(ds);
      DedupNoDup(Keys(ds));
    } else {
      var ds', y := disks[..|disks| - 1], disks[|disks| - 1];
      var prev := AddDiscs(ds, ds', n);
      AddDiscsKeys(ds, ds', n);
      assert AddDiscs(ds, disks, n) == AddDisc(prev, y, n);
      AddDiscKeys(prev, y, n);
      AppendSnoc(Keys(ds), disks);
      DedupSnoc(Keys(ds) + ds', y);
    }
  }

  /** The discs of `diskStats` are those used by characters with stats, each
      once, in first-use order; a disc used only by characters without
      stats has no entry. */
  lemma {:induction false} AggregateKeys(cs: seq<Character>)
    ensures Keys(AggregateAll(cs)) == Dedup(FlatMap(UsedDiscs, cs))
    ensures DistinctKeys(AggregateAll(cs))
    decreases |cs|
  {
    if cs != [] {
      var cs', c := cs[..|cs| - 1], cs[|cs| - 1];
      AggregateKeys(cs');
      var prev := AggregateAll(cs');
      var f := FlatMap(UsedDiscs, cs');
      assert FlatMap(UsedDiscs, cs) == f + UsedDiscs(c);
      if c.stats.Some? {
        AddDiscsKeys(prev, c.disks, NamesOf(c.stats.value));
        DedupNoDup(Dedup(f));
        DedupCongruent(Dedup(f), f, c.disks);
      } else {
        assert f + [] == f;
      }
    }
  }

  // ---------------------------------------------------------------------
  // The counts

  /** What one character adds to the count of s in category cat of disc d:
      once per listing of d in its discs, times the number of times its
      build lists s. */
  function Contribution(c: Character, d: string, cat: Category, s: string): nat {
    match c.stats
    case None => 0
    case Some(b) =>
      ProductNat(Count(c.disks, d), Count(Listed(b, cat), s));
      Count(c.disks, d) * Count(Listed(b, cat), s)
  }

  lemma ProductNat(a: nat, b: nat)
    ensures a * b >= 0
  {
  }

  lemma MulSucc(a: nat, m: nat)
    ensures (a + 1) * m == a * m + m
  {
  }

  function Total(cs: seq<Character>, d: string, cat: Category, s: string): nat
    decreases |cs|
  {
    if cs == [] then 0 else Total(cs[..|cs| - 1], d, cat, s) + Contribution(cs[|cs| - 1], d, cat, s)
  }

  /** The count of s in category cat of disc d as read from `diskStats`. */
  function CountOf(ds: Entries<DiscStats>, d: string, cat: Category, s: string): nat {
    CountIn(Table(GetOr(ds, d, EmptyStats), cat), s)
  }

  lemma CountedCount(st: DiscStats, n: Names, cat: Category, s: string)
    ensures CountIn(Table(Counted(st, n), cat), s) == CountIn(Table(st, cat), s) + Count(Pick(n, cat), s)
  {
    TallyAllCount(Table(st, cat), Pick(n, cat), s);
  }

  lemma AddDiscCount(ds: Entries<DiscStats>, y: string, n: Names, d: string, cat: Category, s: string)
    ensures CountOf(AddDisc(ds, y, n), d, cat, s)
      == CountOf(ds, d, cat, s) + (if y == d then Count(Pick(n, cat), s) else 0)
  {
    var st := Counted(GetOr(ds, y, EmptyStats), n);
    if y == d {
      PutGet<DiscStats>(ds, y, st);
      CountedCount(GetOr(ds, y, EmptyStats), n, cat, s);
    } else {
      PutOther<DiscStats>(ds, y, st, d);
    }
  }

  lemma {:induction false} AddDiscsCount(ds: Entries<DiscStats>, disks: seq<string>, n: Names, d: string, cat: Category, s: string)
    ensures CountOf(AddDiscs(ds, disks, n), d, cat, s)
      == CountOf(ds, d, cat, s) + Count(disks, d) * Count(Pick(n, cat), s)
    decreases |disks|
  {
    if disks != [] {
      var ds', y := disks[..|disks| - 1], disks[|disks| - 1];
      AddDiscsCount(ds, ds', n, d, cat, s);
      AddDiscCount(AddDiscs(ds, ds', n), y, n, d, cat, s);
      assert Count(disks, d) == Count(ds', d) + (if y == d then 1 else 0);
      MulSucc(Count(ds', d), Count(Pick(n, cat), s));
    }
  }

  /** Every count in `diskStats` is the sum, over the characters with
      stats, of how often they list the disc times how often they list the
      stat. */
  lemma {:induction false} AggregateCounts(cs: seq<Character>, d: string, cat: Category, s: string)
    ensures CountOf(AggregateAll(cs), d, cat, s) == Total(cs, d, cat, s)
    decreases |cs|
  {
    if cs != [] {
      var cs', c := cs[..|cs| - 1], cs[|cs| - 1];
      AggregateCounts(cs', d, cat, s);
      if c.stats.Some? {
        AddDiscsCount(AggregateAll(cs'), c.disks, NamesOf(c.stats.value), d, cat, s);
      }
    }
  }

  /** The sum over the characters with stats that list d, for disc lists
      without duplicates. */
  function TotalUsing(cs: seq<Character>, d: string, cat: Category, s: string): nat
    decreases |cs|
  {
    if cs == [] then 0
    else
      var c := cs[|cs| - 1];
      TotalUsing(cs[..|cs| - 1], d, cat, s)
      + (if c.stats.Some? && d in c.disks then Count(Listed(c.stats.value, cat), s) else 0)
  }

  /** When no disc list repeats a disc, a count is the number of times s
      is listed, summed over the characters with stats whose discs include
      d. */
  lemma {:induction false} TotalWithoutRepeats(cs: seq<Character>, d: string, cat: Category, s: string)
    requires forall i :: 0 <= i < |cs| ==> NoDup(cs[i].disks)
    ensures Total(cs, d, cat, s) == TotalUsing(cs, d, cat, s)
    decreases |cs|
  {
    if cs != [] {
      var cs', c := cs[..|cs| - 1], cs[|cs| - 1];
      assert forall i :: 0 <= i < |cs'| ==> cs'[i] == cs[i];
      TotalWithoutRepeats(cs', d, cat, s);
      CountNoDup(c.disks, d);
    }
  }

  // ---------------------------------------------------------------------
  // Well-formedness and what the detail sections list

  predicate ValidAggregate(ds: Entries<DiscStats>) {
    DistinctKeys(ds) && forall i :: 0 <= i < |ds| ==> ValidStats(ds[i].1)
  }

  lemma PutValid(ds: Entries<DiscStats>, d: string, st: DiscStats)
    requires ValidAggregate(ds) && ValidStats(st)
    ensures ValidAggregate(Put(ds, d, st))
  {
    PutDistinct<DiscStats>(ds, d, st);
    PutEntries<DiscStats>(ds, d, st);
  }

  lemma GetValid(ds: Entries<DiscStats>, d: string)
    requires ValidAggregate(ds)
    ensures ValidStats(GetOr(ds, d, EmptyStats))
  {
    GetSpec<DiscStats>(ds, d);
  }

  lemma AddDiscValid(ds: Entries<DiscStats>, d: string, n: Names)
    requires ValidAggregate(ds)
    ensures ValidAggregate(AddDisc(ds, d, n))
  {
    var cur := GetOr(ds, d, EmptyStats);
    GetValid(ds, d);
    TallyAllValid(cur.main4, n.main4);
    TallyAllValid(cur.main5, n.main5);
    TallyAllValid(cur.main6, n.main6);
    TallyAllValid(cur.substats, n.sub);
    PutValid(ds, d, Counted(cur, n));
  }

  lemma {:induction false} AddDiscsValid(ds: Entries<DiscStats>, disks: seq<string>, n: Names)
    requires ValidAggregate(ds)
    ensures ValidAggregate(AddDiscs(ds, disks, n))
    decreases |disks|
  {
    if disks != [] {
      AddDiscsValid(ds, disks[..|disks| - 1], n);
      AddDiscValid(AddDiscs(ds, disks[..|disks| - 1], n), disks[|disks| - 1], n);
    }
  }

  lemma {:induction false} AggregateValid(cs: seq<Character>)
    ensures ValidAggregate(AggregateAll(cs))
    decreases |cs|
  {
    if cs != [] {
      AggregateValid(cs[..|cs| - 1]);
      if cs[|cs| - 1].stats.Some? {
        AddDiscsValid(AggregateAll(cs[..|cs| - 1]), cs[|cs| - 1].disks, NamesOf(cs[|cs| - 1].stats.value));
      }
    }
  }

  /** A stat appears in a disc's table exactly when some character
      contributed to it, and its count is the total contribution. */
  lemma TableListsContributors(cs: seq<Character>, d: string, cat: Category, s: string)
    ensures var t := Table(GetOr(AggregateAll(cs), d, EmptyStats), cat);
      && ValidTally(t)
      && (s in Keys(t) <==> Total(cs, d, cat, s) > 0)
      && (s in Keys(t) ==> Get(t, s) == Some(Total(cs, d, cat, s)))
  {
    AggregateValid(cs);
    GetValid(AggregateAll(cs), d);
    AggregateCounts(cs, d, cat, s);
    var t := Table(GetOr(AggregateAll(cs), d, EmptyStats), cat);
    GetSpec<nat>(t, s);
    if Get(t, s).Some? {
      var j :| 0 <= j < |t| && t[j] == (s, Get(t, s).value);
    }
  }

  // ---------------------------------------------------------------------
  // The loops

  /** `for (const stat of xs) t[stat] = (t[stat] || 0) + 1`. */
  method TallyInto(t: Tally, xs: seq<string>) returns (r: Tally)
    ensures r == TallyAll(t, xs)
  {
    r := t;
    var i := 0;
    while i < |xs|
      invariant 0 <= i <= |xs|
      invariant r == TallyAll(t, xs[..i])
    {
      assert xs[..i + 1][..i] == xs[..i];
      r := Increment(r, xs[i]);
      i := i + 1;
    }
    assert xs[..|xs|] == xs;
  }

  /** The sub-stat loop of DiskStats.js:231-236 over the pieces of
      line 207: each piece is trimmed and a blank one skipped. */
  method TallySubstats(t: Tally, pieces: seq<string>) returns (r: Tally)
    ensures r == TallyAll(t, TrimmedNames(pieces))
  {
    r := t;
    var i := 0;
    while i < |pieces|
      invariant 0 <= i <= |pieces|
      invariant r == TallyAll(t, TrimmedNames(pieces[..i]))
    {
      SubstatStep(t, pieces, i);
      var trimmed := Trim(pieces[i]);
      if trimmed != "" {
        r := Increment(r, trimmed);
      }
      assert r == TallyAll(t, TrimmedNames(pieces[..i + 1]));
      i := i + 1;
    }
    WholePrefix(pieces);
  }

  lemma TrimmedNamesSnoc(xs: seq<string>, y: string)
    ensures Trim(y) != "" ==> TrimmedNames(xs + [y]) == TrimmedNames(xs) + [Trim(y)]
    ensures Trim(y) == "" ==> TrimmedNames(xs + [y]) == TrimmedNames(xs)
  {
    SnocParts(xs, y);
    assert TrimmedNames(xs) + [] == TrimmedNames(xs);
  }

  lemma TrimmedNamesStep(xs: seq<string>, i: nat)
    requires i < |xs|
    ensures TrimmedNames(xs[..i + 1])
      == TrimmedNames(xs[..i]) + (if Trim(xs[i]) != "" then [Trim(xs[i])] else [])
  {
    PrefixStep(xs, i);
  }

  /** One pass of the sub-stat loop extends the counted prefix by one piece. */
  lemma SubstatStep(t: Tally, pieces: seq<string>, i: nat)
    requires i < |pieces|
    ensures Trim(pieces[i]) != "" ==>
      TallyAll(t, TrimmedNames(pieces[..i + 1])) == Increment(TallyAll(t, TrimmedNames(pieces[..i])), Trim(pieces[i]))
    ensures Trim(pieces[i]) == "" ==>
      TallyAll(t, TrimmedNames(pieces[..i + 1])) == TallyAll(t, TrimmedNames(pieces[..i]))
  {
    var names := TrimmedNames(pieces[..i]);
    TrimmedNamesStep(pieces, i);
    TallyAllSnoc(t, names, Trim(pieces[i]));
    AppendEmpty(names);
  }

  lemma TallyAllSnoc(t: Tally, xs: seq<string>, y: string)
    ensures TallyAll(t, xs + [y]) == Increment(TallyAll(t, xs), y)
  {
    SnocParts(xs, y);
  }

  /** The body of the disc loop: create the disc's tables if missing, then
      count into each. pieces are the character's sub-stat pieces. */
  method CountDisc(ds: Entries<DiscStats>, d: string, b: Build, pieces: seq<string>) returns (r: Entries<DiscStats>)
    requires pieces == NonEmpty(Split(b.substats, ", "))
    ensures r == AddDisc(ds, d, NamesOf(b))
  {
    r := ds;
    if Get(r, d).None? {
      r := Put<DiscStats>(r, d, EmptyStats);
      PutGet<DiscStats>(ds, d, EmptyStats);
    }
    var cur := Get(r, d).value;
    assert cur == GetOr(ds, d, EmptyStats);
    var m4 := TallyInto(cur.main4, b.main4);
    var m5 := TallyInto(cur.main5, b.main5);
    var m6 := TallyInto(cur.main6, b.main6);
    var sub := TallySubstats(cur.substats, pieces);
    assert DiscStats(m4, m5, m6, sub) == Counted(cur, NamesOf(b));
    PutPut<DiscStats>(ds, d, EmptyStats, DiscStats(m4, m5, m6, sub));
    r := Put<DiscStats>(r, d, DiscStats(m4, m5, m6, sub));
  }

  /** One pass of the character loop: a character without stats is
      skipped, otherwise every disc it uses counts its names. */
  method CountCharacter(ds: Entries<DiscStats>, disks: seq<string>, stats: Option<Build>) returns (r: Entries<DiscStats>)
    ensures r == AddUses(ds, disks, stats)
  {
    r := ds;
    if stats.Some? {
      var b := stats.value;
      var pieces := NonEmpty(Split(b.substats, ", "));
      var j := 0;
      while j < |disks|
        invariant 0 <= j <= |disks|
        invariant r == AddDiscs(ds, disks[..j], NamesOf(b))
      {
        PrefixStep(disks, j);
        r := CountDisc(r, disks[j], b, pieces);
        j := j + 1;
      }
      WholePrefix(disks);
    }
  }

  /** The character loop of DiskStats.js:198-238 over the merged records. */
  method AggregateDiscStats(records: seq<CharacterRecord>) returns (ds: Entries<DiscStats>)
    ensures ds == AggregateAll(Snapshots(records))
  {
    ghost var cs := Snapshots(records);
    ds := [];
    var i := 0;
    while i < |records|
      invariant 0 <= i <= |records|
      invariant ds == AggregateAll(cs[..i])
    {
      PrefixStep(cs, i);
      var character := records[i];
      ds := CountCharacter(ds, character.disks, character.stats);
      i := i + 1;
    }
    WholePrefix(cs);
  }
}
