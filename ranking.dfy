/** `getTopCounts` (DiskStats.js:244-261) and the sort it and the detail
    sections use: `Object.entries(t).sort((a, b) => b[1] - a[1])`. The
    comparator is negative, zero or positive exactly when the count of `a`
    is larger, equal or smaller, so the stable `Array.prototype.sort` puts
    larger counts first and keeps entries with equal counts in
    `Object.entries` order. */
module Ranking {
  import opened Wrappers
  import opened Seqs
  import opened JsObject

  type Entry = (string, nat)

  /** Non-increasing counts. */
  predicate SortedDesc(s: seq<Entry>) {
    forall i, j :: 0 <= i < j < |s| ==> s[i].1 >= s[j].1
  }

  /** The entries of s with count c, in order. */
  function WithCount(s: seq<Entry>, c: nat): seq<Entry> {
    if s == [] then [] else (if s[0].1 == c then [s[0]] else []) + WithCount(s[1..], c)
  }

  // ---------------------------------------------------------------------
  // The stable sort by count, larger first

  /** Inserting x into a sorted list after every entry whose count is at
      least x's, which is where a stable sort puts an entry that comes
      after all of them in the input. */
  function InsertDesc(s: seq<Entry>, x: Entry): seq<Entry> {
    if s == [] then [x]
    else if s[0].1 >= x.1 then [s[0]] + InsertDesc(s[1..], x)
    else [x] + s
  }

  /** The entries sorted by count, larger first, stably. */
  function SortByCountDesc(s: seq<Entry>): seq<Entry>
    decreases |s|
  {
    if s == [] then [] else InsertDesc(SortByCountDesc(s[..|s| - 1]), s[|s| - 1])
  }

  /** Every count of InsertDesc(s, x) is one of s or x's count, so a
      common bound holds for them all. */
  lemma {:induction false} InsertDescBound(s: seq<Entry>, x: Entry, b: nat)
    requires forall k :: 0 <= k < |s| ==> s[k].1 <= b
    requires x.1 <= b
    ensures forall k :: 0 <= k < |InsertDesc(s, x)| ==> InsertDesc(s, x)[k].1 <= b
    decreases |s|
  {
    if s != [] && s[0].1 >= x.1 {
      InsertDescBound(s[1..], x, b);
    }
  }

  lemma {:induction false} InsertDescSorted(s: seq<Entry>, x: Entry)
    requires SortedDesc(s)
    ensures SortedDesc(InsertDesc(s, x))
    decreases |s|
  {
    if s != [] && s[0].1 >= x.1 {
      var rest := InsertDesc(s[1..], x);
      InsertDescSorted(s[1..], x);
      InsertDescBound(s[1..], x, s[0].1);
      assert forall k :: 1 <= k < |[s[0]] + rest| ==> ([s[0]] + rest)[k] == rest[k - 1];
    }
  }

  lemma {:induction false} InsertDescPermutes(s: seq<Entry>, x: Entry)
    ensures multiset(InsertDesc(s, x)) == multiset(s) + multiset{x}
    ensures |InsertDesc(s, x)| == |s| + 1
    decreases |s|
  {
    if s != [] {
      assert s == [s[0]] + s[1..];
      if s[0].1 >= x.1 {
        InsertDescPermutes(s[1..], x);
        assert multiset([s[0]] + InsertDesc(s[1..], x)) == multiset{s[0]} + multiset(InsertDesc(s[1..], x));
      } else {
        assert multiset([x] + s) == multiset{x} + multiset(s);
      }
    }
  }

  /** SortByCountDesc sorts: counts never increase, and the result holds
      exactly the input's entries. */
  lemma {:induction false} SortByCountDescSorted(s: seq<Entry>)
    ensures SortedDesc(SortByCountDesc(s))
    ensures multiset(SortByCountDesc(s)) == multiset(s)
    ensures |SortByCountDesc(s)| == |s|
    decreases |s|
  {
    if s != [] {
      SortByCountDescSorted(s[..|s| - 1]);
      InsertDescSorted(SortByCountDesc(s[..|s| - 1]), s[|s| - 1]);
      InsertDescPermutes(SortByCountDesc(s[..|s| - 1]), s[|s| - 1]);
      Snoc(s);
      assert multiset(s) == multiset(s[..|s| - 1]) + multiset{s[|s| - 1]} by {
        assert s == s[..|s| - 1] + [s[|s| - 1]];
      }
    }
  }

  lemma {:induction false} WithCountAppend(a: seq<Entry>, b: seq<Entry>, c: nat)
    ensures WithCount(a + b, c) == WithCount(a, c) + WithCount(b, c)
    decreases |a|
  {
    if a != [] {
      assert (a + b)[1..] == a[1..] + b;
      WithCountAppend(a[1..], b, c);
    } else {
      assert a + b == b;
    }
  }

  /** No entry has count c when all counts are below it. */
  lemma {:induction false} WithCountBelow(s: seq<Entry>, c: nat)
    requires forall k :: 0 <= k < |s| ==> s[k].1 < c
    ensures WithCount(s, c) == []
    decreases |s|
  {
    if s != [] {
      WithCountBelow(s[1..], c);
    }
  }

  lemma {:induction false} InsertDescStable(s: seq<Entry>, x: Entry, c: nat)
    requires SortedDesc(s)
    ensures WithCount(InsertDesc(s, x), c) == WithCount(s, c) + (if x.1 == c then [x] else [])
    decreases |s|
  {
    if s == [] {
    } else if s[0].1 >= x.1 {
      InsertDescStable(s[1..], x, c);
      var rest := InsertDesc(s[1..], x);
      ConsParts(s[0], rest);
      AppendAssoc(if s[0].1 == c then [s[0]] else [], WithCount(s[1..], c), if x.1 == c then [x] else []);
    } else {
      ConsParts(x, s);
      if x.1 == c {
        WithCountBelow(s, c);
      }
    }
  }

  /** The sort is stable: the entries with any one count keep their input
      order. */
  lemma {:induction false} SortByCountDescStable(s: seq<Entry>, c: nat)
    ensures WithCount(SortByCountDesc(s), c) == WithCount(s, c)
    decreases |s|
  {
    if s == [] {
    } else {
      var s', y := s[..|s| - 1], s[|s| - 1];
      SortByCountDescStable(s', c);
      SortByCountDescSorted(s');
      InsertDescStable(SortByCountDesc(s'), y, c);
      Snoc(s);
      WithCountAppend(s', [y], c);
    }
  }

  // ---------------------------------------------------------------------
  // The top N with ties

  /** The number of consecutive entries from position `from` on with count c. */
  function TieRun(s: seq<Entry>, from: nat, c: nat): (m: nat)
    requires from <= |s|
    ensures from + m <= |s|
    ensures forall k :: from <= k < from + m ==> s[k].1 == c
    ensures from + m < |s| ==> s[from + m].1 != c
    decreases |s| - from
  {
    if from == |s| || s[from].1 != c then 0 else 1 + TieRun(s, from + 1, c)
  }

  /** A run of ties that ends at the end or at another count is the run. */
  lemma {:induction false} TieRunIs(s: seq<Entry>, from: nat, c: nat, m: nat)
    requires from + m <= |s|
    requires forall k :: from <= k < from + m ==> s[k].1 == c
    requires from + m == |s| || s[from + m].1 != c
    ensures TieRun(s, from, c) == m
    decreases m
  {
    if m > 0 {
      TieRunIs(s, from + 1, c, m - 1);
    }
  }

  /** What `getTopCounts` returns for the sorted entries s: everything when
      there are at most n, nothing when n is 0, otherwise the first n and
      the entries right after them that tie with the n-th. */
  function TopWithTies(s: seq<Entry>, n: nat): (top: seq<Entry>)
    ensures top <= s
    ensures |s| <= n ==> top == s
    ensures n == 0 ==> top == []
    ensures 0 < n < |s| ==>
      && n <= |top|
      && (forall k :: n <= k < |top| ==> s[k].1 == s[n - 1].1)
      && (|top| < |s| ==> s[|top|].1 != s[n - 1].1)
  {
    if |s| <= n then s
    else if n == 0 then []
    else s[..n + TieRun(s, n, s[n - 1].1)]
  }

  /** On sorted entries the selection is a threshold: an entry is selected
      exactly when its count is at least the n-th's. */
  lemma TopWithTiesThreshold(s: seq<Entry>, n: nat, k: nat)
    requires SortedDesc(s) && 0 < n < |s| && k < |s|
    ensures k < |TopWithTies(s, n)| <==> s[k].1 >= s[n - 1].1
  {
    var top := TopWithTies(s, n);
    if k < |top| {
      if k >= n {
        assert s[k].1 == s[n - 1].1;
      }
    } else {
      assert s[|top|].1 < s[n - 1].1;
      assert s[k].1 <= s[|top|].1;
    }
  }

  /** `getTopCounts(statsDict, topN)`. */
  method GetTopCounts(dict: Entries<nat>, topN: nat) returns (topCounts: seq<Entry>)
    ensures topCounts == TopWithTies(SortByCountDesc(dict), topN)
  {
    var sortedItems := SortByCountDesc(dict);
    topCounts := [];
    var currentCount: Option<nat> := None;
    var i := 0;
    while i < |sortedItems|
      invariant 0 <= i <= |sortedItems|
      invariant topCounts == sortedItems[..i]
      invariant i == 0 ==> currentCount == None
      invariant 0 < i <= topN ==> currentCount == Some(sortedItems[i - 1].1)
      invariant topN < i ==> 0 < topN && currentCount == Some(sortedItems[topN - 1].1)
      invariant topN < i ==> forall k :: topN <= k < i ==> sortedItems[k].1 == sortedItems[topN - 1].1
    {
      var (stat, count) := sortedItems[i];
      if |topCounts| < topN {
        topCounts := topCounts + [(stat, count)];
        currentCount := Some(count);
      } else if currentCount == Some(count) {
        topCounts := topCounts + [(stat, count)];
      } else {
        if 0 < topN {
          TieRunIs(sortedItems, topN, sortedItems[topN - 1].1, i - topN);
        }
        break;
      }
      i := i + 1;
    }
    if i == |sortedItems| && topN < i {
      TieRunIs(sortedItems, topN, sortedItems[topN - 1].1, i - topN);
    }
  }
}
