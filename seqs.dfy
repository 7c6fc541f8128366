/** Generic sequence operations shared by every stage: de-duplication in
    first-seen order (what `[...new Set(xs)]` yields), counting, and
    `flatMap`. */
module Seqs {

  /** No element occurs twice. */
  predicate NoDup<T(==)>(xs: seq<T>) {
    forall i, j :: 0 <= i < j < |xs| ==> xs[i] != xs[j]
  }

  /** The elements of xs, each once, in the order in which a JavaScript Set
      first sees them: the list is grown from the front, appending every
      element not met before. */
  function Dedup<T(==)>(xs: seq<T>): (r: seq<T>)
    ensures NoDup(r)
    ensures forall i :: 0 <= i < |r| ==> r[i] in xs
    ensures forall i :: 0 <= i < |xs| ==> xs[i] in r
    ensures |r| <= |xs|
  {
    if xs == [] then []
    else
      var init := Dedup(xs[..|xs| - 1]);
      if xs[|xs| - 1] in xs[..|xs| - 1] then init else init + [xs[|xs| - 1]]
  }

  /** Membership is what Dedup keeps. */
  lemma DedupMembers<T>(xs: seq<T>, x: T)
    ensures x in Dedup(xs) <==> x in xs
  {
    if x in xs {
      var i :| 0 <= i < |xs| && xs[i] == x;
    }
  }

  /** A list without duplicates is its own Dedup, so Dedup is idempotent. */
  lemma {:induction false} DedupNoDup<T>(xs: seq<T>)
    requires NoDup(xs)
    ensures Dedup(xs) == xs
    decreases |xs|
  {
    if xs != [] {
      var xs', y := xs[..|xs| - 1], xs[|xs| - 1];
      assert NoDup(xs');
      DedupNoDup(xs');
      assert y !in xs';
      assert xs' + [y] == xs;
    }
  }

  lemma Snoc<T>(xs: seq<T>)
    requires xs != []
    ensures xs == xs[..|xs| - 1] + [xs[|xs| - 1]]
  {
  }

  lemma PrefixStep<T>(xs: seq<T>, i: nat)
    requires i < |xs|
    ensures xs[..i + 1] == xs[..i] + [xs[i]] && xs[..i + 1][..i] == xs[..i]
  {
  }

  lemma WholePrefix<T>(xs: seq<T>)
    ensures xs[..|xs|] == xs
  {
  }

  lemma AppendSnoc<T>(a: seq<T>, b: seq<T>)
    requires b != []
    ensures a + b == (a + b[..|b| - 1]) + [b[|b| - 1]]
  {
    assert b == b[..|b| - 1] + [b[|b| - 1]];
  }

  /** Appending one element adds it exactly when it is new. */
  lemma DedupSnoc<T>(xs: seq<T>, y: T)
    ensures Dedup(xs + [y]) == if y in Dedup(xs) then Dedup(xs) else Dedup(xs) + [y]
  {
    SnocParts(xs, y);
    DedupMembers(xs, y);
  }

  /** xs without any occurrence of x. */
  function Without<T(==)>(xs: seq<T>, x: T): (r: seq<T>)
    ensures forall i :: 0 <= i < |r| ==> r[i] in xs && r[i] != x
    ensures forall i :: 0 <= i < |xs| && xs[i] != x ==> xs[i] in r
    ensures |r| <= |xs|
  {
    if xs == [] then [] else (if xs[0] == x then [] else [xs[0]]) + Without(xs[1..], x)
  }

  /** The textbook reading of "remove duplicates, keep the first occurrence":
      keep the head, delete its later copies, carry on with the rest. */
  function FirstOccurrences<T(==)>(xs: seq<T>): seq<T>
    decreases |xs|
  {
    if xs == [] then [] else [xs[0]] + FirstOccurrences(Without(xs[1..], xs[0]))
  }

  /** Number of occurrences of x in xs. */
  function Count<T(==)>(xs: seq<T>, x: T): nat {
    if xs == [] then 0 else Count(xs[..|xs| - 1], x) + (if xs[|xs| - 1] == x then 1 else 0)
  }

  /** `xs.flatMap(f)`. */
  function FlatMap<T, U>(f: T -> seq<U>, xs: seq<T>): seq<U> {
    if xs == [] then [] else FlatMap(f, xs[..|xs| - 1]) + f(xs[|xs| - 1])
  }

  lemma SnocParts<T>(s: seq<T>, y: T)
    ensures (s + [y])[..|s|] == s && (s + [y])[|s|] == y
  {
  }

  lemma {:induction false} WithoutAppend<T>(a: seq<T>, b: seq<T>, x: T)
    ensures Without(a + b, x) == Without(a, x) + Without(b, x)
  {
    if a == [] {
      assert a + b == b;
    } else {
      assert (a + b)[1..] == a[1..] + b;
      WithoutAppend(a[1..], b, x);
    }
  }

  lemma WithoutSingle<T>(y: T, x: T)
    ensures Without([y], x) == if y == x then [] else [y]
  {
    assert [y][1..] == [];
  }

  lemma ConsParts<T>(x: T, s: seq<T>)
    ensures ([x] + s)[0] == x && ([x] + s)[1..] == s
  {
  }

  lemma AppendEmpty<T>(a: seq<T>)
    ensures a + [] == a
  {
  }

  lemma AppendAssoc<T>(a: seq<T>, b: seq<T>, c: seq<T>)
    ensures a + b + c == a + (b + c)
  {
  }

  /** De-duplicating x :: t keeps x in front and de-duplicates the rest with
      x removed. */
  lemma {:induction false} DedupCons<T>(x: T, t: seq<T>)
    ensures Dedup([x] + t) == [x] + Dedup(Without(t, x))
    decreases |t|
  {
    if t == [] {
      assert [x][..0] == [];
    } else {
      var t', y := t[..|t| - 1], t[|t| - 1];
      Snoc(t);
      AppendSnoc([x], t);
      DedupCons(x, t');
      DedupSnoc([x] + t', y);
      WithoutAppend(t', [y], x);
      var w := Without(t', x);
      var d := Dedup(w);
      assert (y in [x] + d) == (y == x || y in d);
      WithoutSingle(y, x);
      if y == x {
        AppendEmpty(w);
      } else {
        DedupSnoc(w, y);
        AppendAssoc([x], d, [y]);
      }
    }
  }

  /** Dedup agrees with the head-first definition. */
  lemma {:induction false} DedupIsFirstOccurrences<T>(xs: seq<T>)
    ensures Dedup(xs) == FirstOccurrences(xs)
    decreases |xs|
  {
    if xs != [] {
      assert xs == [xs[0]] + xs[1..];
      DedupCons(xs[0], xs[1..]);
      DedupIsFirstOccurrences(Without(xs[1..], xs[0]));
    }
  }

  /** The first-seen order of a prefix is kept: de-duplicating a + b starts
      with the de-duplicated a, followed only by elements of b not in a. */
  lemma {:induction false} DedupPrefix<T>(a: seq<T>, b: seq<T>)
    ensures Dedup(a) <= Dedup(a + b)
    ensures forall x :: x in Dedup(a + b)[|Dedup(a)|..] ==> x in b && x !in a
    decreases |b|
  {
    if b == [] {
      AppendEmpty(a);
    } else {
      var b', y := b[..|b| - 1], b[|b| - 1];
      DedupPrefix(a, b');
      AppendSnoc(a, b);
      DedupSnoc(a + b', y);
      DedupMembers(a + b', y);
      var d := Dedup(a + b');
      var n := |Dedup(a)|;
      Snoc(b);
      if y !in d {
        SnocSuffix(d, y, n);
        forall x | x in d[n..] + [y] ensures x in b && x !in a {
          if x != y {
            assert x in d[n..];
          }
        }
      }
    }
  }

  lemma SnocSuffix<T>(d: seq<T>, y: T, n: nat)
    requires n <= |d|
    ensures d[..n] == (d + [y])[..n] && (d + [y])[n..] == d[n..] + [y]
  {
  }

  /** Appending elements that have all been seen already changes nothing. */
  lemma {:induction false} DedupAbsorb<T>(a: seq<T>, b: seq<T>)
    requires forall x :: x in b ==> x in a
    ensures Dedup(a + b) == Dedup(a)
    decreases |b|
  {
    if b == [] {
      AppendEmpty(a);
    } else {
      var b', y := b[..|b| - 1], b[|b| - 1];
      DedupAbsorb(a, b');
      AppendSnoc(a, b);
      DedupSnoc(a + b', y);
      DedupMembers(a + b', y);
    }
  }

  /** Dedup depends only on the de-duplicated prefix. */
  lemma {:induction false} DedupCongruent<T>(a: seq<T>, b: seq<T>, c: seq<T>)
    requires Dedup(a) == Dedup(b)
    ensures Dedup(a + c) == Dedup(b + c)
    decreases |c|
  {
    if c == [] {
      AppendEmpty(a);
      AppendEmpty(b);
    } else {
      var c', z := c[..|c| - 1], c[|c| - 1];
      DedupCongruent(a, b, c');
      AppendSnoc(a, c);
      AppendSnoc(b, c);
      DedupSnoc(a + c', z);
      DedupSnoc(b + c', z);
    }
  }

  lemma {:induction false} FlatMapAppend<T, U>(f: T -> seq<U>, a: seq<T>, b: seq<T>)
    ensures FlatMap(f, a + b) == FlatMap(f, a) + FlatMap(f, b)
    decreases |b|
  {
    if b == [] {
      AppendEmpty(a);
      AppendEmpty(FlatMap(f, a));
    } else {
      var b', y := b[..|b| - 1], b[|b| - 1];
      FlatMapAppend(f, a, b');
      AppendSnoc(a, b);
      SnocParts(a + b', y);
      AppendAssoc(FlatMap(f, a), FlatMap(f, b'), f(y));
    }
  }

  /** Everything f produces for a member of xs is in FlatMap(f, xs). */
  lemma {:induction false} FlatMapCovers<T, U>(f: T -> seq<U>, xs: seq<T>, i: nat)
    requires i < |xs|
    ensures forall u :: u in f(xs[i]) ==> u in FlatMap(f, xs)
    decreases |xs|
  {
    var xs', y := xs[..|xs| - 1], xs[|xs| - 1];
    if i < |xs| - 1 {
      FlatMapCovers(f, xs', i);
      assert xs'[i] == xs[i];
    }
  }

  /** Every element of FlatMap(f, xs) comes from some member of xs. */
  lemma {:induction false} FlatMapSources<T, U>(f: T -> seq<U>, xs: seq<T>, u: U)
    requires u in FlatMap(f, xs)
    ensures exists i :: 0 <= i < |xs| && u in f(xs[i])
    decreases |xs|
  {
    var xs', y := xs[..|xs| - 1], xs[|xs| - 1];
    if u in FlatMap(f, xs') {
      FlatMapSources(f, xs', u);
      var i :| 0 <= i < |xs'| && u in f(xs'[i]);
      assert xs[i] == xs'[i];
    } else {
      assert u in f(xs[|xs| - 1]);
    }
  }

  /** FlatMap with an earlier de-duplication of its input gives the same
      de-duplicated output: removing a repeated input only removes outputs
      that were already produced. */
  lemma {:induction false} DedupFlatMapDedup<T, U>(f: T -> seq<U>, xs: seq<T>)
    ensures Dedup(FlatMap(f, Dedup(xs))) == Dedup(FlatMap(f, xs))
    decreases |xs|
  {
    if xs != [] {
      var xs', y := xs[..|xs| - 1], xs[|xs| - 1];
      assert xs == xs' + [y];
      DedupFlatMapDedup(f, xs');
      var d := Dedup(xs');
      if y in xs' {
        DedupAbsorbFlatMap(f, xs', y);
      } else {
        assert Dedup(xs) == d + [y];
        SnocParts(d, y);
        assert FlatMap(f, d + [y]) == FlatMap(f, d) + f(y);
        DedupCongruent(FlatMap(f, d), FlatMap(f, xs'), f(y));
      }
    }
  }

  lemma DedupAbsorbFlatMap<T, U>(f: T -> seq<U>, xs': seq<T>, y: T)
    requires y in xs'
    ensures Dedup(FlatMap(f, xs' + [y])) == Dedup(FlatMap(f, xs'))
  {
    SnocParts(xs', y);
    assert FlatMap(f, xs' + [y]) == FlatMap(f, xs') + f(y);
    var i :| 0 <= i < |xs'| && xs'[i] == y;
    FlatMapCovers(f, xs', i);
    DedupAbsorb(FlatMap(f, xs'), f(y));
  }

  lemma {:induction false} CountAppend<T>(a: seq<T>, b: seq<T>, x: T)
    ensures Count(a + b, x) == Count(a, x) + Count(b, x)
    decreases |b|
  {
    if b == [] {
      assert a + b == a;
    } else {
      var b', y := b[..|b| - 1], b[|b| - 1];
      assert b == b' + [y];
      CountAppend(a, b', x);
      assert a + b == (a + b') + [y];
      SnocParts(a + b', y);
    }
  }

  /** x occurs a positive number of times exactly when it is a member. */
  lemma {:induction false} CountPositive<T>(xs: seq<T>, x: T)
    ensures Count(xs, x) > 0 <==> x in xs
    decreases |xs|
  {
    if xs != [] {
      var xs', y := xs[..|xs| - 1], xs[|xs| - 1];
      assert xs == xs' + [y];
      CountPositive(xs', x);
    }
  }

  /** In a list without duplicates a member occurs exactly once. */
  lemma {:induction false} CountNoDup<T>(xs: seq<T>, x: T)
    requires NoDup(xs)
    ensures Count(xs, x) == if x in xs then 1 else 0
    decreases |xs|
  {
    if xs != [] {
      var xs', y := xs[..|xs| - 1], xs[|xs| - 1];
      assert xs == xs' + [y];
      assert NoDup(xs');
      CountNoDup(xs', x);
      assert y !in xs';
    }
  }

  /** Without duplicates, every element occurs once. */
  lemma {:induction false} NoDupOnce<T>(a: seq<T>, x: T)
    requires NoDup(a)
    ensures multiset(a)[x] <= 1
    decreases |a|
  {
    if a != [] {
      assert a == [a[0]] + a[1..];
      assert NoDup(a[1..]);
      NoDupOnce(a[1..], x);
      assert a[0] !in a[1..];
      assert multiset(a) == multiset{a[0]} + multiset(a[1..]);
    }
  }

  lemma TwoCopies<T>(b: seq<T>, i: nat, j: nat)
    requires i < j < |b| && b[i] == b[j]
    ensures multiset(b)[b[i]] >= 2
  {
    assert b == b[..i] + [b[i]] + b[i + 1..j] + [b[j]] + b[j + 1..];
    assert multiset(b) == multiset(b[..i]) + multiset{b[i]} + multiset(b[i + 1..j]) + multiset{b[j]} + multiset(b[j + 1..]);
  }

  /** Having no duplicates depends only on the multiset. */
  lemma NoDupMultiset<T>(a: seq<T>, b: seq<T>)
    requires NoDup(a) && multiset(a) == multiset(b)
    ensures NoDup(b)
  {
    forall i, j | 0 <= i < j < |b| ensures b[i] != b[j] {
      if b[i] == b[j] {
        TwoCopies(b, i, j);
        NoDupOnce(a, b[i]);
      }
    }
  }
}
