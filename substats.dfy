/** Normalisation of a character's raw sub-stat recommendation
    (DiskStats.js:73-81): remove whitespace, turn comparison operators into
    separators, drop parenthesised notes and brackets, turn the word "or"
    into a comma, split on commas, de-duplicate in first-seen order and join
    with ", ". Each `.replace` of the chain is one function below. */
module Substats {
  import opened Wrappers
  import opened Seqs
  import opened Text

  /** No `)` anywhere after a `(`. */
  predicate NoClosedGroup(s: string) {
    forall i, j :: 0 <= i < j < |s| ==> !(s[i] == '(' && s[j] == ')')
  }

  /** No `o` immediately followed by `r`. */
  predicate NoOr(s: string) {
    forall i :: 0 <= i < |s| - 1 ==> !(s[i] == 'o' && s[i + 1] == 'r')
  }

  predicate NoLineTerminator(s: string) {
    forall k :: 0 <= k < |s| ==> !IsLineTerminator(s[k])
  }

  /** `.replace(/\s+/g, '')`: every whitespace character goes, every other
      character stays. */
  function RemoveSpaces(s: string): (r: string)
    ensures forall k :: 0 <= k < |r| ==> r[k] in s && !IsSpace(r[k])
    ensures forall k :: 0 <= k < |s| && !IsSpace(s[k]) ==> s[k] in r
  {
    if s == [] then [] else (if IsSpace(s[0]) then [] else [s[0]]) + RemoveSpaces(s[1..])
  }

  /** `.replace(/>=|>|=/g, ", ")`. The alternatives are tried in order at
      each position, so `>=` becomes a single separator while `=>` becomes
      two. */
  function ReplaceComparisons(s: string): (r: string)
    ensures '>' !in r && '=' !in r
    ensures forall k :: 0 <= k < |r| ==> r[k] in s || r[k] == ',' || r[k] == ' '
  {
    if s == [] then []
    else if |s| >= 2 && s[0] == '>' && s[1] == '=' then ", " + ReplaceComparisons(s[2..])
    else if s[0] == '>' || s[0] == '=' then ", " + ReplaceComparisons(s[1..])
    else [s[0]] + ReplaceComparisons(s[1..])
  }

  /** Index in t of the `)` that ends a lazy `(.*?)` group whose `(` stands
      just before t: the first `)`, unless a line terminator (which `.` does
      not match without the `s` flag) comes before it. */
  function GroupClose(t: string): (r: Option<nat>)
    ensures r.Some? ==> r.value < |t| && t[r.value] == ')'
    ensures r.Some? ==> forall k :: 0 <= k < r.value ==> t[k] != ')' && !IsLineTerminator(t[k])
    ensures r.None? ==> forall j :: 0 <= j < |t| && t[j] == ')' ==> exists k :: 0 <= k < j && IsLineTerminator(t[k])
    ensures r.None? && NoLineTerminator(t) ==> ')' !in t
  {
    if t == [] then None
    else if t[0] == ')' then Some(0)
    else if IsLineTerminator(t[0]) then None
    else match GroupClose(t[1..])
      case None => None
      case Some(k) => Some(k + 1)
  }

  /** `.replace(/\(.*?\)/g, '')`: scanning left to right, every `(` that has
      a matching `)` later on is removed together with that `)` and
      everything between them; a `(` without one stays. */
  function DropGroups(s: string): (r: string)
    ensures forall k :: 0 <= k < |r| ==> r[k] in s
    ensures NoLineTerminator(s) ==> NoClosedGroup(r)
    decreases |s|
  {
    if s == [] then []
    else if s[0] == '(' && GroupClose(s[1..]).Some? then
      DropGroups(s[GroupClose(s[1..]).value + 2..])
    else
      var rest := DropGroups(s[1..]);
      assert s[0] == '(' && NoLineTerminator(s) ==> ')' !in rest;
      NoClosedGroupCons(s[0], rest);
      [s[0]] + rest
  }

  /** `.replace(/\[|\]/g, '')` */
  function DropBrackets(s: string): (r: string)
    ensures '[' !in r && ']' !in r
    ensures forall k :: 0 <= k < |r| ==> r[k] in s
    ensures NoClosedGroup(s) ==> NoClosedGroup(r)
  {
    if s == [] then []
    else
      var rest := DropBrackets(s[1..]);
      NoClosedGroupCons(s[0], s[1..]);
      NoClosedGroupCons(s[0], rest);
      (if s[0] == '[' || s[0] == ']' then [] else [s[0]]) + rest
  }

  /** `.replace(/or/g, ',')`: non-overlapping occurrences, left to right. */
  function OrToComma(s: string): (r: string)
    ensures NoOr(r)
    ensures forall k :: 0 <= k < |r| ==> r[k] in s || r[k] == ','
    ensures NoClosedGroup(s) ==> NoClosedGroup(r)
    ensures s != [] ==> r != [] && (r[0] == s[0] || r[0] == ',')
  {
    if s == [] then []
    else if |s| >= 2 && s[0] == 'o' && s[1] == 'r' then
      var rest := OrToComma(s[2..]);
      assert NoClosedGroup(s) ==> NoClosedGroup(s[2..]);
      NoClosedGroupCons(',', rest);
      [','] + rest
    else
      var rest := OrToComma(s[1..]);
      NoClosedGroupCons(s[0], s[1..]);
      NoClosedGroupCons(s[0], rest);
      [s[0]] + rest
  }

  /** The whole chain of replacements, before the split. */
  function Rewrite(raw: string): string {
    OrToComma(DropBrackets(DropGroups(ReplaceComparisons(RemoveSpaces(raw)))))
  }

  /** The normalised sub-stat names: the comma-separated pieces of the
      rewritten text, each once, in first-seen order
      (`Array.from(new Set(... .split(',')))`). */
  function Tokens(raw: string): seq<string> {
    Dedup(Split(Rewrite(raw), ","))
  }

  /** The `substats` string of a character's stats (DiskStats.js:73-81). */
  function Normalize(raw: string): string {
    Join(Tokens(raw), ", ")
  }

  // ---------------------------------------------------------------------
  // Facts about single strings

  lemma NoClosedGroupCons(c: char, s: string)
    ensures NoClosedGroup([c] + s) <==> (c == '(' ==> ')' !in s) && NoClosedGroup(s)
  {
    var t := [c] + s;
    if NoClosedGroup(t) {
      forall i, j | 0 <= i < j < |s| ensures !(s[i] == '(' && s[j] == ')') {
        assert t[i + 1] == s[i] && t[j + 1] == s[j];
      }
      forall j | 0 <= j < |s| ensures !(c == '(' && s[j] == ')') {
        assert t[0] == c && t[j + 1] == s[j];
      }
    }
    if (c == '(' ==> ')' !in s) && NoClosedGroup(s) {
      forall i, j | 0 <= i < j < |t| ensures !(t[i] == '(' && t[j] == ')') {
        if i == 0 {
          assert t[i] == c && t[j] == s[j - 1];
        } else {
          assert t[i] == s[i - 1] && t[j] == s[j - 1];
        }
      }
    }
  }

  lemma NoClosedGroupAppend(a: string, b: string)
    requires NoClosedGroup(a) && NoClosedGroup(b) && ('(' in a ==> ')' !in b)
    ensures NoClosedGroup(a + b)
  {
    var t := a + b;
    forall i, j | 0 <= i < j < |t| ensures !(t[i] == '(' && t[j] == ')') {
      if j < |a| {
        assert t[i] == a[i] && t[j] == a[j];
      } else if i >= |a| {
        assert t[i] == b[i - |a|] && t[j] == b[j - |a|];
      } else {
        assert t[i] == a[i] && t[j] == b[j - |a|];
      }
    }
  }

  lemma NoClosedGroupSlice(s: string, a: nat, b: nat)
    requires a <= b <= |s| && NoClosedGroup(s)
    ensures NoClosedGroup(s[a..b])
  {
    var t := s[a..b];
    forall i, j | 0 <= i < j < |t| ensures !(t[i] == '(' && t[j] == ')') {
      assert t[i] == s[a + i] && t[j] == s[a + j];
    }
  }

  /** A piece of a string (something the string contains) only has the
      string's characters. */
  lemma ContainsChars(s: string, p: string)
    requires Contains(s, p)
    ensures forall k :: 0 <= k < |p| ==> p[k] in s
  {
    var a :| 0 <= a <= |s| && OccursAt(s, p, a);
    forall k | 0 <= k < |p| ensures p[k] in s {
      assert s[a + k] == p[k];
    }
  }

  lemma ContainsNoOr(s: string, p: string)
    requires Contains(s, p) && NoOr(s)
    ensures NoOr(p)
  {
    var a :| 0 <= a <= |s| && OccursAt(s, p, a);
    forall i | 0 <= i < |p| - 1 ensures !(p[i] == 'o' && p[i + 1] == 'r') {
      OccursAtIndex(s, p, a, i);
      OccursAtIndex(s, p, a, i + 1);
      assert !(s[a + i] == 'o' && s[a + i + 1] == 'r');
    }
  }

  /** NoOr is the absence of the substring "or". */
  lemma NoOrIsNotContains(s: string)
    ensures NoOr(s) <==> !Contains(s, "or")
  {
    if !NoOr(s) {
      var i :| 0 <= i < |s| - 1 && s[i] == 'o' && s[i + 1] == 'r';
      assert OccursAt(s, "or", i);
    }
    if Contains(s, "or") {
      var i :| 0 <= i <= |s| && OccursAt(s, "or", i);
      assert s[i + 0] == "or"[0] && s[i + 1] == "or"[1];
    }
  }

  lemma LineTerminatorIsSpace(c: char)
    ensures IsLineTerminator(c) ==> IsSpace(c)
  {
  }

  // ---------------------------------------------------------------------
  // Lists of pieces

  /** Parentheses in a list of pieces: no piece closes a group, and no
      piece holding a `(` is followed by a piece holding a `)`. */
  predicate ParensOrdered(ts: seq<string>) {
    && (forall i :: 0 <= i < |ts| ==> NoClosedGroup(ts[i]))
    && (forall i, j :: 0 <= i < j < |ts| ==> !('(' in ts[i] && ')' in ts[j]))
  }

  lemma ParensOrderedCons(h: string, ps: seq<string>)
    requires NoClosedGroup(h) && ParensOrdered(ps)
    requires '(' in h ==> forall j :: 0 <= j < |ps| ==> ')' !in ps[j]
    ensures ParensOrdered([h] + ps)
  {
    var all := [h] + ps;
    assert forall x :: 0 < x < |all| ==> all[x] == ps[x - 1];
  }

  /** Parentheses in the part of a string after a `(` at index a. */
  lemma NoCloseAfter(s: string, a: nat, from: nat, rest: string, p: string)
    requires NoClosedGroup(s) && a < from <= |s| && s[a] == '('
    requires rest == s[from..] && Contains(rest, p)
    ensures ')' !in p
  {
    ContainsChars(rest, p);
    forall k | 0 <= k < |rest| ensures rest[k] != ')' {
      assert rest[k] == s[from + k];
    }
  }

  lemma {:induction false} SplitParens(s: string, sep: string)
    requires |sep| > 0 && NoClosedGroup(s)
    ensures ParensOrdered(Split(s, sep))
    decreases |s|
  {
    if IndexOf(s, sep).Some? {
      var i := IndexOf(s, sep).value;
      NoClosedGroupSlice(s, i + |sep|, |s|);
      assert s[i + |sep|..|s|] == s[i + |sep|..];
      SplitParens(s[i + |sep|..], sep);
      SplitParensStep(s, sep, i);
    }
  }

  /** One step of SplitParens: the head piece in front of the pieces of the
      rest. */
  lemma SplitParensStep(s: string, sep: string, i: nat)
    requires |sep| > 0 && NoClosedGroup(s) && IndexOf(s, sep) == Some(i)
    requires ParensOrdered(Split(s[i + |sep|..], sep))
    ensures ParensOrdered(Split(s, sep))
  {
    SplitAt(s, sep, i);
    var h, rest := s[..i], s[i + |sep|..];
    var ps := Split(rest, sep);
    NoClosedGroupSlice(s, 0, i);
    if '(' in h {
      NoCloseInPieces(s, i + |sep|, sep);
    }
    ParensOrderedCons(h, ps);
  }

  /** After a `(` of text without closed groups, no piece of the rest holds
      a `)`. */
  lemma NoCloseInPieces(s: string, from: nat, sep: string)
    requires |sep| > 0 && NoClosedGroup(s) && 0 < from <= |s| && '(' in s[..from]
    ensures forall j :: 0 <= j < |Split(s[from..], sep)| ==> ')' !in Split(s[from..], sep)[j]
  {
    var rest := s[from..];
    var ps := Split(rest, sep);
    var a :| 0 <= a < from && s[..from][a] == '(';
    forall j | 0 <= j < |ps| ensures ')' !in ps[j] {
      NoCloseAfter(s, a, from, rest, ps[j]);
    }
  }

  lemma {:induction false} DedupParens(xs: seq<string>)
    requires ParensOrdered(xs)
    ensures ParensOrdered(Dedup(xs))
    decreases |xs|
  {
    if xs != [] {
      var xs', y := xs[..|xs| - 1], xs[|xs| - 1];
      assert ParensOrdered(xs');
      DedupParens(xs');
      var d := Dedup(xs');
      if y !in xs' {
        var r := d + [y];
        assert Dedup(xs) == r;
        forall i, j | 0 <= i < j < |r| ensures !('(' in r[i] && ')' in r[j]) {
          if j == |d| {
            var m :| 0 <= m < |xs'| && xs'[m] == r[i];
            assert xs[m] == r[i] && xs[|xs| - 1] == r[j];
          } else {
            assert r[i] == d[i] && r[j] == d[j];
          }
        }
        forall i | 0 <= i < |r| ensures NoClosedGroup(r[i]) {
          if i < |d| {
            assert r[i] == d[i];
          } else {
            assert r[i] == xs[|xs| - 1];
          }
        }
      }
    }
  }

  lemma {:induction false} JoinChars(ts: seq<string>, sep: string, c: char)
    requires c in Join(ts, sep)
    ensures c in sep || exists k :: 0 <= k < |ts| && c in ts[k]
    decreases |ts|
  {
    if |ts| > 1 {
      if c !in ts[0] && c !in sep {
        JoinChars(ts[1..], sep, c);
        var k :| 0 <= k < |ts| - 1 && c in ts[1..][k];
        assert ts[k + 1] == ts[1..][k];
      }
    }
  }

  lemma {:induction false} JoinParens(ts: seq<string>, sep: string)
    requires ParensOrdered(ts) && '(' !in sep && ')' !in sep
    ensures NoClosedGroup(Join(ts, sep))
    decreases |ts|
  {
    if |ts| > 1 {
      var t := ts[0];
      var rest := Join(ts[1..], sep);
      assert ParensOrdered(ts[1..]) by {
        forall i, j | 0 <= i < j < |ts| - 1 ensures !('(' in ts[1..][i] && ')' in ts[1..][j]) {
          assert ts[1..][i] == ts[i + 1] && ts[1..][j] == ts[j + 1];
        }
      }
      JoinParens(ts[1..], sep);
      assert NoClosedGroup(sep);
      assert NoClosedGroup(t);
      NoClosedGroupAppend(t, sep);
      if ')' in rest {
        JoinChars(ts[1..], sep, ')');
        var k :| 0 <= k < |ts| - 1 && ')' in ts[1..][k];
        assert ts[1..][k] == ts[k + 1];
        assert '(' !in t;
      }
      NoClosedGroupAppend(t + sep, rest);
      assert Join(ts, sep) == t + sep + rest;
    }
  }

  // ---------------------------------------------------------------------
  // Properties of the normalisation

  /** The text after the first two rewrites contains no line terminator,
      so `.` matches everything where DropGroups looks. */
  lemma RewrittenTextHasNoLineTerminator(raw: string)
    ensures NoLineTerminator(ReplaceComparisons(RemoveSpaces(raw)))
  {
    var w := RemoveSpaces(raw);
    var c := ReplaceComparisons(w);
    forall k | 0 <= k < |c| ensures !IsLineTerminator(c[k]) {
      if c[k] != ',' && c[k] != ' ' {
        var m :| 0 <= m < |w| && w[m] == c[k];
        LineTerminatorIsSpace(c[k]);
      }
    }
  }

  /** The rewritten text: no comparison operator, no bracket, no "or" and no
      closed parenthesis group. */
  lemma RewriteProperties(raw: string)
    ensures var r := Rewrite(raw);
      && '>' !in r && '=' !in r && '[' !in r && ']' !in r
      && NoOr(r) && NoClosedGroup(r)
  {
    RewrittenTextHasNoLineTerminator(raw);
    var c := ReplaceComparisons(RemoveSpaces(raw));
    var g := DropGroups(c);
    var b := DropBrackets(g);
    var r := OrToComma(b);
    forall k | 0 <= k < |r| ensures r[k] != '>' && r[k] != '=' && r[k] != '[' && r[k] != ']' {
      if r[k] != ',' {
        assert r[k] in b;
        assert r[k] in g;
      }
    }
  }

  /** Normalised sub-stat names are pairwise distinct and none contains a
      comma, a comparison character, a bracket or the substring "or"; there
      is always at least one (possibly empty) name. */
  lemma {:induction false} TokensWellFormed(raw: string)
    ensures var ts := Tokens(raw);
      && |ts| > 0 && NoDup(ts)
      && forall k :: 0 <= k < |ts| ==>
           && ',' !in ts[k] && '>' !in ts[k] && '=' !in ts[k] && '[' !in ts[k] && ']' !in ts[k]
           && !Contains(ts[k], "or")
  {
    var r := Rewrite(raw);
    RewriteProperties(raw);
    var ps := Split(r, ",");
    var ts := Dedup(ps);
    assert ps[0] in ts;
    forall k | 0 <= k < |ts|
      ensures ',' !in ts[k] && '>' !in ts[k] && '=' !in ts[k] && '[' !in ts[k] && ']' !in ts[k]
      ensures !Contains(ts[k], "or")
    {
      var m :| 0 <= m < |ps| && ps[m] == ts[k];
      ContainsChar(ps[m], ',');
      ContainsChars(r, ps[m]);
      ContainsNoOr(r, ps[m]);
      NoOrIsNotContains(ps[m]);
    }
  }

  /** No `)` follows a `(` anywhere in the normalised string. */
  lemma NormalizeNoClosedGroup(raw: string)
    ensures NoClosedGroup(Normalize(raw))
  {
    RewriteProperties(raw);
    SplitParens(Rewrite(raw), ",");
    DedupParens(Split(Rewrite(raw), ","));
    JoinParens(Tokens(raw), ", ");
  }

  /** Splitting the normalised string on ", ", as the report stage does,
      gives exactly the normalised names back. */
  lemma NormalizeSplitRoundTrip(raw: string)
    ensures Split(Normalize(raw), ", ") == Tokens(raw)
  {
    TokensWellFormed(raw);
    SplitJoin(Tokens(raw), ", ");
  }

  // ---------------------------------------------------------------------
  // What each rewrite keeps

  /** Whitespace removal works character by character: it distributes over
      concatenation, and a single character goes exactly when it is
      whitespace. */
  lemma {:induction false} RemoveSpacesAppend(a: string, b: string)
    ensures RemoveSpaces(a + b) == RemoveSpaces(a) + RemoveSpaces(b)
    decreases |a|
  {
    if a == [] {
      assert a + b == b;
    } else {
      ConsParts(a[0], a[1..] + b);
      assert [a[0]] + (a[1..] + b) == a + b;
      RemoveSpacesAppend(a[1..], b);
      AppendAssoc(if IsSpace(a[0]) then [] else [a[0]], RemoveSpaces(a[1..]), RemoveSpaces(b));
    }
  }

  lemma RemoveSpacesChar(c: char)
    ensures RemoveSpaces([c]) == if IsSpace(c) then [] else [c]
  {
    assert [c][1..] == [];
  }

  /** The operator rewrite works piece by piece wherever the cut does not
      part a `>=`. */
  lemma {:induction false} ReplaceComparisonsAppend(a: string, b: string)
    requires !(a != [] && b != [] && a[|a| - 1] == '>' && b[0] == '=')
    ensures ReplaceComparisons(a + b) == ReplaceComparisons(a) + ReplaceComparisons(b)
    decreases |a|
  {
    if a == [] {
      assert a + b == b;
    } else if |a| >= 2 && a[0] == '>' && a[1] == '=' {
      assert (a + b)[2..] == a[2..] + b;
      ReplaceComparisonsAppend(a[2..], b);
      AppendAssoc(", ", ReplaceComparisons(a[2..]), ReplaceComparisons(b));
    } else {
      assert (a + b)[1..] == a[1..] + b;
      ReplaceComparisonsAppend(a[1..], b);
      if a[0] == '>' || a[0] == '=' {
        AppendAssoc(", ", ReplaceComparisons(a[1..]), ReplaceComparisons(b));
      } else {
        AppendAssoc([a[0]], ReplaceComparisons(a[1..]), ReplaceComparisons(b));
      }
    }
  }

  /** `>=` is one separator; a lone `>` or `=` is one separator; every other
      character stays. */
  lemma ReplaceComparisonsUnits(c: char)
    ensures ReplaceComparisons(">=") == ", "
    ensures ReplaceComparisons([c]) == if c == '>' || c == '=' then ", " else [c]
  {
    assert ">="[2..] == [];
    assert [c][1..] == [];
  }

  /** Text without comparison operators is left as it is. */
  lemma {:induction false} ReplaceComparisonsKeeps(s: string)
    requires '>' !in s && '=' !in s
    ensures ReplaceComparisons(s) == s
    decreases |s|
  {
    if s != [] {
      ReplaceComparisonsKeeps(s[1..]);
      assert s == [s[0]] + s[1..];
    }
  }

  /** The first `)` of text without line terminators ends the group. */
  lemma {:induction false} GroupCloseAt(x: string, rest: string)
    requires ')' !in x && NoLineTerminator(x)
    ensures GroupClose(x + [')'] + rest) == Some(|x|)
    decreases |x|
  {
    if x != [] {
      assert (x + [')'] + rest)[1..] == x[1..] + [')'] + rest;
      GroupCloseAt(x[1..], rest);
    }
  }

  /** A closed group goes together with its parentheses. */
  lemma DropGroupsGroup(x: string, rest: string)
    requires ')' !in x && NoLineTerminator(x)
    ensures DropGroups(['('] + x + [')'] + rest) == DropGroups(rest)
  {
    var s := ['('] + x + [')'] + rest;
    assert s[1..] == x + [')'] + rest;
    GroupCloseAt(x, rest);
    assert s[|x| + 2..] == rest;
  }

  /** A character other than `(` is kept, and the scan goes on after it. */
  lemma DropGroupsKeep(c: char, s: string)
    requires c != '('
    ensures DropGroups([c] + s) == [c] + DropGroups(s)
  {
    assert ([c] + s)[1..] == s;
  }

  /** A `(` that no `)` closes is kept, and the scan goes on after it. */
  lemma DropGroupsUnclosed(s: string)
    requires GroupClose(s).None?
    ensures DropGroups(['('] + s) == ['('] + DropGroups(s)
  {
    assert (['('] + s)[1..] == s;
  }

  /** Text without `(` is left as it is. */
  lemma {:induction false} DropGroupsNoOpen(s: string)
    requires '(' !in s
    ensures DropGroups(s) == s
    decreases |s|
  {
    if s != [] {
      assert s[0] != '(';
      assert '(' !in s[1..] by {
        forall k | 0 <= k < |s| - 1 ensures s[1..][k] != '(' {
          assert s[1..][k] == s[k + 1];
        }
      }
      DropGroupsNoOpen(s[1..]);
      assert s == [s[0]] + s[1..];
      DropGroupsKeep(s[0], s[1..]);
    }
  }

  /** Bracket removal works character by character. */
  lemma {:induction false} DropBracketsAppend(a: string, b: string)
    ensures DropBrackets(a + b) == DropBrackets(a) + DropBrackets(b)
    decreases |a|
  {
    if a == [] {
      assert a + b == b;
    } else {
      ConsParts(a[0], a[1..] + b);
      assert [a[0]] + (a[1..] + b) == a + b;
      DropBracketsAppend(a[1..], b);
      AppendAssoc(if a[0] == '[' || a[0] == ']' then [] else [a[0]], DropBrackets(a[1..]), DropBrackets(b));
    }
  }

  lemma DropBracketsChar(c: char)
    ensures DropBrackets([c]) == if c == '[' || c == ']' then [] else [c]
  {
    assert [c][1..] == [];
  }

  /** Text without "or" is left as it is. */
  lemma {:induction false} OrToCommaNoOr(s: string)
    requires forall k :: !OccursAt(s, "or", k)
    ensures OrToComma(s) == s
    decreases |s|
  {
    if s != [] {
      if |s| >= 2 && s[0] == 'o' && s[1] == 'r' {
        assert OccursAt(s, "or", 0);
      }
      OccursAtTail(s, "or");
      assert forall k :: !OccursAt(s[1..], "or", k) by {
        forall k ensures !OccursAt(s[1..], "or", k) {
          assert !OccursAt(s, "or", k + 1);
        }
      }
      OrToCommaNoOr(s[1..]);
      assert s == [s[0]] + s[1..];
    }
  }

  /** The first "or" becomes a comma; what comes before it stays. */
  lemma {:induction false} OrToCommaAtFirstOr(s: string, i: nat)
    requires OccursAt(s, "or", i)
    requires forall k :: 0 <= k < i ==> !OccursAt(s, "or", k)
    ensures OrToComma(s) == s[..i] + "," + OrToComma(s[i + 2..])
    decreases i
  {
    OccursAtIndex(s, "or", i, 0);
    OccursAtIndex(s, "or", i, 1);
    assert "or"[0] == 'o' && "or"[1] == 'r';
    if i == 0 {
      assert s[..0] + "," == ",";
    } else {
      if |s| >= 2 && s[0] == 'o' && s[1] == 'r' {
        assert OccursAt(s, "or", 0);
      }
      OccursAtTail(s, "or");
      assert OccursAt(s[1..], "or", i - 1);
      assert forall k :: 0 <= k < i - 1 ==> !OccursAt(s[1..], "or", k) by {
        forall k | 0 <= k < i - 1 ensures !OccursAt(s[1..], "or", k) {
          assert !OccursAt(s, "or", k + 1);
        }
      }
      OrToCommaAtFirstOr(s[1..], i - 1);
      assert s[1..][i - 1 + 2..] == s[i + 2..];
      assert [s[0]] + s[1..][..i - 1] == s[..i];
      AppendAssoc([s[0]], s[1..][..i - 1], "," + OrToComma(s[i + 2..]));
      AppendAssoc(s[..i], ",", OrToComma(s[i + 2..]));
      AppendAssoc(s[1..][..i - 1], ",", OrToComma(s[i + 2..]));
    }
  }

  /** `.replace(/or/g, ',')` is `.split('or').join(',')`. */
  lemma {:induction false} OrToCommaIsSplitJoin(s: string)
    ensures OrToComma(s) == Join(Split(s, "or"), ",")
    decreases |s|
  {
    match IndexOf(s, "or")
    case None =>
      OrToCommaNoOr(s);
    case Some(i) =>
      var ps := Split(s[i + 2..], "or");
      OrToCommaIsSplitJoin(s[i + 2..]);
      assert Split(s, "or") == [s[..i]] + ps;
      JoinCons(s[..i], ps, ",");
      OrToCommaAtFirstOr(s, i);
  }

  // ---------------------------------------------------------------------
  // Normalising twice

  lemma RemoveSpacesFirst() ensures RemoveSpaces("A>=B") == "A>=B" {}
  lemma ReplaceFirst() ensures ReplaceComparisons("A>=B") == "A, B" {}
  lemma DropGroupsFirst() ensures DropGroups("A, B") == "A, B" {}
  lemma DropBracketsFirst() ensures DropBrackets("A, B") == "A, B" {}
  lemma OrToCommaFirst() ensures OrToComma("A, B") == "A, B" {}
  lemma RemoveSpacesSecond() ensures RemoveSpaces("A,  B") == "A,B" {}
  lemma ReplaceSecond() ensures ReplaceComparisons("A,B") == "A,B" {}
  lemma DropGroupsSecond() ensures DropGroups("A,B") == "A,B" {}
  lemma DropBracketsSecond() ensures DropBrackets("A,B") == "A,B" {}
  lemma OrToCommaSecond() ensures OrToComma("A,B") == "A,B" {}

  lemma SplitNoComma(s: string)
    requires ',' !in s
    ensures Split(s, ",") == [s]
  {
    forall k ensures !OccursAt(s, ",", k) {
      OccursAtChar(s, ',', k);
    }
  }

  lemma SplitOneComma(a: string, b: string)
    requires |a| == 1 && a[0] != ',' && ',' !in b
    ensures Split(a + "," + b, ",") == [a, b]
  {
    var s := a + "," + b;
    OccursAtChar(s, ',', 0);
    OccursAtChar(s, ',', 1);
    assert IndexOf(s, ",") == Some(1);
    assert s[..1] == a && s[2..] == b;
    SplitNoComma(b);
  }

  lemma DedupPair(a: string, b: string)
    requires a != b
    ensures Dedup([a, b]) == [a, b]
  {
    assert [a, b][..1] == [a];
  }

  lemma RewriteFirst()
    ensures Rewrite("A>=B") == "A, B"
  {
    RemoveSpacesFirst();
    ReplaceFirst();
    DropGroupsFirst();
    DropBracketsFirst();
    OrToCommaFirst();
  }

  lemma RewriteSecond()
    ensures Rewrite("A,  B") == "A,B"
  {
    RemoveSpacesSecond();
    ReplaceSecond();
    DropGroupsSecond();
    DropBracketsSecond();
    OrToCommaSecond();
  }

  lemma TokensFirst()
    ensures Tokens("A>=B") == ["A", " B"]
  {
    RewriteFirst();
    SplitFirst();
    DedupPair("A", " B");
  }

  lemma SplitFirst()
    ensures Split("A, B", ",") == ["A", " B"]
  {
    assert "A, B" == "A" + "," + " B";
    SplitOneComma("A", " B");
  }

  lemma TokensSecond()
    ensures Tokens("A,  B") == ["A", "B"]
  {
    RewriteSecond();
    SplitSecond();
    DedupPair("A", "B");
  }

  lemma SplitSecond()
    ensures Split("A,B", ",") == ["A", "B"]
  {
    assert "A,B" == "A" + "," + "B";
    SplitOneComma("A", "B");
  }

  lemma JoinPair(a: string, b: string, sep: string)
    ensures Join([a, b], sep) == a + sep + b
  {
    assert [a, b][1..] == [b];
  }

  lemma NormalizeFirst()
    ensures Normalize("A>=B") == "A,  B"
  {
    TokensFirst();
    JoinFirst();
  }

  lemma JoinFirst()
    ensures Join(["A", " B"], ", ") == "A,  B"
  {
    JoinPair("A", " B", ", ");
  }

  lemma NormalizeSecond()
    ensures Normalize("A,  B") == "A, B"
  {
    TokensSecond();
    JoinSecond();
  }

  lemma JoinSecond()
    ensures Join(["A", "B"], ", ") == "A, B"
  {
    JoinPair("A", "B", ", ");
  }

  /** Normalising is not idempotent: the separator `, ` that `>=` becomes
      leaves a space at the start of the next piece, which a second
      normalisation removes along with the other whitespace. */
  lemma NormalizeNotIdempotent()
    ensures Normalize("A>=B") == "A,  B"
    ensures Normalize(Normalize("A>=B")) == "A, B"
  {
    NormalizeFirst();
    NormalizeSecond();
  }
}
