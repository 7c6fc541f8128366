/** The JavaScript string primitives the script relies on: the `\s`, `\w`
    and `.` character classes, substring search, `split`, `join` and
    `trim`. Strings are sequences of characters; character order is code
    point order. */
module Text {
  import opened Wrappers

  /** `\s` in a regular expression, which is also the set `trim()` strips:
      the WhiteSpace and LineTerminator characters of ECMAScript. */
  predicate IsSpace(c: char) {
    var n := c as int;
    (9 <= n <= 13) || n == 0x20 || n == 0xA0 || n == 0x1680 || (0x2000 <= n <= 0x200A)
    || n == 0x2028 || n == 0x2029 || n == 0x202F || n == 0x205F || n == 0x3000 || n == 0xFEFF
  }

  /** The characters that `.` does not match when the `s` flag is absent. */
  predicate IsLineTerminator(c: char) {
    c == '\n' || c == '\r' || c as int == 0x2028 || c as int == 0x2029
  }

  /** `\w`: ASCII letters, digits and the underscore (no hyphen). */
  predicate IsWordChar(c: char) {
    ('a' <= c <= 'z') || ('A' <= c <= 'Z') || ('0' <= c <= '9') || c == '_'
  }

  /** pat occurs in s starting at index i. */
  predicate OccursAt(s: string, pat: string, i: int) {
    0 <= i && i + |pat| <= |s| && forall j :: 0 <= j < |pat| ==> s[i + j] == pat[j]
  }

  lemma OccursAtIndex(s: string, pat: string, a: int, k: int)
    requires OccursAt(s, pat, a) && 0 <= k < |pat|
    ensures a + k < |s| && s[a + k] == pat[k]
  {
  }

  /** pat occurs somewhere in s (`s.includes(pat)`). */
  predicate Contains(s: string, pat: string) {
    exists i :: 0 <= i <= |s| && OccursAt(s, pat, i)
  }

  /** A string occurs at the front of itself followed by anything, and
      what follows it is the rest. */
  lemma OccursAtFront(w: string, rest: string)
    ensures OccursAt(w + rest, w, 0) && (w + rest)[|w|..] == rest
  {
    assert forall j :: 0 <= j < |w| ==> (w + rest)[0 + j] == w[j];
  }

  lemma OccursAtTail(s: string, pat: string)
    requires |s| > 0
    ensures forall k :: 1 <= k ==> (OccursAt(s, pat, k) <==> OccursAt(s[1..], pat, k - 1))
  {
  }

  /** The first index at which pat occurs in s (`s.indexOf(pat)`, with None
      for -1). */
  function IndexOf(s: string, pat: string): (r: Option<nat>)
    ensures r.Some? ==> OccursAt(s, pat, r.value)
    ensures r.Some? ==> forall k :: 0 <= k < r.value ==> !OccursAt(s, pat, k)
    ensures r.None? ==> forall k :: !OccursAt(s, pat, k)
  {
    if |s| < |pat| then None
    else if OccursAt(s, pat, 0) then Some(0)
    else
      OccursAtTail(s, pat);
      match IndexOf(s[1..], pat)
      case None => None
      case Some(k) => Some(k + 1)
  }

  /** The first index at or after `from` at which pat occurs in s: the
      search a regular expression makes for a literal that comes after an
      earlier part of the pattern. */
  function IndexFrom(s: string, pat: string, from: nat): (r: Option<nat>)
    requires from <= |s|
    ensures r.Some? ==> from <= r.value && OccursAt(s, pat, r.value)
    ensures r.Some? ==> forall k :: from <= k < r.value ==> !OccursAt(s, pat, k)
    ensures r.None? ==> forall k :: from <= k ==> !OccursAt(s, pat, k)
    decreases |s| - from
  {
    if |s| - from < |pat| then None
    else if OccursAt(s, pat, from) then Some(from)
    else IndexFrom(s, pat, from + 1)
  }

  /** A single-character pattern occurs exactly where that character is. */
  lemma OccursAtChar(s: string, c: char, i: int)
    ensures OccursAt(s, [c], i) <==> 0 <= i < |s| && s[i] == c
  {
    if 0 <= i < |s| && s[i] == c {
      assert forall j :: 0 <= j < 1 ==> s[i + j] == [c][j];
    }
    if OccursAt(s, [c], i) {
      assert s[i + 0] == [c][0];
    }
  }

  lemma ContainsChar(s: string, c: char)
    ensures Contains(s, [c]) <==> c in s
  {
    if c in s {
      var i :| 0 <= i < |s| && s[i] == c;
      OccursAtChar(s, c, i);
    }
    if Contains(s, [c]) {
      var i :| OccursAt(s, [c], i);
      OccursAtChar(s, c, i);
    }
  }

  /** An occurrence inside a slice is an occurrence in the whole string. */
  lemma OccursInSlice(s: string, pat: string, a: int, b: int, k: int)
    requires 0 <= a <= b <= |s|
    requires OccursAt(s[a..b], pat, k)
    ensures OccursAt(s, pat, a + k)
  {
    forall j | 0 <= j < |pat| ensures s[a + k + j] == pat[j] {
      assert s[a..b][k + j] == pat[j];
    }
  }

  /** `s.split(sep)` for a non-empty separator: the pieces between
      successive left-to-right, non-overlapping occurrences of sep. */
  function Split(s: string, sep: string): (parts: seq<string>)
    requires |sep| > 0
    ensures |parts| > 0
    ensures forall k :: 0 <= k < |parts| ==> !Contains(parts[k], sep)
    ensures forall k :: 0 <= k < |parts| ==> Contains(s, parts[k])
    decreases |s|
  {
    match IndexOf(s, sep)
    case None =>
      assert OccursAt(s, s, 0);
      [s]
    case Some(i) =>
      SplitHead(s, sep, i);
      var rest := Split(s[i + |sep|..], sep);
      SliceContains(s, i + |sep|, rest);
      [s[..i]] + rest
  }

  lemma SplitHead(s: string, sep: string, i: nat)
    requires |sep| > 0 && i + |sep| <= |s|
    requires forall k :: 0 <= k < i ==> !OccursAt(s, sep, k)
    ensures !Contains(s[..i], sep) && Contains(s, s[..i])
  {
    forall j | 0 <= j < i ensures s[0 + j] == s[..i][j] {
    }
    assert OccursAt(s, s[..i], 0);
    if Contains(s[..i], sep) {
      var k :| OccursAt(s[..i], sep, k);
      OccursInSlice(s, sep, 0, i, k);
    }
  }

  lemma SliceContains(s: string, a: nat, parts: seq<string>)
    requires a <= |s|
    requires forall k :: 0 <= k < |parts| ==> Contains(s[a..], parts[k])
    ensures forall k :: 0 <= k < |parts| ==> Contains(s, parts[k])
  {
    forall k | 0 <= k < |parts| ensures Contains(s, parts[k]) {
      var j :| OccursAt(s[a..], parts[k], j);
      assert s[a..|s|] == s[a..];
      OccursInSlice(s, parts[k], a, |s|, j);
    }
  }

  /** `parts.join(sep)`. */
  function Join(parts: seq<string>, sep: string): string {
    if |parts| == 0 then ""
    else if |parts| == 1 then parts[0]
    else parts[0] + sep + Join(parts[1..], sep)
  }

  /** In t + sep + rest, the first separator is the one after t when t does
      not contain the separator's first character. */
  lemma FirstSeparator(t: string, sep: string, rest: string)
    requires |sep| > 0 && sep[0] !in t
    ensures IndexOf(t + sep + rest, sep) == Some(|t|)
    ensures (t + sep + rest)[|t| + |sep|..] == rest
  {
    var s := t + sep + rest;
    forall j | 0 <= j < |sep| ensures s[|t| + j] == sep[j] {
    }
    assert OccursAt(s, sep, |t|);
    forall k | 0 <= k < |t| ensures !OccursAt(s, sep, k) {
      assert s[k + 0] == t[k] && t[k] != sep[0];
    }
  }

  /** A string without the separator's first character is not split. */
  lemma NoSeparator(t: string, sep: string)
    requires |sep| > 0 && sep[0] !in t
    ensures IndexOf(t, sep).None?
  {
    forall k | 0 <= k < |t| ensures !OccursAt(t, sep, k) {
      assert t[k + 0] != sep[0];
    }
  }

  /** Splitting a joined list gives the list back, provided no piece contains
      the first character of the separator. */
  /** One step of Split: the text before the first separator, then the
      pieces of the rest. */
  lemma SplitAt(s: string, sep: string, i: nat)
    requires |sep| > 0 && IndexOf(s, sep) == Some(i)
    ensures i + |sep| <= |s|
    ensures Split(s, sep) == [s[..i]] + Split(s[i + |sep|..], sep)
  {
  }

  lemma {:induction false} SplitJoin(parts: seq<string>, sep: string)
    requires |parts| > 0 && |sep| > 0
    requires forall k :: 0 <= k < |parts| ==> sep[0] !in parts[k]
    ensures Split(Join(parts, sep), sep) == parts
    decreases |parts|
  {
    if |parts| == 1 {
      NoSeparator(parts[0], sep);
    } else {
      var rest := Join(parts[1..], sep);
      FirstSeparator(parts[0], sep, rest);
      SplitJoin(parts[1..], sep);
      assert (parts[0] + sep + rest)[..|parts[0]|] == parts[0];
      assert Split(Join(parts, sep), sep) == [parts[0]] + parts[1..];
    }
  }

  /** Joining the pieces of a split gives the string back. */
  lemma {:induction false} JoinSplit(s: string, sep: string)
    requires |sep| > 0
    ensures Join(Split(s, sep), sep) == s
    decreases |s|
  {
    match IndexOf(s, sep)
    case None =>
    case Some(i) =>
      var rest := s[i + |sep|..];
      var ps := Split(rest, sep);
      JoinSplit(rest, sep);
      assert Split(s, sep) == [s[..i]] + ps;
      JoinCons(s[..i], ps, sep);
      AroundOccurrence(s, sep, i);
  }

  lemma JoinCons(p: string, ps: seq<string>, sep: string)
    requires ps != []
    ensures Join([p] + ps, sep) == p + sep + Join(ps, sep)
  {
    assert ([p] + ps)[1..] == ps;
  }

  /** A string is what comes before an occurrence, the occurrence, and what
      comes after it. */
  lemma AroundOccurrence(s: string, pat: string, i: int)
    requires OccursAt(s, pat, i)
    ensures s == s[..i] + pat + s[i + |pat|..]
  {
    assert s[i..i + |pat|] == pat;
    assert s == s[..i] + s[i..i + |pat|] + s[i + |pat|..];
  }

  /** Only spaces. */
  predicate AllSpace(s: string) {
    forall k :: 0 <= k < |s| ==> IsSpace(s[k])
  }

  /** Neither starts nor ends with a space. */
  predicate IsTrimmed(s: string) {
    s == [] || (!IsSpace(s[0]) && !IsSpace(s[|s| - 1]))
  }

  /** `s` without its leading spaces. */
  function TrimStart(s: string): string {
    if s != [] && IsSpace(s[0]) then TrimStart(s[1..]) else s
  }

  /** `s` without its trailing spaces. */
  function TrimEnd(s: string): string {
    if s != [] && IsSpace(s[|s| - 1]) then TrimEnd(s[..|s| - 1]) else s
  }

  /** TrimStart cuts a run of spaces off the front and stops at the first
      other character. */
  lemma {:induction false} TrimStartSpec(s: string)
    ensures var r := TrimStart(s);
      && |r| <= |s| && r == s[|s| - |r|..]
      && AllSpace(s[..|s| - |r|])
      && (r == [] || !IsSpace(r[0]))
    decreases |s|
  {
    if s != [] && IsSpace(s[0]) {
      TrimStartSpec(s[1..]);
      var r := TrimStart(s[1..]);
      assert s[1..][..|s| - 1 - |r|] == s[1..|s| - |r|];
      assert s[1..][|s| - 1 - |r|..] == s[|s| - |r|..];
    }
  }

  /** TrimEnd cuts a run of spaces off the back and stops at the last
      other character. */
  lemma {:induction false} TrimEndSpec(s: string)
    ensures var r := TrimEnd(s);
      && |r| <= |s| && r == s[..|r|]
      && AllSpace(s[|r|..])
      && (r == [] || !IsSpace(r[|r| - 1]))
    decreases |s|
  {
    if s != [] && IsSpace(s[|s| - 1]) {
      TrimEndSpec(s[..|s| - 1]);
      var r := TrimEnd(s[..|s| - 1]);
      assert s[..|s| - 1][|r|..] + [s[|s| - 1]] == s[|r|..];
      assert s[..|s| - 1][..|r|] == s[..|r|];
    }
  }

  /** `s.trim()`: s with its leading and trailing spaces removed. */
  function Trim(s: string): (r: string)
    ensures IsTrimmed(r)
  {
    TrimStartSpec(s);
    TrimEndSpec(TrimStart(s));
    TrimInfix(s, TrimStart(s), TrimEnd(TrimStart(s)));
    TrimEnd(TrimStart(s))
  }

  /** `parts.map(d => d.trim())`. */
  function TrimAll(parts: seq<string>): seq<string> {
    seq(|parts|, k requires 0 <= k < |parts| => Trim(parts[k]))
  }

  /** `s.trim()` is s with its leading and trailing spaces cut off, so each
      of its characters is one of s. */
  lemma TrimSpec(s: string)
    ensures exists a :: OccursAt(s, Trim(s), a) && AllSpace(s[..a]) && AllSpace(s[a + |Trim(s)|..])
    ensures forall k :: 0 <= k < |Trim(s)| ==> Trim(s)[k] in s
  {
    TrimStartSpec(s);
    TrimEndSpec(TrimStart(s));
    TrimInfix(s, TrimStart(s), Trim(s));
  }

  lemma TrimInfix(s: string, t: string, r: string)
    requires |t| <= |s| && t == s[|s| - |t|..] && AllSpace(s[..|s| - |t|])
    requires (t == [] || !IsSpace(t[0]))
    requires |r| <= |t| && r == t[..|r|] && AllSpace(t[|r|..]) && (r == [] || !IsSpace(r[|r| - 1]))
    ensures IsTrimmed(r)
    ensures OccursAt(s, r, |s| - |t|) && AllSpace(s[..|s| - |t|]) && AllSpace(s[|s| - |t| + |r|..])
    ensures forall k :: 0 <= k < |r| ==> r[k] in s
  {
    var a := |s| - |t|;
    forall j | 0 <= j < |r| ensures s[a + j] == r[j] {
    }
    assert s[a + |r|..] == t[|r|..];
    forall k | 0 <= k < |r| ensures r[k] in s {
      assert s[a + k] == r[k];
    }
  }

  /** Trimming adds no character. */
  lemma TrimKeepsOut(s: string, c: char)
    requires c !in s
    ensures c !in Trim(s)
  {
    TrimSpec(s);
  }

  lemma TrimEmpty()
    ensures Trim("") == ""
  {
    assert TrimStart("") == "";
  }

  /** A trimmed string is left alone, so trimming twice is trimming once. */
  lemma TrimTrimmed(s: string)
    requires IsTrimmed(s)
    ensures Trim(s) == s
  {
  }
}
