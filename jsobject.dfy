/** A JavaScript object used as a dictionary with string keys: a list of
    entries in insertion order, which is the order `Object.entries` and
    `Object.keys` report. */
module JsObject {
  import opened Wrappers
  import opened Seqs

  type Entries<V> = seq<(string, V)>

  function Keys<V>(e: Entries<V>): (ks: seq<string>)
    ensures |ks| == |e| && forall i :: 0 <= i < |e| ==> ks[i] == e[i].0
  {
    if e == [] then [] else [e[0].0] + Keys(e[1..])
  }

  predicate DistinctKeys<V>(e: Entries<V>) {
    NoDup(Keys(e))
  }

  /** `obj[k]`, with None for undefined: the value of the first entry with
      key k. */
  function Get<V>(e: Entries<V>, k: string): Option<V> {
    if e == [] then None
    else if e[0].0 == k then Some(e[0].1)
    else Get(e[1..], k)
  }

  /** `obj[k] || d` where every stored value is truthy. */
  function GetOr<V>(e: Entries<V>, k: string, d: V): V {
    match Get(e, k)
    case None => d
    case Some(v) => v
  }

  /** `obj[k] = v`: a key already present keeps its place and gets the new
      value, a new key goes last. */
  function Put<V>(e: Entries<V>, k: string, v: V): Entries<V> {
    if e == [] then [(k, v)]
    else if e[0].0 == k then [(k, v)] + e[1..]
    else [e[0]] + Put(e[1..], k, v)
  }

  /** A key is defined exactly when it is one of the keys, and then its
      value is stored with it. */
  lemma {:induction false} GetSpec<V>(e: Entries<V>, k: string)
    ensures Get(e, k).Some? <==> k in Keys(e)
    ensures Get(e, k).Some? ==> (k, Get(e, k).value) in e
    decreases |e|
  {
    if e != [] {
      assert Keys(e) == [e[0].0] + Keys(e[1..]);
      if e[0].0 != k {
        GetSpec(e[1..], k);
      }
    }
  }

  /** With distinct keys, the value Get finds is the one stored with the
      key. */
  lemma GetDistinct<V>(e: Entries<V>, i: nat)
    requires DistinctKeys(e) && i < |e|
    ensures Get(e, e[i].0) == Some(e[i].1)
  {
    GetSpec(e, e[i].0);
    assert Keys(e)[i] == e[i].0;
    var r := Get(e, e[i].0);
    var j :| 0 <= j < |e| && e[j] == (e[i].0, r.value);
    assert Keys(e)[j] == e[i].0;
  }

  /** After `obj[k] = v`, `obj[k]` is v. */
  lemma {:induction false} PutGet<V>(e: Entries<V>, k: string, v: V)
    ensures Get(Put(e, k, v), k) == Some(v)
    decreases |e|
  {
    if e != [] && e[0].0 != k {
      PutGet(e[1..], k, v);
      assert ([e[0]] + Put(e[1..], k, v))[1..] == Put(e[1..], k, v);
    }
  }

  /** Assignment leaves every other key's value alone. */
  lemma {:induction false} PutOther<V>(e: Entries<V>, k: string, v: V, k': string)
    requires k' != k
    ensures Get(Put(e, k, v), k') == Get(e, k')
    decreases |e|
  {
    if e != [] && e[0].0 != k {
      var rest := Put(e[1..], k, v);
      assert ([e[0]] + rest)[1..] == rest;
      PutOther(e[1..], k, v, k');
    } else if e != [] {
      assert ([(k, v)] + e[1..])[1..] == e[1..];
    }
  }

  /** A key already present keeps its place; a new key is appended. */
  lemma {:induction false} PutKeys<V>(e: Entries<V>, k: string, v: V)
    ensures Keys(Put(e, k, v)) == if k in Keys(e) then Keys(e) else Keys(e) + [k]
    decreases |e|
  {
    if e != [] {
      assert Keys(e) == [e[0].0] + Keys(e[1..]);
      if e[0].0 != k {
        PutKeys(e[1..], k, v);
        var rest := Put(e[1..], k, v);
        assert Keys([e[0]] + rest) == [e[0].0] + Keys(rest);
      } else {
        assert Keys([(k, v)] + e[1..]) == [k] + Keys(e[1..]);
      }
    }
  }

  /** Keys stay distinct under assignment. */
  lemma PutDistinct<V>(e: Entries<V>, k: string, v: V)
    requires DistinctKeys(e)
    ensures DistinctKeys(Put(e, k, v))
  {
    PutKeys(e, k, v);
  }

  /** Every entry after an assignment is the new one or an old one. */
  lemma {:induction false} PutEntries<V>(e: Entries<V>, k: string, v: V)
    ensures forall i :: 0 <= i < |Put(e, k, v)| ==> Put(e, k, v)[i] == (k, v) || Put(e, k, v)[i] in e
    decreases |e|
  {
    if e != [] && e[0].0 != k {
      PutEntries(e[1..], k, v);
    }
  }

  /** `obj[k] = v` twice: the second value wins, in the first one's place. */
  lemma {:induction false} PutPut<V>(e: Entries<V>, k: string, v1: V, v2: V)
    ensures Put(Put(e, k, v1), k, v2) == Put(e, k, v2)
    decreases |e|
  {
    if e != [] && e[0].0 != k {
      PutPut(e[1..], k, v1, v2);
      assert ([e[0]] + Put(e[1..], k, v1))[1..] == Put(e[1..], k, v1);
    } else if e != [] {
      assert ([(k, v1)] + e[1..])[1..] == e[1..];
    }
  }
}
