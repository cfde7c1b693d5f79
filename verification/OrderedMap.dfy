/** A JavaScript Map with string keys: its entries in insertion order. */
module OrderedMap {
  import opened Wrappers

  datatype Entry<+V> = Entry(key: string, value: V)

  type Map<+V> = seq<Entry<V>>

  function IndexOfKey<V>(m: Map<V>, k: string): (i: nat)
    ensures i <= |m|
    ensures i < |m| ==> m[i].key == k
    ensures forall j :: 0 <= j < i ==> m[j].key != k
  {
    if m == [] || m[0].key == k then 0
    else
      var i := IndexOfKey(m[1..], k);
      assert forall j :: 1 <= j < i + 1 ==> m[j] == m[1..][j - 1];
      i + 1
  }

  predicate Holds<V>(m: Map<V>, k: string) {
    IndexOfKey(m, k) < |m|
  }

  function Get<V>(m: Map<V>, k: string): Option<V> {
    var i := IndexOfKey(m, k);
    if i < |m| then Some(m[i].value) else None
  }

  function Delete<V>(m: Map<V>, k: string): Map<V> {
    var i := IndexOfKey(m, k);
    if i < |m| then DeleteAt(m, i) else m
  }

  function DeleteAt<V>(m: Map<V>, i: nat): Map<V>
    requires i < |m|
  {
    m[..i] + m[i + 1..]
  }

  /** `set`: a key already there keeps its place. */
  function Set<V>(m: Map<V>, k: string, v: V): Map<V> {
    var i := IndexOfKey(m, k);
    if i < |m| then m[i := Entry(k, v)] else m + [Entry(k, v)]
  }

  /** Drop from the front while the size is at least the bound. */
  function Trim<V>(m: Map<V>, bound: real): Map<V> {
    if m != [] && |m| as real >= bound then Trim(m[1..], bound) else m
  }

  ghost predicate Distinct<V>(m: Map<V>) {
    forall i, j :: 0 <= i < j < |m| ==> m[i].key != m[j].key
  }

  lemma IndexIs<V>(m: Map<V>, i: nat)
    requires i < |m| && forall j :: 0 <= j < i ==> m[j].key != m[i].key
    ensures IndexOfKey(m, m[i].key) == i
  {
  }

  lemma HoldsAt<V>(m: Map<V>, i: nat, k: string)
    requires i < |m| && m[i].key == k
    ensures Holds(m, k)
  {
    hide IndexOfKey;
  }

  lemma DeleteKeepsDistinct<V>(m: Map<V>, k: string)
    requires Distinct(m)
    ensures Distinct(Delete(m, k)) && forall e :: e in Delete(m, k) ==> e.key != k
  {
    hide IndexOfKey;
  }

  /** Trimming keeps a suffix, and drops nothing that need not go. */
  lemma {:induction false} Trimmed<V>(m: Map<V>, bound: real)
    requires bound > 0.0
    ensures var r := Trim(m, bound);
      && |r| as real < bound && |r| <= |m| && r == m[|m| - |r|..]
      && (|m| as real < bound ==> r == m)
      && (|r| < |m| ==> (|r| + 1) as real >= bound)
  {
    if m != [] && |m| as real >= bound {
      Trimmed(m[1..], bound);
    }
  }

  lemma SetKeepsOthers<V>(m: Map<V>, h: nat, e: Entry<V>, k: string)
    requires h < |m| && e.key == m[h].key && k != e.key
    ensures Get(m[h := e], k) == Get(m, k)
  {
    hide IndexOfKey;
    var i := IndexOfKey(m, k);
    if i < |m| {
      IndexIs(m[h := e], i);
    } else {
      assert forall x :: x in m[h := e] ==> x.key != k;
    }
  }

  lemma ReinsertKeepsOthers<V>(m: Map<V>, e: Entry<V>, k: string)
    requires Distinct(m) && e.key != k
    ensures Get(Delete(m, e.key) + [e], k) == Get(m, k)
  {
    DeleteKeepsDistinct(m, e.key);
    hide IndexOfKey;
    var rest, i, h := Delete(m, e.key), IndexOfKey(m, k), IndexOfKey(m, e.key);
    if i < |m| {
      var at := if i < h then i else i - 1;
      assert rest[at] == m[i];
      assert (rest + [e])[at] == m[i];
      IndexIs(rest + [e], at);
    } else {
      assert forall x :: x in rest ==> x in m;
      assert forall x :: x in rest + [e] ==> x.key != k;
    }
  }

  /** Appending to a map with at most the front gone. */
  lemma SuffixKeeps<V>(m: Map<V>, suffix: Map<V>, e: Entry<V>, k: string)
    requires Distinct(m) && |m| - 1 <= |suffix| <= |m| && suffix == m[|m| - |suffix|..] && e.key != k
    ensures Get(suffix + [e], k) == Get(m, k) || (Get(suffix + [e], k).None? && suffix != m && m[0].key == k)
  {
    hide IndexOfKey;
    var after, i, d := suffix + [e], IndexOfKey(m, k), |m| - |suffix|;
    assert forall j :: 0 <= j < |suffix| ==> after[j] == m[j + d];
    if d <= i < |m| {
      IndexIs(after, i - d);
    } else {
      assert forall j :: 0 <= j < |after| ==> after[j].key != k;
    }
  }

  lemma SuffixLacks<V>(m: Map<V>, suffix: Map<V>, k: string)
    requires !Holds(m, k) && |suffix| <= |m| && suffix == m[|m| - |suffix|..]
    ensures Delete(suffix, k) == suffix
  {
    hide IndexOfKey;
    assert forall j :: 0 <= j < |suffix| ==> suffix[j] == m[j + |m| - |suffix|];
  }
}
