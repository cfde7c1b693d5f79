/** The string operations of JavaScript that the parsers use. */
module Strings {
  import opened Wrappers

  /** `s.indexOf(c)`, with |s| for -1. */
  function IndexOf(s: string, c: char): (i: nat)
    ensures i <= |s|
    ensures i < |s| ==> s[i] == c
    ensures forall j :: 0 <= j < i ==> s[j] != c
  {
    if s == "" then 0
    else if s[0] == c then 0
    else
      var k := IndexOf(s[1..], c);
      assert forall j :: 1 <= j < k + 1 ==> s[j] == s[1..][j - 1];
      k + 1
  }

  lemma IndexOfIs(s: string, c: char, i: nat)
    requires i <= |s| && (i < |s| ==> s[i] == c) && c !in s[..i]
    ensures IndexOf(s, c) == i
  {
    var k := IndexOf(s, c);
    assert forall j :: 0 <= j < i ==> s[j] == s[..i][j];
  }

  /** The first occurrence in a text put together at it. */
  lemma IndexAtJoin(head: string, rest: string, c: char)
    requires c !in head && (rest == "" || rest[0] == c)
    ensures IndexOf(head + rest, c) == |head|
    ensures (head + rest)[..|head|] == head && (head + rest)[|head|..] == rest
  {
    hide IndexOf;
    assert (head + rest)[..|head|] == head && (head + rest)[|head|..] == rest;
    IndexOfIs(head + rest, c, |head|);
  }

  lemma Regroup(a: string, b: string, c: string, d: string)
    ensures a + (b + c + d) == a + b + (c + d)
    ensures a + (b + c) + d == a + b + (c + d)
    ensures a + (b + (c + d)) == a + (b + c) + d
  {
  }

  /** `s.split(c)`. */
  function Split(s: string, c: char): (ps: seq<string>)
    ensures ps != [] && forall p :: p in ps ==> c !in p
  {
    var i := IndexOf(s, c);
    if i == |s| then [s] else [s[..i]] + Split(s[i + 1..], c)
  }

  /** `ps.join(c)`. */
  function Join(ps: seq<string>, c: char): string {
    if ps == [] then "" else if |ps| == 1 then ps[0] else ps[0] + [c] + Join(ps[1..], c)
  }

  lemma {:induction false} JoinSplit(s: string, c: char)
    ensures Join(Split(s, c), c) == s
  {
    hide IndexOf;
    var i := IndexOf(s, c);
    if i < |s| {
      JoinSplit(s[i + 1..], c);
      assert Split(s, c)[1..] == Split(s[i + 1..], c);
      assert s == s[..i] + [c] + s[i + 1..];
    }
  }

  lemma {:induction false} SplitJoin(ps: seq<string>, c: char)
    requires ps != [] && forall p :: p in ps ==> c !in p
    ensures Split(Join(ps, c), c) == ps
  {
    hide IndexOf;
    var s := Join(ps, c);
    assert ps[0] in ps;
    if |ps| == 1 {
      assert s[..|s|] == s;
      IndexOfIs(s, c, |s|);
    } else {
      assert forall p :: p in ps[1..] ==> p in ps;
      SplitJoin(ps[1..], c);
      assert s[..|ps[0]|] == ps[0];
      IndexOfIs(s, c, |ps[0]|);
      assert s[|ps[0]| + 1..] == Join(ps[1..], c);
      assert ps == [ps[0]] + ps[1..];
    }
  }

  /** `s.lastIndexOf(c)`. */
  function LastIndexOf(s: string, c: char): (r: Option<nat>)
    ensures r.Some? ==> r.value < |s| && s[r.value] == c && forall j :: r.value < j < |s| ==> s[j] != c
    ensures r.None? ==> c !in s
  {
    if s == "" then None
    else if s[|s| - 1] == c then Some(|s| - 1)
    else LastIndexOf(s[..|s| - 1], c)
  }

  lemma LastIndexOfIs(s: string, c: char, i: nat)
    requires i < |s| && s[i] == c && forall j :: i < j < |s| ==> s[j] != c
    ensures LastIndexOf(s, c) == Some(i)
  {
  }

  predicate OccursAt(s: string, t: string, i: nat) {
    i + |t| <= |s| && s[i..i + |t|] == t
  }

  /** `s.indexOf(t)` from an index on. */
  function FindText(s: string, t: string, from: nat): (r: Option<nat>)
    requires from <= |s|
    ensures r.Some? ==> from <= r.value && OccursAt(s, t, r.value) && forall j :: from <= j < r.value ==> !OccursAt(s, t, j)
    ensures r.None? ==> forall j :: from <= j <= |s| ==> !OccursAt(s, t, j)
    decreases |s| - from
  {
    if OccursAt(s, t, from) then Some(from) else if from == |s| then None else FindText(s, t, from + 1)
  }

  lemma OccurrenceChar(s: string, t: string, i: nat, k: nat)
    requires OccursAt(s, t, i) && k < |t|
    ensures s[i + k] == t[k]
  {
    assert s[i..i + |t|][k] == s[i + k];
  }

  /** A text whose first character does not occur before it is found where it stands. */
  lemma FindFirst(a: string, t: string, tail: string)
    requires t != "" && t[0] !in a
    ensures FindText(a + (t + tail), t, 0) == Some(|a|)
  {
    var s := a + (t + tail);
    assert s[|a|..|a| + |t|] == t;
    assert OccursAt(s, t, |a|);
    forall i | 0 <= i < |a| ensures !OccursAt(s, t, i) {
      assert s[i] == a[i] && a[i] in a;
      if OccursAt(s, t, i) { OccurrenceChar(s, t, i, 0); }
    }
  }

  predicate StartsWith(s: string, prefix: string) {
    prefix <= s
  }

  lemma PrefixChar(s: string, prefix: string, i: nat)
    requires StartsWith(s, prefix) && i < |prefix|
    ensures prefix[i] in s
  {
    assert s[i] == prefix[i];
  }

  lemma PrefixAndRest(s: string, prefix: string)
    requires StartsWith(s, prefix)
    ensures s == prefix + s[|prefix|..]
  {
  }

  lemma DropPrefix(prefix: string, s: string)
    ensures StartsWith(prefix + s, prefix) && (prefix + s)[|prefix|..] == s
  {
  }

  lemma SamePrefix(prefix: string, x: string, y: string)
    ensures prefix + x == prefix + y <==> x == y
  {
    DropPrefix(prefix, x);
    DropPrefix(prefix, y);
  }

  lemma SameSuffix(x: string, y: string, suffix: string, other: string)
    requires |suffix| == |other|
    ensures x + suffix == y + other <==> x == y && suffix == other
  {
    if x + suffix == y + other {
      assert (x + suffix)[..|x|] == x && (y + other)[..|y|] == y;
      assert (x + suffix)[|x|..] == suffix && (y + other)[|y|..] == other;
    }
  }

  predicate EndsWith(s: string, suffix: string) {
    |suffix| <= |s| && s[|s| - |suffix|..] == suffix
  }

  /** `s.replaceAll(a, b)` for single characters. */
  function ReplaceAll(s: string, a: char, b: char): (r: string)
    ensures |r| == |s| && forall i :: 0 <= i < |s| ==> r[i] == if s[i] == a then b else s[i]
  {
    seq(|s|, i requires 0 <= i < |s| => if s[i] == a then b else s[i])
  }
}
