/** The did:scid reference helpers (src/did-scid.js). */
module DidScid {
  import opened Wrappers
  import opened Strings

  const PREFIX := "did:scid:"

  /** A reference taken apart at its `src` query: what stands before, the source, the fragment with its `#`. */
  datatype Parts = Parts(did: string, src: string, fragment: string)

  /** From the first `?`: a query whose only parameter is a non-empty `src`, then the fragment. */
  function SplitQuery(s: string): Option<Parts> {
    var q := IndexOf(s, '?');
    if q == |s| then None
    else
      var rest := s[q + 1..];
      var hash := IndexOf(rest, '#');
      var query := rest[..hash];
      if !StartsWith(query, "src=") then None
      else if query[4..] == "" || '&' in query[4..] then None
      else Some(Parts(s[..q], query[4..], rest[hash..]))
  }

  function SplitSrc(didUrl: string): Option<Parts> {
    if StartsWith(didUrl, PREFIX) then SplitQuery(didUrl) else None
  }

  function StripScidSrc(didUrl: string): string {
    match SplitSrc(didUrl)
    case Some(p) => p.did + p.fragment
    case None => didUrl
  }

  function ScidSrc(didUrl: string): Option<string> {
    match SplitSrc(didUrl)
    case Some(p) => Some(p.src)
    case None => None
  }

  /** A did:scid reference with neither query nor path. */
  predicate IsBare(reference: string) {
    StartsWith(reference, PREFIX) && '?' !in reference && '/' !in reference
  }

  function WithScidSrc(reference: string, src: string): string {
    if !IsBare(reference) then reference
    else
      var hash := IndexOf(reference, '#');
      reference[..hash] + "?src=" + src + reference[hash..]
  }

  predicate SameReference(a: string, b: string) {
    a == b || StripScidSrc(a) == StripScidSrc(b)
  }

  /** `reference.split("#")[0]`. */
  function BeforeHash(reference: string): (r: string)
    ensures '#' !in r && r <= reference
    ensures |r| < |reference| ==> reference[|r|] == '#'
    ensures '#' !in reference ==> r == reference
  {
    reference[..IndexOf(reference, '#')]
  }

  function ScidIdentity(reference: string): string {
    StripScidSrc(BeforeHash(reference))
  }

  // ----- giving and taking a source

  predicate IsSource(s: string) {
    s != "" && '&' !in s && '#' !in s
  }

  /** The query of `b?src=s` followed by a fragment. */
  lemma SplitQueryOf(b: string, s: string, f: string)
    requires '?' !in b && (f == "" || f[0] == '#')
    ensures var u := b + "?src=" + s + f; var src := BeforeHash(s);
      SplitQuery(u) ==
      if src == "" || '&' in src then None else Some(Parts(b, src, s[|src|..] + f))
  {
    hide IndexOf;
    var src, t := BeforeHash(s), s[|BeforeHash(s)|..];
    var head, rest := "src=" + src, t + f;
    assert s == src + t;
    SourcedText(b, s, f);
    var u := b + ['?'] + ("src=" + (s + f));
    assert "src=" + (src + t + f) == head + rest by { Regroup("src=", src, t, f); }
    assert u[..|b|] == b && u[|b| + 1..] == head + rest;
    IndexOfIs(u, '?', |b|);
    assert (head + rest)[..|head|] == head && (head + rest)[|head|..] == rest;
    IndexOfIs(head + rest, '#', |head|);
    assert head[4..] == src && head[..4] == "src=";
  }

  lemma SourcedText(b: string, s: string, f: string)
    ensures b + "?src=" + s + f == b + ['?'] + ("src=" + (s + f))
  {
    hide *;
    var x, y := b + "?src=" + s + f, b + ['?'] + ("src=" + (s + f));
    forall i | 0 <= i < |x| ensures x[i] == y[i] {
      if |b| < i < |b| + 5 { assert x[i] == "?src="[i - |b|]; }
    }
  }

  lemma Grouped(a: string, b: string, c: string)
    ensures a + b + c == a + (b + c)
  {
  }

  /** Giving a bare reference a source and removing it again restores the reference, exactly for proper sources. */
  lemma SrcRoundTrip(r: string, s: string)
    requires IsBare(r)
    ensures StripScidSrc(WithScidSrc(r, s)) == r && ScidSrc(WithScidSrc(r, s)) == Some(s) <==> IsSource(s)
  {
    var b, f := BeforeHash(r), r[IndexOf(r, '#')..];
    var w := WithScidSrc(r, s);
    assert w == b + "?src=" + s + f && b + f == r;
    assert StartsWith(w, PREFIX) by { PrefixBefore(r); }
    SplitQueryOf(b, s, f);
    if '#' !in s { assert s[|s|..] + f == f; }
  }

  lemma PrefixIsPlain(s: string, i: nat)
    requires StartsWith(s, PREFIX) && i < |s| && (s[i] == '#' || s[i] == '?')
    ensures i >= |PREFIX|
  {
  }

  /** The prefix stands before any fragment. */
  lemma PrefixBefore(r: string)
    ensures StartsWith(r, PREFIX) <==> StartsWith(BeforeHash(r), PREFIX)
  {
    var h := IndexOf(r, '#');
    if StartsWith(r, PREFIX) && h < |r| { PrefixIsPlain(r, h); }
  }

  // ----- identities

  /** Nothing to strip without a query. */
  lemma NothingToStrip(s: string)
    requires '?' !in s
    ensures StripScidSrc(s) == s
  {
  }

  lemma QueryCuts(s: string) returns (b: string, query: string, f: string)
    requires SplitQuery(s).Some?
    ensures "src=" <= query && SplitQuery(s) == Some(Parts(b, query[4..], f))
    ensures s == b + ['?'] + (query + f) && '?' !in b && IsSource(query[4..])
    ensures f == "" || f[0] == '#'
  {
    hide IndexOf;
    b, f := SplitQuery(s).value.did, SplitQuery(s).value.fragment;
    var rest := s[|b| + 1..];
    query := rest[..IndexOf(rest, '#')];
    assert rest == query + f;
    assert s == b + ['?'] + rest;
  }

  lemma QueryParts(s: string) returns (b: string, src: string, f: string)
    requires SplitQuery(s).Some?
    ensures SplitQuery(s) == Some(Parts(b, src, f))
    ensures s == b + "?src=" + src + f && '?' !in b && IsSource(src)
    ensures f == "" || f[0] == '#'
  {
    var query: string;
    b, query, f := QueryCuts(s);
    hide *;
    src := query[4..];
    assert StartsWith(query, "src=");
    PrefixAndRest(query, "src=");
    Grouped("src=", src, f);
    SourcedText(b, src, f);
  }

  /** What stripping leaves is before the query and after it. */
  lemma Stripped(s: string) returns (b: string, src: string, f: string)
    requires SplitSrc(s).Some?
    ensures SplitSrc(s) == Some(Parts(b, src, f))
    ensures s == b + "?src=" + src + f && '?' !in b && IsSource(src)
    ensures f == "" || f[0] == '#'
    ensures StartsWith(b, PREFIX)
  {
    b, src, f := QueryParts(s);
    hide SplitQuery, IsSource;
    assert s[|b|] == '?';
    PrefixIsPlain(s, |b|);
    assert b == s[..|b|];
  }

  lemma HashIsInside(b: string, src: string, f: string)
    requires f != "" && f[0] == '#'
    ensures '#' in b + "?src=" + src + f
  {
    assert (b + "?src=" + src + f)[|b| + 5 + |src|] == '#';
  }

  lemma IdentityIsBare(r: string)
    ensures '#' !in ScidIdentity(r) && SplitSrc(ScidIdentity(r)).None?
  {
    var b := BeforeHash(r);
    if SplitSrc(b).Some? {
      var did, src, f := Stripped(b);
      if f != "" { HashIsInside(did, src, f); }
      assert did + f == did;
    }
  }

  /** Taking the identity twice changes nothing. */
  lemma IdentityIsIdempotent(r: string)
    ensures ScidIdentity(ScidIdentity(r)) == ScidIdentity(r)
  {
    IdentityIsBare(r);
  }

  /** A source without a fragment of its own, removed again. */
  lemma StripSourced(b: string, s: string)
    requires StartsWith(b, PREFIX) && '?' !in b && '#' !in s
    ensures var u := b + "?src=" + s; StripScidSrc(u) == if IsSource(s) then b else u
  {
    hide SplitQuery, IndexOf;
    var u := b + "?src=" + s;
    SplitQueryOf(b, s, "");
    assert u + "" == u && s[|s|..] + "" == "" && b + "" == b;
    assert StartsWith(u, PREFIX);
  }

  lemma SourcedHasNoHash(b: string, src: string)
    requires '#' !in b && '#' !in src
    ensures '#' !in b + "?src=" + src
  {
    assert '#' !in "?src=";
  }

  lemma WithScidSrcText(r: string, s: string)
    requires IsBare(r)
    ensures WithScidSrc(r, s) == BeforeHash(r) + "?src=" + s + r[|BeforeHash(r)|..]
  {
    hide IndexOf, IsBare;
  }

  lemma BeforeHashOfSourced(r: string, s: string)
    requires IsBare(r)
    ensures BeforeHash(WithScidSrc(r, s)) == BeforeHash(r) + "?src=" + BeforeHash(s)
  {
    hide *;
    WithScidSrcText(r, s);
    var b, src, w := BeforeHash(r), BeforeHash(s), WithScidSrc(r, s);
    var f, t := r[|b|..], s[|src|..];
    assert s == src + t;
    Regroup(b + "?src=", src, t, f);
    SourcedHasNoHash(b, src);
    assert t + f == "" || (t + f)[0] == '#' by {
      if t == "" { assert t + f == f; } else { assert (t + f)[0] == t[0]; }
    }
    BeforeHashOf(b + "?src=" + src, t + f, w);
  }

  /** A bare reference keeps its identity under a source, exactly when the part before any `#` is one. */
  lemma IdentityUnderSource(r: string, s: string)
    requires IsBare(r)
    ensures ScidIdentity(WithScidSrc(r, s)) == ScidIdentity(r) <==> IsSource(BeforeHash(s))
  {
    var b, src := BeforeHash(r), BeforeHash(s);
    PrefixBefore(r);
    NothingToStrip(b);
    hide StripScidSrc, WithScidSrc, BeforeHash;
    BeforeHashOfSourced(r, s);
    StripSourced(b, src);
  }

  lemma BeforeHashOf(head: string, tail: string, whole: string)
    requires '#' !in head && whole == head + tail && (tail == "" || tail[0] == '#')
    ensures BeforeHash(whole) == head
  {
    hide IndexOf;
    assert whole[..|head|] == head;
    IndexOfIs(whole, '#', |head|);
  }

  lemma BeforeFirstHash(b: string, x: string)
    requires '#' in b
    ensures BeforeHash(b + x) == BeforeHash(b)
  {
    hide IndexOf;
    var i := IndexOf(b, '#');
    assert (b + x)[..i] == b[..i];
    IndexOfIs(b + x, '#', i);
  }

  lemma IdentityOfParts(b: string, src: string, f: string)
    requires StartsWith(b, PREFIX) && '?' !in b && IsSource(src) && (f == "" || f[0] == '#')
    ensures ScidIdentity(b + f) == ScidIdentity(b + "?src=" + src + f)
  {
    NothingToStrip(b);
    hide IndexOf, SplitSrc, StripScidSrc, BeforeHash;
    if '#' in b {
      BeforeFirstHash(b, f);
      BeforeFirstHash(b, "?src=" + (src + f));
      assert b + ("?src=" + (src + f)) == b + "?src=" + src + f;
    } else {
      BeforeHashOf(b, f, b + f);
      BeforeHashOf(b + "?src=" + src, f, b + "?src=" + src + f);
      StripSourced(b, src);
    }
  }

  /** Removing the source of a reference does not change what it identifies. */
  lemma StripKeepsIdentity(r: string)
    ensures ScidIdentity(StripScidSrc(r)) == ScidIdentity(r)
  {
    hide SplitQuery, BeforeHash;
    if SplitSrc(r).Some? {
      var b, src, f := Stripped(r);
      IdentityOfParts(b, src, f);
    }
  }

  /** References that name the same thing have the same identity. */
  lemma SameReferenceSameIdentity(a: string, b: string)
    requires SameReference(a, b)
    ensures ScidIdentity(a) == ScidIdentity(b)
  {
    StripKeepsIdentity(a);
    StripKeepsIdentity(b);
  }

  /** A did:scid with the single query parameter `src`, and perhaps a fragment. */
  predicate HasSource(r: string, b: string, src: string, f: string) {
    && r == b + "?src=" + src + f
    && "did:scid:" <= b && '?' !in b
    && src != "" && '&' !in src && '#' !in src
    && (f == "" || f[0] == '#')
  }

  /** Exactly which references lose a source, which one, and what is left; all others stay as they are. */
  lemma StripExactly(r: string, b: string, src: string, f: string)
    ensures HasSource(r, b, src, f) <==> SplitSrc(r) == Some(Parts(b, src, f))
    ensures HasSource(r, b, src, f) ==> StripScidSrc(r) == b + f && ScidSrc(r) == Some(src)
    ensures StripScidSrc(r) != r || ScidSrc(r).Some? ==> exists b', src', f' :: HasSource(r, b', src', f')
  {
    if SplitSrc(r).Some? {
      var b', src', f' := Stripped(r);
      assert HasSource(r, b', src', f');
    }
    if HasSource(r, b, src, f) {
      PlainSource(b, src, f);
      assert StartsWith(r, PREFIX);
    }
    hide SplitQuery;
  }

  /** A source goes in front of the fragment of a did:scid with neither query nor path; anything else stays as it is. */
  lemma WithSrcExactly(h: string, f: string, src: string)
    requires '#' !in h && (f == "" || f[0] == '#')
    ensures WithScidSrc(h + f, src) ==
      if "did:scid:" <= h + f && '?' !in h + f && '/' !in h + f then h + "?src=" + src + f else h + f
  {
    hide IndexOf;
    IndexAtJoin(h, f, '#');
  }

  /** References are the same exactly when they are without their sources, so whatever source they carry. */
  lemma SameReferenceExactly(a: string, b: string)
    ensures SameReference(a, b) <==> StripScidSrc(a) == StripScidSrc(b)
    ensures IsBare(a) && IsSource(b) ==> SameReference(WithScidSrc(a, b), a)
  {
    if IsBare(a) && IsSource(b) {
      SrcRoundTrip(a, b);
      NothingToStrip(a);
    }
    hide StripScidSrc, WithScidSrc;
  }

  /** The identity is that of what stands before the fragment. */
  lemma IdentityDropsFragment(h: string, f: string)
    requires '#' !in h && (f == "" || f[0] == '#')
    ensures ScidIdentity(h + f) == StripScidSrc(h)
  {
    BeforeHashOf(h, f, h + f);
  }

  // ----- stripping twice

  /** Stripping is idempotent on a reference exactly when its fragment is not itself a `src` query. */
  lemma StripTwice(r: string)
    ensures StripScidSrc(StripScidSrc(r)) == StripScidSrc(r) <==>
            (SplitSrc(r).Some? ==> SplitQuery(SplitSrc(r).value.fragment).None?)
  {
    if SplitSrc(r).Some? {
      var b, src, f := Stripped(r);
      assert StripScidSrc(r) == b + f && StartsWith(b + f, PREFIX);
      hide SplitQuery, IsSource;
      SplitQueryBehind(b, f);
      if SplitQuery(f).Some? { QueryIsShorter(f); }
    }
  }

  lemma QueryIsShorter(s: string)
    requires SplitQuery(s).Some?
    ensures |SplitQuery(s).value.did| + |SplitQuery(s).value.fragment| < |s|
  {
  }

  /** Text without `?` in front moves the query along. */
  lemma SplitQueryBehind(b: string, s: string)
    requires '?' !in b
    ensures SplitQuery(b + s) ==
            match SplitQuery(s) case None => None case Some(p) => Some(Parts(b + p.did, p.src, p.fragment))
  {
    hide IndexOf;
    var q := IndexOf(s, '?');
    var u := b + s;
    assert u[..|b| + q] == b + s[..q];
    IndexOfIs(u, '?', |b| + q);
    if q < |s| { assert u[|b| + q + 1..] == s[q + 1..]; }
  }

  /** A fragment that is a `src` query is stripped in turn: one more strip takes `b#?src=y` to `b#`. */
  lemma StripIsNotIdempotent(b: string, x: string, y: string)
    requires IsBare(b) && '#' !in b && IsSource(x) && IsSource(y)
    ensures var r := b + "?src=" + x + ("#" + "?src=" + y);
      && StripScidSrc(r) == b + ("#" + "?src=" + y)
      && StripScidSrc(StripScidSrc(r)) == b + "#"
  {
    var f := "#" + "?src=" + y;
    var r := b + "?src=" + x + f;
    PlainSource(b, x, f);
    PlainSource("#", y, "");
    assert f + "" == f && "#" + "" == "#" && StartsWith(r, PREFIX) && StartsWith(b + f, PREFIX);
    hide SplitQuery, IsBare, IsSource, StartsWith;
    SplitQueryBehind(b, f);
    assert b + "#" + "" == b + "#";
  }

  lemma PlainSource(b: string, s: string, f: string)
    requires '?' !in b && (f == "" || f[0] == '#') && IsSource(s)
    ensures SplitQuery(b + "?src=" + s + f) == Some(Parts(b, s, f))
  {
    hide SplitQuery;
    SplitQueryOf(b, s, f);
    assert s[|s|..] + f == f;
  }
}
