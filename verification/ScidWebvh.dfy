/** The two conversions between did:scid:vh:1 and did:webvh (src/did-scid.js). */
module ScidWebvh {
  import opened Wrappers
  import opened Strings
  import P = Positional

  const VH_PREFIX := "did:scid:vh:1:"
  const WEBVH_PREFIX := "did:webvh:"

  predicate FirstIs(s: string, c: char) {
    s != "" && s[0] == c
  }

  // ----- did:scid to did:webvh

  function WithoutScheme(src: string): string {
    if StartsWith(src, "https://") then src[8..]
    else if StartsWith(src, "http://") then src[7..]
    else src
  }

  /** `s.replace(/\/+$/, "")`. */
  function StripSlashes(s: string): (r: string)
    ensures |r| <= |s|
    ensures r == s <==> s == "" || s[|s| - 1] != '/'
  {
    if s != "" && s[|s| - 1] == '/' then StripSlashes(s[..|s| - 1]) else s
  }

  function DecimalValue(s: string): nat
    requires AreDecimal(s)
  {
    if s == "" then 0 else DecimalValue(s[..|s| - 1]) * 10 + (s[|s| - 1] as int - '0' as int)
  }

  /** Without an optional `+`. */
  function Unsigned(port: string): string {
    if port != "" && port[0] == '+' then port[1..] else port
  }

  predicate AreDecimal(s: string) {
    forall i :: 0 <= i < |s| ==> '0' <= s[i] <= '9'
  }

  /** An optional `+`, then digits, of value at most 65535. */
  predicate IsPort(port: string) {
    var digits := Unsigned(port);
    && digits != ""
    && AreDecimal(digits)
    && DecimalValue(digits) <= 65535
  }

  function EncodePort(host: string): Option<string> {
    var colon := IndexOf(host, ':');
    if colon == |host| then Some(host)
    else if !IsPort(host[colon + 1..]) then None
    else Some(host[..colon] + "%3A" + host[colon + 1..])
  }

  /** Host and path between colons; the host must be there and the path must have no empty segment. */
  function JoinLocation(host: string, path: string): Option<string> {
    if host == "" || FirstIs(host, '%') then None
    else if path == "" then Some(host)
    else if "" in Split(path, '/') then None
    else Some(host + [':'] + ReplaceAll(path, '/', ':'))
  }

  /** The host and path of a `src`, in did:webvh form. */
  function LocationOf(source: string): Option<string> {
    var src := StripSlashes(WithoutScheme(source));
    var slash := IndexOf(src, '/');
    match EncodePort(src[..slash])
    case None => None
    case Some(host) => JoinLocation(host, if slash == |src| then "" else StripSlashes(src[slash + 1..]))
  }

  function WebvhOf(id: string): Option<string> {
    if !StartsWith(id, VH_PREFIX) then None
    else
      match Converted(id[|VH_PREFIX|..])
      case None => None
      case Some(rest) => Some(WEBVH_PREFIX + rest)
  }

  /** What follows `did:webvh:`, from what follows `did:scid:vh:1:`. */
  function Converted(rest: string): Option<string> {
    var hash := IndexOf(rest, '#');
    match WebvhBody(rest[..hash])
    case None => None
    case Some(body) => Some(body + rest[hash..])
  }

  /** The same without the fragment. */
  function WebvhBody(rest: string): Option<string> {
    match FindText(rest, "?src=", 0)
    case None => None
    case Some(marker) =>
      var scid, src := rest[..marker], rest[marker + 5..];
      if scid == "" || ':' in scid || '/' in scid || '?' in scid || '&' in src || '?' in src then None
      else
        match LocationOf(src)
        case None => None
        case Some(location) => Some(scid + [':'] + location)
  }

  method ScidToWebvhDid(id: string) returns (webvh: Option<string>)
    ensures webvh == WebvhOf(id)
  {
    hide Converted;
    if !StartsWith(id, VH_PREFIX) { return None; }
    var rest := ConvertRest(id[|VH_PREFIX|..]);
    if rest.None? { return None; }
    return Some(WEBVH_PREFIX + rest.value);
  }

  method ConvertRest(whole: string) returns (webvh: Option<string>)
    ensures webvh == Converted(whole)
  {
    hide WebvhBody, IndexOf;
    var rest := whole;
    var fragment: Option<string> := None;
    var hash := IndexOf(rest, '#');
    if hash < |rest| {
      fragment := Some(rest[hash + 1..]);
      rest := rest[..hash];
    }
    assert rest == whole[..hash];
    var body := ConvertMain(rest);
    if body.None? { return None; }
    webvh := body;
    if fragment.Some? {
      assert whole[hash..] == ['#'] + fragment.value;
      webvh := Some(webvh.value + (['#'] + fragment.value));
    } else {
      assert webvh.value + whole[hash..] == webvh.value;
    }
  }

  method ConvertMain(rest: string) returns (body: Option<string>)
    ensures body == WebvhBody(rest)
  {
    hide LocationOf, FindText;
    var marker := FindText(rest, "?src=", 0);
    if marker.None? { return None; }
    var scid := rest[..marker.value];
    var src := rest[marker.value + 5..];
    if scid == "" || ':' in scid || '/' in scid || '?' in scid || '&' in src || '?' in src { return None; }
    var location := SourceLocation(src);
    if location.None? { return None; }
    return Some(scid + [':'] + location.value);
  }

  method SourceLocation(source: string) returns (location: Option<string>)
    ensures location == LocationOf(source)
  {
    hide EncodePort, IndexOf, StripSlashes, IsPort, Split, FirstIs;
    var src := source;
    if StartsWith(src, "https://") {
      src := src[8..];
    } else if StartsWith(src, "http://") {
      src := src[7..];
    }
    src := StripSlashes(src);
    var slash := IndexOf(src, '/');
    var host := src[..slash];
    var path := "";
    if slash < |src| { path := StripSlashes(src[slash + 1..]); }
    var encoded := HostWithPort(host);
    if encoded.None? { return None; }
    host := encoded.value;
    if host == "" || FirstIs(host, '%') { return None; }
    if path != "" {
      if "" in Split(path, '/') { return None; }
      return Some(host + [':'] + ReplaceAll(path, '/', ':'));
    }
    return Some(host);
  }

  method HostWithPort(source: string) returns (host: Option<string>)
    ensures host == EncodePort(source)
  {
    var colon := IndexOf(source, ':');
    if colon == |source| { return Some(source); }
    var port := source[colon + 1..];
    if !IsPort(port) { return None; }
    return Some(source[..colon] + "%3A" + port);
  }

  // ----- did:webvh to did:scid

  function ScidUrlOf(webvhDid: string): Option<string> {
    if !StartsWith(webvhDid, WEBVH_PREFIX) then None
    else
      var rest := webvhDid[|WEBVH_PREFIX|..];
      var colon := IndexOf(rest, ':');
      if colon == |rest| then None
      else Some(VH_PREFIX + (rest[..colon] + ("?src=" + Slashed(rest[colon + 1..]))))
  }

  function Slashed(s: string): (r: string)
    ensures |r| == |s| && ':' !in r
  {
    ReplaceAll(s, ':', '/')
  }

  // ----- the round trip

  predicate IsSegment(p: string) {
    p != "" && '/' !in p && '?' !in p && '&' !in p
  }

  /** Host and path, the segments between colons. */
  predicate IsLocation(location: string) {
    (forall p :: p in Split(location, ':') ==> IsSegment(p)) && !FirstIs(location, '%')
  }

  /** The did:webvh DIDs and DID URLs that survive the trip to did:scid and back. */
  predicate Convertible(d: string) {
    && StartsWith(d, WEBVH_PREFIX)
    && var rest := d[|WEBVH_PREFIX|..];
      var colon := IndexOf(rest, ':');
      && colon < |rest|
      && IsScid(rest[..colon])
      && Survives(rest[colon + 1..])
  }

  predicate IsScid(scid: string) {
    scid != "" && '/' !in scid && '?' !in scid && '#' !in scid
  }

  predicate Survives(tail: string) {
    var hash := IndexOf(tail, '#');
    && IsLocation(tail[..hash])
    && ':' !in tail[hash..]
  }

  lemma SlashedBack(s: string)
    requires '/' !in s
    ensures ReplaceAll(Slashed(s), '/', ':') == s
  {
  }

  lemma IndexOfSlashed(s: string)
    requires '/' !in s
    ensures IndexOf(Slashed(s), '/') == IndexOf(s, ':')
  {
    hide IndexOf;
    var i := IndexOf(s, ':');
    assert forall j :: 0 <= j < i ==> Slashed(s)[j] != '/';
    IndexOfIs(Slashed(s), '/', i);
  }

  lemma {:induction false} SplitSlashed(s: string)
    requires '/' !in s
    ensures Split(Slashed(s), '/') == Split(s, ':')
  {
    IndexOfSlashed(s);
    var i := IndexOf(s, ':');
    if i < |s| {
      SplitSlashed(s[i + 1..]);
      assert Slashed(s)[..i] == s[..i];
      assert Slashed(s)[i + 1..] == Slashed(s[i + 1..]);
    } else {
      assert Slashed(s) == s;
    }
  }

  lemma {:induction false} EmptyLastPiece(s: string)
    requires s == "" || s[|s| - 1] == ':'
    ensures "" in Split(s, ':')
  {
    var i := IndexOf(s, ':');
    if i < |s| {
      EmptyLastPiece(s[i + 1..]);
    }
  }

  lemma LocationHasNoSlash(source: string)
    requires LocationOf(source).Some?
    ensures '/' !in LocationOf(source).value
  {
    hide IsPort, StripSlashes, Split;
    var src := StripSlashes(WithoutScheme(source));
    var slash := IndexOf(src, '/');
    EncodedPortHasNoSlash(src[..slash]);
  }

  lemma EncodedPortHasNoSlash(host: string)
    requires '/' !in host && EncodePort(host).Some?
    ensures '/' !in EncodePort(host).value
  {
    assert '/' !in "%3A";
  }

  /** Without a colon there is neither scheme nor port. */
  lemma PlainHost(src: string)
    requires ':' !in src
    ensures WithoutScheme(src) == src && EncodePort(src) == Some(src)
  {
    if StartsWith(src, "https://") { PrefixChar(src, "https://", 5); }
    if StartsWith(src, "http://") { PrefixChar(src, "http://", 4); }
  }

  /** `LocationOf` on a source without colons. */
  lemma PlainLocation(src: string)
    requires ':' !in src && (src == "" || src[|src| - 1] != '/')
    ensures var slash := IndexOf(src, '/');
      LocationOf(src) == JoinLocation(src[..slash], if slash == |src| then "" else src[slash + 1..])
    ensures var slash := IndexOf(src, '/'); slash < |src| ==> src[slash + 1..] != ""
  {
    hide IsPort, EncodePort, IndexOf, WithoutScheme, JoinLocation, StripSlashes;
    PlainHost(src);
    var slash := IndexOf(src, '/');
    PlainHost(src[..slash]);
    if slash < |src| {
      var p := src[slash + 1..];
      assert p != "" && p[|p| - 1] == src[|src| - 1];
    }
  }

  /** Trailing slashes only make the location shorter. */
  lemma LocationIsShorter(src: string)
    requires ':' !in src && src != "" && src[|src| - 1] == '/'
    ensures LocationOf(src).Some? ==> |LocationOf(src).value| < |src|
  {
    hide IsPort, Split, EncodePort, IndexOf, WithoutScheme;
    PlainHost(src);
    var cut := StripSlashes(src);
    assert ':' !in cut by { StrippedChars(src); }
    PlainHost(cut[..IndexOf(cut, '/')]);
  }

  lemma {:induction false} StrippedChars(s: string)
    ensures StripSlashes(s) <= s
  {
    if s != "" && s[|s| - 1] == '/' { StrippedChars(s[..|s| - 1]); }
  }

  // ----- what a `src` may carry

  /** A scheme in front and slashes behind change nothing. */
  lemma SchemeAndSlashIgnored(src: string)
    requires WithoutScheme(src) == src
    ensures LocationOf("https://" + src) == LocationOf(src) == LocationOf("http://" + src)
    ensures WithoutScheme(src + "/") == src + "/" ==> LocationOf(src + "/") == LocationOf(src)
  {
    hide StripSlashes, EncodePort, JoinLocation, IndexOf;
    DropPrefix("https://", src);
    DropPrefix("http://", src);
    var u := "http://" + src;
    assert u[4] == "http://"[4] == ':' && "https://"[4] == 's';
    assert WithoutScheme(u) == src;
    SlashStripped(src);
  }

  lemma SlashStripped(s: string)
    ensures StripSlashes(s + "/") == StripSlashes(s)
  {
    var u := s + "/";
    assert u[..|u| - 1] == s;
  }

  /** The decimal spelling of a digit string. */
  function DecimalText(ds: seq<int>): (s: string)
    requires P.AreDigits(ds, 10)
    ensures |s| == |ds| && forall i :: 0 <= i < |s| ==> s[i] == '0' + ds[i] as char
  {
    seq(|ds|, i requires 0 <= i < |ds| => '0' + ds[i] as char)
  }

  /** `port` is a decimal numeral up to 65535, perhaps with a plus sign and leading zeros. */
  ghost predicate IsNumeral(port: string, ds: seq<int>) {
    && ds != [] && P.AreDigits(ds, 10) && P.BigEnd(ds, 10) <= 65535
    && (port == DecimalText(ds) || port == "+" + DecimalText(ds))
  }

  lemma {:induction false} DecimalValueIs(ds: seq<int>)
    requires P.AreDigits(ds, 10)
    ensures DecimalValue(DecimalText(ds)) == P.BigEnd(ds, 10)
  {
    if ds != [] {
      DecimalValueIs(ds[..|ds| - 1]);
      assert DecimalText(ds)[..|ds| - 1] == DecimalText(ds[..|ds| - 1]);
    }
  }

  lemma DigitsOf(digits: string) returns (ds: seq<int>)
    requires AreDecimal(digits)
    ensures P.AreDigits(ds, 10) && DecimalText(ds) == digits
  {
    ds := seq(|digits|, i requires 0 <= i < |digits| => digits[i] as int - '0' as int);
    assert forall i :: 0 <= i < |ds| ==> ds[i] == digits[i] as int - '0' as int;
  }

  /** A port is exactly such a numeral. */
  lemma PortExactly(port: string)
    ensures IsPort(port) <==> exists ds :: IsNumeral(port, ds)
  {
    hide DecimalValue, P.BigEnd;
    if IsPort(port) {
      var digits := Unsigned(port);
      var ds := DigitsOf(digits);
      DecimalValueIs(ds);
      assert IsNumeral(port, ds);
    }
    if ds :| IsNumeral(port, ds) {
      DecimalValueIs(ds);
      assert DecimalText(ds)[0] != '+';
      assert port == "+" + DecimalText(ds) ==> port[1..] == DecimalText(ds);
    }
  }

  /** A literal `:` before a port is encoded, and anything after it that is no port is refused. */
  lemma PortIsEncoded(host: string, port: string)
    requires host != "" && !FirstIs(host, '%') && ':' !in host && '/' !in host && '/' !in port
    ensures (exists ds :: IsNumeral(port, ds)) ==> LocationOf(host + [':'] + port) == Some(host + "%3A" + port)
    ensures !(exists ds :: IsNumeral(port, ds)) ==> LocationOf(host + [':'] + port) == None
  {
    PortExactly(port);
    hide IsPort, IndexOf, Split, IsNumeral;
    var src := host + [':'] + port;
    NoSchemeBeforePort(host, port);
    assert src[|src| - 1] != '/';
    IndexOfIs(src, '/', |src|);
    assert src[..|src|] == src;
    EncodedHost(host, port);
  }

  /** The same in front of a path. */
  lemma PortIsEncodedBeforePath(host: string, port: string, path: string)
    requires host != "" && !FirstIs(host, '%') && ':' !in host && '/' !in host && port != "" && '/' !in port
    requires path != "" && path[|path| - 1] != '/'
    ensures LocationOf(host + [':'] + (port + ['/'] + path)) ==
      if IsPort(port) && "" !in Split(path, '/') then Some(host + "%3A" + port + [':'] + ReplaceAll(path, '/', ':')) else None
  {
    hide IsPort, IndexOf, Split, EncodePort, LocationOf, WithoutScheme;
    var front, src := host + [':'] + port, host + [':'] + (port + ['/'] + path);
    NoSchemeBeforePort(host, port + ['/'] + path);
    assert src == front + (['/'] + path);
    LocationAt(front, path);
    EncodedHost(host, port);
    assert FirstIs(host + "%3A" + port, '%') <==> FirstIs(host, '%');
  }

  lemma LocationAt(front: string, path: string)
    requires '/' !in front && path != "" && path[|path| - 1] != '/'
    requires WithoutScheme(front + (['/'] + path)) == front + (['/'] + path)
    ensures LocationOf(front + (['/'] + path)) ==
      match EncodePort(front) case None => None case Some(host) => JoinLocation(host, path)
  {
    hide IsPort, IndexOf, Split, EncodePort, JoinLocation, WithoutScheme;
    var src := front + (['/'] + path);
    assert src[|src| - 1] == path[|path| - 1];
    IndexAtJoin(front, ['/'] + path, '/');
    assert src[|front| + 1..] == path;
  }

  /** A scheme has its first colon in front of a slash, and a port has none there. */
  lemma NoSchemeBeforePort(host: string, rest: string)
    requires ':' !in host && (rest == "" || rest[0] != '/')
    ensures WithoutScheme(host + [':'] + rest) == host + [':'] + rest
  {
    var src := host + [':'] + rest;
    assert forall i :: 0 <= i < |host| ==> src[i] == host[i];
    assert src[|host|] == ':' && (rest != "" ==> src[|host| + 1] == rest[0]);
    if StartsWith(src, "https://") {
      SchemeColon(src, "https://", 5);
    } else if StartsWith(src, "http://") {
      SchemeColon(src, "http://", 4);
    }
  }

  lemma SchemeColon(src: string, scheme: string, k: nat)
    requires StartsWith(src, scheme) && |scheme| == k + 3 && scheme[k] == ':' && scheme[k + 1] == '/'
    requires forall i :: 0 <= i < k ==> scheme[i] != ':'
    ensures |src| > k + 1 && src[k] == ':' && src[k + 1] == '/' && forall i :: 0 <= i < k ==> src[i] != ':'
  {
    assert forall i :: 0 <= i < |scheme| ==> src[i] == scheme[i];
  }

  lemma EncodedHost(host: string, port: string)
    requires ':' !in host
    ensures EncodePort(host + [':'] + port) == if IsPort(port) then Some(host + "%3A" + port) else None
  {
    hide IsPort, IndexOf;
    var src := host + [':'] + port;
    IndexAtJoin(host, [':'] + port, ':');
    assert host + ([':'] + port) == src;
    assert src[|host| + 1..] == port;
  }

  predicate IsPlainLocation(location: string) {
    '/' !in location && "" !in Split(location, ':') && !FirstIs(location, '%')
  }

  /** A location survives slashes and back exactly when it has non-empty segments free of `/`, the first not with `%`. */
  lemma LocationRoundTrip(location: string)
    ensures LocationOf(Slashed(location)) == Some(location) <==> IsPlainLocation(location)
  {
    var src := Slashed(location);
    if '/' in location {
      if LocationOf(src).Some? { LocationHasNoSlash(src); }
    } else if location != "" && location[|location| - 1] == ':' {
      hide LocationOf;
      EmptyLastPiece(location);
      LocationIsShorter(src);
    } else {
      hide LocationOf, Slashed, StripSlashes, IndexOf, IsPlainLocation;
      var i := IndexOf(location, ':');
      if i == |location| {
        HostRoundTrip(location);
      } else {
        assert location == location[..i] + [':'] + location[i + 1..];
        PathRoundTrip(location[..i], location[i + 1..]);
      }
    }
  }

  lemma SplitFirst(s: string, c: char)
    ensures var i := IndexOf(s, c);
      Split(s, c) == if i == |s| then [s] else [s[..i]] + Split(s[i + 1..], c)
  {
    hide IndexOf;
  }

  lemma HostRoundTrip(host: string)
    requires '/' !in host && ':' !in host
    ensures LocationOf(Slashed(host)) == Some(host) <==> IsPlainLocation(host)
  {
    hide LocationOf, IndexOf, Split, FirstIs;
    assert Slashed(host) == host;
    PlainLocation(host);
    assert host[..|host|] == host;
    SplitFirst(host, ':');
  }

  lemma PathRoundTrip(host: string, path: string)
    requires '/' !in host && ':' !in host && '/' !in path && path != "" && path[|path| - 1] != ':'
    ensures var location := host + [':'] + path;
      LocationOf(Slashed(location)) == Some(location) <==> IsPlainLocation(location)
  {
    hide LocationOf, IndexOf, Split, JoinLocation, Slashed;
    var location := host + [':'] + path;
    SplitAt(host, path);
    SlashedAt(host, path);
    PlainLocation(Slashed(location));
    JoinPath(host, path);
    assert FirstIs(location, '%') <==> FirstIs(host, '%');
  }

  lemma SplitAt(host: string, path: string)
    requires ':' !in host
    ensures var s := host + [':'] + path; "" in Split(s, ':') <==> host == "" || "" in Split(path, ':')
  {
    hide IndexOf, Split;
    var s := host + [':'] + path;
    assert s[..|host|] == host && s[|host| + 1..] == path;
    IndexOfIs(s, ':', |host|);
    SplitFirst(s, ':');
  }

  lemma SlashedAt(host: string, path: string)
    requires '/' !in host && ':' !in host && '/' !in path && path != "" && path[|path| - 1] != ':'
    ensures var src := Slashed(host + [':'] + path); var slash := IndexOf(src, '/');
      slash == |host| && src[..slash] == host && src[slash + 1..] == Slashed(path) && src[|src| - 1] != '/'
  {
    hide IndexOf;
    var src := Slashed(host + [':'] + path);
    assert src[..|host|] == host;
    assert src[|host| + 1..] == Slashed(path);
    IndexOfIs(src, '/', |host|);
  }

  lemma JoinPath(host: string, path: string)
    requires '/' !in path && path != ""
    ensures JoinLocation(host, Slashed(path)) ==
      if host == "" || FirstIs(host, '%') || "" in Split(path, ':') then None else Some(host + [':'] + path)
  {
    hide FirstIs, Split;
    SplitSlashed(path);
    SlashedBack(path);
  }

  // ----- putting the pieces together

  /** The body of a plain SCID and location. */
  lemma BodyOf(a: string, src: string)
    requires '?' !in a && ':' !in a
    ensures WebvhBody(a + ("?src=" + src)) ==
      if a == "" || '/' in a || '&' in src || '?' in src then None
      else match LocationOf(src) case None => None case Some(location) => Some(a + [':'] + location)
  {
    hide LocationOf, FindText;
    FindFirst(a, "?src=", src);
    var s := a + ("?src=" + src);
    assert s[..|a|] == a && s[|a| + 5..] == src;
  }

  /** A SCID with a `?` never comes back. */
  lemma QuestionMarkIsLost(a: string, rest: string, tail: string) returns (m: nat)
    requires '?' in a && ':' !in a
    requires rest == a + ("?src=" + tail) || rest <= a
    requires WebvhBody(rest).Some?
    ensures m < |a| && m < |WebvhBody(rest).value| && a[m] == '?' && WebvhBody(rest).value[m] == ':'
  {
    hide LocationOf;
    m := FindText(rest, "?src=", 0).value;
    OccurrenceChar(rest, "?src=", m, 0);
    if rest == a + ("?src=" + tail) {
      assert OccursAt(rest, "?src=", |a|) by { assert rest[|a|..|a| + 5] == "?src="; }
      assert rest[..|a|] == a;
    }
    assert m < |a|;
    assert a[m] == '?';
  }

  lemma {:induction false} SplitChars(s: string, c: char, x: char)
    requires x != c
    ensures x in s <==> exists p :: p in Split(s, c) && x in p
  {
    hide IndexOf;
    var i := IndexOf(s, c);
    SplitFirst(s, c);
    if i < |s| {
      SplitChars(s[i + 1..], c, x);
      assert s == s[..i] + [c] + s[i + 1..];
      assert forall p :: p in Split(s, c) <==> p == s[..i] || p in Split(s[i + 1..], c);
    } else {
      assert Split(s, c) == [s];
    }
  }

  /** Segments free of a character are a location free of it. */
  lemma LocationChars(location: string)
    ensures IsLocation(location) <==> IsPlainLocation(location) && '?' !in location && '&' !in location
  {
    hide Split, FirstIs;
    SplitChars(location, ':', '/');
    SplitChars(location, ':', '?');
    SplitChars(location, ':', '&');
  }

  lemma SlashedParts(x: string, y: string)
    ensures Slashed(x + y) == Slashed(x) + Slashed(y)
    ensures '#' !in x ==> '#' !in Slashed(x)
    ensures y != "" && y[0] == '#' ==> Slashed(y)[0] == '#'
  {
  }

  lemma HeadHasNoHash(a: string, x: string)
    requires '#' !in a && '#' !in x
    ensures '#' !in a + ("?src=" + x)
  {
    assert '#' !in "?src=";
  }

  /** Cutting the fragment off the did:scid URL of a SCID and the rest of a did:webvh DID. */
  lemma FragmentCut(a: string, b: string)
    requires '#' !in a
    ensures var s := a + ("?src=" + Slashed(b)); var h, k := IndexOf(s, '#'), IndexOf(b, '#');
      && s[..h] == a + ("?src=" + Slashed(b[..k])) && s[h..] == Slashed(b[k..])
  {
    hide IndexOf;
    var k := IndexOf(b, '#');
    SlashedParts(b[..k], b[k..]);
    assert b == b[..k] + b[k..];
    hide Slashed;
    var x, y := Slashed(b[..k]), Slashed(b[k..]);
    Regroup(a, "?src=", x, y);
    HeadHasNoHash(a, x);
    IndexAtJoin(a + ("?src=" + x), y, '#');
  }

  /** A SCID without `?` and `#`: the location and the fragment must survive on their own. */
  lemma PlainScidRoundTrip(a: string, b: string)
    requires ':' !in a && '?' !in a && '#' !in a
    ensures Converted(a + ("?src=" + Slashed(b))) == Some(a + [':'] + b) <==> IsScid(a) && Survives(b)
  {
    hide IndexOf, LocationOf, IsLocation, IsPlainLocation, WebvhBody;
    FragmentCut(a, b);
    var k := IndexOf(b, '#');
    var base, f := b[..k], b[k..];
    BodyOf(a, Slashed(base));
    LocationRoundTrip(base);
    LocationChars(base);
    assert ('?' in Slashed(base) <==> '?' in base) && ('&' in Slashed(base) <==> '&' in base);
    assert Slashed(f) == f <==> ':' !in f;
    assert a + [':'] + b == a + [':'] + base + f;
    match LocationOf(Slashed(base))
    case None =>
    case Some(location) =>
      SameSuffix(a + [':'] + location, a + [':'] + base, Slashed(f), f);
      SamePrefix(a + [':'], location, base);
  }

  /** A SCID with `?` or `#` does not survive. */
  lemma OtherScidIsLost(a: string, b: string)
    requires ':' !in a && ('?' in a || '#' in a)
    ensures Converted(a + ("?src=" + Slashed(b))) != Some(a + [':'] + b)
  {
    hide IndexOf, LocationOf, WebvhBody, Slashed;
    var s := a + ("?src=" + Slashed(b));
    var rest := s[..IndexOf(s, '#')];
    if '#' in a {
      var i := IndexOf(a, '#');
      assert s[..i] == a[..i];
      IndexOfIs(s, '#', i);
    } else {
      FragmentCut(a, b);
    }
    if WebvhBody(rest).Some? {
      if '?' in a {
        var m := QuestionMarkIsLost(a, rest, Slashed(b[..IndexOf(b, '#')]));
        var body := WebvhBody(rest).value;
        assert (body + s[IndexOf(s, '#')..])[m] == ':';
        assert (a + [':'] + b)[m] == '?';
      } else {
        assert '?' !in rest;
        MarkerNeedsQuestionMark(rest);
      }
    }
  }

  lemma MarkerNeedsQuestionMark(rest: string)
    requires '?' !in rest
    ensures WebvhBody(rest).None?
  {
    hide LocationOf;
    var m := FindText(rest, "?src=", 0);
    if m.Some? { OccurrenceChar(rest, "?src=", m.value, 0); }
  }

  /** The two conversions invert each other on a did:webvh DID or DID URL exactly when it is convertible. */
  lemma ConversionsInvert(d: string)
    ensures ScidUrlOf(d).Some? && WebvhOf(ScidUrlOf(d).value) == Some(d) <==> Convertible(d)
  {
    hide IndexOf, Converted, IsScid, Survives, Slashed;
    if ScidUrlOf(d).Some? {
      var rest := d[|WEBVH_PREFIX|..];
      var colon := IndexOf(rest, ':');
      var a, b := rest[..colon], rest[colon + 1..];
      var middle := a + ("?src=" + Slashed(b));
      RestRoundTrip(a, b);
      DropPrefix(VH_PREFIX, middle);
      assert rest == a + [':'] + b;
      assert d == WEBVH_PREFIX + rest by { PrefixAndRest(d, WEBVH_PREFIX); }
      if Converted(middle).Some? { SamePrefix(WEBVH_PREFIX, Converted(middle).value, rest); }
    }
  }

  lemma RestRoundTrip(a: string, b: string)
    requires ':' !in a
    ensures Converted(a + ("?src=" + Slashed(b))) == Some(a + [':'] + b) <==> IsScid(a) && Survives(b)
  {
    hide Converted, Survives;
    if '?' in a || '#' in a { OtherScidIsLost(a, b); } else { PlainScidRoundTrip(a, b); }
  }
}
