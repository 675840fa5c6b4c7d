/** The pieces the two URL-like grammars of a CSP 1.0 policy share: the optional
    http(s) scheme, the host (a domain or IPv4-style name, a single percent
    escape, or a bracketed IPv6 literal), the optional port, and the
    "at least one dot or localhost" look-ahead. Matching is case-insensitive. */
module Hosts {
  import opened Wrappers
  import opened Text

  /** `[a-z\d-]`: the first character of a name. */
  predicate IsHostHeadChar(c: char) { IsAsciiAlnum(c) || c == '-' }

  /** `[a-z\d.-]`: every later character of a name. */
  predicate IsHostChar(c: char) { IsAsciiAlnum(c) || c == '.' || c == '-' }

  /** `(?:[a-f\d]{0,4}:)*(?:[a-f\d]{0,4})`: hex digits and colons, with no run of
      more than four digits; `run` counts the digits of the group being read. */
  predicate Ipv6Groups(s: string, run: nat)
    decreases |s|
  {
    if s == [] then true
    else if s[0] == ':' then Ipv6Groups(s[1..], 0)
    else IsHex(s[0]) && run < 4 && Ipv6Groups(s[1..], run + 1)
  }

  lemma Ipv6GroupsChars(s: string, run: nat)
    requires Ipv6Groups(s, run)
    ensures forall i | 0 <= i < |s| :: s[i] == ':' || IsHex(s[i])
  {
  }

  datatype Host =
    | Name(wildcard: bool, name: string)  // (*.)? [a-z\d-][a-z\d.-]*
    | Encoded(wildcard: bool, hex: string) // (*.)? %XX: one escape, two hex digits
    | Ipv6(body: string)                   // [ body ]

  /** The `*.` prefix is only part of the source-expression grammar. */
  predicate HostWellFormed(h: Host, allowWildcard: bool) {
    match h
    case Name(w, l) =>
      (w ==> allowWildcard) && |l| >= 1 && IsHostHeadChar(l[0])
      && forall i | 0 <= i < |l| :: IsHostChar(l[i])
    case Encoded(w, x) =>
      (w ==> allowWildcard) && |x| == 2 && IsHex(x[0]) && IsHex(x[1])
    case Ipv6(b) => Ipv6Groups(b, 0)
  }

  function RenderHost(h: Host): string {
    match h
    case Name(w, l) => (if w then "*." else "") + l
    case Encoded(w, x) => (if w then "*." else "") + "%" + x
    case Ipv6(b) => "[" + b + "]"
  }

  /** `(?:https?://)?`, in any letter case; the empty string is the absent scheme. */
  predicate IsScheme(x: string) {
    x == "" || EqualsIgnoreCase(x, "http://") || EqualsIgnoreCase(x, "https://")
  }

  /** The digits of `:\d+`; the empty string is the absent port. */
  predicate IsPortText(p: string) {
    AllDigits(p)
  }

  function RenderPort(p: string): string {
    if p == "" then "" else ":" + p
  }

  /** `(?=\S*?(?:\.|localhost))` read at `s`: a dot or `localhost` (any case)
      occurs somewhere from here on. */
  predicate HasDotOrLocalhost(s: string) {
    exists i | 0 <= i < |s| :: s[i] == '.' || StartsWithIgnoreCase(s[i..], "localhost")
  }

  lemma DotAt(s: string, i: nat)
    requires i < |s| && s[i] == '.'
    ensures HasDotOrLocalhost(s)
  {
  }

  /** Reads the host at the start of `s`, returning it and how many characters it
      took. Names are read greedily: a grammar only ever follows a host with a
      port, a path or the end of the value, none of which starts with a name
      character. */
  function ParseHost(s: string, allowWildcard: bool): (r: Option<(Host, nat)>)
    ensures r.Some? ==> r.value.1 <= |s| && HostWellFormed(r.value.0, allowWildcard)
    ensures r.Some? ==> s[..r.value.1] == RenderHost(r.value.0)
  {
    if |s| > 0 && s[0] == '[' then ParseIpv6(s) else ParseNamed(s, allowWildcard)
  }

  /** `\[ ... \]`: the literal ends at the first closing bracket. */
  function ParseIpv6(s: string): (r: Option<(Host, nat)>)
    requires |s| > 0 && s[0] == '['
    ensures r.Some? ==> r.value.1 <= |s| && HostWellFormed(r.value.0, false)
    ensures r.Some? ==> s[..r.value.1] == RenderHost(r.value.0)
  {
    var k := IndexOf(s, ']');
    if k < |s| && Ipv6Groups(s[1..k], 0) then
      assert s[..k + 1] == "[" + s[1..k] + "]";
      Some((Ipv6(s[1..k]), k + 1))
    else None
  }

  /** An optional `*.` followed by a percent escape or a name. */
  function ParseNamed(s: string, allowWildcard: bool): (r: Option<(Host, nat)>)
    ensures r.Some? ==> r.value.1 <= |s| && HostWellFormed(r.value.0, allowWildcard)
    ensures r.Some? ==> s[..r.value.1] == RenderHost(r.value.0)
  {
    if allowWildcard && |s| >= 2 && s[0] == '*' && s[1] == '.' then
      var bare := ParseBareName(s[2..]);
      if bare.None? then None
      else
        var n := bare.value.1;
        WildcardSplit(s, n);
        Some((WithWildcard(bare.value.0, true), 2 + n))
    else
      ParseBareName(s)
  }

  lemma WildcardSplit(s: string, n: nat)
    requires |s| >= 2 && s[0] == '*' && s[1] == '.' && n <= |s| - 2
    ensures s[..2 + n] == "*." + s[2..][..n]
  {
    assert s[..2 + n] == s[..2] + s[2..][..n];
  }

  /** The same name or escape, with or without the `*.` prefix. */
  function WithWildcard(h: Host, w: bool): (h': Host)
    requires !h.Ipv6? && !h.wildcard
    ensures !h'.Ipv6? && h'.wildcard == w
    ensures HostWellFormed(h, false) ==> HostWellFormed(h', w)
    ensures RenderHost(h') == (if w then "*." else "") + RenderHost(h)
  {
    if h.Name? then Name(w, h.name) else Encoded(w, h.hex)
  }

  /** `[a-z\d-][a-z\d.-]*|%[a-f\d]{2}`, without the wildcard prefix. */
  function ParseBareName(s: string): (r: Option<(Host, nat)>)
    ensures r.Some? ==> r.value.1 <= |s| && HostWellFormed(r.value.0, false)
    ensures r.Some? ==> !r.value.0.Ipv6? && !r.value.0.wildcard
    ensures r.Some? ==> s[..r.value.1] == RenderHost(r.value.0)
  {
    if |s| >= 3 && s[0] == '%' && IsHex(s[1]) && IsHex(s[2]) then
      assert s[..3] == "%" + s[1..3];
      Some((Encoded(false, s[1..3]), 3))
    else if |s| >= 1 && IsHostHeadChar(s[0]) then
      var n := Span(s, IsHostChar);
      Some((Name(false, s[..n]), n))
    else None
  }

  /** What a grammar may put right after a host: nothing, a port or a path. */
  predicate IsHostBoundary(tail: string) {
    tail == [] || tail[0] == ':' || tail[0] == '/'
  }

  /** Every well-formed host is read back from its rendering. */
  lemma ParseHostOfRender(h: Host, tail: string, allowWildcard: bool)
    requires HostWellFormed(h, allowWildcard)
    requires IsHostBoundary(tail)
    ensures ParseHost(RenderHost(h) + tail, allowWildcard) == Some((h, |RenderHost(h)|))
  {
    match h
    case Ipv6(b) =>
      ParseIpv6OfRender(b, tail);
      assert (RenderHost(h) + tail)[0] == '[';
    case Encoded(w, x) =>
      ParseBareNameOfRender(Encoded(false, x), tail);
      ParseNamedOfRender(w, Encoded(false, x), tail, allowWildcard);
    case Name(w, l) =>
      ParseBareNameOfRender(Name(false, l), tail);
      ParseNamedOfRender(w, Name(false, l), tail, allowWildcard);
  }

  lemma ParseIpv6OfRender(b: string, tail: string)
    requires Ipv6Groups(b, 0)
    ensures |RenderHost(Ipv6(b)) + tail| > 0 && (RenderHost(Ipv6(b)) + tail)[0] == '['
    ensures ParseIpv6(RenderHost(Ipv6(b)) + tail) == Some((Ipv6(b), |b| + 2))
  {
    var s := RenderHost(Ipv6(b)) + tail;
    Ipv6Bracket(b, tail, s);
    ParseIpv6At(s, |b| + 1, b);
  }

  /** The closing bracket of a rendered literal is the first one. */
  lemma Ipv6Bracket(b: string, tail: string, s: string)
    requires Ipv6Groups(b, 0) && s == "[" + b + "]" + tail
    ensures |b| + 1 < |s| && IndexOf(s, ']') == |b| + 1 && s[1..|b| + 1] == b
  {
    Ipv6GroupsChars(b, 0);
    assert s == ("[" + b) + ("]" + tail);
    IndexOfConcat("[" + b, "]" + tail, ']');
  }

  lemma ParseIpv6At(s: string, k: nat, b: string)
    requires |s| > 0 && s[0] == '[' && IndexOf(s, ']') == k && k < |s|
    requires s[1..k] == b && Ipv6Groups(b, 0)
    ensures ParseIpv6(s) == Some((Ipv6(b), k + 1))
  {
  }

  lemma ParseBareNameOfRender(h: Host, tail: string)
    requires HostWellFormed(h, false) && !h.Ipv6? && !h.wildcard
    requires IsHostBoundary(tail)
    ensures ParseBareName(RenderHost(h) + tail) == Some((h, |RenderHost(h)|))
  {
    if h.Name? {
      assert RenderHost(h) == h.name;
      assert tail == [] || !IsHostChar(tail[0]);
      ParseNameOfRender(h.name, tail);
    } else {
      assert RenderHost(h) == "%" + h.hex;
      ParseEscapeOfRender(h.hex, tail);
    }
  }

  /** A name is read up to the first character that cannot continue it. */
  lemma ParseNameOfRender(l: string, tail: string)
    requires |l| >= 1 && IsHostHeadChar(l[0]) && forall i | 0 <= i < |l| :: IsHostChar(l[i])
    requires tail == [] || !IsHostChar(tail[0])
    ensures ParseBareName(l + tail) == Some((Name(false, l), |l|))
  {
    var s := l + tail;
    assert s[0] == l[0] && s[0] != '%';
    SpanOfConcat(l, tail, IsHostChar);
    assert s[..|l|] == l;
  }

  lemma ParseEscapeOfRender(x: string, tail: string)
    requires |x| == 2 && IsHex(x[0]) && IsHex(x[1])
    ensures ParseBareName("%" + x + tail) == Some((Encoded(false, x), 3))
  {
    var s := "%" + x + tail;
    assert s[0] == '%' && s[1] == x[0] && s[2] == x[1];
    assert s[1..3] == x;
  }

  lemma ParseNamedOfRender(w: bool, h: Host, tail: string, allowWildcard: bool)
    requires !h.Ipv6? && !h.wildcard && (w ==> allowWildcard)
    requires ParseBareName(RenderHost(h) + tail) == Some((h, |RenderHost(h)|))
    ensures ParseHost(RenderHost(WithWildcard(h, w)) + tail, allowWildcard)
         == Some((WithWildcard(h, w), |RenderHost(WithWildcard(h, w))|))
  {
    var h' := WithWildcard(h, w);
    var s := RenderHost(h') + tail;
    if w {
      ParseWildcardOfRender(h, tail);
      assert s[0] == '*';
    } else {
      assert h' == h;
      var first := RenderHost(h)[0];
      assert first == '%' || IsHostHeadChar(first);
      assert s[0] == first;
      ParseHostOfBareName(s, allowWildcard);
    }
  }

  lemma ParseHostOfBareName(s: string, allowWildcard: bool)
    requires |s| > 0 && s[0] != '[' && s[0] != '*'
    ensures ParseHost(s, allowWildcard) == ParseBareName(s)
  {
  }

  lemma ParseWildcardOfRender(h: Host, tail: string)
    requires !h.Ipv6? && !h.wildcard
    requires ParseBareName(RenderHost(h) + tail) == Some((h, |RenderHost(h)|))
    ensures var s := RenderHost(WithWildcard(h, true)) + tail;
      |s| >= 2 && s[0] == '*' && s[1] == '.'
      && ParseNamed(s, true) == Some((WithWildcard(h, true), |RenderHost(h)| + 2))
  {
    var s := RenderHost(WithWildcard(h, true)) + tail;
    WildcardPrefix(RenderHost(h), tail, s);
    ParseNamedAfterWildcard(s, h, |RenderHost(h)|);
  }

  lemma WildcardPrefix(x: string, tail: string, s: string)
    requires s == "*." + x + tail
    ensures |s| >= 2 && s[0] == '*' && s[1] == '.' && s[2..] == x + tail
  {
  }

  lemma ParseNamedAfterWildcard(s: string, h: Host, n: nat)
    requires |s| >= 2 && s[0] == '*' && s[1] == '.'
    requires ParseBareName(s[2..]) == Some((h, n))
    ensures ParseNamed(s, true) == Some((WithWildcard(h, true), 2 + n))
  {
  }

  /** No host, port or scheme contains `@`: credentials cannot be spelled. */
  lemma RenderHostHasNoAt(h: Host, allowWildcard: bool)
    requires HostWellFormed(h, allowWildcard)
    ensures forall i | 0 <= i < |RenderHost(h)| :: RenderHost(h)[i] != '@'
  {
    if h.Ipv6? {
      Ipv6GroupsChars(h.body, 0);
    }
  }
}
