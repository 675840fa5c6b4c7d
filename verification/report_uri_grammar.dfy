/** The report-uri grammar of a CSP 1.0 policy: an absolute path, or
    `(http://|https://)? host (:port)? path?` where the host has no `*.` prefix,
    the port has at least one digit and the path starts with `/`. A name-like
    host needs a dot or `localhost` somewhere from the host onwards, the path
    included. The path alternative also admits a network-path reference such
    as `//user@host/`; `IsIntendedReportUri` is the grammar without those, in
    which no authority carries `user@` credentials. */
module ReportUriGrammar {
  import opened Wrappers
  import opened Text
  import opened Hosts

  /** `[\w!#$&'()*+,./:;=?@\[\]~-]`: a literal path or query character. */
  predicate IsPathChar(c: char) {
    IsAsciiAlnum(c) || c == '_' || c in "!#$&'()*+,./:;=?@[]~-"
  }

  /** `(?:pathchar|%[a-f\d]{2})*` */
  predicate PathChars(s: string)
    decreases |s|
  {
    if s == [] then true
    else if s[0] == '%' then |s| >= 3 && IsHex(s[1]) && IsHex(s[2]) && PathChars(s[3..])
    else IsPathChar(s[0]) && PathChars(s[1..])
  }

  /** `/` followed by path characters and escapes. */
  predicate IsQueryPath(p: string) {
    |p| >= 1 && p[0] == '/' && PathChars(p[1..])
  }

  datatype ReportUri =
    | PathOnly(path: string)
    | Url(scheme: string, host: Host, port: string, path: string)  // "" for an absent port or path

  predicate WellFormed(u: ReportUri) {
    match u
    case PathOnly(p) => IsQueryPath(p)
    case Url(sch, h, port, p) =>
      IsScheme(sch) && HostWellFormed(h, false) && IsPortText(port)
      && (p == "" || IsQueryPath(p))
      && (h.Ipv6? || HasDotOrLocalhost(RenderHost(h) + (RenderPort(port) + p)))
  }

  function Render(u: ReportUri): string {
    match u
    case PathOnly(p) => p
    case Url(sch, h, port, p) => sch + (RenderHost(h) + (RenderPort(port) + p))
  }

  /** Splits what follows a host into the port digits and the rest. */
  function SplitPort(tail: string): (r: Option<(string, string)>)
    ensures r.Some? ==> IsPortText(r.value.0) && RenderPort(r.value.0) + r.value.1 == tail
    ensures r.Some? ==> r.value.1 == [] || !IsDigit(r.value.1[0]) || r.value.0 == ""
  {
    if tail != [] && tail[0] == ':' then
      var m := Span(tail[1..], IsDigit);
      if m == 0 then None
      else
        assert tail == ":" + tail[1..][..m] + tail[1..][m..];
        Some((tail[1..][..m], tail[1..][m..]))
    else Some(("", tail))
  }

  /** Reads `host (:port)? path?` with the first `k` characters of `s` as the scheme. */
  function ParseUrl(s: string, k: nat): (r: Option<ReportUri>)
    ensures r.Some? ==> WellFormed(r.value) && Render(r.value) == s
  {
    if k <= |s| && IsScheme(s[..k]) then
      var rest := s[k..];
      var host := ParseHost(rest, false);
      if host.None? then None
      else
        var n := host.value.1;
        var split := SplitPort(rest[n..]);
        if split.None? then None
        else
          var port := split.value.0;
          var path := split.value.1;
          if (path == "" || IsQueryPath(path)) && (host.value.0.Ipv6? || HasDotOrLocalhost(rest)) then
            UrlOfSplit(s, k, RenderHost(host.value.0), RenderPort(port), path);
            Some(Url(s[..k], host.value.0, port, path))
          else None
    else None
  }

  lemma UrlOfSplit(s: string, k: nat, host: string, port: string, path: string)
    requires k <= |s| && |host| <= |s[k..]| && s[k..][..|host|] == host
    requires port + path == s[k..][|host|..]
    ensures s[k..] == host + (port + path)
    ensures s == s[..k] + (host + (port + path))
  {
    assert s[k..] == host + (port + path);
  }

  /** `^(?:url|queryPath)$`, with the scheme alternatives tried in turn. */
  function Parse(s: string): (r: Option<ReportUri>)
    ensures r.Some? ==> WellFormed(r.value) && Render(r.value) == s
  {
    var path := if IsQueryPath(s) then Some(PathOnly(s)) else None;
    FirstOf(ParseUrl(s, 8), FirstOf(ParseUrl(s, 7), FirstOf(ParseUrl(s, 0), path)))
  }

  predicate IsReportUri(s: string) {
    Parse(s).Some?
  }

  /** Every well-formed report URI is recognized in its rendered form. */
  lemma ParseComplete(u: ReportUri)
    requires WellFormed(u)
    ensures IsReportUri(Render(u))
  {
    if u.Url? {
      ParseUrlOfRender(u);
      var s := Render(u);
      var k := |u.scheme|;
      assert k == 0 || k == 7 || k == 8;
    }
  }

  lemma ParseUrlOfRender(u: ReportUri)
    requires WellFormed(u) && u.Url?
    ensures ParseUrl(Render(u), |u.scheme|).Some?
  {
    var s := Render(u);
    var k := |u.scheme|;
    var tail := RenderPort(u.port) + u.path;
    var rest := RenderHost(u.host) + tail;
    SplitAt(u.scheme, rest, s);
    assert IsHostBoundary(tail) by {
      if u.port == "" { assert tail == u.path; }
    }
    ParseHostOfRender(u.host, tail, false);
    SplitAt(RenderHost(u.host), tail, rest);
    SplitPortOfRender(u.port, u.path);
    ParseUrlStep(s, k, u.host, |RenderHost(u.host)|, u.port, u.path);
  }

  lemma SplitPortOfRender(port: string, path: string)
    requires IsPortText(port) && (path == "" || IsQueryPath(path))
    ensures SplitPort(RenderPort(port) + path) == Some((port, path))
  {
    if port != "" {
      var tail := RenderPort(port) + path;
      assert tail[1..] == port + path;
      SpanOfConcat(port, path, IsDigit);
      assert tail[1..][..|port|] == port;
    } else {
      assert RenderPort(port) + path == path;
    }
  }

  lemma ParseUrlStep(s: string, k: nat, h: Host, n: nat, port: string, path: string)
    requires k <= |s| && IsScheme(s[..k])
    requires ParseHost(s[k..], false) == Some((h, n))
    requires n <= |s[k..]| && SplitPort(s[k..][n..]) == Some((port, path))
    requires path == "" || IsQueryPath(path)
    requires h.Ipv6? || HasDotOrLocalhost(s[k..])
    ensures ParseUrl(s, k).Some?
  {
  }

  /** The recognizer accepts exactly the renderings of well-formed report URIs. */
  lemma Characterization(s: string)
    ensures IsReportUri(s) <==> exists u :: WellFormed(u) && Render(u) == s
  {
    if exists u :: WellFormed(u) && Render(u) == s {
      var u :| WellFormed(u) && Render(u) == s;
      ParseComplete(u);
    }
  }

  /** A value read as a URL carries no `user@` credentials between its scheme
      and its path: after the scheme comes a host and port without `@` or `/`,
      and everything after them is empty or a path. A value read as a path is
      not covered; see `CredentialsThroughPath`. */
  lemma NoCredentials(s: string)
    requires IsReportUri(s)
    ensures var u := Parse(s).value;
      u.Url? ==>
        var a := |u.scheme|;
        var b := a + |RenderHost(u.host) + RenderPort(u.port)|;
        b <= |s| && (b == |s| || s[b] == '/')
        && forall i | a <= i < b :: s[i] != '@' && s[i] != '/'
  {
    var u := Parse(s).value;
    if u.Url? {
      AuthorityOfUrl(u);
    }
  }

  lemma AuthorityOfUrl(u: ReportUri)
    requires WellFormed(u) && u.Url?
    ensures var s := Render(u);
      var a := |u.scheme|;
      var b := a + |RenderHost(u.host) + RenderPort(u.port)|;
      b <= |s| && (b == |s| || s[b] == '/')
      && forall i | a <= i < b :: s[i] != '@' && s[i] != '/'
  {
    var hs, ps := RenderHost(u.host), RenderPort(u.port);
    var auth := hs + ps;
    forall j | 0 <= j < |auth|
      ensures auth[j] != '@' && auth[j] != '/'
    {
      AuthorityChar(u.host, u.port, j);
    }
    ConcatAssoc(hs, ps, u.path);
    ConcatAssoc(u.scheme, auth, u.path);
    AuthoritySpan(u.scheme, auth, u.path);
  }

  /** An authority free of `@` and `/`, followed by nothing or a path, spans
      exactly from the end of the scheme to the path. */
  lemma AuthoritySpan(sch: string, auth: string, path: string)
    requires forall j | 0 <= j < |auth| :: auth[j] != '@' && auth[j] != '/'
    requires path == "" || path[0] == '/'
    ensures var s := sch + auth + path;
      var b := |sch| + |auth|;
      b <= |s| && (b == |s| || s[b] == '/')
      && forall i | |sch| <= i < b :: s[i] != '@' && s[i] != '/'
  {
    var s := sch + auth + path;
    forall i | |sch| <= i < |sch| + |auth|
      ensures s[i] != '@' && s[i] != '/'
    {
      assert s[i] == auth[i - |sch|];
    }
  }

  lemma AuthorityChar(h: Host, port: string, i: nat)
    requires HostWellFormed(h, false) && IsPortText(port)
    requires i < |RenderHost(h) + RenderPort(port)|
    ensures (RenderHost(h) + RenderPort(port))[i] != '@'
    ensures (RenderHost(h) + RenderPort(port))[i] != '/'
  {
    var hs, ps := RenderHost(h), RenderPort(port);
    ConcatIndex(hs, ps, i);
    if i >= |hs| {
      PortCharsPlain(port, i - |hs|);
    } else {
      RenderHostHasNoAt(h, false);
      HostCharsNotSlash(h, i);
    }
  }

  lemma PortCharsPlain(port: string, j: nat)
    requires IsPortText(port) && j < |RenderPort(port)|
    ensures RenderPort(port)[j] != '@' && RenderPort(port)[j] != '/'
  {
    if j > 0 {
      assert RenderPort(port)[j] == port[j - 1];
    }
  }

  lemma HostCharsNotSlash(h: Host, i: nat)
    requires HostWellFormed(h, false) && i < |RenderHost(h)|
    ensures RenderHost(h)[i] != '/'
  {
    if h.Ipv6? {
      Ipv6GroupsChars(h.body, 0);
      if 0 < i < |RenderHost(h)| - 1 {
        assert RenderHost(h)[i] == h.body[i - 1];
      }
    }
  }

  // ---------------------------------------------------------- credentials

  /** A network-path reference, section 4.2 of RFC 3986: a leading `//` opens
      an authority, whichever alternative of the pattern matched it. */
  predicate IsNetworkPath(s: string) {
    |s| >= 2 && s[0] == '/' && s[1] == '/'
  }

  /** The report URIs the source evidently means to accept: those of the
      pattern, less the network-path references its path alternative lets in. */
  predicate IsIntendedReportUri(s: string) {
    IsReportUri(s) && !IsNetworkPath(s)
  }

  /** Where a browser starts reading an authority (section 3.2 of RFC 3986) in
      a reference with one of the two allowed schemes, or with none and a
      leading `//`; 0 when there is no authority. */
  function AuthorityStart(s: string): (k: nat)
    ensures k <= |s|
  {
    if StartsWithIgnoreCase(s, "https://") then 8
    else if StartsWithIgnoreCase(s, "http://") then 7
    else if IsNetworkPath(s) then 2
    else 0
  }

  /** The span a browser reads as the authority, up to the first `/` after its
      start; the authority proper may end sooner, at `?` or `#`, so a span free
      of `@` means an authority free of credentials. */
  function AuthorityOf(s: string): (r: Option<string>)
    ensures r.Some? <==> AuthorityStart(s) != 0
    ensures r.Some? ==> '/' !in r.value
    ensures r.Some? ==> AuthorityStart(s) + |r.value| <= |s|
  {
    var k := AuthorityStart(s);
    if k == 0 then None
    else
      var t := s[k..];
      Some(t[..IndexOf(t, '/')])
  }

  /** As written: the path alternative accepts `//user@evil.com/`, whose
      authority carries `user@` credentials. */
  lemma CredentialsThroughPath(s: string)
    requires s == "//user@evil.com/"
    ensures IsReportUri(s)
    ensures AuthorityOf(s) == Some("user@evil.com") && '@' in AuthorityOf(s).value
    ensures !IsIntendedReportUri(s)
  {
    EvilPath(s);
    AcceptedIfRendered(s, PathOnly(s));
    NotHttpAfterSlash(s);
    EvilAuthority(s[2..]);
  }

  lemma EvilPath(s: string)
    requires s == "//user@evil.com/"
    ensures IsQueryPath(s) && IsNetworkPath(s)
  {
    PlainPathChars(s[1..]);
  }

  lemma EvilAuthority(t: string)
    requires t == "user@evil.com/"
    ensures t[..IndexOf(t, '/')] == "user@evil.com" && t[4] == '@'
  {
    IndexOfAt(t, 13, '/');
  }

  /** The intended grammar leaves no place for `user@` credentials: whatever
      authority a browser reads in an accepted value holds no `@`. */
  lemma IntendedNoCredentials(s: string)
    requires IsIntendedReportUri(s)
    ensures AuthorityOf(s).None? || '@' !in AuthorityOf(s).value
  {
    var u := Parse(s).value;
    if u.PathOnly? {
      NotHttpAfterSlash(s);
    } else if u.scheme == "" {
      SchemelessNoAuthority(u);
    } else {
      SchemedAuthority(u);
    }
  }

  /** A URL without a scheme has no authority a browser would read. */
  lemma SchemelessNoAuthority(u: ReportUri)
    requires WellFormed(u) && u.Url? && u.scheme == ""
    ensures AuthorityStart(Render(u)) == 0
  {
    var s := Render(u);
    var auth := RenderHost(u.host) + RenderPort(u.port);
    AuthorityOfUrl(u);
    LastAuthorityChar(u.host, u.port);
    ConcatAssoc(RenderHost(u.host), RenderPort(u.port), u.path);
    assert s == auth + u.path;
    assert s[|auth| - 1] == auth[|auth| - 1];
    SchemelessNotHttp(s, |auth|);
  }

  /** A URL with a scheme: the authority a browser reads is its host and port. */
  lemma SchemedAuthority(u: ReportUri)
    requires WellFormed(u) && u.Url? && u.scheme != ""
    ensures AuthorityOf(Render(u)) == Some(RenderHost(u.host) + RenderPort(u.port))
    ensures '@' !in RenderHost(u.host) + RenderPort(u.port)
  {
    var s := Render(u);
    var a := |u.scheme|;
    var auth := RenderHost(u.host) + RenderPort(u.port);
    AuthorityOfUrl(u);
    SchemeStart(u);
    ConcatAssoc(RenderHost(u.host), RenderPort(u.port), u.path);
    assert s[a..] == auth + u.path;
    IndexOfAt(s[a..], |auth|, '/');
    forall j | 0 <= j < |auth|
      ensures auth[j] != '@'
    {
      AuthorityChar(u.host, u.port, j);
    }
  }

  /** A value starting with `/` names no scheme. */
  lemma NotHttpAfterSlash(s: string)
    requires |s| >= 1 && s[0] == '/'
    ensures !StartsWithIgnoreCase(s, "https://") && !StartsWithIgnoreCase(s, "http://")
  {
    if |s| >= 7 {
      assert Lower(s[..7][0]) != Lower("http://"[0]);
    }
  }

  /** With a scheme, the authority starts right after it. */
  lemma SchemeStart(u: ReportUri)
    requires WellFormed(u) && u.Url? && u.scheme != ""
    ensures AuthorityStart(Render(u)) == |u.scheme|
  {
    var s := Render(u);
    var sch := u.scheme;
    assert s[..|sch|] == sch;
    if |sch| == 8 {
      assert EqualsIgnoreCase(sch, "https://");
      assert s[..8] == sch;
    } else {
      assert EqualsIgnoreCase(sch, "http://");
      assert s[..7] == sch;
      if |s| >= 8 {
        assert Lower(s[..8][4]) != Lower("https://"[4]) by {
          assert s[..8][4] == sch[4];
          assert Lower(sch[4]) == Lower("http://"[4]);
          LowerToPlain(sch[4], ':');
        }
      }
    }
  }

  /** The last character of a host and port is never the `:` of a scheme. */
  lemma LastAuthorityChar(h: Host, port: string)
    requires HostWellFormed(h, false) && IsPortText(port)
    ensures var auth := RenderHost(h) + RenderPort(port);
      |auth| >= 1 && auth[|auth| - 1] != ':'
  {
    var hs, ps := RenderHost(h), RenderPort(port);
    if port != "" {
      assert (hs + ps)[|hs + ps| - 1] == port[|port| - 1];
    } else {
      assert hs + ps == hs;
      match h
      case Name(_, l) => assert hs[|hs| - 1] == l[|l| - 1];
      case Encoded(_, x) => assert hs[|hs| - 1] == x[1];
      case Ipv6(_) =>
    }
  }

  /** A schemeless URL never looks like one with a scheme: its authority runs to
      the first `/`, and ends on a character other than `:`. */
  lemma SchemelessNotHttp(s: string, b: nat)
    requires 1 <= b <= |s| && (b == |s| || s[b] == '/') && s[b - 1] != ':'
    requires forall i | 0 <= i < b :: s[i] != '/'
    ensures !StartsWithIgnoreCase(s, "https://") && !StartsWithIgnoreCase(s, "http://")
  {
    NoSchemePrefix(s, b, "https://", 5);
    NoSchemePrefix(s, b, "http://", 4);
  }

  lemma NoSchemePrefix(s: string, b: nat, p: string, c: nat)
    requires 1 <= b <= |s| && (b == |s| || s[b] == '/') && s[b - 1] != ':'
    requires forall i | 0 <= i < b :: s[i] != '/'
    requires c + 1 < |p| && p[c] == ':' && p[c + 1] == '/'
    requires forall i | 0 <= i < c :: IsAsciiLetter(p[i])
    ensures !StartsWithIgnoreCase(s, p)
  {
    if StartsWithIgnoreCase(s, p) {
      assert false;
    }
  }

  /** `/csp-report` and `https://example.com/csp-report` are valid report URIs. */
  lemma AcceptedExamples(v: string)
    requires v in {"/csp-report", "https://example.com/csp-report"}
    ensures IsReportUri(v)
  {
    if v == "/csp-report" {
      RelativeAccepted(v);
    } else {
      AbsoluteAccepted(v);
    }
  }

  lemma RelativeAccepted(v: string)
    requires v == "/csp-report"
    ensures IsReportUri(v)
  {
    CspReportPath(v);
    AcceptedIfRendered(v, PathOnly(v));
  }

  lemma AbsoluteAccepted(v: string)
    requires v == "https://example.com/csp-report"
    ensures IsReportUri(v)
  {
    CspReportPath("/csp-report");
    ExampleName("example.com");
    AbsoluteSplit(v);
    HttpsNameAccepted("example.com", 7, "/csp-report");
  }

  lemma AbsoluteSplit(v: string)
    requires v == "https://example.com/csp-report"
    ensures v == "https://" + ("example.com" + "/csp-report")
  {
    assert "example.com" + "/csp-report" == "example.com/csp-report";
  }

  lemma AcceptedIfRendered(v: string, u: ReportUri)
    requires WellFormed(u) && v == Render(u)
    ensures IsReportUri(v)
  {
    ParseComplete(u);
  }

  /** `https://` followed by a dotted name and a path is a report URI. */
  lemma HttpsNameAccepted(host: string, dot: nat, path: string)
    requires |host| >= 1 && IsHostHeadChar(host[0]) && forall i | 0 <= i < |host| :: IsHostChar(host[i])
    requires dot < |host| && host[dot] == '.'
    requires IsQueryPath(path)
    ensures IsReportUri("https://" + (host + path))
  {
    HttpsIsScheme();
    DottedNameHost(host, dot, path);
    var u := UrlOfParts("https://", Name(false, host), path);
    AcceptedIfRendered("https://" + (host + path), u);
  }

  lemma HttpsIsScheme()
    ensures IsScheme("https://")
  {
    assert EqualsIgnoreCase("https://", "https://");
  }

  lemma DottedNameHost(host: string, dot: nat, path: string)
    requires |host| >= 1 && IsHostHeadChar(host[0]) && forall i | 0 <= i < |host| :: IsHostChar(host[i])
    requires dot < |host| && host[dot] == '.'
    ensures HostWellFormed(Name(false, host), false) && RenderHost(Name(false, host)) == host
    ensures HasDotOrLocalhost(host + (RenderPort("") + path))
  {
    assert RenderHost(Name(false, host)) == host;
    DotAt(host + (RenderPort("") + path), dot);
  }

  /** A URL without a port, assembled from parts already known to be valid. */
  function UrlOfParts(sch: string, h: Host, path: string): (u: ReportUri)
    requires IsScheme(sch) && HostWellFormed(h, false) && (path == "" || IsQueryPath(path))
    requires h.Ipv6? || HasDotOrLocalhost(RenderHost(h) + (RenderPort("") + path))
    ensures WellFormed(u) && Render(u) == sch + (RenderHost(h) + path)
  {
    assert RenderPort("") + path == path;
    Url(sch, h, "", path)
  }

  /** A run of literal path characters is a valid path body. */
  lemma {:induction false} PlainPathChars(s: string)
    requires forall i | 0 <= i < |s| :: IsPathChar(s[i])
    ensures PathChars(s)
    decreases |s|
  {
    if s != [] {
      assert s[0] != '%';
      PlainPathChars(s[1..]);
    }
  }

  lemma CspReportPath(p: string)
    requires p == "/csp-report"
    ensures IsQueryPath(p)
  {
    PlainPathChars(p[1..]);
  }

  lemma ExampleName(host: string)
    requires host == "example.com"
    ensures |host| >= 1 && IsHostHeadChar(host[0]) && forall i | 0 <= i < |host| :: IsHostChar(host[i])
    ensures host[7] == '.'
  {
  }

  /** `not_uri` is neither a URL nor a path. */
  lemma RejectedExample(v: string)
    requires v == "not_uri"
    ensures !IsReportUri(v)
  {
    assert v == "not" + "_uri";
    assert |v| == 7 && !EqualsIgnoreCase(v[..7], "http://") by { assert v[0] != 'h'; }
    ExampleNot("not");
    ParseNameOfRender("not", "_uri");
    NoUrlAfterName(v, "not", "_uri");
    assert !IsQueryPath("_uri");
    RejectedWithoutParse(v);
  }

  lemma ExampleNot(host: string)
    requires host == "not"
    ensures |host| >= 1 && IsHostHeadChar(host[0]) && forall i | 0 <= i < |host| :: IsHostChar(host[i])
  {
  }

  /** A name followed by text that is neither a port nor a path is no URL. */
  lemma NoUrlAfterName(s: string, l: string, tail: string)
    requires s == l + tail && ParseBareName(s) == Some((Name(false, l), |l|))
    requires tail != [] && tail[0] != ':' && !IsQueryPath(tail)
    ensures ParseUrl(s, 0).None?
  {
    assert s[0] != '[' && s[0] != '*' by { assert s[0] == l[0] && IsHostHeadChar(l[0]); }
    ParseHostOfBareName(s, false);
    assert s[|l|..] == tail;
  }

  lemma RejectedWithoutParse(s: string)
    requires |s| < 8 && (|s| < 7 || !EqualsIgnoreCase(s[..7], "http://"))
    requires ParseUrl(s, 0).None? && !IsQueryPath(s)
    ensures !IsReportUri(s)
  {
  }
}
