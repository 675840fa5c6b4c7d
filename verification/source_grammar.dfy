/** The source-expression grammar of a CSP 1.0 source list (script-src, img-src, ...):
    a value is `data:`, the lone wildcard `*`, or
    `(http://|https://)? host (:port)?` where a name-like host needs a dot or
    `localhost` from the host onwards. Letter case is ignored throughout. */
module SourceGrammar {
  import opened Wrappers
  import opened Text
  import opened Hosts

  datatype SourceExpr =
    | DataScheme(text: string)                          // `data:` in any letter case
    | AnyHost                                           // `*` on its own
    | HostSource(scheme: string, host: Host, port: string)

  predicate WellFormed(e: SourceExpr) {
    match e
    case DataScheme(t) => EqualsIgnoreCase(t, "data:")
    case AnyHost => true
    case HostSource(sch, h, p) =>
      IsScheme(sch) && HostWellFormed(h, true) && IsPortText(p)
      && (h.Ipv6? || HasDotOrLocalhost(RenderHost(h) + RenderPort(p)))
  }

  function Render(e: SourceExpr): string {
    match e
    case DataScheme(t) => t
    case AnyHost => "*"
    case HostSource(sch, h, p) => sch + (RenderHost(h) + RenderPort(p))
  }

  /** What may follow a host in a source expression: nothing, or `:` and digits. */
  predicate IsPortTail(tail: string) {
    tail == "" || (|tail| >= 2 && tail[0] == ':' && AllDigits(tail[1..]))
  }

  /** The digits of a port tail. */
  function PortOf(tail: string): (p: string)
    requires IsPortTail(tail)
    ensures IsPortText(p) && RenderPort(p) == tail
  {
    if tail == "" then "" else tail[1..]
  }

  lemma RenderOfSplit(s: string, k: nat, host: string, port: string)
    requires k <= |s| && |host| <= |s[k..]| && s[k..][..|host|] == host
    requires RenderPort(port) == s[k..][|host|..]
    ensures s == s[..k] + (host + RenderPort(port))
  {
    assert s[k..] == host + RenderPort(port);
  }

  /** Reads `host (:port)?` with the first `k` characters of `s` as the scheme. */
  function ParseWithScheme(s: string, k: nat): (r: Option<SourceExpr>)
    ensures r.Some? ==> WellFormed(r.value) && Render(r.value) == s
  {
    if k <= |s| && IsScheme(s[..k]) then
      var rest := s[k..];
      var host := ParseHost(rest, true);
      if host.None? then None
      else
        var n := host.value.1;
        var tail := rest[n..];
        if IsPortTail(tail) && (host.value.0.Ipv6? || HasDotOrLocalhost(rest)) then
          var port := PortOf(tail);
          RenderOfSplit(s, k, RenderHost(host.value.0), port);
          Some(HostSource(s[..k], host.value.0, port))
        else None
    else None
  }

  /** Tries the alternatives of the pattern in turn; the scheme may be
      `https://`, `http://` or absent. */
  function Parse(s: string): (r: Option<SourceExpr>)
    ensures r.Some? ==> WellFormed(r.value) && Render(r.value) == s
  {
    if EqualsIgnoreCase(s, "data:") then Some(DataScheme(s))
    else if s == "*" then Some(AnyHost)
    else FirstOf(ParseWithScheme(s, 8), FirstOf(ParseWithScheme(s, 7), ParseWithScheme(s, 0)))
  }

  /** The recognizer for a source expression. */
  predicate IsSourceExpression(s: string) {
    Parse(s).Some?
  }

  /** Every well-formed expression is recognized in its rendered form. */
  lemma ParseComplete(e: SourceExpr)
    requires WellFormed(e)
    ensures IsSourceExpression(Render(e))
  {
    if e.HostSource? {
      var s := Render(e);
      ParseWithSchemeOfRender(e);
      var k := |e.scheme|;
      assert k == 0 || k == 7 || k == 8;
      if !EqualsIgnoreCase(s, "data:") && s != "*" {
        assert Parse(s) == FirstOf(ParseWithScheme(s, 8), FirstOf(ParseWithScheme(s, 7), ParseWithScheme(s, 0)));
      }
    }
  }

  lemma ParseWithSchemeOfRender(e: SourceExpr)
    requires WellFormed(e) && e.HostSource?
    ensures ParseWithScheme(Render(e), |e.scheme|).Some?
  {
    var s := Render(e);
    var k := |e.scheme|;
    var rest := RenderHost(e.host) + RenderPort(e.port);
    SplitAt(e.scheme, rest, s);
    ParseHostOfRender(e.host, RenderPort(e.port), true);
    var n := |RenderHost(e.host)|;
    SplitAt(RenderHost(e.host), RenderPort(e.port), rest);
    PortTailOfRender(e.port);
    ParseWithSchemeStep(s, k, e.host, n);
  }

  lemma PortTailOfRender(p: string)
    requires IsPortText(p)
    ensures IsPortTail(RenderPort(p))
  {
    if p != "" {
      assert RenderPort(p)[1..] == p;
    }
  }

  lemma ParseWithSchemeStep(s: string, k: nat, h: Host, n: nat)
    requires k <= |s| && IsScheme(s[..k])
    requires ParseHost(s[k..], true) == Some((h, n))
    requires n <= |s[k..]| && IsPortTail(s[k..][n..])
    requires h.Ipv6? || HasDotOrLocalhost(s[k..])
    ensures ParseWithScheme(s, k).Some?
  {
  }

  /** The recognizer accepts exactly the renderings of well-formed expressions. */
  lemma Characterization(s: string)
    ensures IsSourceExpression(s) <==> exists e :: WellFormed(e) && Render(e) == s
  {
    if exists e :: WellFormed(e) && Render(e) == s {
      var e :| WellFormed(e) && Render(e) == s;
      ParseComplete(e);
    }
  }

  /** `example.com`, `*.example.com`, `https://example.com:8443`, `data:` and `*`
      are valid source values. */
  lemma AcceptedExamples(v: string)
    requires v in {"example.com", "*.example.com", "https://example.com:8443", "data:", "*"}
    ensures IsSourceExpression(v)
  {
    var e: SourceExpr;
    if v == "example.com" {
      e := HostSource("", Name(false, "example.com"), "");
      PlainNameWellFormed(e);
    } else if v == "*.example.com" {
      e := HostSource("", Name(true, "example.com"), "");
      WildcardNameWellFormed(e);
    } else if v == "https://example.com:8443" {
      e := HostSource("https://", Name(false, "example.com"), "8443");
      FullUrlWellFormed(e);
    } else if v == "data:" {
      e := DataScheme("data:");
      assert EqualsIgnoreCase("data:", "data:");
    } else {
      e := AnyHost;
    }
    AcceptedIfRendered(v, e);
  }

  lemma AcceptedIfRendered(v: string, e: SourceExpr)
    requires WellFormed(e) && v == Render(e)
    ensures IsSourceExpression(v)
  {
    ParseComplete(e);
  }

  lemma PlainNameWellFormed(e: SourceExpr)
    requires e == HostSource("", Name(false, "example.com"), "")
    ensures WellFormed(e) && Render(e) == "example.com"
  {
    assert HostWellFormed(e.host, true);
    assert RenderHost(e.host) + RenderPort("") == "example.com";
    DotAt("example.com", 7);
  }

  lemma WildcardNameWellFormed(e: SourceExpr)
    requires e == HostSource("", Name(true, "example.com"), "")
    ensures WellFormed(e) && Render(e) == "*.example.com"
  {
    assert HostWellFormed(e.host, true);
    assert RenderHost(e.host) + RenderPort("") == "*.example.com";
    DotAt("*.example.com", 1);
  }

  lemma FullUrlWellFormed(e: SourceExpr)
    requires e == HostSource("https://", Name(false, "example.com"), "8443")
    ensures WellFormed(e) && Render(e) == "https://example.com:8443"
  {
    FullUrlParts(e);
    FullUrlRender(e);
  }

  lemma FullUrlParts(e: SourceExpr)
    requires e == HostSource("https://", Name(false, "example.com"), "8443")
    ensures WellFormed(e)
  {
    ExampleNameWellFormed(e.host);
    HttpsScheme(e.scheme);
    PortDigits(e.port);
    ExampleHasDot(e.host, e.port);
    HostSourceWellFormed(e);
  }

  lemma HostSourceWellFormed(e: SourceExpr)
    requires e.HostSource? && IsScheme(e.scheme) && HostWellFormed(e.host, true) && IsPortText(e.port)
    requires HasDotOrLocalhost(RenderHost(e.host) + RenderPort(e.port))
    ensures WellFormed(e)
  {
  }

  lemma PortDigits(p: string)
    requires p == "8443"
    ensures IsPortText(p)
  {
  }

  lemma ExampleHasDot(h: Host, p: string)
    requires h == Name(false, "example.com")
    ensures HasDotOrLocalhost(RenderHost(h) + RenderPort(p))
  {
    assert RenderHost(h) == "example.com";
    DotInName("example.com", 7, p);
  }

  lemma ExampleNameWellFormed(h: Host)
    requires h == Name(false, "example.com")
    ensures HostWellFormed(h, true)
  {
    forall i | 0 <= i < |h.name|
      ensures IsHostChar(h.name[i])
    {
    }
  }

  lemma HttpsScheme(sch: string)
    requires sch == "https://"
    ensures IsScheme(sch)
  {
    assert EqualsIgnoreCase(sch, "https://");
  }

  lemma FullUrlRender(e: SourceExpr)
    requires e == HostSource("https://", Name(false, "example.com"), "8443")
    ensures Render(e) == "https://example.com:8443"
  {
    ExampleHostPort(RenderHost(e.host), RenderPort(e.port));
    SchemeBeforeHostPort(e.scheme, RenderHost(e.host) + RenderPort(e.port));
  }

  lemma ExampleHostPort(h: string, p: string)
    requires h == "example.com" && p == RenderPort("8443")
    ensures h + p == "example.com:8443"
  {
    assert p == ":8443";
  }

  lemma SchemeBeforeHostPort(sch: string, rest: string)
    requires sch == "https://" && rest == "example.com:8443"
    ensures sch + rest == "https://example.com:8443"
  {
  }

  lemma DotInName(l: string, i: nat, port: string)
    requires i < |l| && l[i] == '.'
    ensures HasDotOrLocalhost(l + RenderPort(port))
  {
    DotAt(l + RenderPort(port), i);
  }

  lemma RejectedWithoutParse(s: string)
    requires !EqualsIgnoreCase(s, "data:") && s != "*"
    requires ParseWithScheme(s, 8).None? && ParseWithScheme(s, 7).None? && ParseWithScheme(s, 0).None?
    ensures !IsSourceExpression(s)
  {
  }

  /** `**` is no source expression: it fails every alternative. */
  lemma DoubleWildcardHasNoParse(s: string)
    requires s == "**"
    ensures !EqualsIgnoreCase(s, "data:") && s != "*"
    ensures ParseWithScheme(s, 8).None? && ParseWithScheme(s, 7).None? && ParseWithScheme(s, 0).None?
    ensures !IsSourceExpression(s)
  {
    DoubleWildcardAlternatives(s);
    RejectedWithoutParse(s);
  }

  lemma DoubleWildcardAlternatives(s: string)
    requires s == "**"
    ensures !EqualsIgnoreCase(s, "data:") && s != "*"
    ensures ParseWithScheme(s, 8).None? && ParseWithScheme(s, 7).None? && ParseWithScheme(s, 0).None?
  {
    assert |s| != |"data:"|;
    NoSchemeWithout(s, 8);
    NoSchemeWithout(s, 7);
    DoubleWildcardNoHost(s);
  }

  lemma DoubleWildcardNoHost(s: string)
    requires s == "**"
    ensures ParseWithScheme(s, 0).None?
  {
    assert s[..0] == "" && s[0..] == s;
    assert ParseHost(s, true) == ParseBareName(s);
  }

  /** Nothing that starts with a single quote is a source expression; in
      particular no quoted keyword is. */
  lemma QuoteStartRejected(s: string)
    requires |s| > 0 && s[0] == '\''
    ensures !IsSourceExpression(s)
  {
    NoSchemeWithout(s, 8);
    NoSchemeWithout(s, 7);
    NoHostWithout(s);
    assert !EqualsIgnoreCase(s, "data:") by { assert Lower(s[0]) != Lower("data:"[0]); }
    RejectedWithoutParse(s);
  }

  lemma NoSchemeWithout(s: string, k: nat)
    requires |s| > 0 && Lower(s[0]) != 'h' && k > 0
    ensures ParseWithScheme(s, k) == None
  {
    if k <= |s| {
      assert s[..k][0] == s[0];
      assert Lower("http://"[0]) == 'h' && Lower("https://"[0]) == 'h';
    }
  }

  lemma NoHostWithout(s: string)
    requires |s| > 0 && s[0] != '[' && s[0] != '*' && s[0] != '%' && !IsHostHeadChar(s[0])
    ensures ParseWithScheme(s, 0) == None
  {
    ParseHostOfBareName(s, true);
    assert ParseBareName(s) == None;
    assert s[..0] == "" && s[0..] == s;
  }
}
