/** Which pair of header names a browser understands, chosen from its name and
    major version as a user-agent parser reports them. */
module HeaderNames {

  datatype HeaderNames = HeaderNames(enforce: string, report: string)

  const Standard: HeaderNames := HeaderNames("Content-Security-Policy", "Content-Security-Policy-Report-Only")
  const XHeaders: HeaderNames := HeaderNames("X-Content-Security-Policy", "X-Content-Security-Policy-Report-Only")
  const WebKit: HeaderNames := HeaderNames("X-WebKit-CSP", "X-WebKit-CSP-Report-Only")

  /** `getCspHeaders`: prefixed names for old Chrome, Firefox and Safari and for
      every MSIE; the standard names for everything else. */
  function GetCspHeaders(browser: string, version: int): (h: HeaderNames)
    ensures h == Standard || h == XHeaders || h == WebKit
  {
    if browser == "chrome" then (if version >= 25 then Standard else WebKit)
    else if browser == "firefox" then (if version >= 23 then Standard else XHeaders)
    else if browser == "msie" then XHeaders
    else if browser == "safari" then (if version >= 7 then Standard else WebKit)
    else Standard
  }

  /** `getEnforceCspHeaderName`: the standard name for current Chrome, Firefox
      and Safari and for any other browser, `X-Content-Security-Policy` for MSIE
      and old Firefox, `X-WebKit-CSP` for old Chrome and Safari. */
  function EnforceHeaderName(browser: string, version: int): (n: string)
    ensures n == Standard.enforce || n == XHeaders.enforce || n == WebKit.enforce
    ensures n == Standard.enforce <==>
      (browser == "chrome" && version >= 25) || (browser == "firefox" && version >= 23)
      || (browser == "safari" && version >= 7) || browser !in {"chrome", "firefox", "msie", "safari"}
    ensures n == WebKit.enforce <==>
      (browser == "chrome" && version < 25) || (browser == "safari" && version < 7)
    ensures n == XHeaders.enforce <==> browser == "msie" || (browser == "firefox" && version < 23)
  {
    TablesDistinct();
    GetCspHeaders(browser, version).enforce
  }

  /** `getReportCspHeaderName` */
  function ReportHeaderName(browser: string, version: int): (n: string)
    ensures n == GetCspHeaders(browser, version).report
    ensures n == EnforceHeaderName(browser, version) + "-Report-Only"
  {
    ReportIsEnforceSuffixed(browser, version);
    GetCspHeaders(browser, version).report
  }

  /** In every table the report-only name is the enforce name plus `-Report-Only`. */
  lemma ReportIsEnforceSuffixed(browser: string, version: int)
    ensures GetCspHeaders(browser, version).report == GetCspHeaders(browser, version).enforce + "-Report-Only"
  {
    Suffixed(Standard);
    Suffixed(XHeaders);
    Suffixed(WebKit);
  }

  lemma Suffixed(h: HeaderNames)
    requires h == Standard || h == XHeaders || h == WebKit
    ensures h.report == h.enforce + "-Report-Only"
  {
    if h == Standard {
      StandardSuffixed();
    } else if h == XHeaders {
      XHeadersSuffixed();
    } else {
      WebKitSuffixed();
    }
  }

  lemma StandardSuffixed()
    ensures Standard.report == Standard.enforce + "-Report-Only"
  {
  }

  lemma XHeadersSuffixed()
    ensures XHeaders.report == XHeaders.enforce + "-Report-Only"
  {
  }

  lemma WebKitSuffixed()
    ensures WebKit.report == WebKit.enforce + "-Report-Only"
  {
  }

  /** The three tables are told apart by their enforce name. */
  lemma TablesDistinct()
    ensures Standard.enforce != XHeaders.enforce && Standard.enforce != WebKit.enforce
    ensures XHeaders.enforce != WebKit.enforce
  {
    assert Standard.enforce[0] != XHeaders.enforce[0];
    assert Standard.enforce[0] != WebKit.enforce[0];
    assert XHeaders.enforce[2] != WebKit.enforce[2];
  }

  /** The decision table, one row per header family. */
  lemma HeaderTable(browser: string, version: int)
    ensures GetCspHeaders(browser, version) == Standard <==>
      (browser == "chrome" && version >= 25) || (browser == "firefox" && version >= 23)
      || (browser == "safari" && version >= 7) || browser !in {"chrome", "firefox", "msie", "safari"}
    ensures GetCspHeaders(browser, version) == WebKit <==>
      (browser == "chrome" && version < 25) || (browser == "safari" && version < 7)
    ensures GetCspHeaders(browser, version) == XHeaders <==>
      browser == "msie" || (browser == "firefox" && version < 23)
  {
    TablesDistinct();
  }
}
