/** ParseCurlCommand: one `curl ...` line to one collection item, by the fixed regular
    expressions of the converter (modelled by the scanners of CurlScan). */
module CurlParser {
  import opened Wrappers
  import opened GoStrings
  import opened Postman
  import opened Urls
  import opened Headers
  import opened AuthExtractor
  import opened CurlScan

  /** A text starting with `http://` or `https://` contains "://". */
  lemma SchemeHasSeparator(u: string)
    requires HasPrefix(u, "http://") || HasPrefix(u, "https://")
    ensures Contains(u, "://")
  {
    if HasPrefix(u, "https://") {
      assert u[5..8] == u[..8][5..8];
      assert OccursAt(u, "://", 5);
    } else {
      assert u[4..7] == u[..7][4..7];
      assert OccursAt(u, "://", 4);
    }
  }

  /** The URL text: the double-quoted capture if there is one, else the capture after white space. */
  function UrlText(cmd: string): (u: Option<string>)
    ensures u.Some? ==> (HasPrefix(u.value, "http://") || HasPrefix(u.value, "https://")) && Contains(u.value, "://")
    ensures QuotedUrlValue(cmd).Some? ==> u == QuotedUrlValue(cmd)
    ensures QuotedUrlValue(cmd).None? ==> u == BareUrlValue(cmd)
  {
    var r := if QuotedUrlValue(cmd).Some? then QuotedUrlValue(cmd) else BareUrlValue(cmd);
    if r.Some? then SchemeHasSeparator(r.value); r else r
  }

  /** The body flags, in the order their patterns are tried. */
  const DataFlags: seq<string> := ["-d", "--data", "--data-raw"]

  /** The position in `flags` of the first flag whose pattern matches somewhere in `cmd`. */
  function FirstDataFlag(cmd: string, flags: seq<string>): (r: Option<nat>)
    ensures r.Some? ==> r.value < |flags| && FlagValue(cmd, flags[r.value]).Some?
    ensures r.Some? ==> forall j :: 0 <= j < r.value ==> FlagValue(cmd, flags[j]).None?
    ensures r.None? <==> forall j :: 0 <= j < |flags| ==> FlagValue(cmd, flags[j]).None?
    decreases |flags|
  {
    if |flags| == 0 then None
    else if FlagValue(cmd, flags[0]).Some? then Some(0)
    else
      var tail := flags[1..];
      assert forall j :: 0 <= j < |tail| ==> tail[j] == flags[j + 1];
      match FirstDataFlag(cmd, tail)
      case None => None
      case Some(k) => Some(k + 1)
  }

  /** The body: the capture of the first body pattern that matches, annotated as JSON,
      else an empty raw body without options. */
  function CurlBody(cmd: string): (b: Body)
    ensures b.mode == "raw"
    ensures b.language == Json || b.language == Unset
    ensures b.language == Unset <==> forall j :: 0 <= j < |DataFlags| ==> FlagValue(cmd, DataFlags[j]).None?
    ensures b.language == Unset ==> b.raw == ""
    ensures b.language == Json ==> FlagText(b.raw)
    ensures FirstDataFlag(cmd, DataFlags).Some? ==>
      b.raw == FlagValue(cmd, DataFlags[FirstDataFlag(cmd, DataFlags).value]).value
    ensures forall j ::
      (0 <= j < |DataFlags| && FlagValue(cmd, DataFlags[j]).Some? &&
       forall i :: 0 <= i < j ==> FlagValue(cmd, DataFlags[i]).None?)
      ==> b.raw == FlagValue(cmd, DataFlags[j]).value
  {
    match FirstDataFlag(cmd, DataFlags)
    case None => Body("raw", "", Unset)
    case Some(k) => Body("raw", FlagValue(cmd, DataFlags[k]).value, Json)
  }

  /** The -b pattern's capture, as a Cookie header; no header when it does not match. */
  function CookieHeaders(cmd: string): (hs: seq<Header>)
    ensures |hs| <= 1
    ensures |hs| == 0 <==> FlagValue(cmd, "-b").None?
    ensures |hs| == 1 ==> hs[0] == Header("Cookie", FlagValue(cmd, "-b").value, "text") && FlagText(hs[0].value)
  {
    match FlagValue(cmd, "-b")
    case None => []
    case Some(c) => [Header("Cookie", c, "text")]
  }

  /** The headers given by -H flags, in order, those without a ':' dropped. */
  function FlagHeaders(cmd: string): (hs: seq<Header>)
    ensures |hs| == ColonLines(FlagValues(cmd, "-H"))
  {
    HeaderEntriesCount(FlagValues(cmd, "-H"));
    HeaderEntries(FlagValues(cmd, "-H"))
  }

  /** The last path segment, "root" for a URL without one. */
  function CurlResourceName(url: Url): (n: string)
    ensures |url.path| == 0 ==> n == "root"
    ensures |url.path| > 0 ==> n == url.path[|url.path| - 1]
  {
    if |url.path| > 0 then Last(url.path) else "root"
  }

  /** The method: the -X capture, "GET" when there is none. */
  function CurlMethod(cmd: string): (m: string)
    ensures m != [] && forall k :: 0 <= k < |m| ==> IsUpper(m[k])
    ensures MethodValue(cmd).Some? ==> m == MethodValue(cmd).value
    ensures MethodValue(cmd).None? ==> m == "GET"
  {
    if MethodValue(cmd).Some? then MethodValue(cmd).value else "GET"
  }

  /** The item name and URL: from the URL when one is found, else "Request N" and an empty URL. */
  function NameAndUrl(cmd: string, m: string, index: int): (r: (string, Url))
    ensures UrlText(cmd).None? ==> r == ("Request " + IntToDecimal(index), EmptyUrl)
    ensures UrlText(cmd).Some? ==> r.1 == CurlUrl(UrlText(cmd).value) && r.0 == m + " " + CurlResourceName(r.1)
  {
    match UrlText(cmd)
    case None => ("Request " + IntToDecimal(index), EmptyUrl)
    case Some(u) =>
      var url := CurlUrl(u);
      (m + " " + CurlResourceName(url), url)
  }

  /** One cURL line, the 1-based `index` of the line among the cURL lines, to one item. */
  function ParseCurlCommand(cmd: string, index: int): (item: Item)
    ensures item.request.httpMethod == CurlMethod(cmd)
    ensures UrlText(cmd).None? ==> item.request.url == EmptyUrl && item.name == "Request " + IntToDecimal(index)
    ensures UrlText(cmd).Some? ==>
      && item.request.url == CurlUrl(UrlText(cmd).value)
      && item.name == item.request.httpMethod + " " + CurlResourceName(item.request.url)
    ensures item.request.headers == FlagHeaders(cmd) + CookieHeaders(cmd)
    ensures item.request.auth == AuthAfter(None, FlagHeaders(cmd))
    ensures item.request.body == CurlBody(cmd)
  {
    var m := CurlMethod(cmd);
    var hs := FlagHeaders(cmd);
    var (name, url) := NameAndUrl(cmd, m, index);
    Item(name, Request(m, hs + CookieHeaders(cmd), CurlBody(cmd), url, AuthAfter(None, hs)))
  }

  // ---------------------------------------------------------------------------------
  // Properties

  /** A header written as `Key: Value` is what the -H pattern captures, when neither part
      holds a quote. */
  lemma RenderHeaderIsFlagText(h: Header)
    requires forall k :: 0 <= k < |h.key| ==> !IsQuote(h.key[k])
    requires forall k :: 0 <= k < |h.value| ==> !IsQuote(h.value[k])
    ensures FlagText(RenderHeader(h))
  {
    var t := RenderHeader(h);
    forall k | 0 <= k < |t| ensures !IsQuote(t[k]) {
      if k < |h.key| {
        assert t[k] == h.key[k];
      } else if k >= |h.key| + 2 {
        assert t[k] == h.value[k - |h.key| - 2];
      }
    }
  }

  /** A header a cURL line can carry: text kind, a ':'-free key, trimmed parts, no quotes. */
  predicate CurlHeader(h: Header) {
    && h.kind == "text" && ':' !in h.key && Trimmed(h.key) && Trimmed(h.value)
    && (forall k :: 0 <= k < |h.key| ==> !IsQuote(h.key[k]))
    && (forall k :: 0 <= k < |h.value| ==> !IsQuote(h.value[k]))
  }

  /** The part of a rendered command before its -d flag. */
  function CurlHead(m: string, u: string): string {
    "curl -X " + m + " \"" + u + "\" "
  }

  /** A command line as cURL users write it: method, double-quoted URL, a body, then headers. */
  function RenderCurl(m: string, u: string, data: string, hs: seq<Header>): string {
    CurlHead(m, u) + RenderFlag("-d", data) + RenderFlags("-H", RenderHeaders(hs))
  }

  /** Method, URL, body and headers written into a command line are read back: the item
      carries exactly them, its auth is the one the headers give and its name comes from
      the URL. The flags must not occur before their own place in the line. */
  lemma CurlRoundTrip(m: string, u: string, data: string, hs: seq<Header>, index: int)
    requires m != [] && forall k :: 0 <= k < |m| ==> IsUpper(m[k])
    requires QuotableUrl(u)
    requires FlagText(data)
    requires forall k :: 0 <= k < |hs| ==> CurlHeader(hs[k])
    requires !Contains(CurlHead(m, u), "-d")
    requires !Contains(CurlHead(m, u) + RenderFlag("-d", data), "-H")
    requires !Contains(RenderCurl(m, u, data, hs), "-b")
    ensures Contains(u, "://")
    ensures ParseCurlCommand(RenderCurl(m, u, data, hs), index)
      == Item(m + " " + CurlResourceName(CurlUrl(u)),
              Request(m, hs, Body("raw", data, Json), CurlUrl(u), AuthAfter(None, hs)))
  {
    var cmd := RenderCurl(m, u, data, hs);
    RenderedMethod(m, u, data, hs);
    RenderedUrl(m, u, data, hs);
    RenderedBody(m, u, data, hs);
    RenderedHeaders(m, u, data, hs);
    NoFlagNoValue(cmd, "-b");
    var item := ParseCurlCommand(cmd, index);
    assert item.request.httpMethod == m;
    assert item.request.url == CurlUrl(u);
    assert item.request.headers == hs by {
      assert CookieHeaders(cmd) == [];
      assert hs + [] == hs;
    }
  }

  lemma RenderedMethod(m: string, u: string, data: string, hs: seq<Header>)
    requires m != [] && forall k :: 0 <= k < |m| ==> IsUpper(m[k])
    ensures MethodValue(RenderCurl(m, u, data, hs)) == Some(m)
  {
    var tail := RenderFlag("-d", data) + RenderFlags("-H", RenderHeaders(hs));
    assert RenderCurl(m, u, data, hs) == "curl " + "-X " + m + (" \"" + u + "\" " + tail);
    MethodValueRendered("curl ", m, " \"" + u + "\" " + tail);
  }

  lemma RenderedUrl(m: string, u: string, data: string, hs: seq<Header>)
    requires forall k :: 0 <= k < |m| ==> IsUpper(m[k])
    requires QuotableUrl(u)
    ensures UrlText(RenderCurl(m, u, data, hs)) == Some(u)
  {
    var tail := RenderFlag("-d", data) + RenderFlags("-H", RenderHeaders(hs));
    var pre := "curl -X " + m + " ";
    forall k | 0 <= k < |pre| ensures pre[k] != '"' {
      if 8 <= k < 8 + |m| { assert pre[k] == m[k - 8]; }
    }
    assert RenderCurl(m, u, data, hs) == pre + "\"" + u + ("\" " + tail);
    QuotedUrlRendered(pre, u, "\" " + tail);
  }

  lemma RenderedBody(m: string, u: string, data: string, hs: seq<Header>)
    requires FlagText(data)
    requires !Contains(CurlHead(m, u), "-d")
    ensures CurlBody(RenderCurl(m, u, data, hs)) == Body("raw", data, Json)
  {
    var cmd := RenderCurl(m, u, data, hs);
    FlagValueRendered(CurlHead(m, u), "-d", data, RenderFlags("-H", RenderHeaders(hs)));
    assert DataFlags[0] == "-d";
    assert FlagValue(cmd, DataFlags[0]) == Some(data);
  }

  lemma RenderedHeaders(m: string, u: string, data: string, hs: seq<Header>)
    requires forall k :: 0 <= k < |hs| ==> CurlHeader(hs[k])
    requires !Contains(CurlHead(m, u) + RenderFlag("-d", data), "-H")
    ensures FlagHeaders(RenderCurl(m, u, data, hs)) == hs
  {
    var lines := RenderHeaders(hs);
    forall k | 0 <= k < |lines| ensures FlagText(lines[k]) {
      RenderHeaderIsFlagText(hs[k]);
    }
    FlagValuesRendered(CurlHead(m, u) + RenderFlag("-d", data), "-H", lines);
    HeaderEntriesRoundTrip(hs);
  }

  /** A line without "http://" or "https://" keeps the default name, "Request " and the
      line's index in decimal, and an empty URL; the index can be read back from the name. */
  lemma NoUrlNamedByIndex(cmd: string, index: nat)
    requires !Contains(cmd, "http://") && !Contains(cmd, "https://")
    ensures var item := ParseCurlCommand(cmd, index);
      && item.request.url == EmptyUrl
      && HasPrefix(item.name, "Request ")
      && (forall k :: 8 <= k < |item.name| ==> '0' <= item.name[k] <= '9')
      && DecimalValue(item.name[8..]) == index
  {
    NoSchemeNoUrl(cmd);
    var name := ParseCurlCommand(cmd, index).name;
    assert name[8..] == NatToDecimal(index);
    DecimalRoundTrip(index);
  }

  /** A URL in single quotes, as browsers' "Copy as cURL" writes it, is found by neither
      URL pattern: the line keeps the default name and an empty URL. */
  lemma SingleQuotedUrlIgnored(u: string, index: int)
    requires '"' !in u && forall k :: 0 <= k < |u| ==> !IsRegexSpace(u[k])
    ensures var item := ParseCurlCommand("curl '" + u + "'", index);
      item.request.url == EmptyUrl && item.name == "Request " + IntToDecimal(index)
  {
    var s := "curl '" + u + "'";
    forall j: nat ensures QuotedUrlMatcher(s, j).None? && BareUrlMatcher(s, j).None? {
      if j < |s| {
        if j < 6 {
          assert s[j] == "curl '"[j];
        } else if j < 6 + |u| {
          assert s[j] == u[j - 6];
        } else {
          assert s[j] == '\'';
        }
        if j == 4 {
          assert s[5] == '\'';
          assert SchemeEnd(s, 5).None?;
        }
      }
    }
    assert QuotedUrlValue(s).None?;
    assert BareUrlValue(s).None?;
  }

  /** The body patterns are tried in the order -d, --data, --data-raw: the first that
      matches gives the body, whatever the later ones would give. */
  lemma DataFlagOrder(cmd: string, k: nat)
    requires k < |DataFlags| && FlagValue(cmd, DataFlags[k]).Some?
    requires forall j :: 0 <= j < k ==> FlagValue(cmd, DataFlags[j]).None?
    ensures CurlBody(cmd) == Body("raw", FlagValue(cmd, DataFlags[k]).value, Json)
  {
    assert FirstDataFlag(cmd, DataFlags) == Some(k);
  }

  /** The Cookie header never carries an auth, so the auth is the one of the whole header
      list, and it is the auth of the last recognised -H header. */
  lemma CurlAuthIsLastRecognised(cmd: string)
    ensures var item := ParseCurlCommand(cmd, 0);
      var hs := FlagHeaders(cmd);
      && item.request.auth == AuthAfter(None, item.request.headers)
      && item.request.auth == (match LastAuthIndex(hs) case None => None case Some(i) => AuthOf(hs[i]))
  {
    var hs := FlagHeaders(cmd);
    var cs := CookieHeaders(cmd);
    AuthIsLastRecognised(None, hs);
    if |cs| == 1 {
      assert !LowerEquals(cs[0].key, "authorization");
      assert hs + cs == hs + [cs[0]];
      UnrecognisedKeepsAuth(None, hs, cs[0]);
    } else {
      assert hs + cs == hs;
    }
  }
}
