/** ParseHttpRequest: a raw HTTP/1.1 request (request line, header lines, a blank line,
    the body) to one collection item, with the URL rebuilt from the request target and
    the Host header. */
module HttpParser {
  import opened Wrappers
  import opened GoStrings
  import opened Postman
  import opened Urls
  import opened Headers
  import opened AuthExtractor
  import opened BodyClassifier

  /** The one way the parser fails: a request line with fewer than two ' '-pieces. */
  datatype ParseError = InvalidRequestLine(line: string)

  // ---------------------------------------------------------------------------------
  // Request line

  /** Method and target: the first two ' '-pieces of the trimmed first line. */
  function RequestLine(line: string): (r: Result<(string, string), ParseError>)
    ensures r.Failure? <==> ' ' !in TrimSpace(line)
    ensures r.Failure? ==> r.error == InvalidRequestLine(TrimSpace(line))
    ensures r.Success? ==> r.value.0 != "" && ' ' !in r.value.0 && ' ' !in r.value.1
    ensures r.Success? ==> HasPrefix(TrimSpace(line), r.value.0 + " " + r.value.1)
    ensures r.Success? ==>
      var t := TrimSpace(line);
      var n := |r.value.0| + 1 + |r.value.1|;
      n <= |t| && (n == |t| || t[n] == ' ')
  {
    var t := TrimSpace(line);
    var parts := Split(t, " ");
    SplitShape(t, " ");
    ContainsChar(t, ' ');
    if |parts| < 2 then Failure(InvalidRequestLine(t))
    else
      FirstTwoPieces(t);
      assert parts[0] != "";
      Success((parts[0], parts[1]))
  }

  /** The first two ' '-pieces hold no ' ' and, with one ' ' between them, begin the text,
      which ends there or goes on with a ' '. */
  lemma FirstTwoPieces(t: string)
    requires |Split(t, " ")| >= 2
    ensures var parts := Split(t, " ");
      ' ' !in parts[0] && ' ' !in parts[1] && HasPrefix(t, parts[0] + " " + parts[1])
    ensures var parts := Split(t, " ");
      var n := |parts[0]| + 1 + |parts[1]|;
      n <= |t| && (n == |t| || t[n] == ' ')
  {
    var parts := Split(t, " ");
    ContainsChar(parts[0], ' ');
    ContainsChar(parts[1], ' ');
    JoinFirstTwo(parts, " ");
    var head := parts[0] + " " + parts[1];
    if t != head {
      assert t[|head|] == (head + " ")[|head|];
    }
  }

  /** A join of two or more pieces begins with the first two and the separator between,
      and either stops there or goes on with the separator. */
  lemma JoinFirstTwo(parts: seq<string>, sep: string)
    requires |parts| >= 2
    ensures HasPrefix(Join(parts, sep), parts[0] + sep + parts[1])
    ensures Join(parts, sep) == parts[0] + sep + parts[1] ||
            HasPrefix(Join(parts, sep), parts[0] + sep + parts[1] + sep)
  {
    var rest := Join(parts[1..], sep);
    assert Join(parts, sep) == parts[0] + sep + rest;
    if |parts| == 2 {
      assert rest == parts[1];
    } else {
      assert rest == parts[1] + sep + Join(parts[2..], sep) by {
        assert parts[1..][1..] == parts[2..];
      }
      assert Join(parts, sep) == (parts[0] + sep + parts[1] + sep) + Join(parts[2..], sep);
    }
  }

  /** No white space anywhere in `s`. */
  predicate Unspaced(s: string) {
    forall k :: 0 <= k < |s| ==> !IsSpace(s[k])
  }

  /** A request line written as method, target and version is read back as the method and
      the target. */
  lemma RequestLineRoundTrip(m: string, target: string, version: string)
    requires m != [] && version != []
    requires Unspaced(m) && Unspaced(target) && Unspaced(version)
    ensures RequestLine(m + " " + target + " " + version) == Success((m, target))
  {
    var line := m + " " + target + " " + version;
    assert line[0] == m[0] && line[|line| - 1] == version[|version| - 1];
    TrimSpaceOfTrimmed(line);
    var parts := [m, target, version];
    assert Join(parts, " ") == line by {
      assert parts[1..] == [target, version];
      assert [target, version][1..] == [version];
      assert Join([version], " ") == version;
      assert Join([target, version], " ") == target + " " + version;
    }
    assert ' ' !in m && ' ' !in target && ' ' !in version by {
      assert IsSpace(' ');
    }
    SplitJoin(parts, " ");
  }

  // ---------------------------------------------------------------------------------
  // Header block

  /** The first index from `i` on whose line is blank once trimmed: where the headers end. */
  function BlankLine(lines: seq<string>, i: nat): (r: Option<nat>)
    requires i <= |lines|
    ensures r.Some? ==> i <= r.value < |lines| && TrimSpace(lines[r.value]) == ""
    ensures r.Some? ==> forall j :: i <= j < r.value ==> TrimSpace(lines[j]) != ""
    ensures r.None? ==> forall j :: i <= j < |lines| ==> TrimSpace(lines[j]) != ""
    decreases |lines| - i
  {
    if i == |lines| then None
    else if TrimSpace(lines[i]) == "" then Some(i)
    else BlankLine(lines, i + 1)
  }

  /** A blank line with no blank line before it is the one found. */
  lemma BlankLineIs(lines: seq<string>, i: nat, e: nat)
    requires i <= e < |lines| && TrimSpace(lines[e]) == ""
    requires forall j :: i <= j < e ==> TrimSpace(lines[j]) != ""
    ensures BlankLine(lines, i) == Some(e)
  {
    var r := BlankLine(lines, i);
    assert r.Some?;
    assert r.value == e;
  }

  /** The index where the header lines stop: the first blank line, or the end. */
  function HeaderEnd(lines: seq<string>): (e: nat)
    requires |lines| >= 1
    ensures 1 <= e <= |lines|
    ensures e < |lines| ==> TrimSpace(lines[e]) == ""
    ensures forall j :: 1 <= j < e ==> TrimSpace(lines[j]) != ""
  {
    match BlankLine(lines, 1)
    case None => |lines|
    case Some(e) => e
  }

  /** Every line trimmed. */
  function TrimLines(ls: seq<string>): (r: seq<string>)
    ensures |r| == |ls| && forall k :: 0 <= k < |ls| ==> r[k] == TrimSpace(ls[k])
  {
    seq(|ls|, k requires 0 <= k < |ls| => TrimSpace(ls[k]))
  }

  /** Trimming a line neither adds nor removes its ':'. */
  lemma {:induction false} ColonLinesTrim(ls: seq<string>)
    ensures ColonLines(TrimLines(ls)) == ColonLines(ls)
    decreases |ls|
  {
    if |ls| > 0 {
      TrimSpaceKeeps(ls[0], ':');
      assert TrimLines(ls)[1..] == TrimLines(ls[1..]);
      ColonLinesTrim(ls[1..]);
    }
  }

  /** The headers of a request: one per trimmed line holding a ':' between the request line
      and the first blank line, in order. */
  function RequestHeaders(lines: seq<string>): (hs: seq<Header>)
    requires |lines| >= 1
    ensures |hs| == ColonLines(lines[1..HeaderEnd(lines)])
    ensures forall k :: 0 <= k < |hs| ==> hs[k].kind == "text" && ':' !in hs[k].key
  {
    var block := lines[1..HeaderEnd(lines)];
    HeaderEntriesCount(TrimLines(block));
    ColonLinesTrim(block);
    HeaderEntries(TrimLines(block))
  }

  /** The index of the last header whose key lower-cases to "host". */
  function LastHostIndex(hs: seq<Header>): (r: Option<nat>)
    ensures r.Some? ==> r.value < |hs| && LowerEquals(hs[r.value].key, "host")
    ensures r.Some? ==> forall j :: r.value < j < |hs| ==> !LowerEquals(hs[j].key, "host")
    ensures r.None? ==> forall j :: 0 <= j < |hs| ==> !LowerEquals(hs[j].key, "host")
    decreases |hs|
  {
    if |hs| == 0 then None
    else if LowerEquals(hs[|hs| - 1].key, "host") then Some(|hs| - 1)
    else LastHostIndex(hs[..|hs| - 1])
  }

  /** The host the header loop leaves: the value of the last Host header, "" without one. */
  function HostOf(hs: seq<Header>): (h: string)
    ensures (forall j :: 0 <= j < |hs| ==> !LowerEquals(hs[j].key, "host")) ==> h == ""
    ensures h != "" ==> exists j :: 0 <= j < |hs| && LowerEquals(hs[j].key, "host") && hs[j].value == h
    ensures |hs| > 0 && LowerEquals(hs[|hs| - 1].key, "host") ==> h == hs[|hs| - 1].value
  {
    match LastHostIndex(hs)
    case None => ""
    case Some(i) => hs[i].value
  }

  /** One more turn of the header loop: a Host header overwrites the host, any other keeps it. */
  lemma HostOfSnoc(hs: seq<Header>, h: Header)
    ensures HostOf(hs + [h]) == if LowerEquals(h.key, "host") then h.value else HostOf(hs)
  {
    var s := hs + [h];
    assert s[..|s| - 1] == hs;
    assert s[|s| - 1] == h;
  }

  // ---------------------------------------------------------------------------------
  // Body

  /** The text after the first blank line, re-joined with "\n"; "" when there is no blank
      line or nothing follows it. */
  function BodyText(lines: seq<string>): (t: string)
    requires |lines| >= 1
    ensures BlankLine(lines, 1).None? ==> t == ""
    ensures t != "" ==> BlankLine(lines, 1).Some? && BlankLine(lines, 1).value + 1 < |lines|
    ensures BlankLine(lines, 1).Some? && BlankLine(lines, 1).value + 2 == |lines| ==> t == lines[|lines| - 1]
    ensures BlankLine(lines, 1).Some? && BlankLine(lines, 1).value + 1 == |lines| ==> t == ""
  {
    match BlankLine(lines, 1)
    case None => ""
    case Some(e) => if e + 1 < |lines| then Join(lines[e + 1..], "\n") else ""
  }

  /** When a line follows the first blank line, the body text is exactly the part of the
      request after the "\n" that ends that blank line. */
  lemma BodyTextIsSuffix(req: string)
    ensures var lines := Split(req, "\n");
      BlankLine(lines, 1).Some? && BlankLine(lines, 1).value + 1 < |lines| ==>
      req == Join(lines[..BlankLine(lines, 1).value + 1], "\n") + "\n" + BodyText(lines)
  {
    var lines := Split(req, "\n");
    match BlankLine(lines, 1)
    case None =>
    case Some(e) =>
      if e + 1 < |lines| {
        JoinAt(lines, e + 1);
      }
  }

  /** Joining lines is joining the lines before a cut, a separator, and the lines after it. */
  lemma JoinAt(lines: seq<string>, c: nat)
    requires 0 < c < |lines|
    ensures Join(lines, "\n") == Join(lines[..c], "\n") + "\n" + Join(lines[c..], "\n")
  {
    assert lines == lines[..c] + lines[c..];
    JoinAppend(lines[..c], lines[c..], "\n");
  }

  // ---------------------------------------------------------------------------------
  // Request target

  /** Protocol, host and path as the target and the Host header give them. */
  datatype Target = Target(protocol: string, host: string, path: string)

  /** The text after the scheme, cut at its first '/': the host before it, and the path
      from that '/' on ("/" when there is none). */
  function AbsoluteTarget(protocol: string, rest: string): (t: Target)
    ensures t.protocol == protocol && '/' !in t.host && HasPrefix(t.path, "/")
    ensures rest == t.host + t.path || ('/' !in rest && rest == t.host && t.path == "/")
  {
    var (h, p) := HostAndPath(rest);
    Target(protocol, h, if '/' in rest then "/" + p else "/")
  }

  /** The target decides the protocol by substring, not by prefix: "https://" anywhere in
      it means https, else "http://" anywhere means http, else https with the Host
      header's host and the target as the path. */
  function ResolveTarget(target: string, headerHost: string): (t: Target)
    ensures t.protocol == "http" || t.protocol == "https"
    ensures t.protocol == "http" <==> Contains(target, "http://") && !Contains(target, "https://")
    ensures !Contains(target, "https://") && !Contains(target, "http://") ==>
      t.host == headerHost && t.path == target
    ensures Contains(target, "https://") || Contains(target, "http://") ==>
      '/' !in t.host && HasPrefix(t.path, "/")
  {
    if Contains(target, "https://") then AbsoluteTarget("https", TrimPrefix(target, "https://"))
    else if Contains(target, "http://") then AbsoluteTarget("http", TrimPrefix(target, "http://"))
    else Target("https", headerHost, target)
  }

  /** An absolute-form https target is split back into its host and path. */
  lemma HttpsTargetRoundTrip(host: string, path: string, headerHost: string)
    requires '/' !in host && HasPrefix(path, "/")
    ensures ResolveTarget("https://" + host + path, headerHost) == Target("https", host, path)
  {
    var target := "https://" + (host + path);
    assert target == "https://" + host + path;
    assert target[..8] == "https://";
    assert OccursAt(target, "https://", 0);
    assert TrimPrefix(target, "https://") == host + path;
    HostThenPath("https", host, path);
  }

  /** An absolute-form http target is split back into its host and path, as long as no
      "https://" occurs in it. */
  lemma HttpTargetRoundTrip(host: string, path: string, headerHost: string)
    requires '/' !in host && HasPrefix(path, "/")
    requires !Contains("http://" + host + path, "https://")
    ensures ResolveTarget("http://" + host + path, headerHost) == Target("http", host, path)
  {
    var target := "http://" + (host + path);
    assert target == "http://" + host + path;
    assert target[..7] == "http://";
    assert OccursAt(target, "http://", 0);
    assert TrimPrefix(target, "http://") == host + path;
    HostThenPath("http", host, path);
  }

  /** Host and path are read back from their concatenation. */
  lemma HostThenPath(protocol: string, host: string, path: string)
    requires '/' !in host && HasPrefix(path, "/")
    ensures AbsoluteTarget(protocol, host + path) == Target(protocol, host, path)
  {
    assert path == "/" + path[1..];
    assert host + path == host + "/" + path[1..];
    CutAt(host, "/", path[1..]);
    assert '/' in host + path by { assert (host + path)[|host|] == '/'; }
  }

  /** An origin-form target holding "https://" further in (a redirect parameter, say) is
      read as if it were absolute: the host is the empty text before its leading '/'. */
  lemma EmbeddedSchemeLosesHost(target: string, headerHost: string)
    requires HasPrefix(target, "/") && Contains(target, "https://")
    ensures ResolveTarget(target, headerHost) == Target("https", "", target)
  {
    assert !HasPrefix(target, "https://") by { assert target[0] == '/'; }
    assert target == "" + "/" + target[1..];
    CutAt("", "/", target[1..]);
    assert '/' in target by { assert target[0] == '/'; }
  }

  // ---------------------------------------------------------------------------------
  // URL

  /** The path's segments: for a path other than "" and "/", one leading '/' dropped, then
      split on '/' with the empty pieces dropped. */
  function HttpSegments(path: string): (segs: seq<string>)
    ensures forall k :: 0 <= k < |segs| ==> segs[k] != "" && '/' !in segs[k]
    ensures '?' !in path ==> forall k :: 0 <= k < |segs| ==> '?' !in segs[k]
    ensures segs == PathSegments(path)
  {
    if path != "" && path != "/" then
      var stripped := TrimPrefix(path, "/");
      var pieces := Split(stripped, "/");
      var r := NonEmpty(pieces);
      assert '?' !in path ==> '?' !in stripped;
      forall k | 0 <= k < |r| ensures '/' !in r[k] && ('?' !in path ==> '?' !in r[k]) {
        assert r[k] in pieces;
        var j :| 0 <= j < |pieces| && pieces[j] == r[k];
        ContainsChar(pieces[j], '/');
        if '?' !in path { SplitRunes(stripped, "/", '?', j); }
      }
      LeadingSlashIsDropped(path);
      r
    else
      PathSegmentsOfPiece("");
      PathSegmentsAppend("", "");
      []
  }

  /** Dropping one leading '/' before splitting loses only an empty piece. */
  lemma LeadingSlashIsDropped(path: string)
    requires path != ""
    ensures NonEmpty(Split(TrimPrefix(path, "/"), "/")) == PathSegments(path)
  {
    PathSegmentsArePieces(path);
    if HasPrefix(path, "/") {
      var tail := path[1..];
      assert path == "" + ['/'] + tail;
      SplitAtRune("", tail, '/');
      SplitOfRuneFree("", '/');
      NonEmptyAppend([""], Split(tail, "/"));
      NonEmptySingle("");
      assert TrimPrefix(path, "/") == tail;
    }
  }

  /** The URL text the parser writes: protocol, "://", host, the segments after a '/' if
      there are any, and the written-back query after a '?' if there is one. */
  function RenderRaw(protocol: string, host: string, segs: seq<string>, query: seq<QueryParam>): (r: string)
    ensures HasPrefix(r, protocol + "://" + host)
    ensures |segs| == 0 && |query| == 0 ==> r == protocol + "://" + host
    ensures |segs| == 0 && |query| > 0 ==> r == protocol + "://" + host + "?" + RenderQuery(query)
  {
    protocol + "://" + host
      + (if |segs| > 0 then "/" + Join(segs, "/") else "")
      + (if |query| > 0 then "?" + RenderQuery(query) else "")
  }

  /** The decomposed URL of a request: the path is cut at its first '?', the query pairs
      are those of the text after it. */
  function RequestUrl(protocol: string, host: string, path: string): (u: Url)
    ensures u.protocol == protocol && Join(u.host, ".") == host
    ensures forall k :: 0 <= k < |u.path| ==> u.path[k] != "" && '/' !in u.path[k] && '?' !in u.path[k]
    ensures |u.query| > 0 <==> '?' in path
    ensures HasPrefix(u.raw, protocol + "://" + host)
    ensures u.raw == RenderRaw(protocol, host, u.path, u.query)
    ensures u.host == Split(host, ".")
    ensures u.path == PathSegments(PathAndQuery(path).0)
    ensures u.query == if PathAndQuery(path).1.Some? then ParseQuery(PathAndQuery(path).1.value) else []
  {
    var (p, q) := PathAndQuery(path);
    var segs := HttpSegments(p);
    var query := if q.Some? then ParseQuery(q.value) else [];
    var raw := RenderRaw(protocol, host, segs, query);
    assert raw == (protocol + "://" + host) + raw[|protocol + "://" + host|..];
    Url(raw, protocol, Split(host, "."), segs, query)
  }

  /** Every key ParseQuery produces is free of '='. */
  lemma ParsedKeysHaveNoEquals(q: string)
    ensures forall k :: 0 <= k < |ParseQuery(q)| ==> '=' !in ParseQuery(q)[k].key
  {
    var ps := ParseQuery(q);
    var pieces := Split(q, "&");
    forall k | 0 <= k < |ps| ensures '=' !in ps[k].key {
      ContainsChar(pieces[k], '=');
    }
  }

  /** Writing back parsed query pairs and parsing again gives the same pairs (a dangling
      "key=" is written as "key" but parses to the same pair). */
  lemma QueryReparses(q: string)
    ensures ParseQuery(RenderQuery(ParseQuery(q))) == ParseQuery(q)
  {
    ParsedKeysHaveNoEquals(q);
    ParseRenderQuery(ParseQuery(q));
  }

  /** The URL text the parser writes is taken apart by ParseURL into the same URL, unless
      it carries a query without any path segment ("https://host?a=1"), which ParseURL
      reads as part of the host. The host must not hold a '/'. */
  lemma RequestUrlReparses(protocol: string, host: string, path: string)
    requires protocol == "http" || protocol == "https"
    requires '/' !in host
    requires '?' in path ==> |RequestUrl(protocol, host, path).path| > 0
    ensures ParseURL(RequestUrl(protocol, host, path).raw) == Success(RequestUrl(protocol, host, path))
  {
    var u := RequestUrl(protocol, host, path);
    var pathPart := if |u.path| > 0 then Some(Join(u.path, "/")) else None;
    var queryPart := if |u.query| > 0 then Some(RenderQuery(u.query)) else None;
    assert u.raw == ComposeUrl(protocol, host, pathPart, queryPart);
    if |u.path| > 0 {
      JoinRunes(u.path, "/", '?');
    }
    assert ':' !in protocol;
    ParseUrlOfParts(protocol, host, pathPart, queryPart);
    if |u.path| > 0 {
      PathSegmentsOfJoin(u.path);
    }
    if |u.query| > 0 {
      var q := PathAndQuery(path).1;
      assert q.Some? && u.query == ParseQuery(q.value);
      QueryReparses(q.value);
    }
  }

  // ---------------------------------------------------------------------------------
  // The whole request

  /** A raw request to an item; `index` is not used, and `name` is always replaced by the
      method and the last path segment (or the host). */
  function ParseHttpRequest(req: string, index: int, name: string): (r: Result<Item, ParseError>)
    ensures var first := TrimSpace(Split(req, "\n")[0]);
      && (r.Failure? <==> ' ' !in first)
      && (r.Failure? ==> r.error == InvalidRequestLine(first))
      && (r.Success? ==> HasPrefix(first, r.value.request.httpMethod + " "))
    ensures r.Success? ==>
      var lines := Split(req, "\n");
      var rq := r.value.request;
      && rq.httpMethod != "" && ' ' !in rq.httpMethod
      && rq.headers == RequestHeaders(lines)
      && rq.auth == AuthAfter(None, rq.headers)
      && rq.body == RequestBody(BodyText(lines), rq.headers)
      && r.value.name == rq.httpMethod + " " +
           (if |rq.url.path| > 0 then Last(rq.url.path) else Join(rq.url.host, "."))
  {
    var lines := Split(req, "\n");
    match RequestLine(lines[0])
    case Failure(e) => Failure(e)
    case Success((m, target)) =>
      var hs := RequestHeaders(lines);
      var t := ResolveTarget(target, HostOf(hs));
      var url := RequestUrl(t.protocol, t.host, t.path);
      var resource := if |url.path| > 0 then Last(url.path) else t.host;
      assert HasPrefix(TrimSpace(lines[0]), m + " ") by {
        var first := TrimSpace(lines[0]);
        assert first[..|m| + 1] == (m + " " + target)[..|m| + 1];
      }
      Success(Item(m + " " + resource, Request(m, hs, RequestBody(BodyText(lines), hs), url, AuthAfter(None, hs))))
  }

  /** The URL of a parsed request: rebuilt from the target and the last Host header. */
  lemma RequestUrlOfTarget(req: string, index: int, name: string)
    ensures var r := ParseHttpRequest(req, index, name);
      var lines := Split(req, "\n");
      r.Success? ==>
        var target := RequestLine(lines[0]).value.1;
        var t := ResolveTarget(target, HostOf(RequestHeaders(lines)));
        r.value.request.url == RequestUrl(t.protocol, t.host, t.path)
  {
  }

  /** The supplied name and index have no influence on the item. */
  lemma NameIsAlwaysComputed(req: string, i: int, j: int, a: string, b: string)
    ensures ParseHttpRequest(req, i, a) == ParseHttpRequest(req, j, b)
  {
  }

  /** The check for an empty line list can never fire: splitting always yields a line. */
  lemma RequestAlwaysHasALine(req: string)
    ensures |Split(req, "\n")| >= 1
  {
  }

  // ---------------------------------------------------------------------------------
  // Round trip

  /** A header that can be written on a line of its own and read back: text kind, no ':'
      in the key, trimmed key and value, a non-empty value, no line break. */
  predicate WritableHeader(h: Header) {
    && h.kind == "text" && ':' !in h.key && Trimmed(h.key) && Trimmed(h.value) && h.value != ""
    && '\n' !in h.key && '\n' !in h.value
  }

  /** The lines of a written request: the request line, one per header, a blank line, then
      the lines of the body. */
  function RequestLines(m: string, target: string, hs: seq<Header>, body: string): seq<string> {
    [m + " " + target + " HTTP/1.1"] + RenderHeaders(hs) + [""] + Split(body, "\n")
  }

  /** A request written out, its lines joined with "\n". */
  function RenderRequest(m: string, target: string, hs: seq<Header>, body: string): string {
    Join(RequestLines(m, target, hs, body), "\n")
  }

  /** A written header line is trimmed and not blank. */
  lemma WrittenHeaderLine(h: Header)
    requires WritableHeader(h)
    ensures TrimSpace(RenderHeader(h)) == RenderHeader(h) != ""
    ensures '\n' !in RenderHeader(h)
  {
    var t := RenderHeader(h);
    assert t[0] == if h.key == "" then ':' else h.key[0];
    assert t[|t| - 1] == h.value[|h.value| - 1];
    TrimSpaceOfTrimmed(t);
  }

  /** Splitting a written request on "\n" gives back its lines. */
  lemma RequestLinesSplit(m: string, target: string, hs: seq<Header>, body: string)
    requires Unspaced(m) && Unspaced(target)
    requires forall k :: 0 <= k < |hs| ==> WritableHeader(hs[k])
    ensures Split(RenderRequest(m, target, hs, body), "\n") == RequestLines(m, target, hs, body)
  {
    var parts := RequestLines(m, target, hs, body);
    var lines := RenderHeaders(hs);
    var bodyLines := Split(body, "\n");
    assert IsSpace('\n');
    forall k | 0 <= k < |parts| ensures '\n' !in parts[k] {
      if k == 0 {
        var first := parts[0];
        forall i | 0 <= i < |first| ensures first[i] != '\n' {
          if i < |m| { assert first[i] == m[i]; }
          else if |m| < i < |m| + 1 + |target| { assert first[i] == target[i - |m| - 1]; }
        }
      } else if k <= |hs| {
        assert parts[k] == lines[k - 1];
        WrittenHeaderLine(hs[k - 1]);
      } else if k > |hs| + 1 {
        assert parts[k] == bodyLines[k - |hs| - 2];
        ContainsChar(bodyLines[k - |hs| - 2], '\n');
      }
    }
    SplitJoin(parts, "\n");
  }

  /** A written request is parsed back into the same method, headers, auth and body. */
  lemma RequestRoundTrip(m: string, target: string, hs: seq<Header>, body: string, index: int, name: string)
    requires m != [] && Unspaced(m) && Unspaced(target)
    requires forall k :: 0 <= k < |hs| ==> WritableHeader(hs[k])
    ensures var r := ParseHttpRequest(RenderRequest(m, target, hs, body), index, name);
      && r.Success?
      && r.value.request.httpMethod == m
      && r.value.request.headers == hs
      && r.value.request.auth == AuthAfter(None, hs)
      && r.value.request.body == RequestBody(body, hs)
  {
    var req := RenderRequest(m, target, hs, body);
    var parts := RequestLines(m, target, hs, body);
    RequestLinesSplit(m, target, hs, body);
    assert Split(req, "\n") == parts;
    WrittenRequestLine(m, target, hs, body);
    WrittenHeaders(m, target, hs, body);
    WrittenBody(m, target, hs, body);
    ParsedFromLines(req, index, name);
  }

  /** Once the request line is read, the item is made of the header block and the body text. */
  lemma ParsedFromLines(req: string, index: int, name: string)
    ensures var r := ParseHttpRequest(req, index, name);
      var lines := Split(req, "\n");
      var hs := RequestHeaders(lines);
      var first := RequestLine(lines[0]);
      first.Success? ==>
        && r.Success?
        && r.value.request.httpMethod == first.value.0
        && r.value.request.headers == hs
        && r.value.request.auth == AuthAfter(None, hs)
        && r.value.request.body == RequestBody(BodyText(lines), hs)
  {
  }

  /** The request line of a written request is read back. */
  lemma WrittenRequestLine(m: string, target: string, hs: seq<Header>, body: string)
    requires m != [] && Unspaced(m) && Unspaced(target)
    ensures RequestLine(RequestLines(m, target, hs, body)[0]) == Success((m, target))
  {
    assert RequestLines(m, target, hs, body)[0] == m + " " + target + " " + "HTTP/1.1";
    assert Unspaced("HTTP/1.1") by {
      var v := "HTTP/1.1";
      forall k | 0 <= k < |v| ensures !IsSpace(v[k]) { }
    }
    RequestLineRoundTrip(m, target, "HTTP/1.1");
  }

  /** The first blank line of a written request is the one after the headers. */
  lemma WrittenBlankLine(m: string, target: string, hs: seq<Header>, body: string)
    requires forall k :: 0 <= k < |hs| ==> WritableHeader(hs[k])
    ensures BlankLine(RequestLines(m, target, hs, body), 1) == Some(|hs| + 1)
  {
    var parts := RequestLines(m, target, hs, body);
    WrittenLayout(m, target, hs, body);
    HeaderBlock(parts, hs);
  }

  /** The headers of a written request are read back. */
  lemma WrittenHeaders(m: string, target: string, hs: seq<Header>, body: string)
    requires forall k :: 0 <= k < |hs| ==> WritableHeader(hs[k])
    ensures RequestHeaders(RequestLines(m, target, hs, body)) == hs
  {
    var parts := RequestLines(m, target, hs, body);
    WrittenLayout(m, target, hs, body);
    HeaderBlock(parts, hs);
  }

  /** Where the header lines, the blank line and the body lines sit in a written request. */
  lemma WrittenLayout(m: string, target: string, hs: seq<Header>, body: string)
    ensures var parts := RequestLines(m, target, hs, body);
      && |parts| >= |hs| + 2
      && parts[1..|hs| + 1] == RenderHeaders(hs)
      && parts[|hs| + 1] == ""
      && parts[|hs| + 2..] == Split(body, "\n")
  {
    Layout(m + " " + target + " HTTP/1.1", RenderHeaders(hs), Split(body, "\n"));
  }

  lemma Layout(x: string, a: seq<string>, y: seq<string>)
    ensures var p := [x] + a + [""] + y;
      |p| == |a| + 2 + |y| && p[1..|a| + 1] == a && p[|a| + 1] == "" && p[|a| + 2..] == y
  {
  }

  /** A block of written header lines closed by a blank line is read back as the headers. */
  lemma HeaderBlock(parts: seq<string>, hs: seq<Header>)
    requires |parts| >= |hs| + 2
    requires forall k :: 0 <= k < |hs| ==> WritableHeader(hs[k])
    requires parts[1..|hs| + 1] == RenderHeaders(hs) && parts[|hs| + 1] == ""
    ensures BlankLine(parts, 1) == Some(|hs| + 1)
    ensures RequestHeaders(parts) == hs
  {
    var lines := RenderHeaders(hs);
    var e := |hs| + 1;
    forall j | 1 <= j < e ensures TrimSpace(parts[j]) != "" {
      assert parts[j] == lines[j - 1];
      WrittenHeaderLine(hs[j - 1]);
    }
    BlankLineIs(parts, 1, e);
    assert HeaderEnd(parts) == e;
    WrittenLinesAreTrimmed(hs);
    HeaderEntriesRoundTrip(hs);
  }

  /** Trimming written header lines changes none of them. */
  lemma WrittenLinesAreTrimmed(hs: seq<Header>)
    requires forall k :: 0 <= k < |hs| ==> WritableHeader(hs[k])
    ensures TrimLines(RenderHeaders(hs)) == RenderHeaders(hs)
  {
    var lines := RenderHeaders(hs);
    forall k | 0 <= k < |lines| ensures TrimLines(lines)[k] == lines[k] {
      WrittenHeaderLine(hs[k]);
    }
  }

  /** The body of a written request is read back. */
  lemma WrittenBody(m: string, target: string, hs: seq<Header>, body: string)
    requires forall k :: 0 <= k < |hs| ==> WritableHeader(hs[k])
    ensures BodyText(RequestLines(m, target, hs, body)) == body
  {
    WrittenLayout(m, target, hs, body);
    WrittenBlankLine(m, target, hs, body);
  }
}
