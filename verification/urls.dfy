/** URL decomposition (go2postman.go ParseURL, and the copy of it inlined in
    ParseCurlCommand): protocol before "://", host up to the first '/', path up to
    the first '?', query pairs split on '&' and then at the first '='. No
    percent-decoding and no validation of the parts. */
module Urls {
  import opened Wrappers
  import opened GoStrings
  import opened Postman

  datatype UrlError = MalformedUrl(url: string)

  /** One '&'-piece of a query string split at its first '='; a piece without '='
      becomes a key with an empty value. */
  function ParseParam(piece: string): (p: QueryParam)
    ensures Contains(piece, "=") ==> piece == p.key + "=" + p.value && '=' !in p.key
    ensures !Contains(piece, "=") ==> p == QueryParam(piece, "")
  {
    match Cut(piece, "=")
    case None => QueryParam(piece, "")
    case Some((k, v)) =>
      ContainsChar(k, '=');
      QueryParam(k, v)
  }

  /** The query pairs of a query string, one per '&'-piece, in order. */
  function ParseQuery(q: string): (r: seq<QueryParam>)
    ensures |r| == |Split(q, "&")|
    ensures forall k :: 0 <= k < |r| ==>
      (Contains(Split(q, "&")[k], "=") ==>
         Split(q, "&")[k] == r[k].key + "=" + r[k].value && '=' !in r[k].key) &&
      (!Contains(Split(q, "&")[k], "=") ==> r[k] == QueryParam(Split(q, "&")[k], ""))
    ensures forall k :: 0 <= k < |r| ==> '&' !in r[k].key && '&' !in r[k].value
  {
    var pieces := Split(q, "&");
    var r := seq(|pieces|, k requires 0 <= k < |pieces| => ParseParam(pieces[k]));
    assert forall k :: 0 <= k < |r| ==> '&' !in r[k].key && '&' !in r[k].value by {
      forall k | 0 <= k < |r| ensures '&' !in r[k].key && '&' !in r[k].value {
        ContainsChar(pieces[k], '&');
      }
    }
    r
  }

  /** How the raw-request parser writes a pair back into a URL: `key=value`, or the
      key alone when the value is empty. */
  function RenderParam(p: QueryParam): (r: string)
    ensures HasPrefix(r, p.key)
    ensures r == p.key <==> p.value == ""
    ensures '=' !in p.key ==> ParseParam(r) == p
  {
    if p.value != "" then
      assert '=' !in p.key ==> Cut(p.key + "=" + p.value, "=") == Some((p.key, p.value)) by {
        if '=' !in p.key { CutAt(p.key, "=", p.value); }
      }
      p.key + "=" + p.value
    else
      ContainsChar(p.key, '=');
      p.key
  }

  /** The pairs written back and joined with '&'. */
  function RenderQuery(ps: seq<QueryParam>): (r: string)
    ensures |ps| == 0 ==> r == ""
    ensures |ps| == 1 ==> r == RenderParam(ps[0])
  {
    Join(seq(|ps|, k requires 0 <= k < |ps| => RenderParam(ps[k])), "&")
  }

  /** One more pair is written after the others, behind a '&'; with RenderParam this fixes
      the text of every list of pairs. */
  lemma RenderQuerySnoc(ps: seq<QueryParam>, p: QueryParam)
    requires |ps| >= 1
    ensures RenderQuery(ps + [p]) == RenderQuery(ps) + "&" + RenderParam(p)
  {
    var all := ps + [p];
    var parts := seq(|all|, k requires 0 <= k < |all| => RenderParam(all[k]));
    assert parts == seq(|ps|, k requires 0 <= k < |ps| => RenderParam(ps[k])) + [RenderParam(p)];
    JoinAppend(seq(|ps|, k requires 0 <= k < |ps| => RenderParam(ps[k])), [RenderParam(p)], "&");
  }

  /** Parsing a written-back query gives the pairs again, provided no key holds '=' or '&'
      and no value holds '&' (true of every pair ParseQuery produces). */
  lemma ParseRenderQuery(ps: seq<QueryParam>)
    requires |ps| >= 1
    requires forall k :: 0 <= k < |ps| ==> '=' !in ps[k].key && '&' !in ps[k].key && '&' !in ps[k].value
    ensures ParseQuery(RenderQuery(ps)) == ps
  {
    var pieces := seq(|ps|, k requires 0 <= k < |ps| => RenderParam(ps[k]));
    assert forall k :: 0 <= k < |pieces| ==> '&' !in pieces[k];
    SplitJoin(pieces, "&");
    forall k | 0 <= k < |ps| ensures ParseParam(pieces[k]) == ps[k] {
      var p := ps[k];
      if p.value != "" {
        CutAt(p.key, "=", p.value);
      } else {
        NoLeadRuneNoOccurrence(p.key, "=");
      }
    }
  }

  /** The piece's only '=' is its last rune, so its value is empty: "key=". */
  predicate DanglingEquals(piece: string) {
    |piece| > 0 && piece[|piece| - 1] == '=' && '=' !in piece[..|piece| - 1]
  }

  /** Writing back a parsed query reproduces it unless some piece is a dangling "key=". */
  lemma RenderParseQuery(q: string)
    requires forall k :: 0 <= k < |Split(q, "&")| ==> !DanglingEquals(Split(q, "&")[k])
    ensures RenderQuery(ParseQuery(q)) == q
  {
    var pieces := Split(q, "&");
    var ps := ParseQuery(q);
    var rendered := seq(|ps|, k requires 0 <= k < |ps| => RenderParam(ps[k]));
    forall k | 0 <= k < |ps| ensures rendered[k] == pieces[k] {
      if Contains(pieces[k], "=") {
        KeyEqualsIsDangling(ps[k].key);
      }
    }
    assert rendered == pieces;
  }

  /** A '='-free key followed by '=' is a dangling piece. */
  lemma KeyEqualsIsDangling(key: string)
    requires '=' !in key
    ensures DanglingEquals(key + "=")
  {
    assert (key + "=")[..|key|] == key;
  }

  /** A dangling "key=" is written back as "key", without its '='. */
  lemma DanglingEqualsIsLost(key: string)
    requires '=' !in key && '&' !in key
    ensures RenderQuery(ParseQuery(key + "=")) == key
  {
    SplitOfRuneFree(key + "=", '&');
    CutAt(key, "=", "");
    assert key + "=" + "" == key + "=";
    assert ParseParam(key + "=") == QueryParam(key, "");
    assert ParseQuery(key + "=") == [QueryParam(key, "")];
    assert Join([key], "&") == key;
  }

  /** The '/'-separated segments of a path with the empty ones dropped (so a leading,
      trailing or doubled '/' leaves no empty segment). */
  function PathSegments(path: string): (segs: seq<string>)
    ensures forall k :: 0 <= k < |segs| ==> segs[k] != "" && '/' !in segs[k]
    ensures forall x :: x in segs <==> x in Split(path, "/") && x != ""
  {
    var pieces := Split(path, "/");
    assert forall k :: 0 <= k < |pieces| ==> '/' !in pieces[k] by {
      forall k | 0 <= k < |pieces| ensures '/' !in pieces[k] {
        ContainsChar(pieces[k], '/');
      }
    }
    if path != "" then
      var r := NonEmpty(pieces);
      assert forall k :: 0 <= k < |r| ==> r[k] in pieces;
      r
    else
      SplitShape(path, "/");
      []
  }

  /** The segments are the non-empty '/'-pieces, in order, repeats kept. */
  lemma PathSegmentsArePieces(path: string)
    ensures PathSegments(path) == NonEmpty(Split(path, "/"))
  {
    if path == "" {
      SplitOfRuneFree("", '/');
      NonEmptySingle("");
    }
  }

  /** The segments of two paths joined by '/' are those of the first, then those of the second. */
  lemma PathSegmentsAppend(a: string, b: string)
    ensures PathSegments(a + "/" + b) == PathSegments(a) + PathSegments(b)
  {
    SplitAtRune(a, b, '/');
    assert a + "/" + b == a + ['/'] + b;
    NonEmptyAppend(Split(a, "/"), Split(b, "/"));
    PathSegmentsArePieces(a + "/" + b);
    PathSegmentsArePieces(a);
    PathSegmentsArePieces(b);
  }

  /** A piece without '/' is one segment, or none when it is empty. */
  lemma PathSegmentsOfPiece(p: string)
    requires '/' !in p
    ensures PathSegments(p) == if p == "" then [] else [p]
  {
    SplitOfRuneFree(p, '/');
    NonEmptySingle(p);
    PathSegmentsArePieces(p);
  }

  /** Segments joined with '/' split back into the same segments. */
  lemma PathSegmentsOfJoin(segs: seq<string>)
    requires |segs| >= 1
    requires forall k :: 0 <= k < |segs| ==> segs[k] != "" && '/' !in segs[k]
    ensures PathSegments(Join(segs, "/")) == segs
  {
    SplitJoin(segs, "/");
    NonEmptyOfNonEmpty(segs);
    assert Join(segs, "/") != "" by { JoinMembers(segs, "/", segs[0][0], 0); }
  }

  /** The host text up to the first '/', and what follows that '/' (empty when there is none). */
  function HostAndPath(rest: string): (r: (string, string))
    ensures '/' !in r.0
    ensures rest == r.0 || rest == r.0 + "/" + r.1
    ensures '/' !in rest ==> r == (rest, "")
  {
    ContainsChar(rest, '/');
    match Cut(rest, "/")
    case None => (rest, "")
    case Some((h, p)) =>
      ContainsChar(h, '/');
      (h, p)
  }

  /** The path text up to the first '?', and the query text after it if there is a '?'. */
  function PathAndQuery(path: string): (r: (string, Option<string>))
    ensures r.1.None? <==> '?' !in path
    ensures r.1.None? ==> r.0 == path
    ensures r.1.Some? ==> path == r.0 + "?" + r.1.value && '?' !in r.0
  {
    ContainsChar(path, '?');
    match Cut(path, "?")
    case None => (path, None)
    case Some((p, q)) =>
      ContainsChar(p, '?');
      (p, Some(q))
  }

  /** ParseURL after "://": host up to the first '/', path up to the first '?', query after it. */
  function Decompose(raw: string, protocol: string, rest: string): (u: Url)
    ensures u.raw == raw && u.protocol == protocol
    ensures '/' !in Join(u.host, ".")
    ensures rest == Join(u.host, ".") || HasPrefix(rest, Join(u.host, ".") + "/")
    ensures forall k :: 0 <= k < |u.path| ==> u.path[k] != "" && '/' !in u.path[k]
    ensures '/' !in rest ==> u.path == [] && u.query == []
    ensures '?' !in rest ==> u.query == []
  {
    var (host, path) := HostAndPath(rest);
    var (path', query) := PathAndQuery(path);
    assert '?' !in rest ==> '?' !in path;
    assert HasPrefix(rest, host + "/") || rest == host by {
      if rest != host { assert rest[..|host| + 1] == host + "/"; }
    }
    Url(raw, protocol, Split(host, "."), PathSegments(path'), if query.Some? then ParseQuery(query.value) else [])
  }

  /** Go's ParseURL: fails exactly when there is no "://"; otherwise keeps the input as
      `raw`, the text before the first "://" as the protocol, and decomposes the rest. */
  function ParseURL(s: string): (r: Result<Url, UrlError>)
    ensures r.Failure? <==> !Contains(s, "://")
    ensures r.Failure? ==> r.error == MalformedUrl(s)
    ensures r.Success? ==> r.value.raw == s
    ensures r.Success? ==> !Contains(r.value.protocol, "://")
    ensures r.Success? ==>
      var n := |r.value.protocol| + 3 + |Join(r.value.host, ".")|;
      && HasPrefix(s, r.value.protocol + "://" + Join(r.value.host, "."))
      && '/' !in Join(r.value.host, ".")
      && (n == |s| || s[n] == '/')
    ensures r.Success? ==> forall k :: 0 <= k < |r.value.path| ==> r.value.path[k] != "" && '/' !in r.value.path[k]
    ensures r.Success? && '?' !in s ==> r.value.query == []
  {
    match Cut(s, "://")
    case None => Failure(MalformedUrl(s))
    case Some((protocol, rest)) =>
      var u := Decompose(s, protocol, rest);
      HostBeforeSlash(protocol + "://", rest, Join(u.host, "."));
      Success(u)
  }

  /** A host text that is all of `rest`, or is followed in it by '/', stays so behind any prefix. */
  lemma HostBeforeSlash(a: string, rest: string, h: string)
    requires rest == h || HasPrefix(rest, h + "/")
    ensures HasPrefix(a + rest, a + h)
    ensures |a + h| == |a + rest| || (a + rest)[|a + h|] == '/'
    ensures forall c :: c in rest ==> c in a + rest
  {
    if rest != h {
      assert rest[|h|] == (h + "/")[|h|];
    }
    assert (a + rest)[..|a + h|] == a + rest[..|h|];
  }

  /** The URL text built from its parts, as ParseURL expects it: the path (and the query,
      which needs a path) are optional. */
  function ComposeUrl(protocol: string, host: string, path: Option<string>, query: Option<string>): string {
    protocol + "://" + host
      + (if path.Some? then "/" + path.value else "")
      + (if query.Some? then "?" + query.value else "")
  }

  /** ParseURL takes a composed URL back apart: protocol, host labels, path segments and
      query pairs are the parts it was built from. */
  lemma ParseUrlOfParts(protocol: string, host: string, path: Option<string>, query: Option<string>)
    requires ':' !in protocol && '/' !in host
    requires path.Some? ==> '?' !in path.value
    requires path.None? ==> query.None?
    ensures ParseURL(ComposeUrl(protocol, host, path, query)) ==
      Success(Url(ComposeUrl(protocol, host, path, query), protocol, Split(host, "."),
                  if path.Some? then PathSegments(path.value) else [],
                  if query.Some? then ParseQuery(query.value) else []))
  {
    var s := ComposeUrl(protocol, host, path, query);
    var rest := if path.Some? then host + "/" + path.value + (if query.Some? then "?" + query.value else "") else host;
    assert s == protocol + "://" + rest;
    CutAt(protocol, "://", rest);
    assert ParseURL(s) == Success(Decompose(s, protocol, rest));
    if path.None? {
      DecomposeHostOnly(s, protocol, host);
    } else {
      DecomposeWithPath(s, protocol, host, path.value, query);
    }
  }

  lemma DecomposeHostOnly(raw: string, protocol: string, host: string)
    requires '/' !in host
    ensures Decompose(raw, protocol, host) == Url(raw, protocol, Split(host, "."), [], [])
  {
    assert HostAndPath(host) == (host, "");
    assert PathAndQuery("") == ("", None);
  }

  lemma DecomposeWithPath(raw: string, protocol: string, host: string, path: string, query: Option<string>)
    requires '/' !in host && '?' !in path
    ensures Decompose(raw, protocol, host + "/" + path + (if query.Some? then "?" + query.value else ""))
      == Url(raw, protocol, Split(host, "."), PathSegments(path),
             if query.Some? then ParseQuery(query.value) else [])
  {
    var tail := path + (if query.Some? then "?" + query.value else "");
    assert host + "/" + path + (if query.Some? then "?" + query.value else "") == host + "/" + tail;
    CutAt(host, "/", tail);
    assert HostAndPath(host + "/" + tail) == (host, tail);
    if query.Some? {
      assert tail == path + "?" + query.value;
      PathThenQuery(path, query.value);
    } else {
      assert tail == path;
      PathWithoutQuery(path);
    }
  }

  lemma PathWithoutQuery(path: string)
    requires '?' !in path
    ensures PathAndQuery(path) == (path, None)
  {
    var r := PathAndQuery(path);
    assert r.1.None? && r.0 == path;
  }

  lemma PathThenQuery(path: string, q: string)
    requires '?' !in path
    ensures PathAndQuery(path + "?" + q) == (path, Some(q))
  {
    CutAt(path, "?", q);
  }

  /** The decomposition ParseCurlCommand carries inline. The text after the first "://"
      comes from strings.Split, so it stops at a second "://" if there is one. */
  function CurlUrl(urlStr: string): (u: Url)
    requires Contains(urlStr, "://")
    ensures u.raw == urlStr
    ensures HasPrefix(urlStr, u.protocol + "://") && !Contains(u.protocol, "://")
    ensures forall k :: 0 <= k < |u.path| ==> u.path[k] != "" && '/' !in u.path[k]
  {
    var parts := Split(urlStr, "://");
    SplitShape(urlStr, "://");
    assert urlStr == parts[0] + "://" + Join(parts[1..], "://");
    Decompose(urlStr, parts[0], parts[1])
  }

  /** With a single "://", the inline copy and ParseURL agree. */
  lemma CurlUrlAgreesWithParseUrl(urlStr: string)
    requires Contains(urlStr, "://")
    requires |Split(urlStr, "://")| == 2
    ensures ParseURL(urlStr) == Success(CurlUrl(urlStr))
  {
    var parts := Split(urlStr, "://");
    assert parts[1..] == [parts[1]];
    var c := Cut(urlStr, "://");
    assert Split(urlStr, "://") == [c.value.0] + Split(c.value.1, "://");
    assert Join(Split(c.value.1, "://"), "://") == c.value.1;
  }

  /** With a second "://", the inline copy keeps only the text between the first two,
      where ParseURL keeps everything after the first. */
  lemma CurlUrlStopsAtSecondScheme(protocol: string, middle: string, tail: string)
    requires !Contains(protocol, "://") && !Contains(middle, "://")
    ensures var s := protocol + "://" + middle + "://" + tail;
      && Contains(s, "://")
      && CurlUrl(s) == Decompose(s, protocol, middle)
      && ParseURL(s) == Success(Decompose(s, protocol, middle + "://" + tail))
  {
    var s := protocol + "://" + middle + "://" + tail;
    assert s == protocol + "://" + (middle + "://" + tail);
    CutAtScheme(protocol, middle + "://" + tail);
    CutAtScheme(middle, tail);
    assert Split(s, "://") == [protocol] + Split(middle + "://" + tail, "://");
    assert Split(middle + "://" + tail, "://") == [middle] + Split(tail, "://");
    assert OccursAt(s, "://", |protocol|) by {
      assert s[|protocol|..|protocol| + 3] == "://";
    }
  }
}
